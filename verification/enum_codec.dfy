/**
 * The wire rule for enum values of the consumer's JSON object mapper: a constant
 * is written as its name in lower case, and a string is read back by upper-casing
 * it and looking it up among the constant names. Case mapping is ASCII only.
 */
module EnumCodec {
  import opened Results

  // ---------------------------------------------------------------------------
  // ASCII case mapping
  // ---------------------------------------------------------------------------

  predicate IsUpperLetter(c: char) { 'A' <= c <= 'Z' }

  predicate IsLowerLetter(c: char) { 'a' <= c <= 'z' }

  function UpperChar(c: char): (u: char)
    ensures !IsLowerLetter(u)
    ensures IsLowerLetter(c) ==> u as int == c as int - 32
    ensures !IsLowerLetter(c) ==> u == c
  {
    if IsLowerLetter(c) then (c as int - 32) as char else c
  }

  function LowerChar(c: char): (l: char)
    ensures !IsUpperLetter(l)
    ensures IsUpperLetter(c) ==> l as int == c as int + 32
    ensures !IsUpperLetter(c) ==> l == c
  {
    if IsUpperLetter(c) then (c as int + 32) as char else c
  }

  /** Upper-cases every ASCII letter of `s` and leaves every other character alone. */
  function ToUpper(s: string): (r: string)
    ensures |r| == |s|
    ensures forall i :: 0 <= i < |s| ==> r[i] == UpperChar(s[i])
  {
    if s == [] then [] else [UpperChar(s[0])] + ToUpper(s[1..])
  }

  /** Lower-cases every ASCII letter of `s` and leaves every other character alone. */
  function ToLower(s: string): (r: string)
    ensures |r| == |s|
    ensures forall i :: 0 <= i < |s| ==> r[i] == LowerChar(s[i])
  {
    if s == [] then [] else [LowerChar(s[0])] + ToLower(s[1..])
  }

  predicate IsLowerCase(s: string) { forall i :: 0 <= i < |s| ==> !IsUpperLetter(s[i]) }

  predicate IsUpperCase(s: string) { ToUpper(s) == s }

  predicate EqualsIgnoreCase(a: string, b: string) { ToUpper(a) == ToUpper(b) }

  /** Upper-casing is idempotent: an upper-cased string is its own upper case. */
  lemma ToUpperIdempotent(s: string)
    ensures IsUpperCase(ToUpper(s))
  {
  }

  /** Lower-casing keeps a string's upper-case form. */
  lemma ToUpperOfToLower(s: string)
    ensures ToUpper(ToLower(s)) == ToUpper(s)
  {
  }

  /** `ToLower(n)` is the only all-lower-case spelling of `n` up to case. */
  lemma LowerSpellingUnique(x: string, n: string)
    requires IsLowerCase(x) && EqualsIgnoreCase(x, n)
    ensures x == ToLower(n)
  {
  }

  // ---------------------------------------------------------------------------
  // Enum classes and constants
  // ---------------------------------------------------------------------------

  /** An enum class: the names of its constants in declaration order. A constant is its ordinal. */
  datatype EnumClass = EnumClass(names: seq<string>)
  {
    /** Java gives every constant of an enum a distinct name. */
    predicate WellFormed() {
      forall i, j :: 0 <= i < j < |names| ==> names[i] != names[j]
    }

    predicate IsConstant(ordinal: nat) { ordinal < |names| }
  }

  /** The first ordinal whose name is `name`, if any constant has that name. */
  function IndexOf(names: seq<string>, name: string): (r: Option<nat>)
    ensures r.Some? ==> r.value < |names| && names[r.value] == name
    ensures r.Some? ==> forall j :: 0 <= j < r.value ==> names[j] != name
    ensures r.None? ==> forall j :: 0 <= j < |names| ==> names[j] != name
  {
    if names == [] then None
    else if names[0] == name then Some(0)
    else match IndexOf(names[1..], name)
      case None => None
      case Some(i) => Some(i + 1)
  }

  // ---------------------------------------------------------------------------
  // Serialisation
  // ---------------------------------------------------------------------------

  /** The JSON string written for a constant: its name in lower case. */
  function Serialize(e: EnumClass, ordinal: nat): (r: string)
    requires e.IsConstant(ordinal)
    ensures IsLowerCase(r)
    ensures EqualsIgnoreCase(r, e.names[ordinal])
  {
    ToUpperOfToLower(e.names[ordinal]);
    ToLower(e.names[ordinal])
  }

  /** The serialised form is exactly the constant's name in lower case, and nothing else fits its contract. */
  lemma SerializeIsLowerCaseName(e: EnumClass, ordinal: nat, x: string)
    requires e.IsConstant(ordinal)
    ensures Serialize(e, ordinal) == ToLower(e.names[ordinal])
    ensures IsLowerCase(x) && EqualsIgnoreCase(x, e.names[ordinal]) ==> x == Serialize(e, ordinal)
  {
    if IsLowerCase(x) && EqualsIgnoreCase(x, e.names[ordinal]) {
      LowerSpellingUnique(x, e.names[ordinal]);
    }
  }

  // ---------------------------------------------------------------------------
  // Deserialisation
  // ---------------------------------------------------------------------------

  /** The names of all constants, lower-cased, in declaration order. */
  function LowerNames(names: seq<string>): (r: seq<string>)
    ensures |r| == |names|
    ensures forall i :: 0 <= i < |names| ==> r[i] == ToLower(names[i])
  {
    if names == [] then [] else [ToLower(names[0])] + LowerNames(names[1..])
  }

  /**
   * The strings of `xs` with `sep` between each two neighbours: an empty list joins to "",
   * a non-empty one starts with its first string.
   */
  function Join(xs: seq<string>, sep: string): (r: string)
    ensures |xs| == 0 ==> r == ""
    ensures |xs| > 0 ==> xs[0] <= r
  {
    if |xs| == 0 then ""
    else if |xs| == 1 then xs[0]
    else xs[0] + sep + Join(xs[1..], sep)
  }

  /** Joining strings without upper-case letters gives a string without them. */
  lemma {:induction false} JoinLowerCase(xs: seq<string>, sep: string)
    requires IsLowerCase(sep) && forall i :: 0 <= i < |xs| ==> IsLowerCase(xs[i])
    ensures IsLowerCase(Join(xs, sep))
  {
    if |xs| > 1 {
      JoinLowerCase(xs[1..], sep);
    }
  }

  const MessageHead: string := "Illegal enum value: '"
  const MessageMiddle: string := "'. Possible values: ["
  const MessageTail: string := "]"

  /**
   * The message of the mapping error raised for an unknown value: it quotes the raw
   * input as received, without upper-casing it, and carries the list of possible
   * values between the brackets.
   */
  function IllegalValueMessage(e: EnumClass, raw: string): (m: string)
    ensures var start := |MessageHead| + |raw| + |MessageMiddle|;
            && |m| == start + |PossibleValues(e)| + 1
            && m[..|MessageHead|] == "Illegal enum value: '"
            && m[|MessageHead|..|MessageHead| + |raw|] == raw
            && m[|MessageHead| + |raw|..start] == "'. Possible values: ["
            && m[start..|m| - 1] == PossibleValues(e)
            && m[|m| - 1] == ']'
  {
    MessageHead + raw + MessageMiddle + PossibleValues(e) + MessageTail
  }

  /**
   * Reads a constant from the string value of a JSON token: the upper-cased input
   * must be the name of a constant. On a miss the error quotes the input as received.
   */
  function Deserialize(e: EnumClass, raw: string): (r: Result<nat, string>)
    ensures r.Success? <==> exists i :: 0 <= i < |e.names| && e.names[i] == ToUpper(raw)
    ensures r.Success? ==> e.IsConstant(r.value) && e.names[r.value] == ToUpper(raw)
    ensures r.Failure? ==> r.error == IllegalValueMessage(e, raw)
  {
    match IndexOf(e.names, ToUpper(raw))
    case Some(i) => Success(i)
    case None => Failure(IllegalValueMessage(e, raw))
  }

  // ---------------------------------------------------------------------------
  // Properties of the codec
  // ---------------------------------------------------------------------------

  /** With distinct names, a successful read yields THE constant carrying the upper-cased name. */
  lemma DeserializeFindsConstant(e: EnumClass, raw: string, ordinal: nat)
    requires e.WellFormed() && e.IsConstant(ordinal)
    ensures Deserialize(e, raw) == Success(ordinal) <==> e.names[ordinal] == ToUpper(raw)
  {
    var r := Deserialize(e, raw);
    if e.names[ordinal] == ToUpper(raw) {
      assert r.Success?;
      assert e.names[r.value] == e.names[ordinal];
    }
  }

  /** Two inputs that differ only in ASCII letter case read back the same constant, or both fail. */
  lemma DeserializeIgnoresCase(e: EnumClass, a: string, b: string)
    requires EqualsIgnoreCase(a, b)
    ensures Deserialize(e, a).Success? <==> Deserialize(e, b).Success?
    ensures Deserialize(e, a).Success? ==> Deserialize(e, a) == Deserialize(e, b)
  {
  }

  /** Only a constant whose name is already upper case can ever be read. */
  lemma DeserializeReachesOnlyUpperCaseNames(e: EnumClass, raw: string)
    requires Deserialize(e, raw).Success?
    ensures IsUpperCase(e.names[Deserialize(e, raw).value])
  {
    ToUpperIdempotent(raw);
  }

  /** Round trip: reading what was written gives the constant back, when its name is upper case. */
  lemma RoundTrip(e: EnumClass, ordinal: nat)
    requires e.WellFormed() && e.IsConstant(ordinal)
    requires IsUpperCase(e.names[ordinal])
    ensures Deserialize(e, Serialize(e, ordinal)) == Success(ordinal)
  {
    ToUpperOfToLower(e.names[ordinal]);
    DeserializeFindsConstant(e, Serialize(e, ordinal), ordinal);
  }

  /** A constant whose name is not upper case is written, but what is written cannot be read back. */
  lemma RoundTripFailsForMixedCaseName(e: EnumClass, ordinal: nat)
    requires e.WellFormed() && e.IsConstant(ordinal)
    requires !IsUpperCase(e.names[ordinal])
    ensures Deserialize(e, Serialize(e, ordinal)) != Success(ordinal)
  {
    ToUpperOfToLower(e.names[ordinal]);
  }

  // ---------------------------------------------------------------------------
  // Layout of the error message
  // ---------------------------------------------------------------------------

  /** The summed length of the strings of `xs`. */
  function TotalLength(xs: seq<string>): nat
  {
    if xs == [] then 0 else |xs[0]| + TotalLength(xs[1..])
  }

  /** Where the `i`-th string begins in `Join(xs, sep)`: after `i` strings and `i` separators. */
  function Offset(xs: seq<string>, sep: string, i: nat): nat
    requires i <= |xs|
  {
    TotalLength(xs[..i]) + i * |sep|
  }

  lemma {:induction false} OffsetStep(xs: seq<string>, sep: string, i: nat)
    requires 0 < i <= |xs|
    ensures Offset(xs, sep, i) == |xs[0]| + |sep| + Offset(xs[1..], sep, i - 1)
  {
    assert xs[..i][1..] == xs[1..][..i - 1];
    assert xs[..i] != [];
    assert i * |sep| == (i - 1) * |sep| + |sep|;
  }

  /** The length of a non-empty join: every string plus one separator between each neighbour pair. */
  lemma {:induction false} JoinLength(xs: seq<string>, sep: string)
    requires |xs| > 0
    ensures |Join(xs, sep)| == Offset(xs, sep, |xs| - 1) + |xs[|xs| - 1]|
  {
    if |xs| == 1 {
      assert xs[..0] == [];
    } else {
      JoinLength(xs[1..], sep);
      OffsetStep(xs, sep, |xs| - 1);
    }
  }

  /**
   * The `i`-th string stands at `Offset(xs, sep, i)` in the join, and a separator
   * follows it unless it is the last one.
   */
  lemma {:induction false} JoinLayout(xs: seq<string>, sep: string, i: nat)
    requires i < |xs|
    ensures Offset(xs, sep, i) + |xs[i]| <= |Join(xs, sep)|
    ensures Join(xs, sep)[Offset(xs, sep, i)..Offset(xs, sep, i) + |xs[i]|] == xs[i]
    ensures i + 1 < |xs| ==>
              && Offset(xs, sep, i + 1) == Offset(xs, sep, i) + |xs[i]| + |sep| <= |Join(xs, sep)|
              && Join(xs, sep)[Offset(xs, sep, i) + |xs[i]|..Offset(xs, sep, i + 1)] == sep
  {
    var j := Join(xs, sep);
    if i == 0 {
      assert xs[..0] == [];
      if |xs| > 1 {
        OffsetStep(xs, sep, 1);
        assert xs[1..][..0] == [];
        assert j == xs[0] + sep + Join(xs[1..], sep);
      }
    } else {
      var rest := Join(xs[1..], sep);
      assert j == xs[0] + sep + rest;
      JoinLayout(xs[1..], sep, i - 1);
      OffsetStep(xs, sep, i);
      var o := Offset(xs, sep, i);
      var o' := Offset(xs[1..], sep, i - 1);
      assert o == |xs[0] + sep| + o';
      assert j[o..o + |xs[i]|] == rest[o'..o' + |xs[i]|];
      if i + 1 < |xs| {
        OffsetStep(xs, sep, i + 1);
        var n' := Offset(xs[1..], sep, i);
        assert Offset(xs, sep, i + 1) == |xs[0] + sep| + n';
        assert j[o + |xs[i]|..Offset(xs, sep, i + 1)] == rest[o' + |xs[i]|..n'];
      }
    }
  }

  /** The bracketed list of accepted values in the error message; it has no upper-case letter. */
  function PossibleValues(e: EnumClass): (r: string)
    ensures e.names == [] ==> r == ""
    ensures IsLowerCase(r)
  {
    JoinLowerCase(LowerNames(e.names), ", ");
    Join(LowerNames(e.names), ", ")
  }

  /**
   * The list of possible values names every constant, lower-cased, in declaration
   * order, each followed by ", " except the last.
   */
  lemma PossibleValuesListing(e: EnumClass, i: nat)
    requires e.IsConstant(i)
    ensures var o := Offset(LowerNames(e.names), ", ", i);
            && o + |e.names[i]| <= |PossibleValues(e)|
            && PossibleValues(e)[o..o + |e.names[i]|] == ToLower(e.names[i])
            && (i + 1 < |e.names| ==>
                  && Offset(LowerNames(e.names), ", ", i + 1) == o + |e.names[i]| + 2 <= |PossibleValues(e)|
                  && PossibleValues(e)[o + |e.names[i]|..o + |e.names[i]| + 2] == ", ")
  {
    JoinLayout(LowerNames(e.names), ", ", i);
  }

  /** The listing is exactly as long as the lower-cased names and the separators between them. */
  lemma PossibleValuesLength(e: EnumClass)
    requires |e.names| > 0
    ensures |PossibleValues(e)| == TotalLength(e.names) + 2 * (|e.names| - 1)
  {
    var xs := LowerNames(e.names);
    JoinLength(xs, ", ");
    TotalLengthSnoc(xs[..|xs| - 1], xs[|xs| - 1]);
    assert xs[..|xs| - 1] + [xs[|xs| - 1]] == xs;
    LowerNamesLength(e.names);
  }

  lemma {:induction false} LowerNamesLength(names: seq<string>)
    ensures TotalLength(LowerNames(names)) == TotalLength(names)
  {
    if names != [] {
      assert LowerNames(names)[1..] == LowerNames(names[1..]);
      LowerNamesLength(names[1..]);
    }
  }

  lemma {:induction false} TotalLengthSnoc(xs: seq<string>, x: string)
    ensures TotalLength(xs + [x]) == TotalLength(xs) + |x|
  {
    if xs != [] {
      assert (xs + [x])[1..] == xs[1..] + [x];
      TotalLengthSnoc(xs[1..], x);
    }
  }
}
