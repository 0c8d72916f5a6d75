/**
 * Per-key leadership of one consumer member. For every key (an event type, say) the
 * member runs a leader selector; the registry maps each key to a leader control,
 * which holds the selector, a `leader` flag and a one-shot stop latch. The election
 * callback, the connection-state listener, per-key close and close-all each change
 * the registry in one atomic step here.
 */
module ZKConsumerLeader {
  import opened Results
  import Utf8
  import opened CoordinationStore

  /** The states a coordination-store connection reports to its listeners. */
  datatype ConnectionState = Connected | Suspended | Reconnected | Lost | ReadOnly

  /** One candidate of an election, as the selector reports it. */
  datatype Participant = Participant(id: string, isLeader: bool)

  /**
   * A call the registry makes on a leadership listener. A relinquish also records whether
   * the registry still held a control for the key when the listener was called, which is
   * what a listener registering the key again from inside the call would find.
   */
  datatype Notification<K> =
    | Took(key: K, member: string)
    | Relinquished(key: K, member: string, keyRegistered: bool)

  datatype LeaderError =
    | IncorrectState     // the election callback found no control, or one already leading
    | DelegateFailed     // the listener's takeLeadership threw
    | StartFailed        // the selector could not be started
    | ParticipantsUnavailable

  /** How one run of the election callback ended so far. */
  datatype CallbackResult =
    | Blocked            // leading: the callback waits on the control's stop latch
    | Returned           // the latch was already released, so the callback returned at once
    | Failed(error: LeaderError)

  /** The leadership listener supplied by the caller; it records the calls it receives. */
  class Delegate<K> {
    var calls: seq<Notification<K>>

    constructor ()
      ensures calls == []
    {
      calls := [];
    }

    /** Told that `member` now leads for `key`; the listener may throw, reported as `ok == false`. */
    method TakeLeadership(key: K, member: string) returns (ok: bool)
      modifies this
      ensures calls == old(calls) + [Took(key, member)]
    {
      calls := calls + [Took(key, member)];
      ok := *;
    }

    /** Told that `member` no longer leads for `key`, while the key is or is no longer registered. */
    method RelinquishLeadership(key: K, member: string, keyRegistered: bool)
      modifies this
      ensures calls == old(calls) + [Relinquished(key, member, keyRegistered)]
    {
      calls := calls + [Relinquished(key, member, keyRegistered)];
    }
  }

  /**
   * The election primitive for one key, seen from outside: it is built for a key, an
   * election path, the member id and the listener its callback forwards to. Starting,
   * closing and listing participants may each fail for reasons outside this model.
   */
  class Selector<K> {
    const key: K
    const path: string
    const id: string
    const delegate: Delegate<K>
    /** The election's candidates as the store currently lists them. */
    var participants: seq<Participant>
    var startAttempted: bool
    var closeAttempted: bool

    constructor (key: K, path: string, id: string, delegate: Delegate<K>)
      ensures this.key == key && this.path == path && this.id == id && this.delegate == delegate
      ensures participants == [] && !startAttempted && !closeAttempted
    {
      this.key, this.path, this.id, this.delegate := key, path, id, delegate;
      participants := [];
      startAttempted, closeAttempted := false, false;
    }

    method Start() returns (ok: bool)
      modifies this
      ensures startAttempted && closeAttempted == old(closeAttempted) && participants == old(participants)
    {
      startAttempted := true;
      ok := *;
    }

    method Close() returns (ok: bool)
      modifies this
      ensures closeAttempted && startAttempted == old(startAttempted) && participants == old(participants)
    {
      closeAttempted := true;
      ok := *;
    }

    method Participants() returns (r: Option<seq<Participant>>)
      ensures r.Some? ==> r.value == participants
    {
      var ok: bool := *;
      r := if ok then Some(participants) else None;
    }
  }

  /** A selector, whether this member currently leads for it, and its one-shot stop latch. */
  class LeaderControl<K> {
    const selector: Selector<K>
    var leader: bool
    /** The stop latch has been counted down; it never closes again. */
    var released: bool

    constructor Of(selector: Selector<K>)
      ensures this.selector == selector && !leader && !released
    {
      this.selector := selector;
      leader, released := false, false;
    }

    /** Marks this member as leader; the wait on the latch that follows is not modelled. */
    method TakeLeadership()
      modifies this
      ensures leader && released == old(released)
    {
      leader := true;
    }

    /** Clears the leader flag and releases the latch; calling it again changes nothing. */
    method RelinquishLeadership()
      modifies this
      ensures !leader && released
    {
      leader := false;
      released := true;
    }
  }

  // ---------------------------------------------------------------------------
  // Collecting participants: the first entry for an id wins
  // ---------------------------------------------------------------------------

  function Ids(ps: seq<Participant>): set<string>
  {
    set p | p in ps :: p.id
  }

  /** No participant before position `i` carries the id of `ps[i]`. */
  predicate FirstOccurrence(ps: seq<Participant>, i: nat)
    requires i < |ps|
  {
    forall j :: 0 <= j < i ==> ps[j].id != ps[i].id
  }

  /** Adds the participants to `acc` in order, keeping the value already present for a repeated id. */
  function Accumulate(acc: map<string, bool>, ps: seq<Participant>): (r: map<string, bool>)
    decreases |ps|
    ensures acc.Keys <= r.Keys
    ensures forall id :: id in acc ==> r[id] == acc[id]
  {
    if ps == [] then acc
    else
      var next := if ps[0].id in acc then acc else acc[ps[0].id := ps[0].isLeader];
      Accumulate(next, ps[1..])
  }

  /**
   * The id-to-leader-flag map built from a participant list: its keys are exactly the
   * listed ids, and each id maps to the leader flag of its first occurrence.
   */
  function CollectParticipants(ps: seq<Participant>): (r: map<string, bool>)
    ensures r.Keys == Ids(ps)
    ensures forall i :: 0 <= i < |ps| && FirstOccurrence(ps, i) ==> r[ps[i].id] == ps[i].isLeader
  {
    AccumulateSpec(map[], ps);
    Accumulate(map[], ps)
  }

  lemma {:induction false} AccumulateSpec(acc: map<string, bool>, ps: seq<Participant>)
    decreases |ps|
    ensures Accumulate(acc, ps).Keys == acc.Keys + Ids(ps)
    ensures forall id :: id in acc ==> Accumulate(acc, ps)[id] == acc[id]
    ensures forall i :: 0 <= i < |ps| && ps[i].id !in acc && FirstOccurrence(ps, i) ==>
              Accumulate(acc, ps)[ps[i].id] == ps[i].isLeader
  {
    if ps != [] {
      var next := if ps[0].id in acc then acc else acc[ps[0].id := ps[0].isLeader];
      AccumulateSpec(next, ps[1..]);
      assert Ids(ps) == {ps[0].id} + Ids(ps[1..]) by {
        assert forall p :: p in ps <==> p == ps[0] || p in ps[1..];
      }
      forall i | 0 <= i < |ps| && ps[i].id !in acc && FirstOccurrence(ps, i)
        ensures Accumulate(acc, ps)[ps[i].id] == ps[i].isLeader
      {
        if i > 0 {
          assert ps[1..][i - 1] == ps[i];
          assert FirstOccurrence(ps[1..], i - 1);
        }
      }
    }
  }

  // ---------------------------------------------------------------------------
  // The registry
  // ---------------------------------------------------------------------------

  class ConsumerLeader<K(==)> {
    const store: Store
    const consumerName: string
    const memberId: string
    /** Where the election for a key lives. */
    const selectorPath: K -> string
    /** Where the informational leader id for a key is written. */
    const infoPath: K -> string
    var controls: map<K, LeaderControl<K>>

    /**
     * Each registered control's selector was built for its key, its election path and
     * this member; a released latch is never a leading one; no control serves two keys.
     */
    ghost predicate Valid()
      reads this, controls.Values
    {
      && (forall k :: k in controls ==>
            && controls[k].selector.key == k
            && controls[k].selector.path == selectorPath(k)
            && controls[k].selector.id == memberId
            && (controls[k].released ==> !controls[k].leader))
      && (forall k1, k2 :: k1 in controls && k2 in controls && k1 != k2 ==> controls[k1] != controls[k2])
    }

    /** The selectors of all registered controls. */
    function Selectors(): set<Selector<K>>
      reads this, controls.Values
    {
      set c | c in controls.Values :: c.selector
    }

    constructor (store: Store, consumerName: string, memberId: string,
                 selectorPath: K -> string, infoPath: K -> string)
      ensures Valid() && controls == map[]
      ensures this.store == store && this.consumerName == consumerName && this.memberId == memberId
      ensures this.selectorPath == selectorPath && this.infoPath == infoPath
    {
      this.store, this.consumerName, this.memberId := store, consumerName, memberId;
      this.selectorPath, this.infoPath := selectorPath, infoPath;
      controls := map[];
    }

    /**
     * Starts leadership for `k` unless a control for it is already registered: registers
     * a fresh control around a new selector, then starts the selector; if starting fails
     * the control is removed again and the failure is returned.
     */
    method InitGroupLeadership(k: K, delegate: Delegate<K>) returns (r: Outcome<LeaderError>)
      requires Valid()
      modifies this
      ensures Valid()
      ensures k in old(controls) ==> r == Pass && controls == old(controls)
      ensures k !in old(controls) && r == Pass ==>
                && k in controls && fresh(controls[k])
                && controls == old(controls)[k := controls[k]]
                && !controls[k].leader && !controls[k].released
                && controls[k].selector.delegate == delegate
                && fresh(controls[k].selector)
                && controls[k].selector.startAttempted && !controls[k].selector.closeAttempted
                && controls[k].selector.participants == []
      ensures k !in old(controls) && r != Pass ==> r == Fail(StartFailed) && controls == old(controls)
    {
      if k in controls {
        return Pass;
      }
      var selector := new Selector(k, selectorPath(k), memberId, delegate);
      var control := new LeaderControl.Of(selector);
      controls := controls[k := control];
      var started := selector.Start();
      if started {
        r := Pass;
      } else {
        controls := controls - {k};
        r := Fail(StartFailed);
      }
    }

    /**
     * Writes this member's id, UTF-8 encoded, to `path`; when the node is missing it is
     * created with its parents and the write is repeated.
     */
    method SetLeaderInfo(path: string)
      modifies store
      ensures WrittenWithParents(old(store.nodes), store.nodes, path, Utf8.Encode(memberId))
      ensures old(IsTree(store.nodes)) ==> IsTree(store.nodes)
    {
      var data := Utf8.Encode(memberId);
      var written := store.SetData(path, data);
      if written.Fail? {
        var created := store.CreateWithParents(path);
        written := store.SetData(path, data);
      }
    }

    /**
     * The election callback, up to the point where it waits: it requires a registered
     * control that is not leading, records this member in the leader-info node, tells the
     * listener and marks the control as leader. It then waits on the latch, unless the
     * latch is already released. On every path that ends here the key is removed and the
     * listener is told that leadership is relinquished.
     */
    method OnTakeLeadership(s: Selector<K>) returns (r: CallbackResult)
      requires Valid()
      modifies this, store, s.delegate, if s.key in controls then {controls[s.key]} else {}
      ensures Valid()
      ensures old(s.key !in controls || controls[s.key].leader) ==>
                && r == Failed(IncorrectState)
                && controls == old(controls) - {s.key}
                && (s.key in old(controls) ==> unchanged(old(controls[s.key])))
                && store.nodes == old(store.nodes)
                && s.delegate.calls == old(s.delegate.calls) + [Relinquished(s.key, memberId, false)]
      ensures old(s.key in controls && !controls[s.key].leader) ==>
                && WrittenWithParents(old(store.nodes), store.nodes, infoPath(s.key), Utf8.Encode(memberId))
                && (old(IsTree(store.nodes)) ==> IsTree(store.nodes))
                && (r.Blocked? || r.Returned? || r == Failed(DelegateFailed))
                && (r != Failed(DelegateFailed) ==> (r.Returned? <==> old(controls[s.key].released)))
                && old(controls[s.key]).leader == (r != Failed(DelegateFailed))
                && old(controls[s.key]).released == old(controls[s.key].released)
      ensures old(s.key in controls && !controls[s.key].leader) && r.Blocked? ==>
                && controls == old(controls)
                && s.delegate.calls == old(s.delegate.calls) + [Took(s.key, memberId)]
      ensures old(s.key in controls && !controls[s.key].leader) && !r.Blocked? ==>
                && controls == old(controls) - {s.key}
                && s.delegate.calls
                   == old(s.delegate.calls) + [Took(s.key, memberId), Relinquished(s.key, memberId, false)]
    {
      var k := s.key;
      if k !in controls || controls[k].leader {
        r := Failed(IncorrectState);
      } else {
        var control := controls[k];
        SetLeaderInfo(infoPath(k));
        var accepted := s.delegate.TakeLeadership(k, memberId);
        if !accepted {
          r := Failed(DelegateFailed);
        } else {
          control.TakeLeadership();
          if !control.released {
            return Blocked;
          }
          r := Returned;
        }
      }
      controls := controls - {k};
      s.delegate.RelinquishLeadership(k, memberId, k in controls);
    }

    /**
     * The rest of the election callback, once its wait on the latch returns: the key is
     * removed and the listener is told that leadership is relinquished.
     */
    method OnLeadershipEnd(s: Selector<K>)
      requires Valid()
      modifies this, s.delegate
      ensures Valid()
      ensures controls == old(controls) - {s.key}
      ensures s.delegate.calls == old(s.delegate.calls) + [Relinquished(s.key, memberId, false)]
    {
      controls := controls - {s.key};
      s.delegate.RelinquishLeadership(s.key, memberId, s.key in controls);
    }

    /**
     * The connection-state listener: a suspended or lost connection makes a leading
     * control relinquish and asks the selector to cancel leadership; anything else
     * changes nothing.
     */
    method StateChanged(s: Selector<K>, state: ConnectionState) returns (cancel: bool)
      requires Valid()
      modifies if s.key in controls then {controls[s.key]} else {}
      ensures Valid()
      ensures cancel <==> old(s.key in controls && controls[s.key].leader) && (state == Lost || state == Suspended)
      ensures controls == old(controls)
      ensures cancel ==> !old(controls[s.key].released)
      ensures cancel ==> !controls[s.key].leader && controls[s.key].released
      ensures !cancel && s.key in controls ==> unchanged(controls[s.key])
    {
      cancel := false;
      if s.key in controls {
        var control := controls[s.key];
        if control.leader && (state == Lost || state == Suspended) {
          control.RelinquishLeadership();
          cancel := true;
        }
      }
    }

    /**
     * The participants of the election for `k`, as id-to-leader-flag map where the first
     * entry for an id wins; empty for a key without a control.
     */
    method GetParticipants(k: K) returns (r: Result<map<string, bool>, LeaderError>)
      ensures k !in controls ==> r == Success(map[])
      ensures k in controls && r.Failure? ==> r.error == ParticipantsUnavailable
      ensures k in controls && r.Success? ==>
                var ps := controls[k].selector.participants;
                && r.value.Keys == Ids(ps)
                && forall i :: 0 <= i < |ps| && FirstOccurrence(ps, i) ==> r.value[ps[i].id] == ps[i].isLeader
    {
      if k !in controls {
        return Success(map[]);
      }
      var listed := controls[k].selector.Participants();
      match listed {
        case None =>
          r := Failure(ParticipantsUnavailable);
        case Some(ps) =>
          r := Success(CollectParticipants(ps));
      }
    }

    /** Removes the control for `k`, if any, and relinquishes it; other keys are untouched. */
    method CloseGroupLeadership(k: K)
      requires Valid()
      modifies this, if k in controls then {controls[k]} else {}
      ensures Valid()
      ensures controls == old(controls) - {k}
      ensures k in old(controls) ==> !old(controls)[k].leader && old(controls)[k].released
    {
      if k in controls {
        var control := controls[k];
        controls := controls - {k};
        control.RelinquishLeadership();
      }
    }

    /**
     * Relinquishes every control, then tries to close every selector, going on past a
     * selector that fails to close, and finally empties the registry.
     */
    method Close()
      requires Valid()
      modifies this, controls.Values, Selectors()
      ensures Valid()
      ensures controls == map[]
      ensures forall c :: c in old(controls).Values ==> !c.leader && c.released && c.selector.closeAttempted
    {
      var all := controls.Values;
      var pending := all;
      while pending != {}
        invariant pending <= all
        invariant controls == old(controls)
        invariant forall c :: c in all - pending ==> !c.leader && c.released
        decreases pending
      {
        var c :| c in pending;
        c.RelinquishLeadership();
        pending := pending - {c};
      }
      pending := all;
      while pending != {}
        invariant pending <= all
        invariant controls == old(controls)
        invariant forall c :: c in all ==> !c.leader && c.released
        invariant forall c :: c in all - pending ==> c.selector.closeAttempted
        decreases pending
      {
        var c :| c in pending;
        var closed := c.selector.Close();
        pending := pending - {c};
      }
      controls := map[];
    }
  }
}
