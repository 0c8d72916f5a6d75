# Enum wire codec and per-key leader registry of the Nakadi consumer

This project models two pieces of the paradox Nakadi consumer in Dafny and proves properties of them.

- **Enum wire rule of the JSON object mapper** (module `EnumCodec`, file `enum_codec.dfy`).
  - An enum constant is written as its name in lower case.
  - A string is read by upper-casing it and looking the result up among the constant names.
  - An unknown value fails with `Illegal enum value: '<input>'. Possible values: [<names>]`.
  - An enum class is its list of constant names in declaration order, and a constant is its ordinal.
  - Case mapping is ASCII.
- **Per-key leadership registry of a consumer member** (module `ZKConsumerLeader`, file `zk_consumer_leader.dfy`).
  - The class `ConsumerLeader` holds the map from a key (an event type, for instance) to a `LeaderControl` object.
  - A control holds the key's leader selector, a `leader` flag and a one-shot stop latch (`released`).
  - Methods model:
    - registering a key (`initGroupLeadership`);
    - the election callback, split at the point where it waits on the latch;
    - the connection-state listener;
    - listing the election's participants;
    - per-key close and close-all;
    - writing the leader-info node.
  - The predicate `Valid()` is the registry invariant, and every method preserves it. `StateChanged` relies on it
    to promise that a cancelled control's latch had not been released before. It says:
    - each control's selector was built for its key, its election path and this member;
    - a released latch is never a leading control;
    - no control serves two keys.
  - The election selector and the leadership listener (`Selector`, `Delegate`) are opaque collaborators. Their
    `start`, `close`, participant listing and `takeLeadership` calls may fail nondeterministically.
- **Supporting models.**
  - `Utf8` (`utf8.dfy`) holds the UTF-8 encoding of the member id written to the leader-info node, with a
    decoder and round trips in both directions.
  - `CoordinationStore` (`coordination_store.dfy`) is the store's node tree as a path→bytes map. It has the
    set-data and create-with-parents requests, and they preserve the tree shape.
  - `Results` (`results.dfy`) holds the Option, Result and Outcome types that stand for the source's exceptions.

Each operation of the registry is one atomic step. The election callback is two steps:
- `OnTakeLeadership` runs up to the wait on the latch. If the latch is already released, the wait returns at once
  and the `finally` part runs in the same step.
- `OnLeadershipEnd` is the `finally` part that runs when the wait returns.

Two behaviours of the code are worth stating plainly:
- The election callback removes its control from the registry in its `finally` block, so a key whose leadership
  ended is no longer registered even though its selector has not been closed. `OnTakeLeadership` and
  `OnLeadershipEnd` do the same.
- Reading ignores letter case only for constants whose name is already upper case.
  `DeserializeReachesOnlyUpperCaseNames` shows that no input reads back any other constant.

## Model

| member | source | states |
|---|---|---|
| EnumCodec.ToUpper | paradox-nakadi-consumer-core/src/main/java/de/zalando/paradox/nakadi/consumer/core/DefaultObjectMapper.java:75 | upper-cases each ASCII letter and keeps every other character, position by position |
| EnumCodec.ToLower | paradox-nakadi-consumer-core/src/main/java/de/zalando/paradox/nakadi/consumer/core/DefaultObjectMapper.java:93 | lower-cases each ASCII letter and keeps every other character, position by position |
| EnumCodec.ToUpperIdempotent | paradox-nakadi-consumer-core/src/main/java/de/zalando/paradox/nakadi/consumer/core/DefaultObjectMapper.java:75 | an upper-cased string is its own upper case |
| EnumCodec.ToUpperOfToLower | paradox-nakadi-consumer-core/src/main/java/de/zalando/paradox/nakadi/consumer/core/DefaultObjectMapper.java:75 | lower-casing a name does not change its upper-case form |
| EnumCodec.LowerSpellingUnique | paradox-nakadi-consumer-core/src/main/java/de/zalando/paradox/nakadi/consumer/core/DefaultObjectMapper.java:93 | a name has exactly one all-lower-case spelling up to case: `ToLower` of it |
| EnumCodec.IndexOf | paradox-nakadi-consumer-core/src/main/java/de/zalando/paradox/nakadi/consumer/core/DefaultObjectMapper.java:75 | the lookup by name finds the first constant with that name, or reports that none has it |
| EnumCodec.Serialize | paradox-nakadi-consumer-core/src/main/java/de/zalando/paradox/nakadi/consumer/core/DefaultObjectMapper.java:91-94 | the written string has no upper-case letter and equals the constant's name ignoring case |
| EnumCodec.SerializeIsLowerCaseName | paradox-nakadi-consumer-core/src/main/java/de/zalando/paradox/nakadi/consumer/core/DefaultObjectMapper.java:93 | the written string is exactly the constant's name in lower case, and no other string meets that contract |
| EnumCodec.Deserialize | paradox-nakadi-consumer-core/src/main/java/de/zalando/paradox/nakadi/consumer/core/DefaultObjectMapper.java:70-82 | reading succeeds iff the upper-cased input is some constant's name, and then returns a constant with that name; otherwise the error is the illegal-value message built from the input as received |
| EnumCodec.DeserializeFindsConstant | paradox-nakadi-consumer-core/src/main/java/de/zalando/paradox/nakadi/consumer/core/DefaultObjectMapper.java:75 | with distinct names, reading returns a given constant iff its name is the upper-cased input (both directions) |
| EnumCodec.DeserializeIgnoresCase | paradox-nakadi-consumer-core/src/main/java/de/zalando/paradox/nakadi/consumer/core/DefaultObjectMapper.java:75 | two inputs that differ only in letter case both fail or both return the same constant |
| EnumCodec.DeserializeReachesOnlyUpperCaseNames | paradox-nakadi-consumer-core/src/main/java/de/zalando/paradox/nakadi/consumer/core/DefaultObjectMapper.java:75 | a constant read from any input has an upper-case name |
| EnumCodec.RoundTrip | paradox-nakadi-consumer-core/src/main/java/de/zalando/paradox/nakadi/consumer/core/DefaultObjectMapper.java:70-94 | reading the written form of a constant whose name is upper case returns that constant |
| EnumCodec.RoundTripFailsForMixedCaseName | paradox-nakadi-consumer-core/src/main/java/de/zalando/paradox/nakadi/consumer/core/DefaultObjectMapper.java:70-94 | reading the written form of a constant whose name is not upper case never returns that constant |
| EnumCodec.LowerNames | paradox-nakadi-consumer-core/src/main/java/de/zalando/paradox/nakadi/consumer/core/DefaultObjectMapper.java:77-78 | the list of accepted values is every constant name lower-cased, in declaration order |
| EnumCodec.Join | paradox-nakadi-consumer-core/src/main/java/de/zalando/paradox/nakadi/consumer/core/DefaultObjectMapper.java:78 | joining no strings gives the empty string; a non-empty join starts with its first string |
| EnumCodec.JoinLength | paradox-nakadi-consumer-core/src/main/java/de/zalando/paradox/nakadi/consumer/core/DefaultObjectMapper.java:78 | a non-empty join is as long as its strings plus one separator between each pair of neighbours |
| EnumCodec.JoinLayout | paradox-nakadi-consumer-core/src/main/java/de/zalando/paradox/nakadi/consumer/core/DefaultObjectMapper.java:78 | in a join, the i-th string starts at the summed length of the earlier strings and separators, and a separator follows it unless it is last |
| EnumCodec.IllegalValueMessage | paradox-nakadi-consumer-core/src/main/java/de/zalando/paradox/nakadi/consumer/core/DefaultObjectMapper.java:79-80 | the error message is the fixed head, the raw input (not upper-cased), the fixed middle, the list of accepted values, then `]` |
| EnumCodec.JoinLowerCase | paradox-nakadi-consumer-core/src/main/java/de/zalando/paradox/nakadi/consumer/core/DefaultObjectMapper.java:78 | joining strings that have no upper-case letter, with a separator that has none, gives a string with none |
| EnumCodec.PossibleValues | paradox-nakadi-consumer-core/src/main/java/de/zalando/paradox/nakadi/consumer/core/DefaultObjectMapper.java:77-78 | the list of accepted values is empty for an enum without constants and never contains an upper-case letter |
| EnumCodec.PossibleValuesListing | paradox-nakadi-consumer-core/src/main/java/de/zalando/paradox/nakadi/consumer/core/DefaultObjectMapper.java:77-80 | the list of accepted values shows each constant's lower-cased name at its position, followed by `, ` unless it is last |
| EnumCodec.PossibleValuesLength | paradox-nakadi-consumer-core/src/main/java/de/zalando/paradox/nakadi/consumer/core/DefaultObjectMapper.java:77-78 | the list of accepted values holds exactly the names and the separators between them, nothing more |
| Utf8.EncodeChar | paradox-nakadi-consumer-partitioned-zk/src/main/java/de/zalando/paradox/nakadi/consumer/partitioned/zk/ZKConsumerLeader.java:205 | one character becomes 1 to 4 bytes: a lead byte marking the width, then continuation bytes |
| Utf8.Encode | paradox-nakadi-consumer-partitioned-zk/src/main/java/de/zalando/paradox/nakadi/consumer/partitioned/zk/ZKConsumerLeader.java:205 | a string encodes to between one and four bytes per character |
| Utf8.DecodeEncode | paradox-nakadi-consumer-partitioned-zk/src/main/java/de/zalando/paradox/nakadi/consumer/partitioned/zk/ZKConsumerLeader.java:205 | the bytes written for a member id decode back to that id |
| Utf8.EncodeDecode | paradox-nakadi-consumer-partitioned-zk/src/main/java/de/zalando/paradox/nakadi/consumer/partitioned/zk/ZKConsumerLeader.java:205 | bytes that decode to a string are exactly that string's encoding, so no other bytes stand for the id |
| CoordinationStore.Store.SetData | paradox-nakadi-consumer-partitioned-zk/src/main/java/de/zalando/paradox/nakadi/consumer/partitioned/zk/ZKConsumerLeader.java:205-206 | sets the data of an existing node and keeps the tree shape; a missing node is a no-node error that changes nothing |
| CoordinationStore.Store.CreateWithParents | paradox-nakadi-consumer-partitioned-zk/src/main/java/de/zalando/paradox/nakadi/consumer/partitioned/zk/ZKConsumerLeader.java:208 | creates the node with the default data and each missing parent with empty data; existing nodes keep their data; the tree shape is kept |
| ZKConsumerLeader.Delegate.TakeLeadership | paradox-nakadi-consumer-partitioned-zk/src/main/java/de/zalando/paradox/nakadi/consumer/partitioned/zk/ZKConsumerLeader.java:48 | the listener records that the member took leadership for the key; it may throw |
| ZKConsumerLeader.Delegate.RelinquishLeadership | paradox-nakadi-consumer-partitioned-zk/src/main/java/de/zalando/paradox/nakadi/consumer/partitioned/zk/ZKConsumerLeader.java:50 | the listener records that the member relinquished leadership for the key, and whether the key was still registered at that moment |
| ZKConsumerLeader.Selector.Start | paradox-nakadi-consumer-partitioned-zk/src/main/java/de/zalando/paradox/nakadi/consumer/partitioned/zk/ZKConsumerLeader.java:154 | marks the selector as started; starting may fail |
| ZKConsumerLeader.Selector.Close | paradox-nakadi-consumer-partitioned-zk/src/main/java/de/zalando/paradox/nakadi/consumer/partitioned/zk/ZKConsumerLeader.java:190 | marks that closing was attempted; closing may fail |
| ZKConsumerLeader.Selector.Participants | paradox-nakadi-consumer-partitioned-zk/src/main/java/de/zalando/paradox/nakadi/consumer/partitioned/zk/ZKConsumerLeader.java:86-93 | when the listing succeeds it is the election's current candidates |
| ZKConsumerLeader.LeaderControl.Of | paradox-nakadi-consumer-partitioned-zk/src/main/java/de/zalando/paradox/nakadi/consumer/partitioned/zk/ZKConsumerLeader.java:59-70 | a new control holds its selector, is not leader and its latch is closed |
| ZKConsumerLeader.LeaderControl.TakeLeadership | paradox-nakadi-consumer-partitioned-zk/src/main/java/de/zalando/paradox/nakadi/consumer/partitioned/zk/ZKConsumerLeader.java:72-75 | sets the leader flag and leaves the latch as it was |
| ZKConsumerLeader.LeaderControl.RelinquishLeadership | paradox-nakadi-consumer-partitioned-zk/src/main/java/de/zalando/paradox/nakadi/consumer/partitioned/zk/ZKConsumerLeader.java:77-80 | clears the leader flag and releases the latch, the same state from any start, so a repeated call changes nothing |
| ZKConsumerLeader.Accumulate | paradox-nakadi-consumer-partitioned-zk/src/main/java/de/zalando/paradox/nakadi/consumer/partitioned/zk/ZKConsumerLeader.java:165 | merging participants into a map never drops or overwrites an id already present: the first value for an id wins |
| ZKConsumerLeader.AccumulateSpec | paradox-nakadi-consumer-partitioned-zk/src/main/java/de/zalando/paradox/nakadi/consumer/partitioned/zk/ZKConsumerLeader.java:165 | merging participants into a map adds exactly their ids, keeps existing entries and gives a new id its first occurrence's flag |
| ZKConsumerLeader.CollectParticipants | paradox-nakadi-consumer-partitioned-zk/src/main/java/de/zalando/paradox/nakadi/consumer/partitioned/zk/ZKConsumerLeader.java:163-165 | the participant map has exactly the listed ids as keys, and each maps to the leader flag of its first occurrence |
| ZKConsumerLeader.ConsumerLeader.constructor | paradox-nakadi-consumer-partitioned-zk/src/main/java/de/zalando/paradox/nakadi/consumer/partitioned/zk/ZKConsumerLeader.java:41-57 | a new registry is empty and valid |
| ZKConsumerLeader.ConsumerLeader.InitGroupLeadership | paradox-nakadi-consumer-partitioned-zk/src/main/java/de/zalando/paradox/nakadi/consumer/partitioned/zk/ZKConsumerLeader.java:96-160 | a registered key changes nothing and creates no selector. A fresh key gets one fresh, non-leading control around a newly built selector that was started and not closed. If the start fails, the key is absent again and the start failure is returned. Other keys are untouched and validity is kept |
| ZKConsumerLeader.ConsumerLeader.SetLeaderInfo | paradox-nakadi-consumer-partitioned-zk/src/main/java/de/zalando/paradox/nakadi/consumer/partitioned/zk/ZKConsumerLeader.java:202-211 | the node at the path holds the UTF-8 bytes of the member id; a missing node is created with its missing parents; every other node keeps its data; the tree shape is kept |
| ZKConsumerLeader.ConsumerLeader.OnTakeLeadership | paradox-nakadi-consumer-partitioned-zk/src/main/java/de/zalando/paradox/nakadi/consumer/partitioned/zk/ZKConsumerLeader.java:105-125 | rejects a missing or already-leading control. Otherwise it writes the leader info (creating the node and its missing parents if needed, keeping every other node's data and the tree shape), calls the listener's take and marks the control leader. It blocks unless the latch is already released. Every path that ends (rejection, listener failure, released latch) removes the key and then calls the listener's relinquish, which sees the key no longer registered |
| ZKConsumerLeader.ConsumerLeader.OnLeadershipEnd | paradox-nakadi-consumer-partitioned-zk/src/main/java/de/zalando/paradox/nakadi/consumer/partitioned/zk/ZKConsumerLeader.java:116-124 | when the wait ends, the key is removed, only that key, and then the listener's relinquish is called, seeing the key no longer registered |
| ZKConsumerLeader.ConsumerLeader.StateChanged | paradox-nakadi-consumer-partitioned-zk/src/main/java/de/zalando/paradox/nakadi/consumer/partitioned/zk/ZKConsumerLeader.java:128-144 | LOST or SUSPENDED on a leading control, whose latch is therefore not yet released, clears its flag, releases its latch and asks for cancellation. Any other state, or a missing or non-leading control, changes nothing |
| ZKConsumerLeader.ConsumerLeader.GetParticipants | paradox-nakadi-consumer-partitioned-zk/src/main/java/de/zalando/paradox/nakadi/consumer/partitioned/zk/ZKConsumerLeader.java:162-167 | empty map for an unregistered key; otherwise either a failure or the map from each participant id to the leader flag of its first occurrence |
| ZKConsumerLeader.ConsumerLeader.CloseGroupLeadership | paradox-nakadi-consumer-partitioned-zk/src/main/java/de/zalando/paradox/nakadi/consumer/partitioned/zk/ZKConsumerLeader.java:169-175 | removes only the key; the removed control is relinquished; an absent key is a no-op |
| ZKConsumerLeader.ConsumerLeader.Close | paradox-nakadi-consumer-partitioned-zk/src/main/java/de/zalando/paradox/nakadi/consumer/partitioned/zk/ZKConsumerLeader.java:177-196 | every control is relinquished, closing is attempted on every selector even when some fail, and the registry ends empty |

## Left out

- The object mapper's construction is not modelled. That covers the property naming strategy, the registration of
  the date and optional-type modules and the date-format setting (DefaultObjectMapper.java:34-60). These are
  library configuration whose rules live in the library.
- Case mapping is ASCII only. Java's locale- and Unicode-aware `toUpperCase`/`toLowerCase` map further letters
  (and the special case of `ß`) differently.
- The deserializer's input is the string value of the token. A token without a string value gives a null there
  and a null-pointer failure in the source; that path is not modelled.
- Java strings are UTF-16, and their `getBytes("UTF-8")` turns a lone surrogate into `?`. A Dafny string holds
  Unicode scalar values only, so that case cannot arise in the model.
- Blocking and concurrency are not modelled:
  - the wait on the stop latch;
  - the one-second sleep in `close`, and its interrupted path, which would abort `close` before the selectors
    are closed;
  - the thread-safety of the concurrent map and the visibility of the volatile flag;
  - interleavings of the callbacks with other operations, such as a `putIfAbsent` that loses a race.

  Each operation is one atomic step.
- What ends a leadership tenure is not modelled. `OnLeadershipEnd` is that step, but nothing here says when it
  runs: after a released latch, or after the interrupt that closing a selector sends.
- The election itself is not modelled: which selector wins, how its participant list changes, and requeueing.
  `Selector.participants` is the list the store holds, set by the environment.
- Failures of the store other than a missing node are not modelled. That includes connection loss and a node
  created concurrently between the failed write and the create, so writing the leader info cannot fail here.
- `Delegate.RelinquishLeadership` never fails in the model. In the source its exception would propagate after the
  key was removed, so the registry's state is the same either way.
- A node created by `CreateWithParents` holds the store's `defaultData`. The client's real default (its local
  address) is not modelled, and the leader-info write overwrites it straight away.
- Logging, the `ThrowableUtils` rethrow helpers (their effect is an error result), and the null checks of the
  constructor are not modelled. `getConsumerName` is the constant field `consumerName`.
