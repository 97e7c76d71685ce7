# jgnash message bus, modelled in Dafny

jgnash's `MessageBus` is the publish/subscribe hub of the engine. Listeners
register on one or more message channels. The bus keeps only weak references
to them, one `CopyOnWriteArraySet` per channel. `fireEvent` hands a message to
a single-thread executor. The executor's worker calls every live listener on
the message's channel, in set order. Then, if the message did not come from
the remote side and is not a system event, the worker forwards it to the bound
`MessageBusClient`. Binding a client (`setRemote`) means connecting to a
server and busy-waiting up to 5000 ms for the server's handshake: the data
store path and the data store type. Named bus instances live in a static map.

The model has these modules:

- `Wrappers`: `Option`.
- `Messages`: the channels and the message record.
- `Listeners`: the registry as a value. Each channel's set is a sequence of
  listener identities in insertion order. The set `collected` holds the
  listeners the garbage collector has reclaimed; a reference to a collected
  listener is dead. The module has the specification functions `Register`,
  `Unregister` and `Deliveries`, with their lemmas.
- `Remote`: a stand-in for `MessageBusClient`. It records what the bus asked
  of it and what the server has told it.
- `Bus`: the `MessageBus` class, and `BusMap` for the static `busMap`. The
  registry methods (`ContainsListener`, `RegisterListener`,
  `UnregisterListener`, `PruneChannel`) and the worker's run (`Step`) are
  proved against the functions of `Listeners`. The connection methods and
  `BusMap` state their effects directly in their own contracts. The
  executor's queue is the field `pending`, and `Step` is one run of the
  worker.
- `Scenario`: small client programs that use only the contracts above.

## Model

| member | source | states |
|---|---|---|
| Listeners.Deref | jgnash-core/src/main/java/jgnash/engine/message/MessageBus.java:236-237 | `WeakReference.get()` yields the listener exactly when it has not been collected, and null otherwise |
| Listeners.AddIfAbsent | jgnash-core/src/main/java/jgnash/engine/message/MessageBus.java:188-193 | one channel's registration step: the set is left as it is when some entry already dereferences to l, and otherwise a new reference to l is appended at the end |
| Listeners.Register | jgnash-core/src/main/java/jgnash/engine/message/MessageBus.java:180-195 | registerListener over its channel arguments, left to right: each channel without a set gets an empty one, then that channel takes the AddIfAbsent step; nothing is ever removed |
| Listeners.Unregister | jgnash-core/src/main/java/jgnash/engine/message/MessageBus.java:197-210 | unregisterListener over its channel arguments, left to right: each channel that has a set loses every dead reference and every reference to l; a channel without a set is skipped and gets none |
| Listeners.Deliveries | jgnash-core/src/main/java/jgnash/engine/message/MessageBus.java:232-241 | one delivery pass for a message: walking the set in order, each entry whose listener is still live yields one messagePosted call with the message, and a dead entry yields nothing |
| Listeners.Remove | jgnash-core/src/main/java/jgnash/engine/message/MessageBus.java:205 | `set.remove(ref)` on a CopyOnWriteArraySet: the first entry equal to ref is taken out and the others stay in order |
| Listeners.Pruned | jgnash-core/src/main/java/jgnash/engine/message/MessageBus.java:202-207 | the live set while unregisterListener walks a snapshot of it: after each visited entry that is dead or refers to l, that entry is removed from the live set |
| Bus.Forwards | jgnash-core/src/main/java/jgnash/engine/message/MessageBus.java:247-249 | a message the worker hands to a bound client: one that did not come from the remote side and is not on the SYSTEM channel |
| Bus.HandshakeInTime | jgnash-core/src/main/java/jgnash/engine/message/MessageBus.java:163-172 | the handshake counts as made when the server's path and store type are both present at some poll up to and including the first one past the MAX_LATENCY bound (tick MaxLatency + 1), because the loop tests the metadata before it tests the clock |
| Listeners.KeepMembers | jgnash-core/src/main/java/jgnash/engine/message/MessageBus.java:201-207 | after pruning, a listener is in the set iff it was there before and is not among the dropped ones |
| Listeners.KeepIsSubsequence | jgnash-core/src/main/java/jgnash/engine/message/MessageBus.java:201-207 | pruning only deletes: the survivors keep their original relative order |
| Listeners.KeepNoDup | jgnash-core/src/main/java/jgnash/engine/message/MessageBus.java:43-47 | pruning a duplicate-free set leaves it duplicate-free |
| Listeners.KeepFrom | jgnash-core/src/main/java/jgnash/engine/message/MessageBus.java:201-207 | pruning never brings in a listener that was not in the set |
| Listeners.KeepTwice | jgnash-core/src/main/java/jgnash/engine/message/MessageBus.java:201-207 | pruning the same set twice has the effect of pruning it once |
| Listeners.CountNoDup | jgnash-core/src/main/java/jgnash/engine/message/MessageBus.java:43-47 | in a duplicate-free set a listener occurs once if present and zero times otherwise |
| Listeners.AddIfAbsentLive | jgnash-core/src/main/java/jgnash/engine/message/MessageBus.java:188-193 | after one channel's registration step, a live listener is found live on that channel |
| Listeners.AddIfAbsentNoDup | jgnash-core/src/main/java/jgnash/engine/message/MessageBus.java:188-193 | the registration step never adds a second reference to a listener already present |
| Listeners.AddIfAbsentGrows | jgnash-core/src/main/java/jgnash/engine/message/MessageBus.java:188-193 | the registration step only appends, at most one entry, and appends nothing when the listener is already there |
| Listeners.AddIfAbsentSpec | jgnash-core/src/main/java/jgnash/engine/message/MessageBus.java:188-193 | one registration step on a duplicate-free set: exactly one live reference to l, still duplicate-free, old set a prefix of the new one |
| Listeners.RegisterKeys | jgnash-core/src/main/java/jgnash/engine/message/MessageBus.java:181-186 | registerListener creates a set for exactly the named channels that had none |
| Listeners.RegisterKeepsNoDup | jgnash-core/src/main/java/jgnash/engine/message/MessageBus.java:180-195 | registerListener keeps every set duplicate-free |
| Listeners.RegisterFrame | jgnash-core/src/main/java/jgnash/engine/message/MessageBus.java:180-195 | registerListener leaves channels outside its arguments unchanged and removes no entry from any set, dead ones included |
| Listeners.RegisterLive | jgnash-core/src/main/java/jgnash/engine/message/MessageBus.java:180-195 | after registerListener, the listener is live on each named channel |
| Listeners.RegisterAt | jgnash-core/src/main/java/jgnash/engine/message/MessageBus.java:180-195 | each named channel ends with its old set after one AddIfAbsent step, even when it is named twice: the set is unchanged where l was already live, and is the old set with l appended otherwise |
| Listeners.RegisterSpec | jgnash-core/src/main/java/jgnash/engine/message/MessageBus.java:180-195 | registration happens once per (listener, channel): on each named channel l is present exactly once and the new set is the old one after a single AddIfAbsent step, so only l can be added; other channels are untouched, nothing is pruned, and the sets stay duplicate-free |
| Listeners.RegisterNothingNew | jgnash-core/src/main/java/jgnash/engine/message/MessageBus.java:188-190 | a listener already live on every named channel is rejected as a duplicate everywhere: the registry is unchanged |
| Listeners.RegisterIdempotent | jgnash-core/src/main/java/jgnash/engine/message/MessageBus.java:180-195 | a second registerListener with the same arguments is a no-op |
| Listeners.UnregisterKeys | jgnash-core/src/main/java/jgnash/engine/message/MessageBus.java:199-201 | unregisterListener creates no set |
| Listeners.UnregisterPrunes | jgnash-core/src/main/java/jgnash/engine/message/MessageBus.java:197-210 | each named channel that has a set is pruned of dead references and references to l; all other sets are unchanged |
| Listeners.UnregisterSpec | jgnash-core/src/main/java/jgnash/engine/message/MessageBus.java:197-210 | after unregisterListener, a named channel's set holds x iff x was there, is live and is not l; the survivors keep their order; other channels and the key set are unchanged |
| Listeners.RemoveFirst | jgnash-core/src/main/java/jgnash/engine/message/MessageBus.java:205 | `set.remove(ref)` takes out exactly the entry for ref and keeps the order of the rest |
| Listeners.PruneDrop | jgnash-core/src/main/java/jgnash/engine/message/MessageBus.java:204-205 | removing a dropped entry from the half-scanned set extends the pruned prefix by that entry and leaves the unvisited rest intact |
| Listeners.PruneKeep | jgnash-core/src/main/java/jgnash/engine/message/MessageBus.java:204 | an entry that is kept extends the pruned prefix unchanged |
| Listeners.PrunedClosedForm | jgnash-core/src/main/java/jgnash/engine/message/MessageBus.java:202-207 | midway through the scan, the live set is the visited part of the snapshot pruned, followed by the unvisited part untouched; removing through the set never disturbs the snapshot iteration |
| Listeners.PruneComplete | jgnash-core/src/main/java/jgnash/engine/message/MessageBus.java:202-207 | after the whole scan the live set is the snapshot without dead references and references to l |
| Listeners.DeliveriesInOrder | jgnash-core/src/main/java/jgnash/engine/message/MessageBus.java:234-241 | a delivery pass calls exactly the live entries of the set, in set order, each with the fired message |
| Listeners.DeliveriesCount | jgnash-core/src/main/java/jgnash/engine/message/MessageBus.java:234-241 | the number of calls a listener receives equals its number of live entries in the set |
| Listeners.DeliveredExactlyOnce | jgnash-core/src/main/java/jgnash/engine/message/MessageBus.java:232-241 | over a duplicate-free set, each live listener of the channel is called exactly once; dead listeners and listeners of other channels are not called |
| Bus.MessageBus.constructor | jgnash-core/src/main/java/jgnash/engine/message/MessageBus.java:58-73 | a new bus has its name, no sets, an empty queue and no client |
| Bus.MessageBus.Collect | jgnash-core/src/main/java/jgnash/engine/message/MessageBus.java:58 | the garbage collector reclaims listeners (the weak references do not keep them alive); the registry invariant is kept |
| Bus.MessageBus.RemoteDataBasePath | jgnash-core/src/main/java/jgnash/engine/message/MessageBus.java:113-118 | the bound client's data base path, or nothing when no client is bound |
| Bus.MessageBus.RemoteDataStoreType | jgnash-core/src/main/java/jgnash/engine/message/MessageBus.java:120-125 | the bound client's data store type, or nothing when no client is bound |
| Bus.MessageBus.ContainsListener | jgnash-core/src/main/java/jgnash/engine/message/MessageBus.java:212-224 | true iff the channel has a set holding a reference to l and l is live; dead references never count as duplicates |
| Bus.MessageBus.RegisterListener | jgnash-core/src/main/java/jgnash/engine/message/MessageBus.java:180-195 | the new registry is `Register` of the old one (see the Register lemmas), and every set stays duplicate-free |
| Bus.MessageBus.UnregisterListener | jgnash-core/src/main/java/jgnash/engine/message/MessageBus.java:197-210 | the new registry is `Unregister` of the old one (see the Unregister lemmas), and every set stays duplicate-free |
| Bus.MessageBus.PruneChannel | jgnash-core/src/main/java/jgnash/engine/message/MessageBus.java:201-207 | walking a snapshot while removing from the live set leaves exactly the snapshot without dead references and references to l |
| Bus.MessageBus.FireEvent | jgnash-core/src/main/java/jgnash/engine/message/MessageBus.java:226-228 | the message joins the back of the executor's queue; nothing is delivered yet |
| Bus.MessageBus.Step | jgnash-core/src/main/java/jgnash/engine/message/MessageBus.java:228-254 | the oldest queued message is processed (FIFO): its channel's live listeners get `Deliveries`; it reaches the bound client iff it is local and not a system event; the registry, the bound client, and that client's connection flag, metadata and shutdown flag are unchanged |
| Bus.MessageBus.DisconnectFromServer | jgnash-core/src/main/java/jgnash/engine/message/MessageBus.java:127-132 | a bound client is disconnected, with all else about it unchanged; afterwards no client is bound |
| Bus.MessageBus.SetLocal | jgnash-core/src/main/java/jgnash/engine/message/MessageBus.java:90-92 | after setLocal no client is bound and any former one is disconnected, with all else about it unchanged |
| Bus.MessageBus.ConnectToServer | jgnash-core/src/main/java/jgnash/engine/message/MessageBus.java:149-178 | refused with an IllegalArgumentException iff the host is null or the port is not positive; otherwise true iff the server accepts and completes the handshake within the wait, in which case a new connected, handshaken client for the host, port and bus name is bound; on false no client is bound, and a client the server accepted but that timed out has been disconnected |
| Bus.MessageBus.SetRemote | jgnash-core/src/main/java/jgnash/engine/message/MessageBus.java:82-85 | any former client is disconnected first, with all else about it unchanged; the outcome is connectToServer's; on anything but success no client is bound |
| Bus.MessageBus.ShutDownRemoteServer | jgnash-core/src/main/java/jgnash/engine/message/MessageBus.java:137-147 | refused iff the host is null or the port is not positive; otherwise a throwaway client, never the bound one, requests the shutdown iff the server accepts its connection |
| Bus.BusMap.constructor | jgnash-core/src/main/java/jgnash/engine/message/MessageBus.java:64 | the map of named buses starts empty |
| Bus.BusMap.GetInstance | jgnash-core/src/main/java/jgnash/engine/message/MessageBus.java:103-111 | a name always yields the bus stored under it; the first request creates and stores a fresh, empty bus of that name |
| Bus.BusMap.GetDefaultInstance | jgnash-core/src/main/java/jgnash/engine/message/MessageBus.java:99-101 | the user-interface bus is the instance named "default"; the first request creates and stores a fresh, empty bus of that name |
| Remote.Client.constructor | jgnash-core/src/main/java/jgnash/engine/message/MessageBus.java:142 | a new client for a host, port and bus name is not connected, has no metadata and has sent nothing |
| Remote.Client.ConnectToServer | jgnash-core/src/main/java/jgnash/engine/message/MessageBus.java:156 | the client is connected iff the server accepts |
| Remote.Client.DisconnectFromServer | jgnash-core/src/main/java/jgnash/engine/message/MessageBus.java:129 | afterwards the client is not connected |
| Remote.Client.Receive | jgnash-core/src/main/java/jgnash/engine/message/MessageBus.java:163 | the metadata the poll loop observes is the server's; the handshake is done iff both parts have arrived |
| Remote.Client.SendRemoteMessage | jgnash-core/src/main/java/jgnash/engine/message/MessageBus.java:250 | the message is appended to what the client has sent |
| Remote.Client.SendRemoteShutdownRequest | jgnash-core/src/main/java/jgnash/engine/message/MessageBus.java:145 | the shutdown request is issued |
| Scenario.RegisterTwo | jgnash-core/src/main/java/jgnash/engine/message/MessageBus.java:180-195 | two listeners registered in turn on the account channel sit there in registration order |
| Scenario.DeliverTwo | jgnash-core/src/main/java/jgnash/engine/message/MessageBus.java:232-241 | those two listeners receive the message once each, in that order |

## Left out

- Threads, `synchronized` and the concurrent collections' memory effects are not modelled. Operations are atomic steps, and the executor's worker runs only when `Step` is called.
- Garbage collection happens only between operations, through `Bus.MessageBus.Collect`. It cannot happen in the middle of a scan.
- Listener identity stands for a weak reference. This is sound because a collected listener is never registered again, so each set holds at most one reference per listener.
- Bus.MessageBus.RegisterListener: requires that the listener is not collected, because the caller holds a strong reference to the listener it passes.
- Bus.MessageBus.Step: requires a non-empty queue, because the worker runs only when a task is queued. Listener callbacks are assumed never to throw and never to call back into the bus. The code has no try/catch, so a throwing listener would skip the rest of that message's delivery and its forwarding. A `messagePosted` that calls `registerListener`, `unregisterListener` or `fireEvent` would change the registry or the queue during the pass, although the pass itself still walks its snapshot of the set. The model captures neither.
- Bus.MessageBus.ConnectToServer: the wall clock is replaced by one tick per poll iteration. The handshake counts when it has arrived at some poll up to and including the first one past the MAX_LATENCY bound (tick MaxLatency + 1, with MaxLatency = 5000), because line 163 tests the metadata before line 164 tests the clock. The metadata the client holds at each tick is the parameter `heard`. The server's verdict on the transport connect is the parameter `accepted`. The password is passed on but plays no part.
- `MessageBusClient`'s networking, serialisation and authentication are not modelled. MessageBusClient.java is not part of this model. The `Remote.Client` class stands in for it.
- MessageChannel.java and DataStoreType.java are not part of this model. Their values are written out as the `Channel` and `StoreType` datatypes.
- Logging of duplicate registrations and of the handshake timeout is left out.
- A null listener, a null message and a null channel are not modelled. A null channel would make the `ConcurrentHashMap` lookup throw a `NullPointerException`.
- The static `busMap` is not modelled as a global. It is the explicit object `Bus.BusMap`.
- `registerListener` and the delivery pass leave dead references in place. Only `unregisterListener` prunes them (line 204). The model does the same.
