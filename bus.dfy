/** jgnash's thread-safe message bus (jgnash.engine.message.MessageBus).

    A bus keeps, per channel, a set of weak references to listeners, and a
    single-thread executor that delivers fired messages one at a time: first
    to every live listener on the message's channel, then, unless the message
    came from the remote side or is a system event, to the bound remote
    client. The executor is the FIFO `pending` with Step as its worker; the
    observable effects are recorded in ghost logs. */
module Bus {
  import opened Wrappers
  import opened Messages
  import opened Listeners
  import opened Remote

  /** Name of the bus reserved for the user interface. */
  const Default: string := "default"

  /** Longest wait for the handshake, in poll iterations (jgnash's MAX_LATENCY, 5000 ms). */
  const MaxLatency: nat := 5000

  /** How a method of the bus completes: normally, or by throwing IllegalArgumentException. */
  datatype Completion<T> = Normal(value: T) | IllegalArgument

  /** m is one the worker passes on to a bound client: it came from this
      process and is not a system event. */
  predicate Forwards(m: Message) {
    !m.remote && m.channel != System
  }

  /** The server's metadata is complete at some poll before the wait times out. */
  predicate HandshakeInTime(heard: nat -> Metadata) {
    exists t :: 0 <= t <= MaxLatency + 1 && heard(t).Complete()
  }

  class MessageBus {
    const busName: string
    /** map: channel to its set of weak listener references. */
    var listeners: Registry
    /** Listeners the garbage collector has reclaimed; a reference to one of them is dead. */
    var collected: set<ListenerId>
    /** Tasks submitted to the single-thread executor and not yet run. */
    var pending: seq<Message>
    var messageBusClient: Client?
    /** Every message ever fired, and those the worker has processed, in order. */
    ghost var fired: seq<Message>
    ghost var processed: seq<Message>
    /** Every messagePosted call the worker has made, in order. */
    ghost var delivered: seq<Delivery>

    /** No set holds a reference twice, and the worker processes messages in firing order. */
    ghost predicate Valid()
      reads this
    {
      RegistryNoDup(listeners) && fired == processed + pending
    }

    /** No client is bound, or the bound one is connected and handshaken. */
    ghost predicate ConnectionSound()
      reads this, messageBusClient
    {
      messageBusClient != null ==> messageBusClient.connected && messageBusClient.Handshaken()
    }

    constructor (name: string)
      ensures busName == name && listeners == map[] && collected == {}
      ensures pending == [] && messageBusClient == null
      ensures fired == [] && processed == [] && delivered == []
      ensures Valid() && ConnectionSound()
    {
      busName := name;
      listeners := map[];
      collected := {};
      pending := [];
      messageBusClient := null;
      fired := [];
      processed := [];
      delivered := [];
    }

    /** The environment: the garbage collector reclaims some listeners. */
    method Collect(gone: set<ListenerId>)
      requires Valid()
      modifies this`collected
      ensures Valid() && collected == old(collected) + gone
    {
      collected := collected + gone;
    }

    function RemoteDataBasePath(): (r: Option<string>)
      reads this, messageBusClient
      ensures messageBusClient == null ==> r.None?
      ensures messageBusClient != null ==> r == messageBusClient.dataBasePath
    {
      if messageBusClient != null then messageBusClient.dataBasePath else None
    }

    function RemoteDataStoreType(): (r: Option<StoreType>)
      reads this, messageBusClient
      ensures messageBusClient == null ==> r.None?
      ensures messageBusClient != null ==> r == messageBusClient.dataStoreType
    {
      if messageBusClient != null then messageBusClient.dataStoreType else None
    }

    /** containsListener: some reference in c's set currently dereferences to l. */
    method ContainsListener(l: ListenerId, c: Channel) returns (b: bool)
      ensures b <==> c in listeners && exists i :: 0 <= i < |listeners[c]| && listeners[c][i] == l && l !in collected
      ensures b == HasLive(Lookup(listeners, c), collected, l)
    {
      if c in listeners {
        var snapshot := listeners[c];
        var i := 0;
        while i < |snapshot|
          invariant 0 <= i <= |snapshot|
          invariant forall k :: 0 <= k < i ==> Deref(snapshot[k], collected) != Some(l)
        {
          var referent := Deref(snapshot[i], collected);
          if referent == Some(l) {
            return true;
          }
          i := i + 1;
        }
      }
      return false;
    }

    method RegisterListener(l: ListenerId, channels: seq<Channel>)
      requires Valid() && l !in collected
      modifies this`listeners
      ensures Valid()
      ensures listeners == Register(old(listeners), collected, l, channels)
    {
      for i := 0 to |channels|
        invariant RegistryNoDup(listeners)
        invariant listeners == Register(old(listeners), collected, l, channels[..i])
      {
        var c := channels[i];
        RegisterSnoc(old(listeners), collected, l, channels, i);
        ghost var before := listeners;
        AddIfAbsentNoDup(Lookup(before, c), collected, l);
        RegistryNoDupUpdate(before, c, AddIfAbsent(Lookup(before, c), collected, l));
        if c !in listeners {
          listeners := listeners[c := []];
        }
        var duplicate := ContainsListener(l, c);
        if !duplicate {
          if c !in before {
            UpdateTwice(before, c, [], [] + [l]);
          }
          listeners := listeners[c := listeners[c] + [l]];
        } else {
          // a duplicate is only logged
          UpdateSame(before, c);
        }
      }
      assert channels[..|channels|] == channels;
    }

    method UnregisterListener(l: ListenerId, channels: seq<Channel>)
      requires Valid()
      modifies this`listeners
      ensures Valid()
      ensures listeners == Unregister(old(listeners), collected, l, channels)
    {
      for i := 0 to |channels|
        invariant Valid()
        invariant listeners == Unregister(old(listeners), collected, l, channels[..i])
      {
        var c := channels[i];
        assert channels[..i + 1][..i] == channels[..i];
        if c in listeners {
          ghost var before := listeners;
          PruneChannel(l, c);
          RegistryNoDupUpdate(before, c, listeners[c]);
        }
      }
      assert channels[..|channels|] == channels;
    }

    /** The inner loop of unregisterListener: walking a snapshot of c's set,
        every reference that is dead or refers to l is removed from the set. */
    method PruneChannel(l: ListenerId, c: Channel)
      requires c in listeners && NoDup(listeners[c])
      modifies this`listeners
      ensures listeners == old(listeners)[c := Keep(old(listeners)[c], collected + {l})]
      ensures NoDup(listeners[c])
    {
      var gone := collected;
      ghost var drop := gone + {l};
      var snapshot := listeners[c];
      UpdateSame(old(listeners), c);
      for j := 0 to |snapshot|
        invariant listeners == old(listeners)[c := Pruned(snapshot, drop, j)]
      {
        var referent := Deref(snapshot[j], gone);
        if referent.None? || referent == Some(l) {
          UpdateTwice(old(listeners), c, Pruned(snapshot, drop, j), Remove(Pruned(snapshot, drop, j), snapshot[j]));
          listeners := listeners[c := Remove(listeners[c], snapshot[j])];
        }
      }
      PruneComplete(snapshot, drop);
      KeepNoDup(snapshot, drop);
    }

    /** fireEvent only submits the message to the executor. */
    method FireEvent(m: Message)
      requires Valid()
      modifies this`pending, this`fired
      ensures Valid() && pending == old(pending) + [m] && fired == old(fired) + [m]
    {
      pending := pending + [m];
      fired := fired + [m];
    }

    /** The executor's worker runs the oldest submitted task. */
    method Step()
      requires Valid() && pending != []
      modifies this`pending, this`processed, this`delivered, messageBusClient
      ensures Valid()
      ensures var m := old(pending[0]);
        && pending == old(pending[1..])
        && processed == old(processed) + [m]
        && delivered == old(delivered) + Deliveries(Lookup(listeners, m.channel), collected, m)
        && (messageBusClient != null && Forwards(m) ==> messageBusClient.sent == old(messageBusClient.sent) + [m])
        && (messageBusClient != null && !Forwards(m) ==> messageBusClient.sent == old(messageBusClient.sent))
      ensures messageBusClient != null ==>
        && messageBusClient.connected == old(messageBusClient.connected)
        && messageBusClient.dataBasePath == old(messageBusClient.dataBasePath)
        && messageBusClient.dataStoreType == old(messageBusClient.dataStoreType)
        && messageBusClient.shutdownRequested == old(messageBusClient.shutdownRequested)
      ensures listeners == old(listeners) && collected == old(collected) && messageBusClient == old(messageBusClient)
      ensures ConnectionSound() == old(ConnectionSound())
    {
      var m := pending[0];
      pending := pending[1..];
      processed := processed + [m];
      // deliver to every live listener of the message's channel, in set order
      if m.channel in listeners {
        var snapshot := listeners[m.channel];
        for i := 0 to |snapshot|
          modifies this`delivered
          invariant delivered == old(delivered) + Deliveries(snapshot[..i], collected, m)
        {
          DeliveriesSnoc(snapshot, collected, m, i);
          var referent := Deref(snapshot[i], collected);
          if referent.Some? {
            delivered := delivered + [Delivery(referent.value, m)];
          }
        }
        assert snapshot[..|snapshot|] == snapshot;
      }
      // forward local, non-system messages to the bound client
      if !m.remote {
        if messageBusClient != null && m.channel != System {
          messageBusClient.SendRemoteMessage(m);
        }
      }
    }

    method DisconnectFromServer()
      requires Valid()
      modifies this`messageBusClient, messageBusClient
      ensures Valid() && messageBusClient == null
      ensures old(messageBusClient) != null ==> !old(messageBusClient).connected
      ensures old(messageBusClient) != null ==>
        && old(messageBusClient).sent == old(messageBusClient.sent)
        && old(messageBusClient).dataBasePath == old(messageBusClient.dataBasePath)
        && old(messageBusClient).dataStoreType == old(messageBusClient.dataStoreType)
        && old(messageBusClient).shutdownRequested == old(messageBusClient.shutdownRequested)
    {
      if messageBusClient != null {
        messageBusClient.DisconnectFromServer();
        messageBusClient := null;
      }
    }

    method SetLocal()
      requires Valid()
      modifies this`messageBusClient, messageBusClient
      ensures Valid() && messageBusClient == null && ConnectionSound()
      ensures old(messageBusClient) != null ==> !old(messageBusClient).connected
      ensures old(messageBusClient) != null ==>
        && old(messageBusClient).sent == old(messageBusClient.sent)
        && old(messageBusClient).dataBasePath == old(messageBusClient.dataBasePath)
        && old(messageBusClient).dataStoreType == old(messageBusClient.dataStoreType)
        && old(messageBusClient).shutdownRequested == old(messageBusClient.shutdownRequested)
    {
      DisconnectFromServer();
    }

    /** connectToServer, with the server's verdict on the transport connect
        as `accepted` and the metadata the client holds at each poll as `heard`. */
    method ConnectToServer(host: Option<string>, port: int, password: string, accepted: bool, heard: nat -> Metadata)
      returns (outcome: Completion<bool>, ghost client: Client?)
      requires Valid()
      modifies this`messageBusClient
      ensures Valid()
      ensures outcome.IllegalArgument? <==> host.None? || port <= 0
      ensures outcome.IllegalArgument? ==> messageBusClient == old(messageBusClient) && client == null
      ensures outcome.Normal? ==>
        && client != null && fresh(client)
        && client.host == host.value && client.port == port && client.busName == busName
        && client.sent == [] && !client.shutdownRequested
      ensures outcome == Normal(true) ==> messageBusClient == client
      ensures outcome == Normal(false) && accepted ==> !client.connected
      ensures outcome.Normal? ==> (outcome.value <==> accepted && HandshakeInTime(heard))
      ensures outcome == Normal(true) ==>
        && messageBusClient != null && fresh(messageBusClient)
        && messageBusClient.host == host.value && messageBusClient.port == port
        && messageBusClient.busName == busName && messageBusClient.sent == []
        && messageBusClient.connected && messageBusClient.Handshaken()
        && RemoteDataBasePath().Some? && RemoteDataStoreType().Some?
      ensures outcome == Normal(false) ==> messageBusClient == null
    {
      if host.None? || port <= 0 {
        return IllegalArgument, null;
      }
      var newClient := new Client(host.value, port, busName);
      client := newClient;
      messageBusClient := newClient;
      var result := newClient.ConnectToServer(password, accepted);
      if result {
        // poll the client for the handshake until it is complete or the wait times out
        var t: nat := 0;
        newClient.Receive(heard(t));
        while RemoteDataBasePath().None? || RemoteDataStoreType().None?
          invariant t <= MaxLatency + 1
          invariant messageBusClient == newClient && newClient.connected && newClient.sent == [] && result
          invariant !newClient.shutdownRequested
          invariant newClient.Handshaken() == heard(t).Complete()
          invariant forall k :: 0 <= k < t ==> !heard(k).Complete()
          decreases MaxLatency + 1 - t
        {
          if t > MaxLatency {
            DisconnectFromServer();
            result := false;
            break;
          }
          t := t + 1;
          newClient.Receive(heard(t));
        }
        if !result {
          assert forall k :: 0 <= k <= MaxLatency + 1 ==> !heard(k).Complete();
        }
      } else {
        // a client whose transport connect was refused is not kept
        messageBusClient := null;
      }
      return Normal(result), client;
    }

    /** setRemote: any bound client is disconnected before a new one is connected. */
    method SetRemote(host: Option<string>, port: int, password: string, accepted: bool, heard: nat -> Metadata)
      returns (outcome: Completion<bool>)
      requires Valid()
      modifies this`messageBusClient, messageBusClient
      ensures old(messageBusClient) != null ==> !old(messageBusClient).connected
      ensures old(messageBusClient) != null ==>
        && old(messageBusClient).sent == old(messageBusClient.sent)
        && old(messageBusClient).dataBasePath == old(messageBusClient.dataBasePath)
        && old(messageBusClient).dataStoreType == old(messageBusClient.dataStoreType)
        && old(messageBusClient).shutdownRequested == old(messageBusClient.shutdownRequested)
      ensures outcome.IllegalArgument? <==> host.None? || port <= 0
      ensures outcome.Normal? ==> (outcome.value <==> accepted && HandshakeInTime(heard))
      ensures outcome == Normal(true) ==>
        && messageBusClient != null && fresh(messageBusClient)
        && messageBusClient.host == host.value && messageBusClient.port == port
        && messageBusClient.sent == []
      ensures outcome != Normal(true) ==> messageBusClient == null
      ensures Valid() && ConnectionSound()
    {
      DisconnectFromServer();
      ghost var client;
      outcome, client := ConnectToServer(host, port, password, accepted, heard);
    }

    /** shutDownRemoteServer: a throwaway client carries the request; the bound client is not touched. */
    method ShutDownRemoteServer(host: Option<string>, port: int, password: string, accepted: bool)
      returns (outcome: Completion<()>, ghost throwaway: Client?)
      ensures outcome.IllegalArgument? <==> host.None? || port <= 0
      ensures outcome.IllegalArgument? ==> throwaway == null
      ensures outcome.Normal? ==>
        && throwaway != null && throwaway != messageBusClient
        && throwaway.host == host.value && throwaway.port == port && throwaway.busName == busName
        && (throwaway.shutdownRequested <==> accepted)
    {
      if host.None? || port <= 0 {
        return IllegalArgument, null;
      }
      var client := new Client(host.value, port, busName);
      var connected := client.ConnectToServer(password, accepted);
      if connected {
        client.SendRemoteShutdownRequest();
      }
      return Normal(()), client;
    }
  }

  /** The process-wide busMap from names to buses. */
  class BusMap {
    var buses: map<string, MessageBus>

    /** Each bus is stored under its own name. */
    ghost predicate Valid()
      reads this
    {
      forall n :: n in buses ==> buses[n].busName == n
    }

    constructor ()
      ensures Valid() && buses == map[]
    {
      buses := map[];
    }

    /** getInstance(name): the stored bus, or a new one stored under name. */
    method GetInstance(name: string) returns (bus: MessageBus)
      requires Valid()
      modifies this
      ensures Valid() && name in buses && buses[name] == bus && bus.busName == name
      ensures name in old(buses) ==> bus == old(buses)[name] && buses == old(buses)
      ensures name !in old(buses) ==>
        && fresh(bus) && buses == old(buses)[name := bus]
        && bus.Valid() && bus.ConnectionSound()
        && bus.listeners == map[] && bus.collected == {} && bus.pending == []
        && bus.delivered == [] && bus.messageBusClient == null
    {
      if name in buses {
        bus := buses[name];
      } else {
        bus := new MessageBus(name);
        buses := buses[name := bus];
      }
    }

    /** getInstance(): the bus intended for user-interface use. */
    method GetDefaultInstance() returns (bus: MessageBus)
      requires Valid()
      modifies this
      ensures Valid() && Default in buses && buses[Default] == bus && bus.busName == Default
      ensures Default in old(buses) ==> bus == old(buses)[Default] && buses == old(buses)
      ensures Default !in old(buses) ==>
        && fresh(bus) && buses == old(buses)[Default := bus]
        && bus.Valid() && bus.ConnectionSound()
        && bus.listeners == map[] && bus.collected == {} && bus.pending == []
        && bus.delivered == [] && bus.messageBusClient == null
    {
      bus := GetInstance(Default);
    }
  }
}
