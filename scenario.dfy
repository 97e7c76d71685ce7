/** Clients of the bus, shown only through the contracts of Bus: two
    listeners on the account channel receive a local message once each; a
    remote connection whose server answers the handshake at once is bound,
    after which a local account message is forwarded once while a remote
    one and a system one are not. */
module Scenario {
  import opened Wrappers
  import opened Messages
  import opened Listeners
  import opened Remote
  import opened Bus

  lemma RegisterTwo()
    ensures Register(map[], {}, 1, [Account]) == map[Account := [1]]
    ensures Register(map[Account := [1]], {}, 2, [Account]) == map[Account := [1, 2]]
  {
    assert [Account][..0] == [];
    assert Register(map[], {}, 1, []) == map[];
    assert !HasLive([], {}, 1);
    assert AddIfAbsent(Lookup(map[], Account), {}, 1) == [1];
    var reg := map[Account := [1]];
    assert Register(reg, {}, 2, []) == reg;
    assert Deref(1, {}) == Some(1);
    assert !HasLive([1], {}, 2);
    assert AddIfAbsent(Lookup(reg, Account), {}, 2) == [1, 2];
  }

  lemma DeliverTwo(m: Message)
    ensures Deliveries([1, 2], {}, m) == [Delivery(1, m), Delivery(2, m)]
  {
    assert [1, 2][..1] == [1];
    assert [1][..0] == [];
    assert Deliveries([], {}, m) == [];
    assert Deliveries([1], {}, m) == [Delivery(1, m)];
  }

  method SameInstance() {
    var buses := new BusMap();
    var bus := buses.GetInstance("engine");
    var again := buses.GetInstance("engine");
    var ui := buses.GetDefaultInstance();
    assert again == bus && ui != bus;
  }

  method LocalDelivery() {
    var bus := new MessageBus("engine");
    RegisterTwo();
    bus.RegisterListener(1, [Account]);
    bus.RegisterListener(2, [Account]);
    assert bus.listeners[Account] == [1, 2];

    var m := Message(Account, 0, false, 0);
    bus.FireEvent(m);
    bus.Step();
    DeliverTwo(m);
    assert bus.delivered == [Delivery(1, m), Delivery(2, m)];
  }

  method RemoteForwarding() {
    var bus := new MessageBus("engine");
    var heard := (t: nat) => Metadata(Some("/data"), Some(H2Database));
    assert heard(0).Complete();
    var outcome := bus.SetRemote(Some("localhost"), 5300, "secret", true, heard);
    assert outcome == Normal(true);
    var client := bus.messageBusClient;
    ghost var path := bus.RemoteDataBasePath();

    var m := Message(Account, 0, false, 0);
    bus.FireEvent(m);
    bus.Step();
    assert client.sent == [m];

    bus.FireEvent(Message(Account, 0, true, 0));
    bus.Step();
    bus.FireEvent(Message(System, 0, false, 0));
    bus.Step();
    assert client.sent == [m];
    // the worker never touches the bound client's connection or metadata
    assert client.connected && bus.RemoteDataBasePath() == path;
  }
}
