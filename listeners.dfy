/** The listener registry of a message bus, as values.

    A channel's listener set is a CopyOnWriteArraySet of weak references; it is
    modelled as a sequence of listener identities in insertion order (the
    iteration order of that set). A reference is dead once its listener has
    been collected: the set `collected` stands for the garbage collector's
    knowledge. The functions here are the specifications that the methods of
    Bus.MessageBus are proved against. */
module Listeners {
  import opened Wrappers
  import opened Messages

  /** Identity of a MessageListener object. */
  type ListenerId = int

  /** The registry: a channel's listener set, when the channel has one. */
  type Registry = map<Channel, seq<ListenerId>>

  /** One call of a listener's messagePosted callback. */
  datatype Delivery = Delivery(listener: ListenerId, message: Message)

  /** What WeakReference.get() returns: the listener, or null once it is collected. */
  function Deref(ref: ListenerId, collected: set<ListenerId>): (r: Option<ListenerId>)
    ensures r.Some? <==> ref !in collected
    ensures r.Some? ==> r.value == ref
  {
    if ref in collected then None else Some(ref)
  }

  /** No element occurs twice: each is absent from the part before it. */
  predicate NoDup<T(==)>(s: seq<T>) {
    s == [] || (NoDup(s[..|s| - 1]) && s[|s| - 1] !in s[..|s| - 1])
  }

  /** Every channel's set holds each reference at most once. */
  predicate RegistryNoDup(reg: Registry) {
    forall c :: c in reg ==> NoDup(reg[c])
  }

  /** Number of occurrences of x in s. */
  function Count<T(==)>(s: seq<T>, x: T): nat {
    if s == [] then 0 else Count(s[..|s| - 1], x) + (if s[|s| - 1] == x then 1 else 0)
  }

  /** a can be obtained from b by deleting elements (order is kept). */
  predicate IsSubsequence<T(==)>(a: seq<T>, b: seq<T>)
    decreases |b|
  {
    if a == [] then true
    else if b == [] then false
    else
      || (a[|a| - 1] == b[|b| - 1] && IsSubsequence(a[..|a| - 1], b[..|b| - 1]))
      || IsSubsequence(a, b[..|b| - 1])
  }

  /** A channel's set, or the empty sequence when the channel has none. */
  function Lookup(reg: Registry, c: Channel): seq<ListenerId> {
    if c in reg then reg[c] else []
  }

  /** Some entry of s currently dereferences to l (containsListener's scan). */
  predicate HasLive(s: seq<ListenerId>, collected: set<ListenerId>, l: ListenerId) {
    exists i :: 0 <= i < |s| && Deref(s[i], collected) == Some(l)
  }

  /** The entries of s whose listener is not in drop, in their original order. */
  function Keep(s: seq<ListenerId>, drop: set<ListenerId>): seq<ListenerId> {
    if s == [] then []
    else Keep(s[..|s| - 1], drop) + (if s[|s| - 1] in drop then [] else [s[|s| - 1]])
  }

  /** Registration on one channel: a new reference is appended unless l is already found live. */
  function AddIfAbsent(s: seq<ListenerId>, collected: set<ListenerId>, l: ListenerId): seq<ListenerId> {
    if HasLive(s, collected, l) then s else s + [l]
  }

  /** registerListener(l, cs...): each channel in turn gets a set if it has
      none, then l unless l is found live there. Nothing is pruned. */
  function Register(reg: Registry, collected: set<ListenerId>, l: ListenerId, cs: seq<Channel>): Registry {
    if cs == [] then reg
    else
      var prev := Register(reg, collected, l, cs[..|cs| - 1]);
      var c := cs[|cs| - 1];
      prev[c := AddIfAbsent(Lookup(prev, c), collected, l)]
  }

  /** unregisterListener(l, cs...): on each channel that has a set, every
      reference that is dead or refers to l is removed. No set is created. */
  function Unregister(reg: Registry, collected: set<ListenerId>, l: ListenerId, cs: seq<Channel>): Registry {
    if cs == [] then reg
    else
      var prev := Unregister(reg, collected, l, cs[..|cs| - 1]);
      var c := cs[|cs| - 1];
      if c in prev then prev[c := Keep(prev[c], collected + {l})] else prev
  }

  /** The callbacks one delivery pass over s makes for message m. */
  function Deliveries(s: seq<ListenerId>, collected: set<ListenerId>, m: Message): seq<Delivery> {
    if s == [] then []
    else
      Deliveries(s[..|s| - 1], collected, m)
      + (match Deref(s[|s| - 1], collected)
         case Some(x) => [Delivery(x, m)]
         case None => [])
  }

  /** Removal from a CopyOnWriteArraySet: the first entry equal to x goes. */
  function Remove(s: seq<ListenerId>, x: ListenerId): seq<ListenerId> {
    if s == [] then []
    else if s[0] == x then s[1..]
    else [s[0]] + Remove(s[1..], x)
  }

  // ---------------------------------------------------------------------
  // Keep

  lemma {:induction false} KeepMembers(s: seq<ListenerId>, drop: set<ListenerId>)
    ensures forall x :: x in Keep(s, drop) <==> x in s && x !in drop
  {
    if s != [] {
      var p := s[..|s| - 1];
      KeepMembers(p, drop);
      assert s == p + [s[|s| - 1]];
    }
  }

  lemma {:induction false} KeepIsSubsequence(s: seq<ListenerId>, drop: set<ListenerId>)
    ensures IsSubsequence(Keep(s, drop), s)
  {
    if s != [] {
      var p := s[..|s| - 1];
      KeepIsSubsequence(p, drop);
      var k := Keep(p, drop);
      var a := Keep(s, drop);
      if s[|s| - 1] !in drop {
        assert a == k + [s[|s| - 1]];
        assert a[..|a| - 1] == k && a[|a| - 1] == s[|s| - 1];
        assert IsSubsequence(a[..|a| - 1], s[..|s| - 1]);
      } else {
        assert a == k;
        assert a == [] || IsSubsequence(a, s[..|s| - 1]);
      }
    }
  }

  /** Keep invents no entry. */
  lemma {:induction false} KeepFrom(s: seq<ListenerId>, drop: set<ListenerId>, x: ListenerId)
    requires x !in s
    ensures x !in Keep(s, drop)
  {
    if s != [] {
      var p := s[..|s| - 1];
      assert x !in p by {
        assert forall i :: 0 <= i < |p| ==> p[i] == s[i];
      }
      KeepFrom(p, drop, x);
    }
  }

  lemma {:induction false} NoDupAt<T>(s: seq<T>, j: nat)
    requires NoDup(s) && j < |s|
    ensures s[j] !in s[..j]
  {
    var p := s[..|s| - 1];
    if j < |s| - 1 {
      NoDupAt(p, j);
      assert p[j] == s[j] && p[..j] == s[..j];
    }
  }

  lemma {:induction false} KeepNoDup(s: seq<ListenerId>, drop: set<ListenerId>)
    requires NoDup(s)
    ensures NoDup(Keep(s, drop))
  {
    if s != [] {
      var p := s[..|s| - 1];
      var x := s[|s| - 1];
      var k := Keep(p, drop);
      KeepNoDup(p, drop);
      if x !in drop {
        KeepFrom(p, drop, x);
        assert Keep(s, drop) == k + [x];
        assert (k + [x])[..|k|] == k && (k + [x])[|k|] == x;
      } else {
        assert Keep(s, drop) == k;
      }
    }
  }

  /** Pruning the same set twice has the effect of pruning it once. */
  lemma {:induction false} KeepTwice(s: seq<ListenerId>, drop: set<ListenerId>)
    ensures Keep(Keep(s, drop), drop) == Keep(s, drop)
  {
    if s != [] {
      var p := s[..|s| - 1];
      var x := s[|s| - 1];
      KeepTwice(p, drop);
      var k := Keep(p, drop);
      if x !in drop {
        assert Keep(s, drop) == k + [x];
        assert (k + [x])[..|k|] == k;
        assert Keep(k + [x], drop) == Keep(k, drop) + [x];
      } else {
        assert Keep(s, drop) == k;
      }
    }
  }

  // ---------------------------------------------------------------------
  // Counting

  lemma {:induction false} CountNoDup<T>(s: seq<T>, x: T)
    requires NoDup(s)
    ensures Count(s, x) == if x in s then 1 else 0
  {
    if s != [] {
      var p := s[..|s| - 1];
      CountNoDup(p, x);
      assert s == p + [s[|s| - 1]];
      assert Count(s, x) == Count(p, x) + (if s[|s| - 1] == x then 1 else 0);
    }
  }

  // ---------------------------------------------------------------------
  // Registration

  lemma AddIfAbsentLive(s: seq<ListenerId>, collected: set<ListenerId>, l: ListenerId)
    requires l !in collected
    ensures HasLive(AddIfAbsent(s, collected, l), collected, l)
  {
    if !HasLive(s, collected, l) {
      var r := s + [l];
      assert Deref(r[|s|], collected) == Some(l);
    }
  }

  lemma AddIfAbsentNoDup(s: seq<ListenerId>, collected: set<ListenerId>, l: ListenerId)
    requires NoDup(s) && l !in collected
    ensures NoDup(AddIfAbsent(s, collected, l))
  {
  }

  lemma AddIfAbsentGrows(s: seq<ListenerId>, collected: set<ListenerId>, l: ListenerId)
    requires l !in collected
    ensures var r := AddIfAbsent(s, collected, l);
      s <= r && |r| <= |s| + 1 && (l in s ==> r == s)
  {
  }

  /** One registration of a live listener on a duplicate-free set leaves l
      live there exactly once, keeps the set duplicate-free and never removes
      an entry (the old set is a prefix of the new one). */
  lemma AddIfAbsentSpec(s: seq<ListenerId>, collected: set<ListenerId>, l: ListenerId)
    requires NoDup(s) && l !in collected
    ensures var r := AddIfAbsent(s, collected, l);
      && NoDup(r) && HasLive(r, collected, l) && Count(r, l) == 1
      && s <= r && |r| <= |s| + 1
      && (l in s ==> r == s)
  {
    var r := AddIfAbsent(s, collected, l);
    AddIfAbsentLive(s, collected, l);
    AddIfAbsentNoDup(s, collected, l);
    AddIfAbsentGrows(s, collected, l);
    CountNoDup(r, l);
  }

  /** Register over a list of channels one longer. */
  lemma RegisterSnoc(reg: Registry, collected: set<ListenerId>, l: ListenerId, cs: seq<Channel>, i: nat)
    requires i < |cs|
    ensures var prev := Register(reg, collected, l, cs[..i]);
      Register(reg, collected, l, cs[..i + 1]) == prev[cs[i] := AddIfAbsent(Lookup(prev, cs[i]), collected, l)]
  {
    assert cs[..i + 1][..i] == cs[..i];
  }

  /** registerListener creates a set for each channel of cs that has none, and no other. */
  lemma {:induction false} RegisterKeys(reg: Registry, collected: set<ListenerId>, l: ListenerId, cs: seq<Channel>)
    ensures Register(reg, collected, l, cs).Keys == reg.Keys + (set c | c in cs)
  {
    if cs != [] {
      var init := cs[..|cs| - 1];
      RegisterKeys(reg, collected, l, init);
      assert cs == init + [cs[|cs| - 1]];
    }
  }

  lemma {:induction false} RegisterKeepsNoDup(reg: Registry, collected: set<ListenerId>, l: ListenerId, cs: seq<Channel>)
    requires RegistryNoDup(reg) && l !in collected
    ensures RegistryNoDup(Register(reg, collected, l, cs))
  {
    if cs != [] {
      var prev := Register(reg, collected, l, cs[..|cs| - 1]);
      var c := cs[|cs| - 1];
      RegisterKeepsNoDup(reg, collected, l, cs[..|cs| - 1]);
      AddIfAbsentSpec(Lookup(prev, c), collected, l);
      RegistryNoDupUpdate(prev, c, AddIfAbsent(Lookup(prev, c), collected, l));
    }
  }

  lemma {:induction false} RegisterFrame(reg: Registry, collected: set<ListenerId>, l: ListenerId, cs: seq<Channel>)
    ensures forall c :: c !in cs ==> Lookup(Register(reg, collected, l, cs), c) == Lookup(reg, c)
    ensures forall c :: c in reg ==> c in Register(reg, collected, l, cs) && reg[c] <= Register(reg, collected, l, cs)[c]
  {
    if cs != [] {
      var init := cs[..|cs| - 1];
      RegisterFrame(reg, collected, l, init);
      RegisterKeys(reg, collected, l, init);
      forall c | c !in cs
        ensures c !in init
      {
        assert forall i :: 0 <= i < |init| ==> init[i] == cs[i];
      }
    }
  }

  lemma {:induction false} RegisterLive(reg: Registry, collected: set<ListenerId>, l: ListenerId, cs: seq<Channel>)
    requires l !in collected
    ensures var r := Register(reg, collected, l, cs);
      forall c :: c in cs ==> c in r && HasLive(r[c], collected, l)
  {
    if cs != [] {
      var init := cs[..|cs| - 1];
      var c := cs[|cs| - 1];
      RegisterLive(reg, collected, l, init);
      var prev := Register(reg, collected, l, init);
      AddIfAbsentLive(Lookup(prev, c), collected, l);
      forall d | d in cs && d != c
        ensures d in init
      {
        var i :| 0 <= i < |cs| && cs[i] == d;
        assert cs[i] == init[i];
      }
    }
  }

  /** On each channel of cs, registerListener(l, cs...) leaves the old set
      plus l, appended only when l was not already found live there; a
      channel named twice is not changed by its second step. */
  lemma {:induction false} RegisterAt(reg: Registry, collected: set<ListenerId>, l: ListenerId, cs: seq<Channel>)
    requires l !in collected
    ensures var r := Register(reg, collected, l, cs);
      forall c :: c in cs ==> c in r && r[c] == AddIfAbsent(Lookup(reg, c), collected, l)
    ensures var r := Register(reg, collected, l, cs);
      forall c :: c in cs && HasLive(Lookup(reg, c), collected, l) ==> r[c] == Lookup(reg, c)
    ensures var r := Register(reg, collected, l, cs);
      forall c :: c in cs && !HasLive(Lookup(reg, c), collected, l) ==> r[c] == Lookup(reg, c) + [l]
  {
    if cs != [] {
      var init := cs[..|cs| - 1];
      var c := cs[|cs| - 1];
      RegisterAt(reg, collected, l, init);
      RegisterFrame(reg, collected, l, init);
      var prev := Register(reg, collected, l, init);
      if c in init {
        AddIfAbsentLive(Lookup(reg, c), collected, l);
        assert Lookup(prev, c) == AddIfAbsent(Lookup(reg, c), collected, l);
      }
      forall d | d in cs && d != c
        ensures d in init
      {
        var i :| 0 <= i < |cs| && cs[i] == d;
        assert cs[i] == init[i];
      }
    }
  }

  /** A live entry for l is an entry l. */
  lemma HasLiveIn(s: seq<ListenerId>, collected: set<ListenerId>, l: ListenerId)
    requires HasLive(s, collected, l)
    ensures l in s
  {
  }

  /** After registerListener(l, cs...) every channel of cs has a set in which
      l is live exactly once, namely the old set after one AddIfAbsent step;
      channels outside cs are untouched; no entry is removed from any set;
      and every set stays duplicate-free. */
  lemma RegisterSpec(reg: Registry, collected: set<ListenerId>, l: ListenerId, cs: seq<Channel>)
    requires RegistryNoDup(reg) && l !in collected
    ensures var r := Register(reg, collected, l, cs);
      && RegistryNoDup(r)
      && (forall c :: c in cs ==> c in r && HasLive(r[c], collected, l) && Count(r[c], l) == 1)
      && (forall c :: c in cs ==> r[c] == AddIfAbsent(Lookup(reg, c), collected, l))
      && (forall c :: c !in cs ==> Lookup(r, c) == Lookup(reg, c))
      && (forall c :: c in reg ==> c in r && reg[c] <= r[c])
  {
    var r := Register(reg, collected, l, cs);
    RegisterKeepsNoDup(reg, collected, l, cs);
    RegisterLive(reg, collected, l, cs);
    RegisterFrame(reg, collected, l, cs);
    RegisterAt(reg, collected, l, cs);
    forall c | c in cs
      ensures Count(r[c], l) == 1
    {
      HasLiveIn(r[c], collected, l);
      CountNoDup(r[c], l);
    }
  }

  /** Registering l on channels where it is already live adds nothing. */
  lemma {:induction false} RegisterNothingNew(reg: Registry, collected: set<ListenerId>, l: ListenerId, cs: seq<Channel>)
    requires forall c :: c in cs ==> c in reg && HasLive(reg[c], collected, l)
    ensures Register(reg, collected, l, cs) == reg
  {
    if cs != [] {
      RegisterNothingNew(reg, collected, l, cs[..|cs| - 1]);
      var c := cs[|cs| - 1];
      assert reg[c := reg[c]] == reg;
    }
  }

  /** A second registerListener(l, cs...) of a live listener is a no-op. */
  lemma RegisterIdempotent(reg: Registry, collected: set<ListenerId>, l: ListenerId, cs: seq<Channel>)
    requires l !in collected
    ensures var r := Register(reg, collected, l, cs);
      Register(r, collected, l, cs) == r
  {
    RegisterLive(reg, collected, l, cs);
    RegisterNothingNew(Register(reg, collected, l, cs), collected, l, cs);
  }

  // ---------------------------------------------------------------------
  // Unregistration

  /** unregisterListener creates no set. */
  lemma {:induction false} UnregisterKeys(reg: Registry, collected: set<ListenerId>, l: ListenerId, cs: seq<Channel>)
    ensures Unregister(reg, collected, l, cs).Keys == reg.Keys
  {
    if cs != [] {
      UnregisterKeys(reg, collected, l, cs[..|cs| - 1]);
    }
  }

  /** unregisterListener(l, cs...) prunes, exactly once, each channel of cs that has a set. */
  lemma {:induction false} UnregisterPrunes(reg: Registry, collected: set<ListenerId>, l: ListenerId, cs: seq<Channel>)
    ensures var r := Unregister(reg, collected, l, cs);
      forall c :: c in reg ==> c in r && r[c] == if c in cs then Keep(reg[c], collected + {l}) else reg[c]
  {
    if cs != [] {
      var init := cs[..|cs| - 1];
      var c := cs[|cs| - 1];
      UnregisterPrunes(reg, collected, l, init);
      UnregisterKeys(reg, collected, l, init);
      if c in reg {
        KeepTwice(reg[c], collected + {l});
      }
    }
  }

  /** After unregisterListener(l, cs...): on every channel of cs that has a
      set, no reference to l and no dead reference remains, every live
      reference to another listener remains, in its original order, and the
      set stays duplicate-free. Channels outside cs, and channels without a
      set, are unchanged: no set is created. */
  lemma UnregisterSpec(reg: Registry, collected: set<ListenerId>, l: ListenerId, cs: seq<Channel>)
    requires RegistryNoDup(reg)
    ensures var r := Unregister(reg, collected, l, cs);
      && r.Keys == reg.Keys
      && RegistryNoDup(r)
      && (forall c :: c !in cs && c in reg ==> r[c] == reg[c])
      && (forall c, x :: c in cs && c in reg ==>
            (x in r[c] <==> x in reg[c] && x !in collected && x != l))
      && (forall c :: c in cs && c in reg ==> IsSubsequence(r[c], reg[c]))
  {
    UnregisterPrunes(reg, collected, l, cs);
    UnregisterKeys(reg, collected, l, cs);
    var r := Unregister(reg, collected, l, cs);
    forall c | c in reg
      ensures NoDup(r[c])
    {
      KeepNoDup(reg[c], collected + {l});
    }
    forall c | c in cs && c in reg
      ensures (forall x :: x in r[c] <==> x in reg[c] && x !in collected && x != l)
      ensures IsSubsequence(r[c], reg[c])
    {
      KeepMembers(reg[c], collected + {l});
      KeepIsSubsequence(reg[c], collected + {l});
    }
  }

  /** Removing x finds its first occurrence: the one after a, when x is not in a. */
  lemma {:induction false} RemoveFirst(a: seq<ListenerId>, x: ListenerId, b: seq<ListenerId>)
    requires x !in a
    ensures Remove(a + ([x] + b), x) == a + b
  {
    if a == [] {
      assert a + ([x] + b) == [x] + b;
    } else {
      var t := a + ([x] + b);
      assert t[0] == a[0] && t[1..] == a[1..] + ([x] + b);
      RemoveFirst(a[1..], x, b);
      assert a + b == [a[0]] + (a[1..] + b);
    }
  }

  /** The set after unregisterListener's scan has visited the first j entries
      of a snapshot s of it: each visited entry to be dropped is removed. */
  function Pruned(s: seq<ListenerId>, drop: set<ListenerId>, j: nat): seq<ListenerId>
    requires j <= |s|
  {
    if j == 0 then s
    else if s[j - 1] in drop then Remove(Pruned(s, drop, j - 1), s[j - 1])
    else Pruned(s, drop, j - 1)
  }

  /** Keep over a prefix one entry longer. */
  lemma KeepSnoc(s: seq<ListenerId>, drop: set<ListenerId>, j: nat)
    requires j < |s|
    ensures s[j] in drop ==> Keep(s[..j + 1], drop) == Keep(s[..j], drop)
    ensures s[j] !in drop ==> Keep(s[..j + 1], drop) == Keep(s[..j], drop) + [s[j]]
  {
    assert s[..j + 1][..j] == s[..j];
  }

  lemma TailAt<T>(s: seq<T>, j: nat)
    requires j < |s|
    ensures s[j..] == [s[j]] + s[j + 1..]
  {
  }

  lemma PruneKeep(s: seq<ListenerId>, drop: set<ListenerId>, j: nat)
    requires j < |s| && s[j] !in drop
    ensures Keep(s[..j + 1], drop) + s[j + 1..] == Keep(s[..j], drop) + s[j..]
  {
    KeepSnoc(s, drop, j);
    TailAt(s, j);
  }

  lemma PruneDrop(s: seq<ListenerId>, drop: set<ListenerId>, j: nat)
    requires NoDup(s) && j < |s| && s[j] in drop
    ensures Keep(s[..j + 1], drop) + s[j + 1..] == Remove(Keep(s[..j], drop) + s[j..], s[j])
  {
    TailAt(s, j);
    KeepSnoc(s, drop, j);
    NoDupAt(s, j);
    KeepFrom(s[..j], drop, s[j]);
    RemoveFirst(Keep(s[..j], drop), s[j], s[j + 1..]);
  }

  /** Midway through the scan, the visited part of the snapshot is pruned and
      the rest is untouched: removing a visited entry from the live set never
      disturbs an entry not yet visited. */
  lemma {:induction false} PrunedClosedForm(s: seq<ListenerId>, drop: set<ListenerId>, j: nat)
    requires NoDup(s) && j <= |s|
    ensures Pruned(s, drop, j) == Keep(s[..j], drop) + s[j..]
  {
    if j == 0 {
      assert s[..0] == [] && s[0..] == s;
    } else {
      PrunedClosedForm(s, drop, j - 1);
      if s[j - 1] in drop {
        PruneDrop(s, drop, j - 1);
      } else {
        PruneKeep(s, drop, j - 1);
      }
    }
  }

  /** After the whole scan, the live set is the snapshot without the dropped entries. */
  lemma PruneComplete(s: seq<ListenerId>, drop: set<ListenerId>)
    requires NoDup(s)
    ensures Pruned(s, drop, |s|) == Keep(s, drop)
  {
    PrunedClosedForm(s, drop, |s|);
    assert s[..|s|] == s;
    assert Keep(s, drop) + s[|s|..] == Keep(s, drop);
  }

  lemma UpdateSame(reg: Registry, c: Channel)
    requires c in reg
    ensures reg[c := reg[c]] == reg
  {
  }

  lemma UpdateTwice(reg: Registry, c: Channel, a: seq<ListenerId>, b: seq<ListenerId>)
    ensures reg[c := a][c := b] == reg[c := b]
  {
  }

  /** A set updated with a duplicate-free sequence keeps the registry duplicate-free. */
  lemma RegistryNoDupUpdate(reg: Registry, c: Channel, s: seq<ListenerId>)
    requires RegistryNoDup(reg) && NoDup(s)
    ensures RegistryNoDup(reg[c := s])
  {
  }

  // ---------------------------------------------------------------------
  // Delivery

  /** A delivery pass over a prefix one entry longer. */
  lemma DeliveriesSnoc(s: seq<ListenerId>, collected: set<ListenerId>, m: Message, i: nat)
    requires i < |s|
    ensures s[i] in collected ==> Deliveries(s[..i + 1], collected, m) == Deliveries(s[..i], collected, m)
    ensures s[i] !in collected ==>
      Deliveries(s[..i + 1], collected, m) == Deliveries(s[..i], collected, m) + [Delivery(s[i], m)]
  {
    assert s[..i + 1][..i] == s[..i];
  }

  /** A delivery pass calls, in set order, exactly the live entries of s. */
  lemma {:induction false} DeliveriesInOrder(s: seq<ListenerId>, collected: set<ListenerId>, m: Message)
    ensures var r := Deliveries(s, collected, m);
      && |r| == |Keep(s, collected)|
      && forall k :: 0 <= k < |r| ==> r[k] == Delivery(Keep(s, collected)[k], m)
  {
    if s != [] {
      DeliveriesInOrder(s[..|s| - 1], collected, m);
    }
  }

  lemma {:induction false} DeliveriesCount(s: seq<ListenerId>, collected: set<ListenerId>, m: Message, x: ListenerId)
    ensures Count(Deliveries(s, collected, m), Delivery(x, m)) == Count(Keep(s, collected), x)
  {
    if s != [] {
      var p := s[..|s| - 1];
      DeliveriesCount(p, collected, m, x);
      var y := s[|s| - 1];
      var dp := Deliveries(p, collected, m);
      var kp := Keep(p, collected);
      if y !in collected {
        assert Deliveries(s, collected, m) == dp + [Delivery(y, m)];
        assert Keep(s, collected) == kp + [y];
        assert Count(dp + [Delivery(y, m)], Delivery(x, m)) == Count(dp, Delivery(x, m)) + (if y == x then 1 else 0);
        assert Count(kp + [y], x) == Count(kp, x) + (if y == x then 1 else 0);
      } else {
        assert Deliveries(s, collected, m) == dp;
        assert Keep(s, collected) == kp;
      }
    }
  }

  /** Delivering m over a duplicate-free set calls each live listener of the
      set exactly once and no other listener (in particular none that is
      registered only on other channels), and every call carries m. */
  lemma DeliveredExactlyOnce(s: seq<ListenerId>, collected: set<ListenerId>, m: Message)
    requires NoDup(s)
    ensures var r := Deliveries(s, collected, m);
      && (forall x :: Count(r, Delivery(x, m)) == if x in s && x !in collected then 1 else 0)
      && (forall d :: d in r ==> d.message == m && d.listener in s && d.listener !in collected)
  {
    var r := Deliveries(s, collected, m);
    var k := Keep(s, collected);
    KeepNoDup(s, collected);
    KeepMembers(s, collected);
    DeliveriesInOrder(s, collected, m);
    forall x
      ensures Count(r, Delivery(x, m)) == if x in s && x !in collected then 1 else 0
    {
      DeliveriesCount(s, collected, m, x);
      CountNoDup(k, x);
    }
    forall d | d in r
      ensures d.message == m && d.listener in s && d.listener !in collected
    {
      var i :| 0 <= i < |r| && r[i] == d;
      assert k[i] in k;
    }
  }
}
