/** What each kernel event comes to in the hardware, in terms of the events themselves. */
module NetlinkForwarding {
  import opened Bits
  import opened Wrappers
  import opened BitFields
  import opened IdMaps
  import opened Macs
  import opened Transport
  import opened NeighCache
  import opened Netlink
  import Chain = ForwardingChain
  import L2
  import L2Lookup
  import L3

  // ----- Interfaces and ports -----

  // The port of each interface, by the link events: a name swp1..swp56 on an index below 512 sets
  // it, and a removed link takes it away.
  function Ports(events: seq<Event>): map<int, nat> {
    if events == [] then map[]
    else
      var (known, e) := (Ports(events[..|events| - 1]), events[|events| - 1]);
      match e
      case NewLink(i, Some(p)) => if 0 <= i < 512 && 1 <= p <= 56 then known[i := p] else known
      case DelLink(i) => known - {i}
      case _ => known
  }

  lemma {:induction false} ReachablePorts(events: seq<Event>, f: Faults, i: int)
    ensures PortOf(After(events, f), i) == if i in Ports(events) then Ports(events)[i] else -1
  {
    hide OnAddr, OnNeigh, OnRoute;
    if events != [] {
      var (before, e) := (events[..|events| - 1], events[|events| - 1]);
      ReachablePorts(before, f, i);
      if !e.NewLink? && !e.DelLink? {
        PortsKept(After(before, f), f, e);
      }
    }
  }

  lemma PortsKept(s: State, f: Faults, e: Event)
    requires s.Shaped() && !e.NewLink? && !e.DelLink?
    ensures Handle(s, f, e).ifPort == s.ifPort
  {
    hide L3.IntfCreateResult, L3.IntfDestroyResult, L3.EgressCreateResult, L3.RouteAddResult, L3.RouteDeleteResult;
    hide L2.Add, DelNeighHw, WithEntry, WithoutEntry, LookUp;
  }

  // ----- Interfaces of ports -----

  // Each port's interface has the entry that its address event gave it.
  ghost predicate IntfEntries(s: State)
    requires s.Shaped()
  {
    forall p | 0 <= p < MAX_PORTS && s.portIntf[p] != 0 ::
      Entry(s.l3.hw, EgrL3Intf, s.portIntf[p]) == L3.IntfWords(PortMac(p), 0)
  }

  lemma IntfTableKept(s: State, f: Faults, e: Event)
    requires s.Shaped() && !e.NewAddr? && !e.DelAddr?
    ensures Handle(s, f, e).portIntf == s.portIntf && Handle(s, f, e).l3.intfUsed == s.l3.intfUsed
    ensures forall i: nat :: Entry(Handle(s, f, e).l3.hw, EgrL3Intf, i) == Entry(s.l3.hw, EgrL3Intf, i)
  {
    hide Entry, Write, L2.WriteProbing, L2.Pack, L2.Home, LookUp, WithEntry, WithoutEntry, L3.Find, L3.Slot;
    hide L3.IngWords, L3.EgrWords, L3.DefipWords;
    if e.NewNeigh? || e.DelNeigh? {
      forall i: nat ensures Entry(Handle(s, f, e).l3.hw, EgrL3Intf, i) == Entry(s.l3.hw, EgrL3Intf, i) {
        NeighKeepsTable(s, f, e, EgrL3Intf, i);
      }
    }
  }

  lemma AddrKeepsEntries(s: State, f: Faults, e: Event)
    requires s.Shaped() && (e.NewAddr? || e.DelAddr?) && PortIntfsLive(s) && IntfEntries(s)
    ensures IntfEntries(OnAddr(s, f, e))
  {
    hide Entry, Write, L3.IntfWords;
  }

  lemma {:induction false} ReachableEntries(events: seq<Event>, f: Faults)
    ensures IntfEntries(After(events, f))
  {
    hide OnAddr, OnLink, OnNeigh, OnRoute, PortIntfsLive, RoutesOk, Entry, L3.IntfWords;
    if events != [] {
      var (before, e) := (events[..|events| - 1], events[|events| - 1]);
      ReachableEntries(before, f);
      ReachableInv(before, f);
      if e.NewAddr? || e.DelAddr? {
        AddrKeepsEntries(After(before, f), f, e);
      } else {
        IntfTableKept(After(before, f), f, e);
      }
    }
  }

  // ----- Routes -----

  // A next hop and a slot for the key are left.
  predicate Room(l3: L3.State, prefix: Word, plen: nat)
    requires l3.Shaped()
  {
    && (exists n :: 1 <= n < L3.MAX_NHOP && !l3.nhopUsed[n])
    && (exists i: nat :: i < L3.MAX_DEFIP && (!l3.defipUsed[i] || l3.HasKey(i, prefix, plen)))
  }

  lemma EgressLands(l3: L3.State, f: Faults, port: int, intf: int, mac: Mac)
    requires l3.Shaped() && 0 < port <= 255 && 0 < intf < L3.MAX_INTF
    requires exists n :: 1 <= n < L3.MAX_NHOP && !l3.nhopUsed[n]
    requires !f(l3.hw.clock) && !f(l3.hw.clock + 1)
    ensures var r := L3.EgressCreateResult(l3, f, port, intf, mac);
      && r.rc == 0 && 0 < r.id < L3.MAX_NHOP && r.s.hw.clock == l3.hw.clock + 2
      && r.s.defipUsed == l3.defipUsed && r.s.defipPrefix == l3.defipPrefix && r.s.defipPlen == l3.defipPlen
  {
    hide Entry, L3.IngWords, L3.EgrWords;
  }

  lemma RouteLands(l3: L3.State, f: Faults, r: L3.Route)
    requires l3.Shaped() && !r.isIpv6 && 0 <= r.plen <= 32 && 0 < r.egress < L3.MAX_NHOP
    requires exists i: nat :: i < L3.MAX_DEFIP && (!l3.defipUsed[i] || l3.HasKey(i, r.prefix, r.plen))
    requires !f(l3.hw.clock)
    ensures L3.RouteAddResult(l3, f, r).rc == 0
  {
    hide Entry, L3.DefipWords;
  }

  // 02:00:00:00:00:port
  lemma PortMacNumber(port: Byte)
    ensures Mac48(PortMac(port)) == 0x0200_0000_0000 + port
  {
    var m := PortMac(port);
    assert m[..5] == [2, 0, 0, 0, 0] && m[..5][..4] == [2, 0, 0, 0] && m[..5][..4][..3] == [2, 0, 0];
    assert m[..5][..4][..3][..2] == [2, 0] && m[..5][..4][..3][..2][..1] == [2];
    assert Number([2]) == 2 && Number([2, 0]) == 0x200 && Number([2, 0, 0]) == 0x2_0000;
    assert Number([2, 0, 0, 0]) == 0x200_0000 && Number([2, 0, 0, 0, 0]) == 0x2_0000_0000;
  }

  // A route learned through an interface whose port has an address: when its writes land and there
  // is room, a packet that hits it leaves through that port, on VLAN 0, for the address that the
  // neighbour events gave the gateway on that interface, or all zeros if they gave none.
  lemma LearnedRouteForwards(events: seq<Event>, f: Faults, dst: Word, dstLen: nat, gateway: Word, oif: int, port: nat)
    requires dstLen <= 32 && 0 < port < 56 && oif in Ports(events) && Ports(events)[oif] == port
    requires var s := After(events, f);
      && s.portIntf[port] != 0 && Room(s.l3, dst, dstLen)
      && !f(s.l3.hw.clock) && !f(s.l3.hw.clock + 1) && !f(s.l3.hw.clock + 2)
    ensures var s := After(events + [NewRoute(true, dst, dstLen, gateway, oif)], f);
      var known := Learned(events, f);
      var slot := L3.Find(s.l3, dst, dstLen, 0);
      && slot != -1 && Chain.Followable(s.l3.hw, slot)
      && Chain.Follow(s.l3.hw, slot)
         == Chain.Rewrite(port, if (gateway, oif) in known then Mac48(known[(gateway, oif)]) else 0,
                          0x0200_0000_0000 + port, 0)
  {
    hide After, Learned, Entry, Mac48, Chain.Follow, Chain.Followable, RoutesOk, IntfEntries;
    hide L3.Find, L3.IntfWords, L3.EgressCreateResult, L3.RouteAddResult, Represents, LookUp;
    var (s, e) := (After(events, f), NewRoute(true, dst, dstLen, gateway, oif));
    ReachablePorts(events, f, oif);
    ReachableInv(events, f);
    ReachableEntries(events, f);
    ReachableCache(events, f);
    CacheAnswers(s.neigh, Learned(events, f), gateway, oif);
    AfterOne(events, f, e);
    RouteForwards(s, f, e, port);
    PortMacNumber(port);
    ZeroMacNumber();
  }

  lemma ZeroMacNumber()
    ensures Mac48(ZERO_MAC) == 0
  {
    var m := ZERO_MAC;
    assert m[..5] == [0, 0, 0, 0, 0] && m[..5][..4] == [0, 0, 0, 0] && m[..5][..4][..3] == [0, 0, 0];
    assert m[..5][..4][..3][..2] == [0, 0] && m[..5][..4][..3][..2][..1] == [0];
    assert Number([0]) == 0 && Number([0, 0]) == 0 && Number([0, 0, 0]) == 0;
    assert Number([0, 0, 0, 0]) == 0 && Number([0, 0, 0, 0, 0]) == 0;
  }

  lemma AfterOne(events: seq<Event>, f: Faults, e: Event)
    ensures After(events + [e], f) == Handle(After(events, f), f, e)
  {
    hide Handle;
    assert (events + [e])[..|events|] == events;
  }

  lemma CacheAnswers(c: seq<Neigh>, m: NeighMap, ip: Word, ifindex: int)
    requires Represents(c, m)
    ensures LookUp(c, ip, ifindex) == Listed(m, ip, ifindex)
  {
    hide LookUp, Listed, DistinctKeys;
  }

  lemma RouteForwards(s: State, f: Faults, e: Event, port: nat)
    requires s.Shaped() && Inv(s) && IntfEntries(s)
    requires e.NewRoute? && e.isInetUnicast && e.dstLen <= 32 && PortOf(s, e.oif) == port && 0 < port < 56
    requires s.portIntf[port] != 0 && Room(s.l3, e.dst, e.dstLen)
    requires !f(s.l3.hw.clock) && !f(s.l3.hw.clock + 1) && !f(s.l3.hw.clock + 2)
    ensures var l3 := OnRoute(s, f, e).l3;
      var known := LookUp(s.neigh, e.gateway, e.oif);
      var slot := L3.Find(l3, e.dst, e.dstLen, 0);
      && slot != -1 && Chain.Followable(l3.hw, slot)
      && Chain.Follow(l3.hw, slot)
         == Chain.Rewrite(port, Mac48(if known.Found? then known.mac else ZERO_MAC), Mac48(PortMac(port)), 0)
  {
    hide Entry, Mac48, Chain.Follow, Chain.Followable, RoutesOk, LookUp, PortMac;
    hide L3.Find, L3.IntfWords, L3.EgressCreateResult, L3.RouteAddResult, Chain.RouteHeld, Chain.NhopHeld;
    var known := LookUp(s.neigh, e.gateway, e.oif);
    var mac := if known.Found? then known.mac else ZERO_MAC;
    var r := L3.EgressCreateResult(s.l3, f, port, s.portIntf[port], mac);
    EgressLands(s.l3, f, port, s.portIntf[port], mac);
    RoomStays(s.l3, r.s, e.dst, e.dstLen);
    var c := Chain.Chain(s.portIntf[port], PortMac(port), 0, r.id, port, mac, e.dst, e.dstLen);
    var route := L3.Route(e.dst, e.dstLen, r.id, false);
    RouteLands(r.s, f, route);
    Chain.EgressCreated(s.l3, f, c);
    Chain.IntfKept(s.l3, f, Chain.EgressCreate(port, s.portIntf[port], mac), c);
    Chain.RouteAdded(r.s, f, c);
    Chain.AddKeepsObjects(r.s, f, route, c);
    hide Chain.IntfHeld;
    var l3 := L3.RouteAddResult(r.s, f, route).s;
    Chain.HeldFollows(l3, c);
    Chain.FoundWhenHeld(l3, c);
  }

  lemma RoomStays(l3: L3.State, l3': L3.State, prefix: Word, plen: nat)
    requires l3.Shaped() && l3'.Shaped() && Room(l3, prefix, plen)
    requires l3'.defipUsed == l3.defipUsed && l3'.defipPrefix == l3.defipPrefix && l3'.defipPlen == l3.defipPlen
    ensures exists i: nat :: i < L3.MAX_DEFIP && (!l3'.defipUsed[i] || l3'.HasKey(i, prefix, plen))
  {
    var i: nat :| i < L3.MAX_DEFIP && (!l3.defipUsed[i] || l3.HasKey(i, prefix, plen));
    assert !l3'.defipUsed[i] || l3'.HasKey(i, prefix, plen);
  }

  // A route event that is not about unicast, or comes through an interface without a port, or
  // whose port has no address, changes nothing.
  lemma RouteNotLearned(events: seq<Event>, f: Faults, e: Event)
    requires e.NewRoute?
    requires !e.isInetUnicast || e.oif !in Ports(events)
          || Ports(events)[e.oif] >= 56 || After(events, f).portIntf[Ports(events)[e.oif]] == 0
    ensures After(events + [e], f) == After(events, f)
  {
    hide After, LookUp;
    ReachablePorts(events, f, e.oif);
    AfterOne(events, f, e);
  }

  // Forgetting a route whose write lands clears the entry of the slot that held it.
  lemma RouteForgotten(events: seq<Event>, f: Faults, dst: Word, dstLen: nat)
    requires dstLen <= 32 && !f(After(events, f).l3.hw.clock)
    ensures var (l3, l3') := (After(events, f).l3, After(events + [DelRoute(true, dst, dstLen)], f).l3);
      var slot := L3.Find(l3, dst, dstLen, 0);
      && (slot == -1 ==> l3' == l3)
      && (slot != -1 ==> !l3'.defipUsed[slot] && l3'.defipPrefix[slot] == 0 && l3'.defipPlen[slot] == 0)
      && (slot != -1 ==> Entry(l3'.hw, L3Defip, slot) == Zeros(8))
  {
    hide After, L3.Find, Entry;
    AfterOne(events, f, DelRoute(true, dst, dstLen));
  }

  // ----- Addresses -----

  // An address on an interface with a port below 56 gives the port an interface of its own with
  // the least id that is not in use, when its write lands and there is one.
  lemma AddressGivesIntf(events: seq<Event>, f: Faults, ifindex: int, port: nat)
    requires ifindex in Ports(events) && Ports(events)[ifindex] == port && 0 < port < 56
    requires !f(After(events, f).l3.hw.clock)
    requires exists i :: 1 <= i < 4096 && !After(events, f).l3.intfUsed[i]
    ensures var (s, s') := (After(events, f), After(events + [NewAddr(ifindex, true)], f));
      var id := s'.portIntf[port];
      && 1 <= id < 4096 && !s.l3.intfUsed[id] && s'.l3.intfUsed[id]
      && (forall i | 1 <= i < id :: s.l3.intfUsed[i])
      && |Entry(s'.l3.hw, EgrL3Intf, id)| == 4
      && Field(Entry(s'.l3.hw, EgrL3Intf, id), 33, 48) == 0x0200_0000_0000 + port
      && Field(Entry(s'.l3.hw, EgrL3Intf, id), 13, 12) == 0
      && forall p | 0 <= p < MAX_PORTS && p != port :: s'.portIntf[p] == s.portIntf[p]
  {
    hide After, Entry, L3.IntfWords, Field;
    ReachablePorts(events, f, ifindex);
    AfterOne(events, f, NewAddr(ifindex, true));
    L3.IntfDecodes(PortMac(port), 0);
    PortMacNumber(port);
  }

  // Removing it gives the interface back, and clears its entry when the write lands.
  lemma AddressTakesIntf(events: seq<Event>, f: Faults, ifindex: int, port: nat)
    requires ifindex in Ports(events) && Ports(events)[ifindex] == port && 0 < port < 56
    requires After(events, f).portIntf[port] != 0
    ensures var (s, s') := (After(events, f), After(events + [DelAddr(ifindex, true)], f));
      var id := s.portIntf[port];
      && id < 4096 && !s'.l3.intfUsed[id] && s'.portIntf == s.portIntf[port := 0]
      && (!f(s.l3.hw.clock) ==> Entry(s'.l3.hw, EgrL3Intf, id) == Zeros(4))
  {
    hide After, Entry;
    ReachablePorts(events, f, ifindex);
    ReachablePortIntfsLive(events, f, port, if port == 1 then 2 else 1);
    AfterOne(events, f, DelAddr(ifindex, true));
  }

  // ----- Neighbours -----

  // A neighbour on an interface with a port is found by the next lookup of its address, on that
  // port (7 bits) and VLAN, when the first write of its entry lands.
  lemma NeighbourIsSwitched(
    events: seq<Event>, f: Faults, g: ReadOutcomes, ifindex: int, mac: Mac, dst: Word, vid: nat, port: nat)
    requires ifindex in Ports(events) && Ports(events)[ifindex] == port
    requires !f(After(events, f).l3.hw.clock) && AllTruthful(g)
    ensures L2.Get(After(events + [NewNeigh(ifindex, true, Some(mac), dst, vid)], f).l3.hw, g, mac, vid).1
         == Some(L2.Addr(mac, vid % 0x1000, port, true))
  {
    hide After, L2.Get, L2.Add, WithEntry, L2.Home, L2.WriteProbing;
    ReachablePorts(events, f, ifindex);
    PortsSane(events);
    AfterOne(events, f, NewNeigh(ifindex, true, Some(mac), dst, vid));
    var (hw, a) := (After(events, f).l3.hw, L2.Addr(mac, vid, port, true));
    AddLandsAtHome(hw, f, a);
    L2Lookup.AddThenGet(hw, f, g, a);
  }

  lemma {:induction false} PortsSane(events: seq<Event>)
    ensures forall i | i in Ports(events) :: 1 <= Ports(events)[i] <= 56
  {
    if events != [] {
      PortsSane(events[..|events| - 1]);
    }
  }

  lemma AddLandsAtHome(hw: Hw, f: Faults, a: L2.Addr)
    requires !f(hw.clock)
    ensures L2.Add(hw, f, a).1 == 0
    ensures L2Lookup.Landing(f, hw.clock, 0) == 0
    ensures L2Lookup.FirstMatch(hw, L2.Home(a.mac, a.vid), a.mac, a.vid, 0, 0) == None
  {
    hide L2.Home, L2.Pack;
  }

  // When a neighbour goes, the home slot of its address is cleared if the write lands: of the
  // address that the event names, or else of the one that earlier events gave it.
  lemma NeighbourIsForgotten(events: seq<Event>, f: Faults, ifindex: int, lladdr: Option<Mac>, dst: Word, vid: nat)
    requires ifindex in Ports(events) && !f(After(events, f).l3.hw.clock)
    ensures var (s, s') := (After(events, f), After(events + [DelNeigh(ifindex, true, lladdr, dst, vid)], f));
      var known := Learned(events, f);
      && (lladdr.Some? ==> Entry(s'.l3.hw, L2Entry, L2.Home(lladdr.value, vid)) == Zeros(4))
      && (lladdr.None? && dst != 0 && (dst, ifindex) in known ==>
            Entry(s'.l3.hw, L2Entry, L2.Home(known[(dst, ifindex)], vid)) == Zeros(4))
      && (lladdr.None? && (dst == 0 || (dst, ifindex) !in known) ==> s'.l3 == s.l3)
  {
    hide After, Learned, Entry, LookUp, WithoutEntry, L2.Home, L2.WriteProbing, Represents;
    ReachablePorts(events, f, ifindex);
    PortsSane(events);
    ReachableCache(events, f);
    CacheAnswers(After(events, f).neigh, Learned(events, f), dst, ifindex);
    AfterOne(events, f, DelNeigh(ifindex, true, lladdr, dst, vid));
    var hw := After(events, f).l3.hw;
    forall mac: Mac ensures Entry(L2.Delete(hw, f, mac, vid), L2Entry, L2.Home(mac, vid)) == Zeros(4) {
      DeleteClearsHome(hw, f, mac, vid);
    }
  }

  lemma DeleteClearsHome(hw: Hw, f: Faults, mac: Mac, vid: nat)
    requires !f(hw.clock)
    ensures Entry(L2.Delete(hw, f, mac, vid), L2Entry, L2.Home(mac, vid)) == Zeros(4)
  {
    hide Entry, L2.Home;
  }
}
