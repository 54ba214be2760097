/** The netlink listener: link, address, neighbour and route events driving the L2 and L3 tables. */
module Netlink {
  import opened Bits
  import opened Wrappers
  import opened BitFields
  import opened IdMaps
  import opened Macs
  import opened Transport
  import L2
  import L3
  import L3Tables
  import opened NeighCache

  const MAX_IFINDEX: nat := 512
  const MAX_PORTS: nat := 56

  // A parsed netlink message: the attributes the handlers look at, absent ones as None.
  datatype Event =
    | NewLink(ifindex: int, swp: Option<nat>)
    | DelLink(ifindex: int)
    | NewAddr(ifindex: int, hasAddress: bool)
    | DelAddr(ifindex: int, hasAddress: bool)
    | NewNeigh(ifindex: int, isInet: bool, lladdr: Option<Mac>, dst: Word, vid: nat)
    | DelNeigh(ifindex: int, isInet: bool, lladdr: Option<Mac>, dst: Word, vid: nat)
    | NewRoute(isInetUnicast: bool, dst: Word, dstLen: nat, gateway: Word, oif: int)
    | DelRoute(isInetUnicast: bool, dst: Word, dstLen: nat)

  datatype State = State(ifPort: seq<int>, portIntf: seq<nat>, neigh: seq<Neigh>, l3: L3.State) {
    predicate Shaped() {
      && |ifPort| == MAX_IFINDEX && |portIntf| == MAX_PORTS && l3.Shaped()
      && forall i | 0 <= i < MAX_IFINDEX :: ifPort[i] <= MAX_PORTS
    }
  }

  predicate IsSwp(port: nat) {
    1 <= port <= 56
  }

  // The port behind an interface index; anything not positive when there is none.
  function PortOf(s: State, ifindex: int): int
    requires s.Shaped()
  {
    if 0 <= ifindex < MAX_IFINDEX then s.ifPort[ifindex] else -1
  }

  const ZERO_MAC: Mac := [0, 0, 0, 0, 0, 0]

  function PortMac(port: Byte): Mac {
    [2, 0, 0, 0, 0, port]
  }

  function OnLink(s: State, e: Event): (s': State)
    requires s.Shaped() && (e.NewLink? || e.DelLink?)
    ensures s'.Shaped()
  {
    if !(0 <= e.ifindex < MAX_IFINDEX) then s
    else if e.DelLink? then s.(ifPort := s.ifPort[e.ifindex := -1])
    else if e.swp.Some? && IsSwp(e.swp.value) then s.(ifPort := s.ifPort[e.ifindex := e.swp.value])
    else s
  }

  function OnAddr(s: State, f: Faults, e: Event): (s': State)
    requires s.Shaped() && (e.NewAddr? || e.DelAddr?)
    ensures s'.Shaped()
  {
    var port := PortOf(s, e.ifindex);
    if !e.hasAddress || port <= 0 || port >= MAX_PORTS then s
    else if e.NewAddr? then
      var r := L3.IntfCreateResult(s.l3, f, PortMac(port), 0);
      s.(l3 := r.s, portIntf := if r.rc == 0 then s.portIntf[port := r.id] else s.portIntf)
    else if s.portIntf[port] != 0 then
      s.(l3 := L3.IntfDestroyResult(s.l3, f, s.portIntf[port]).s, portIntf := s.portIntf[port := 0])
    else s
  }

  function OnNeigh(s: State, f: Faults, e: Event): (s': State)
    requires s.Shaped() && (e.NewNeigh? || e.DelNeigh?)
    ensures s'.Shaped()
  {
    var port := PortOf(s, e.ifindex);
    if !e.isInet || port <= 0 then s
    else if e.NewNeigh? then
      if e.lladdr.None? then s
      else
        var hw := L2.Add(s.l3.hw, f, L2.Addr(e.lladdr.value, e.vid, port, true)).0;
        s.(l3 := s.l3.(hw := hw), neigh := WithEntry(s.neigh, e.dst, e.ifindex, e.lladdr.value))
    else
      s.(l3 := s.l3.(hw := DelNeighHw(s, f, e)), neigh := WithoutEntry(s.neigh, e.dst, e.ifindex))
  }

  function DelNeighHw(s: State, f: Faults, e: Event): Hw
    requires s.Shaped() && e.DelNeigh?
  {
    var known := LookUp(s.neigh, e.dst, e.ifindex);
    if e.lladdr.Some? then L2.Delete(s.l3.hw, f, e.lladdr.value, e.vid)
    else if e.dst != 0 && known.Found? then L2.Delete(s.l3.hw, f, known.mac, e.vid)
    else s.l3.hw
  }

  function OnRoute(s: State, f: Faults, e: Event): (s': State)
    requires s.Shaped() && (e.NewRoute? || e.DelRoute?)
    ensures s'.Shaped()
  {
    if !e.isInetUnicast then s
    else if e.DelRoute? then
      s.(l3 := L3.RouteDeleteResult(s.l3, f, L3.Route(e.dst, e.dstLen, 0, false)).s)
    else
      var port := PortOf(s, e.oif);
      if port <= 0 then s
      else
        var known := LookUp(s.neigh, e.gateway, e.oif);
        var r := L3.EgressCreateResult(s.l3, f, port, if port < MAX_PORTS then s.portIntf[port] else 0,
                                       if known.Found? then known.mac else ZERO_MAC);
        if r.rc != 0 then s.(l3 := r.s)
        else s.(l3 := L3.RouteAddResult(r.s, f, L3.Route(e.dst, e.dstLen, r.id, false)).s)
  }

  function Handle(s: State, f: Faults, e: Event): (s': State)
    requires s.Shaped()
    ensures s'.Shaped()
  {
    match e
    case NewLink(_, _) => OnLink(s, e)
    case DelLink(_) => OnLink(s, e)
    case NewAddr(_, _) => OnAddr(s, f, e)
    case DelAddr(_, _) => OnAddr(s, f, e)
    case NewNeigh(_, _, _, _, _) => OnNeigh(s, f, e)
    case DelNeigh(_, _, _, _, _) => OnNeigh(s, f, e)
    case NewRoute(_, _, _, _, _) => OnRoute(s, f, e)
    case DelRoute(_, _, _) => OnRoute(s, f, e)
  }

  function NoPorts(n: nat): (r: seq<int>)
    ensures |r| == n && forall i | 0 <= i < n :: r[i] == -1
  {
    seq(n, _ => -1)
  }

  function Initial(): (s: State)
    ensures s.Shaped()
  {
    State(NoPorts(MAX_IFINDEX), Zeros(MAX_PORTS), [], L3.Initial)
  }

  ghost function After(events: seq<Event>, f: Faults): (s: State)
    ensures s.Shaped()
  {
    if events == [] then Initial() else Handle(After(events[..|events| - 1], f), f, events[|events| - 1])
  }

  // ----- What every event keeps -----

  // Port interfaces are live and no two ports share one.
  ghost predicate PortIntfsLive(s: State)
    requires s.Shaped()
  {
    && (forall p | 0 <= p < MAX_PORTS && s.portIntf[p] != 0 ::
          s.portIntf[p] < L3.MAX_INTF && s.l3.intfUsed[s.portIntf[p]])
    && (forall p, q | 0 <= p < q < MAX_PORTS && s.portIntf[p] != 0 :: s.portIntf[p] != s.portIntf[q])
  }

  // An allocated next hop has an egress entry on a non-zero interface.
  predicate NhopOk(l3: L3.State, n: nat)
    requires l3.Shaped() && n < L3.MAX_NHOP
  {
    l3.nhopUsed[n] ==> |Entry(l3.hw, EgrL3NextHop, n)| == 4 && Field(Entry(l3.hw, EgrL3NextHop, n), 3, 12) != 0
  }

  // A valid route entry, in a used slot or a stale one, names an allocated next hop.
  predicate RouteOk(l3: L3.State, i: nat)
    requires l3.Shaped()
  {
    var e := Entry(l3.hw, L3Defip, i);
    |e| == 8 && (Bit(e, 0) ==> L3.NextHopIndex(e) < L3.MAX_NHOP && l3.nhopUsed[L3.NextHopIndex(e)])
  }

  ghost predicate RoutesOk(l3: L3.State)
    requires l3.Shaped()
  {
    (forall n: nat | n < L3.MAX_NHOP :: NhopOk(l3, n)) && (forall i: nat | i < L3.MAX_DEFIP :: RouteOk(l3, i))
  }

  ghost predicate Inv(s: State)
    requires s.Shaped()
  {
    PortIntfsLive(s) && RoutesOk(s.l3)
  }

  // Operations that touch neither next hops nor routes.
  lemma RoutesFrame(l3: L3.State, l3': L3.State)
    requires l3.Shaped() && l3'.Shaped() && RoutesOk(l3) && l3'.nhopUsed == l3.nhopUsed
    requires forall i: nat :: Entry(l3'.hw, EgrL3NextHop, i) == Entry(l3.hw, EgrL3NextHop, i)
    requires forall i: nat :: Entry(l3'.hw, L3Defip, i) == Entry(l3.hw, L3Defip, i)
    ensures RoutesOk(l3')
  {
    hide Entry, Field, Bit, L3.NextHopIndex;
    forall n: nat | n < L3.MAX_NHOP ensures NhopOk(l3', n) {
      assert NhopOk(l3, n);
    }
    forall i: nat | i < L3.MAX_DEFIP ensures RouteOk(l3', i) {
      assert RouteOk(l3, i);
    }
  }

  lemma AddrKeepsInv(s: State, f: Faults, e: Event)
    requires s.Shaped() && (e.NewAddr? || e.DelAddr?) && Inv(s)
    ensures Inv(OnAddr(s, f, e))
  {
    hide Entry, Write, L3.IntfWords, RoutesOk;
    RoutesFrame(s.l3, OnAddr(s, f, e).l3);
  }

  lemma {:induction false} L2FrameFrom(hw: Hw, f: Faults, home: nat, ws: seq<Word>, probe: nat, t: Table, i: nat)
    requires probe <= L2.PROBES && t != L2Entry
    ensures Entry(L2.WriteProbing(hw, f, home, ws, probe).0, t, i) == Entry(hw, t, i)
    decreases L2.PROBES - probe
  {
    hide Entry, Write;
    if probe < L2.PROBES {
      var (hw', ok) := Write(hw, f, L2Entry, (home + probe) % L2.ENTRIES, ws);
      if !ok {
        L2FrameFrom(hw', f, home, ws, probe + 1, t, i);
      }
    }
  }

  lemma NeighKeepsTable(s: State, f: Faults, e: Event, t: Table, i: nat)
    requires s.Shaped() && (e.NewNeigh? || e.DelNeigh?) && t != L2Entry
    ensures Entry(OnNeigh(s, f, e).l3.hw, t, i) == Entry(s.l3.hw, t, i)
  {
    hide Entry, L2.WriteProbing, L2.Pack, L2.Home, WithEntry, WithoutEntry, LookUp;
    if e.NewNeigh? && e.lladdr.Some? {
      var a := L2.Addr(e.lladdr.value, e.vid, PortOf(s, e.ifindex), true);
      L2FrameFrom(s.l3.hw, f, L2.Home(a.mac, a.vid), L2.Pack(a), 0, t, i);
    } else if e.DelNeigh? {
      var known := LookUp(s.neigh, e.dst, e.ifindex);
      var mac := if e.lladdr.Some? then e.lladdr.value else if known.Found? then known.mac else ZERO_MAC;
      L2FrameFrom(s.l3.hw, f, L2.Home(mac, e.vid), Zeros(4), 0, t, i);
    }
  }

  lemma NeighKeepsInv(s: State, f: Faults, e: Event)
    requires s.Shaped() && (e.NewNeigh? || e.DelNeigh?) && Inv(s)
    ensures Inv(OnNeigh(s, f, e))
  {
    hide Entry, RoutesOk, L2.WriteProbing, L2.Pack, L2.Home, WithEntry, WithoutEntry, LookUp;
    forall t, i: nat | t != L2Entry ensures Entry(OnNeigh(s, f, e).l3.hw, t, i) == Entry(s.l3.hw, t, i) {
      NeighKeepsTable(s, f, e, t, i);
    }
    RoutesFrame(s.l3, OnNeigh(s, f, e).l3);
  }

  lemma EgressCreateKeepsRoutes(l3: L3.State, f: Faults, port: int, intf: int, mac: Mac)
    requires l3.Shaped() && RoutesOk(l3)
    ensures var r := L3.EgressCreateResult(l3, f, port, intf, mac);
      && RoutesOk(r.s) && r.s.intfUsed == l3.intfUsed
      && (r.rc == 0 ==> 0 < r.id < L3.MAX_NHOP && r.s.nhopUsed[r.id])
  {
    hide Entry, Write, Field, Bit, L3.NextHopIndex, L3.IngWords, L3.EgrWords;
    var r := L3.EgressCreateResult(l3, f, port, intf, mac);
    if 0 < intf < L3.MAX_INTF {
      L3.EgrDecodes(intf, mac);
    }
    forall n: nat | n < L3.MAX_NHOP ensures NhopOk(r.s, n) {
      assert NhopOk(l3, n);
    }
    forall i: nat | i < L3.MAX_DEFIP ensures RouteOk(r.s, i) {
      assert RouteOk(l3, i);
    }
  }

  lemma RouteAddKeepsRoutes(l3: L3.State, f: Faults, r: L3.Route)
    requires l3.Shaped() && RoutesOk(l3) && 0 < r.egress < L3.MAX_NHOP && l3.nhopUsed[r.egress]
    ensures RoutesOk(L3.RouteAddResult(l3, f, r).s)
    ensures L3.RouteAddResult(l3, f, r).s.intfUsed == l3.intfUsed
  {
    hide Entry, Write, Field, Bit, L3.NextHopIndex, L3.DefipWords, L3.Find, L3.Slot;
    var l3' := L3.RouteAddResult(l3, f, r).s;
    if 0 <= r.plen <= 32 {
      L3.DefipNextHop(r.prefix, r.plen, r.egress);
    }
    forall n: nat | n < L3.MAX_NHOP ensures NhopOk(l3', n) {
      assert NhopOk(l3, n);
    }
    forall i: nat | i < L3.MAX_DEFIP ensures RouteOk(l3', i) {
      assert RouteOk(l3, i);
    }
  }

  lemma RouteDeleteKeepsRoutes(l3: L3.State, f: Faults, r: L3.Route)
    requires l3.Shaped() && RoutesOk(l3)
    ensures RoutesOk(L3.RouteDeleteResult(l3, f, r).s)
    ensures L3.RouteDeleteResult(l3, f, r).s.intfUsed == l3.intfUsed
  {
    hide Entry, Write, Field, Bit, L3.NextHopIndex, L3.Find;
    L3.ZeroBit(8, 0);
    var l3' := L3.RouteDeleteResult(l3, f, r).s;
    forall n: nat | n < L3.MAX_NHOP ensures NhopOk(l3', n) {
      assert NhopOk(l3, n);
    }
    forall i: nat | i < L3.MAX_DEFIP ensures RouteOk(l3', i) {
      assert RouteOk(l3, i);
    }
  }

  lemma RouteKeepsInv(s: State, f: Faults, e: Event)
    requires s.Shaped() && (e.NewRoute? || e.DelRoute?) && Inv(s)
    ensures Inv(OnRoute(s, f, e))
  {
    hide RoutesOk, L3.EgressCreateResult, L3.RouteAddResult, L3.RouteDeleteResult, LookUp;
    if e.DelRoute? {
      RouteDeleteKeepsRoutes(s.l3, f, L3.Route(e.dst, e.dstLen, 0, false));
    } else if PortOf(s, e.oif) > 0 {
      var port, known := PortOf(s, e.oif), LookUp(s.neigh, e.gateway, e.oif);
      var intf, mac := if port < MAX_PORTS then s.portIntf[port] else 0, if known.Found? then known.mac else ZERO_MAC;
      EgressCreateKeepsRoutes(s.l3, f, port, intf, mac);
      var r := L3.EgressCreateResult(s.l3, f, port, intf, mac);
      if r.rc == 0 {
        RouteAddKeepsRoutes(r.s, f, L3.Route(e.dst, e.dstLen, r.id, false));
      }
    }
  }

  lemma InitialInv()
    ensures Inv(Initial())
  {
    L3.ZeroBit(8, 0);
  }

  // In every state reachable by any events under any write failures.
  lemma {:induction false} ReachableInv(events: seq<Event>, f: Faults)
    ensures Inv(After(events, f))
  {
    hide RoutesOk, PortIntfsLive, OnAddr, OnNeigh, OnRoute;
    if events == [] {
      InitialInv();
    } else {
      var s, e := After(events[..|events| - 1], f), events[|events| - 1];
      ReachableInv(events[..|events| - 1], f);
      match e
      case NewLink(_, _) => LinkKeepsInv(s, e);
      case DelLink(_) => LinkKeepsInv(s, e);
      case NewAddr(_, _) => AddrKeepsInv(s, f, e);
      case DelAddr(_, _) => AddrKeepsInv(s, f, e);
      case NewNeigh(_, _, _, _, _) => NeighKeepsInv(s, f, e);
      case DelNeigh(_, _, _, _, _) => NeighKeepsInv(s, f, e);
      case NewRoute(_, _, _, _, _) => RouteKeepsInv(s, f, e);
      case DelRoute(_, _, _) => RouteKeepsInv(s, f, e);
    }
  }

  lemma LinkKeepsInv(s: State, e: Event)
    requires s.Shaped() && (e.NewLink? || e.DelLink?) && Inv(s)
    ensures Inv(OnLink(s, e))
  {
    hide RoutesOk;
  }

  // What the neighbour events say, by what the listener hears of them: those about interfaces that
  // have a port. A new neighbour is forgotten when 256 others are known.
  ghost function Learned(events: seq<Event>, f: Faults): NeighMap {
    if events == [] then map[]
    else
      var (known, s, e) := (Learned(events[..|events| - 1], f), After(events[..|events| - 1], f), events[|events| - 1]);
      if !(e.NewNeigh? || e.DelNeigh?) || !e.isInet || PortOf(s, e.ifindex) <= 0 then known
      else if e.DelNeigh? then known - {(e.dst, e.ifindex)}
      else if e.lladdr.Some? then MapSet(known, e.dst, e.ifindex, e.lladdr.value)
      else known
  }

  // In every reachable state the cache has no key twice and answers as that map does.
  lemma {:induction false} ReachableCache(events: seq<Event>, f: Faults)
    ensures Represents(After(events, f).neigh, Learned(events, f))
  {
    hide Represents, OnAddr, OnLink, OnRoute, WithEntry, WithoutEntry, DelNeighHw, L2.Add;
    if events == [] {
      NothingRepresents();
    } else {
      var (before, e) := (events[..|events| - 1], events[|events| - 1]);
      ReachableCache(before, f);
      var (s, known) := (After(before, f), Learned(before, f));
      CacheFrame(s, f, e);
      if e.NewNeigh? && e.lladdr.Some? {
        SetRepresents(s.neigh, known, e.dst, e.ifindex, e.lladdr.value);
      } else if e.DelNeigh? {
        RemoveRepresents(s.neigh, known, e.dst, e.ifindex);
      }
    }
  }

  lemma NothingRepresents()
    ensures Represents([], map[])
  {
  }

  lemma CacheFrame(s: State, f: Faults, e: Event)
    requires s.Shaped()
    ensures !e.NewNeigh? && !e.DelNeigh? ==> Handle(s, f, e).neigh == s.neigh
  {
    hide L3.IntfCreateResult, L3.IntfDestroyResult, L3.EgressCreateResult, L3.RouteAddResult, L3.RouteDeleteResult;
  }

  // The chain behind every valid route entry of a reachable state.
  lemma ReachableRoutesResolve(events: seq<Event>, f: Faults, i: nat)
    requires i < L3.MAX_DEFIP
    ensures var l3 := After(events, f).l3;
      var e := Entry(l3.hw, L3Defip, i);
      && |e| == 8
      && (Bit(e, 0) ==>
            var n := L3.NextHopIndex(e);
            && n < L3.MAX_NHOP && l3.nhopUsed[n]
            && |Entry(l3.hw, EgrL3NextHop, n)| == 4 && Field(Entry(l3.hw, EgrL3NextHop, n), 3, 12) != 0)
  {
    hide Entry, Field, Bit, L3.NextHopIndex, After;
    ReachableInv(events, f);
    var l3 := After(events, f).l3;
    assert RouteOk(l3, i);
    var e := Entry(l3.hw, L3Defip, i);
    if Bit(e, 0) {
      assert NhopOk(l3, L3.NextHopIndex(e));
    }
  }

  // Every port with an interface has one of its own, and it is live.
  lemma ReachablePortIntfsLive(events: seq<Event>, f: Faults, p: nat, q: nat)
    requires p < MAX_PORTS && q < MAX_PORTS && p != q && After(events, f).portIntf[p] != 0
    ensures var s := After(events, f);
      && s.portIntf[p] < L3.MAX_INTF && s.l3.intfUsed[s.portIntf[p]] && s.portIntf[p] != s.portIntf[q]
  {
    hide RoutesOk, After;
    ReachableInv(events, f);
  }

  // ----- The handlers over the static arrays -----

  class Switchd {
    const ifindexToPort: array<int>
    const portToIntfId: array<nat>
    const cache: Cache
    const tables: L3Tables.Tables

    ghost predicate Valid()
      reads cache
    {
      && ifindexToPort.Length == MAX_IFINDEX && portToIntfId.Length == MAX_PORTS
      && cache.Valid() && tables.Valid()
      && portToIntfId != tables.defipPlen && ifindexToPort as object != portToIntfId
    }

    ghost predicate PortsBounded()
      requires Valid()
      reads ifindexToPort, cache
    {
      forall i | 0 <= i < MAX_IFINDEX :: ifindexToPort[i] <= MAX_PORTS
    }

    ghost function View(): (s: State)
      requires Valid() && PortsBounded()
      reads ifindexToPort, portToIntfId, cache, cache.entries
      reads tables.intfUsed, tables.nhopUsed, tables.defipUsed, tables.defipPrefix, tables.defipPlen, tables.asic
      ensures s.Shaped()
    {
      State(ifindexToPort[..], portToIntfId[..], cache.View(), tables.View())
    }

    constructor (asic: Asic)
      requires asic.hw == BlankHw
      ensures Valid() && PortsBounded() && tables.asic == asic && View() == Initial()
    {
      ifindexToPort := new int[MAX_IFINDEX](_ => -1);
      portToIntfId := new nat[MAX_PORTS](_ => 0);
      cache := new Cache();
      tables := new L3Tables.Tables(asic);
      new;
      assert ifindexToPort[..] == NoPorts(MAX_IFINDEX);
      assert portToIntfId[..] == Zeros(MAX_PORTS);
    }

    method HandleLink(e: Event)
      requires Valid() && PortsBounded() && (e.NewLink? || e.DelLink?)
      modifies ifindexToPort
      ensures PortsBounded() && View() == OnLink(old(View()), e)
    {
      if e.DelLink? {
        if 0 <= e.ifindex < MAX_IFINDEX {
          ifindexToPort[e.ifindex] := -1;
        }
        return;
      }
      if e.swp.Some? && 1 <= e.swp.value <= 56 {
        if 0 <= e.ifindex < MAX_IFINDEX {
          ifindexToPort[e.ifindex] := e.swp.value;
        }
      }
    }

    method HandleAddr(e: Event)
      requires Valid() && PortsBounded() && (e.NewAddr? || e.DelAddr?)
      modifies portToIntfId, tables.intfUsed, tables.asic
      ensures PortsBounded() && View() == OnAddr(old(View()), tables.asic.fails, e)
    {
      hide L3.IntfCreateResult, L3.IntfDestroyResult;
      if !e.hasAddress {
        return;
      }
      if !(0 <= e.ifindex < MAX_IFINDEX) {
        return;
      }
      var port := ifindexToPort[e.ifindex];
      if port <= 0 || port >= MAX_PORTS {
        return;
      }
      if e.NewAddr? {
        var rc, intfId := tables.IntfCreate(PortMac(port), 0);
        if rc == 0 {
          CreatedIdNonNegative(old(View()).l3, tables.asic.fails, PortMac(port), 0);
          portToIntfId[port] := intfId;
        }
      } else if portToIntfId[port] != 0 {
        var _ := tables.IntfDestroy(portToIntfId[port]);
        portToIntfId[port] := 0;
      }
    }

    method HandleNeigh(e: Event)
      requires Valid() && PortsBounded() && (e.NewNeigh? || e.DelNeigh?)
      modifies cache, cache.entries, tables.asic
      ensures Valid() && PortsBounded() && View() == OnNeigh(old(View()), tables.asic.fails, e)
    {
      hide L2.Add, L2.Delete, WithEntry, WithoutEntry, LookUp;
      if !e.isInet {
        return;
      }
      if !(0 <= e.ifindex < MAX_IFINDEX) {
        return;
      }
      var port := ifindexToPort[e.ifindex];
      if port <= 0 {
        return;
      }
      if e.NewNeigh? {
        if e.lladdr.None? {
          return;
        }
        var _ := L2.AddrAdd(tables.asic, L2.Addr(e.lladdr.value, e.vid, port, true));
        cache.Set(e.dst, e.ifindex, e.lladdr.value);
      } else {
        var known := cache.Get(e.dst, e.ifindex);
        if e.lladdr.Some? {
          var _ := L2.AddrDelete(tables.asic, e.lladdr.value, e.vid);
        } else if e.dst != 0 && known.Found? {
          var _ := L2.AddrDelete(tables.asic, known.mac, e.vid);
        }
        cache.Remove(e.dst, e.ifindex);
      }
    }

    method HandleRoute(e: Event)
      requires Valid() && PortsBounded() && (e.NewRoute? || e.DelRoute?)
      modifies tables.nhopUsed, tables.defipUsed, tables.defipPrefix, tables.defipPlen, tables.asic
      ensures PortsBounded() && View() == OnRoute(old(View()), tables.asic.fails, e)
    {
      hide L3.EgressCreateResult, L3.RouteAddResult, L3.RouteDeleteResult, LookUp;
      if !e.isInetUnicast {
        return;
      }
      if e.DelRoute? {
        var _ := tables.RouteDelete(L3.Route(e.dst, e.dstLen, 0, false));
        return;
      }
      if !(0 <= e.oif < MAX_IFINDEX) {
        return;
      }
      var port := ifindexToPort[e.oif];
      if port <= 0 {
        return;
      }
      var intfId := if port < MAX_PORTS then portToIntfId[port] else 0;
      var known := cache.Get(e.gateway, e.oif);
      var mac := if known.Found? then known.mac else ZERO_MAC;
      var rc, egressId := tables.EgressCreate(port, intfId, mac);
      if rc != 0 {
        return;
      }
      var _ := tables.RouteAdd(L3.Route(e.dst, e.dstLen, egressId, false));
    }
  }

  lemma CreatedIdNonNegative(l3: L3.State, f: Faults, mac: Mac, vid: nat)
    requires l3.Shaped()
    ensures L3.IntfCreateResult(l3, f, mac, vid).id >= 0
  {
  }
}
