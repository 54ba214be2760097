/** The chain of table entries that a routed packet follows:
    DEFIP -> ING/EGR next hop -> EGR_L3_INTF. */
module ForwardingChain {
  import opened Bits
  import opened BitFields
  import opened IdMaps
  import opened Macs
  import opened Transport
  import opened L3

  datatype Op =
    | IntfCreate(mac: Mac, vid: nat)
    | IntfDestroy(intf: int)
    | EgressCreate(port: int, intf: int, mac: Mac)
    | EgressDestroy(nhop: int)
    | RouteAdd(r: Route)
    | RouteDelete(r: Route)
    | HostAdd(addr: Word, nhop: int, isIpv6: bool)

  function Apply(s: State, f: Faults, op: Op): (res: Result)
    requires s.Shaped()
    ensures res.s.Shaped()
  {
    match op
    case IntfCreate(mac, vid) => IntfCreateResult(s, f, mac, vid)
    case IntfDestroy(intf) => IntfDestroyResult(s, f, intf)
    case EgressCreate(port, intf, mac) => EgressCreateResult(s, f, port, intf, mac)
    case EgressDestroy(nhop) => EgressDestroyResult(s, f, nhop)
    case RouteAdd(r) => RouteAddResult(s, f, r)
    case RouteDelete(r) => RouteDeleteResult(s, f, r)
    case HostAdd(addr, nhop, isIpv6) => HostAddResult(s, f, addr, nhop, isIpv6)
  }

  function Run(s: State, f: Faults, ops: seq<Op>): (s': State)
    requires s.Shaped()
    ensures s'.Shaped()
    decreases |ops|
  {
    if ops == [] then s else Run(Apply(s, f, ops[0]).s, f, ops[1..])
  }

  // ----- What the hardware does with a packet that hits a DEFIP slot -----

  datatype Rewrite = Rewrite(port: nat, dstMac: nat, srcMac: nat, vid: nat)

  predicate Followable(hw: Hw, slot: nat) {
    && |Entry(hw, L3Defip, slot)| == 8
    && var n := NextHopIndex(Entry(hw, L3Defip, slot));
    && |Entry(hw, IngL3NextHop, n)| == 2 && |Entry(hw, EgrL3NextHop, n)| == 4
    && |Entry(hw, EgrL3Intf, Field(Entry(hw, EgrL3NextHop, n), 3, 12))| == 4
  }

  function Follow(hw: Hw, slot: nat): Rewrite
    requires Followable(hw, slot)
  {
    var n := NextHopIndex(Entry(hw, L3Defip, slot));
    var i := Field(Entry(hw, EgrL3NextHop, n), 3, 12);
    Rewrite(
      Field(Entry(hw, IngL3NextHop, n), 16, 7),
      Field(Entry(hw, EgrL3NextHop, n), 15, 48),
      Field(Entry(hw, EgrL3Intf, i), 33, 48),
      Field(Entry(hw, EgrL3Intf, i), 13, 12))
  }

  // ----- The objects behind one route -----

  datatype Chain = Chain(
    intf: nat, srcMac: Mac, vid: nat,
    nhop: nat, port: nat, dstMac: Mac,
    prefix: Word, plen: nat)

  predicate IntfHeld(s: State, c: Chain)
    requires s.Shaped()
  {
    0 < c.intf < MAX_INTF && s.intfUsed[c.intf] && Entry(s.hw, EgrL3Intf, c.intf) == IntfWords(c.srcMac, c.vid)
  }

  predicate NhopHeld(s: State, c: Chain)
    requires s.Shaped()
  {
    && 0 < c.nhop < MAX_NHOP && s.nhopUsed[c.nhop]
    && Entry(s.hw, IngL3NextHop, c.nhop) == IngWords(c.port)
    && Entry(s.hw, EgrL3NextHop, c.nhop) == EgrWords(c.intf, c.dstMac)
  }

  predicate RouteHeld(s: State, c: Chain)
    requires s.Shaped()
  {
    && c.plen <= 32 && Find(s, c.prefix, c.plen, 0) != -1
    && Entry(s.hw, L3Defip, Find(s, c.prefix, c.plen, 0)) == DefipWords(c.prefix, c.plen, c.nhop)
  }

  predicate Held(s: State, c: Chain)
    requires s.Shaped()
  {
    IntfHeld(s, c) && NhopHeld(s, c) && RouteHeld(s, c)
  }

  // The operations that leave one object of the chain in place: no destroy of its interface, no
  // destroy of its next hop, no add or delete of its key.
  predicate SparesIntf(op: Op, c: Chain) {
    op.IntfDestroy? ==> op.intf != c.intf
  }

  predicate SparesNhop(op: Op, c: Chain) {
    op.EgressDestroy? ==> op.nhop != c.nhop
  }

  predicate SparesRoute(op: Op, c: Chain) {
    match op
    case RouteAdd(r) => (r.prefix, r.plen) != (c.prefix, c.plen as int)
    case RouteDelete(r) => (r.prefix, r.plen) != (c.prefix, c.plen as int)
    case HostAdd(addr, _, _) => (addr, 32) != (c.prefix, c.plen as int)
    case _ => true
  }

  predicate Spares(op: Op, c: Chain) {
    SparesIntf(op, c) && SparesNhop(op, c) && SparesRoute(op, c)
  }

  // ----- Creation -----

  lemma IntfCreated(s: State, f: Faults, c: Chain)
    requires s.Shaped() && IntfCreateResult(s, f, c.srcMac, c.vid).rc == 0
    requires c.intf == IntfCreateResult(s, f, c.srcMac, c.vid).id
    ensures IntfHeld(IntfCreateResult(s, f, c.srcMac, c.vid).s, c)
  {
    hide Write, Entry, IntfWords;
  }

  lemma EgressCreated(s: State, f: Faults, c: Chain)
    requires s.Shaped() && EgressCreateResult(s, f, c.port, c.intf, c.dstMac).rc == 0
    requires c.nhop == EgressCreateResult(s, f, c.port, c.intf, c.dstMac).id
    ensures NhopHeld(EgressCreateResult(s, f, c.port, c.intf, c.dstMac).s, c)
  {
    hide Write, Entry, IngWords, EgrWords;
  }

  lemma RouteAdded(s: State, f: Faults, c: Chain)
    requires s.Shaped() && RouteAddResult(s, f, Route(c.prefix, c.plen, c.nhop, false)).rc == 0
    ensures RouteHeld(RouteAddResult(s, f, Route(c.prefix, c.plen, c.nhop, false)).s, c)
  {
    hide Write, Entry, DefipWords, Find;
    var s' := RouteAddResult(s, f, Route(c.prefix, c.plen, c.nhop, false)).s;
    var idx := Slot(s, c.prefix, c.plen);
    assert s'.HasKey(idx, c.prefix, c.plen);
    assert forall j: nat | j < MAX_DEFIP && j != idx :: s'.HasKey(j, c.prefix, c.plen) == s.HasKey(j, c.prefix, c.plen);
    assert Find(s', c.prefix, c.plen, 0) == idx;
  }

  // ----- Preservation -----

  lemma IntfKept(s: State, f: Faults, op: Op, c: Chain)
    requires s.Shaped() && IntfHeld(s, c) && SparesIntf(op, c)
    ensures IntfHeld(Apply(s, f, op).s, c)
  {
    hide Write, Entry, IntfWords, IngWords, EgrWords, DefipWords, Find, Slot;
  }

  lemma NhopKept(s: State, f: Faults, op: Op, c: Chain)
    requires s.Shaped() && NhopHeld(s, c) && SparesNhop(op, c)
    ensures NhopHeld(Apply(s, f, op).s, c)
  {
    hide Write, Entry, IntfWords, IngWords, EgrWords, DefipWords, Find, Slot;
  }

  lemma OtherKeyKeepsFind(s: State, s': State, j: nat, prefix: Word, plen: nat)
    requires s.Shaped() && s'.Shaped() && j < MAX_DEFIP
    requires !s.HasKey(j, prefix, plen) && !s'.HasKey(j, prefix, plen)
    requires forall i: nat | i < MAX_DEFIP && i != j :: s'.HasKey(i, prefix, plen) == s.HasKey(i, prefix, plen)
    ensures Find(s', prefix, plen, 0) == Find(s, prefix, plen, 0)
  {
    hide Find;
  }

  lemma AddKeepsRoute(s: State, f: Faults, r: Route, c: Chain)
    requires s.Shaped() && RouteHeld(s, c) && (r.prefix, r.plen) != (c.prefix, c.plen as int)
    ensures RouteHeld(RouteAddResult(s, f, r).s, c)
  {
    hide Write, Entry, DefipWords, Find;
    var s' := RouteAddResult(s, f, r).s;
    if s' != s {
      OtherKeyKeepsFind(s, s', Slot(s, r.prefix, r.plen), c.prefix, c.plen);
    }
  }

  lemma DeleteKeepsRoute(s: State, f: Faults, r: Route, c: Chain)
    requires s.Shaped() && RouteHeld(s, c) && (r.prefix, r.plen) != (c.prefix, c.plen as int)
    ensures RouteHeld(RouteDeleteResult(s, f, r).s, c)
  {
    hide Write, Entry, DefipWords, Find;
    var s' := RouteDeleteResult(s, f, r).s;
    if s' != s {
      OtherKeyKeepsFind(s, s', Find(s, r.prefix, r.plen, 0), c.prefix, c.plen);
    }
  }

  lemma SameDefipKeepsFind(s: State, s': State, prefix: Word, plen: nat)
    requires s.Shaped() && s'.Shaped()
    requires s'.defipUsed == s.defipUsed && s'.defipPrefix == s.defipPrefix && s'.defipPlen == s.defipPlen
    ensures Find(s', prefix, plen, 0) == Find(s, prefix, plen, 0)
  {
    hide Find;
    assert forall i: nat | i < MAX_DEFIP :: s'.HasKey(i, prefix, plen) == s.HasKey(i, prefix, plen);
  }

  lemma RouteKept(s: State, f: Faults, op: Op, c: Chain)
    requires s.Shaped() && RouteHeld(s, c) && SparesRoute(op, c)
    ensures RouteHeld(Apply(s, f, op).s, c)
  {
    hide Write, Entry, IntfWords, IngWords, EgrWords, DefipWords, Find, RouteAddResult, RouteDeleteResult;
    match op
    case RouteAdd(r) => AddKeepsRoute(s, f, r, c);
    case RouteDelete(r) => DeleteKeepsRoute(s, f, r, c);
    case HostAdd(addr, nhop, isIpv6) =>
      if !isIpv6 {
        AddKeepsRoute(s, f, Route(addr, 32, nhop, false), c);
      }
    case _ => SameDefipKeepsFind(s, Apply(s, f, op).s, c.prefix, c.plen);
  }

  // Whatever writes fail, a chain stays in place through any operations that spare its objects.
  lemma {:induction false} ChainSurvives(s: State, f: Faults, ops: seq<Op>, c: Chain)
    requires s.Shaped() && Held(s, c)
    requires forall i | 0 <= i < |ops| :: Spares(ops[i], c)
    ensures Held(Run(s, f, ops), c)
    decreases |ops|
  {
    hide IntfHeld, NhopHeld, RouteHeld, Apply;
    if ops != [] {
      IntfKept(s, f, ops[0], c);
      NhopKept(s, f, ops[0], c);
      RouteKept(s, f, ops[0], c);
      ChainSurvives(Apply(s, f, ops[0]).s, f, ops[1..], c);
    }
  }

  // ----- Decoding -----

  lemma HeldFollows(s: State, c: Chain)
    requires s.Shaped() && Held(s, c)
    ensures Followable(s.hw, Find(s, c.prefix, c.plen, 0))
    ensures Follow(s.hw, Find(s, c.prefix, c.plen, 0))
         == Rewrite(c.port % 0x80, Mac48(c.dstMac), Mac48(c.srcMac), c.vid % 0x1000)
  {
    hide Entry, IntfWords, IngWords, EgrWords, DefipWords, Find, Field, Mac48, NextHopIndex;
    DefipNextHop(c.prefix, c.plen, c.nhop);
    IngDecodes(c.port);
    EgrDecodes(c.intf, c.dstMac);
    IntfDecodes(c.srcMac, c.vid);
  }

  // An interface, a next hop on it and a route to that next hop are created in this order, with
  // any operations in between and after that spare what has been created by then; the route may
  // be a new one or an old one pointed elsewhere. The hardware then rewrites a packet that hits
  // the route with exactly the given addresses, and with the given port and VLAN exactly when
  // they fit in seven and twelve bits.
  lemma ChainForwards(s0: State, f: Faults, c: Chain, ops1: seq<Op>, ops2: seq<Op>, ops3: seq<Op>)
    requires s0.Shaped()
    requires forall op | op in ops1 :: SparesIntf(op, c)
    requires forall op | op in ops2 :: SparesIntf(op, c) && SparesNhop(op, c)
    requires forall op | op in ops3 :: Spares(op, c)
    requires IntfCreateResult(s0, f, c.srcMac, c.vid).rc == 0
    requires IntfCreateResult(s0, f, c.srcMac, c.vid).id == c.intf
    requires var s1 := Run(IntfCreateResult(s0, f, c.srcMac, c.vid).s, f, ops1);
      var e := EgressCreateResult(s1, f, c.port, c.intf, c.dstMac);
      && e.rc == 0 && e.id == c.nhop
      && RouteAddResult(Run(e.s, f, ops2), f, Route(c.prefix, c.plen, c.nhop, false)).rc == 0
    ensures var s1 := Run(IntfCreateResult(s0, f, c.srcMac, c.vid).s, f, ops1);
      var s2 := Run(EgressCreateResult(s1, f, c.port, c.intf, c.dstMac).s, f, ops2);
      var s3 := Run(RouteAddResult(s2, f, Route(c.prefix, c.plen, c.nhop, false)).s, f, ops3);
      var slot := Find(s3, c.prefix, c.plen, 0);
      && slot != -1 && Followable(s3.hw, slot)
      && var w := Follow(s3.hw, slot);
      && w.dstMac == Mac48(c.dstMac) && w.srcMac == Mac48(c.srcMac)
      && (w.vid == c.vid <==> c.vid < 0x1000) && (w.port == c.port <==> c.port < 0x80)
  {
    hide Entry, Find, IntfCreateResult, EgressCreateResult, RouteAddResult, Follow, Followable, Mac48, Run;
    hide IntfHeld, NhopHeld, RouteHeld;
    var i0 := IntfCreateResult(s0, f, c.srcMac, c.vid).s;
    var s1 := Run(i0, f, ops1);
    var e1 := EgressCreateResult(s1, f, c.port, c.intf, c.dstMac).s;
    var s2 := Run(e1, f, ops2);
    var r2 := RouteAddResult(s2, f, Route(c.prefix, c.plen, c.nhop, false)).s;
    IntfCreated(s0, f, c);
    IntfSurvives(i0, f, ops1, c);
    EgressCreated(s1, f, c);
    IntfKept(s1, f, EgressCreate(c.port, c.intf, c.dstMac), c);
    IntfSurvives(e1, f, ops2, c);
    NhopSurvives(e1, f, ops2, c);
    RouteAdded(s2, f, c);
    AddKeepsObjects(s2, f, Route(c.prefix, c.plen, c.nhop, false), c);
    ChainSurvives(r2, f, ops3, c);
    assert RouteHeld(Run(r2, f, ops3), c);
    HeldFollows(Run(r2, f, ops3), c);
    FoundWhenHeld(Run(r2, f, ops3), c);
  }

  lemma FoundWhenHeld(s: State, c: Chain)
    requires s.Shaped() && RouteHeld(s, c)
    ensures Find(s, c.prefix, c.plen, 0) != -1
  {
  }

  lemma AddKeepsObjects(s: State, f: Faults, r: Route, c: Chain)
    requires s.Shaped() && IntfHeld(s, c) && NhopHeld(s, c)
    ensures IntfHeld(RouteAddResult(s, f, r).s, c) && NhopHeld(RouteAddResult(s, f, r).s, c)
  {
    hide Write, Entry, IntfWords, IngWords, EgrWords, DefipWords, Find, Slot;
  }

  lemma {:induction false} IntfSurvives(s: State, f: Faults, ops: seq<Op>, c: Chain)
    requires s.Shaped() && IntfHeld(s, c)
    requires forall i | 0 <= i < |ops| :: SparesIntf(ops[i], c)
    ensures IntfHeld(Run(s, f, ops), c)
    decreases |ops|
  {
    hide IntfHeld, Apply;
    if ops != [] {
      IntfKept(s, f, ops[0], c);
      IntfSurvives(Apply(s, f, ops[0]).s, f, ops[1..], c);
    }
  }

  lemma {:induction false} NhopSurvives(s: State, f: Faults, ops: seq<Op>, c: Chain)
    requires s.Shaped() && NhopHeld(s, c)
    requires forall i | 0 <= i < |ops| :: SparesNhop(ops[i], c)
    ensures NhopHeld(Run(s, f, ops), c)
    decreases |ops|
  {
    hide NhopHeld, Apply;
    if ops != [] {
      NhopKept(s, f, ops[0], c);
      NhopSurvives(Apply(s, f, ops[0]).s, f, ops[1..], c);
    }
  }
}
