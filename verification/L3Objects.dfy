/** Which interfaces and next hops are live over a run, and what their hardware entries hold. */
module L3Objects {
  import opened Bits
  import opened BitFields
  import opened IdMaps
  import opened Macs
  import opened Transport
  import opened L3
  import opened ForwardingChain
  import Defip

  // The ids that creates have returned and no destroy has been called for since; and what the
  // entries were last written for, the cleared ones left out.
  datatype Objects = Objects(
    intfs: set<int>, intfAt: map<int, (Mac, nat)>,
    nhops: set<int>, egrAt: map<int, (int, Mac)>, portAt: map<int, int>)

  function Next(o: Objects, s: State, f: Faults, op: Op): Objects
    requires s.Shaped()
  {
    var r := Apply(s, f, op);
    match op
    case IntfCreate(mac, vid) =>
      if r.rc != 0 then o else o.(intfs := o.intfs + {r.id}, intfAt := o.intfAt[r.id := (mac, vid)])
    case IntfDestroy(i) =>
      if !(1 <= i < 4096) then o
      else o.(intfs := o.intfs - {i}, intfAt := if f(s.hw.clock) then o.intfAt else o.intfAt - {i})
    case EgressCreate(port, intf, mac) =>
      if r.rc != 0 then o
      else o.(nhops := o.nhops + {r.id}, egrAt := o.egrAt[r.id := (intf, mac)], portAt := o.portAt[r.id := port])
    case EgressDestroy(n) =>
      if !(1 <= n < 16384) then o
      else o.(nhops := o.nhops - {n}, egrAt := if f(s.hw.clock + 1) then o.egrAt else o.egrAt - {n})
    case _ => o
  }

  ghost function After(ops: seq<Op>, f: Faults): (s: State)
    ensures s.Shaped()
  {
    if ops == [] then Initial else Apply(After(ops[..|ops| - 1], f), f, ops[|ops| - 1]).s
  }

  ghost function ObjectsAfter(ops: seq<Op>, f: Faults): Objects {
    if ops == [] then Objects({}, map[], {}, map[], map[])
    else Next(ObjectsAfter(ops[..|ops| - 1], f), After(ops[..|ops| - 1], f), f, ops[|ops| - 1])
  }

  predicate IntfOk(s: State, o: Objects, i: int)
    requires s.Shaped()
  {
    && (i in o.intfs <==> 1 <= i < MAX_INTF && s.intfUsed[i])
    && (i in o.intfs ==> i in o.intfAt)
    && (i in o.intfAt ==> i >= 0 && Entry(s.hw, EgrL3Intf, i) == IntfWords(o.intfAt[i].0, o.intfAt[i].1))
    && (0 <= i && i !in o.intfAt ==> Entry(s.hw, EgrL3Intf, i) == Zeros(4))
  }

  predicate NhopOk(s: State, o: Objects, n: int)
    requires s.Shaped()
  {
    && (n in o.nhops <==> 1 <= n < MAX_NHOP && s.nhopUsed[n])
    && (n in o.nhops ==> n in o.egrAt && n in o.portAt && o.portAt[n] >= 0
                         && Entry(s.hw, IngL3NextHop, n) == IngWords(o.portAt[n]))
    && (n in o.egrAt ==> n >= 0 && o.egrAt[n].0 >= 0
                         && Entry(s.hw, EgrL3NextHop, n) == EgrWords(o.egrAt[n].0, o.egrAt[n].1))
    && (0 <= n && n !in o.egrAt ==> Entry(s.hw, EgrL3NextHop, n) == Zeros(4))
  }

  lemma StepKeepsIntf(s: State, o: Objects, f: Faults, op: Op, i: int)
    requires s.Shaped() && IntfOk(s, o, i)
    ensures IntfOk(Apply(s, f, op).s, Next(o, s, f, op), i)
  {
    hide Write, Entry, IntfWords, IngWords, EgrWords, DefipWords, Find, Slot, FirstFree;
  }

  lemma StepKeepsNhop(s: State, o: Objects, f: Faults, op: Op, n: int)
    requires s.Shaped() && NhopOk(s, o, n)
    ensures NhopOk(Apply(s, f, op).s, Next(o, s, f, op), n)
  {
    if op.EgressCreate? || op.EgressDestroy? {
      EgressKeepsNhop(s, o, f, op, n);
    } else {
      OthersKeepNhops(s, f, op);
      hide Apply;
    }
  }

  lemma EgressKeepsNhop(s: State, o: Objects, f: Faults, op: Op, n: int)
    requires s.Shaped() && NhopOk(s, o, n) && (op.EgressCreate? || op.EgressDestroy?)
    ensures NhopOk(Apply(s, f, op).s, Next(o, s, f, op), n)
  {
    hide Write, Entry, IngWords, EgrWords, FirstFree;
  }

  lemma OthersKeepNhops(s: State, f: Faults, op: Op)
    requires s.Shaped() && !op.EgressCreate? && !op.EgressDestroy?
    ensures Apply(s, f, op).s.nhopUsed == s.nhopUsed
    ensures forall t, i: nat | t == IngL3NextHop || t == EgrL3NextHop ::
      Entry(Apply(s, f, op).s.hw, t, i) == Entry(s.hw, t, i)
  {
    hide Write, Entry, IntfWords, DefipWords, Find, Slot, FirstFree;
  }

  // Over every run and whatever writes fail: an interface or next hop is marked used exactly when
  // it is live, it then has the entries it was created with, and an entry that is not live is zero
  // unless its destroy's write was lost.
  lemma {:induction false} EveryObject(ops: seq<Op>, f: Faults, i: int)
    ensures IntfOk(After(ops, f), ObjectsAfter(ops, f), i) && NhopOk(After(ops, f), ObjectsAfter(ops, f), i)
  {
    hide Apply, IntfOk, NhopOk, Next;
    if ops == [] {
      NoObjects(i);
    } else {
      var (before, op) := (ops[..|ops| - 1], ops[|ops| - 1]);
      EveryObject(before, f, i);
      StepKeepsIntf(After(before, f), ObjectsAfter(before, f), f, op, i);
      StepKeepsNhop(After(before, f), ObjectsAfter(before, f), f, op, i);
    }
  }

  lemma NoObjects(i: int)
    ensures IntfOk(Initial, Objects({}, map[], {}, map[], map[]), i)
    ensures NhopOk(Initial, Objects({}, map[], {}, map[], map[]), i)
  {
  }

  // ----- What the operations report -----

  // An interface create returns the least id that is not live, and fails exactly when there is
  // none or its write is lost.
  lemma IntfReports(ops: seq<Op>, f: Faults, mac: Mac, vid: nat)
    ensures var (s, live) := (After(ops, f), ObjectsAfter(ops, f).intfs);
      var r := IntfCreateResult(s, f, mac, vid);
      var full := forall i | 1 <= i < 4096 :: i in live;
      && (r.rc == -ENOSPC <==> full)
      && (r.rc == -EIO <==> !full && f(s.hw.clock))
      && (r.rc == 0 <==> !full && !f(s.hw.clock))
      && (r.rc == 0 ==> 1 <= r.id < 4096 && r.id !in live && forall i | 1 <= i < r.id :: i in live)
  {
    hide After, ObjectsAfter, Entry, IntfWords;
    forall i ensures i in ObjectsAfter(ops, f).intfs <==> 1 <= i < MAX_INTF && After(ops, f).intfUsed[i] {
      EveryObject(ops, f, i);
    }
  }

  lemma EgressReports(ops: seq<Op>, f: Faults, port: int, intf: int, mac: Mac)
    ensures var (s, live) := (After(ops, f), ObjectsAfter(ops, f).nhops);
      var r := EgressCreateResult(s, f, port, intf, mac);
      var sane := 1 <= port <= 255 && 1 <= intf < 4096;
      var full := forall i | 1 <= i < 16384 :: i in live;
      var lost := f(s.hw.clock) || f(s.hw.clock + 1);
      && (r.rc == -EINVAL <==> !sane)
      && (r.rc == -ENOSPC <==> sane && full)
      && (r.rc == -EIO <==> sane && !full && lost)
      && (r.rc == 0 <==> sane && !full && !lost)
      && (r.rc == 0 ==> 1 <= r.id < 16384 && r.id !in live && forall i | 1 <= i < r.id :: i in live)
  {
    hide After, ObjectsAfter, Entry, IngWords, EgrWords, IntfOk;
    forall i ensures i in ObjectsAfter(ops, f).nhops <==> 1 <= i < MAX_NHOP && After(ops, f).nhopUsed[i] {
      EveryObject(ops, f, i);
    }
  }

  // Destroys report nothing but an id out of range, whatever becomes of their writes.
  lemma DestroyReports(s: State, f: Faults, id: int)
    requires s.Shaped()
    ensures IntfDestroyResult(s, f, id).rc == if 1 <= id < 4096 then 0 else -EINVAL
    ensures EgressDestroyResult(s, f, id).rc == if 1 <= id < 16384 then 0 else -EINVAL
  {
    hide Write;
  }

  // Some slot holds the key, or none holds any.
  predicate SlotLeft(s: State, prefix: Word, plen: int)
    requires s.Shaped()
  {
    exists i: nat :: i < 8192 && (!s.defipUsed[i] || s.HasKey(i, prefix, plen))
  }

  lemma RouteReports(s: State, f: Faults, r: Route)
    requires s.Shaped()
    ensures var rc := RouteAddResult(s, f, r).rc;
      var sane := 0 <= r.plen <= 32 && 1 <= r.egress < 16384;
      && (rc == -ENOTSUP <==> r.isIpv6)
      && (rc == -EINVAL <==> !r.isIpv6 && !sane)
      && (rc == -ENOSPC <==> !r.isIpv6 && sane && !SlotLeft(s, r.prefix, r.plen))
      && (rc == -EIO <==> !r.isIpv6 && sane && SlotLeft(s, r.prefix, r.plen) && f(s.hw.clock))
      && (rc == 0 <==> !r.isIpv6 && sane && SlotLeft(s, r.prefix, r.plen) && !f(s.hw.clock))
    ensures RouteDeleteResult(s, f, r).rc
         == if r.isIpv6 then -ENOTSUP else if 0 <= r.plen <= 32 then 0 else -EINVAL
  {
    hide Entry, DefipWords;
  }

  // A host is a route that its own address alone hits, with its own next hop.
  lemma HostForwards(s: State, f: Faults, addr: Word, nhop: nat, x: Word)
    requires s.Shaped() && HostAddResult(s, f, addr, nhop, false).rc == 0
    ensures var s' := HostAddResult(s, f, addr, nhop, false).s;
      var slot := Find(s', addr, 32, 0);
      && slot != -1 && 1 <= nhop < 16384 && |Entry(s'.hw, L3Defip, slot)| == 8
      && NextHopIndex(Entry(s'.hw, L3Defip, slot)) == nhop
      && (Defip.Hit(Entry(s'.hw, L3Defip, slot), x) <==> x == addr)
  {
    hide Entry, Find, DefipWords, Defip.Hit, NextHopIndex;
    var c := Chain(0, [0, 0, 0, 0, 0, 0], 0, nhop, 0, [0, 0, 0, 0, 0, 0], addr, 32);
    HostReports(s, f, addr, nhop);
    hide RouteAddResult;
    RouteAdded(s, f, c);
    DefipNextHop(addr, 32, nhop);
    Defip.PackedHit(addr, 32, nhop, x);
    assert Pow2(0) == 1;
  }

  lemma HostReports(s: State, f: Faults, addr: Word, nhop: int)
    requires s.Shaped()
    ensures HostAddResult(s, f, addr, nhop, true) == Result(s, -ENOTSUP, 0)
    ensures HostAddResult(s, f, addr, nhop, false).rc == -EINVAL <==> !(1 <= nhop < 16384)
  {
    RouteReports(s, f, Route(addr, 32, nhop, false));
    hide RouteAddResult;
  }
}
