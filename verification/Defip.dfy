/** The DEFIP bookkeeping as a route map, and what the TCAM then matches. */
module Defip {
  import opened Bits
  import opened BitFields
  import opened IdMaps
  import opened Transport
  import opened L3

  // ----- One entry against one address -----

  predicate KeyBit(e: seq<Word>, b: nat)
    requires |e| == 8 && b < 44
  {
    Bit(e, 2 + b)
  }

  predicate MaskBit(e: seq<Word>, b: nat)
    requires |e| == 8 && b < 44
  {
    Bit(e, 90 + b)
  }

  // A valid TCAM entry hits when the search key agrees with it on every mask bit.
  predicate Hit(e: seq<Word>, addr: Word)
    requires |e| == 8
  {
    Bit(e, 0) && forall b: nat | b < 44 && MaskBit(e, b) :: KeyBit(e, b) == BitOf(Key(addr), b)
  }

  predicate Covers(prefix: Word, plen: nat, addr: Word)
    requires plen <= 32
  {
    Shr(prefix, 32 - plen) == Shr(addr, 32 - plen)
  }

  lemma {:induction false} OnesBits(t: nat, n: nat, i: nat)
    requires n <= t
    ensures Pow2(t) >= Pow2(n)
    ensures BitOf(Pow2(t) - Pow2(n), i) <==> n <= i < t
  {
    if n > 0 {
      OnesBits(t - 1, n - 1, if i == 0 then 0 else i - 1);
      assert (Pow2(t) - Pow2(n)) / 2 == Pow2(t - 1) - Pow2(n - 1);
    } else if t > 0 {
      OnesBits(t - 1, 0, if i == 0 then 0 else i - 1);
      assert (Pow2(t) - 1) / 2 == Pow2(t - 1) - 1;
    } else {
      ZeroBits(i);
    }
  }

  lemma IpMaskIsOnes(plen: nat)
    requires plen <= 32
    ensures IpMask(plen) == Pow2(32) - Pow2(32 - plen) < 0x1_0000_0000
  {
    Pow2Values();
    if plen > 0 {
      OnesBits(32, 32 - plen, 0);
      var p := Pow2(32 - plen);
      assert 0xffff_ffff * p == 0x1_0000_0000 * (p - 1) + (0x1_0000_0000 - p);
      DivModUnique(0xffff_ffff * p, 0x1_0000_0000, p - 1, 0x1_0000_0000 - p);
    }
  }

  lemma KeyBits(addr: Word, b: nat)
    ensures BitOf(Key(addr), b) == (b > 0 && BitOf(addr, b - 1))
  {
    if b > 0 {
      assert Key(addr) / 2 == addr;
    }
  }

  // The mask covers the mode bit, the top plen address bits and the VRF.
  lemma KeyMaskBits(plen: nat, b: nat)
    requires plen <= 32 && b < 44
    ensures BitOf(KeyMask(plen), b) <==> b == 0 || 33 - plen <= b < 43
  {
    hide IpMask, Pow2;
    IpMaskIsOnes(plen);
    if b > 0 {
      assert KeyMask(plen) / 2 == 0x3ff * 0x1_0000_0000 + IpMask(plen);
      VrfOverAddress(IpMask(plen), b - 1);
      if b - 1 < 32 {
        OnesBits(32, 32 - plen, b - 1);
      }
    }
  }

  lemma VrfOverAddress(low: Word, i: nat)
    requires i < 43
    ensures BitOf(0x3ff * 0x1_0000_0000 + low, i) == if i < 32 then BitOf(low, i) else i < 42
  {
    Pow2Values();
    JoinBits(low, 0x3ff, 32, i);
    if i >= 32 {
      assert 0x3ff == Pow2(10) - Pow2(0) by { Pow2Widths(); }
      OnesBits(10, 0, i - 32);
    }
  }

  predicate Agree(x: Word, y: Word, i: nat) {
    BitOf(x, i) == BitOf(y, i)
  }

  predicate EntryBits(e: seq<Word>, prefix: Word, plen: nat, b: nat)
    requires |e| == 8 && plen <= 32 && b < 44
  {
    && (MaskBit(e, b) <==> b == 0 || 33 - plen <= b < 43)
    && (KeyBit(e, b) <==> b > 0 && BitOf(prefix, b - 1))
  }

  lemma PackedBits(prefix: Word, plen: nat, nhop: nat, b: nat)
    requires plen <= 32 && b < 44
    ensures EntryBits(DefipWords(prefix, plen, nhop), prefix, plen, b)
  {
    hide Bit, DefipWords, Key, KeyMask, BitOf;
    DefipBits(prefix, plen, nhop, 90 + b);
    DefipBits(prefix, plen, nhop, 2 + b);
    KeyMaskBits(plen, b);
    KeyBits(prefix, b);
  }

  lemma HitIsAgreement(e: seq<Word>, prefix: Word, plen: nat, addr: Word)
    requires |e| == 8 && plen <= 32 && Bit(e, 0)
    requires forall b: nat | b < 44 :: EntryBits(e, prefix, plen, b)
    ensures Hit(e, addr) <==> forall i: nat | 32 - plen <= i < 32 :: Agree(prefix, addr, i)
  {
    hide MaskBit, KeyBit, BitOf, Key;
    if Hit(e, addr) {
      forall i: nat | 32 - plen <= i < 32 ensures Agree(prefix, addr, i) {
        assert EntryBits(e, prefix, plen, i + 1);
        assert MaskBit(e, i + 1);
        KeyBits(addr, i + 1);
      }
    }
    if forall i: nat | 32 - plen <= i < 32 :: Agree(prefix, addr, i) {
      forall b: nat | b < 44 && MaskBit(e, b) ensures KeyBit(e, b) == BitOf(Key(addr), b) {
        assert EntryBits(e, prefix, plen, b);
        KeyBits(addr, b);
        if 0 < b <= 32 {
          assert Agree(prefix, addr, b - 1);
        } else if b > 32 {
          Pow2Values();
          HighBitsZero(prefix, 32, b - 1);
          HighBitsZero(addr, 32, b - 1);
        }
      }
    }
  }

  lemma AgreementIsCovering(prefix: Word, plen: nat, addr: Word)
    requires plen <= 32
    ensures (forall i: nat | 32 - plen <= i < 32 :: Agree(prefix, addr, i)) <==> Covers(prefix, plen, addr)
  {
    var s := 32 - plen;
    if forall i: nat | s <= i < 32 :: Agree(prefix, addr, i) {
      assert forall i: nat | s <= i < 32 :: Agree(prefix, addr, i) && BitOf(prefix, i) == BitOf(addr, i);
      Pow2Values();
      HighBitsDetermine(prefix, addr, s, 32);
    }
    if Covers(prefix, plen, addr) {
      forall i: nat | s <= i < 32 ensures Agree(prefix, addr, i) {
        ShrAdd(prefix, s, i - s);
        ShrAdd(addr, s, i - s);
      }
    }
  }

  // A packed entry hits exactly the addresses under its prefix.
  lemma PackedHit(prefix: Word, plen: nat, nhop: nat, addr: Word)
    requires plen <= 32
    ensures Hit(DefipWords(prefix, plen, nhop), addr) <==> Covers(prefix, plen, addr)
  {
    hide Bit, DefipWords, EntryBits, Hit, Covers, Agree;
    var e := DefipWords(prefix, plen, nhop);
    DefipBits(prefix, plen, nhop, 0);
    forall b: nat | b < 44 ensures EntryBits(e, prefix, plen, b) {
      PackedBits(prefix, plen, nhop, b);
    }
    HitIsAgreement(e, prefix, plen, addr);
    AgreementIsCovering(prefix, plen, addr);
  }

  // Every bit of a packed entry: VALID, the prefix from bit 3 on, mask bits for the mode, the top
  // plen address bits and the VRF, and the next hop.
  lemma EntryLayout(prefix: Word, plen: nat, nhop: nat, k: nat)
    requires plen <= 32 && k < 256
    ensures Bit(DefipWords(prefix, plen, nhop), k)
         == if 3 <= k < 35 then BitOf(prefix, k - 3)
            else if 207 <= k < 221 then BitOf(nhop % 0x4000, k - 207)
            else k == 0 || k == 90 || 123 - plen <= k < 133
  {
    hide Bit, DefipWords, BitOf, Key, KeyMask;
    DefipBits(prefix, plen, nhop, k);
    if 2 <= k < 46 {
      KeyBits(prefix, k - 2);
      WordBits(prefix, k - 3);
    } else if 90 <= k < 134 {
      KeyMaskBits(plen, k - 90);
    }
  }

  lemma WordBits(w: Word, i: int)
    ensures i >= 32 ==> !BitOf(w, i)
  {
    if i >= 32 {
      Pow2Values();
      HighBitsZero(w, 32, i);
    }
  }

  // ----- The table against a map from (prefix, length) to next hop -----

  type Routes = map<(Word, nat), nat>

  function EntryAt(s: State, i: nat): seq<Word> {
    Entry(s.hw, L3Defip, i)
  }

  predicate Installed(s: State, i: nat) {
    EntryAt(s, i) != Zeros(8)
  }

  predicate SlotOk(s: State, m: Routes, i: nat)
    requires s.Shaped() && i < MAX_DEFIP
  {
    if !s.defipUsed[i] then !Installed(s, i)
    else
      var key := (s.defipPrefix[i], s.defipPlen[i]);
      && key.1 <= 32
      && (Installed(s, i) <==> key in m)
      && (key in m ==> 0 < m[key] < MAX_NHOP && EntryAt(s, i) == DefipWords(key.0, key.1, m[key]))
  }

  // Used slots have distinct keys, unused slots hold nothing, and each used slot holds either
  // nothing or its own key with the next hop the map gives it.
  ghost predicate Represents(s: State, m: Routes)
    requires s.Shaped()
  {
    && (forall i: nat, j: nat | i < j < MAX_DEFIP && s.defipUsed[i] && s.defipUsed[j] ::
          !(s.defipPrefix[i] == s.defipPrefix[j] && s.defipPlen[i] == s.defipPlen[j]))
    && (forall i: nat | i < MAX_DEFIP :: SlotOk(s, m, i))
    && (forall k | k in m :: Find(s, k.0, k.1, 0) != -1)
  }

  lemma InstalledOrEmpty(prefix: Word, plen: nat, nhop: nat)
    requires plen <= 32
    ensures DefipWords(prefix, plen, nhop) != Zeros(8)
  {
    hide DefipWords;
    DefipBits(prefix, plen, nhop, 0);
    ZeroBit(8, 0);
  }

  // What a valid add that got slot idx does, and what it means for every other slot.
  lemma OtherKeys(s: State, m: Routes, prefix: Word, plen: nat, idx: nat, j: nat)
    requires s.Shaped() && Represents(s, m)
    requires idx == Slot(s, prefix, plen) && j < MAX_DEFIP && j != idx
    ensures !s.HasKey(j, prefix, plen)
  {
    hide SlotOk;
  }

  lemma ClaimedSlotOk(s: State, m: Routes, hw: Hw, prefix: Word, plen: nat, nhop: nat, idx: nat, ok: bool)
    requires s.Shaped() && Represents(s, m) && plen <= 32 && 0 < nhop < MAX_NHOP
    requires idx == Slot(s, prefix, plen) && idx < MAX_DEFIP
    requires Entry(hw, L3Defip, idx) == if ok then DefipWords(prefix, plen, nhop) else Entry(s.hw, L3Defip, idx)
    ensures SlotOk(Claim(s, idx, prefix, plen).(hw := hw), if ok then m[(prefix, plen) := nhop] else m, idx)
  {
    hide DefipWords, Entry;
    InstalledOrEmpty(prefix, plen, nhop);
    assert SlotOk(s, m, idx);
  }

  lemma ClaimRepresents(s: State, m: Routes, hw: Hw, prefix: Word, plen: nat, nhop: nat, idx: nat, ok: bool)
    requires s.Shaped() && Represents(s, m) && plen <= 32 && 0 < nhop < MAX_NHOP
    requires idx == Slot(s, prefix, plen) && idx < MAX_DEFIP
    requires Entry(hw, L3Defip, idx) == if ok then DefipWords(prefix, plen, nhop) else Entry(s.hw, L3Defip, idx)
    requires forall i: nat | i != idx :: Entry(hw, L3Defip, i) == Entry(s.hw, L3Defip, i)
    ensures Represents(Claim(s, idx, prefix, plen).(hw := hw), if ok then m[(prefix, plen) := nhop] else m)
  {
    hide DefipWords, Entry, Slot, Find;
    var s', m' := Claim(s, idx, prefix, plen).(hw := hw), if ok then m[(prefix, plen) := nhop] else m;
    ClaimedSlotOk(s, m, hw, prefix, plen, nhop, idx, ok);
    forall j: nat | j < MAX_DEFIP && j != idx
      ensures SlotOk(s', m', j) && !s.HasKey(j, prefix, plen)
    {
      OtherKeys(s, m, prefix, plen, idx, j);
      assert SlotOk(s, m, j);
    }
    forall i: nat, j: nat | i < j < MAX_DEFIP && s'.defipUsed[i] && s'.defipUsed[j]
      ensures !(s'.defipPrefix[i] == s'.defipPrefix[j] && s'.defipPlen[i] == s'.defipPlen[j])
    {
      assert i != idx ==> !s.HasKey(i, prefix, plen);
      assert j != idx ==> !s.HasKey(j, prefix, plen);
    }
    forall k | k in m' ensures Find(s', k.0, k.1, 0) != -1 {
      if k == (prefix, plen) {
        assert s'.HasKey(idx, prefix, plen);
      } else {
        var j := Find(s, k.0, k.1, 0);
        assert s.HasKey(j, k.0, k.1);
        SlotKeepsKey(s, idx, prefix, plen, j, k.0, k.1);
        assert s'.HasKey(j, k.0, k.1);
      }
    }
  }

  lemma SlotKeepsKey(s: State, idx: nat, prefix: Word, plen: nat, j: nat, p: Word, l: nat)
    requires s.Shaped() && idx == Slot(s, prefix, plen) && j < MAX_DEFIP
    requires s.HasKey(j, p, l) && (p, l) != (prefix, plen)
    ensures j != idx
  {
  }

  // Adding a route puts its key into the map when it reports success and leaves the map alone
  // when it fails, whatever the failure.
  lemma AddRefines(s: State, m: Routes, f: Faults, r: Route)
    requires s.Shaped() && Represents(s, m)
    ensures RouteAddResult(s, f, r).rc == 0 ==> 0 <= r.plen <= 32 && 0 < r.egress < MAX_NHOP
    ensures var res := RouteAddResult(s, f, r);
      Represents(res.s, if res.rc == 0 then m[(r.prefix, r.plen) := r.egress] else m)
  {
    hide DefipWords, Entry, Write, Slot, Represents;
    if !r.isIpv6 && 0 <= r.plen <= 32 && 0 < r.egress < MAX_NHOP {
      var idx := Slot(s, r.prefix, r.plen);
      SlotRange(s, r.prefix, r.plen);
      if idx != -1 {
        var (hw, ok) := Write(s.hw, f, L3Defip, idx, DefipWords(r.prefix, r.plen, r.egress));
        ClaimRepresents(s, m, hw, r.prefix, r.plen, r.egress, idx, ok);
      }
    }
  }

  lemma SlotRange(s: State, prefix: Word, plen: int)
    requires s.Shaped()
    ensures -1 <= Slot(s, prefix, plen) < MAX_DEFIP
  {
  }

  // A retry after a failed write goes to the slot the failed call claimed and takes no other.
  lemma RetryReusesSlot(s: State, f: Faults, r: Route)
    requires s.Shaped() && RouteAddResult(s, f, r).rc == -EIO
    ensures var s' := RouteAddResult(s, f, r).s;
      && Slot(s', r.prefix, r.plen) == Slot(s, r.prefix, r.plen)
      && RouteAddResult(s', f, r).s.(hw := s'.hw) == s'
  {
    hide DefipWords, Write, Find;
    var s', idx := RouteAddResult(s, f, r).s, Slot(s, r.prefix, r.plen);
    assert s'.HasKey(idx, r.prefix, r.plen);
    assert forall j: nat | j < MAX_DEFIP && j != idx :: s'.HasKey(j, r.prefix, r.plen) == s.HasKey(j, r.prefix, r.plen);
  }

  // Deleting a route takes its key out of the map exactly when the key was not there or the
  // hardware write went through; the call reports success either way.
  lemma DeleteRefines(s: State, m: Routes, f: Faults, r: Route)
    requires s.Shaped() && Represents(s, m)
    requires !r.isIpv6 && 0 <= r.plen <= 32
    ensures RouteDeleteResult(s, f, r).rc == 0
    ensures Represents(RouteDeleteResult(s, f, r).s, m - {(r.prefix, r.plen)})
       <==> (r.prefix, r.plen) !in m || !f(s.hw.clock)
  {
    hide Write, Find, Entry, DefipWords;
    var s', key := RouteDeleteResult(s, f, r).s, (r.prefix, r.plen as nat);
    var m' := m - {key};
    var idx := Find(s, r.prefix, r.plen, 0);
    if idx == -1 {
      assert m' == m;
    } else {
      assert SlotOk(s, m, idx);
      if key in m && f(s.hw.clock) {
        assert !SlotOk(s', m', idx);
      } else {
        forall i: nat | i < MAX_DEFIP ensures SlotOk(s', m', i) {
          assert SlotOk(s, m, i);
          assert i != idx ==> !(s.HasKey(i, r.prefix, r.plen));
        }
        forall k | k in m' ensures Find(s', k.0, k.1, 0) != -1 {
          var j := Find(s, k.0, k.1, 0);
          assert s'.HasKey(j, k.0, k.1);
        }
      }
    }
  }

  // ----- Lookups -----

  // The entries of the TCAM that hit an address are exactly the installed prefixes covering it,
  // each with its own next hop.
  lemma LookupIsExact(s: State, m: Routes, addr: Word, nhop: nat)
    requires s.Shaped() && Represents(s, m)
    ensures (exists i: nat :: i < MAX_DEFIP && SlotHits(s, i, addr, nhop))
       <==> (exists k :: k in m && RouteCovers(m, k, addr, nhop))
  {
    hide Represents, SlotHits, RouteCovers, Find, SlotOk;
    if i: nat :| i < MAX_DEFIP && SlotHits(s, i, addr, nhop) {
      HitIsRoute(s, m, i, addr, nhop);
    }
    if k :| k in m && RouteCovers(m, k, addr, nhop) {
      RouteIsHit(s, m, k, addr, nhop);
    }
  }

  predicate SlotHits(s: State, i: nat, addr: Word, nhop: nat) {
    |EntryAt(s, i)| == 8 && Hit(EntryAt(s, i), addr) && NextHopIndex(EntryAt(s, i)) == nhop
  }

  predicate RouteCovers(m: Routes, k: (Word, nat), addr: Word, nhop: nat)
    requires k in m
  {
    k.1 <= 32 && Covers(k.0, k.1, addr) && m[k] == nhop
  }

  lemma HitIsRoute(s: State, m: Routes, i: nat, addr: Word, nhop: nat)
    requires s.Shaped() && Represents(s, m) && i < MAX_DEFIP && SlotHits(s, i, addr, nhop)
    ensures exists k :: k in m && RouteCovers(m, k, addr, nhop)
  {
    hide Entry, DefipWords, NextHopIndex, Covers, Find;
    var key := (s.defipPrefix[i], s.defipPlen[i]);
    assert SlotOk(s, m, i);
    ZeroBit(8, 0);
    PackedHit(key.0, key.1, m[key], addr);
    DefipNextHop(key.0, key.1, m[key]);
    assert RouteCovers(m, key, addr, nhop);
  }

  lemma RouteIsHit(s: State, m: Routes, k: (Word, nat), addr: Word, nhop: nat)
    requires s.Shaped() && Represents(s, m) && k in m && RouteCovers(m, k, addr, nhop)
    ensures exists i: nat :: i < MAX_DEFIP && SlotHits(s, i, addr, nhop)
  {
    hide Entry, DefipWords, NextHopIndex, Covers, Find, Hit;
    var i := Find(s, k.0, k.1, 0);
    assert SlotOk(s, m, i);
    PackedHit(k.0, k.1, m[k], addr);
    DefipNextHop(k.0, k.1, m[k]);
    assert SlotHits(s, i, addr, nhop);
  }

  // ----- Whole runs -----

  datatype Op = OpAdd(r: Route) | OpDelete(r: Route)

  function Apply(s: State, f: Faults, op: Op): (res: Result)
    requires s.Shaped()
    ensures res.s.Shaped()
  {
    match op
    case OpAdd(r) => RouteAddResult(s, f, r)
    case OpDelete(r) => RouteDeleteResult(s, f, r)
  }

  function MapAfter(m: Routes, op: Op, rc: int): Routes {
    match op
    case OpAdd(r) => if rc == 0 && r.plen >= 0 && r.egress >= 0 then m[(r.prefix, r.plen) := r.egress] else m
    case OpDelete(r) => if rc == 0 && r.plen >= 0 then m - {(r.prefix, r.plen)} else m
  }

  ghost function After(ops: seq<Op>, f: Faults): (s: State)
    ensures s.Shaped()
  {
    if ops == [] then Initial else Apply(After(ops[..|ops| - 1], f), f, ops[|ops| - 1]).s
  }

  ghost function RoutesAfter(ops: seq<Op>, f: Faults): Routes {
    if ops == [] then map[]
    else
      MapAfter(RoutesAfter(ops[..|ops| - 1], f), ops[|ops| - 1],
               Apply(After(ops[..|ops| - 1], f), f, ops[|ops| - 1]).rc)
  }

  // No delete of an installed route has its write fail.
  ghost predicate DeletesLand(ops: seq<Op>, f: Faults) {
    ops == [] ||
    var (before, op) := (ops[..|ops| - 1], ops[|ops| - 1]);
    && DeletesLand(before, f)
    && (op.OpDelete? && op.r.plen >= 0 && (op.r.prefix, op.r.plen) in RoutesAfter(before, f) ==>
          !f(After(before, f).hw.clock))
  }

  // Over every run of adds and deletes in which the delete writes land, whatever add writes
  // fail, the table is the map from keys to next hops that the reported results describe.
  lemma {:induction false} RunRefinesMap(ops: seq<Op>, f: Faults)
    requires DeletesLand(ops, f)
    ensures Represents(After(ops, f), RoutesAfter(ops, f))
  {
    hide RouteAddResult, RouteDeleteResult, Find, Represents;
    if ops == [] {
      InitiallyNoRoutes();
    } else {
      var before, op := ops[..|ops| - 1], ops[|ops| - 1];
      RunRefinesMap(before, f);
      var s, m := After(before, f), RoutesAfter(before, f);
      match op
      case OpAdd(r) => AddRefines(s, m, f, r);
      case OpDelete(r) =>
        if !r.isIpv6 && 0 <= r.plen <= 32 {
          DeleteRefines(s, m, f, r);
        } else {
          RejectedDelete(s, f, r);
        }
    }
  }

  lemma RejectedDelete(s: State, f: Faults, r: Route)
    requires s.Shaped() && !(!r.isIpv6 && 0 <= r.plen <= 32)
    ensures RouteDeleteResult(s, f, r).s == s && RouteDeleteResult(s, f, r).rc != 0
  {
  }

  lemma InitiallyNoRoutes()
    ensures Represents(Initial, map[])
  {
  }

  // ----- Every run, whatever deletes are lost -----

  predicate SameKey(s: State, i: nat, j: nat)
    requires s.Shaped() && i < MAX_DEFIP && j < MAX_DEFIP
  {
    s.defipUsed[i] && s.defipUsed[j] && s.defipPrefix[i] == s.defipPrefix[j] && s.defipPlen[i] == s.defipPlen[j]
  }

  ghost predicate DistinctKeys(s: State)
    requires s.Shaped()
  {
    forall i: nat, j: nat | i < j < MAX_DEFIP :: !SameKey(s, i, j)
  }

  // The route that each slot's entry was last written for; a slot cleared since, or never
  // written, has none.
  ghost function WritersAfter(ops: seq<Op>, f: Faults): map<int, Route> {
    if ops == [] then map[]
    else
      var (before, op) := (ops[..|ops| - 1], ops[|ops| - 1]);
      NextWriters(WritersAfter(before, f), After(before, f), f, op)
  }

  function NextWriters(w: map<int, Route>, s: State, f: Faults, op: Op): map<int, Route>
    requires s.Shaped()
  {
    if f(s.hw.clock) || op.r.isIpv6 || !(0 <= op.r.plen <= 32) then w
    else
      match op
      case OpAdd(r) =>
        var idx := Slot(s, r.prefix, r.plen);
        if 0 < r.egress < MAX_NHOP && idx != -1 then w[idx := r] else w
      case OpDelete(r) => w - {Find(s, r.prefix, r.plen, 0)}
  }

  predicate WrittenFor(s: State, w: map<int, Route>, i: nat) {
    && (i in w ==> 0 <= w[i].plen <= 32 && 0 < w[i].egress < MAX_NHOP)
    && EntryAt(s, i) == if i in w then DefipWords(w[i].prefix, w[i].plen, w[i].egress) else Zeros(8)
  }

  lemma AddKeepsKeys(s: State, f: Faults, r: Route)
    requires s.Shaped() && DistinctKeys(s)
    ensures DistinctKeys(RouteAddResult(s, f, r).s)
  {
    hide Write, DefipWords;
    var s' := RouteAddResult(s, f, r).s;
    SlotRange(s, r.prefix, r.plen);
    var idx := Slot(s, r.prefix, r.plen);
    forall i: nat, j: nat | i < j < MAX_DEFIP ensures !SameKey(s', i, j) {
      assert !SameKey(s, i, j);
      assert i == idx ==> !s.HasKey(j, r.prefix, r.plen);
      assert j == idx ==> !s.HasKey(i, r.prefix, r.plen);
    }
  }

  lemma DeleteKeepsKeys(s: State, f: Faults, r: Route)
    requires s.Shaped() && DistinctKeys(s)
    ensures DistinctKeys(RouteDeleteResult(s, f, r).s)
  {
    hide Write, Find;
    var s' := RouteDeleteResult(s, f, r).s;
    forall i: nat, j: nat | i < j < MAX_DEFIP ensures !SameKey(s', i, j) {
      assert !SameKey(s, i, j);
    }
  }

  lemma StepKeepsWriters(s: State, w: map<int, Route>, f: Faults, op: Op, i: nat)
    requires s.Shaped() && WrittenFor(s, w, i)
    ensures WrittenFor(Apply(s, f, op).s, NextWriters(w, s, f, op), i)
  {
    hide DefipWords, Slot, Find, Entry;
    SlotRange(s, op.r.prefix, op.r.plen);
  }

  // Over every run of adds and deletes, whatever writes fail: used slots have distinct keys, and
  // every slot, used or not, holds the entry of the last route whose write reached it, or zeros
  // once a clearing write has.
  lemma {:induction false} EveryRun(ops: seq<Op>, f: Faults)
    ensures DistinctKeys(After(ops, f))
    ensures forall i: nat :: WrittenFor(After(ops, f), WritersAfter(ops, f), i)
  {
    hide RouteAddResult, RouteDeleteResult, NextWriters, WrittenFor, DistinctKeys;
    if ops == [] {
      NothingWritten();
    } else {
      var before, op := ops[..|ops| - 1], ops[|ops| - 1];
      EveryRun(before, f);
      var (s, w) := (After(before, f), WritersAfter(before, f));
      match op {
        case OpAdd(r) => AddKeepsKeys(s, f, r);
        case OpDelete(r) => DeleteKeepsKeys(s, f, r);
      }
      forall i: nat ensures WrittenFor(After(ops, f), WritersAfter(ops, f), i) {
        StepKeepsWriters(s, w, f, op, i);
      }
    }
  }

  lemma NothingWritten()
    ensures DistinctKeys(Initial) && forall i: nat :: WrittenFor(Initial, map[], i)
  {
  }

  // So what a slot hits is settled by its last writer, also where a delete was lost.
  lemma EveryRunHits(ops: seq<Op>, f: Faults, i: nat, addr: Word, nhop: nat)
    ensures SlotHits(After(ops, f), i, addr, nhop)
       <==> var w := WritersAfter(ops, f);
            i in w && 0 <= w[i].plen <= 32 && Covers(w[i].prefix, w[i].plen, addr) && w[i].egress == nhop
  {
    hide DefipWords, After, WritersAfter, NextHopIndex, Covers, Entry;
    EveryRun(ops, f);
    var w := WritersAfter(ops, f);
    assert WrittenFor(After(ops, f), w, i);
    ZeroBit(8, 0);
    if i in w {
      PackedHit(w[i].prefix, w[i].plen, w[i].egress, addr);
      DefipNextHop(w[i].prefix, w[i].plen, w[i].egress);
    }
  }
}
