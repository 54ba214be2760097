/** ECMP groups: the contiguous member-slot allocator, the cyclic group-id allocator, and
    group creation with rollback over a transport that may fail at any write. */
module Ecmp {
  import opened Bits
  import opened BitFields
  import opened IdMaps
  import opened Transport

  const SLOTS: nat := 4096
  const GROUPS: nat := 1024
  const MAX_MEMBERS: nat := 1023

  // ----- Group ids -----

  function NextGroup(taken: seq<bool>, next: nat): int
    requires |taken| == GROUPS && 1 <= next <= GROUPS
  {
    var r := FirstFree(taken, next, GROUPS);
    if r != -1 then r else FirstFree(taken, 1, next)
  }

  // How many steps after the cursor id i comes in the cycle of ids 1..1023.
  function CyclicDistance(next: nat, i: nat): int {
    if i >= next then i - next else i - next + (GROUPS - 1)
  }

  // Allocation takes the first free id in cyclic order from the cursor, never id 0, and fails
  // exactly when ids 1..1023 are all taken.
  lemma NextGroupIsCyclicallyFirst(taken: seq<bool>, next: nat)
    requires |taken| == GROUPS && 1 <= next <= GROUPS
    ensures NextGroup(taken, next) == -1 <==> forall i | 1 <= i < GROUPS :: taken[i]
    ensures NextGroup(taken, next) != -1 ==>
      var r := NextGroup(taken, next);
      && 1 <= r < GROUPS && !taken[r]
      && forall i | 1 <= i < GROUPS && !taken[i] :: CyclicDistance(next, r) <= CyclicDistance(next, i)
  {
  }

  // ----- Member slots -----

  predicate RunFree(used: seq<bool>, base: nat, n: nat)
    requires base + n <= |used|
  {
    forall k | base <= k < base + n :: !used[k]
  }

  // The least base >= from whose whole run of n slots is free, or -1.
  function LeastFreeRun(used: seq<bool>, n: nat, from: nat): (r: int)
    ensures r == -1 ==> forall b | from <= b && b + n <= |used| :: !RunFree(used, b, n)
    ensures r != -1 ==> from <= r && r + n <= |used| && RunFree(used, r, n)
                        && forall b | from <= b < r :: !RunFree(used, b, n)
    decreases |used| - from
  {
    if from + n > |used| then -1
    else if RunFree(used, from, n) then from
    else if from < |used| then LeastFreeRun(used, n, from + 1) else -1
  }

  function FirstRun(used: seq<bool>, n: int): int {
    if n <= 0 || n > |used| then -1 else LeastFreeRun(used, n, 0)
  }

  // A used slot inside the run at base rules out every base up to that slot.
  lemma {:induction false} SkipAhead(used: seq<bool>, n: nat, base: nat, i: nat)
    requires i < n && base + n <= |used| && used[base + i]
    ensures LeastFreeRun(used, n, base) == LeastFreeRun(used, n, base + i + 1)
    decreases i
  {
    assert !RunFree(used, base, n);
    if i > 0 && base + 1 + n <= |used| {
      SkipAhead(used, n, base + 1, i - 1);
    }
  }

  function Mark(used: seq<bool>, base: nat, n: nat, value: bool): (r: seq<bool>)
    ensures |r| == |used|
    ensures forall k | 0 <= k < |used| :: r[k] == if base <= k < base + n then value else used[k]
  {
    seq(|used|, k requires 0 <= k < |used| => if base <= k < base + n then value else used[k])
  }

  function CountUsed(used: seq<bool>): nat {
    if used == [] then 0 else CountUsed(used[..|used| - 1]) + if used[|used| - 1] then 1 else 0
  }

  lemma {:induction false} MarkFreeRunCount(used: seq<bool>, base: nat, n: nat)
    requires base + n <= |used| && RunFree(used, base, n)
    ensures CountUsed(Mark(used, base, n, true)) == CountUsed(used) + n
    decreases |used|
  {
    var m := Mark(used, base, n, true);
    if |used| > 0 {
      var last := |used| - 1;
      var n' := if base + n == |used| && n > 0 then n - 1 else n;
      var base' := if n' == 0 then 0 else base;
      assert m[..last] == Mark(used[..last], base', n', true);
      MarkFreeRunCount(used[..last], base', n');
    }
  }

  // ----- Hardware entries -----

  const OIF_BITS: seq<nat> := [82, 96, 110, 124, 138, 152, 166, 180]
  const TYPE_BITS: seq<nat> := [81, 95, 109, 123, 137, 151, 165, 179]

  function MemberWord(id: int): seq<Word> {
    [id % 0x4000]
  }

  // The precomputed fast-path members 0..n-1 of a small group.
  function FastPath(ws: seq<Word>, ids: seq<int>, n: nat): (r: seq<Word>)
    requires n <= |ids| && n <= 8
    ensures |r| == |ws|
  {
    if n == 0 then ws
    else PutBit(SetField(FastPath(ws, ids, n - 1), OIF_BITS[n - 1], 13, ids[n - 1] % 0x2000), TYPE_BITS[n - 1], false)
  }

  function Descriptor(base: nat, ids: seq<int>): (r: seq<Word>)
    ensures |r| == 7
  {
    var w := PutBit(Header(base, |ids|), 196, |ids| > 8);
    if |ids| <= 8 then FastPath(w, ids, |ids|) else w
  }

  function Header(base: nat, n: nat): (r: seq<Word>)
    ensures |r| == 7
  {
    SetField(SetField(Zeros(7), 10, 12, base % 0x1000), 0, 10, n % 0x400)
  }

  function BasePtr(ws: seq<Word>): nat requires |ws| == 7 { Field(ws, 10, 12) }

  function Count(ws: seq<Word>): nat requires |ws| == 7 { Field(ws, 0, 10) }

  function FastPathMember(ws: seq<Word>, i: nat): nat requires |ws| == 7 && i < 8 { Field(ws, OIF_BITS[i], 13) }

  lemma {:induction false} FastPathBits(ws: seq<Word>, ids: seq<int>, n: nat, k: nat)
    requires n <= |ids| && n <= 8 && |ws| == 7 && k < 224
    requires k < 81 || 81 + 14 * n <= k
    ensures Bit(FastPath(ws, ids, n), k) == Bit(ws, k)
  {
    hide Bit, PutBit, SetField;
    if n > 0 {
      var w := FastPath(ws, ids, n - 1);
      var w' := SetField(w, OIF_BITS[n - 1], 13, ids[n - 1] % 0x2000);
      FastPathBits(ws, ids, n - 1, k);
      SetFieldBits(w, OIF_BITS[n - 1], 13, ids[n - 1] % 0x2000, k);
      PutBitBits(w', TYPE_BITS[n - 1], false, k);
    }
  }

  lemma FastPathLayout(i: nat)
    requires i < 8
    ensures OIF_BITS[i] == 82 + 14 * i && TYPE_BITS[i] == 81 + 14 * i
  {
  }

  lemma FastPathNewest(ws: seq<Word>, ids: seq<int>, n: nat)
    requires 0 < n <= |ids| && n <= 8 && |ws| == 7
    ensures FastPathMember(FastPath(ws, ids, n), n - 1) == ids[n - 1] % 0x2000
    ensures !Bit(FastPath(ws, ids, n), TYPE_BITS[n - 1])
  {
    FastPathLayout(n - 1);
    var o, t, v := OIF_BITS[n - 1], TYPE_BITS[n - 1], ids[n - 1] % 0x2000;
    var w := FastPath(ws, ids, n - 1);
    var w' := SetField(w, o, 13, v);
    Pow2Widths();
    FieldHolds(w, o, 13, v);
    PutBitBits(w', t, false, t);
    forall k: nat | o <= k < o + 13 ensures Bit(PutBit(w', t, false), k) == Bit(w', k) {
      PutBitBits(w', t, false, k);
    }
    FieldFrame(PutBit(w', t, false), w', o, 13);
  }

  lemma FastPathOlder(ws: seq<Word>, ids: seq<int>, n: nat, k: nat)
    requires 0 < n <= |ids| && n <= 8 && |ws| == 7 && k < 67 + 14 * n
    ensures Bit(FastPath(ws, ids, n), k) == Bit(FastPath(ws, ids, n - 1), k)
  {
    FastPathLayout(n - 1);
    var w := FastPath(ws, ids, n - 1);
    SetFieldBits(w, OIF_BITS[n - 1], 13, ids[n - 1] % 0x2000, k);
    PutBitBits(SetField(w, OIF_BITS[n - 1], 13, ids[n - 1] % 0x2000), TYPE_BITS[n - 1], false, k);
  }

  lemma {:induction false} FastPathDecodes(ws: seq<Word>, ids: seq<int>, n: nat, i: nat)
    requires i < n <= |ids| && n <= 8 && |ws| == 7
    ensures FastPathMember(FastPath(ws, ids, n), i) == ids[i] % 0x2000
    ensures !Bit(FastPath(ws, ids, n), TYPE_BITS[i])
  {
    hide PutBit, SetField, Field;
    FastPathLayout(i);
    if i == n - 1 {
      FastPathNewest(ws, ids, n);
    } else {
      FastPathDecodes(ws, ids, n - 1, i);
      forall k: nat | TYPE_BITS[i] <= k < OIF_BITS[i] + 13
        ensures Bit(FastPath(ws, ids, n), k) == Bit(FastPath(ws, ids, n - 1), k)
      {
        FastPathOlder(ws, ids, n, k);
      }
      FieldFrame(FastPath(ws, ids, n), FastPath(ws, ids, n - 1), OIF_BITS[i], 13);
    }
  }

  lemma HeaderDecodes(base: nat, n: nat)
    ensures BasePtr(Header(base, n)) == base % 0x1000 && Count(Header(base, n)) == n % 0x400
  {
    Pow2Widths();
    TwoFieldsHold(Zeros(7), 10, 12, base % 0x1000, 0, 10, n % 0x400);
  }

  lemma HeaderBits(base: nat, n: nat, k: nat)
    requires k < 224
    ensures Bit(Header(base, n), k)
         == if k < 10 then BitOf(n % 0x400, k) else if k < 22 then BitOf(base % 0x1000, k - 10) else false
  {
    hide Bit, SetField, BitOf;
    SetFieldBits(SetField(Zeros(7), 10, 12, base % 0x1000), 0, 10, n % 0x400, k);
    SetFieldBits(Zeros(7), 10, 12, base % 0x1000, k);
    assert !Bit(Zeros(7), k) by { ZeroBitIn(k); }
  }

  lemma ZeroBitIn(k: nat)
    requires k < 224
    ensures !Bit(Zeros(7), k)
  {
    ZeroBits(k % 32);
  }

  // Member ids of up to 14 bits are stored whole.
  lemma MemberStored(id: int)
    ensures MemberWord(id) == [id] <==> 0 <= id < 16384
  {
  }

  // Outside the fast path a descriptor is its header and the more-than-eight flag.
  lemma DescriptorBits(base: nat, ids: seq<int>, k: nat)
    requires k < 81 || 193 <= k < 224
    ensures Bit(Descriptor(base, ids), k) == if k == 196 then |ids| > 8 else Bit(Header(base, |ids|), k)
    ensures 22 <= k && k != 196 ==> !Bit(Descriptor(base, ids), k)
  {
    HeaderBits(base, |ids|, k);
    PutBitBits(Header(base, |ids|), 196, |ids| > 8, k);
    if |ids| <= 8 {
      FastPathBits(PutBit(Header(base, |ids|), 196, |ids| > 8), ids, |ids|, k);
    }
  }

  lemma DescriptorHeader(base: nat, ids: seq<int>)
    ensures BasePtr(Descriptor(base, ids)) == BasePtr(Header(base, |ids|))
    ensures Count(Descriptor(base, ids)) == Count(Header(base, |ids|))
  {
    forall k: nat | k < 22 ensures Bit(Descriptor(base, ids), k) == Bit(Header(base, |ids|), k) {
      DescriptorBits(base, ids, k);
    }
    FieldFrame(Descriptor(base, ids), Header(base, |ids|), 10, 12);
    FieldFrame(Descriptor(base, ids), Header(base, |ids|), 0, 10);
  }

  lemma DescriptorMember(base: nat, ids: seq<int>, i: nat)
    requires i < |ids| <= 8
    ensures FastPathMember(Descriptor(base, ids), i) == ids[i] % 0x2000 == MemberWord(ids[i])[0] % 0x2000
  {
    hide Field, Header, PutBit;
    FastPathDecodes(PutBit(Header(base, |ids|), 196, |ids| > 8), ids, |ids|, i);
  }

  // A descriptor decodes to its run, says whether there are more than eight members, and for
  // small groups carries every member id cut to 13 bits.
  lemma DescriptorDecodes(base: nat, ids: seq<int>)
    requires base < SLOTS && |ids| <= MAX_MEMBERS
    ensures BasePtr(Descriptor(base, ids)) == base
    ensures Count(Descriptor(base, ids)) == |ids|
    ensures Bit(Descriptor(base, ids), 196) <==> |ids| > 8
    ensures |ids| <= 8 ==> forall i: nat | i < |ids| ::
              FastPathMember(Descriptor(base, ids), i) == ids[i] % 0x2000 == MemberWord(ids[i])[0] % 0x2000
  {
    hide Descriptor, Header, Field, Bit;
    HeaderDecodes(base, |ids|);
    DescriptorHeader(base, ids);
    DescriptorBits(base, ids, 196);
    if |ids| <= 8 {
      forall i: nat | i < |ids|
        ensures FastPathMember(Descriptor(base, ids), i) == ids[i] % 0x2000 == MemberWord(ids[i])[0] % 0x2000
      {
        DescriptorMember(base, ids, i);
      }
    }
  }

  // ----- The table manager's state and operations -----

  datatype State = State(used: seq<bool>, groupUsed: seq<bool>, next: nat, hw: Hw) {
    predicate Shaped() {
      |used| == SLOTS && |groupUsed| == GROUPS && 1 <= next <= GROUPS
    }
  }

  const Initial := State(Unused(SLOTS), Unused(GROUPS), 1, BlankHw)

  // Member-table writes for ids[i..], stopping at the first failure.
  function WriteMembers(hw: Hw, f: Faults, base: nat, ids: seq<int>, i: nat): (Hw, bool)
    requires i <= |ids|
    decreases |ids| - i
  {
    if i == |ids| then (hw, true)
    else
      var (hw', ok) := Write(hw, f, L3Ecmp, base + i, MemberWord(ids[i]));
      if ok then WriteMembers(hw', f, base, ids, i + 1) else (hw', false)
  }

  lemma {:induction false} WriteMembersFrame(hw: Hw, f: Faults, base: nat, ids: seq<int>, i: nat, t: Table, k: nat)
    requires i <= |ids| && (t != L3Ecmp || k < base + i || base + |ids| <= k)
    ensures Entry(WriteMembers(hw, f, base, ids, i).0, t, k) == Entry(hw, t, k)
    decreases |ids| - i
  {
    hide Write, Entry;
    if i < |ids| {
      var (hw1, ok) := Write(hw, f, L3Ecmp, base + i, MemberWord(ids[i]));
      if ok {
        WriteMembersFrame(hw1, f, base, ids, i + 1, t, k);
      }
    }
  }

  lemma {:induction false} WriteMembersHeld(hw: Hw, f: Faults, base: nat, ids: seq<int>, i: nat, k: nat)
    requires i <= k < |ids| && WriteMembers(hw, f, base, ids, i).1
    ensures Entry(WriteMembers(hw, f, base, ids, i).0, L3Ecmp, base + k) == MemberWord(ids[k])
    decreases |ids| - i
  {
    hide Write, Entry;
    var hw1 := Write(hw, f, L3Ecmp, base + i, MemberWord(ids[i])).0;
    if k == i {
      WriteMembersFrame(hw1, f, base, ids, i + 1, L3Ecmp, base + k);
    } else {
      WriteMembersHeld(hw1, f, base, ids, i + 1, k);
    }
  }

  datatype Outcome = Outcome(s: State, rc: int, id: int)

  function CreateResult(s: State, f: Faults, ids: seq<int>): (o: Outcome)
    requires s.Shaped()
    ensures o.s.Shaped()
  {
    if |ids| == 0 || |ids| > MAX_MEMBERS then Outcome(s, -EINVAL, 0)
    else
      var g := NextGroup(s.groupUsed, s.next);
      if g == -1 then Outcome(s, -ENOSPC, 0)
      else
        var s1 := s.(groupUsed := s.groupUsed[g := true], next := g + 1);
        var base := FirstRun(s.used, |ids|);
        if base == -1 then Outcome(s1.(groupUsed := s1.groupUsed[g := false]), -ENOSPC, 0)
        else
          var s2 := s1.(used := Mark(s.used, base, |ids|, true));
          var (hw1, written) := WriteMembers(s.hw, f, base, ids, 0);
          if !written then Outcome(Undo(s2.(hw := hw1), g, base, |ids|), -EIO, 0)
          else
            var (hw2, ok) := Write(hw1, f, L3EcmpGroup, g, Descriptor(base, ids));
            if !ok then Outcome(Undo(s2.(hw := hw2), g, base, |ids|), -EIO, 0)
            else Outcome(s2.(hw := hw2), 0, g)
  }

  function Undo(s: State, g: nat, base: nat, n: nat): State
    requires g < |s.groupUsed|
  {
    s.(used := Mark(s.used, base, n, false), groupUsed := s.groupUsed[g := false])
  }

  function DestroyResult(s: State, f: Faults, id: int): (o: Outcome)
    requires s.Shaped()
    ensures o.s.Shaped()
  {
    if id <= 0 || id >= GROUPS then Outcome(s, -EINVAL, 0)
    else
      var hw' := Write(s.hw, f, L3EcmpGroup, id, Zeros(7)).0;
      Outcome(s.(hw := hw', groupUsed := s.groupUsed[id := false]), 0, 0)
  }

  // A failed create gives back everything it took; only the id cursor and unused member
  // entries may differ.
  lemma FailedCreateRestores(s: State, f: Faults, ids: seq<int>)
    requires s.Shaped() && CreateResult(s, f, ids).rc != 0
    ensures var s' := CreateResult(s, f, ids).s;
      && s'.used == s.used && s'.groupUsed == s.groupUsed
      && (forall t, k: nat | t != L3Ecmp :: Entry(s'.hw, t, k) == Entry(s.hw, t, k))
      && (forall k: nat | k < SLOTS && s.used[k] :: Entry(s'.hw, L3Ecmp, k) == Entry(s.hw, L3Ecmp, k))
  {
    hide Descriptor, WriteMembers;
    var g, base := NextGroup(s.groupUsed, s.next), FirstRun(s.used, |ids|);
    if 0 < |ids| <= MAX_MEMBERS && g != -1 {
      assert s.groupUsed[g := true][g := false] == s.groupUsed;
      if base != -1 {
        assert Mark(Mark(s.used, base, |ids|, true), base, |ids|, false) == s.used;
        forall t, k: nat | t != L3Ecmp || k < base || base + |ids| <= k
          ensures Entry(WriteMembers(s.hw, f, base, ids, 0).0, t, k) == Entry(s.hw, t, k)
        {
          WriteMembersFrame(s.hw, f, base, ids, 0, t, k);
        }
      }
    }
  }

  // ----- Runs of operations -----

  datatype Op = OpCreate(ids: seq<int>) | OpDestroy(id: int)

  function Apply(s: State, f: Faults, op: Op): (o: Outcome)
    requires s.Shaped()
    ensures o.s.Shaped()
  {
    match op
    case OpCreate(ids) => CreateResult(s, f, ids)
    case OpDestroy(id) => DestroyResult(s, f, id)
  }

  ghost function After(ops: seq<Op>, f: Faults): (s: State)
    ensures s.Shaped()
  {
    if ops == [] then Initial else Apply(After(ops[..|ops| - 1], f), f, ops[|ops| - 1]).s
  }

  // What a run has put in the tables: every run of slots ever given to a group, and for each
  // group id whose descriptor is still in the hardware, which of those runs it names.
  datatype Run = Run(base: nat, ids: seq<int>)

  datatype History = History(runs: seq<Run>, owner: map<nat, nat>)

  function Record(h: History, s: State, f: Faults, op: Op): History
    requires s.Shaped()
  {
    match op
    case OpCreate(ids) =>
      if CreateResult(s, f, ids).rc != 0 then h
      else History(h.runs + [Run(FirstRun(s.used, |ids|), ids)], h.owner[CreateResult(s, f, ids).id := |h.runs|])
    case OpDestroy(id) =>
      if id <= 0 || id >= GROUPS || f(s.hw.clock) then h else h.(owner := h.owner - {id})
  }

  ghost function HistoryOf(ops: seq<Op>, f: Faults): History {
    if ops == [] then History([], map[])
    else Record(HistoryOf(ops[..|ops| - 1], f), After(ops[..|ops| - 1], f), f, ops[|ops| - 1])
  }

  function TotalMembers(runs: seq<Run>): nat {
    if runs == [] then 0 else TotalMembers(runs[..|runs| - 1]) + |runs[|runs| - 1].ids|
  }

  predicate RunHeld(s: State, r: Run)
    requires s.Shaped()
  {
    && 1 <= |r.ids| <= MAX_MEMBERS && r.base + |r.ids| <= SLOTS
    && forall k: nat | r.base <= k < r.base + |r.ids| ::
         s.used[k] && Entry(s.hw, L3Ecmp, k) == MemberWord(r.ids[k - r.base])
  }

  predicate Apart(r: Run, r': Run) {
    r.base + |r.ids| <= r'.base || r'.base + |r'.ids| <= r.base
  }

  predicate DescriptorOwned(s: State, h: History, g: nat)
    requires s.Shaped()
  {
    if g in h.owner then
      h.owner[g] < |h.runs|
      && Entry(s.hw, L3EcmpGroup, g) == Descriptor(h.runs[h.owner[g]].base, h.runs[h.owner[g]].ids)
    else Entry(s.hw, L3EcmpGroup, g) == Zeros(7)
  }

  predicate OwnersBounded(h: History) {
    forall g | g in h.owner :: g < GROUPS && h.owner[g] < |h.runs|
  }

  ghost predicate Inv(s: State, h: History)
    requires s.Shaped()
  {
    && (forall r | r in h.runs :: RunHeld(s, r))
    && (forall i, j | 0 <= i < j < |h.runs| :: Apart(h.runs[i], h.runs[j]))
    && (forall g: nat | g < GROUPS :: DescriptorOwned(s, h, g))
    && (forall g: nat, g': nat | g in h.owner && g' in h.owner && g != g' :: h.owner[g] != h.owner[g'])
    && OwnersBounded(h)
    && CountUsed(s.used) == TotalMembers(h.runs)
  }

  lemma {:induction false} NoneUsed(n: nat)
    ensures CountUsed(Unused(n)) == 0
  {
    if n > 0 {
      assert Unused(n)[..n - 1] == Unused(n - 1);
      NoneUsed(n - 1);
    }
  }

  lemma RunStaysHeld(s: State, s': State, r: Run)
    requires s.Shaped() && s'.Shaped() && RunHeld(s, r)
    requires forall k: nat | k < SLOTS && s.used[k] :: s'.used[k] && Entry(s'.hw, L3Ecmp, k) == Entry(s.hw, L3Ecmp, k)
    ensures RunHeld(s', r)
  {
  }

  lemma HeldIsApartFromFree(s: State, q: Run, r: Run)
    requires s.Shaped() && RunHeld(s, q)
    requires r.base + |r.ids| <= SLOTS && RunFree(s.used, r.base, |r.ids|) && |r.ids| > 0
    ensures Apart(q, r)
  {
    assert s.used[q.base];
    assert !s.used[r.base];
  }

  lemma FailedCreateKeepsInv(s: State, h: History, f: Faults, ids: seq<int>)
    requires s.Shaped() && Inv(s, h) && CreateResult(s, f, ids).rc != 0
    ensures Inv(CreateResult(s, f, ids).s, h)
  {
    hide Descriptor, CreateResult, Entry, CountUsed;
    var s' := CreateResult(s, f, ids).s;
    FailedCreateRestores(s, f, ids);
    forall r | r in h.runs ensures RunHeld(s', r) {
      RunStaysHeld(s, s', r);
    }
    forall g: nat | g < GROUPS ensures DescriptorOwned(s', h, g) {
      assert DescriptorOwned(s, h, g);
    }
  }

  // What a successful create allocates.
  lemma CreateChoices(s: State, f: Faults, ids: seq<int>)
    requires s.Shaped() && CreateResult(s, f, ids).rc == 0
    ensures var (s', g, base) := (CreateResult(s, f, ids).s, CreateResult(s, f, ids).id, FirstRun(s.used, |ids|));
      && 1 <= g < GROUPS && g == NextGroup(s.groupUsed, s.next) && 1 <= |ids| <= MAX_MEMBERS
      && 0 <= base && base + |ids| <= SLOTS && RunFree(s.used, base, |ids|)
      && s'.used == Mark(s.used, base, |ids|, true)
      && WriteMembers(s.hw, f, base, ids, 0).1
      && s'.hw == Write(WriteMembers(s.hw, f, base, ids, 0).0, f, L3EcmpGroup, g, Descriptor(base, ids)).0
      && !f(WriteMembers(s.hw, f, base, ids, 0).0.clock)
  {
    hide Descriptor, Entry, WriteMembers;
  }

  // What it writes.
  lemma CreateEntries(s: State, f: Faults, ids: seq<int>, g: nat, base: nat)
    requires s.Shaped() && CreateResult(s, f, ids).rc == 0
    requires g == CreateResult(s, f, ids).id && base == FirstRun(s.used, |ids|)
    ensures var hw := CreateResult(s, f, ids).s.hw;
      && Entry(hw, L3EcmpGroup, g) == Descriptor(base, ids)
      && (forall k: nat | k != g :: Entry(hw, L3EcmpGroup, k) == Entry(s.hw, L3EcmpGroup, k))
      && (forall k: nat | base <= k < base + |ids| :: Entry(hw, L3Ecmp, k) == MemberWord(ids[k - base]))
      && (forall k: nat | k < base || base + |ids| <= k :: Entry(hw, L3Ecmp, k) == Entry(s.hw, L3Ecmp, k))
  {
    hide Write, Entry, Descriptor, WriteMembers, CreateResult;
    CreateChoices(s, f, ids);
    var hw1 := WriteMembers(s.hw, f, base, ids, 0).0;
    forall k: nat ensures Entry(hw1, L3EcmpGroup, k) == Entry(s.hw, L3EcmpGroup, k) {
      WriteMembersFrame(s.hw, f, base, ids, 0, L3EcmpGroup, k);
    }
    forall k: nat | k < base || base + |ids| <= k ensures Entry(hw1, L3Ecmp, k) == Entry(s.hw, L3Ecmp, k) {
      WriteMembersFrame(s.hw, f, base, ids, 0, L3Ecmp, k);
    }
    forall k: nat | base <= k < base + |ids| ensures Entry(hw1, L3Ecmp, k) == MemberWord(ids[k - base]) {
      WriteMembersHeld(s.hw, f, base, ids, 0, k - base);
    }
  }

  lemma RunAppended(s: State, s': State, h: History, h': History, r: Run, g: nat)
    requires s.Shaped() && s'.Shaped() && Inv(s, h) && g < GROUPS
    requires h' == History(h.runs + [r], h.owner[g := |h.runs|])
    requires 0 < |r.ids| && r.base + |r.ids| <= SLOTS && RunFree(s.used, r.base, |r.ids|) && RunHeld(s', r)
    requires forall k: nat | k < SLOTS && s.used[k] :: s'.used[k] && Entry(s'.hw, L3Ecmp, k) == Entry(s.hw, L3Ecmp, k)
    requires Entry(s'.hw, L3EcmpGroup, g) == Descriptor(r.base, r.ids)
    requires forall k: nat | k != g :: Entry(s'.hw, L3EcmpGroup, k) == Entry(s.hw, L3EcmpGroup, k)
    requires CountUsed(s'.used) == CountUsed(s.used) + |r.ids|
    ensures Inv(s', h')
  {
    hide Descriptor, Entry, CountUsed, RunFree;
    assert h'.runs[..|h.runs|] == h.runs;
    forall q | q in h.runs ensures RunHeld(s', q) && Apart(q, r) {
      RunStaysHeld(s, s', q);
      HeldIsApartFromFree(s, q, r);
    }
    forall k: nat | k < GROUPS ensures DescriptorOwned(s', h', k) {
      assert DescriptorOwned(s, h, k);
    }
  }

  lemma CreateKeepsInv(s: State, h: History, f: Faults, ids: seq<int>)
    requires s.Shaped() && Inv(s, h) && CreateResult(s, f, ids).rc == 0
    ensures Inv(CreateResult(s, f, ids).s, Record(h, s, f, OpCreate(ids)))
  {
    hide Descriptor, Write, Entry, WriteMembers, CreateResult, Inv;
    var base, g := FirstRun(s.used, |ids|), CreateResult(s, f, ids).id;
    CreateChoices(s, f, ids);
    CreateEntries(s, f, ids, g, base);
    MarkFreeRunCount(s.used, base, |ids|);
    RunAppended(s, CreateResult(s, f, ids).s, h, Record(h, s, f, OpCreate(ids)), Run(base, ids), g);
  }

  lemma DestroyKeepsInv(s: State, h: History, f: Faults, id: int)
    requires s.Shaped() && Inv(s, h)
    ensures Inv(DestroyResult(s, f, id).s, Record(h, s, f, OpDestroy(id)))
  {
    hide Write, Entry, Descriptor, CountUsed;
    var s', h' := DestroyResult(s, f, id).s, Record(h, s, f, OpDestroy(id));
    forall r | r in h.runs ensures RunHeld(s', r) {
      RunStaysHeld(s, s', r);
    }
    forall g: nat | g < GROUPS ensures DescriptorOwned(s', h', g) {
      assert DescriptorOwned(s, h, g);
    }
  }

  // In every state reachable by creates and destroys, whatever writes fail, the tables agree
  // with the history of the run.
  lemma {:induction false} ReachableInv(ops: seq<Op>, f: Faults)
    ensures Inv(After(ops, f), HistoryOf(ops, f))
  {
    if ops == [] {
      NoneUsed(SLOTS);
    } else {
      var s, h, op := After(ops[..|ops| - 1], f), HistoryOf(ops[..|ops| - 1], f), ops[|ops| - 1];
      ReachableInv(ops[..|ops| - 1], f);
      match op
      case OpCreate(ids) =>
        if CreateResult(s, f, ids).rc == 0 {
          CreateKeepsInv(s, h, f, ids);
        } else {
          FailedCreateKeepsInv(s, h, f, ids);
        }
      case OpDestroy(id) => DestroyKeepsInv(s, h, f, id);
    }
  }

  // Each descriptor that is not all zero names a run of used slots holding the member ids that
  // its own create was given.
  lemma DescriptorNamesOwnRun(ops: seq<Op>, f: Faults, g: nat)
    requires g < GROUPS && Entry(After(ops, f).hw, L3EcmpGroup, g) != Zeros(7)
    ensures var (s, h) := (After(ops, f), HistoryOf(ops, f));
      && g in h.owner && h.owner[g] < |h.runs| && RunHeld(s, h.runs[h.owner[g]])
      && Entry(s.hw, L3EcmpGroup, g) == Descriptor(h.runs[h.owner[g]].base, h.runs[h.owner[g]].ids)
      && BasePtr(Entry(s.hw, L3EcmpGroup, g)) == h.runs[h.owner[g]].base
      && Count(Entry(s.hw, L3EcmpGroup, g)) == |h.runs[h.owner[g]].ids|
  {
    hide Descriptor, Entry, CountUsed, After, HistoryOf, BasePtr, Count;
    var s, h := After(ops, f), HistoryOf(ops, f);
    ReachableInv(ops, f);
    assert DescriptorOwned(s, h, g);
    assert RunHeld(s, h.runs[h.owner[g]]);
    DescriptorDecodes(h.runs[h.owner[g]].base, h.runs[h.owner[g]].ids);
  }

  // The slot runs named by two descriptors never meet, stale descriptors included.
  lemma DescriptorsNameDisjointRuns(ops: seq<Op>, f: Faults, g: nat, g': nat)
    requires g < GROUPS && g' < GROUPS && g != g'
    requires Entry(After(ops, f).hw, L3EcmpGroup, g) != Zeros(7)
    requires Entry(After(ops, f).hw, L3EcmpGroup, g') != Zeros(7)
    ensures var d, d' := Entry(After(ops, f).hw, L3EcmpGroup, g), Entry(After(ops, f).hw, L3EcmpGroup, g');
      && |d| == 7 && |d'| == 7
      && (BasePtr(d) + Count(d) <= BasePtr(d') || BasePtr(d') + Count(d') <= BasePtr(d))
  {
    hide Descriptor, Entry, CountUsed, After, HistoryOf, BasePtr, Count;
    var h := HistoryOf(ops, f);
    ReachableInv(ops, f);
    DescriptorNamesOwnRun(ops, f, g);
    DescriptorNamesOwnRun(ops, f, g');
    var i, j := h.owner[g], h.owner[g'];
    assert i != j;
    assert i < j ==> Apart(h.runs[i], h.runs[j]);
    assert j < i ==> Apart(h.runs[j], h.runs[i]);
  }

  // ----- The static tables and the functions over them -----

  class EcmpTables {
    const used: array<bool>
    const groupUsed: array<bool>
    var nextGroupId: nat
    const asic: Asic

    ghost predicate Valid()
      reads this
    {
      && used.Length == SLOTS && groupUsed.Length == GROUPS && used != groupUsed
      && 1 <= nextGroupId <= GROUPS
    }

    ghost function View(): (s: State)
      requires Valid()
      reads this, used, groupUsed, asic
      ensures s.Shaped()
    {
      State(used[..], groupUsed[..], nextGroupId, asic.hw)
    }

    constructor (asic: Asic)
      requires asic.hw == BlankHw
      ensures Valid() && this.asic == asic && fresh(used) && fresh(groupUsed)
      ensures View() == Initial
    {
      used := new bool[SLOTS](_ => false);
      groupUsed := new bool[GROUPS](_ => false);
      nextGroupId := 1;
      this.asic := asic;
      new;
      assert used[..] == Unused(SLOTS);
      assert groupUsed[..] == Unused(GROUPS);
    }

    method AllocGroupId() returns (id: int)
      requires Valid()
      modifies this, groupUsed
      ensures Valid()
      ensures id == NextGroup(old(groupUsed[..]), old(nextGroupId))
      ensures id == -1 ==> groupUsed[..] == old(groupUsed[..]) && nextGroupId == old(nextGroupId)
      ensures id != -1 ==> 1 <= id < GROUPS
      ensures id != -1 ==> groupUsed[..] == old(groupUsed[..])[id := true] && nextGroupId == id + 1
    {
      for i := nextGroupId to GROUPS
        invariant unchanged(this) && unchanged(groupUsed)
        invariant forall j | nextGroupId <= j < i :: groupUsed[j]
      {
        if !groupUsed[i] {
          groupUsed[i] := true;
          nextGroupId := i + 1;
          return i;
        }
      }
      for i := 1 to nextGroupId
        invariant unchanged(this) && unchanged(groupUsed)
        invariant forall j | nextGroupId <= j < GROUPS :: groupUsed[j]
        invariant forall j | 1 <= j < i :: groupUsed[j]
      {
        if !groupUsed[i] {
          groupUsed[i] := true;
          nextGroupId := i + 1;
          return i;
        }
      }
      return -1;
    }

    method FreeGroupId(id: int)
      requires Valid()
      modifies groupUsed
      ensures groupUsed[..] == if 0 < id < GROUPS then old(groupUsed[..])[id := false] else old(groupUsed[..])
    {
      if id > 0 && id < GROUPS {
        groupUsed[id] := false;
      }
    }

    // First fit with skip-ahead. seen lists the slots in the order in which they are inspected:
    // it is strictly increasing, so no slot is looked at twice.
    method AllocEcmpSlots(count: int) returns (base: int, ghost seen: seq<nat>)
      requires Valid()
      modifies used
      ensures base == FirstRun(old(used[..]), count)
      ensures base == -1 || (0 <= base && base + count <= SLOTS)
      ensures used[..] == if base == -1 then old(used[..]) else Mark(old(used[..]), base, count, true)
      ensures forall i, j | 0 <= i < j < |seen| :: seen[i] < seen[j] < SLOTS
    {
      seen := [];
      if count <= 0 || count > SLOTS {
        return -1, seen;
      }
      ghost var u := used[..];
      base := 0;
      while base + count <= SLOTS
        invariant 0 <= base <= SLOTS && used[..] == u
        invariant LeastFreeRun(u, count, 0) == LeastFreeRun(u, count, base)
        invariant forall i, j | 0 <= i < j < |seen| :: seen[i] < seen[j]
        invariant forall i | 0 <= i < |seen| :: seen[i] < base
        decreases SLOTS - base
      {
        var i := 0;
        while i < count && !used[base + i]
          invariant 0 <= i <= count
          invariant forall k | base <= k < base + i :: !u[k]
          invariant forall i, j | 0 <= i < j < |seen| :: seen[i] < seen[j]
          invariant forall j | 0 <= j < |seen| :: seen[j] < base + i
        {
          seen := seen + [base + i];
          i := i + 1;
        }
        if i < count {
          seen := seen + [base + i];
          SkipAhead(u, count, base, i);
          base := base + i + 1;
        } else {
          assert RunFree(u, base, count) && base == FirstRun(u, count);
          SetSlots(base, count, true);
          return base, seen;
        }
      }
      assert LeastFreeRun(u, count, base) == -1;
      return -1, seen;
    }

    method SetSlots(base: nat, count: nat, value: bool)
      requires Valid() && base + count <= SLOTS
      modifies used
      ensures used[..] == Mark(old(used[..]), base, count, value)
    {
      for i := 0 to count
        invariant used[..] == Mark(old(used[..]), base, i, value)
      {
        used[base + i] := value;
      }
    }

    method FreeEcmpSlots(base: int, count: int)
      requires Valid()
      modifies used
      ensures used[..] == if 0 <= base && 0 < count && base + count <= SLOTS
                          then Mark(old(used[..]), base, count, false) else old(used[..])
    {
      if base < 0 || count <= 0 {
        return;
      }
      if base + count > SLOTS {
        return;
      }
      SetSlots(base, count, false);
    }

    method PackGroup(basePtr: nat, egressIds: seq<int>) returns (words: array<Word>)
      requires basePtr < SLOTS && |egressIds| <= MAX_MEMBERS
      ensures fresh(words) && words[..] == Descriptor(basePtr, egressIds)
    {
      var count := |egressIds|;
      words := new Word[7](_ => 0);
      assert words[..] == Zeros(7);
      SetBitsU64(words, 10, 12, basePtr % 0x1000);
      SetBitsU64(words, 0, 10, count % 0x400);
      SetBit(words, 196, count > 8);
      if count <= 8 {
        ghost var w := words[..];
        for i := 0 to count
          invariant words[..] == FastPath(w, egressIds, i)
        {
          SetBitsU64(words, OIF_BITS[i], 13, egressIds[i] % 0x2000);
          SetBit(words, TYPE_BITS[i], false);
        }
      }
    }

    method WriteMemberEntries(basePtr: nat, egressIds: seq<int>) returns (ok: bool)
      requires Valid() && basePtr + |egressIds| <= SLOTS
      modifies asic
      ensures (asic.hw, ok) == WriteMembers(old(asic.hw), asic.fails, basePtr, egressIds, 0)
    {
      hide Write;
      for i := 0 to |egressIds|
        invariant WriteMembers(old(asic.hw), asic.fails, basePtr, egressIds, 0)
               == WriteMembers(asic.hw, asic.fails, basePtr, egressIds, i)
      {
        var w := egressIds[i] % 0x4000;
        var rc := asic.MemWrite(L3Ecmp, basePtr + i, [w]);
        if rc != 0 {
          return false;
        }
      }
      return true;
    }

    method Create(egressIds: seq<int>) returns (rc: int, ecmpId: int)
      requires Valid()
      modifies this, used, groupUsed, asic
      ensures Valid()
      ensures Outcome(View(), rc, ecmpId) == CreateResult(old(View()), asic.fails, egressIds)
    {
      hide Descriptor, Write, Mark, NextGroup, FirstRun;
      var count := |egressIds|;
      if count <= 0 || count > MAX_MEMBERS {
        return -EINVAL, 0;
      }
      var group := AllocGroupId();
      if group < 0 {
        return -ENOSPC, 0;
      }
      var basePtr, _ := AllocEcmpSlots(count);
      if basePtr < 0 {
        FreeGroupId(group);
        return -ENOSPC, 0;
      }
      var written := WriteMemberEntries(basePtr, egressIds);
      if !written {
        FreeEcmpSlots(basePtr, count);
        FreeGroupId(group);
        return -EIO, 0;
      }
      var words := PackGroup(basePtr, egressIds);
      var grc := asic.MemWrite(L3EcmpGroup, group, words[..]);
      if grc != 0 {
        FreeEcmpSlots(basePtr, count);
        FreeGroupId(group);
        return -EIO, 0;
      }
      return 0, group;
    }

    method Destroy(ecmpId: int) returns (rc: int)
      requires Valid()
      modifies groupUsed, asic
      ensures Valid()
      ensures Outcome(View(), rc, 0) == DestroyResult(old(View()), asic.fails, ecmpId)
      ensures rc == if 1 <= ecmpId < 1024 then 0 else -EINVAL
      ensures 1 <= ecmpId < 1024 ==> !groupUsed[ecmpId]
    {
      if ecmpId <= 0 || ecmpId >= GROUPS {
        return -EINVAL;
      }
      var _ := asic.MemWrite(L3EcmpGroup, ecmpId, Zeros(7));
      FreeGroupId(ecmpId);
      return 0;
    }
  }
}
