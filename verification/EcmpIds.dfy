/** Which ECMP group ids are live over a run, by what creates and destroys report. */
module EcmpIds {
  import opened IdMaps
  import opened Transport
  import opened Ecmp

  // The ids that creates have returned and that no destroy has been called for since.
  ghost function Live(ops: seq<Op>, f: Faults): set<int> {
    if ops == [] then {}
    else
      var (live, op) := (Live(ops[..|ops| - 1], f), ops[|ops| - 1]);
      var o := Apply(After(ops[..|ops| - 1], f), f, op);
      match op
      case OpCreate(_) => if o.rc == 0 then live + {o.id} else live
      case OpDestroy(id) => live - {id}
  }

  ghost predicate Agree(s: State, live: set<int>)
    requires s.Shaped()
  {
    forall g: int :: g in live <==> 1 <= g < GROUPS && s.groupUsed[g]
  }

  lemma CreateAgrees(s: State, f: Faults, ids: seq<int>, live: set<int>)
    requires s.Shaped() && Agree(s, live)
    ensures var o := CreateResult(s, f, ids);
      && Agree(o.s, if o.rc == 0 then live + {o.id} else live)
      && (o.rc == 0 ==> 1 <= o.id < GROUPS && o.id !in live)
  {
    hide WriteMembers, Descriptor, Write, Mark, FirstRun;
    NextGroupIsCyclicallyFirst(s.groupUsed, s.next);
    hide NextGroup;
    if CreateResult(s, f, ids).rc != 0 {
      FailedCreateRestores(s, f, ids);
    }
  }

  // Over every run and whatever writes fail, an id is marked used exactly when it is live.
  lemma {:induction false} UsedIffLive(ops: seq<Op>, f: Faults)
    ensures Agree(After(ops, f), Live(ops, f))
  {
    hide CreateResult;
    if ops != [] {
      var (before, op) := (ops[..|ops| - 1], ops[|ops| - 1]);
      UsedIffLive(before, f);
      if op.OpCreate? {
        CreateAgrees(After(before, f), f, op.ids, Live(before, f));
      }
    }
  }

  // The ids 1..n.
  function UpTo(n: nat): (r: set<int>)
    ensures |r| == n && forall g :: g in r <==> 1 <= g <= n
  {
    if n == 0 then {} else UpTo(n - 1) + {n}
  }

  // All 1023 ids are live exactly when there are 1023 live ids.
  lemma FullIff(s: State, live: set<int>)
    requires s.Shaped() && Agree(s, live)
    ensures |live| <= GROUPS - 1
    ensures |live| == GROUPS - 1 <==> forall g | 1 <= g < GROUPS :: s.groupUsed[g]
  {
    var all := UpTo(GROUPS - 1);
    hide UpTo;
    assert live <= all && |all - live| == |all| - |live|;
    if |live| == GROUPS - 1 {
      assert all - live == {};
      forall g | 1 <= g < GROUPS ensures s.groupUsed[g] {
        assert g in all;
      }
    }
    if forall g | 1 <= g < GROUPS :: s.groupUsed[g] {
      assert live == all;
    }
  }

  // Some run of n member slots is free.
  predicate RoomFor(s: State, n: nat)
    requires s.Shaped()
  {
    exists b: nat :: b + n <= 4096 && RunFree(s.used, b, n)
  }

  // No write of a create for n members is lost: n member entries and then the descriptor.
  predicate AllLand(f: Faults, clock: nat, n: nat) {
    forall k | clock <= k <= clock + n :: !f(k)
  }

  lemma {:induction false} MembersLandIff(hw: Hw, f: Faults, base: nat, ids: seq<int>, i: nat)
    requires i <= |ids|
    ensures var (hw', ok) := WriteMembers(hw, f, base, ids, i);
      && (ok <==> forall k | hw.clock <= k < hw.clock + (|ids| - i) :: !f(k))
      && (ok ==> hw'.clock == hw.clock + (|ids| - i))
    decreases |ids| - i
  {
    hide Write;
    if i < |ids| {
      var (hw', ok) := Write(hw, f, L3Ecmp, base + i, MemberWord(ids[i]));
      if ok {
        MembersLandIff(hw', f, base, ids, i + 1);
      }
    }
  }

  // Over every run: what a create reports, by the live ids, the free slots and the writes that are
  // lost, and that the id it returns was not live.
  lemma CreateReports(ops: seq<Op>, f: Faults, ids: seq<int>)
    ensures var (s, live) := (After(ops, f), Live(ops, f));
      var (o, n) := (CreateResult(s, f, ids), |ids|);
      var sized := 1 <= n <= 1023;
      var room := |live| < 1023 && RoomFor(s, n);
      && (o.rc == -EINVAL <==> !sized)
      && (o.rc == -ENOSPC <==> sized && !room)
      && (o.rc == -EIO <==> sized && room && !AllLand(f, s.hw.clock, n))
      && (o.rc == 0 <==> sized && room && AllLand(f, s.hw.clock, n))
      && (o.rc == 0 ==> 1 <= o.id < 1024 && o.id !in live)
  {
    hide After, Live;
    var s := After(ops, f);
    UsedIffLive(ops, f);
    FullIff(s, Live(ops, f));
    CreateAgrees(s, f, ids, Live(ops, f));
    CreateReportsIn(s, f, ids);
  }

  lemma CreateReportsIn(s: State, f: Faults, ids: seq<int>)
    requires s.Shaped()
    ensures var (o, n) := (CreateResult(s, f, ids), |ids|);
      var sized := 1 <= n <= MAX_MEMBERS;
      var room := (exists g | 1 <= g < GROUPS :: !s.groupUsed[g]) && RoomFor(s, n);
      && (o.rc == -EINVAL <==> !sized)
      && (o.rc == -ENOSPC <==> sized && !room)
      && (o.rc == -EIO <==> sized && room && !AllLand(f, s.hw.clock, n))
      && (o.rc == 0 <==> sized && room && AllLand(f, s.hw.clock, n))
  {
    hide Descriptor, Mark, Entry, WriteMembers;
    NextGroupIsCyclicallyFirst(s.groupUsed, s.next);
    hide NextGroup;
    var base := FirstRun(s.used, |ids|);
    if base != -1 {
      assert RunFree(s.used, base, |ids|);
      MembersLandIff(s.hw, f, base, ids, 0);
    }
  }

  // An id that was just given back is handed out again by the next create only when no other is
  // free: the cursor has moved past it.
  lemma NotReusedAtOnce(s: State, f: Faults, ids: seq<int>, ids': seq<int>)
    requires s.Shaped() && CreateResult(s, f, ids).rc == 0
    requires var o := CreateResult(s, f, ids);
      CreateResult(DestroyResult(o.s, f, o.id).s, f, ids').rc == 0
    ensures var o := CreateResult(s, f, ids);
      CreateResult(DestroyResult(o.s, f, o.id).s, f, ids').id == o.id
      <==> forall g | 1 <= g < GROUPS && g != o.id :: s.groupUsed[g]
  {
    hide WriteMembers, Descriptor, Write, Mark, FirstRun;
    NextGroupIsCyclicallyFirst(s.groupUsed, s.next);
    var o := CreateResult(s, f, ids);
    var s' := DestroyResult(o.s, f, o.id).s;
    NextGroupIsCyclicallyFirst(s'.groupUsed, s'.next);
    hide NextGroup;
    var r := CreateResult(s', f, ids').id;
    assert forall g | 1 <= g < GROUPS :: s'.groupUsed[g] == s.groupUsed[g];
    assert CyclicDistance(s'.next, o.id) == GROUPS - 2 && CyclicDistance(s'.next, r) <= GROUPS - 2;
    assert r != o.id ==> !s.groupUsed[r];
    assert forall g | 1 <= g < GROUPS && g != o.id :: CyclicDistance(s'.next, g) < GROUPS - 2;
  }
}
