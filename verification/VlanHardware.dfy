/** What the VLAN operations leave in the two hardware tables, and what they report. */
module VlanHardware {
  import opened Bits
  import opened BitFields
  import opened Transport
  import opened Vlan

  // An operation that is not refused for its arguments.
  predicate Accepted(op: Op) {
    op.vid < 4096 && (op.OpPortAdd? ==> 1 <= op.port <= 52)
  }

  // The table writes that an operation makes when none of them is lost: a port add creates the
  // VLAN first if need be.
  function Writes(s: State, op: Op): nat
    requires s.Shaped() && op.vid < VLANS
  {
    if op.OpPortAdd? && !s.valid[op.vid] then 4 else 2
  }

  predicate AnyLost(f: Faults, clock: nat, n: nat) {
    exists k | clock <= k < clock + n :: f(k)
  }

  ghost predicate Synced(s: State, v: nat)
    requires s.Shaped() && v < VLANS
  {
    Entry(s.hw, VlanIng, v) == s.ing[v] && Entry(s.hw, VlanEgr, v) == s.egr[v]
  }

  lemma FlushEffect(s: State, f: Faults, vid: nat)
    requires s.Shaped() && vid < VLANS
    ensures var (r, c) := (Flush(s, f, vid), s.hw.clock);
      && Entry(r.s.hw, VlanIng, vid) == (if f(c) then Entry(s.hw, VlanIng, vid) else s.ing[vid])
      && Entry(r.s.hw, VlanEgr, vid) == (if f(c) || f(c + 1) then Entry(s.hw, VlanEgr, vid) else s.egr[vid])
      && (forall t, i: nat | i != vid || (t != VlanIng && t != VlanEgr) :: Entry(r.s.hw, t, i) == Entry(s.hw, t, i))
      && r.rc == (if f(c) || f(c + 1) then -EIO else 0)
      && (r.rc == 0 ==> r.s.hw.clock == c + 2)
  {
    hide Entry;
  }

  lemma FlushReports(s: State, f: Faults, vid: nat)
    requires s.Shaped() && vid < VLANS
    ensures var (r, c) := (Flush(s, f, vid), s.hw.clock);
      && r.rc == (if f(c) || f(c + 1) then -EIO else 0)
      && (r.rc == 0 ==> r.s.hw.clock == c + 2)
  {
    FlushEffect(s, f, vid);
  }

  // What is reported: -EINVAL exactly for bad arguments, -EIO exactly when a write of a create or
  // an add is lost, and nothing of the writes of a destroy.
  lemma Reports(s: State, f: Faults, op: Op)
    requires s.Shaped()
    ensures var rc := Apply(s, f, op).rc;
      && (rc == -EINVAL <==> !Accepted(op))
      && (rc == -EIO <==> Accepted(op) && !op.OpDestroy? && AnyLost(f, s.hw.clock, Writes(s, op)))
      && (rc == 0 <==> Accepted(op) && (op.OpDestroy? || !AnyLost(f, s.hw.clock, Writes(s, op))))
  {
    hide Entry, CreatedIng, CreatedEgr, Flush, SetPortBitmap, SetIngPortBitmap, SetUtPortBitmap, SetEgrPortBitmap;
    hide WithPort;
    if Accepted(op) {
      match op
      case OpDestroy(_) =>
      case OpCreate(vid) => FlushReports(Reset(s, vid, CreatedIng(), CreatedEgr(), true), f, vid);
      case OpPortAdd(vid, port, tagged) =>
        var created := CreateResult(s, f, vid);
        FlushReports(Reset(s, vid, CreatedIng(), CreatedEgr(), true), f, vid);
        FlushReports(AddMember(created.s, vid, port, tagged), f, vid);
        FlushReports(AddMember(s, vid, port, tagged), f, vid);
    }
  }

  // When no write is lost, both hardware rows of the VLAN are those of the shadow afterwards:
  // zeros after a destroy.
  lemma LandedWritesSync(s: State, f: Faults, op: Op)
    requires s.Shaped() && Accepted(op) && !AnyLost(f, s.hw.clock, Writes(s, op))
    ensures Synced(Apply(s, f, op).s, op.vid)
    ensures op.OpDestroy? ==> var hw := Apply(s, f, op).s.hw;
      Entry(hw, VlanIng, op.vid) == Zeros(10) && Entry(hw, VlanEgr, op.vid) == Zeros(8)
  {
    hide Entry, Write, CreatedIng, CreatedEgr, AddMember, Reset;
    Reports(s, f, op);
    match op
    case OpDestroy(vid) =>
      assert !f(s.hw.clock) && !f(s.hw.clock + 1);
      DestroyEffect(s, f, vid);
    case _ => SuccessSyncsHardware(s, f, op);
  }

  // A destroy clears each of the two rows whose write goes through, and no other.
  lemma DestroyEffect(s: State, f: Faults, vid: nat)
    requires s.Shaped() && vid < VLANS
    ensures var (s', c) := (DestroyResult(s, f, vid).s, s.hw.clock);
      && s'.ing[vid] == Zeros(10) && s'.egr[vid] == Zeros(8)
      && Entry(s'.hw, VlanIng, vid) == (if f(c) then Entry(s.hw, VlanIng, vid) else Zeros(10))
      && Entry(s'.hw, VlanEgr, vid) == (if f(c + 1) then Entry(s.hw, VlanEgr, vid) else Zeros(8))
      && forall t, i: nat | i != vid || (t != VlanIng && t != VlanEgr) :: Entry(s'.hw, t, i) == Entry(s.hw, t, i)
  {
    hide Entry;
  }

  // No operation touches the hardware rows of another VLAN, or another table.
  lemma OthersUntouched(s: State, f: Faults, op: Op, t: Table, i: nat)
    requires s.Shaped() && (i != op.vid || (t != VlanIng && t != VlanEgr))
    ensures Entry(Apply(s, f, op).s.hw, t, i) == Entry(s.hw, t, i)
  {
    hide Entry, Write, CreatedIng, CreatedEgr, Flush, SetPortBitmap, SetIngPortBitmap, SetUtPortBitmap;
    hide SetEgrPortBitmap, WithPort;
    match op
    case OpDestroy(vid) =>
      if vid < VLANS {
        DestroyEffect(s, f, vid);
      }
    case OpCreate(vid) =>
      if vid < VLANS {
        FlushEffect(Reset(s, vid, CreatedIng(), CreatedEgr(), true), f, vid);
      }
    case OpPortAdd(vid, port, tagged) =>
      if !AddRejected(vid, port) {
        var created := CreateResult(s, f, vid);
        FlushEffect(Reset(s, vid, CreatedIng(), CreatedEgr(), true), f, vid);
        FlushEffect(AddMember(created.s, vid, port, tagged), f, vid);
        FlushEffect(AddMember(s, vid, port, tagged), f, vid);
      }
  }

  // So over every run a VLAN's hardware rows are those of the shadow, as long as no write of the
  // last operation on it was lost.
  lemma {:induction false} SyncedSince(ops: seq<Op>, f: Faults, v: nat, last: nat)
    requires v < VLANS && last < |ops| && ops[last].vid == v && Accepted(ops[last])
    requires forall k | last < k < |ops| :: ops[k].vid != v
    requires var s := After(ops[..last], f); !AnyLost(f, s.hw.clock, Writes(s, ops[last]))
    ensures Synced(After(ops, f), v)
    decreases |ops|
  {
    hide Apply, AnyLost, Writes;
    var n := |ops| - 1;
    if n == last {
      LandedWritesSync(After(ops[..n], f), f, ops[n]);
    } else {
      assert ops[..n][..last] == ops[..last];
      SyncedSince(ops[..n], f, v, last);
      OthersUntouched(After(ops[..n], f), f, ops[n], VlanIng, v);
      OthersUntouched(After(ops[..n], f), f, ops[n], VlanEgr, v);
      OtherShadowsKept(After(ops[..n], f), f, ops[n], v);
    }
  }

  lemma OtherShadowsKept(s: State, f: Faults, op: Op, v: nat)
    requires s.Shaped() && v < VLANS && op.vid != v
    ensures Apply(s, f, op).s.ing[v] == s.ing[v] && Apply(s, f, op).s.egr[v] == s.egr[v]
  {
    hide Write, CreatedIng, CreatedEgr, SetPortBitmap, SetIngPortBitmap, SetUtPortBitmap, SetEgrPortBitmap, WithPort;
  }
}
