/** The VLAN and EGR_VLAN shadow tables and the port bitmaps behind them. */
module Vlan {
  import opened Bits
  import opened BitFields
  import opened IdMaps
  import opened Transport

  const VLANS: nat := 4096
  const MAX_PORT: nat := 52
  const STG: nat := 2

  type Bitmap = b: nat | b < 0x1_0000_0000_0000_0000

  // ----- Field setters: a field is cut out of its word and the rest of the word kept -----

  // PORT_BITMAP [65:0]: words 0 and 1 and the low two bits of word 2, which stay 0.
  function SetPortBitmap(w: seq<Word>, bm: Bitmap): (r: seq<Word>)
    requires |w| == 10
    ensures |r| == 10
  {
    w[0 := bm % 0x1_0000_0000][1 := bm / 0x1_0000_0000][2 := (w[2] / 4) * 4]
  }

  // ING_PORT_BITMAP [131:66]: the high 30 bits of word 2, word 3, and the low two bits of word 4.
  function SetIngPortBitmap(w: seq<Word>, bm: Bitmap): (r: seq<Word>)
    requires |w| == 10
    ensures |r| == 10
  {
    w[2 := w[2] % 4 + (bm % 0x4000_0000) * 4]
     [3 := (bm / 0x4000_0000) % 0x1_0000_0000]
     [4 := (w[4] / 4) * 4 + (bm / 0x4000_0000_0000_0000) % 4]
  }

  // STG in word 4 [12:4], VALID in word 6 [13], VLAN_PROFILE_PTR in word 7 [14:8].
  function SetStgValidProfile(w: seq<Word>, stg: nat, valid: bool, profile: nat): (r: seq<Word>)
    requires |w| == 10
    ensures |r| == 10
  {
    w[4 := w[4] % 0x10 + (stg % 0x200) * 0x10 + (w[4] / 0x2000) * 0x2000]
     [6 := PutInWord(w[6], 13, valid)]
     [7 := w[7] % 0x100 + (profile % 0x80) * 0x100 + (w[7] / 0x8000) * 0x8000]
  }

  // UT_PORT_BITMAP [161:96]: words 3 and 4 and the low two bits of word 5, which stay 0.
  function SetUtPortBitmap(w: seq<Word>, bm: Bitmap): (r: seq<Word>)
    requires |w| == 8
    ensures |r| == 8
  {
    w[3 := bm % 0x1_0000_0000][4 := bm / 0x1_0000_0000][5 := (w[5] / 4) * 4]
  }

  // PORT_BITMAP [227:162]: the high 30 bits of word 5, word 6, and the low four bits of word 7.
  function SetEgrPortBitmap(w: seq<Word>, bm: Bitmap): (r: seq<Word>)
    requires |w| == 8
    ensures |r| == 8
  {
    w[5 := w[5] % 4 + (bm % 0x4000_0000) * 4]
     [6 := (bm / 0x4000_0000) % 0x1_0000_0000]
     [7 := (w[7] / 0x10) * 0x10 + (bm / 0x4000_0000_0000_0000) % 0x10]
  }

  // VALID in word 0 [0], STG in word 0 [9:1].
  function SetEgrValidStg(w: seq<Word>, stg: nat, valid: bool): (r: seq<Word>)
    requires |w| == 8
    ensures |r| == 8
  {
    w[0 := (if valid then 1 else 0) + (stg % 0x200) * 2 + (w[0] / 0x400) * 0x400]
  }

  // ----- What a row decodes to -----

  datatype IngFields = IngFields(ports: nat, ingPorts: nat, stg: nat, valid: bool, profile: nat)

  function DecodeIng(w: seq<Word>): IngFields
    requires |w| == 10
  {
    var (w1: nat, w2: nat, w3: nat, w4: nat) := (w[1], w[2], w[3], w[4]);
    IngFields(
      w[0] + w1 * 0x1_0000_0000 + (w2 % 4) * 0x1_0000_0000_0000_0000,
      w2 / 4 + w3 * 0x4000_0000 + (w4 % 4) * 0x4000_0000_0000_0000,
      (w4 / 0x10) % 0x200,
      BitOf(w[6], 13),
      (w[7] / 0x100) % 0x80)
  }

  datatype EgrFields = EgrFields(valid: bool, stg: nat, untagged: nat, ports: nat)

  function DecodeEgr(w: seq<Word>): EgrFields
    requires |w| == 8
  {
    var (w4: nat, w5: nat, w6: nat, w7: nat) := (w[4], w[5], w[6], w[7]);
    EgrFields(
      w[0] % 2 == 1,
      (w[0] / 2) % 0x200,
      w[3] + w4 * 0x1_0000_0000 + (w5 % 4) * 0x1_0000_0000_0000_0000,
      w5 / 4 + w6 * 0x4000_0000 + (w7 % 0x10) * 0x4000_0000_0000_0000)
  }

  // Each setter writes its own field and leaves every other field of the row as it was, also
  // where two fields share a word.
  lemma IngSettersFrame(w: seq<Word>, bm: Bitmap, stg: nat, valid: bool, profile: nat)
    requires |w| == 10
    ensures DecodeIng(SetPortBitmap(w, bm)) == DecodeIng(w).(ports := bm)
    ensures DecodeIng(SetIngPortBitmap(w, bm)) == DecodeIng(w).(ingPorts := bm)
    ensures DecodeIng(SetStgValidProfile(w, stg, valid, profile))
         == DecodeIng(w).(stg := stg % 0x200, valid := valid, profile := profile % 0x80)
  {
    hide *;
    PortBitmapFrame(w, bm);
    IngBitmapFrame(w, bm);
    StgFrame(w, stg, valid, profile);
  }

  lemma PortBitmapFrame(w: seq<Word>, bm: Bitmap)
    requires |w| == 10
    ensures DecodeIng(SetPortBitmap(w, bm)) == DecodeIng(w).(ports := bm)
  {
    hide BitOf;
  }

  lemma LowTwoBits(w: Word, t: nat, w': nat)
    requires t < 4 && w' == (w / 4) * 4 + t
    ensures w' % 4 == t && w' / 0x10 == w / 0x10
  {
    assert w' / 4 == w / 4;
  }

  // A field of size b between the a values below it and whatever lies above.
  lemma MiddleField(low: nat, a: nat, v: nat, b: nat, high: nat, w: nat)
    requires low < a && v < b && w == low + v * a + high * (a * b)
    ensures w % a == low && (w / a) % b == v
  {
    assert w == a * (b * high + v) + low;
    DivModUnique(w, a, b * high + v, low);
    DivModUnique(b * high + v, b, high, v);
  }

  lemma LowBitsOf16(w: nat)
    ensures w % 4 == w % 0x10 % 4
  {
  }

  lemma StgWord(w: Word, v: nat, w': nat)
    requires v < 0x200 && w' == w % 0x10 + v * 0x10 + (w / 0x2000) * 0x2000
    ensures w' % 4 == w % 4 && (w' / 0x10) % 0x200 == v
  {
    MiddleField(w % 0x10, 0x10, v, 0x200, w / 0x2000, w');
    LowBitsOf16(w);
    LowBitsOf16(w');
  }

  lemma ProfileWord(w: Word, v: nat, w': nat)
    requires v < 0x80 && w' == w % 0x100 + v * 0x100 + (w / 0x8000) * 0x8000
    ensures (w' / 0x100) % 0x80 == v
  {
    MiddleField(w % 0x100, 0x100, v, 0x80, w / 0x8000, w');
  }

  lemma IngBitmapFrame(w: seq<Word>, bm: Bitmap)
    requires |w| == 10
    ensures DecodeIng(SetIngPortBitmap(w, bm)) == DecodeIng(w).(ingPorts := bm)
  {
    hide BitOf;
    BitmapPieces(bm);
    LowTwoBits(w[4], (bm / 0x4000_0000_0000_0000) % 4, SetIngPortBitmap(w, bm)[4]);
  }

  lemma BitmapPieces(bm: Bitmap)
    ensures bm == bm % 0x4000_0000 + ((bm / 0x4000_0000) % 0x1_0000_0000) * 0x4000_0000
                  + (bm / 0x4000_0000_0000_0000) * 0x4000_0000_0000_0000
    ensures bm / 0x4000_0000_0000_0000 < 4
  {
    assert bm / 0x4000_0000 / 0x1_0000_0000 == bm / 0x4000_0000_0000_0000;
  }

  lemma StgFrame(w: seq<Word>, stg: nat, valid: bool, profile: nat)
    requires |w| == 10
    ensures DecodeIng(SetStgValidProfile(w, stg, valid, profile))
         == DecodeIng(w).(stg := stg % 0x200, valid := valid, profile := profile % 0x80)
  {
    SetOneBits(w[6], 13, 13);
    ClearOneBits(w[6], 13, 13);
    hide BitOf, SetOne, ClearOne;
    StgWord(w[4], stg % 0x200, SetStgValidProfile(w, stg, valid, profile)[4]);
    ProfileWord(w[7], profile % 0x80, SetStgValidProfile(w, stg, valid, profile)[7]);
  }

  lemma EgrSettersFrame(w: seq<Word>, bm: Bitmap, stg: nat, valid: bool)
    requires |w| == 8
    ensures DecodeEgr(SetUtPortBitmap(w, bm)) == DecodeEgr(w).(untagged := bm)
    ensures DecodeEgr(SetEgrPortBitmap(w, bm)) == DecodeEgr(w).(ports := bm)
    ensures DecodeEgr(SetEgrValidStg(w, stg, valid)) == DecodeEgr(w).(stg := stg % 0x200, valid := valid)
  {
    EgrBitmapFrame(w, bm);
    EgrStgFrame(w, stg, valid);
  }

  lemma EgrBitmapFrame(w: seq<Word>, bm: Bitmap)
    requires |w| == 8
    ensures DecodeEgr(SetEgrPortBitmap(w, bm)) == DecodeEgr(w).(ports := bm)
  {
    var w' := SetEgrPortBitmap(w, bm);
    DivModUnique(w'[5], 4, bm % 0x4000_0000, w[5] % 4);
    DivModUnique(w'[7], 0x10, w[7] / 0x10, (bm / 0x4000_0000_0000_0000) % 0x10);
    BitmapPieces(bm);
  }

  lemma EgrStgFrame(w: seq<Word>, stg: nat, valid: bool)
    requires |w| == 8
    ensures DecodeEgr(SetEgrValidStg(w, stg, valid)) == DecodeEgr(w).(stg := stg % 0x200, valid := valid)
  {
    MiddleField(if valid then 1 else 0, 2, stg % 0x200, 0x200, w[0] / 0x400, SetEgrValidStg(w, stg, valid)[0]);
  }

  // ----- The shadow tables -----

  datatype State = State(
    ing: seq<seq<Word>>, egr: seq<seq<Word>>, valid: seq<bool>,
    ingPbm: seq<Bitmap>, egrPbm: seq<Bitmap>, egrUtbm: seq<Bitmap>,
    hw: Hw)
  {
    predicate Shaped() {
      && |ing| == VLANS && |egr| == VLANS && |valid| == VLANS
      && |ingPbm| == VLANS && |egrPbm| == VLANS && |egrUtbm| == VLANS
      && (forall v | 0 <= v < VLANS :: |ing[v]| == 10)
      && (forall v | 0 <= v < VLANS :: |egr[v]| == 8)
    }
  }

  datatype Result = Result(s: State, rc: int)

  // (uint64_t)1 << port, or-ed in.
  function WithPort(bm: Bitmap, port: nat): Bitmap
    requires port < 64
  {
    BitmapBound(bm, port);
    SetOne(bm, port)
  }

  lemma BitmapBound(bm: Bitmap, port: nat)
    requires port < 64
    ensures SetOne(bm, port) < 0x1_0000_0000_0000_0000
  {
    Pow2Widths();
    hide Pow2;
    SetOneBound(bm, port, 64);
  }

  function CreatedIng(): (w: seq<Word>)
    ensures |w| == 10
  {
    SetStgValidProfile(SetIngPortBitmap(SetPortBitmap(Zeros(10), 0), 0), STG, true, 0)
  }

  function CreatedEgr(): (w: seq<Word>)
    ensures |w| == 8
  {
    SetEgrPortBitmap(SetUtPortBitmap(SetEgrValidStg(Zeros(8), STG, true), 0), 0)
  }

  // The two table writes of one VLAN; the second is attempted only when the first went through.
  function Flush(s: State, f: Faults, vid: nat): (r: Result)
    requires s.Shaped() && vid < VLANS
    ensures r.s.Shaped() && r.s == s.(hw := r.s.hw)
  {
    var (hw1, ok1) := Write(s.hw, f, VlanIng, vid, s.ing[vid]);
    if !ok1 then Result(s.(hw := hw1), -EIO)
    else
      var (hw2, ok2) := Write(hw1, f, VlanEgr, vid, s.egr[vid]);
      Result(s.(hw := hw2), if ok2 then 0 else -EIO)
  }

  function Reset(s: State, vid: nat, ing: seq<Word>, egr: seq<Word>, valid: bool): (s': State)
    requires s.Shaped() && vid < VLANS && |ing| == 10 && |egr| == 8
    ensures s'.Shaped()
  {
    s.(ing := s.ing[vid := ing], egr := s.egr[vid := egr], valid := s.valid[vid := valid],
       ingPbm := s.ingPbm[vid := 0], egrPbm := s.egrPbm[vid := 0], egrUtbm := s.egrUtbm[vid := 0])
  }

  function CreateResult(s: State, f: Faults, vid: nat): (r: Result)
    requires s.Shaped()
    ensures r.s.Shaped()
  {
    if vid >= VLANS then Result(s, -EINVAL)
    else Flush(Reset(s, vid, CreatedIng(), CreatedEgr(), true), f, vid)
  }

  function AddMember(s: State, vid: nat, port: nat, tagged: bool): (s': State)
    requires s.Shaped() && vid < VLANS && port < 64
    ensures s'.Shaped()
  {
    var ingBm := WithPort(s.ingPbm[vid], port);
    var utBm := if tagged then s.egrUtbm[vid] else WithPort(s.egrUtbm[vid], port);
    var egrBm := WithPort(s.egrPbm[vid], port);
    s.(ingPbm := s.ingPbm[vid := ingBm],
       egrUtbm := s.egrUtbm[vid := utBm],
       egrPbm := s.egrPbm[vid := egrBm],
       ing := s.ing[vid := SetIngPortBitmap(SetPortBitmap(s.ing[vid], ingBm), ingBm)],
       egr := s.egr[vid := SetEgrPortBitmap(SetUtPortBitmap(s.egr[vid], utBm), egrBm)])
  }

  predicate AddRejected(vid: nat, port: int) {
    vid >= VLANS || port <= 0 || port > MAX_PORT
  }

  function PortAddResult(s: State, f: Faults, vid: nat, port: int, tagged: bool): (r: Result)
    requires s.Shaped()
    ensures r.s.Shaped()
  {
    if AddRejected(vid, port) then Result(s, -EINVAL)
    else
      var created := if s.valid[vid] then Result(s, 0) else CreateResult(s, f, vid);
      if created.rc != 0 then created
      else Flush(AddMember(created.s, vid, port, tagged), f, vid)
  }

  function DestroyResult(s: State, f: Faults, vid: nat): (r: Result)
    requires s.Shaped()
    ensures r.s.Shaped()
  {
    if vid >= VLANS then Result(s, -EINVAL)
    else
      var s1 := Reset(s, vid, Zeros(10), Zeros(8), false);
      var hw1 := Write(s1.hw, f, VlanIng, vid, s1.ing[vid]).0;
      Result(s1.(hw := Write(hw1, f, VlanEgr, vid, s1.egr[vid]).0), 0)
  }

  // ----- The port sets that the rows stand for -----

  datatype Membership = Absent | Present(members: set<nat>, untagged: set<nat>)

  ghost predicate Encodes(bm: Bitmap, ports: set<nat>) {
    forall p: nat :: BitOf(bm, p) <==> p in ports
  }

  ghost predicate RowOk(s: State, v: nat, a: Membership)
    requires s.Shaped() && v < VLANS
  {
    && s.valid[v] == a.Present?
    && s.ingPbm[v] == s.egrPbm[v]
    && DecodeIng(s.ing[v]) == IngFields(s.ingPbm[v], s.ingPbm[v], if a.Present? then 2 else 0, a.Present?, 0)
    && DecodeEgr(s.egr[v]) == EgrFields(a.Present?, if a.Present? then 2 else 0, s.egrUtbm[v], s.egrPbm[v])
    && match a
       case Absent => s.ingPbm[v] == 0 && s.egrUtbm[v] == 0
       case Present(members, untagged) =>
         && Encodes(s.ingPbm[v], members) && Encodes(s.egrUtbm[v], untagged)
         && untagged <= members && forall p | p in members :: 1 <= p <= 52
  }

  datatype Op = OpCreate(vid: nat) | OpPortAdd(vid: nat, port: int, tagged: bool) | OpDestroy(vid: nat)

  function Apply(s: State, f: Faults, op: Op): (r: Result)
    requires s.Shaped()
    ensures r.s.Shaped()
  {
    match op
    case OpCreate(vid) => CreateResult(s, f, vid)
    case OpPortAdd(vid, port, tagged) => PortAddResult(s, f, vid, port, tagged)
    case OpDestroy(vid) => DestroyResult(s, f, vid)
  }

  // The effect on the port sets. An add never removes the port from the untagged set; an add
  // that has to create the VLAN first and cannot write it leaves the VLAN created but empty.
  function Next(s: State, f: Faults, a: seq<Membership>, op: Op): (r: seq<Membership>)
    requires s.Shaped() && |a| == VLANS
    ensures |r| == VLANS
  {
    match op
    case OpCreate(vid) => if vid >= 4096 then a else a[vid := Present({}, {})]
    case OpDestroy(vid) => if vid >= 4096 then a else a[vid := Absent]
    case OpPortAdd(vid, port, tagged) =>
      if vid >= 4096 || !(1 <= port <= 52) then a
      else if a[vid].Absent? && (f(s.hw.clock) || f(s.hw.clock + 1)) then a[vid := Present({}, {})]
      else
        var (m, u) := if a[vid].Absent? then ({}, {}) else (a[vid].members, a[vid].untagged);
        a[vid := Present(m + {port as nat}, if tagged then u else u + {port as nat})]
  }

  function Initial(): (s: State)
    ensures s.Shaped()
  {
    State(seq(VLANS, _ => Zeros(10)), seq(VLANS, _ => Zeros(8)), Unused(VLANS),
          seq(VLANS, _ => 0), seq(VLANS, _ => 0), seq(VLANS, _ => 0), BlankHw)
  }

  function NoVlans(): (a: seq<Membership>)
    ensures |a| == VLANS && forall v | 0 <= v < VLANS :: a[v] == Absent
  {
    seq(VLANS, _ => Absent)
  }

  ghost function After(ops: seq<Op>, f: Faults): (s: State)
    ensures s.Shaped()
  {
    if ops == [] then Initial() else Apply(After(ops[..|ops| - 1], f), f, ops[|ops| - 1]).s
  }

  ghost function MembershipAfter(ops: seq<Op>, f: Faults): (a: seq<Membership>)
    ensures |a| == VLANS
  {
    if ops == [] then NoVlans()
    else Next(After(ops[..|ops| - 1], f), f, MembershipAfter(ops[..|ops| - 1], f), ops[|ops| - 1])
  }

  // ----- Proofs -----

  lemma ZeroRows()
    ensures DecodeIng(Zeros(10)) == IngFields(0, 0, 0, false, 0)
    ensures DecodeEgr(Zeros(8)) == EgrFields(false, 0, 0, 0)
  {
    ZeroBits(13);
  }

  lemma CreatedRows()
    ensures DecodeIng(CreatedIng()) == IngFields(0, 0, STG, true, 0)
    ensures DecodeEgr(CreatedEgr()) == EgrFields(true, STG, 0, 0)
  {
    hide DecodeIng, DecodeEgr, SetPortBitmap, SetIngPortBitmap, SetStgValidProfile;
    hide SetUtPortBitmap, SetEgrPortBitmap, SetEgrValidStg;
    ZeroRows();
    var i1, e1 := SetPortBitmap(Zeros(10), 0), SetEgrValidStg(Zeros(8), STG, true);
    IngSettersFrame(Zeros(10), 0, STG, true, 0);
    IngSettersFrame(i1, 0, STG, true, 0);
    IngSettersFrame(SetIngPortBitmap(i1, 0), 0, STG, true, 0);
    EgrSettersFrame(Zeros(8), 0, STG, true);
    EgrSettersFrame(e1, 0, STG, true);
    EgrSettersFrame(SetUtPortBitmap(e1, 0), 0, STG, true);
  }

  lemma EmptyBitmap()
    ensures Encodes(0, {})
  {
    forall p: nat ensures !BitOf(0, p) {
      ZeroBits(p);
    }
  }

  lemma WithPortEncodes(bm: Bitmap, ports: set<nat>, port: nat)
    requires port < 64 && Encodes(bm, ports)
    ensures Encodes(WithPort(bm, port), ports + {port})
  {
    hide BitOf, SetOne;
    forall p: nat ensures BitOf(WithPort(bm, port), p) <==> p in ports + {port} {
      SetOneBits(bm, port, p);
    }
  }

  lemma ResetOk(s: State, vid: nat, hw: Hw, present: bool)
    requires s.Shaped() && vid < VLANS
    ensures var s' := if present then Reset(s, vid, CreatedIng(), CreatedEgr(), true)
                      else Reset(s, vid, Zeros(10), Zeros(8), false);
      RowOk(s'.(hw := hw), vid, if present then Present({}, {}) else Absent)
  {
    hide DecodeIng, DecodeEgr, CreatedIng, CreatedEgr, Encodes;
    ZeroRows();
    CreatedRows();
    EmptyBitmap();
  }

  lemma AddMemberOk(s: State, vid: nat, port: nat, tagged: bool, hw: Hw, m: set<nat>, u: set<nat>)
    requires s.Shaped() && vid < VLANS && 1 <= port <= MAX_PORT && RowOk(s, vid, Present(m, u))
    ensures RowOk(AddMember(s, vid, port, tagged).(hw := hw), vid,
                  Present(m + {port}, if tagged then u else u + {port}))
  {
    hide DecodeIng, DecodeEgr, SetPortBitmap, SetIngPortBitmap, SetUtPortBitmap, SetEgrPortBitmap, Encodes, WithPort;
    WithPortEncodes(s.ingPbm[vid], m, port);
    WithPortEncodes(s.egrUtbm[vid], u, port);
    var ingBm := WithPort(s.ingPbm[vid], port);
    var utBm := if tagged then s.egrUtbm[vid] else WithPort(s.egrUtbm[vid], port);
    IngSettersFrame(s.ing[vid], ingBm, 0, true, 0);
    IngSettersFrame(SetPortBitmap(s.ing[vid], ingBm), ingBm, 0, true, 0);
    EgrSettersFrame(s.egr[vid], utBm, 0, true);
    EgrSettersFrame(SetUtPortBitmap(s.egr[vid], utBm), ingBm, 0, true);
  }

  lemma OtherRowsKept(s: State, f: Faults, a: seq<Membership>, op: Op, v: nat)
    requires s.Shaped() && |a| == VLANS && v < VLANS && op.vid != v
    requires RowOk(s, v, a[v])
    ensures RowOk(Apply(s, f, op).s, v, Next(s, f, a, op)[v])
  {
    hide DecodeIng, DecodeEgr, CreatedIng, CreatedEgr, Encodes, Write, SetPortBitmap, SetIngPortBitmap;
    hide SetUtPortBitmap, SetEgrPortBitmap, WithPort;
  }

  lemma PortAddRow(s: State, f: Faults, a: seq<Membership>, v: nat, port: int, tagged: bool)
    requires s.Shaped() && |a| == VLANS && v < VLANS && RowOk(s, v, a[v])
    ensures var op := OpPortAdd(v, port, tagged);
      RowOk(PortAddResult(s, f, v, port, tagged).s, v, Next(s, f, a, op)[v])
  {
    hide DecodeIng, DecodeEgr, CreatedIng, CreatedEgr, Encodes, Write, AddMember;
    var hw := PortAddResult(s, f, v, port, tagged).s.hw;
    if !AddRejected(v, port) {
      if a[v].Absent? {
        var c := CreateResult(s, f, v);
        ResetOk(s, v, c.s.hw, true);
        AddMemberOk(c.s, v, port, tagged, hw, {}, {});
      } else {
        AddMemberOk(s, v, port, tagged, hw, a[v].members, a[v].untagged);
      }
    }
  }

  // Each operation turns one VLAN's row into the next membership and leaves the others alone.
  lemma StepKeepsRows(s: State, f: Faults, a: seq<Membership>, op: Op, v: nat)
    requires s.Shaped() && |a| == VLANS && v < VLANS
    requires RowOk(s, v, a[v])
    ensures RowOk(Apply(s, f, op).s, v, Next(s, f, a, op)[v])
  {
    hide RowOk, PortAddResult, Write, CreatedIng, CreatedEgr;
    if op.vid != v {
      OtherRowsKept(s, f, a, op, v);
    } else {
      match op
      case OpCreate(vid) => ResetOk(s, v, Apply(s, f, op).s.hw, true);
      case OpDestroy(vid) => ResetOk(s, v, Apply(s, f, op).s.hw, false);
      case OpPortAdd(vid, port, tagged) => PortAddRow(s, f, a, v, port, tagged);
    }
  }

  // Over every run, whatever writes fail, each shadow row decodes to its VLAN's port sets:
  // ingress and egress members agree, untagged is a subset, and only ports 1..52 occur.
  lemma {:induction false} RunKeepsRows(ops: seq<Op>, f: Faults, v: nat)
    requires v < VLANS
    ensures RowOk(After(ops, f), v, MembershipAfter(ops, f)[v])
  {
    hide RowOk, Apply, Next;
    if ops == [] {
      InitialRow(v);
    } else {
      var before := ops[..|ops| - 1];
      RunKeepsRows(before, f, v);
      StepKeepsRows(After(before, f), f, MembershipAfter(before, f), ops[|ops| - 1], v);
    }
  }

  lemma InitialRow(v: nat)
    requires v < VLANS
    ensures RowOk(Initial(), v, Absent)
  {
    ZeroRows();
  }

  // A create or add that reports success has left the hardware entries equal to the shadow.
  lemma SuccessSyncsHardware(s: State, f: Faults, op: Op)
    requires s.Shaped() && !op.OpDestroy? && Apply(s, f, op).rc == 0
    ensures var s' := Apply(s, f, op).s;
      && op.vid < VLANS
      && Entry(s'.hw, VlanIng, op.vid) == s'.ing[op.vid] && Entry(s'.hw, VlanEgr, op.vid) == s'.egr[op.vid]
  {
    hide Entry, Write, CreatedIng, CreatedEgr, AddMember, Reset;
  }

  // ----- The functions over the static arrays -----

  class Tables {
    const ing: array<seq<Word>>
    const egr: array<seq<Word>>
    const valid: array<bool>
    const ingPbm: array<Bitmap>
    const egrPbm: array<Bitmap>
    const egrUtbm: array<Bitmap>
    const asic: Asic

    ghost predicate Valid()
      reads ing, egr
    {
      && ing.Length == VLANS && egr.Length == VLANS && valid.Length == VLANS
      && ingPbm.Length == VLANS && egrPbm.Length == VLANS && egrUtbm.Length == VLANS
      && ing != egr && ingPbm != egrPbm && ingPbm != egrUtbm && egrPbm != egrUtbm
      && (forall v | 0 <= v < VLANS :: |ing[v]| == 10)
      && (forall v | 0 <= v < VLANS :: |egr[v]| == 8)
    }

    ghost function View(): (s: State)
      requires Valid()
      reads ing, egr, valid, ingPbm, egrPbm, egrUtbm, asic
      ensures s.Shaped()
    {
      State(ing[..], egr[..], valid[..], ingPbm[..], egrPbm[..], egrUtbm[..], asic.hw)
    }

    constructor (asic: Asic)
      requires asic.hw == BlankHw
      ensures Valid() && this.asic == asic && View() == Initial()
      ensures fresh(ing) && fresh(egr) && fresh(valid) && fresh(ingPbm) && fresh(egrPbm) && fresh(egrUtbm)
    {
      ing := new seq<Word>[VLANS](_ => Zeros(10));
      egr := new seq<Word>[VLANS](_ => Zeros(8));
      valid := new bool[VLANS](_ => false);
      ingPbm := new Bitmap[VLANS](_ => 0);
      egrPbm := new Bitmap[VLANS](_ => 0);
      egrUtbm := new Bitmap[VLANS](_ => 0);
      this.asic := asic;
      new;
      assert ing[..] == Initial().ing && egr[..] == Initial().egr && valid[..] == Initial().valid;
      assert ingPbm[..] == Initial().ingPbm && egrPbm[..] == Initial().egrPbm && egrUtbm[..] == Initial().egrUtbm;
    }

    method WriteRows(vid: nat) returns (rc: int)
      requires Valid() && vid < VLANS
      modifies asic
      ensures Valid() && Result(View(), rc) == Flush(old(View()), asic.fails, vid)
    {
      hide Write;
      var rc1 := asic.MemWrite(VlanIng, vid, ing[vid]);
      if rc1 != 0 {
        return -EIO;
      }
      var rc2 := asic.MemWrite(VlanEgr, vid, egr[vid]);
      return if rc2 != 0 then -EIO else 0;
    }

    method Create(vid: nat) returns (rc: int)
      requires Valid()
      modifies ing, egr, valid, ingPbm, egrPbm, egrUtbm, asic
      ensures Valid() && Result(View(), rc) == CreateResult(old(View()), asic.fails, vid)
    {
      hide Flush, SetPortBitmap, SetIngPortBitmap, SetStgValidProfile;
      hide SetUtPortBitmap, SetEgrPortBitmap, SetEgrValidStg;
      if vid > 4095 {
        return -EINVAL;
      }
      ingPbm[vid] := 0;
      egrPbm[vid] := 0;
      egrUtbm[vid] := 0;
      var row := SetPortBitmap(Zeros(10), ingPbm[vid]);
      row := SetIngPortBitmap(row, ingPbm[vid]);
      ing[vid] := SetStgValidProfile(row, STG, true, 0);
      row := SetEgrValidStg(Zeros(8), STG, true);
      row := SetUtPortBitmap(row, egrUtbm[vid]);
      egr[vid] := SetEgrPortBitmap(row, egrPbm[vid]);
      valid[vid] := true;
      assert View() == Reset(old(View()), vid, CreatedIng(), CreatedEgr(), true);
      rc := WriteRows(vid);
    }

    method PortAdd(vid: nat, port: int, tagged: bool) returns (rc: int)
      requires Valid()
      modifies ing, egr, valid, ingPbm, egrPbm, egrUtbm, asic
      ensures Valid() && Result(View(), rc) == PortAddResult(old(View()), asic.fails, vid, port, tagged)
    {
      hide Flush, CreateResult;
      if vid > 4095 || port <= 0 || port > 52 {
        return -EINVAL;
      }
      if !valid[vid] {
        rc := Create(vid);
        if rc != 0 {
          return rc;
        }
      }
      SetMember(vid, port, tagged);
      rc := WriteRows(vid);
    }

    method SetMember(vid: nat, port: nat, tagged: bool)
      requires Valid() && vid < VLANS && port < 64
      modifies ing, egr, ingPbm, egrPbm, egrUtbm
      ensures Valid() && View() == AddMember(old(View()), vid, port, tagged)
    {
      hide SetPortBitmap, SetIngPortBitmap, SetUtPortBitmap, SetEgrPortBitmap, WithPort;
      ingPbm[vid] := WithPort(ingPbm[vid], port);
      ing[vid] := SetIngPortBitmap(SetPortBitmap(ing[vid], ingPbm[vid]), ingPbm[vid]);
      if !tagged {
        egrUtbm[vid] := WithPort(egrUtbm[vid], port);
      }
      egrPbm[vid] := WithPort(egrPbm[vid], port);
      egr[vid] := SetEgrPortBitmap(SetUtPortBitmap(egr[vid], egrUtbm[vid]), egrPbm[vid]);
      assert old(egrUtbm[..]) == old(egrUtbm[..])[vid := old(egrUtbm[vid])];
    }

    method Destroy(vid: nat) returns (rc: int)
      requires Valid()
      modifies ing, egr, valid, ingPbm, egrPbm, egrUtbm, asic
      ensures Valid() && Result(View(), rc) == DestroyResult(old(View()), asic.fails, vid)
    {
      hide Write;
      if vid > 4095 {
        return -EINVAL;
      }
      ing[vid] := Zeros(10);
      egr[vid] := Zeros(8);
      ingPbm[vid] := 0;
      egrPbm[vid] := 0;
      egrUtbm[vid] := 0;
      valid[vid] := false;
      assert View() == Reset(old(View()), vid, Zeros(10), Zeros(8), false);
      var _ := asic.MemWrite(VlanIng, vid, ing[vid]);
      var _ := asic.MemWrite(VlanEgr, vid, egr[vid]);
      return 0;
    }
  }
}
