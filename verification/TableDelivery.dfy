/** What SBUS delivers of the table transport that the managers rely on: all but data word 5 of long entries. */
module TableDelivery {
  import opened Bits
  import opened Wrappers
  import opened BitFields
  import opened Schan
  import opened Sbus
  import opened Chip
  import opened Transport
  import SbusCalls
  import Defip
  import Ecmp
  import L2
  import L2Lookup
  import L2User
  import L3
  import Macs
  import Vlan

  function TableKey(t: Table, i: nat): Key
    ensures i < Entries(t) ==> TableKey(t, i).addr == BaseAddr(t) + i
  {
    SbusCalls.MemKey(Block(BaseAddr(t)), BaseAddr(t), i)
  }

  // Every entry of every table has a key of its own.
  lemma TableKeysDistinct(t: Table, i: nat, t': Table, i': nat)
    requires i < Entries(t) && i' < Entries(t') && TableKey(t, i) == TableKey(t', i')
    ensures t == t' && i == i'
  {
    hide Block;
    EntryAddressesDistinct(t, i, t', i');
  }

  // ----- The transport is refined -----

  datatype EntryOp = Put(t: Table, i: nat, ws: seq<Word>) | Fetch(t: Table, i: nat)

  predicate Fits(e: EntryOp) {
    e.i < Entries(e.t) && (e.Put? ==> |e.ws| == EntryWords(e.t))
  }

  type Buffer = d: seq<Word> | |d| == MSG_WORDS witness Zeros(MSG_WORDS)

  // One table operation that meets buffer d and is answered by a.
  function AfterOp(cells: Cells, d: Buffer, a: Answer, e: EntryOp, misc: Word): Cells {
    match e
    case Put(t, i, ws) => SbusCalls.AfterWrite(cells, a, TableKey(t, i), ws, misc)
    case Fetch(t, i) => Transact(d, cells, a, FetchMessage(t, i)).cells
  }

  function FetchMessage(t: Table, i: nat): (cmd: seq<Word>)
    ensures |cmd| == 2
  {
    ReadMessage(READ_MEM, Block(BaseAddr(t)), SbusCalls.IndexedAddr(BaseAddr(t), i), EntryWords(t))
  }

  // Operations issued through sbus_mem_write and sbus_mem_read, the n-th answered by answers(n).
  function SbusAfter(es: seq<EntryOp>, answers: nat -> Answer, bufs: nat -> Buffer, misc: Word): Cells {
    if es == [] then map[]
    else
      var n := |es| - 1;
      AfterOp(SbusAfter(es[..n], answers, bufs, misc), bufs(n), answers(n), es[n], misc)
  }

  function TransportStep(hw: Hw, f: Faults, e: EntryOp): (hw': Hw)
    ensures hw'.clock == hw.clock + 1
  {
    match e
    case Put(t, i, ws) => Write(hw, f, t, i, ws).0
    case Fetch(_, _) => Tick(hw)
  }

  function TransportAfter(es: seq<EntryOp>, f: Faults): (hw: Hw)
    ensures hw.clock == |es|
  {
    if es == [] then BlankHw else TransportStep(TransportAfter(es[..|es| - 1], f), f, es[|es| - 1])
  }

  function FailuresOf(answers: nat -> Answer): Faults {
    (n: nat) => !Performed(answers(n))
  }

  // What the chip holds of an entry, in terms of the transport.
  function Held(hw: Hw, t: Table, i: nat, misc: Word): seq<Word> {
    if (t, i) in hw.mem then Delivered(hw.mem[(t, i)], misc) else Zeros(EntryWords(t))
  }

  predicate Same(cells: Cells, hw: Hw, misc: Word, t: Table, i: nat) {
    && ((t, i) in hw.mem <==> TableKey(t, i) in cells)
    && ((t, i) in hw.mem ==>
          |hw.mem[(t, i)]| == EntryWords(t) && cells[TableKey(t, i)] == Delivered(hw.mem[(t, i)], misc))
  }

  // As long as no write outlives its deadline, the chip holds what the transport says, each
  // entry as delivered, and a write fails in one exactly when it fails in the other.
  lemma {:induction false} TransportRefined(
    es: seq<EntryOp>, answers: nat -> Answer, bufs: nat -> Buffer, misc: Word, t: Table, i: nat)
    requires forall e | e in es :: Fits(e)
    requires forall n: nat | n < |es| && es[n].Put? :: InTime(answers(n)) || !answers(n).late
    requires i < Entries(t)
    ensures Same(SbusAfter(es, answers, bufs, misc), TransportAfter(es, FailuresOf(answers)), misc, t, i)
  {
    hide AfterOp, TransportStep, Same, Performed, InTime;
    if es != [] {
      var n := |es| - 1;
      TransportRefined(es[..n], answers, bufs, misc, t, i);
      assert es[n] in es;
      OpRefined(SbusAfter(es[..n], answers, bufs, misc), TransportAfter(es[..n], FailuresOf(answers)),
                FailuresOf(answers), bufs(n), answers(n), misc, es[n], t, i);
    } else {
      BlankIsSame(misc, t, i);
    }
  }

  lemma BlankIsSame(misc: Word, t: Table, i: nat)
    ensures Same(map[], BlankHw, misc, t, i)
  {
  }

  lemma OpRefined(
    cells: Cells, hw: Hw, f: Faults, d: Buffer, a: Answer, misc: Word, e: EntryOp, t: Table, i: nat)
    requires i < Entries(t) && Fits(e) && (e.Put? ==> InTime(a) || !a.late) && f(hw.clock) == !Performed(a)
    requires Same(cells, hw, misc, t, i)
    ensures Same(AfterOp(cells, d, a, e, misc), TransportStep(hw, f, e), misc, t, i)
  {
    hide Same, Performed, Transact, Block, SbusCalls.AfterWrite, Write;
    match e
    case Put(_, _, _) => PutRefined(cells, hw, f, a, misc, e, t, i);
    case Fetch(t', i') =>
      BlockFits(t');
      ReadEffect(d, cells, a, READ_MEM, Block(BaseAddr(t')), SbusCalls.IndexedAddr(BaseAddr(t'), i'), EntryWords(t'));
      TickKeepsSame(cells, hw, misc, t, i);
  }

  lemma TickKeepsSame(cells: Cells, hw: Hw, misc: Word, t: Table, i: nat)
    requires Same(cells, hw, misc, t, i)
    ensures Same(cells, Tick(hw), misc, t, i)
  {
  }

  lemma PutRefined(cells: Cells, hw: Hw, f: Faults, a: Answer, misc: Word, e: EntryOp, t: Table, i: nat)
    requires i < Entries(t) && e.Put? && Fits(e) && (InTime(a) || !a.late) && f(hw.clock) == !Performed(a)
    requires Same(cells, hw, misc, t, i)
    ensures Same(SbusCalls.AfterWrite(cells, a, TableKey(e.t, e.i), e.ws, misc),
                 Write(hw, f, e.t, e.i, e.ws).0, misc, t, i)
  {
    hide TableKey, Performed, Delivered;
    if TableKey(t, i) == TableKey(e.t, e.i) {
      TableKeysDistinct(t, i, e.t, e.i);
    }
  }

  lemma BlockFits(t: Table)
    ensures Block(BaseAddr(t)) < 64
  {
  }

  // What sbus_mem_read reports of an entry.
  function ChipRead(d: Buffer, cells: Cells, a: Answer, t: Table, i: nat): Option<seq<Word>> {
    if !Accepted(a) then None
    else
      Some(Fetched(d, cells, a, READ_MEM, Block(BaseAddr(t)), SbusCalls.IndexedAddr(BaseAddr(t), i), EntryWords(t)))
  }

  // Word k of what a refused read brings back: words that came with the error, then the old
  // buffer, which begins with the address of the command itself.
  function LeftoverWord(d: Buffer, a: Answer, addr: Word, k: nat): Word
    requires k < MSG_WORDS - 1
  {
    if k < |a.junk| then a.junk[k] else if k == 0 then addr else d[1 + k]
  }

  function Leftover(d: Buffer, a: Answer, t: Table, i: nat): (ws: seq<Word>)
    requires i < Entries(t)
    ensures |ws| == EntryWords(t)
    ensures forall k: nat | k < |ws| :: ws[k] == LeftoverWord(d, a, BaseAddr(t) + i, k)
  {
    seq(EntryWords(t), k requires 0 <= k < EntryWords(t) => LeftoverWord(d, a, BaseAddr(t) + i, k))
  }

  // A read's outcome in the transport, by the chip's answer.
  function OutcomeOf(d: Buffer, a: Answer, t: Table, i: nat): ReadOutcome
    requires i < Entries(t)
  {
    if !Accepted(a) then Fails else if Carries(a) then Truthful else Refused(Leftover(d, a, t, i))
  }

  function OutcomesOf(es: seq<EntryOp>, answers: nat -> Answer, bufs: nat -> Buffer): ReadOutcomes {
    (n: nat) => if n < |es| && Fits(es[n]) then OutcomeOf(bufs(n), answers(n), es[n].t, es[n].i) else Fails
  }

  // A performed read brings back what the transport holds, as delivered: word for word exactly
  // when the entry was never written, has at most five words, or agrees with MISC_CONTROL. Any
  // other read reports the same in both.
  lemma ReadRefined(d: Buffer, cells: Cells, hw: Hw, g: ReadOutcomes, a: Answer, misc: Word, t: Table, i: nat)
    requires i < Entries(t) && Same(cells, hw, misc, t, i) && g(hw.clock) == OutcomeOf(d, a, t, i)
    ensures Performed(a) ==> ChipRead(d, cells, a, t, i) == Some(Held(hw, t, i, misc))
    ensures ChipRead(d, cells, a, t, i) == ReadAt(hw, g, t, i, hw.clock)
       <==> (Performed(a) && (t, i) in hw.mem && EntryWords(t) > 5 ==> hw.mem[(t, i)][5] == misc)
  {
    hide Block, Clean, Fetched, Entry;
    var (blk, addr) := (Block(BaseAddr(t)), SbusCalls.IndexedAddr(BaseAddr(t), i));
    BlockFits(t);
    if Performed(a) {
      ReadEffect(d, cells, a, READ_MEM, blk, addr, EntryWords(t));
      HeldIsRead(cells, hw, misc, t, i);
    } else if Accepted(a) {
      forall k: nat | k < EntryWords(t)
        ensures Fetched(d, cells, a, READ_MEM, blk, addr, EntryWords(t))[k] == Leftover(d, a, t, i)[k]
      {
        RefusedRead(d, cells, a, READ_MEM, blk, addr, EntryWords(t), k);
      }
      assert Fetched(d, cells, a, READ_MEM, blk, addr, EntryWords(t)) == Brought(Leftover(d, a, t, i), EntryWords(t));
    }
  }

  lemma HeldIsRead(cells: Cells, hw: Hw, misc: Word, t: Table, i: nat)
    requires Same(cells, hw, misc, t, i)
    ensures Words(cells, TableKey(t, i), EntryWords(t)) == Held(hw, t, i, misc)
    ensures Held(hw, t, i, misc) == Entry(hw, t, i)
       <==> ((t, i) in hw.mem && EntryWords(t) > 5 ==> hw.mem[(t, i)][5] == misc)
  {
    hide TableKey;
  }

  // So over every sequence of table operations, each read of it reports what the transport does.
  lemma ReadsRefined(es: seq<EntryOp>, answers: nat -> Answer, bufs: nat -> Buffer, misc: Word, n: nat)
    requires forall e | e in es :: Fits(e)
    requires forall k: nat | k < |es| && es[k].Put? :: InTime(answers(k)) || !answers(k).late
    requires n < |es| && es[n].Fetch?
    ensures var (e, hw) := (es[n], TransportAfter(es[..n], FailuresOf(answers)));
      var seen := ChipRead(bufs(n), SbusAfter(es[..n], answers, bufs, misc), answers(n), e.t, e.i);
      && (Performed(answers(n)) ==> seen == Some(Held(hw, e.t, e.i, misc)))
      && (EntryWords(e.t) <= 5 ==> seen == ReadAt(hw, OutcomesOf(es, answers, bufs), e.t, e.i, n))
  {
    hide Same, Performed, InTime, ChipRead, OutcomeOf, SbusAfter, Held;
    assert es[n] in es;
    TransportRefined(es[..n], answers, bufs, misc, es[n].t, es[n].i);
    ReadRefined(bufs(n), SbusAfter(es[..n], answers, bufs, misc), TransportAfter(es[..n], FailuresOf(answers)),
                OutcomesOf(es, answers, bufs), answers(n), misc, es[n].t, es[n].i);
  }

  // ----- Refused reads -----

  lemma RefusalIsRefused()
    ensures Accepted(SbusCalls.REFUSAL) && !Carries(SbusCalls.REFUSAL)
  {
    assert BitOf(0x40, 6);
  }

  // An error without data makes a read report its own address.
  lemma RefusalReported(d: Buffer, cells: Cells, t: Table, i: nat)
    requires i < Entries(t)
    ensures var r := ChipRead(d, cells, SbusCalls.REFUSAL, t, i);
      r.Some? && |r.value| == EntryWords(t) && r.value[0] == BaseAddr(t) + i
  {
    RefusalIsRefused();
    hide Accepted, Carries, Fetched, Block;
    RefusedRead(d, cells, SbusCalls.REFUSAL, READ_MEM, Block(BaseAddr(t)),
                SbusCalls.IndexedAddr(BaseAddr(t), i), EntryWords(t), 0);
  }

  // The slots of the user table that an error without data makes look free: the even ones.
  lemma RefusedSlotLooksFreeIff(d: Buffer, cells: Cells, i: nat)
    requires i < L2User.SLOTS
    ensures L2User.LooksFree(ChipRead(d, cells, SbusCalls.REFUSAL, L2UserEntry, i)) <==> i % 2 == 0
  {
    hide ChipRead;
    RefusalReported(d, cells, L2UserEntry, i);
  }

  // The input: such an answer to the first read of an add. Slot 0 is overwritten, whatever it
  // held, and the add reports success.
  lemma RefusalLosesEntry(d: Buffer, hw: Hw, f: Faults, g: ReadOutcomes, ws: seq<Word>)
    requires g(hw.clock) == OutcomeOf(d, SbusCalls.REFUSAL, L2UserEntry, 0) && !f(hw.clock + 1)
    ensures var o := L2User.AddFrom(hw, f, g, ws, 0);
      o.rc == 0 && o.index == 0 && Entry(o.hw, L2UserEntry, 0) == ws
  {
    RefusalIsRefused();
    hide Accepted, Carries, L2User.AddFrom, Entry;
    assert Brought(Leftover(d, SbusCalls.REFUSAL, L2UserEntry, 0), 5)[0] == BaseAddr(L2UserEntry);
    assert L2User.SeenFree(hw, g, 0, 0);
    L2User.AddTakesFirstThatLooksFree(hw, f, g, ws, 0, 0);
  }

  // A lookup misses an entry whose read meets such an answer, unless its address begins with 7.
  lemma RefusalMissesEntry(d: Buffer, cells: Cells, i: nat, mac: Macs.Mac, vid: nat)
    requires i < L2.ENTRIES && mac[0] != 7
    ensures var r := ChipRead(d, cells, SbusCalls.REFUSAL, L2Entry, i);
      r.Some? && !L2.Matches(r.value, mac, vid)
  {
    hide ChipRead, L2.Matches;
    RefusalReported(d, cells, L2Entry, i);
    var ws := ChipRead(d, cells, SbusCalls.REFUSAL, L2Entry, i).value;
    assert ws == Brought([BaseAddr(L2Entry) + i] + ws[1..], 4);
    if L2.Matches(ws, mac, vid) {
      L2Lookup.OwnAddressMatches(i, ws[1..], mac, vid);
    }
  }

  // Tables of at most five words are delivered as they are.
  lemma ShortTablesExact(t: Table, ws: seq<Word>, misc: Word)
    requires |ws| == EntryWords(t)
    ensures t != L3Defip && t != L3EcmpGroup && t != VlanIng && t != VlanEgr ==> Delivered(ws, misc) == ws
    ensures t == L3Defip || t == L3EcmpGroup || t == VlanIng || t == VlanEgr ==>
      (Delivered(ws, misc) == ws <==> ws[5] == misc)
  {
  }

  // ----- Routes: word 5 of a DEFIP entry holds nothing -----

  lemma RouteUnharmed(e: seq<Word>, misc: Word, addr: Word)
    requires |e| == 8
    ensures Defip.Hit(Delivered(e, misc), addr) == Defip.Hit(e, addr)
    ensures L3.NextHopIndex(Delivered(e, misc)) == L3.NextHopIndex(e)
  {
    hide BitOf, L3.Key;
    var r := Delivered(e, misc);
    assert forall k: nat | k < 160 :: Bit(r, k) == Bit(e, k);
    assert forall b: nat | b < 44 ::
      Defip.KeyBit(r, b) == Defip.KeyBit(e, b) && Defip.MaskBit(r, b) == Defip.MaskBit(e, b);
    WordFrame(e, 5, misc, 207, 14);
  }

  // ----- VLAN rows -----

  lemma IngressVlanUnharmed(w: seq<Word>, misc: Word)
    requires |w| == 10
    ensures Vlan.DecodeIng(Delivered(w, misc)) == Vlan.DecodeIng(w)
  {
    hide BitOf;
  }

  // The egress row loses the first 30 ports of its member set to MISC_CONTROL.
  lemma EgressVlanDelivered(w: seq<Word>, misc: Word)
    requires |w| == 8
    ensures var (was, now) := (Vlan.DecodeEgr(w), Vlan.DecodeEgr(Delivered(w, misc)));
      && now.valid == was.valid && now.stg == was.stg
      && now.ports % 0x4000_0000 == misc / 4 && now.ports / 0x4000_0000 == was.ports / 0x4000_0000
      && now.untagged % 0x1_0000_0000_0000_0000 == was.untagged % 0x1_0000_0000_0000_0000
      && now.untagged / 0x1_0000_0000_0000_0000 == misc % 4
  {
    LowPart(w[5], w[6], w[7]);
    LowPart(misc, w[6], w[7]);
    HighPart(w[3], w[4], w[5]);
    HighPart(w[3], w[4], misc);
  }

  lemma LowPart(x: Word, y: Word, z: Word)
    ensures var v := x / 4 + y * 0x4000_0000 + (z % 0x10) * 0x4000_0000_0000_0000;
      v % 0x4000_0000 == x / 4 && v / 0x4000_0000 == y + (z % 0x10) * 0x1_0000_0000
  {
    DivModUnique(x / 4 + y * 0x4000_0000 + (z % 0x10) * 0x4000_0000_0000_0000, 0x4000_0000,
      y + (z % 0x10) * 0x1_0000_0000, x / 4);
  }

  lemma HighPart(x: Word, y: Word, z: Word)
    ensures var v := x + y * 0x1_0000_0000 + (z % 4) * 0x1_0000_0000_0000_0000;
      v % 0x1_0000_0000_0000_0000 == x + y * 0x1_0000_0000 && v / 0x1_0000_0000_0000_0000 == z % 4
  {
    DivModUnique(x + y * 0x1_0000_0000 + (z % 4) * 0x1_0000_0000_0000_0000, 0x1_0000_0000_0000_0000,
      z % 4, x + y * 0x1_0000_0000);
  }

  // In every run, a row's egress entry arrives intact exactly when MISC_CONTROL happens to be
  // four times the low 30 bits of the member bitmap; never when either of its low bits is set.
  lemma EgressVlanIntactIff(ops: seq<Vlan.Op>, f: Faults, v: nat, misc: Word)
    requires v < Vlan.VLANS
    ensures var s := Vlan.After(ops, f);
      && (Vlan.DecodeEgr(Delivered(s.egr[v], misc)) == Vlan.DecodeEgr(s.egr[v])
          <==> misc == 4 * (s.egrPbm[v] % 0x4000_0000))
  {
    hide Vlan.After, Vlan.MembershipAfter, Vlan.Encodes, Vlan.DecodeIng;
    Vlan.RunKeepsRows(ops, f, v);
    EgressVlanDelivered(Vlan.After(ops, f).egr[v], misc);
    hide Vlan.DecodeEgr;
    var was := Vlan.DecodeEgr(Vlan.After(ops, f).egr[v]);
    var now := Vlan.DecodeEgr(Delivered(Vlan.After(ops, f).egr[v], misc));
    assert was.untagged / 0x1_0000_0000_0000_0000 == 0;
    assert misc == 4 * (misc / 4) + misc % 4;
  }

  // ----- ECMP groups -----

  // A group's run and size arrive intact, and so do its first five fast-path members.
  lemma EcmpHeaderUnharmed(ws: seq<Word>, misc: Word)
    requires |ws| == 7
    ensures Ecmp.BasePtr(Delivered(ws, misc)) == Ecmp.BasePtr(ws)
    ensures Ecmp.Count(Delivered(ws, misc)) == Ecmp.Count(ws)
    ensures forall i: nat | i < 5 :: Ecmp.FastPathMember(Delivered(ws, misc), i) == Ecmp.FastPathMember(ws, i)
  {
    hide Field;
    WordFrame(ws, 5, misc, 10, 12);
    WordFrame(ws, 5, misc, 0, 10);
    forall i: nat | i < 5 ensures Ecmp.FastPathMember(Delivered(ws, misc), i) == Ecmp.FastPathMember(ws, i) {
      Ecmp.FastPathLayout(i);
      WordFrame(ws, 5, misc, Ecmp.OIF_BITS[i], 13);
    }
  }

  // A later member arrives intact exactly when MISC_CONTROL agrees with it where they overlap.
  lemma EcmpLateMemberIff(ws: seq<Word>, misc: Word, i: nat)
    requires |ws| == 7 && 5 <= i < 8
    ensures Ecmp.FastPathMember(Delivered(ws, misc), i) == Ecmp.FastPathMember(ws, i)
       <==> forall j: nat | j < 13 && 160 <= 82 + 14 * i + j < 192 ::
              BitOf(Ecmp.FastPathMember(ws, i), j) == BitOf(misc, 82 + 14 * i + j - 160)
  {
    hide Field, BitOf;
    Ecmp.FastPathLayout(i);
    var s := Ecmp.OIF_BITS[i];
    var r := Delivered(ws, misc);
    forall j: nat | j < 13
      ensures BitOf(Field(ws, s, 13), j) == Bit(ws, s + j)
      ensures BitOf(Field(r, s, 13), j) == if 160 <= s + j < 192 then BitOf(misc, s + j - 160) else Bit(ws, s + j)
    {
      BitOfField(ws, s, 13, j);
      BitOfField(r, s, 13, j);
    }
    if forall j: nat | j < 13 && 160 <= s + j < 192 :: BitOf(Field(ws, s, 13), j) == BitOf(misc, s + j - 160) {
      forall k: nat | s <= k < s + 13 ensures Bit(r, k) == Bit(ws, k) {
        assert BitOf(Field(ws, s, 13), k - s) == Bit(ws, s + (k - s));
        assert BitOf(Field(r, s, 13), k - s) == Bit(r, s + (k - s)) by { BitOfField(r, s, 13, k - s); }
      }
      FieldFrame(r, ws, s, 13);
    }
  }
}
