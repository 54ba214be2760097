/** What the SBUS register and table calls do to the chip's contents, as functions of the answers
    that their S-Channel exchanges get. */
module SbusCalls {
  import opened Bits
  import opened Schan
  import opened Sbus
  import opened Chip

  // addr + (uint32_t)index
  function IndexedAddr(addr: Word, index: int): Word {
    (addr + index) % 0x1_0000_0000
  }

  function MemKey(blk: nat, addr: Word, index: int): Key {
    Key(Memory, blk, IndexedAddr(addr, index))
  }

  function RegKey(blk: nat, addr: Word): Key {
    Key(Register, blk, addr)
  }

  function AfterWrite(cells: Cells, a: Answer, key: Key, data: seq<Word>, misc: Word): Cells {
    if TakesEffect(a) then cells[key := Delivered(data, misc)] else cells
  }

  // The message of a register write, as a call sends it.
  lemma RegWriteEffect(d: seq<Word>, cells: Cells, a: Answer, addr: Word, value: Word)
    requires |d| == MSG_WORDS
    ensures Transact(d, cells, a, [Header(WRITE_REG, Block(addr), 1), addr, value]).cells
         == AfterWrite(cells, a, RegKey(Block(addr), addr), [value], 0)
  {
    hide Block, Header, Transact, TakesEffect;
    WriteEffect(d, cells, a, WRITE_REG, Block(addr), addr, [value]);
    assert WriteMessage(WRITE_REG, Block(addr), addr, [value]) == [Header(WRITE_REG, Block(addr), 1), addr, value];
  }

  // A write to an explicit block.
  function AfterBlkWrite(cells: Cells, a: Answer, blk: Word, addr: Word, data: seq<Word>, misc: Word): Cells {
    if IsWrite(SentOp(WRITE_MEM, blk)) then AfterWrite(cells, a, WriteKey(WRITE_MEM, blk, addr), data, misc) else cells
  }

  // A register as a read reports it, also when the target answered with an error.
  function FetchedReg(d: seq<Word>, cells: Cells, a: Answer, addr: Word): Word
    requires |d| == MSG_WORDS
  {
    Fetched(d, cells, a, READ_REG, Block(addr), addr, 1)[0]
  }

  // A read answered by a, and then the write-back answered by b.
  function AfterModify(d: seq<Word>, cells: Cells, a: Answer, b: Answer, addr: Word, mask: Word, value: Word): Cells
    requires |d| == MSG_WORDS
  {
    if !Accepted(a) then cells
    else AfterWrite(cells, b, RegKey(Block(addr), addr), [MergeWord(FetchedReg(d, cells, a, addr), mask, value)], 0)
  }

  function RegAt(cells: Cells, addr: Word): Word {
    Words(cells, RegKey(Block(addr), addr), 1)[0]
  }

  // Both words have the same bits outside the mask.
  ghost predicate AgreeOutside(x: Word, y: Word, mask: Word) {
    forall i: nat | !BitOf(mask, i) :: BitOf(x, i) == BitOf(y, i)
  }

  // A modify that gets to write keeps the register's other bits exactly when the word its read
  // reported has them; so it does whenever the target performed the read.
  lemma ModifyKeepsOthersIff(d: seq<Word>, cells: Cells, a: Answer, b: Answer, addr: Word, mask: Word, value: Word)
    requires |d| == MSG_WORDS && Accepted(a) && TakesEffect(b)
    ensures var after := RegAt(AfterModify(d, cells, a, b, addr, mask, value), addr);
      && (forall i: nat | BitOf(mask, i) :: BitOf(after, i) == BitOf(value, i))
      && (AgreeOutside(after, RegAt(cells, addr), mask)
          <==> AgreeOutside(FetchedReg(d, cells, a, addr), RegAt(cells, addr), mask))
      && (Performed(a) ==> FetchedReg(d, cells, a, addr) == RegAt(cells, addr))
  {
    hide BitOf, Merge, Fetched, Block, TakesEffect, Accepted;
    var cur := FetchedReg(d, cells, a, addr);
    ReadEffect(d, cells, a, READ_REG, Block(addr), addr, 1);
    assert RegAt(AfterModify(d, cells, a, b, addr, mask, value), addr) == MergeWord(cur, mask, value);
    forall i: nat
      ensures BitOf(MergeWord(cur, mask, value), i) == if BitOf(mask, i) then BitOf(value, i) else BitOf(cur, i)
    {
      MergeBits(cur, mask, value, i);
    }
  }

  // An error of the target that brings no data with it.
  const REFUSAL := Answer(0, 1, false, 0x40, [], false, false, false)

  // The input: the read is refused by the target but reported as a success, the word it reports
  // is the register's own address, and that is what the register then holds, mask or no mask.
  lemma RefusedReadIsWrittenBack(d: seq<Word>, cells: Cells, b: Answer, addr: Word)
    requires |d| == MSG_WORDS && TakesEffect(b)
    ensures Accepted(REFUSAL) && FetchedReg(d, cells, REFUSAL, addr) == addr
    ensures RegAt(AfterModify(d, cells, REFUSAL, b, addr, 0, 0), addr) == addr
  {
    assert !Clean(0x40) by { assert BitOf(0x40, 6); }
    RefusedRead(d, cells, REFUSAL, READ_REG, Block(addr), addr, 1, 0);
    hide Block, Fetched, TakesEffect;
    MergeNone(addr);
  }

  lemma MergeNone(cur: Word)
    ensures Merge(cur, 0, 0) == cur
  {
    hide BitOf, Merge;
    forall i: nat ensures BitOf(Merge(cur, 0, 0), i) == BitOf(cur, i) {
      MergeBits(cur, 0, 0, i);
      ZeroBits(i);
    }
    BitsDetermine(Merge(cur, 0, 0), cur);
  }
}
