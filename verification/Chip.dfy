/** The chip behind the S-Channel: it decodes messages and answers when it likes, with an error, or not at all. */
module Chip {
  import opened Bits
  import opened Schan
  import opened Sbus

  datatype Kind = Register | Memory

  datatype Key = Key(kind: Kind, block: nat, addr: Word)

  type Cells = map<Key, seq<Word>>

  // The first n words of an entry; what was never written reads as zeros.
  function Words(cells: Cells, key: Key, n: nat): (ws: seq<Word>)
    ensures |ws| == n
  {
    seq(n, i requires 0 <= i < n => if key in cells && i < |cells[key]| then cells[key][i] else 0)
  }

  function KindOf(op: nat): Kind {
    if op == WRITE_REG || op == READ_REG then Register else Memory
  }

  function Execute(cells: Cells, msg: seq<Word>): Cells
    requires |msg| == MSG_WORDS
  {
    var r := DecodeHeader(msg[0]);
    if (r.op == WRITE_REG || r.op == WRITE_MEM) && 2 + r.dwords <= MSG_WORDS then
      cells[Key(KindOf(r.op), r.blk, msg[1]) := msg[2..2 + r.dwords]]
    else cells
  }

  // The response to a message, after its header.
  function Response(cells: Cells, msg: seq<Word>): (ws: seq<Word>)
    requires |msg| == MSG_WORDS
    ensures |ws| < MSG_WORDS
  {
    var r := DecodeHeader(msg[0]);
    if (r.op == READ_REG || r.op == READ_MEM) && r.dwords < MSG_WORDS then
      Words(cells, Key(KindOf(r.op), r.blk, msg[1]), r.dwords)
    else []
  }

  type Junk = ws: seq<Word> | |ws| < MSG_WORDS

  // What the chip does about one message: after latency polls, of the budget polls that the
  // driver makes before its deadline, it raises DONE with a response header. A message that
  // meets an error changes nothing; one that misses the deadline may or may not take effect.
  datatype Answer = Answer(
    latency: nat, budget: nat, late: bool,
    hdr: Word, junk: Junk, ser: bool, nak: bool, timeout: bool)

  // Neither ERR (bit 6) nor NACK (bit 0).
  predicate Clean(hdr: Word) {
    !BitOf(hdr, 6) && !BitOf(hdr, 0)
  }

  predicate InTime(a: Answer) {
    a.latency < a.budget
  }

  predicate Accepted(a: Answer) {
    InTime(a) && !a.nak && !a.timeout
  }

  // The target carries the message out.
  predicate Carries(a: Answer) {
    !a.nak && !a.timeout && Clean(a.hdr)
  }

  predicate Performed(a: Answer) {
    InTime(a) && Carries(a)
  }

  predicate TakesEffect(a: Answer) {
    Performed(a) || (!InTime(a) && a.late)
  }

  function Reply(cells: Cells, a: Answer, msg: seq<Word>): (ws: seq<Word>)
    requires |msg| == MSG_WORDS
    ensures 1 <= |ws| <= MSG_WORDS && ws[0] == a.hdr
  {
    [a.hdr] + if Carries(a) then Response(cells, msg) else a.junk
  }

  // The message buffer at START.
  function Loaded(d: seq<Word>, cmd: seq<Word>): (m: seq<Word>)
    requires |d| == MSG_WORDS && |cmd| <= MSG_WORDS
    ensures |m| == MSG_WORDS
  {
    var m := Overlay(d, cmd);
    if |cmd| > 7 then m[MISC := d[MISC]] else m
  }

  datatype Outcome = Outcome(d: seq<Word>, cells: Cells, status: int, regs: seq<Word>)

  // One whole S-Channel operation; regs is the buffer as the driver reads it.
  function Transact(d: seq<Word>, cells: Cells, a: Answer, cmd: seq<Word>): (o: Outcome)
    requires |d| == MSG_WORDS && 1 <= |cmd| <= MSG_WORDS
    ensures |o.d| == |o.regs| == MSG_WORDS && o.d[MISC] == d[MISC]
    ensures o.status == 0 <==> Accepted(a)
    ensures o.status == -ETIMEDOUT <==> !InTime(a)
    ensures o.status == -EIO <==> InTime(a) && (a.nak || a.timeout)
  {
    var m := Loaded(d, cmd);
    var regs := if InTime(a) then Overlay(m, Reply(cells, a, m)) else m;
    Outcome(
      regs[MISC := d[MISC]],
      if TakesEffect(a) then Execute(cells, m) else cells,
      if !InTime(a) then -ETIMEDOUT else if a.timeout || a.nak then -EIO else 0,
      regs)
  }

  // ----- What a write delivers -----

  // Data word 5 travels in message word 7, where the driver has put MISC_CONTROL back.
  function Delivered(data: seq<Word>, misc: Word): (r: seq<Word>)
    ensures |r| == |data|
  {
    if |data| > 5 then data[5 := misc] else data
  }

  function WriteMessage(op: nat, blk: Word, addr: Word, data: seq<Word>): (cmd: seq<Word>)
    requires op < 64 && |data| <= MAX_DATA
    ensures |cmd| == 2 + |data|
  {
    [Header(op, blk, |data|), addr] + data
  }

  function ReadMessage(op: nat, blk: Word, addr: Word, n: nat): seq<Word>
    requires op < 64 && n <= MAX_DATA
  {
    [Header(op, blk, n), addr]
  }

  predicate IsWrite(op: nat) {
    op == WRITE_REG || op == WRITE_MEM
  }

  // The entry a write message names: with a block number of 64 or more the opcode that arrives
  // may be another one, and the entry a register's instead of a memory's, or none.
  function WriteKey(op: nat, blk: Word, addr: Word): Key
    requires op < 64
  {
    Key(KindOf(SentOp(op, blk)), blk % 64, addr)
  }

  // A write message, when it takes effect, replaces exactly one entry, by what was delivered.
  lemma WriteEffect(d: seq<Word>, cells: Cells, a: Answer, op: nat, blk: Word, addr: Word, data: seq<Word>)
    requires |d| == MSG_WORDS && op < 64 && |data| <= MAX_DATA
    ensures Transact(d, cells, a, WriteMessage(op, blk, addr, data)).cells
         == if TakesEffect(a) && IsWrite(SentOp(op, blk))
            then cells[WriteKey(op, blk, addr) := Delivered(data, d[MISC])] else cells
  {
    hide DecodeHeader, Header, Reply, TakesEffect, InTime, BitOf, SentOp;
    var cmd := WriteMessage(op, blk, addr, data);
    HeaderDecodes(op, blk, |data|);
    assert Loaded(d, cmd)[2..2 + |data|] == Delivered(data, d[MISC]);
  }

  // What a read message brings back, whoever filled the buffer.
  function Fetched(d: seq<Word>, cells: Cells, a: Answer, op: nat, blk: Word, addr: Word, n: nat): (ws: seq<Word>)
    requires |d| == MSG_WORDS && op < 64 && n <= MAX_DATA
    ensures |ws| == n
  {
    Transact(d, cells, a, ReadMessage(op, blk, addr, n)).regs[1..1 + n]
  }

  // A read message changes no entry, and when the target performs it brings back the entry.
  lemma ReadEffect(d: seq<Word>, cells: Cells, a: Answer, op: nat, blk: Word, addr: Word, n: nat)
    requires |d| == MSG_WORDS && blk < 64 && n <= MAX_DATA
    requires op == READ_REG || op == READ_MEM
    ensures Transact(d, cells, a, ReadMessage(op, blk, addr, n)).cells == cells
    ensures Performed(a) ==> Fetched(d, cells, a, op, blk, addr, n) == Words(cells, Key(KindOf(op), blk, addr), n)
  {
    hide DecodeHeader, Header, TakesEffect, Clean, Words;
    HeaderDecodes(op, blk, n);
  }

  // When the target answers with an error, a read brings back what came with the error and, past
  // that, what was in the buffer: first the address of the command itself.
  lemma RefusedRead(d: seq<Word>, cells: Cells, a: Answer, op: nat, blk: Word, addr: Word, n: nat, i: nat)
    requires |d| == MSG_WORDS && op < 64 && i < n <= MAX_DATA && InTime(a) && !Carries(a)
    ensures Fetched(d, cells, a, op, blk, addr, n)[i]
         == if i < |a.junk| then a.junk[i] else if i == 0 then addr else d[1 + i]
  {
    hide Header, Clean, Response, Execute;
    var regs := Transact(d, cells, a, ReadMessage(op, blk, addr, n)).regs;
    assert Fetched(d, cells, a, op, blk, addr, n)[i] == regs[1 + i];
    assert regs == Overlay(Loaded(d, ReadMessage(op, blk, addr, n)), [a.hdr] + a.junk);
  }

  // Reading an entry back yields what was given to the write exactly when the entry is at most
  // five words long or its sixth word happens to equal MISC_CONTROL.
  lemma ReadsBackIff(cells: Cells, key: Key, data: seq<Word>, misc: Word)
    ensures Words(cells[key := Delivered(data, misc)], key, |data|) == data
        <==> |data| <= 5 || data[5] == misc
  {
    var ws := Words(cells[key := Delivered(data, misc)], key, |data|);
    assert ws == Delivered(data, misc);
  }
}
