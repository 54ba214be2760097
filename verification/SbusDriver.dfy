/** The S-Channel PIO routine over live registers, and the SBUS register and memory calls built
    on it.

    The device acts while the driver polls: after a number of polls of its own choosing it
    overwrites the message buffer and raises DONE, or it misses the deadline and may then carry
    the message out late. Every method is proved against the message-level model in module
    Chip: an operation leaves the registers and the chip's contents as one exchange does, and
    a register or memory call adds to that what the C code makes of the outcome. */
module SbusDriver {
  import opened Bits
  import opened Schan
  import opened SchanSafety
  import opened Sbus
  import opened Chip
  import opened SbusCalls

  const EINVAL: int := 22
  const SCHAN_CTRL: nat := 20
  const MAX_MSG_WORDS: nat := 21

  class Driver {
    var bar: Bar0
    var cells: Cells
    // S-Channel operations carried out so far.
    var turn: nat
    const answers: nat -> Answer

    ghost predicate Valid()
      reads this
    {
      CanBeFound(bar)
    }

    constructor (bar: Found, answers: nat -> Answer)
      ensures Valid() && this.bar == bar && cells == map[] && turn == 0 && this.answers == answers
    {
      this.bar := bar;
      cells := map[];
      turn := 0;
      this.answers := answers;
    }

    // ----- Registers -----

    method IoWrite(n: nat, v: Word)
      requires n <= SCHAN_CTRL && |bar.d| == MSG_WORDS
      modifies this`bar
      ensures bar == DWrite(old(bar), n, v, turn) && |bar.d| == MSG_WORDS
    {
      bar := DWrite(bar, n, v, turn);
    }

    method IoRead(n: nat) returns (v: Word)
      requires n <= SCHAN_CTRL && |bar.d| == MSG_WORDS
      ensures v == DRead(bar, n)
    {
      v := DRead(bar, n);
    }

    method Abort()
      requires |bar.d| == MSG_WORDS
      modifies this`bar
      ensures bar.d == old(bar.d) && bar.dev.Quiet? && StatusClear(bar.ctrl)
    {
      hide BitOf, CtrlAfter;
      for k := 0 to 7
        invariant bar.d == old(bar.d) && (k > 0 ==> bar.dev.Quiet?)
        invariant ClearedTo(bar.ctrl, k)
        invariant k == 7 ==> StatusClear(bar.ctrl)
      {
        AbortClears(bar.ctrl, k);
        IoWrite(SCHAN_CTRL, ABORT_WRITES[k]);
      }
    }

    // ----- The device -----

    method Serve(a: Answer)
      requires |bar.d| == MSG_WORDS && bar.dev.Busy? && |bar.dev.msg| == MSG_WORDS
      modifies this`bar, this`cells
      ensures bar == Bar0(Overlay(old(bar.d), Reply(old(cells), a, old(bar.dev.msg))),
                          Flags(old(bar.ctrl), a.ser, a.nak, a.timeout), Quiet)
      ensures cells == if Performed(a) then Execute(old(cells), old(bar.dev.msg)) else old(cells)
    {
      var msg := bar.dev.msg;
      bar := Bar0(Overlay(bar.d, Reply(cells, a, msg)), Flags(bar.ctrl, a.ser, a.nak, a.timeout), Quiet);
      if Performed(a) {
        cells := Execute(cells, msg);
      }
    }

    // The deadline passed; the device may still carry the message out before the abort.
    method ServeLate(a: Answer)
      requires bar.dev.Busy? && |bar.dev.msg| == MSG_WORDS
      modifies this`cells
      ensures cells == if a.late then Execute(old(cells), bar.dev.msg) else old(cells)
    {
      if a.late {
        cells := Execute(cells, bar.dev.msg);
      }
    }

    // ----- The PIO routine -----

    // Abort whatever an earlier operation left behind.
    method DiscardStale()
      requires Valid()
      modifies this`bar
      ensures bar.d == old(bar.d) && bar.dev.Quiet? && StatusClear(bar.ctrl)
    {
      var ctrl := IoRead(SCHAN_CTRL);
      if ctrl != 0 {
        Abort();
      } else {
        forall bit: nat ensures !BitOf(0, bit) { ZeroBits(bit); }
      }
    }

    // Write the command over the live registers, and put MISC_CONTROL back when it was hit.
    method Load(cmd: seq<Word>, misc: Word)
      requires |bar.d| == MSG_WORDS && bar.dev.Quiet? && StatusClear(bar.ctrl)
      requires 1 <= |cmd| <= MAX_MSG_WORDS && misc == bar.d[MISC]
      modifies this`bar
      ensures |bar.d| == MSG_WORDS
      ensures |cmd| <= MSG_WORDS ==> bar.dev.Quiet? && StatusClear(bar.ctrl) && bar.d == Loaded(old(bar.d), cmd)
    {
      hide StatusClear, CtrlWrite;
      ghost var d0 := bar.d;
      for i := 0 to |cmd|
        invariant |bar.d| == MSG_WORDS
        invariant i <= MSG_WORDS ==> bar == old(bar).(d := cmd[..i] + d0[i..])
      {
        IoWrite(i, cmd[i]);
      }
      if |cmd| > 7 {
        IoWrite(MISC, misc);
      }
    }

    // Poll SCHAN_CTRL until DONE or the deadline.
    method Poll(a: Answer) returns (done: bool, ctrl: Word)
      requires |bar.d| == MSG_WORDS && bar.dev.Busy? && |bar.dev.msg| == MSG_WORDS
      modifies this`bar, this`cells
      ensures |bar.d| == MSG_WORDS
      ensures !BitOf(old(bar.ctrl), DONE) && !BitOf(old(bar.ctrl), NAK) && !BitOf(old(bar.ctrl), TIMEOUT) ==>
        && done == InTime(a)
        && (done ==> BitOf(ctrl, NAK) == a.nak && BitOf(ctrl, TIMEOUT) == a.timeout)
        && bar.d == (if done then Overlay(old(bar.d), Reply(old(cells), a, old(bar.dev.msg))) else old(bar.d))
        && cells == (if TakesEffect(a) then Execute(old(cells), old(bar.dev.msg)) else old(cells))
    {
      hide BitOf, Execute, Reply;
      ghost var clear := !BitOf(bar.ctrl, DONE) && !BitOf(bar.ctrl, NAK) && !BitOf(bar.ctrl, TIMEOUT);
      ghost var flagged := Flags(bar.ctrl, a.ser, a.nak, a.timeout);
      if clear {
        FlagBits(bar.ctrl, a.ser, a.nak, a.timeout);
      }
      hide Flags;
      done, ctrl := false, 0;
      var polls := 0;
      while polls < a.budget && !done
        invariant polls <= a.budget && |bar.d| == MSG_WORDS
        invariant !done && polls <= a.latency ==> bar == old(bar) && cells == old(cells)
        invariant clear && !done ==> polls <= a.latency
        invariant clear && done ==> polls == a.latency && InTime(a) && ctrl == flagged
        invariant clear && done ==> bar.d == Overlay(old(bar.d), Reply(old(cells), a, old(bar.dev.msg)))
        invariant clear && done ==> cells == if Performed(a) then Execute(old(cells), old(bar.dev.msg)) else old(cells)
        decreases a.budget - polls, !done
      {
        if polls == a.latency {
          Serve(a);
        }
        ctrl := IoRead(SCHAN_CTRL);
        if BitOf(ctrl, DONE) {
          done := true;
        } else {
          polls := polls + 1;
        }
      }
      if !done && bar.dev.Busy? && |bar.dev.msg| == MSG_WORDS {
        ServeLate(a);
      }
    }

    method ReadBuffer(n: nat) returns (data: seq<Word>)
      requires n <= MAX_MSG_WORDS && |bar.d| == MSG_WORDS
      ensures |data| == n && (n <= MSG_WORDS ==> data == bar.d[..n])
    {
      data := [];
      for i := 0 to n
        invariant |data| == i && (i <= MSG_WORDS ==> data == bar.d[..i])
      {
        var v := IoRead(i);
        data := data + [v];
      }
    }

    // Whatever happens, MISC_CONTROL comes back, the status bits are clear and the device is
    // idle; a command of up to 20 words has exactly the effect of one message.
    method SchanOp(cmd: seq<Word>, dataWords: nat) returns (rc: int, status: int, data: seq<Word>)
      requires Valid()
      modifies this
      ensures Valid() && bar.d[MISC] == old(bar.d[MISC])
      ensures rc == if 1 <= |cmd| <= 21 && dataWords <= 21 then 0 else -EINVAL
      ensures rc != 0 ==> bar == old(bar) && cells == old(cells) && turn == old(turn)
      ensures rc == 0 ==>
        && turn == old(turn) + 1 && StatusClear(bar.ctrl) && bar.dev.Quiet?
        && (status == 0 || status == -EIO || status == -ETIMEDOUT)
      ensures rc == 0 && |cmd| <= MSG_WORDS ==>
        var o := Transact(old(bar.d), old(cells), answers(old(turn)), cmd);
        && bar.d == o.d && cells == o.cells && status == o.status
        && (status == 0 && dataWords <= MSG_WORDS ==> data == o.regs[..dataWords])
      ensures rc == 0 && |cmd| <= MSG_WORDS ==>
        var a := answers(old(turn));
        && (status == -ETIMEDOUT <==> a.latency >= a.budget)
        && (status == -EIO <==> a.latency < a.budget && (a.nak || a.timeout))
    {
      rc, status, data := 0, -1, [];
      if |cmd| == 0 || |cmd| > MAX_MSG_WORDS || dataWords > MAX_MSG_WORDS {
        rc := -EINVAL;
        return;
      }
      hide BitOf, CtrlAfter, Execute, Reply;
      var a := answers(turn);
      var savedMisc := IoRead(MISC);
      DiscardStale();
      Load(cmd, savedMisc);
      StatusBits(bar.ctrl, SET_START);
      IoWrite(SCHAN_CTRL, SET_START);
      var done, ctrl := Poll(a);
      if done {
        if BitOf(ctrl, TIMEOUT) || BitOf(ctrl, NAK) {
          Abort();
          IoWrite(MISC, savedMisc);
          status := -EIO;
        } else {
          data := ReadBuffer(dataWords);
          Abort();
          IoWrite(MISC, savedMisc);
          status := 0;
        }
      } else {
        Abort();
        IoWrite(MISC, savedMisc);
        status := -ETIMEDOUT;
      }
      turn := turn + 1;
    }

    // The user-space hop: at most 16 message words go out and 16 data words come back.
    method BdeSchanOp(cmd: seq<Word>) returns (rc: int, status: int, data: seq<Word>)
      requires Valid()
      modifies this
      ensures Valid() && bar.d[MISC] == old(bar.d[MISC])
      ensures rc == if 1 <= |cmd| <= USER_WORDS then 0 else -1
      ensures rc != 0 ==> bar == old(bar) && cells == old(cells) && turn == old(turn)
      ensures rc == 0 ==>
        var o := Transact(old(bar.d), old(cells), answers(old(turn)), cmd);
        && turn == old(turn) + 1 && bar.d == o.d && cells == o.cells && status == o.status
        && (status == 0 ==> data == o.regs[..USER_WORDS])
    {
      if |cmd| == 0 || |cmd| > USER_WORDS {
        return -1, -1, [];
      }
      rc, status, data := SchanOp(cmd, USER_WORDS);
    }

    // ----- Registers over SBUS -----

    // Success means only that DONE came without NAK or TIMEOUT: an error of the target itself
    // goes unseen.
    method RegWrite(addr: Word, value: Word) returns (rc: int)
      requires Valid()
      modifies this
      ensures Valid() && bar.d[MISC] == old(bar.d[MISC]) && turn == old(turn) + 1
      ensures rc == if Accepted(answers(old(turn))) then 0 else -1
      ensures cells == AfterWrite(old(cells), answers(old(turn)), RegKey(Block(addr), addr), [value], 0)
    {
      hide BitOf, Block, Header, Transact, AfterWrite, Accepted;
      var status, data;
      RegWriteEffect(bar.d, cells, answers(turn), addr, value);
      rc, status, data := BdeSchanOp([Header(WRITE_REG, Block(addr), 1), addr, value]);
      rc := if rc < 0 || status != 0 then -1 else 0;
    }

    // On an error of the target the value is whatever the buffer held, and success is reported.
    method RegRead(addr: Word) returns (rc: int, value: Word)
      requires Valid()
      modifies this
      ensures Valid() && bar.d[MISC] == old(bar.d[MISC]) && turn == old(turn) + 1 && cells == old(cells)
      ensures rc == if Accepted(answers(old(turn))) then 0 else -1
      ensures Accepted(answers(old(turn))) ==> value == FetchedReg(old(bar.d), cells, answers(old(turn)), addr)
      ensures Performed(answers(old(turn))) ==> value == RegAt(cells, addr)
    {
      var status, data;
      hide BitOf, Block, Header, Words;
      ghost var o := Transact(bar.d, cells, answers(turn), ReadMessage(READ_REG, Block(addr), addr, 1));
      ReadEffect(bar.d, cells, answers(turn), READ_REG, Block(addr), addr, 1);
      rc, status, data := BdeSchanOp([Header(READ_REG, Block(addr), 1), addr]);
      if rc < 0 || status != 0 {
        return -1, 0;
      }
      value := data[1];
      assert value == o.regs[..USER_WORDS][1] == o.regs[1..2][0];
    }

    // Two separate operations: the bits outside the mask are written back as they were read.
    method RegModify(addr: Word, mask: Word, value: Word) returns (rc: int)
      requires Valid()
      modifies this
      ensures Valid() && bar.d[MISC] == old(bar.d[MISC])
      ensures var (a, b) := (answers(old(turn)), answers(old(turn) + 1));
        && rc == (if Accepted(a) && Accepted(b) then 0 else -1)
        && cells == AfterModify(old(bar.d), old(cells), a, b, addr, mask, value)
    {
      hide BitOf, Block, Merge, Words, Fetched;
      var cur;
      rc, cur := RegRead(addr);
      if rc < 0 {
        return -1;
      }
      rc := RegWrite(addr, MergeWord(cur, mask, value));
    }

    // ----- Memories over SBUS -----

    method MemWrite(addr: Word, index: int, data: seq<Word>) returns (rc: int)
      requires Valid()
      modifies this
      ensures Valid() && bar.d[MISC] == old(bar.d[MISC]) && turn == old(turn) + 1
      ensures rc == if Performed(answers(old(turn))) then 0 else -1
      ensures cells == AfterWrite(old(cells), answers(old(turn)), MemKey(Block(addr), addr, index),
                                  if |data| <= 14 then data else data[..14], old(bar.d[MISC]))
    {
      hide Block;
      rc := MemWriteBlk(Block(addr), addr, index, data);
    }

    // The block number is not checked: from 64 on its high bits reach the opcode.
    method MemWriteBlk(blk: Word, addr: Word, index: int, data: seq<Word>) returns (rc: int)
      requires Valid()
      modifies this
      ensures Valid() && bar.d[MISC] == old(bar.d[MISC]) && turn == old(turn) + 1
      ensures rc == if Performed(answers(old(turn))) then 0 else -1
      ensures cells == AfterBlkWrite(old(cells), answers(old(turn)), blk, IndexedAddr(addr, index),
                                     if |data| <= 14 then data else data[..14], old(bar.d[MISC]))
    {
      hide BitOf, Header, Execute, Response, SentOp;
      var n := |data|;
      if n > MAX_DATA {
        n := MAX_DATA;
      }
      var cmd := [Header(WRITE_MEM, blk, n), IndexedAddr(addr, index)];
      for i := 0 to n
        invariant cmd == [Header(WRITE_MEM, blk, n), IndexedAddr(addr, index)] + data[..i]
      {
        cmd := cmd + [data[i]];
      }
      assert data[..n] == if |data| <= MAX_DATA then data else data[..MAX_DATA];
      WriteEffect(bar.d, cells, answers(turn), WRITE_MEM, blk, IndexedAddr(addr, index), data[..n]);
      assert cmd == WriteMessage(WRITE_MEM, blk, IndexedAddr(addr, index), data[..n]);
      var status, resp;
      rc, status, resp := BdeSchanOp(cmd);
      if rc < 0 || status != 0 {
        return -1;
      }
      rc := if BitOf(resp[0], 6) || BitOf(resp[0], 0) then -1 else 0;
    }

    // A read of a table entry reports success without looking at the response header.
    method MemRead(addr: Word, index: int, n: nat) returns (rc: int, data: seq<Word>)
      requires Valid()
      modifies this
      ensures Valid() && bar.d[MISC] == old(bar.d[MISC]) && turn == old(turn) + 1 && cells == old(cells)
      ensures rc == if Accepted(answers(old(turn))) then 0 else -1
      ensures Accepted(answers(old(turn))) ==>
        data == Fetched(old(bar.d), cells, answers(old(turn)), READ_MEM, Block(addr), IndexedAddr(addr, index),
                        if n <= 14 then n else 14)
      ensures Performed(answers(old(turn))) ==>
        data == Words(cells, MemKey(Block(addr), addr, index), if n <= 14 then n else 14)
    {
      hide BitOf, Block, Header, Words;
      var m := n;
      if m > MAX_DATA {
        m := MAX_DATA;
      }
      var a := IndexedAddr(addr, index);
      ghost var o := Transact(bar.d, cells, answers(turn), ReadMessage(READ_MEM, Block(addr), a, m));
      ReadEffect(bar.d, cells, answers(turn), READ_MEM, Block(addr), a, m);
      var status, resp;
      rc, status, resp := BdeSchanOp([Header(READ_MEM, Block(addr), m), a]);
      if rc < 0 || status != 0 {
        return -1, [];
      }
      data := resp[1..1 + m];
      assert 1 + m <= USER_WORDS <= |o.regs|;
      assert resp == o.regs[..USER_WORDS];
      assert o.regs[..USER_WORDS][1..1 + m] == o.regs[1..1 + m];
    }
  }
}
