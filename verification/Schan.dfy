/** The S-Channel PIO transaction of the kernel driver: its message buffer overlays live
    registers, its control register is set and cleared bit by bit, a mutex serialises callers,
    and the device answers when it likes or not at all. Every register access is one step, so
    any number of callers and the device interleave freely. */
module Schan {
  import opened Bits
  import opened Wrappers

  const EIO: int := 5
  const ETIMEDOUT: int := 110

  // SCHAN_D(0..19); SCHAN_D(20) is SCHAN_CTRL itself.
  const MSG_WORDS: nat := 20
  // MISC_CONTROL is SCHAN_D(7).
  const MISC: nat := 7

  // SCHAN_CTRL bits.
  const START: nat := 0
  const DONE: nat := 1
  const ABORT: nat := 2
  const SER: nat := 20
  const NAK: nat := 21
  const TIMEOUT: nat := 22

  // Byte writes of cmice_schan_abort: set ABORT, then clear ABORT, START, DONE, SER, NAK, TIMEOUT.
  const ABORT_WRITES: seq<Word> := [0x82, 0x02, 0x00, 0x01, 0x14, 0x15, 0x16]
  const SET_START: Word := 0x80

  // ----- Registers and device -----

  // Stale: still working on a message that was started before the first call.
  datatype Device = Quiet | Busy(serial: nat, msg: seq<Word>) | Stale(msg: seq<Word>)

  datatype Bar0 = Bar0(d: seq<Word>, ctrl: Word, dev: Device)

  // Writing 0x80 | b sets bit b of SCHAN_CTRL, writing b clears it.
  function CtrlAfter(ctrl: Word, v: Word): Word {
    PutInWord(ctrl, v % 32, (v / 0x80) % 2 == 1)
  }

  // Setting START hands the message buffer to the device; setting ABORT takes it back.
  function CtrlWrite(b: Bar0, v: Word, serial: nat): Bar0 {
    var dev := if v == SET_START then Busy(serial, b.d) else if v == ABORT_WRITES[0] then Quiet else b.dev;
    b.(ctrl := CtrlAfter(b.ctrl, v), dev := dev)
  }

  // iowrite32 to SCHAN_D(n).
  function DWrite(b: Bar0, n: nat, v: Word, serial: nat): Bar0
    requires n <= MSG_WORDS && |b.d| == MSG_WORDS
  {
    if n == MSG_WORDS then CtrlWrite(b, v, serial) else b.(d := b.d[n := v])
  }

  // ioread32 of SCHAN_D(n).
  function DRead(b: Bar0, n: nat): Word
    requires n <= MSG_WORDS && |b.d| == MSG_WORDS
  {
    if n == MSG_WORDS then b.ctrl else b.d[n]
  }

  // A response overwrites the message buffer from word 0.
  function Overlay(d: seq<Word>, resp: seq<Word>): (r: seq<Word>)
    requires |resp| <= |d|
    ensures |r| == |d|
  {
    resp + d[|resp|..]
  }

  lemma CtrlBits(ctrl: Word, v: Word, bit: nat)
    requires bit < 32
    ensures BitOf(CtrlAfter(ctrl, v), bit) == if bit == v % 32 then (v / 0x80) % 2 == 1 else BitOf(ctrl, bit)
  {
    SetOneBits(ctrl, v % 32, bit);
    ClearOneBits(ctrl, v % 32, bit);
  }

  lemma StatusBits(ctrl: Word, v: Word)
    ensures forall bit: nat | bit < 32 ::
      BitOf(CtrlAfter(ctrl, v), bit) == if bit == v % 32 then (v / 0x80) % 2 == 1 else BitOf(ctrl, bit)
  {
    hide BitOf, CtrlAfter;
    forall bit: nat | bit < 32
      ensures BitOf(CtrlAfter(ctrl, v), bit) == if bit == v % 32 then (v / 0x80) % 2 == 1 else BitOf(ctrl, bit)
    {
      CtrlBits(ctrl, v, bit);
    }
  }

  // ----- Callers -----

  datatype Then = ToWrite | ToPost

  datatype Pc =
    | Idle | Waiting
    | Saving | Checking
    | Aborting(k: nat, andThen: Then)
    | Writing(i: nat) | PreRestoring | Starting
    | Polling | Reading(i: nat)
    | PostRestoring | Unlocking

  // serial numbers the caller's START; reply counts the completions up to the one it saw DONE for.
  datatype Caller = Caller(
    pc: Pc, cmd: seq<Word>, dataWords: nat, saved: Word,
    serial: nat, reply: nat, data: seq<Word>, status: int)

  datatype StartRecord = StartRecord(tid: nat, msg: seq<Word>)

  // What the device has done about a message: answered it or, when late, carried it out without
  // ever raising DONE.
  datatype Completion = Completion(serial: nat, regs: seq<Word>, ser: bool, nak: bool, timeout: bool, late: bool)

  datatype Result = Result(tid: nat, call: Caller)

  datatype Mutex = Free | HeldBy(tid: nat)

  // first is MISC_CONTROL as the first call saved it, and early the answer of a stale device that
  // came before that.
  datatype State = State(
    bar: Bar0, mutex: Mutex, callers: seq<Caller>,
    starts: seq<StartRecord>, done: seq<Completion>, results: seq<Result>,
    first: Option<Word>, early: Option<seq<Word>>)

  datatype Choice =
    | Begin(tid: nat, cmd: seq<Word>, dataWords: nat)
    | Run(tid: nat, expired: bool)
    | Interrupt(tid: nat)
    | Complete(resp: seq<Word>, ser: bool, nak: bool, timeout: bool)
    | Vanish

  function WithPc(s: State, t: nat, pc: Pc): State
    requires t < |s.callers|
  {
    s.(callers := s.callers[t := s.callers[t].(pc := pc)])
  }

  function WithCaller(s: State, t: nat, c: Caller): State
    requires t < |s.callers|
  {
    s.(callers := s.callers[t := c])
  }

  function Waiters(s: State, t: nat): State
    requires t < |s.callers|
  {
    if s.mutex.Free? then WithPc(s, t, Saving).(mutex := HeldBy(t)) else s
  }

  function PollStep(s: State, t: nat, expired: bool): State
    requires t < |s.callers|
  {
    var c := s.callers[t];
    if expired then WithCaller(s, t, c.(status := -ETIMEDOUT, pc := Aborting(0, ToPost)))
    else if !BitOf(s.bar.ctrl, DONE) then s
    else if BitOf(s.bar.ctrl, TIMEOUT) || BitOf(s.bar.ctrl, NAK) then
      WithCaller(s, t, c.(status := -EIO, reply := |s.done|, pc := Aborting(0, ToPost)))
    else WithCaller(s, t, c.(data := [], reply := |s.done|, pc := Reading(0)))
  }

  // One register access, or one lock operation, of caller t.
  function CallerStep(s: State, t: nat, expired: bool): State
    requires t < |s.callers| && |s.bar.d| == MSG_WORDS
  {
    var c := s.callers[t];
    match c.pc
    case Idle => s
    case Waiting => Waiters(s, t)
    case Saving =>
      WithCaller(s, t, c.(saved := DRead(s.bar, MISC), pc := Checking))
        .(first := if s.first.None? then Some(DRead(s.bar, MISC)) else s.first)
    case Checking => WithPc(s, t, if s.bar.ctrl != 0 then Aborting(0, ToWrite) else Writing(0))
    case Aborting(k, andThen) =>
      if k >= 7 then s
      else
        WithPc(s, t, if k < 6 then Aborting(k + 1, andThen) else if andThen.ToWrite? then Writing(0) else PostRestoring)
          .(bar := CtrlWrite(s.bar, ABORT_WRITES[k], 0))
    case Writing(i) =>
      if i < |c.cmd| && i <= MSG_WORDS then WithPc(s, t, Writing(i + 1)).(bar := DWrite(s.bar, i, c.cmd[i], |s.starts|))
      else WithPc(s, t, if |c.cmd| > 7 then PreRestoring else Starting)
    case PreRestoring => WithPc(s, t, Starting).(bar := DWrite(s.bar, MISC, c.saved, 0))
    case Starting =>
      WithCaller(s, t, c.(serial := |s.starts|, pc := Polling))
        .(bar := CtrlWrite(s.bar, SET_START, |s.starts|), starts := s.starts + [StartRecord(t, s.bar.d)])
    case Polling => PollStep(s, t, expired)
    case Reading(i) =>
      if i < c.dataWords && i <= MSG_WORDS then
        WithCaller(s, t, c.(data := c.data + [DRead(s.bar, i)], pc := Reading(i + 1)))
      else WithCaller(s, t, c.(status := 0, pc := Aborting(0, ToPost)))
    case PostRestoring => WithPc(s, t, Unlocking).(bar := DWrite(s.bar, MISC, c.saved, 0))
    case Unlocking => WithPc(s, t, Idle).(mutex := Free, results := s.results + [Result(t, c)])
  }

  function Flags(ctrl: Word, ser: bool, nak: bool, timeout: bool): Word {
    var w := PutInWord(ctrl, DONE, true);
    var w := if ser then PutInWord(w, SER, true) else w;
    var w := if nak then PutInWord(w, NAK, true) else w;
    if timeout then PutInWord(w, TIMEOUT, true) else w
  }

  function DeviceStep(s: State, resp: seq<Word>, ser: bool, nak: bool, timeout: bool): State
    requires !s.bar.dev.Quiet? && |resp| <= |s.bar.d|
  {
    var d := Overlay(s.bar.d, resp);
    var s' := s.(bar := Bar0(d, Flags(s.bar.ctrl, ser, nak, timeout), Quiet));
    if s.bar.dev.Busy? then s'.(done := s.done + [Completion(s.bar.dev.serial, d, ser, nak, timeout, false)])
    else if s.first.None? then s'.(early := Some(resp))
    else s'
  }

  // The device carries its message out and says nothing.
  function VanishStep(s: State): State
    requires !s.bar.dev.Quiet?
  {
    var s' := s.(bar := s.bar.(dev := Quiet));
    if s.bar.dev.Busy? then s'.(done := s.done + [Completion(s.bar.dev.serial, s.bar.d, false, false, false, true)])
    else s'
  }

  // A begun call is accepted for 1..20 message words and up to 21 data words. Choices that do
  // not apply change nothing.
  function Step(s: State, x: Choice): (s': State)
    requires |s.bar.d| == MSG_WORDS
    ensures |s'.bar.d| == MSG_WORDS && |s'.callers| == |s.callers|
  {
    match x
    case Begin(t, cmd, dataWords) =>
      if t < |s.callers| && s.callers[t].pc.Idle? && 1 <= |cmd| <= MSG_WORDS && dataWords <= MSG_WORDS + 1
      then WithCaller(s, t, Caller(Waiting, cmd, dataWords, 0, 0, 0, [], -1))
      else s
    case Run(t, expired) => if t < |s.callers| then CallerStep(s, t, expired) else s
    case Interrupt(t) => if t < |s.callers| && s.callers[t].pc.Waiting? then WithPc(s, t, Idle) else s
    case Complete(resp, ser, nak, timeout) =>
      if !s.bar.dev.Quiet? && |resp| <= MSG_WORDS then DeviceStep(s, resp, ser, nak, timeout) else s
    case Vanish => if !s.bar.dev.Quiet? then VanishStep(s) else s
  }

  // Registers and device as the first call may find them: any status bits may be set, and with
  // START set the device may still be working.
  predicate CanBeFound(b: Bar0) {
    |b.d| == MSG_WORDS && (b.dev.Quiet? || (b.dev.Stale? && BitOf(b.ctrl, START)))
  }

  type Found = b: Bar0 | CanBeFound(b) witness Bar0(seq(MSG_WORDS, _ => 0), 0, Quiet)

  function Initial(n: nat, b: Found): (s: State)
    ensures |s.bar.d| == MSG_WORDS && |s.callers| == n && forall t | 0 <= t < n :: s.callers[t].pc == Idle
  {
    State(b, Free, seq(n, _ => Caller(Idle, [], 0, 0, 0, 0, [], -1)), [], [], [], None, None)
  }

  function After(n: nat, b: Found, xs: seq<Choice>): (s: State)
    ensures |s.bar.d| == MSG_WORDS && |s.callers| == n
  {
    if xs == [] then Initial(n, b) else Step(After(n, b, xs[..|xs| - 1]), xs[|xs| - 1])
  }

  // ----- What a finished call may claim -----

  // The message that a command becomes: word 7 of a long one is the saved MISC_CONTROL.
  predicate MessageIs(msg: seq<Word>, cmd: seq<Word>, misc: Word) {
    && |msg| == MSG_WORDS && |cmd| <= MSG_WORDS
    && forall j | 0 <= j < |cmd| :: msg[j] == if j == MISC then misc else cmd[j]
  }

  predicate AnsweredBy(c: Caller, done: seq<Completion>) {
    0 < c.reply <= |done| && done[c.reply - 1].serial == c.serial && !done[c.reply - 1].late
  }

  // The call sent its own command, and what it reports is the device's answer to that command.
  predicate Faithful(t: nat, c: Caller, misc: Word, starts: seq<StartRecord>, done: seq<Completion>) {
    && c.saved == misc
    && c.serial < |starts| && starts[c.serial].tid == t && MessageIs(starts[c.serial].msg, c.cmd, misc)
    && (c.status == 0 || c.status == -EIO || c.status == -ETIMEDOUT)
    && (c.status == 0 ==>
          && AnsweredBy(c, done) && !done[c.reply - 1].nak && !done[c.reply - 1].timeout
          && |c.data| == c.dataWords && |done[c.reply - 1].regs| == MSG_WORDS
          && forall i | 0 <= i < c.dataWords && i < MSG_WORDS :: c.data[i] == done[c.reply - 1].regs[i])
    && (c.status == -EIO ==> AnsweredBy(c, done) && (done[c.reply - 1].nak || done[c.reply - 1].timeout))
  }
}
