/** Any number of threads share the bus: every successful call acts as if alone, when its answer is given. */
module SharedBus {
  import opened Bits
  import opened Schan
  import opened SchanSafety
  import opened Sbus
  import opened Chip

  // ----- The history of answers as a history of the chip's contents -----

  // Answered, and without an error.
  predicate Done(c: Completion) {
    !c.late && |c.regs| == MSG_WORDS && !c.nak && !c.timeout && Clean(c.regs[0])
  }

  predicate Effective(c: Completion) {
    c.late || Done(c)
  }

  predicate Known(starts: seq<StartRecord>, done: seq<Completion>) {
    && (forall k | 0 <= k < |done| :: done[k].serial < |starts|)
    && (forall i | 0 <= i < |starts| :: |starts[i].msg| == MSG_WORDS)
  }

  // The chip's contents after the first k of the messages that were answered or carried out late.
  function CellsAfter(base: Cells, starts: seq<StartRecord>, done: seq<Completion>, k: nat): Cells
    requires Known(starts, done) && k <= |done|
  {
    if k == 0 then base
    else
      var before := CellsAfter(base, starts, done, k - 1);
      if Effective(done[k - 1]) then Execute(before, starts[done[k - 1].serial].msg) else before
  }

  // base is what the chip held before any message of these callers.
  datatype Bus = Bus(s: State, cells: Cells, base: Cells)

  datatype Event = Move(x: Choice) | Serve(a: Answer) | ServeLate

  predicate Working(dev: Device) {
    !dev.Quiet? && |dev.msg| == MSG_WORDS
  }

  // The message at work has or has not been carried out: a stale one changes the base.
  function WithCells(b: Bus, s': State, carried: bool): Bus
    requires Working(b.s.bar.dev)
  {
    var cells := if carried then Execute(b.cells, b.s.bar.dev.msg) else b.cells;
    Bus(s', cells, if b.s.bar.dev.Stale? then cells else b.base)
  }

  // Callers take any step; the chip alone answers, or carries a message out and never says so.
  function Step(b: Bus, e: Event): (b': Bus)
    requires |b.s.bar.d| == MSG_WORDS
    ensures |b'.s.bar.d| == MSG_WORDS && |b'.s.callers| == |b.s.callers|
  {
    match e
    case Move(x) => if x.Complete? || x.Vanish? then b else b.(s := Schan.Step(b.s, x))
    case Serve(a) =>
      if Working(b.s.bar.dev) then
        WithCells(b, Schan.Step(b.s, Complete(Reply(b.cells, a, b.s.bar.dev.msg), a.ser, a.nak, a.timeout)), Carries(a))
      else b
    case ServeLate => if Working(b.s.bar.dev) then WithCells(b, Schan.Step(b.s, Vanish), true) else b
  }

  function After(n: nat, f: Found, cells: Cells, es: seq<Event>): (b: Bus)
    ensures |b.s.bar.d| == MSG_WORDS && |b.s.callers| == n
  {
    if es == [] then Bus(Schan.Initial(n, f), cells, cells)
    else Step(After(n, f, cells, es[..|es| - 1]), es[|es| - 1])
  }

  // ----- Invariant -----

  // An answer without an error carries what the chip held when it was given.
  predicate AnswersServe(base: Cells, starts: seq<StartRecord>, done: seq<Completion>)
    requires Known(starts, done)
  {
    forall k | 0 <= k < |done| && Done(done[k]) ::
      var resp := Response(CellsAfter(base, starts, done, k), starts[done[k].serial].msg);
      done[k].regs[1..1 + |resp|] == resp
  }

  predicate Served(b: Bus) {
    && Known(b.s.starts, b.s.done)
    && (b.s.bar.dev.Busy? ==>
          b.s.bar.dev.serial < |b.s.starts| && b.s.bar.dev.msg == b.s.starts[b.s.bar.dev.serial].msg)
    && b.cells == CellsAfter(b.base, b.s.starts, b.s.done, |b.s.done|)
    && AnswersServe(b.base, b.s.starts, b.s.done)
  }

  // A stale message has been carried out or not; nothing else changes the base.
  predicate Based(b: Bus, f: Found, cells: Cells) {
    && (b.s.bar.dev.Stale? ==> b.s.bar.dev == f.dev && b.base == cells)
    && (b.base == cells || (f.dev.Stale? && |f.dev.msg| == MSG_WORDS && b.base == Execute(cells, f.dev.msg)))
  }

  // Later STARTs and answers leave the contents after the first k answers as they were.
  lemma {:induction false} PastIsFixed(
    base: Cells, starts: seq<StartRecord>, done: seq<Completion>,
    starts': seq<StartRecord>, done': seq<Completion>, k: nat)
    requires Known(starts, done) && Known(starts', done') && starts <= starts' && done <= done' && k <= |done|
    ensures CellsAfter(base, starts', done', k) == CellsAfter(base, starts, done, k)
    decreases k
  {
    hide Execute;
    if k > 0 {
      PastIsFixed(base, starts, done, starts', done', k - 1);
    }
  }

  lemma AnswersStayServed(
    base: Cells, starts: seq<StartRecord>, done: seq<Completion>, starts': seq<StartRecord>, done': seq<Completion>)
    requires Known(starts, done) && Known(starts', done') && starts <= starts' && done <= done'
    requires AnswersServe(base, starts, done)
    ensures forall k | 0 <= k < |done| && Done(done[k]) ::
      var resp := Response(CellsAfter(base, starts', done', k), starts'[done'[k].serial].msg);
      done'[k].regs[1..1 + |resp|] == resp
  {
    hide Execute, Response, CellsAfter, Clean;
    forall k | 0 <= k < |done| && Done(done[k])
      ensures var resp := Response(CellsAfter(base, starts', done', k), starts'[done'[k].serial].msg);
        done'[k].regs[1..1 + |resp|] == resp
    {
      PastIsFixed(base, starts, done, starts', done', k);
    }
  }

  // A caller's step starts at most one message, and answers none.
  lemma MoveEffect(s: State, x: Choice, misc: Word)
    requires |s.bar.d| == MSG_WORDS && Inv(s, misc) && !x.Complete? && !x.Vanish?
    ensures var s' := Schan.Step(s, x);
      && s'.done == s.done
      && (s'.starts == s.starts || s'.starts == s.starts + [StartRecord(x.tid, s.bar.d)])
      && (s'.bar.dev.Busy? ==>
            || (s'.bar.dev == s.bar.dev && s'.starts == s.starts)
            || (s'.bar.dev == Busy(|s.starts|, s.bar.d) && s'.starts != s.starts))
      && (s'.bar.dev.Stale? ==> s'.bar.dev == s.bar.dev)
  {
    hide Inv, CallerStep;
    if x.Run? && x.tid < |s.callers| {
      RunEffect(s, x.tid, x.expired, misc);
    }
  }

  lemma RunEffect(s: State, t: nat, expired: bool, misc: Word)
    requires |s.bar.d| == MSG_WORDS && Inv(s, misc) && t < |s.callers|
    ensures var s' := CallerStep(s, t, expired);
      && s'.done == s.done
      && (s'.starts == s.starts || s'.starts == s.starts + [StartRecord(t, s.bar.d)])
      && (|| (s'.bar.dev == s.bar.dev && s'.starts == s.starts)
          || s'.bar.dev == Quiet
          || (s'.bar.dev == Busy(|s.starts|, s.bar.d) && s'.starts != s.starts))
  {
    hide BitOf, Faithful, Ordered, MessageIs, CtrlAfter, AtRest, Between, StatusClear, ClearedTo, Before;
  }

  lemma MoveKeepsServed(b: Bus, x: Choice, misc: Word)
    requires |b.s.bar.d| == MSG_WORDS && Inv(b.s, misc) && Served(b) && !x.Complete? && !x.Vanish?
    ensures Served(Step(b, Move(x)))
    ensures var dev := Step(b, Move(x)).s.bar.dev; dev.Stale? ==> dev == b.s.bar.dev
  {
    hide Inv, Schan.Step, Execute, Response, CellsAfter, Done;
    var s' := Schan.Step(b.s, x);
    MoveEffect(b.s, x, misc);
    PastIsFixed(b.base, b.s.starts, b.s.done, s'.starts, s'.done, |b.s.done|);
    AnswersStayServed(b.base, b.s.starts, b.s.done, s'.starts, s'.done);
  }

  // What the buffer holds once the device has replied.
  lemma ReplyInBuffer(d: seq<Word>, cells: Cells, a: Answer, msg: seq<Word>)
    requires |d| == |msg| == MSG_WORDS
    ensures var regs := Overlay(d, Reply(cells, a, msg));
      && regs[0] == a.hdr
      && (Carries(a) ==> var resp := Response(cells, msg); regs[1..1 + |resp|] == resp)
  {
    hide Response, Clean;
  }

  // The device is done with a message, one way or the other.
  lemma FinishKeepsServed(b: Bus, b': Bus, c: Completion)
    requires |b.s.bar.d| == |b'.s.bar.d| == MSG_WORDS && Served(b) && b.s.bar.dev.Busy?
    requires |b.s.bar.dev.msg| == MSG_WORDS && c.serial == b.s.bar.dev.serial
    requires b'.base == b.base && b'.s.starts == b.s.starts && b'.s.done == b.s.done + [c] && b'.s.bar.dev.Quiet?
    requires b'.cells == if Effective(c) then Execute(b.cells, b.s.bar.dev.msg) else b.cells
    requires Done(c) ==> var resp := Response(b.cells, b.s.bar.dev.msg); c.regs[1..1 + |resp|] == resp
    ensures Served(b')
  {
    hide Execute, Response, AnswersServe, CellsAfter, Done;
    var n := |b.s.done|;
    PastIsFixed(b.base, b.s.starts, b.s.done, b'.s.starts, b'.s.done, n);
    CellsStep(b.base, b'.s.starts, b'.s.done, n + 1);
    AnswersExtend(b.base, b.s.starts, b.s.done, b'.s.done);
  }

  lemma ServeKeepsServed(b: Bus, a: Answer)
    requires |b.s.bar.d| == MSG_WORDS && Served(b) && b.s.bar.dev.Busy? && |b.s.bar.dev.msg| == MSG_WORDS
    ensures Served(Step(b, Serve(a)))
  {
    hide Execute, Response, Flags, Clean, Served;
    ReplyInBuffer(b.s.bar.d, b.cells, a, b.s.bar.dev.msg);
    hide Reply;
    var b' := Step(b, Serve(a));
    FinishKeepsServed(b, b', b'.s.done[|b.s.done|]);
  }

  lemma LateKeepsServed(b: Bus)
    requires |b.s.bar.d| == MSG_WORDS && Served(b) && b.s.bar.dev.Busy? && |b.s.bar.dev.msg| == MSG_WORDS
    ensures Served(Step(b, ServeLate))
  {
    hide Execute, Response, Served;
    var b' := Step(b, ServeLate);
    FinishKeepsServed(b, b', b'.s.done[|b.s.done|]);
  }

  // A stale message is out of the way before there are any others.
  lemma StaleKeepsServed(b: Bus, e: Event, f: Found, cells: Cells, misc: Word)
    requires |b.s.bar.d| == MSG_WORDS && Inv(b.s, misc) && Served(b) && Based(b, f, cells)
    requires b.s.bar.dev.Stale? && |b.s.bar.dev.msg| == MSG_WORDS && !e.Move?
    ensures Served(Step(b, e)) && Based(Step(b, e), f, cells)
  {
    hide Execute, Response, Reply, Flags, Clean, HolderOk, Ordered, Faithful;
  }

  lemma CellsStep(base: Cells, starts: seq<StartRecord>, done: seq<Completion>, k: nat)
    requires Known(starts, done) && 0 < k <= |done|
    ensures var before := CellsAfter(base, starts, done, k - 1);
      CellsAfter(base, starts, done, k)
      == if Effective(done[k - 1]) then Execute(before, starts[done[k - 1].serial].msg) else before
  {
  }

  lemma AnswersExtend(base: Cells, starts: seq<StartRecord>, done: seq<Completion>, done': seq<Completion>)
    requires Known(starts, done) && Known(starts, done') && |done'| == |done| + 1 && done <= done'
    requires AnswersServe(base, starts, done)
    requires Done(done'[|done|]) ==>
      var resp := Response(CellsAfter(base, starts, done, |done|), starts[done'[|done|].serial].msg);
      done'[|done|].regs[1..1 + |resp|] == resp
    ensures AnswersServe(base, starts, done')
  {
    hide Execute, Response, CellsAfter, Done;
    AnswersStayServed(base, starts, done, starts, done');
    PastIsFixed(base, starts, done, starts, done', |done|);
  }

  lemma StepKeeps(b: Bus, e: Event, f: Found, cells: Cells)
    requires |b.s.bar.d| == MSG_WORDS && Inv(b.s, Misc(b.s)) && Served(b) && Based(b, f, cells)
    ensures Inv(Step(b, e).s, Misc(Step(b, e).s)) && Served(Step(b, e)) && Based(Step(b, e), f, cells)
  {
    hide Inv, Schan.Step, Served, Execute, Response, Misc;
    match e
    case Move(x) =>
      if !x.Complete? && !x.Vanish? {
        StepKeepsInv(b.s, x);
        MoveKeepsServed(b, x, Misc(b.s));
      }
    case Serve(a) =>
      if Working(b.s.bar.dev) {
        StepKeepsInv(b.s, Complete(Reply(b.cells, a, b.s.bar.dev.msg), a.ser, a.nak, a.timeout));
        FinishKeepsBoth(b, e, f, cells);
      }
    case ServeLate =>
      if Working(b.s.bar.dev) {
        StepKeepsInv(b.s, Vanish);
        FinishKeepsBoth(b, e, f, cells);
      }
  }

  lemma FinishKeepsBoth(b: Bus, e: Event, f: Found, cells: Cells)
    requires |b.s.bar.d| == MSG_WORDS && Inv(b.s, Misc(b.s)) && Served(b) && Based(b, f, cells)
    requires Working(b.s.bar.dev) && !e.Move?
    ensures Served(Step(b, e)) && Based(Step(b, e), f, cells)
  {
    hide Inv, Served, Execute, Response, Reply, Misc, Flags;
    if b.s.bar.dev.Stale? {
      StaleKeepsServed(b, e, f, cells, Misc(b.s));
    } else if e.Serve? {
      ServeKeepsServed(b, e.a);
    } else {
      LateKeepsServed(b);
    }
  }

  lemma {:induction false} Reachable(n: nat, f: Found, cells: Cells, es: seq<Event>)
    ensures var b := After(n, f, cells, es);
      Inv(b.s, Misc(b.s)) && Served(b) && Based(b, f, cells)
  {
    hide Inv, Step, StatusClear, Misc;
    if es == [] {
      ReachableInv(n, f, []);
    } else {
      Reachable(n, f, cells, es[..|es| - 1]);
      StepKeeps(After(n, f, cells, es[..|es| - 1]), es[|es| - 1], f, cells);
    }
  }

  // ----- The theorems -----

  // The device answered the message without an error, or carried it out late.
  predicate TookEffect(done: seq<Completion>, serial: nat) {
    exists j | 0 <= j < |done| :: done[j].serial == serial && Effective(done[j])
  }

  // The contents after those of the first k STARTs that took effect.
  function InStartOrder(base: Cells, starts: seq<StartRecord>, done: seq<Completion>, k: nat): Cells
    requires Known(starts, done) && k <= |starts|
  {
    if k == 0 then base
    else
      var before := InStartOrder(base, starts, done, k - 1);
      if TookEffect(done, k - 1) then Execute(before, starts[k - 1].msg) else before
  }

  lemma {:induction false} AnswersFollowStarts(
    base: Cells, starts: seq<StartRecord>, done: seq<Completion>, j: nat, k: nat)
    requires Known(starts, done) && j <= |done| && k <= |starts|
    requires forall i, i' | 0 <= i < i' < |done| :: done[i].serial < done[i'].serial
    requires (forall i | 0 <= i < j :: done[i].serial < k) && (forall i | j <= i < |done| :: k <= done[i].serial)
    ensures CellsAfter(base, starts, done, j) == InStartOrder(base, starts, done, k)
    decreases k
  {
    hide Execute, Effective;
    if k > 0 {
      if j > 0 && done[j - 1].serial == k - 1 {
        AnswersFollowStarts(base, starts, done, j - 1, k - 1);
      } else {
        AnswersFollowStarts(base, starts, done, j, k - 1);
      }
    }
  }

  // The chip's contents are what it held before, possibly after a stale message, and then the
  // messages that took effect, in the order of their STARTs: those answered without an error,
  // and of those that nobody saw an answer to, the ones carried out late.
  lemma ContentsInStartOrder(n: nat, f: Found, cells: Cells, es: seq<Event>)
    ensures var b := After(n, f, cells, es);
      && Known(b.s.starts, b.s.done) && Based(b, f, cells)
      && b.cells == InStartOrder(b.base, b.s.starts, b.s.done, |b.s.starts|)
  {
    hide After, HolderOk, AtRest, Faithful, Execute, Effective, AnswersServe, CellsAfter, InStartOrder;
    Reachable(n, f, cells, es);
    var b := After(n, f, cells, es);
    AnswersFollowStarts(b.base, b.s.starts, b.s.done, |b.s.done|, |b.s.starts|);
  }

  // Call i returned, and its device answer came without NAK or TIMEOUT.
  predicate Succeeded(b: Bus, i: nat) {
    i < |b.s.results| && b.s.results[i].call.status == 0 && b.s.results[i].call.dataWords == USER_WORDS
  }

  // The position of call i's answer among all answers.
  function Moment(b: Bus, i: nat): int
    requires i < |b.s.results|
  {
    b.s.results[i].call.reply - 1
  }

  predicate CallIs(b: Bus, i: nat)
    requires |b.s.bar.d| == MSG_WORDS
  {
    && Succeeded(b, i) && Known(b.s.starts, b.s.done)
    && var (c, k) := (b.s.results[i].call, Moment(b, i));
    && 0 <= k < |b.s.done| && |c.data| == USER_WORDS && |c.cmd| <= MSG_WORDS
    && |b.s.done[k].regs| == MSG_WORDS && c.data == b.s.done[k].regs[..USER_WORDS]
    && !b.s.done[k].late && Done(b.s.done[k]) == Clean(c.data[0])
    && MessageIs(b.s.starts[b.s.done[k].serial].msg, c.cmd, Misc(b.s))
    && AnswersServe(b.base, b.s.starts, b.s.done)
  }

  lemma SucceededCall(n: nat, f: Found, cells: Cells, es: seq<Event>, i: nat)
    requires Succeeded(After(n, f, cells, es), i)
    ensures CallIs(After(n, f, cells, es), i)
  {
    hide After, HolderOk, AtRest, Ordered, StatusClear, Clean, AnswersServe, CellsAfter;
    Reachable(n, f, cells, es);
    var s := After(n, f, cells, es).s;
    var r := s.results[i];
    assert r in s.results;
    assert Faithful(r.tid, r.call, Misc(s), s.starts, s.done);
    assert r.call.data == s.done[r.call.reply - 1].regs[..USER_WORDS];
  }

  // A successful write changes the chip's contents at its moment, by exactly its own entry; when
  // the response header reports an error it changes nothing.
  lemma WriteActsAtItsMoment(
    n: nat, f: Found, cells: Cells, es: seq<Event>, i: nat, op: nat, blk: Word, addr: Word, data: seq<Word>)
    requires Succeeded(After(n, f, cells, es), i)
    requires op < 64 && |data| <= MAX_DATA
    requires After(n, f, cells, es).s.results[i].call.cmd == WriteMessage(op, blk, addr, data)
    ensures var b := After(n, f, cells, es);
      && CallIs(b, i)
      && var (k, was) := (Moment(b, i), CellsAfter(b.base, b.s.starts, b.s.done, Moment(b, i)));
      && CellsAfter(b.base, b.s.starts, b.s.done, k + 1)
      == if Clean(b.s.results[i].call.data[0]) && IsWrite(SentOp(op, blk))
         then was[WriteKey(op, blk, addr) := Delivered(data, Misc(b.s))] else was
  {
    hide After, StatusClear, Clean, Header, DecodeHeader, AnswersServe, SentOp;
    SucceededCall(n, f, cells, es, i);
    var b := After(n, f, cells, es);
    HeaderDecodes(op, blk, |data|);
    var msg := b.s.starts[b.s.done[Moment(b, i)].serial].msg;
    assert msg[2..2 + |data|] == Delivered(data, Misc(b.s));
  }

  // With a block number below 64 that is the entry the call names.
  lemma PlainWriteActs(
    n: nat, f: Found, cells: Cells, es: seq<Event>, i: nat, kind: Kind, blk: Word, addr: Word, data: seq<Word>)
    requires Succeeded(After(n, f, cells, es), i) && blk < 64 && |data| <= MAX_DATA
    requires After(n, f, cells, es).s.results[i].call.cmd
          == WriteMessage(if kind == Register then WRITE_REG else WRITE_MEM, blk, addr, data)
    ensures var b := After(n, f, cells, es);
      && CallIs(b, i)
      && (Clean(b.s.results[i].call.data[0]) ==>
            var was := CellsAfter(b.base, b.s.starts, b.s.done, Moment(b, i));
            CellsAfter(b.base, b.s.starts, b.s.done, Moment(b, i) + 1)
            == was[Key(kind, blk, addr) := Delivered(data, Misc(b.s))])
  {
    hide After, Clean, CellsAfter, CallIs, WriteMessage;
    WriteActsAtItsMoment(n, f, cells, es, i, if kind == Register then WRITE_REG else WRITE_MEM, blk, addr, data);
  }

  // A successful read changes nothing and, unless the response header reports an error, returns
  // the entry as the chip held it at the read's moment.
  lemma ReadActsAtItsMoment(
    n: nat, f: Found, cells: Cells, es: seq<Event>, i: nat, op: nat, blk: Word, addr: Word, m: nat)
    requires Succeeded(After(n, f, cells, es), i)
    requires (op == READ_REG || op == READ_MEM) && blk < 64 && m <= MAX_DATA
    requires After(n, f, cells, es).s.results[i].call.cmd == ReadMessage(op, blk, addr, m)
    ensures var b := After(n, f, cells, es);
      && CallIs(b, i)
      && var (c, k) := (b.s.results[i].call, Moment(b, i));
      && var was := CellsAfter(b.base, b.s.starts, b.s.done, k);
      && CellsAfter(b.base, b.s.starts, b.s.done, k + 1) == was
      && (Clean(c.data[0]) ==> c.data[1..1 + m] == Words(was, Key(KindOf(op), blk, addr), m))
  {
    hide After, StatusClear, Clean, Header, DecodeHeader, Words;
    SucceededCall(n, f, cells, es, i);
    HeaderDecodes(op, blk, m);
    var b := After(n, f, cells, es);
    var (c, k) := (b.s.results[i].call, Moment(b, i));
    assert c.data[1..1 + m] == b.s.done[k].regs[1..1 + m];
    assert |Response(CellsAfter(b.base, b.s.starts, b.s.done, k), b.s.starts[b.s.done[k].serial].msg)| == m;
  }

  // A message carried out late is that of a call that reports a timeout, if its call has returned.
  lemma LateMeansTimedOut(n: nat, f: Found, cells: Cells, es: seq<Event>, i: nat, k: nat)
    requires var s := After(n, f, cells, es).s;
      i < |s.results| && k < |s.done| && s.done[k].late && s.done[k].serial == s.results[i].call.serial
    ensures After(n, f, cells, es).s.results[i].call.status == -ETIMEDOUT
  {
    hide After, HolderOk, AtRest, Between, StatusClear, MessageIs, Served, Based;
    Reachable(n, f, cells, es);
    var s := After(n, f, cells, es).s;
    assert s.results[i] in s.results;
    assert Faithful(s.results[i].tid, s.results[i].call, Misc(s), s.starts, s.done);
  }

  // Calls act in the order in which they return.
  lemma MomentsFollowReturns(n: nat, f: Found, cells: Cells, es: seq<Event>, i: nat, j: nat)
    requires i < j
    requires Succeeded(After(n, f, cells, es), i) && Succeeded(After(n, f, cells, es), j)
    ensures var b := After(n, f, cells, es);
      0 <= Moment(b, i) < Moment(b, j) < |b.s.done|
  {
    hide After, HolderOk, AtRest, Between, StatusClear, MessageIs, Served;
    Reachable(n, f, cells, es);
    var s := After(n, f, cells, es).s;
    assert s.results[i] in s.results && s.results[j] in s.results;
  }

  predicate Writes(starts: seq<StartRecord>, c: Completion, key: Key)
    requires c.serial < |starts| && |starts[c.serial].msg| == MSG_WORDS
  {
    var msg := starts[c.serial].msg;
    var r := DecodeHeader(msg[0]);
    Effective(c) && (r.op == WRITE_REG || r.op == WRITE_MEM) && Key(KindOf(r.op), r.blk, msg[1]) == key
  }

  lemma {:induction false} UntouchedBetween(
    base: Cells, starts: seq<StartRecord>, done: seq<Completion>, k: nat, k': nat, key: Key, n: nat)
    requires Known(starts, done) && k <= k' <= |done|
    requires forall j | k <= j < k' :: !Writes(starts, done[j], key)
    ensures Words(CellsAfter(base, starts, done, k'), key, n) == Words(CellsAfter(base, starts, done, k), key, n)
    decreases k' - k
  {
    hide DecodeHeader, Clean;
    if k < k' {
      UntouchedBetween(base, starts, done, k, k' - 1, key, n);
    }
  }

  // Whoever wrote an entry and whoever reads it: with no write of it answered in between, the
  // read returns what was delivered.
  lemma ReadSeesLastWrite(
    n: nat, f: Found, cells: Cells, es: seq<Event>, i: nat, j: nat,
    kind: Kind, blk: Word, addr: Word, data: seq<Word>)
    requires i < j && blk < 64 && |data| <= MAX_DATA
    requires Succeeded(After(n, f, cells, es), i) && Succeeded(After(n, f, cells, es), j)
    requires After(n, f, cells, es).s.results[i].call.cmd
          == WriteMessage(if kind == Register then WRITE_REG else WRITE_MEM, blk, addr, data)
    requires After(n, f, cells, es).s.results[j].call.cmd
          == ReadMessage(if kind == Register then READ_REG else READ_MEM, blk, addr, |data|)
    requires CallIs(After(n, f, cells, es), i) && CallIs(After(n, f, cells, es), j)
    requires var b := After(n, f, cells, es);
      && Clean(b.s.results[i].call.data[0]) && Clean(b.s.results[j].call.data[0])
      && forall k | Moment(b, i) < k < Moment(b, j) :: !Writes(b.s.starts, b.s.done[k], Key(kind, blk, addr))
    ensures var b := After(n, f, cells, es);
      b.s.results[j].call.data[1..1 + |data|] == Delivered(data, Misc(b.s))
  {
    hide After, StatusClear, Clean, CellsAfter, Writes, WriteMessage, ReadMessage, SentOp;
    var b := After(n, f, cells, es);
    var rd := if kind == Register then READ_REG else READ_MEM;
    PlainWriteActs(n, f, cells, es, i, kind, blk, addr, data);
    ReadActsAtItsMoment(n, f, cells, es, j, rd, blk, addr, |data|);
    MomentsFollowReturns(n, f, cells, es, i, j);
    UntouchedBetween(b.base, b.s.starts, b.s.done, Moment(b, i) + 1, Moment(b, j), Key(kind, blk, addr), |data|);
    hide CallIs;
    var was := CellsAfter(b.base, b.s.starts, b.s.done, Moment(b, i));
    WordsOfWrite(was, Key(kind, blk, addr), Delivered(data, Misc(b.s)));
  }

  lemma WordsOfWrite(cells: Cells, key: Key, ws: seq<Word>)
    ensures Words(cells[key := ws], key, |ws|) == ws
  {
  }

  // ----- Read-modify-write -----

  // Merging into one value or another comes to the same exactly when they agree outside the mask.
  lemma StaleModifyIff(stale: Word, current: Word, mask: Word, value: Word)
    ensures Merge(stale, mask, value) == Merge(current, mask, value)
        <==> forall i: nat | !BitOf(mask, i) :: BitOf(stale, i) == BitOf(current, i)
  {
    hide Merge, BitOf;
    var (x, y) := (Merge(stale, mask, value), Merge(current, mask, value));
    forall i: nat
      ensures BitOf(x, i) == if BitOf(mask, i) then BitOf(value, i) else BitOf(stale, i)
      ensures BitOf(y, i) == if BitOf(mask, i) then BitOf(value, i) else BitOf(current, i)
    {
      MergeBits(stale, mask, value, i);
      MergeBits(current, mask, value, i);
    }
    if forall i: nat | !BitOf(mask, i) :: BitOf(stale, i) == BitOf(current, i) {
      BitsDetermine(x, y);
    }
  }

  // The register's contents after the first k answers.
  function RegAfter(b: Bus, k: nat, key: Key): Word
    requires Known(b.s.starts, b.s.done) && k <= |b.s.done|
  {
    Words(CellsAfter(b.base, b.s.starts, b.s.done, k), key, 1)[0]
  }

  // Call i is the read and call j the write-back of one modify.
  predicate IsModify(b: Bus, i: nat, j: nat, blk: Word, addr: Word, mask: Word, value: Word) {
    && i < j && Succeeded(b, i) && Succeeded(b, j) && |b.s.results[i].call.data| == USER_WORDS
    && b.s.results[i].call.cmd == ReadMessage(READ_REG, blk, addr, 1)
    && b.s.results[j].call.cmd
       == WriteMessage(WRITE_REG, blk, addr, [MergeWord(b.s.results[i].call.data[1], mask, value)])
  }

  // Whatever other callers do between the two calls of a modify: the register ends up as if the
  // modify had been one step exactly when its contents at the read and just before the write-back
  // agree outside the mask.
  lemma ModifyIsOneStepIff(
    n: nat, f: Found, cells: Cells, es: seq<Event>, i: nat, j: nat, blk: Word, addr: Word, mask: Word, value: Word)
    requires blk < 64 && IsModify(After(n, f, cells, es), i, j, blk, addr, mask, value)
    requires Clean(After(n, f, cells, es).s.results[i].call.data[0])
    requires CallIs(After(n, f, cells, es), j) && Clean(After(n, f, cells, es).s.results[j].call.data[0])
    ensures var b := After(n, f, cells, es);
      var key := Key(Register, blk, addr);
      && 0 <= Moment(b, i) < Moment(b, j) < |b.s.done|
      && (RegAfter(b, Moment(b, j) + 1, key) == MergeWord(RegAfter(b, Moment(b, j), key), mask, value)
          <==> forall bit: nat | !BitOf(mask, bit) ::
                 BitOf(RegAfter(b, Moment(b, i), key), bit) == BitOf(RegAfter(b, Moment(b, j), key), bit))
  {
    hide After, Clean, CellsAfter, BitOf, Merge, WriteMessage, ReadMessage, AnswersServe;
    var b := After(n, f, cells, es);
    var key := Key(Register, blk, addr);
    var data := [MergeWord(b.s.results[i].call.data[1], mask, value)];
    ReadActsAtItsMoment(n, f, cells, es, i, READ_REG, blk, addr, 1);
    PlainWriteActs(n, f, cells, es, j, Register, blk, addr, data);
    MomentsFollowReturns(n, f, cells, es, i, j);
    ModifiedRegister(b, i, j, Misc(b.s), key, mask, value);
  }

  lemma ModifiedRegister(b: Bus, i: nat, j: nat, misc: Word, key: Key, mask: Word, value: Word)
    requires i < |b.s.results| && j < |b.s.results| && Known(b.s.starts, b.s.done)
    requires |b.s.results[i].call.data| == USER_WORDS
    requires 0 <= Moment(b, i) < |b.s.done| && 0 <= Moment(b, j) < |b.s.done|
    requires b.s.results[i].call.data[1..2] == Words(CellsAfter(b.base, b.s.starts, b.s.done, Moment(b, i)), key, 1)
    requires CellsAfter(b.base, b.s.starts, b.s.done, Moment(b, j) + 1)
          == CellsAfter(b.base, b.s.starts, b.s.done, Moment(b, j))
               [key := Delivered([MergeWord(b.s.results[i].call.data[1], mask, value)], misc)]
    ensures RegAfter(b, Moment(b, j) + 1, key) == MergeWord(RegAfter(b, Moment(b, j), key), mask, value)
       <==> forall bit: nat | !BitOf(mask, bit) ::
              BitOf(RegAfter(b, Moment(b, i), key), bit) == BitOf(RegAfter(b, Moment(b, j), key), bit)
  {
    hide BitOf, Merge, CellsAfter;
    assert b.s.results[i].call.data[1..2][0] == RegAfter(b, Moment(b, i), key);
    StaleModifyIff(RegAfter(b, Moment(b, i), key), RegAfter(b, Moment(b, j), key), mask, value);
  }
}
