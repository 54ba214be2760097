/** What the S-Channel protocol keeps over every interleaving of callers, interrupts and device. */
module SchanSafety {
  import opened Bits
  import opened Wrappers
  import opened Schan

  // ----- Invariant -----

  predicate StatusClear(ctrl: Word) {
    && !BitOf(ctrl, START) && !BitOf(ctrl, DONE) && !BitOf(ctrl, ABORT)
    && !BitOf(ctrl, SER) && !BitOf(ctrl, NAK) && !BitOf(ctrl, TIMEOUT)
  }

  // The first k writes of the abort sequence have been made.
  predicate ClearedTo(ctrl: Word, k: nat) {
    && (k >= 2 ==> !BitOf(ctrl, ABORT)) && (k >= 3 ==> !BitOf(ctrl, START)) && (k >= 4 ==> !BitOf(ctrl, DONE))
    && (k >= 5 ==> !BitOf(ctrl, SER)) && (k >= 6 ==> !BitOf(ctrl, NAK)) && (k >= 7 ==> !BitOf(ctrl, TIMEOUT))
  }

  predicate AtRest(b: Bar0, misc: Word) {
    |b.d| == MSG_WORDS && b.d[MISC] == misc && StatusClear(b.ctrl) && b.dev == Quiet
  }

  // MISC_CONTROL as the first call saved it, or as it is as long as none has.
  function Misc(s: State): Word
    requires |s.bar.d| == MSG_WORDS
  {
    if s.first.Some? then s.first.value else s.bar.d[MISC]
  }

  // Between calls: a device that works and stale status bits can be there only before the first.
  predicate Between(s: State, misc: Word) {
    && |s.bar.d| == MSG_WORDS && s.bar.d[MISC] == misc
    && if s.first.None? then !s.bar.dev.Busy? else s.bar.dev == Quiet && StatusClear(s.bar.ctrl)
  }

  predicate Pending(s: State, c: Caller) {
    && c.serial == |s.starts| - 1 && s.bar.dev == Busy(c.serial, s.starts[c.serial].msg)
    && !BitOf(s.bar.ctrl, DONE) && !BitOf(s.bar.ctrl, NAK) && !BitOf(s.bar.ctrl, TIMEOUT)
    && (s.done == [] || s.done[|s.done| - 1].serial < c.serial)
  }

  predicate Answered(s: State, c: Caller) {
    && s.done != []
    && var last := s.done[|s.done| - 1];
    && s.bar.dev == Quiet && last.serial == c.serial && last.regs == s.bar.d && BitOf(s.bar.ctrl, DONE)
    && BitOf(s.bar.ctrl, NAK) == last.nak && BitOf(s.bar.ctrl, TIMEOUT) == last.timeout && !last.late
  }

  // The message was carried out, but there will be no answer.
  predicate Lost(s: State, c: Caller) {
    s.bar.dev == Quiet && !BitOf(s.bar.ctrl, DONE)
  }

  // What holds for the mutex holder at each of its program points.
  predicate HolderOk(s: State, t: nat, c: Caller, misc: Word)
    requires |s.bar.d| == MSG_WORDS
  {
    var b := s.bar;
    && 1 <= |c.cmd| <= MSG_WORDS && c.dataWords <= MSG_WORDS + 1
    && (!c.pc.Saving? ==> s.first == Some(misc) && c.saved == misc)
    && match c.pc
       case Idle => false
       case Waiting => false
       case Saving => Between(s, misc)
       case Checking => !b.dev.Busy?
       case Aborting(k, ToWrite) => k < 7 && (if k == 0 then !b.dev.Busy? else b.dev == Quiet) && ClearedTo(b.ctrl, k)
       case Writing(i) =>
         && b.dev == Quiet && StatusClear(b.ctrl) && i <= |c.cmd|
         && forall j | 0 <= j < i :: b.d[j] == c.cmd[j]
       case PreRestoring =>
         && b.dev == Quiet && StatusClear(b.ctrl)
         && forall j | 0 <= j < |c.cmd| :: b.d[j] == c.cmd[j]
       case Starting => b.dev == Quiet && StatusClear(b.ctrl) && MessageIs(b.d, c.cmd, misc)
       case Polling => Sent(s, t, c, misc) && (Pending(s, c) || Answered(s, c) || Lost(s, c))
       case Reading(i) =>
         && Sent(s, t, c, misc) && Answered(s, c) && c.reply == |s.done|
         && !s.done[c.reply - 1].nak && !s.done[c.reply - 1].timeout
         && i <= c.dataWords && |c.data| == i
         && forall j | 0 <= j < i && j < MSG_WORDS :: c.data[j] == b.d[j]
       case Aborting(k, ToPost) =>
         && Faithful(t, c, misc, s.starts, s.done)
         && k < 7 && (k >= 1 ==> b.dev == Quiet) && ClearedTo(b.ctrl, k)
         && (b.dev.Busy? ==> b.dev.serial == c.serial == |s.starts| - 1 && c.status == -ETIMEDOUT)
         && (b.dev.Busy? && s.done != [] ==> s.done[|s.done| - 1].serial < b.dev.serial)
       case PostRestoring => Faithful(t, c, misc, s.starts, s.done) && b.dev == Quiet && StatusClear(b.ctrl)
       case Unlocking => Faithful(t, c, misc, s.starts, s.done) && AtRest(b, misc)
  }

  predicate Sent(s: State, t: nat, c: Caller, misc: Word) {
    && c.serial == |s.starts| - 1
    && s.starts[c.serial].tid == t && MessageIs(s.starts[c.serial].msg, c.cmd, misc)
  }

  predicate Started(pc: Pc) {
    pc.Polling? || pc.Reading? || (pc.Aborting? && pc.andThen.ToPost?) || pc.PostRestoring? || pc.Unlocking?
  }

  // Completions and results each answer distinct STARTs, in order.
  predicate Ordered(s: State) {
    && (forall i, j | 0 <= i < j < |s.done| :: s.done[i].serial < s.done[j].serial)
    && (forall i | 0 <= i < |s.done| :: s.done[i].serial < |s.starts|)
    && (forall i, j | 0 <= i < j < |s.results| :: s.results[i].call.serial < s.results[j].call.serial)
    && (forall i | 0 <= i < |s.results| :: s.results[i].call.serial < |s.starts|)
    && (s.mutex.HeldBy? && s.mutex.tid < |s.callers| && Started(s.callers[s.mutex.tid].pc) ==>
          forall i | 0 <= i < |s.results| :: s.results[i].call.serial < s.callers[s.mutex.tid].serial)
  }

  // Before the first call has saved MISC_CONTROL there was no START, and a stale device is gone
  // before there is one.
  predicate Before(s: State, misc: Word) {
    && (s.first.Some? ==> s.first.value == misc)
    && (s.first.None? ==> s.starts == [])
    && (s.bar.dev.Stale? ==> s.starts == [] && BitOf(s.bar.ctrl, START))
  }

  predicate Inv(s: State, misc: Word)
    requires |s.bar.d| == MSG_WORDS
  {
    && Before(s, misc)
    && (forall t | 0 <= t < |s.callers| && s.mutex != HeldBy(t) :: s.callers[t].pc.Idle? || s.callers[t].pc.Waiting?)
    && (forall t | 0 <= t < |s.callers| && s.callers[t].pc.Waiting? ::
          1 <= |s.callers[t].cmd| <= MSG_WORDS && s.callers[t].dataWords <= MSG_WORDS + 1)
    && Ordered(s)
    && (forall r | r in s.results :: Faithful(r.tid, r.call, misc, s.starts, s.done))
    && match s.mutex
       case Free => Between(s, misc)
       case HeldBy(t) => t < |s.callers| && HolderOk(s, t, s.callers[t], misc)
  }

  // ----- Preservation -----

  // The abort sequence clears one more status bit with each write after the first.
  lemma AbortClears(ctrl: Word, k: nat)
    requires k < 7 && ClearedTo(ctrl, k)
    ensures ClearedTo(CtrlAfter(ctrl, ABORT_WRITES[k]), k + 1)
    ensures k == 6 ==> StatusClear(CtrlAfter(ctrl, ABORT_WRITES[k]))
  {
    hide BitOf, CtrlAfter;
    StatusBits(ctrl, ABORT_WRITES[k]);
  }

  lemma FlagBits(ctrl: Word, ser: bool, nak: bool, timeout: bool)
    requires !BitOf(ctrl, DONE) && !BitOf(ctrl, NAK) && !BitOf(ctrl, TIMEOUT)
    ensures var w := Flags(ctrl, ser, nak, timeout);
      BitOf(w, DONE) && BitOf(w, NAK) == nak && BitOf(w, TIMEOUT) == timeout
  {
    hide BitOf, SetOne;
    var w1 := SetOne(ctrl, DONE);
    var w2 := if ser then SetOne(w1, SER) else w1;
    var w3 := if nak then SetOne(w2, NAK) else w2;
    forall bit: nat | bit == DONE || bit == NAK || bit == TIMEOUT
      ensures BitOf(Flags(ctrl, ser, nak, timeout), bit)
           == (bit == DONE || BitOf(ctrl, bit) || (nak && bit == NAK) || (timeout && bit == TIMEOUT))
    {
      SetOneBits(ctrl, DONE, bit);
      SetOneBits(w1, SER, bit);
      SetOneBits(w2, NAK, bit);
      SetOneBits(w3, TIMEOUT, bit);
    }
  }

  lemma FaithfulStays(
    t: nat, c: Caller, misc: Word,
    starts: seq<StartRecord>, done: seq<Completion>, starts': seq<StartRecord>, done': seq<Completion>)
    requires Faithful(t, c, misc, starts, done) && starts <= starts' && done <= done'
    ensures Faithful(t, c, misc, starts', done')
  {
  }

  // A step of the holder that keeps its own condition keeps the invariant.
  lemma HolderFrame(s: State, s': State, t: nat, misc: Word)
    requires |s.bar.d| == MSG_WORDS && Inv(s, misc) && s.mutex == HeldBy(t)
    requires |s'.bar.d| == MSG_WORDS && s'.mutex == s.mutex && s'.results == s.results && s'.done == s.done
    requires t < |s.callers| == |s'.callers| && s'.callers == s.callers[t := s'.callers[t]]
    requires s.starts <= s'.starts && HolderOk(s', t, s'.callers[t], misc) && Before(s', misc)
    requires !s'.callers[t].pc.Idle? && !s'.callers[t].pc.Waiting?
    requires Started(s'.callers[t].pc) ==>
      if Started(s.callers[t].pc) then s'.callers[t].serial == s.callers[t].serial
      else s'.callers[t].serial == |s.starts|
    ensures Inv(s', misc)
  {
    hide HolderOk, Faithful, BitOf, AtRest;
    forall r | r in s'.results ensures Faithful(r.tid, r.call, misc, s'.starts, s'.done) {
      FaithfulStays(r.tid, r.call, misc, s.starts, s.done, s'.starts, s'.done);
    }
  }

  lemma AbortStep(s: State, t: nat, misc: Word)
    requires |s.bar.d| == MSG_WORDS && Inv(s, misc) && s.mutex == HeldBy(t) && t < |s.callers|
    requires s.callers[t].pc.Aborting?
    ensures Inv(CallerStep(s, t, false), misc)
  {
    hide BitOf, CtrlAfter, MessageIs;
    var c := s.callers[t];
    var k := c.pc.k;
    AbortClears(s.bar.ctrl, k);
    assert ABORT_WRITES[k] != SET_START && (k > 0 ==> ABORT_WRITES[k] != ABORT_WRITES[0]);
    HolderFrame(s, CallerStep(s, t, false), t, misc);
  }

  lemma StartStep(s: State, t: nat, misc: Word)
    requires |s.bar.d| == MSG_WORDS && Inv(s, misc) && s.mutex == HeldBy(t) && t < |s.callers|
    requires s.callers[t].pc.Starting?
    ensures Inv(CallerStep(s, t, false), misc)
  {
    hide BitOf, CtrlAfter, Faithful;
    StatusBits(s.bar.ctrl, SET_START);
    HolderFrame(s, CallerStep(s, t, false), t, misc);
  }

  lemma PollKeepsInv(s: State, t: nat, expired: bool, misc: Word)
    requires |s.bar.d| == MSG_WORDS && Inv(s, misc) && s.mutex == HeldBy(t) && t < |s.callers|
    requires s.callers[t].pc.Polling?
    ensures Inv(CallerStep(s, t, expired), misc)
  {
    hide BitOf;
    HolderFrame(s, CallerStep(s, t, expired), t, misc);
  }

  lemma ReadStep(s: State, t: nat, misc: Word)
    requires |s.bar.d| == MSG_WORDS && Inv(s, misc) && s.mutex == HeldBy(t) && t < |s.callers|
    requires s.callers[t].pc.Reading?
    ensures Inv(CallerStep(s, t, false), misc)
  {
    hide BitOf;
    HolderFrame(s, CallerStep(s, t, false), t, misc);
  }

  lemma SaveStep(s: State, t: nat, misc: Word)
    requires |s.bar.d| == MSG_WORDS && Inv(s, misc) && s.mutex == HeldBy(t) && t < |s.callers|
    requires s.callers[t].pc.Saving? || s.callers[t].pc.Checking? || s.callers[t].pc.PostRestoring?
    ensures Inv(CallerStep(s, t, false), misc)
  {
    forall bit: nat ensures !BitOf(0, bit) { ZeroBits(bit); }
    hide BitOf, MessageIs;
    HolderFrame(s, CallerStep(s, t, false), t, misc);
  }

  lemma WriteStep(s: State, t: nat, misc: Word)
    requires |s.bar.d| == MSG_WORDS && Inv(s, misc) && s.mutex == HeldBy(t) && t < |s.callers|
    requires s.callers[t].pc.Writing? || s.callers[t].pc.PreRestoring?
    ensures Inv(CallerStep(s, t, false), misc)
  {
    hide BitOf, StatusClear, Faithful;
    HolderFrame(s, CallerStep(s, t, false), t, misc);
  }

  lemma UnlockStep(s: State, t: nat, misc: Word)
    requires |s.bar.d| == MSG_WORDS && Inv(s, misc) && s.mutex == HeldBy(t) && t < |s.callers|
    requires s.callers[t].pc.Unlocking?
    ensures Inv(CallerStep(s, t, false), misc)
  {
    hide BitOf;
  }

  lemma LockStep(s: State, t: nat, misc: Word)
    requires |s.bar.d| == MSG_WORDS && Inv(s, misc) && t < |s.callers|
    requires s.callers[t].pc.Waiting? || s.callers[t].pc.Idle?
    ensures Inv(CallerStep(s, t, false), misc)
  {
    hide BitOf, Faithful;
  }

  lemma CallerKeepsInv(s: State, t: nat, expired: bool, misc: Word)
    requires |s.bar.d| == MSG_WORDS && Inv(s, misc) && t < |s.callers|
    ensures Inv(CallerStep(s, t, expired), misc)
  {
    hide BitOf, Faithful, HolderOk;
    var pc := s.callers[t].pc;
    if pc.Idle? || pc.Waiting? {
      LockStep(s, t, misc);
    } else {
      assert s.mutex == HeldBy(t);
      match pc
      case Aborting(_, _) => AbortStep(s, t, misc);
      case Starting => StartStep(s, t, misc);
      case Polling => PollKeepsInv(s, t, expired, misc);
      case Reading(_) => ReadStep(s, t, misc);
      case Unlocking => UnlockStep(s, t, misc);
      case Writing(_) => WriteStep(s, t, misc);
      case PreRestoring => WriteStep(s, t, misc);
      case _ => SaveStep(s, t, misc);
    }
  }

  lemma DeviceKeepsInv(s: State, resp: seq<Word>, ser: bool, nak: bool, timeout: bool, misc: Word)
    requires |s.bar.d| == MSG_WORDS && Inv(s, misc) && s.bar.dev.Busy? && |resp| <= MSG_WORDS
    ensures Inv(DeviceStep(s, resp, ser, nak, timeout), misc)
  {
    hide BitOf, Faithful;
    var s' := DeviceStep(s, resp, ser, nak, timeout);
    assert s.mutex.HeldBy?;
    var t := s.mutex.tid;
    var c := s.callers[t];
    if c.pc.Polling? {
      FlagBits(s.bar.ctrl, ser, nak, timeout);
    } else {
      FaithfulStays(t, c, misc, s.starts, s.done, s'.starts, s'.done);
    }
    forall r | r in s'.results ensures Faithful(r.tid, r.call, misc, s'.starts, s'.done) {
      FaithfulStays(r.tid, r.call, misc, s.starts, s.done, s'.starts, s'.done);
    }
  }

  lemma VanishKeepsInv(s: State, misc: Word)
    requires |s.bar.d| == MSG_WORDS && Inv(s, misc) && s.bar.dev.Busy?
    ensures Inv(VanishStep(s), misc)
  {
    hide BitOf, Faithful;
    var s' := VanishStep(s);
    assert s.mutex.HeldBy?;
    var t := s.mutex.tid;
    if !s.callers[t].pc.Polling? {
      FaithfulStays(t, s.callers[t], misc, s.starts, s.done, s'.starts, s'.done);
    }
    forall r | r in s'.results ensures Faithful(r.tid, r.call, misc, s'.starts, s'.done) {
      FaithfulStays(r.tid, r.call, misc, s.starts, s.done, s'.starts, s'.done);
    }
  }

  lemma StaleVanishKeepsInv(s: State, misc: Word)
    requires |s.bar.d| == MSG_WORDS && Inv(s, misc) && s.bar.dev.Stale?
    ensures Inv(VanishStep(s), misc)
  {
    hide BitOf, Faithful;
    ResultsNeedStarts(s);
  }

  lemma ResultsNeedStarts(s: State)
    requires Ordered(s)
    ensures s.results != [] ==> s.starts != []
  {
    if s.results != [] {
      assert s.results[0].call.serial < |s.starts|;
    }
  }

  // Until the first call has saved MISC_CONTROL, a stale answer can change it.
  lemma StaleKeepsInv(s: State, resp: seq<Word>, ser: bool, nak: bool, timeout: bool, misc: Word)
    requires |s.bar.d| == MSG_WORDS && Inv(s, misc) && s.bar.dev.Stale? && |resp| <= MSG_WORDS
    ensures var s' := DeviceStep(s, resp, ser, nak, timeout);
      Inv(s', if s.first.None? then s'.bar.d[MISC] else misc)
  {
    hide BitOf, Faithful, Flags;
    ResultsNeedStarts(s);
  }

  lemma InvFixesMisc(s: State, misc: Word)
    requires |s.bar.d| == MSG_WORDS && Inv(s, misc)
    ensures misc == Misc(s)
  {
  }

  lemma StepKeepsInv(s: State, x: Choice)
    requires |s.bar.d| == MSG_WORDS && Inv(s, Misc(s))
    ensures Inv(Step(s, x), Misc(Step(s, x)))
    ensures s.first.Some? || !x.Complete? ==> Misc(Step(s, x)) == Misc(s)
  {
    hide BitOf, Faithful, CallerStep, DeviceStep, VanishStep, HolderOk, Ordered;
    var misc := Misc(s);
    match x
    case Run(t, expired) =>
      if t < |s.callers| {
        CallerKeepsInv(s, t, expired, misc);
        InvFixesMisc(Step(s, x), misc);
      }
    case Complete(resp, ser, nak, timeout) =>
      if !s.bar.dev.Quiet? && |resp| <= MSG_WORDS {
        if s.bar.dev.Busy? {
          DeviceKeepsInv(s, resp, ser, nak, timeout, misc);
          InvFixesMisc(Step(s, x), misc);
        } else {
          StaleKeepsInv(s, resp, ser, nak, timeout, misc);
          InvFixesMisc(Step(s, x), if s.first.None? then Step(s, x).bar.d[MISC] else misc);
        }
      }
    case Vanish =>
      if !s.bar.dev.Quiet? {
        if s.bar.dev.Busy? {
          VanishKeepsInv(s, misc);
        } else {
          StaleVanishKeepsInv(s, misc);
        }
        InvFixesMisc(Step(s, x), misc);
      }
    case _ =>
      QueueKeepsInv(s, x, misc);
      InvFixesMisc(Step(s, x), misc);
  }

  lemma QueueKeepsInv(s: State, x: Choice, misc: Word)
    requires |s.bar.d| == MSG_WORDS && Inv(s, misc) && (x.Begin? || x.Interrupt?)
    ensures Inv(Step(s, x), misc)
  {
    hide BitOf, Faithful, HolderOk, StatusClear;
    if s.mutex.HeldBy? {
      var t := s.mutex.tid;
      HolderUndisturbed(s, Step(s, x), t, s.callers[t], misc);
    }
  }

  lemma HolderUndisturbed(s: State, s': State, t: nat, c: Caller, misc: Word)
    requires |s.bar.d| == MSG_WORDS && HolderOk(s, t, c, misc)
    requires s'.bar == s.bar && s'.starts == s.starts && s'.done == s.done && s'.first == s.first
    ensures HolderOk(s', t, c, misc)
    ensures !c.pc.Idle? && !c.pc.Waiting?
  {
    hide BitOf, Faithful;
  }

  lemma {:induction false} ReachableInv(n: nat, b: Found, xs: seq<Choice>)
    ensures Inv(After(n, b, xs), Misc(After(n, b, xs)))
  {
    hide Step, BitOf;
    if xs != [] {
      ReachableInv(n, b, xs[..|xs| - 1]);
      StepKeepsInv(After(n, b, xs[..|xs| - 1]), xs[|xs| - 1]);
    }
  }

  // ----- The theorems -----

  // Every call that ever returned sent exactly its own command, with word 7 of a command of
  // eight words or more replaced by MISC_CONTROL as the first call saved it, and reports what the
  // device answered to it.
  lemma ResultsAreFaithful(n: nat, b: Found, xs: seq<Choice>, i: nat)
    requires i < |After(n, b, xs).results|
    ensures var s := After(n, b, xs);
      s.first.Some? && Faithful(s.results[i].tid, s.results[i].call, s.first.value, s.starts, s.done)
  {
    hide After, Faithful, HolderOk, AtRest;
    ReachableInv(n, b, xs);
    var s := After(n, b, xs);
    assert s.results[i] in s.results;
  }

  // No two calls ever report the same START or the same answer.
  lemma AnswersAreNotShared(n: nat, b: Found, xs: seq<Choice>, i: nat, j: nat)
    requires i < j < |After(n, b, xs).results|
    ensures var s := After(n, b, xs);
      var (a, b) := (s.results[i].call, s.results[j].call);
      && a.serial != b.serial
      && (a.status != -ETIMEDOUT && b.status != -ETIMEDOUT ==> a.reply != b.reply)
  {
    hide After, HolderOk, AtRest, MessageIs;
    ReachableInv(n, b, xs);
    ResultsAreFaithful(n, b, xs, i);
    ResultsAreFaithful(n, b, xs, j);
  }

  // Whatever status bits were set and whatever the device was working on when the first call
  // came: once it has returned, MISC_CONTROL has between calls the value that it saved, the
  // device is not working on anything and no status bit is set; whoever is not holding the mutex
  // is not in the registers.
  lemma RestBetweenCalls(n: nat, b: Found, xs: seq<Choice>)
    ensures var s := After(n, b, xs);
      && (s.mutex.Free? ==> s.bar.d[MISC] == Misc(s) && !s.bar.dev.Busy?)
      && (s.mutex.Free? && s.first.Some? ==> AtRest(s.bar, s.first.value))
      && (s.results != [] ==> s.first.Some?)
      && (forall t | 0 <= t < n && s.mutex != HeldBy(t) :: s.callers[t].pc.Idle? || s.callers[t].pc.Waiting?)
  {
    hide After, Faithful, HolderOk, StatusClear;
    ReachableInv(n, b, xs);
    ResultsNeedStarts(After(n, b, xs));
  }

  // ----- Which MISC_CONTROL is kept -----

  // Word 7 of the registers after a stale answer, if there was one.
  function FirstMisc(early: Option<seq<Word>>, d: seq<Word>): Word
    requires |d| == MSG_WORDS
  {
    if early.Some? && |early.value| > MISC then early.value[MISC] else d[MISC]
  }

  predicate Origin(s: State, b: Found)
    requires |s.bar.d| == MSG_WORDS
  {
    && Misc(s) == FirstMisc(s.early, b.d)
    && (s.early.Some? || b.dev.Quiet? ==> !s.bar.dev.Stale?)
    && (b.dev.Quiet? ==> s.early.None?)
  }

  lemma CallerKeepsOrigin(s: State, t: nat, expired: bool)
    requires |s.bar.d| == MSG_WORDS && t < |s.callers|
    ensures var s' := CallerStep(s, t, expired);
      s'.early == s.early && (s'.bar.dev.Stale? ==> s.bar.dev.Stale?)
  {
    hide BitOf, CtrlAfter;
  }

  lemma StepKeepsOrigin(s: State, x: Choice, b: Found)
    requires |s.bar.d| == MSG_WORDS && Inv(s, Misc(s)) && Origin(s, b)
    ensures Origin(Step(s, x), b)
  {
    StepKeepsInv(s, x);
    hide BitOf, Inv, CallerStep, Flags;
    if x.Run? && x.tid < |s.callers| {
      CallerKeepsOrigin(s, x.tid, x.expired);
    }
  }

  lemma {:induction false} ReachableOrigin(n: nat, b: Found, xs: seq<Choice>)
    ensures Origin(After(n, b, xs), b)
  {
    hide Step, BitOf;
    if xs != [] {
      ReachableInv(n, b, xs[..|xs| - 1]);
      ReachableOrigin(n, b, xs[..|xs| - 1]);
      StepKeepsOrigin(After(n, b, xs[..|xs| - 1]), xs[|xs| - 1], b);
    }
  }

  // MISC_CONTROL as it is between calls for ever after is the original one exactly when no stale
  // answer before the first call saved it changed word 7.
  lemma OriginalKeptIff(n: nat, b: Found, xs: seq<Choice>)
    requires After(n, b, xs).mutex.Free? && After(n, b, xs).results != []
    ensures var s := After(n, b, xs);
      && (s.bar.d[MISC] == b.d[MISC]
          <==> (s.early.Some? && |s.early.value| > MISC ==> s.early.value[MISC] == b.d[MISC]))
      && (b.dev.Quiet? ==> s.bar.d[MISC] == b.d[MISC])
  {
    hide After;
    RestBetweenCalls(n, b, xs);
    ReachableOrigin(n, b, xs);
  }

  // The input: a device still at work answers between the caller's taking of the mutex and its
  // saving of MISC_CONTROL.
  lemma StaleAnswerIsSaved(n: nat, b: Found, cmd: seq<Word>, dataWords: nat, resp: seq<Word>, xs: seq<Choice>)
    requires n > 0 && b.dev.Stale? && MISC < |resp| <= MSG_WORDS
    requires 1 <= |cmd| <= MSG_WORDS && dataWords <= MSG_WORDS + 1
    requires xs == [Begin(0, cmd, dataWords), Run(0, false), Complete(resp, false, false, false), Run(0, false)]
    ensures After(n, b, xs).first == Some(resp[MISC]) && After(n, b, xs).callers[0].saved == resp[MISC]
  {
    hide BitOf, Flags;
    var s1 := Step(Initial(n, b), xs[0]);
    var s3 := Step(Step(s1, xs[1]), xs[2]);
    assert xs[..3][..2][..1][..0] == [] && After(n, b, xs[..3][..2][..1]) == s1;
    assert After(n, b, xs[..3]) == s3 && s3.bar.d[MISC] == resp[MISC];
  }

  // What the first call saved is never replaced.
  lemma {:induction false} FirstIsFinal(n: nat, b: Found, xs: seq<Choice>, ys: seq<Choice>)
    requires After(n, b, xs).first.Some?
    ensures After(n, b, xs + ys).first == After(n, b, xs).first
    decreases |ys|
  {
    hide Step;
    if ys == [] {
      assert xs + ys == xs;
    } else {
      var k := |ys| - 1;
      FirstIsFinal(n, b, xs, ys[..k]);
      assert (xs + ys)[..|xs + ys| - 1] == xs + ys[..k];
      StepKeepsFirst(After(n, b, xs + ys[..k]), ys[k]);
    }
  }

  lemma StepKeepsFirst(s: State, x: Choice)
    requires |s.bar.d| == MSG_WORDS && s.first.Some?
    ensures Step(s, x).first == s.first
  {
    hide BitOf, CtrlAfter, Flags;
  }

  // ----- Why a message has at most 20 words -----

  // The command's words written one after the other, by the START numbered serial.
  function WriteAll(b: Bar0, cmd: seq<Word>, serial: nat): (r: Bar0)
    requires |cmd| <= MSG_WORDS + 1 && |b.d| == MSG_WORDS
    ensures |r.d| == MSG_WORDS
    decreases |cmd|
  {
    if cmd == [] then b else DWrite(WriteAll(b, cmd[..|cmd| - 1], serial), |cmd| - 1, cmd[|cmd| - 1], serial)
  }

  // Up to 20 words, writing a command leaves SCHAN_CTRL and the device alone.
  lemma {:induction false} CommandFitsBuffer(b: Bar0, cmd: seq<Word>, serial: nat)
    requires |cmd| <= MSG_WORDS && |b.d| == MSG_WORDS
    ensures WriteAll(b, cmd, serial) == b.(d := Overlay(b.d, cmd))
    decreases |cmd|
  {
    if cmd == [] {
      assert [] + b.d[0..] == b.d;
    } else {
      var n := |cmd| - 1;
      CommandFitsBuffer(b, cmd[..n], serial);
      assert (cmd[..n] + b.d[n..])[n := cmd[n]] == cmd + b.d[n + 1..];
    }
  }

  // The driver also lets 21 words through, and the last one is a write to SCHAN_CTRL.
  lemma TwentyFirstWordIsControl(b: Bar0, cmd: seq<Word>, serial: nat)
    requires |cmd| == MSG_WORDS + 1 && |b.d| == MSG_WORDS
    ensures WriteAll(b, cmd, serial) == CtrlWrite(b.(d := cmd[..MSG_WORDS]), cmd[MSG_WORDS], serial)
  {
    hide CtrlWrite;
    CommandFitsBuffer(b, cmd[..MSG_WORDS], serial);
    assert Overlay(b.d, cmd[..MSG_WORDS]) == cmd[..MSG_WORDS];
  }

  // Such a command does no harm to SCHAN_CTRL and the device exactly when its last word asks for
  // the value that the bit it names already has, and is neither the START nor the ABORT of a
  // device in another state.
  lemma TwentyFirstWordHarmlessIff(b: Bar0, cmd: seq<Word>, serial: nat)
    requires |cmd| == MSG_WORDS + 1 && |b.d| == MSG_WORDS
    ensures var (r, w) := (WriteAll(b, cmd, serial), cmd[MSG_WORDS]);
      && (r.ctrl == b.ctrl <==> BitOf(b.ctrl, w % 32) == ((w / 0x80) % 2 == 1))
      && (r.dev == b.dev <==>
            && (w == SET_START ==> b.dev == Busy(serial, cmd[..MSG_WORDS]))
            && (w == ABORT_WRITES[0] ==> b.dev == Quiet))
  {
    hide BitOf, CtrlAfter, WriteAll;
    TwentyFirstWordIsControl(b, cmd, serial);
    CtrlKeptIff(b.ctrl, cmd[MSG_WORDS]);
  }

  lemma CtrlKeptIff(ctrl: Word, v: Word)
    ensures CtrlAfter(ctrl, v) == ctrl <==> BitOf(ctrl, v % 32) == ((v / 0x80) % 2 == 1)
  {
    CtrlBits(ctrl, v, v % 32);
  }
}
