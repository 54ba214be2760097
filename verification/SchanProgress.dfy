/** Every S-Channel call that holds the mutex returns, whatever the device does. */
module SchanProgress {
  import opened Bits
  import opened Wrappers
  import opened Schan
  import opened SchanSafety

  // Steps, at most, until the holder has returned.
  function Left(c: Caller): int {
    var (l, r) := (|c.cmd|, c.dataWords);
    match c.pc
    case Idle => 0
    case Waiting => 0
    case Unlocking => 1
    case PostRestoring => 2
    case Aborting(k, ToPost) => 9 - k
    case Reading(i) => 10 + r - i
    case Polling => 11 + r
    case Starting => 12 + r
    case PreRestoring => 13 + r
    case Writing(i) => 14 + r + l - i
    case Aborting(k, ToWrite) => 21 + r + l - k
    case Checking => 22 + r + l
    case Saving => 23 + r + l
  }

  // A step of caller t, other than a poll in time that finds no answer.
  predicate Moves(s: State, x: Choice, t: nat) {
    && x.Run? && x.tid == t && t < |s.callers|
    && (s.callers[t].pc.Polling? ==> x.expired || BitOf(s.bar.ctrl, DONE))
  }

  function MovesIn(n: nat, b: Found, xs: seq<Choice>, ys: seq<Choice>, t: nat): nat
    decreases |ys|
  {
    if ys == [] then 0
    else
      var before := ys[..|ys| - 1];
      MovesIn(n, b, xs, before, t) + if Moves(After(n, b, xs + before), ys[|ys| - 1], t) then 1 else 0
  }

  // Caller t either still holds the mutex, m steps nearer to the end, or its result is the next.
  predicate GoesOn(s: State, s': State, t: nat, m: nat)
    requires t < |s.callers| == |s'.callers|
  {
    var (c, c') := (s.callers[t], s'.callers[t]);
    if s'.results == s.results then
      s'.mutex == HeldBy(t) && c'.cmd == c.cmd && c'.dataWords == c.dataWords && Left(c') + m <= Left(c)
    else
      && |s'.results| > |s.results| && s'.results[..|s.results|] == s.results
      && var r := s'.results[|s.results|];
         r.tid == t && r.call.cmd == c.cmd && r.call.dataWords == c.dataWords
  }

  predicate InBounds(c: Caller) {
    && |c.cmd| <= MSG_WORDS && c.dataWords <= MSG_WORDS + 1 && !c.pc.Idle? && !c.pc.Waiting?
    && (c.pc.Aborting? ==> c.pc.k < 7) && (c.pc.Writing? ==> c.pc.i <= |c.cmd|)
    && (c.pc.Reading? ==> c.pc.i <= c.dataWords)
  }

  lemma HolderInBounds(s: State, t: nat, misc: Word)
    requires |s.bar.d| == MSG_WORDS && t < |s.callers| && HolderOk(s, t, s.callers[t], misc)
    ensures InBounds(s.callers[t])
  {
    hide Faithful, BitOf, Between, StatusClear, ClearedTo, MessageIs, Answered, Pending, Lost;
  }

  lemma OwnStepGoesOn(s: State, t: nat, expired: bool)
    requires |s.bar.d| == MSG_WORDS && s.mutex == HeldBy(t)
    requires t < |s.callers| && InBounds(s.callers[t])
    ensures GoesOn(s, CallerStep(s, t, expired), t, if Moves(s, Run(t, expired), t) then 1 else 0)
  {
    hide BitOf, CtrlWrite, DWrite, DRead;
  }

  lemma StepGoesOn(s: State, x: Choice, t: nat)
    requires |s.bar.d| == MSG_WORDS && Inv(s, Misc(s)) && s.mutex == HeldBy(t)
    ensures GoesOn(s, Step(s, x), t, if Moves(s, x, t) then 1 else 0)
  {
    hide Ordered, Faithful, BitOf, HolderOk, Left;
    HolderInBounds(s, t, Misc(s));
    if x.Run? && x.tid == t {
      OwnStepGoesOn(s, t, x.expired);
    } else if x.Run? && x.tid < |s.callers| {
      assert s.callers[x.tid].pc.Idle? || s.callers[x.tid].pc.Waiting?;
      assert Step(s, x) == s;
    }
  }

  lemma ResultsGrow(s: State, x: Choice)
    requires |s.bar.d| == MSG_WORDS
    ensures Step(s, x).results == s.results
         || exists r :: Step(s, x).results == s.results + [r]
  {
  }

  lemma {:induction false} RunGoesOn(n: nat, b: Found, xs: seq<Choice>, ys: seq<Choice>, t: nat)
    requires After(n, b, xs).mutex == HeldBy(t) && t < n
    ensures GoesOn(After(n, b, xs), After(n, b, xs + ys), t, MovesIn(n, b, xs, ys, t))
    decreases |ys|
  {
    hide Step, Inv, Left, Misc, Moves;
    if ys == [] {
      assert xs + ys == xs;
    } else {
      var before, y := ys[..|ys| - 1], ys[|ys| - 1];
      assert (xs + ys)[..|xs + ys| - 1] == xs + before;
      RunGoesOn(n, b, xs, before, t);
      var s1 := After(n, b, xs + before);
      ResultsGrow(s1, y);
      if s1.results == After(n, b, xs).results {
        ReachableInv(n, b, xs + before);
        StepGoesOn(s1, y, t);
      }
    }
  }

  // Whatever the device and the other callers do: once caller t has the mutex, at most 64 more of
  // its steps, not counting polls in time that find no answer, and its own call is the next to
  // return.
  lemma HolderReturns(n: nat, b: Found, xs: seq<Choice>, ys: seq<Choice>, t: nat)
    requires After(n, b, xs).mutex == HeldBy(t) && MovesIn(n, b, xs, ys, t) >= 64
    ensures var (s, s') := (After(n, b, xs), After(n, b, xs + ys));
      && t < n && |s'.results| > |s.results| && s'.results[..|s.results|] == s.results
      && var r := s'.results[|s.results|];
         r.tid == t && r.call.cmd == s.callers[t].cmd && r.call.dataWords == s.callers[t].dataWords
  {
    hide After, Ordered, Faithful, BitOf, Between, StatusClear, MessageIs, Pending, Answered, Lost, Moves;
    ReachableInv(n, b, xs);
    ReachableInv(n, b, xs + ys);
    RunGoesOn(n, b, xs, ys, t);
  }
}
