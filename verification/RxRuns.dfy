/** Frames from the wire to the callback, and starting and stopping, over runs of the receive ring. */
module RxRuns {
  import opened RxRing

  // ----- From the wire to the callback -----

  lemma {:induction false} RunKeepsInv(s: State, es: seq<Event>)
    requires Inv(s)
    ensures Inv(After(s, es))
  {
    hide Step, SlotOk, PcOk;
    if es != [] {
      var s1, e := After(s, es[..|es| - 1]), es[|es| - 1];
      RunKeepsInv(s, es[..|es| - 1]);
      StepKeepsPc(s1, e);
      forall i | 0 <= i < SLOTS ensures SlotOk(Step(s1, e), i) {
        StepKeepsSlot(s1, e, i);
      }
    }
  }

  // What was completed and handled stays, and all that is handled later finds the callback.
  predicate Grown(s: State, s': State, i: nat)
    requires s.Shaped() && s'.Shaped() && i < SLOTS
  {
    && s'.callback
    && s.completed[i] <= s'.completed[i] && s.handled[i] <= s'.handled[i]
    && forall k | |s.handled[i]| <= k < |s'.handled[i]| :: s'.handled[i][k].registered
  }

  lemma StepGrows(s: State, s': State, e: Event, i: nat)
    requires s.Shaped() && s'.Shaped() && i < SLOTS && Grown(s, s', i) && e != Register(false)
    ensures Grown(s, Step(s', e), i)
  {
  }

  lemma {:induction false} RunGrows(s: State, es: seq<Event>, i: nat)
    requires s.Shaped() && i < SLOTS && s.callback && Register(false) !in es
    ensures Grown(s, After(s, es), i)
  {
    if es != [] {
      hide Grown, Step;
      assert es[|es| - 1] in es;
      RunGrows(s, es[..|es| - 1], i);
      StepGrows(s, After(s, es[..|es| - 1]), es[|es| - 1], i);
    }
  }

  lemma {:induction false} WantedGrows(hs: seq<Handled>, more: seq<Handled>)
    ensures Wanted(hs) <= Wanted(hs + more)
    ensures more != [] && Good(more[0]) ==> Wanted(hs) + [more[0].packet] <= Wanted(hs + more)
  {
    hide Good;
    if more == [] {
      assert hs + more == hs;
    } else {
      var all := hs + more;
      assert all[..|all| - 1] == hs + more[..|more| - 1];
      WantedGrows(hs, more[..|more| - 1]);
      if |more| == 1 {
        assert all[..|all| - 1] == hs;
      }
    }
  }

  // A frame of 1..2048 bytes that the device puts in a descriptor of its own and completes, while
  // the driver runs and has a callback, is the next that the callback gets from that descriptor,
  // with its own length, port and bytes, within 256 steps of the thread.
  lemma FrameIsDelivered(
      xs: seq<Event>, i: nat, len: nat, port: nat, frame: nat, n: nat, es: seq<Event>)
    requires i < SLOTS && 1 <= n <= 2048
    requires var s := After(Blank(), xs); !s.slots[i].done && s.running && !s.pc.Stopped? && s.callback
    requires Stop !in es && Register(false) !in es && Threads(es) >= 256
    ensures var s := After(Blank(), xs);
      var s' := After(Step(Step(s, Fill(i, len, port, frame)), Complete(i, n)), es);
      AtSlot(s.delivered, i) + [Packet(i, n, port, frame)] <= AtSlot(s'.delivered, i)
  {
    var s := After(Blank(), xs);
    Reachable(xs);
    var s0 := Step(Step(s, Fill(i, len, port, frame)), Complete(i, n));
    assert Inv(s0) by {
      RunKeepsInv(s, [Fill(i, len, port, frame)]);
      RunKeepsInv(Step(s, Fill(i, len, port, frame)), [Complete(i, n)]);
    }
    CompletedFrame(s, i, len, port, frame, n);
    hide Step, After;
    HandledWithin256(s0, es, i);
    RunGrows(s0, es, i);
    RunKeepsInv(s0, es);
    var s' := After(s0, es);
    var k := |s.handled[i]|;
    var more := s'.handled[i][k..];
    assert s'.handled[i] == s.handled[i] + more;
    assert SlotOk(s, i) && SlotOk(s', i);
    PacketsAt(s.handled[i]);
    PacketsAt(s'.handled[i]);
    assert more[0].packet == Packets(s'.handled[i])[k] == s'.completed[i][k] == s0.completed[i][k];
    WantedGrows(s.handled[i], more);
  }

  lemma CompletedFrame(s: State, i: nat, len: nat, port: nat, frame: nat, n: nat)
    requires s.Shaped() && PcOk(s) && i < SLOTS && !s.slots[i].done
    ensures var s' := Step(Step(s, Fill(i, len, port, frame)), Complete(i, n));
      && s'.completed[i] == s.completed[i] + [Packet(i, n, port, frame)]
      && s'.handled == s.handled && s'.delivered == s.delivered
      && s'.running == s.running && s'.pc == s.pc && s'.callback == s.callback && Pending(s', i)
  {
  }

  // ----- Starting and stopping -----

  // Thread steps, at most, to the end of the sweep.
  function ToEnd(pc: Pc): int {
    match pc
    case Stopped => 0
    case Look(j) => 4 * (SLOTS - j)
    case Found(j, _) => 4 * (SLOTS - j) - 1
    case Decide(j, _, _) => 4 * (SLOTS - j) - 2
    case Rearm(j) => 4 * (SLOTS - j) - 3
  }

  predicate Stops(s: State, s': State, n: nat) {
    && !s'.running
    && (s'.pc.Stopped? || (!s.pc.Stopped? && ToEnd(s'.pc) + n <= ToEnd(s.pc)))
    && (s.pc.Stopped? ==> s'.delivered == s.delivered)
  }

  lemma StepStops(s: State, s': State, e: Event, n: nat)
    requires s'.Shaped() && PcOk(s') && Stops(s, s', n) && e != Start
    ensures Stops(s, Step(s', e), if e.Thread? then n + 1 else n)
  {
  }

  lemma {:induction false} RunStops(s: State, es: seq<Event>)
    requires s.Shaped() && PcOk(s) && !s.running && Start !in es
    ensures PcOk(After(s, es)) && Stops(s, After(s, es), Threads(es))
  {
    hide PcOk, Step;
    if es != [] {
      assert es[|es| - 1] in es;
      RunStops(s, es[..|es| - 1]);
      StepKeepsPc(After(s, es[..|es| - 1]), es[|es| - 1]);
      StepStops(s, After(s, es[..|es| - 1]), es[|es| - 1], Threads(es[..|es| - 1]));
    }
  }

  // A stop ends: unless the driver is started again, 256 steps after it the thread has ended,
  // whatever the device does meanwhile, and from then on nothing is delivered.
  lemma StopEnds(xs: seq<Event>, es: seq<Event>, more: seq<Event>)
    requires Start !in es && Start !in more && Threads(es) >= 256
    ensures var s := After(Step(After(Blank(), xs), Stop), es);
      && s.pc == Stopped && !s.running
      && After(s, more).pc == Stopped && After(s, more).delivered == s.delivered
  {
    Reachable(xs);
    var s0 := Step(After(Blank(), xs), Stop);
    StepKeepsPc(After(Blank(), xs), Stop);
    hide Step, After, SlotOk;
    RunStops(s0, es);
    var s := After(s0, es);
    assert s.pc == Stopped;
    RunStops(s, more);
  }

  // A start of an ended thread has it sweep from the first descriptor, and hands on in order all
  // that waits in the ring.
  lemma StartSweeps(s: State)
    requires Inv(s) && s.pc == Stopped
    ensures var s' := Step(s, Start);
      && s'.pc == Look(0) && s'.running
      && Undisturbed(s', 0).delivered == s.delivered + SweepSlots(s.slots, s.callback, 0)
  {
    SweepDelivers(Step(s, Start), 0);
  }
}
