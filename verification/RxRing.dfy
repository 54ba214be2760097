/** The receive ring: device and driver thread share the descriptors, one access a step. */
module RxRing {
  const SLOTS: nat := 64
  const BUF_SIZE: nat := 2048

  // The status word of a descriptor: done bit and the low 15 bits; frame is what is in its buffer.
  datatype Slot = Slot(done: bool, len: nat, port: nat, frame: nat)

  datatype Packet = Packet(slot: nat, len: nat, port: nat, frame: nat)

  // What the thread did with one completion: whether a callback was registered at the time.
  datatype Handled = Handled(packet: Packet, registered: bool)

  datatype Pc = Stopped | Look(i: nat) | Found(i: nat, len: nat) | Decide(i: nat, len: nat, port: nat) | Rearm(i: nat)

  datatype State = State(
    slots: seq<Slot>, pc: Pc, running: bool, callback: bool,
    completed: seq<seq<Packet>>, handled: seq<seq<Handled>>, delivered: seq<Packet>)
  {
    predicate Shaped() {
      |slots| == SLOTS && |completed| == SLOTS && |handled| == SLOTS
    }
  }

  datatype Event =
    // The device's two moves on a descriptor that it owns.
    | Fill(i: nat, len: nat, port: nat, frame: nat)
    | Complete(i: nat, len: nat)
    | Thread
    | Start | Stop | Register(callback: bool)

  predicate Good(h: Handled) {
    0 < h.packet.len <= BUF_SIZE && h.registered
  }

  // After the last slot the thread looks whether it should go on.
  function Next(s: State, i: nat): Pc {
    if i + 1 < SLOTS then Look(i + 1) else if s.running then Look(0) else Stopped
  }

  function ThreadStep(s: State): State
    requires s.Shaped()
  {
    match s.pc
    case Stopped => s
    case Look(i) =>
      if i >= SLOTS then s
      else if s.slots[i].done then s.(pc := Found(i, s.slots[i].len)) else s.(pc := Next(s, i))
    case Found(i, len) => if i >= SLOTS then s else s.(pc := Decide(i, len, s.slots[i].port))
    case Decide(i, len, port) =>
      if i >= SLOTS then s
      else
        var h := Handled(Packet(i, len, port, s.slots[i].frame), s.callback);
        s.(pc := Rearm(i), handled := s.handled[i := s.handled[i] + [h]],
           delivered := if Good(h) then s.delivered + [h.packet] else s.delivered)
    case Rearm(i) =>
      if i >= SLOTS then s
      else s.(slots := s.slots[i := s.slots[i].(done := false, len := 0)], pc := Next(s, i))
  }

  // Moves that do not apply change nothing; the device leaves a descriptor alone once it has
  // completed it.
  function Step(s: State, e: Event): (s': State)
    requires s.Shaped()
    ensures s'.Shaped()
  {
    match e
    case Fill(i, len, port, frame) =>
      if i < SLOTS && !s.slots[i].done then s.(slots := s.slots[i := Slot(false, len, port, frame)]) else s
    case Complete(i, len) =>
      if i < SLOTS && !s.slots[i].done then
        var slot := s.slots[i].(done := true, len := len);
        s.(slots := s.slots[i := slot],
           completed := s.completed[i := s.completed[i] + [Packet(i, len, slot.port, slot.frame)]])
      else s
    case Thread => ThreadStep(s)
    case Start => if s.pc.Stopped? then s.(running := true, pc := Look(0)) else s
    case Stop => s.(running := false)
    case Register(cb) => s.(callback := cb)
  }

  function Blank(): (s: State)
    ensures s.Shaped()
    ensures forall i | 0 <= i < SLOTS :: !s.slots[i].done && s.completed[i] == [] && s.handled[i] == []
  {
    State(seq(SLOTS, _ => Slot(false, 0, 0, 0)), Stopped, false, false, seq(SLOTS, _ => []), seq(SLOTS, _ => []), [])
  }

  function After(s: State, es: seq<Event>): (s': State)
    requires s.Shaped()
    ensures s'.Shaped()
  {
    if es == [] then s else Step(After(s, es[..|es| - 1]), es[|es| - 1])
  }

  // ----- Invariant -----

  function Packets(hs: seq<Handled>): seq<Packet> {
    if hs == [] then [] else Packets(hs[..|hs| - 1]) + [hs[|hs| - 1].packet]
  }

  // The good ones among the handled, in order.
  function Wanted(hs: seq<Handled>): seq<Packet> {
    if hs == [] then []
    else
      var h := hs[|hs| - 1];
      if Good(h) then Wanted(hs[..|hs| - 1]) + [h.packet] else Wanted(hs[..|hs| - 1])
  }

  function AtSlot(ps: seq<Packet>, i: nat): seq<Packet> {
    if ps == [] then []
    else
      var p := ps[|ps| - 1];
      if p.slot == i then AtSlot(ps[..|ps| - 1], i) + [p] else AtSlot(ps[..|ps| - 1], i)
  }

  // Completed and not handled yet.
  predicate Pending(s: State, i: nat)
    requires s.Shaped() && i < SLOTS
  {
    s.slots[i].done && s.pc != Rearm(i)
  }

  function PacketAt(s: State, i: nat): Packet
    requires s.Shaped() && i < SLOTS
  {
    Packet(i, s.slots[i].len, s.slots[i].port, s.slots[i].frame)
  }

  predicate SlotOk(s: State, i: nat)
    requires s.Shaped() && i < SLOTS
  {
    && s.completed[i] == Packets(s.handled[i]) + (if Pending(s, i) then [PacketAt(s, i)] else [])
    && AtSlot(s.delivered, i) == Wanted(s.handled[i])
  }

  predicate PcOk(s: State)
    requires s.Shaped()
  {
    match s.pc
    case Stopped => true
    case Look(i) => i < SLOTS
    case Found(i, len) => i < SLOTS && s.slots[i].done && s.slots[i].len == len
    case Decide(i, len, port) => i < SLOTS && s.slots[i].done && s.slots[i].len == len && s.slots[i].port == port
    case Rearm(i) => i < SLOTS && s.slots[i].done
  }

  ghost predicate Inv(s: State) {
    s.Shaped() && PcOk(s) && forall i | 0 <= i < SLOTS :: SlotOk(s, i)
  }

  lemma StepKeepsPc(s: State, e: Event)
    requires s.Shaped() && PcOk(s)
    ensures PcOk(Step(s, e))
  {
  }

  lemma StepKeepsSlot(s: State, e: Event, i: nat)
    requires s.Shaped() && PcOk(s) && i < SLOTS && SlotOk(s, i)
    ensures SlotOk(Step(s, e), i)
  {
  }

  lemma {:induction false} Reachable(es: seq<Event>)
    ensures Inv(After(Blank(), es))
  {
    hide Step, SlotOk, PcOk;
    if es == [] {
      BlankOk();
    } else {
      var s := After(Blank(), es[..|es| - 1]);
      Reachable(es[..|es| - 1]);
      StepKeepsPc(s, es[|es| - 1]);
      var s' := Step(s, es[|es| - 1]);
      forall i | 0 <= i < SLOTS ensures SlotOk(s', i) {
        StepKeepsSlot(s, es[|es| - 1], i);
      }
    }
  }

  lemma BlankOk()
    ensures Inv(Blank())
  {
  }

  // ----- Exactly once, in order -----

  // Over every interleaving, the thread has handled each slot's completions in order, all but
  // the one still waiting in the ring; and what it delivered from the slot is, in order, each
  // handled completion of 1..2048 bytes that found a callback, with the completion's own
  // length, port and buffer contents, once.
  lemma DeliversExactlyOnce(es: seq<Event>, i: nat)
    requires i < SLOTS
    ensures var s := After(Blank(), es);
      && |s.completed[i]| == |s.handled[i]| + (if Pending(s, i) then 1 else 0)
      && (forall k | 0 <= k < |s.handled[i]| :: s.handled[i][k].packet == s.completed[i][k])
      && AtSlot(s.delivered, i) == Wanted(s.handled[i])
  {
    Reachable(es);
    hide Pending, Wanted, After;
    var s := After(Blank(), es);
    assert SlotOk(s, i);
    PacketsAt(s.handled[i]);
  }

  lemma {:induction false} PacketsAt(hs: seq<Handled>)
    ensures |Packets(hs)| == |hs| && forall k | 0 <= k < |hs| :: Packets(hs)[k] == hs[k].packet
  {
    if hs != [] {
      PacketsAt(hs[..|hs| - 1]);
    }
  }

  // A packet is wanted exactly when it is one of the handled, has 1..2048 bytes, and there was a
  // callback.
  lemma {:induction false} WantedIff(hs: seq<Handled>, p: Packet)
    ensures p in Wanted(hs)
       <==> exists k :: 0 <= k < |hs| && hs[k].packet == p && 1 <= p.len <= 2048 && hs[k].registered
  {
    if hs != [] {
      WantedIff(hs[..|hs| - 1], p);
    }
  }

  // ----- Every completion is handled -----

  function Threads(es: seq<Event>): nat {
    if es == [] then 0 else Threads(es[..|es| - 1]) + if es[|es| - 1].Thread? then 1 else 0
  }

  function Ahead(j: nat, i: nat): int {
    if j <= i then i - j else i - j + SLOTS
  }

  // Thread steps, at most, until slot i's completion is handled.
  function Distance(pc: Pc, i: nat): int {
    match pc
    case Stopped => 0
    case Look(j) => 4 * Ahead(j, i) + 3
    case Found(j, _) => 4 * Ahead(j, i) + 2
    case Decide(j, _, _) => 4 * Ahead(j, i) + 1
    case Rearm(j) => 4 * Ahead(j, i)
  }

  predicate Waits(s: State, s': State, i: nat, n: nat)
    requires s.Shaped() && s'.Shaped() && i < SLOTS
  {
    && s'.running && !s'.pc.Stopped? && |s.handled[i]| <= |s'.handled[i]|
    && (|s.handled[i]| == |s'.handled[i]| ==> Pending(s', i) && Distance(s'.pc, i) + n <= Distance(s.pc, i))
  }

  lemma StepWaits(s: State, s': State, e: Event, i: nat, n: nat)
    requires s.Shaped() && s'.Shaped() && PcOk(s') && i < SLOTS && e != Stop && Waits(s, s', i, n)
    ensures Waits(s, Step(s', e), i, if e.Thread? then n + 1 else n)
  {
  }

  lemma {:induction false} RunWaits(s: State, es: seq<Event>, i: nat)
    requires s.Shaped() && PcOk(s) && i < SLOTS && Pending(s, i) && s.running && !s.pc.Stopped?
    requires Stop !in es
    ensures PcOk(After(s, es)) && Waits(s, After(s, es), i, Threads(es))
  {
    hide Step, Pending, PcOk;
    if es != [] {
      var before, e := es[..|es| - 1], es[|es| - 1];
      assert e in es;
      RunWaits(s, before, i);
      StepKeepsPc(After(s, before), e);
      StepWaits(s, After(s, before), e, i, Threads(before));
    }
  }

  // While the driver is not stopped, 256 steps of its thread, wherever it was and whatever the
  // device does meanwhile, handle any waiting completion.
  lemma HandledWithin256(s: State, es: seq<Event>, i: nat)
    requires Inv(s) && i < SLOTS && Pending(s, i) && s.running && !s.pc.Stopped?
    requires Stop !in es && Threads(es) >= 256
    ensures |After(s, es).handled[i]| > |s.handled[i]|
  {
    hide SlotOk;
    RunWaits(s, es, i);
    var s' := After(s, es);
    hide After;
    assert Distance(s.pc, i) < 4 * SLOTS;
    assert Distance(s'.pc, i) >= 0;
  }

  // ----- One sweep without the device -----

  // What slot i gives a sweep to deliver.
  function Offer(slots: seq<Slot>, callback: bool, i: nat): seq<Packet>
    requires |slots| == SLOTS && i < SLOTS
  {
    var h := Handled(Packet(i, slots[i].len, slots[i].port, slots[i].frame), callback);
    if slots[i].done && Good(h) then [h.packet] else []
  }

  // What a sweep from slot i delivers.
  function SweepSlots(slots: seq<Slot>, callback: bool, i: nat): seq<Packet>
    requires |slots| == SLOTS && i <= SLOTS
    decreases SLOTS - i, slots
  {
    if i == SLOTS then []
    else Offer(slots, callback, i) + SweepSlots(slots, callback, i + 1)
  }

  predicate Swept(slots: seq<Slot>, slots': seq<Slot>, i: nat)
    requires |slots| == |slots'| == SLOTS
  {
    forall j | 0 <= j < SLOTS ::
      slots'[j] == if j >= i && slots[j].done then slots[j].(done := false, len := 0) else slots[j]
  }

  // The thread alone, past slot i: one step when it is not done, four when it is.
  function PassSlot(s: State, i: nat): (s': State)
    requires s.Shaped() && i < SLOTS && s.pc == Look(i)
    ensures s'.Shaped()
    ensures s'.pc == Next(s, i) && s'.callback == s.callback && s'.running == s.running
    ensures s'.slots == if s.slots[i].done then s.slots[i := s.slots[i].(done := false, len := 0)] else s.slots
    ensures s'.delivered == s.delivered + Offer(s.slots, s.callback, i)
  {
    if s.slots[i].done then ThreadStep(ThreadStep(ThreadStep(ThreadStep(s)))) else ThreadStep(s)
  }

  // The thread alone, from Look(i) to the end of its sweep.
  function Undisturbed(s: State, i: nat): (s': State)
    requires s.Shaped() && i < SLOTS && s.pc == Look(i)
    ensures s'.Shaped()
    decreases SLOTS - i, s
  {
    var s' := PassSlot(s, i);
    if i + 1 < SLOTS then Undisturbed(s', i + 1) else s'
  }

  // A sweep delivers what its completed slots hold, in slot order.
  lemma {:induction false} SweepDelivers(s: State, i: nat)
    requires s.Shaped() && i < SLOTS && s.pc == Look(i)
    ensures Undisturbed(s, i).delivered == s.delivered + SweepSlots(s.slots, s.callback, i)
    decreases SLOTS - i
  {
    hide PassSlot, Offer;
    var s' := PassSlot(s, i);
    var rest := SweepSlots(s.slots, s.callback, i + 1);
    if i + 1 < SLOTS {
      SweepDelivers(s', i + 1);
      SameTail(s.slots, s'.slots, s.callback, i + 1);
    }
    hide SweepSlots;
    assert (s.delivered + Offer(s.slots, s.callback, i)) + rest == s.delivered + (Offer(s.slots, s.callback, i) + rest);
  }

  // A sweep hands back exactly the completed slots.
  lemma {:induction false} SweepHandsBack(s: State, i: nat)
    requires s.Shaped() && i < SLOTS && s.pc == Look(i)
    ensures Swept(s.slots, Undisturbed(s, i).slots, i)
    decreases SLOTS - i
  {
    hide PassSlot, Good;
    if i + 1 < SLOTS {
      SweepHandsBack(PassSlot(s, i), i + 1);
    }
  }

  lemma {:induction false} SameTail(a: seq<Slot>, b: seq<Slot>, callback: bool, i: nat)
    requires |a| == |b| == SLOTS && i <= SLOTS && forall j | i <= j < SLOTS :: a[j] == b[j]
    ensures SweepSlots(a, callback, i) == SweepSlots(b, callback, i)
    decreases SLOTS - i
  {
    if i < SLOTS {
      SameTail(a, b, callback, i + 1);
    }
  }
}
