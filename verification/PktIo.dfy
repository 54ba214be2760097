/** Packet I/O over the DMA pool: setting up the receive ring and sweeping it.

    The ring's descriptors are arrays of the words that the driver touches, allocated once and
    written in place; buffers come from the allocator of module Dma one by one, and a set-up may
    end half-way when memory runs out. One pass over the ring is proved to deliver and hand back
    what the sweep of module RxRing does. */
module PktIo {
  import opened Bits
  import opened Dma
  import opened RxRing

  const EIO: int := 5
  const ENOMEM: int := 12

  // 65 descriptors of 16 words.
  const RING_BYTES: nat := 4160
  const RING_ALIGN: nat := 64
  const BUF_ALIGN: nat := 16
  const DCB_CONTROL: Word := 0x0018_0000

  // A descriptor as the driver reads it: done is bit 31 of word 15, the length its low 15 bits,
  // the port the low byte of word 4.
  function SlotOf(status: Word, word4: Word, frame: nat): Slot {
    Slot(status / 0x8000_0000 == 1, status % 0x8000, word4 % 0x100, frame)
  }

  // Bit 31 of the status word is done, its bits 14:0 are the length, and bits 7:0 of word 4 the port.
  lemma SlotBits(status: Word, word4: Word, frame: nat, i: nat)
    ensures var s := SlotOf(status, word4, frame);
      && s.done == BitOf(status, 31) && s.frame == frame
      && BitOf(s.len, i) == (i < 15 && BitOf(status, i)) && BitOf(s.port, i) == (i < 8 && BitOf(word4, i))
  {
    Pow2Values();
    Pow2Widths();
    assert Pow2(15) == 2 * Pow2(14);
    ShrIsQuotient(status, 31);
    assert Pow2(32) == 2 * Pow2(31);
    hide BitOf, Pow2;
    LowBits(status, status % 0x8000, 15, i);
    LowBits(word4, word4 % 0x100, 8, i);
  }

  function SlotsOf(status: seq<Word>, word4: seq<Word>, frames: seq<nat>): (s: seq<Slot>)
    requires |status| == |word4| == |frames| == SLOTS
    ensures |s| == SLOTS
  {
    seq(SLOTS, i requires 0 <= i < SLOTS => SlotOf(status[i], word4[i], frames[i]))
  }

  // Handing a completed descriptor back clears its status word.
  lemma ClearedSlot(status: seq<Word>, word4: seq<Word>, frames: seq<nat>, i: nat)
    requires |status| == |word4| == |frames| == SLOTS && i < SLOTS
    ensures var s := SlotsOf(status, word4, frames);
      SlotsOf(status[i := 0], word4, frames) == s[i := s[i].(done := false, len := 0)]
  {
  }

  lemma SlotAt(status: seq<Word>, word4: seq<Word>, frames: seq<nat>, i: nat)
    requires |status| == |word4| == |frames| == SLOTS && i < SLOTS
    ensures SlotsOf(status, word4, frames)[i] == SlotOf(status[i], word4[i], frames[i])
  {
  }

  // Where the ring goes in a pool, and whether n buffers fit behind it.
  function RingStart(pool: Pool): nat {
    AlignUp(pool.vbase + pool.off, RING_ALIGN)
  }

  predicate RoomFor(pool: Pool, n: nat) {
    RingStart(pool) + RING_BYTES + BUF_SIZE * n <= pool.vbase + pool.size
  }

  // The pool can be mapped, and lies well inside the address space.
  predicate Sane(pool: Pool, m: Mapping) {
    Mapped(pool, m).1 && PoolOk(Mapped(pool, m).0) && Modest(Mapped(pool, m).0, RING_BYTES, RING_ALIGN)
  }

  // The ring and the first n buffers lie one right behind the other, and end where the free part
  // of the pool begins.
  predicate Layout(pool: Pool, ring: nat, bufs: seq<nat>, n: nat)
    requires n <= |bufs|
  {
    && PoolOk(pool) && ring % RING_ALIGN == 0 && pool.vbase + SCRATCH <= ring
    && ring + RING_BYTES + BUF_SIZE * n == pool.vbase + pool.off <= pool.vbase + pool.size
    && forall i | 0 <= i < n :: bufs[i] == ring + RING_BYTES + BUF_SIZE * i
  }

  // In such a pool a further buffer is granted exactly when it fits as it is.
  lemma LayoutGrows(pool: Pool, ring: nat, bufs: seq<nat>, n: nat)
    requires n < |bufs| && Layout(pool, ring, bufs, n) && Modest(pool, RING_BYTES, RING_ALIGN)
    ensures var (pool', a) := AllocIn(pool, BUF_SIZE, BUF_ALIGN);
      && (a != 0 <==> ring + RING_BYTES + BUF_SIZE * (n + 1) <= pool.vbase + pool.size)
      && (a != 0 ==> Layout(pool', ring, bufs[n := a], n + 1))
  {
    hide AllocIn, AlignUp;
    Alignments();
    hide Pow2;
    RequestIsSound(pool, BUF_SIZE, 4);
    AlignedStays(pool.vbase + pool.off, ring);
  }

  lemma AlignedStays(p: nat, ring: nat)
    requires p + BUF_ALIGN <= WRAP && ring % RING_ALIGN == 0 && ring <= p && (p - ring) % BUF_ALIGN == 0
    ensures AlignUp(p, BUF_ALIGN) == p
  {
    hide AlignUp;
    Alignments();
    AlignUpIsLeast(p, 4);
    assert p % BUF_ALIGN == 0;
  }

  lemma LayoutStarts(pool: Pool, bufs: seq<nat>)
    requires PoolOk(pool) && Modest(pool, RING_BYTES, RING_ALIGN)
    ensures var (pool', a) := AllocIn(pool, RING_BYTES, RING_ALIGN);
      && (a != 0 <==> RoomFor(pool, 0))
      && (a != 0 ==> a == RingStart(pool) && Layout(pool', a, bufs, 0))
  {
    hide AllocIn, AlignUp;
    Alignments();
    hide Pow2;
    RequestIsSound(pool, RING_BYTES, 6);
  }

  predicate SweptTo(was: seq<Slot>, now: seq<Slot>, n: nat)
    requires |was| == |now| == SLOTS
  {
    forall j | 0 <= j < SLOTS :: now[j] == if j < n && was[j].done then was[j].(done := false, len := 0) else was[j]
  }

  lemma OfferSame(a: seq<Slot>, b: seq<Slot>, callback: bool, i: nat)
    requires |a| == |b| == SLOTS && i < SLOTS && a[i] == b[i]
    ensures Offer(a, callback, i) == Offer(b, callback, i)
  {
  }

  lemma Alignments()
    ensures RING_ALIGN == Pow2(6) && BUF_ALIGN == Pow2(4)
  {
  }

  lemma SweepUnrolls(slots: seq<Slot>, callback: bool, i: nat, d: seq<Packet>)
    requires |slots| == SLOTS && i < SLOTS
    ensures (d + Offer(slots, callback, i)) + SweepSlots(slots, callback, i + 1) == d + SweepSlots(slots, callback, i)
  {
    hide Offer;
  }

  lemma SweepEnds(slots: seq<Slot>, callback: bool)
    requires |slots| == SLOTS
    ensures SweepSlots(slots, callback, SLOTS) == []
  {
  }

  class Rx {
    const dma: Allocator
    // 0 until the ring has been allocated.
    var ring: nat
    const bufs: array<nat>
    // Words 0, 1, 4 and 15 of the descriptors, and what is in the buffers.
    const dcb0: array<Word>
    const dcb1: array<Word>
    const dcb4: array<Word>
    const dcb15: array<Word>
    const frames: array<nat>
    var callback: bool
    var running: bool
    var delivered: seq<Packet>
    // Ring addresses handed to DMA channel 1.
    var kicked: seq<Word>

    ghost predicate Valid()
      reads this
    {
      && bufs.Length == SLOTS && frames.Length == SLOTS
      && dcb0.Length == SLOTS && dcb1.Length == SLOTS && dcb4.Length == SLOTS && dcb15.Length == SLOTS
      && dcb0 != dcb1 && dcb0 != dcb4 && dcb0 != dcb15 && dcb1 != dcb4 && dcb1 != dcb15 && dcb4 != dcb15
      && bufs != frames
    }

    constructor (dma: Allocator)
      ensures Valid() && this.dma == dma && ring == 0 && !running && !callback && delivered == []
      ensures forall i | 0 <= i < SLOTS :: bufs[i] == 0
      ensures fresh(bufs) && fresh(dcb0) && fresh(dcb1) && fresh(dcb4) && fresh(dcb15) && fresh(frames)
    {
      this.dma := dma;
      ring, running, callback, delivered, kicked := 0, false, false, [], [];
      bufs := new nat[SLOTS](_ => 0);
      frames := new nat[SLOTS](_ => 0);
      dcb0 := new Word[SLOTS](_ => 0);
      dcb1 := new Word[SLOTS](_ => 0);
      dcb4 := new Word[SLOTS](_ => 0);
      dcb15 := new Word[SLOTS](_ => 0);
    }

    // ----- Sweeping -----

    ghost function Slots(): (s: seq<Slot>)
      requires Valid()
      reads this, dcb4, dcb15, frames
      ensures |s| == SLOTS
    {
      SlotsOf(dcb15[..], dcb4[..], frames[..])
    }

    // Deliver and hand back one descriptor, when it is done.
    method PassDescriptor(i: nat)
      requires Valid() && i < SLOTS
      modifies dcb15, this`delivered
      ensures delivered == old(delivered) + Offer(old(Slots()), callback, i)
      ensures Slots() == if old(Slots())[i].done then old(Slots())[i := old(Slots())[i].(done := false, len := 0)]
                         else old(Slots())
    {
      hide SlotsOf;
      var st := dcb15[i];
      ClearedSlot(dcb15[..], dcb4[..], frames[..], i);
      SlotAt(dcb15[..], dcb4[..], frames[..], i);
      if st / 0x8000_0000 == 1 {
        ghost var status := dcb15[..];
        Deliver(Packet(i, st % 0x8000, dcb4[i] % 0x100, frames[i]));
        dcb15[i] := 0;
        assert dcb15[..] == status[i := 0];
      }
    }

    // One pass over the ring.
    method Sweep()
      requires Valid()
      modifies dcb15, this`delivered
      ensures delivered == old(delivered) + SweepSlots(old(Slots()), callback, 0)
      ensures Swept(old(Slots()), Slots(), 0)
    {
      hide Offer, Slots, SweepSlots;
      ghost var was := Slots();
      for i := 0 to SLOTS
        invariant delivered + SweepSlots(was, callback, i) == old(delivered) + SweepSlots(was, callback, 0)
        invariant SweptTo(was, Slots(), i)
      {
        ghost var d := delivered;
        OfferSame(was, Slots(), callback, i);
        PassDescriptor(i);
        SweepUnrolls(was, callback, i, d);
      }
      SweepEnds(was, callback);
    }

    method Deliver(packet: Packet)
      modifies this`delivered
      ensures delivered == if Good(Handled(packet, callback)) then old(delivered) + [packet] else old(delivered)
    {
      if packet.len > 0 && packet.len <= BUF_SIZE && callback {
        delivered := delivered + [packet];
      }
    }

    // ----- Setting up -----

    ghost predicate HasBuffers(n: nat)
      requires Valid() && n <= SLOTS
      reads this, bufs
    {
      forall i | 0 <= i < n :: bufs[i] != 0
    }

    // The first n descriptors are armed with their own buffers.
    ghost predicate Armed(n: nat)
      requires Valid() && n <= SLOTS
      reads this, bufs, dcb0, dcb1, dcb15, dma
    {
      forall i | 0 <= i < n ::
        dcb0[i] == Phys32(dma.pool, bufs[i]) && dcb1[i] == DCB_CONTROL + BUF_SIZE && dcb15[i] == 0
    }

    ghost predicate LaidOut(n: nat)
      requires Valid() && n <= SLOTS
      reads this, bufs, dma
    {
      Layout(dma.pool, ring, bufs[..], n)
    }

    // Allocate and arm one buffer.
    method AddBuffer(i: nat) returns (ok: bool)
      requires Valid() && i < SLOTS && HasBuffers(i) && Armed(i) && dma.pool.vbase != 0
      modifies dma, bufs, dcb0, dcb1, dcb15
      ensures ok ==> HasBuffers(i + 1) && Armed(i + 1)
      ensures !ok ==> bufs[i] == 0
      ensures dma.pool == old(dma.pool).(off := dma.pool.off)
      ensures old(LaidOut(i)) && Modest(old(dma.pool), RING_BYTES, RING_ALIGN) ==>
        && (ok <==> ring + RING_BYTES + BUF_SIZE * (i + 1) <= dma.pool.vbase + dma.pool.size)
        && (ok ==> LaidOut(i + 1))
    {
      hide AllocIn, Layout;
      ghost var before := bufs[..];
      if LaidOut(i) && Modest(dma.pool, RING_BYTES, RING_ALIGN) {
        LayoutGrows(dma.pool, ring, before, i);
      }
      AllocKeepsPool(dma.pool, BUF_SIZE, BUF_ALIGN);
      var a := dma.DmaAlloc(BUF_SIZE, BUF_ALIGN);
      bufs[i] := a;
      assert bufs[..] == before[i := a];
      if a == 0 {
        return false;
      }
      dcb0[i] := Phys32(dma.pool, a);
      dcb1[i] := DCB_CONTROL + BUF_SIZE;
      dcb15[i] := 0;
      ok := true;
    }

    method ZeroRing()
      requires Valid()
      modifies dcb0, dcb1, dcb4, dcb15
    {
      forall i | 0 <= i < SLOTS { dcb0[i] := 0; }
      forall i | 0 <= i < SLOTS { dcb1[i] := 0; }
      forall i | 0 <= i < SLOTS { dcb4[i] := 0; }
      forall i | 0 <= i < SLOTS { dcb15[i] := 0; }
    }

    // Allocate the ring and all the buffers. In a sane pool that works exactly when they all fit;
    // a failure part-way leaves the ring allocated.
    method SetUp() returns (ok: bool)
      requires Valid() && ring == 0
      modifies this`ring, dma, bufs, dcb0, dcb1, dcb4, dcb15
      ensures ok ==> ring != 0 && HasBuffers(SLOTS) && Armed(SLOTS)
      ensures !ok ==> ring == 0 || !HasBuffers(SLOTS)
      ensures Sane(old(dma.pool), dma.mappings(old(dma.attempts))) ==>
        var p := Mapped(old(dma.pool), dma.mappings(old(dma.attempts))).0;
        && (ok <==> RoomFor(p, SLOTS)) && (ring != 0 <==> RoomFor(p, 0))
        && (ring != 0 ==> ring == RingStart(p))
        && (ok ==> LaidOut(SLOTS))
        && (ring == 0 ==> dma.pool == p)
    {
      hide Layout, AllocIn, RingStart;
      ghost var p := Mapped(dma.pool, dma.mappings(dma.attempts)).0;
      ghost var sane := Sane(dma.pool, dma.mappings(dma.attempts));
      if sane {
        LayoutStarts(p, bufs[..]);
      }
      AllocKeepsPool(p, RING_BYTES, RING_ALIGN);
      ring := dma.DmaAlloc(RING_BYTES, RING_ALIGN);
      if ring == 0 {
        RefusedKeepsPool(p, RING_BYTES, RING_ALIGN);
        return false;
      }
      ZeroRing();
      for i := 0 to SLOTS
        invariant ring != 0 && HasBuffers(i) && Armed(i) && dma.pool.vbase != 0 && dma.pool == p.(off := dma.pool.off)
        invariant sane ==> ring == RingStart(p) && RoomFor(p, i) && LaidOut(i)
      {
        ok := AddBuffer(i);
        if !ok {
          return;
        }
      }
      ok := true;
    }

    // A start on an untouched receiver either sets everything up or, when memory runs out, may
    // leave a ring without all of its buffers; a start on a receiver with a ring never looks at
    // the buffers.
    method RxStart(kickOk: bool, threadOk: bool) returns (rc: int)
      requires Valid()
      modifies this`ring, this`running, this`kicked, dma, bufs, dcb0, dcb1, dcb4, dcb15
      ensures old(running) ==> rc == 0 && running && kicked == old(kicked)
      ensures !old(running) ==> running == (rc == 0)
      ensures old(running) || old(ring) != 0 ==>
        ring == old(ring) && bufs[..] == old(bufs[..]) && dma.pool == old(dma.pool)
      ensures !old(running) && old(ring) != 0 ==> rc == if kickOk && threadOk then 0 else -EIO
      ensures !old(running) && rc == 0 ==> kicked == old(kicked) + [Phys32(dma.pool, ring)]
      ensures !old(running) && old(ring) == 0 ==>
        && (rc == 0 || rc == -EIO || rc == -ENOMEM)
        && (rc != -ENOMEM ==> ring != 0 && HasBuffers(SLOTS) && Armed(SLOTS))
        && (rc == -ENOMEM ==> ring == 0 || !HasBuffers(SLOTS))
      ensures !old(running) && old(ring) == 0 && Sane(old(dma.pool), dma.mappings(old(dma.attempts))) ==>
        var p := Mapped(old(dma.pool), dma.mappings(old(dma.attempts))).0;
        && (rc == -ENOMEM <==> !RoomFor(p, SLOTS)) && (ring != 0 <==> RoomFor(p, 0))
        && (rc == 0 <==> RoomFor(p, SLOTS) && kickOk && threadOk)
        && (rc != -ENOMEM ==> LaidOut(SLOTS))
        && (ring == 0 ==> dma.pool == p)
    {
      hide Layout, Mapped, RoomFor;
      if running {
        return 0;
      }
      if ring == 0 {
        var ok := SetUp();
        if !ok {
          return -ENOMEM;
        }
      }
      if !kickOk {
        return -EIO;
      }
      kicked := kicked + [Phys32(dma.pool, ring)];
      running := true;
      if !threadOk {
        running := false;
        return -EIO;
      }
      rc := 0;
    }
  }

  // Two starts of an untouched receiver: a second start that succeeds after the first one failed
  // for memory has all its buffers exactly when the pool has room for them; with room for the
  // ring alone it succeeds without them.
  method StartTwice(rx: Rx) returns (rc1: int, rc2: int)
    requires rx.Valid() && !rx.running && rx.ring == 0
    requires Sane(rx.dma.pool, rx.dma.mappings(rx.dma.attempts))
    modifies rx`ring, rx`running, rx`kicked, rx.dma, rx.bufs, rx.dcb0, rx.dcb1, rx.dcb4, rx.dcb15
    ensures rx.Valid()
    ensures var p := Mapped(old(rx.dma.pool), rx.dma.mappings(old(rx.dma.attempts))).0;
      && (rc1 == -ENOMEM <==> !RoomFor(p, SLOTS))
      && (rc2 == 0 <==> RoomFor(p, 0)) && (rc2 == 0 ==> rx.running)
      && (rc2 == 0 ==> (rx.HasBuffers(SLOTS) <==> RoomFor(p, SLOTS)))
  {
    ghost var p := Mapped(rx.dma.pool, rx.dma.mappings(rx.dma.attempts)).0;
    assert Sane(p, rx.dma.mappings(rx.dma.attempts + 1));
    hide Layout, RingStart;
    rc1 := rx.RxStart(true, true);
    rc2 := rx.RxStart(true, true);
  }

  // The input: a pool of 16 KiB. The first start runs out of memory, the second succeeds, and
  // slots have no buffer.
  method StartInSmallPool() returns (rx: Rx, rc1: int, rc2: int)
    ensures rc1 == -ENOMEM && rc2 == 0
    ensures fresh(rx) && rx.Valid() && rx.running && !rx.HasBuffers(SLOTS)
  {
    var small := Mapping(0x10_0000, true, 0x200_0000, 0x4000);
    var dma := new Allocator(n => small);
    rx := new Rx(dma);
    SmallPoolStart();
    rc1, rc2 := StartTwice(rx);
  }

  lemma SmallPoolStart()
    ensures RingStart(Pool(0x10_0000, 0x200_0000, 0x4000, SCRATCH)) == 0x10_1000
  {
    hide AlignUp;
    Alignments();
    AlignUpIsLeast(0x10_1000, 6);
  }

  lemma RefusedKeepsPool(pool: Pool, size: nat, align: nat)
    requires align > 0
    ensures AllocIn(pool, size, align).1 == 0 && Modest(pool, size, align) && PoolOk(pool) && align == RING_ALIGN ==>
      AllocIn(pool, size, align).0 == pool
  {
    hide AllocIn;
    Alignments();
    if Modest(pool, size, align) && PoolOk(pool) && align == RING_ALIGN {
      RequestIsSound(pool, size, 6);
    }
  }

  lemma AllocKeepsPool(pool: Pool, size: nat, align: nat)
    requires align > 0
    ensures AllocIn(pool, size, align).0 == pool.(off := AllocIn(pool, size, align).0.off)
  {
  }
}
