/** The DMA pool: a bump allocator over one mapped region, in 32-bit pointer arithmetic, and the
    translation of its pointers to bus addresses. */
module Dma {
  import opened Bits

  const WRAP: nat := 0x1_0000_0000
  // Left alone at the start of the pool.
  const SCRATCH: nat := 4096

  // vbase 0 means that the pool has not been mapped.
  datatype Pool = Pool(vbase: nat, pbase: nat, size: nat, off: nat)

  const Unmapped := Pool(0, 0, 0, 0)

  // What mapping the pool, and asking for its bus address and size, come back with.
  datatype Mapping = Mapping(vbase: nat, infoOk: bool, pbase: nat, size: nat)

  // p & ~(align - 1)
  function MaskDown(p: nat, align: nat): nat
    requires align > 0
  {
    Merge(p, align - 1, 0)
  }

  // (p + (align - 1)) & ~(align - 1), in 32 bits.
  function AlignUp(p: nat, align: nat): nat
    requires align > 0
  {
    MaskDown((p + (align - 1)) % WRAP, align)
  }

  // The pool after the lazy mapping, and whether it can be used.
  function Mapped(pool: Pool, m: Mapping): (Pool, bool) {
    if pool.vbase != 0 then (pool, true)
    else if m.vbase == 0 then (pool, false)
    else if !m.infoOk then (pool.(vbase := m.vbase), false)
    else if m.size == 0 then (pool.(vbase := m.vbase, pbase := m.pbase, size := m.size), false)
    else (Pool(m.vbase, m.pbase, m.size, if pool.off < SCRATCH then SCRATCH else pool.off), true)
  }

  // An address of 0 is failure.
  function AllocIn(pool: Pool, size: nat, align: nat): (Pool, nat)
    requires align > 0
  {
    var a := AlignUp((pool.vbase + pool.off) % WRAP, align);
    if (a + size) % WRAP > (pool.vbase + pool.size) % WRAP then (pool, 0)
    else (pool.(off := (a - pool.vbase + size) % WRAP), a)
  }

  function AllocResult(pool: Pool, m: Mapping, size: nat, align: nat): (Pool, nat)
    requires align > 0
  {
    var (p, ok) := Mapped(pool, m);
    if ok then AllocIn(p, size, align) else (p, 0)
  }

  // ----- Alignment -----

  // Masking with a power of two drops the remainder.
  lemma {:induction false} MaskDownIsFloor(p: nat, k: nat)
    ensures MaskDown(p, Pow2(k)) == p - p % Pow2(k)
    decreases k
  {
    if k == 0 {
      MergeNothing(p);
    } else if p == 0 {
      MergeZero(Pow2(k) - 1);
      DivModUnique(0, Pow2(k), 0, 0);
    } else {
      var d := Pow2(k - 1);
      MaskDownIsFloor(p / 2, k - 1);
      HalveModDiv(p, k - 1);
      assert Pow2(k) == 2 * d && p % Pow2(k) == p % 2 + 2 * ((p / 2) % d);
      hide Pow2;
      MaskHalves(p, d);
    }
  }

  lemma MaskHalves(p: nat, d: nat)
    requires p > 0 && d > 0
    ensures MaskDown(p, 2 * d) == 2 * MaskDown(p / 2, d)
  {
    assert (2 * d - 1) / 2 == d - 1 && (2 * d - 1) % 2 == 1;
  }

  lemma {:induction false} MergeNothing(p: nat)
    ensures Merge(p, 0, 0) == p
    decreases p
  {
    if p > 0 {
      MergeNothing(p / 2);
    }
  }

  lemma {:induction false} MergeZero(mask: nat)
    ensures Merge(0, mask, 0) == 0
    decreases mask
  {
    if mask > 0 {
      MergeZero(mask / 2);
    }
  }

  lemma FloorBounds(q: nat, d: nat)
    requires d > 0
    ensures (q - q % d) % d == 0 && q - d < q - q % d <= q
  {
    DivModUnique(q - q % d, d, q / d, 0);
  }

  // Without wrap-around the aligned address is the least multiple at or above p; with it, the
  // address falls below p.
  lemma AlignUpIsLeast(p: nat, k: nat)
    requires p < WRAP && Pow2(k) <= WRAP
    ensures var a := AlignUp(p, Pow2(k));
      && a % Pow2(k) == 0
      && (p + Pow2(k) <= WRAP ==> p <= a < p + Pow2(k))
      && (p + Pow2(k) > WRAP ==> a < p)
  {
    var d := Pow2(k);
    var q := (p + (d - 1)) % WRAP;
    MaskDownIsFloor(q, k);
    FloorBounds(q, d);
    Wrapped(p + (d - 1));
    hide Pow2, MaskDown;
  }

  lemma Wrapped(x: nat)
    requires x < 2 * WRAP
    ensures x % WRAP == if x < WRAP then x else x - WRAP
  {
  }

  // ----- One request -----

  // The pool and one more request after its end stay inside the address space. A caller can
  // check this before asking.
  predicate Modest(pool: Pool, size: nat, align: nat) {
    && pool.vbase > 0
    && pool.vbase + (if pool.size < SCRATCH then SCRATCH else pool.size) + align + size <= WRAP
  }

  predicate PoolOk(pool: Pool) {
    && pool.vbase > 0 && SCRATCH <= pool.off
    && (pool.off <= pool.size || pool.off == SCRATCH)
  }

  // A granted block is aligned, starts at or past the offset, ends at the new offset inside the
  // pool; a refused request leaves the offset alone, and is refused exactly when it does not fit.
  lemma RequestIsSound(pool: Pool, size: nat, k: nat)
    requires PoolOk(pool) && Modest(pool, size, Pow2(k))
    ensures var (p', a) := AllocIn(pool, size, Pow2(k));
      var start := AlignUp(pool.vbase + pool.off, Pow2(k));
      && (a != 0 <==> start + size <= pool.vbase + pool.size)
      && (a == 0 ==> p' == pool)
      && (a != 0 ==>
            && a == start && a % Pow2(k) == 0
            && pool.vbase + SCRATCH <= pool.vbase + pool.off <= a
            && a + size == pool.vbase + p'.off <= pool.vbase + pool.size
            && p' == pool.(off := p'.off) && PoolOk(p'))
  {
    AlignUpIsLeast(pool.vbase + pool.off, k);
    hide AlignUp, Pow2;
    var d := Pow2(k);
    AllocUnwrapped(pool, size, d);
  }

  lemma AllocUnwrapped(pool: Pool, size: nat, d: nat)
    requires d > 0 && pool.vbase + pool.off < WRAP && pool.vbase + pool.size < WRAP
    ensures var a := AlignUp(pool.vbase + pool.off, d);
      && (a + size < WRAP && a >= pool.vbase ==>
            AllocIn(pool, size, d)
            == if a + size > pool.vbase + pool.size then (pool, 0) else (pool.(off := a + size - pool.vbase), a))
      && (AllocIn(pool, size, d).1 != 0 ==> AllocIn(pool, size, d).1 == a)
  {
    hide AlignUp;
    var a := AlignUp(pool.vbase + pool.off, d);
    Wrapped(pool.vbase + pool.off);
    Wrapped(pool.vbase + pool.size);
    if a + size < WRAP {
      Wrapped(a + size);
    }
  }

  // When a request is not modest its alignment or its end can wrap, and the block then lies
  // outside the pool although it is granted: a granted block is sound exactly without wrapping.
  lemma GrantIsSoundIff(pool: Pool, size: nat, k: nat)
    requires PoolOk(pool) && pool.vbase + pool.off < WRAP && pool.vbase + pool.size < WRAP
    requires size < WRAP && Pow2(k) <= WRAP
    requires AllocIn(pool, size, Pow2(k)).1 != 0
    ensures var a := AllocIn(pool, size, Pow2(k)).1;
      (pool.vbase + pool.off <= a && a + size <= pool.vbase + pool.size)
      <==> pool.vbase + pool.off + Pow2(k) <= WRAP && AlignUp(pool.vbase + pool.off, Pow2(k)) + size < WRAP
  {
    AlignUpIsLeast(pool.vbase + pool.off, k);
    hide AlignUp, Pow2;
    AllocUnwrapped(pool, size, Pow2(k));
  }

  // ----- Runs -----

  // A request, and what mapping the pool would bring if it had to be mapped then.
  datatype Request = Request(size: nat, k: nat, m: Mapping)

  datatype Block = Block(addr: nat, size: nat, align: nat)

  datatype Run = Run(pool: Pool, blocks: seq<Block>)

  function RunOne(r: Run, q: Request): Run {
    var (p, a) := AllocResult(r.pool, q.m, q.size, Pow2(q.k));
    Run(p, if a == 0 then r.blocks else r.blocks + [Block(a, q.size, Pow2(q.k))])
  }

  function After(start: Run, qs: seq<Request>): Run {
    if qs == [] then start else RunOne(After(start, qs[..|qs| - 1]), qs[|qs| - 1])
  }

  ghost predicate BlocksOk(pool: Pool, blocks: seq<Block>) {
    && (forall i | 0 <= i < |blocks| ::
          && 0 < blocks[i].align && blocks[i].addr % blocks[i].align == 0
          && pool.vbase + SCRATCH <= blocks[i].addr
          && blocks[i].addr + blocks[i].size <= pool.vbase + pool.off
          && blocks[i].addr + blocks[i].size <= pool.vbase + pool.size)
    && forall i, j | 0 <= i < j < |blocks| :: blocks[i].addr + blocks[i].size <= blocks[j].addr
  }

  // Mapped, but asking for its size failed or brought 0: there is no room in it.
  predicate Dead(pool: Pool) {
    pool.vbase > 0 && pool.size == 0 && pool.off == 0
  }

  ghost predicate RunOk(r: Run) {
    || (r.pool == Unmapped && r.blocks == [])
    || (Dead(r.pool) && forall i | 0 <= i < |r.blocks| :: r.blocks[i].size == 0)
    || (PoolOk(r.pool) && r.pool.size > 0 && BlocksOk(r.pool, r.blocks))
  }

  // The request is modest in a pool at vbase of the given size.
  predicate Suits(q: Request, vbase: nat, size: nat) {
    vbase > 0 ==> vbase + (if size < SCRATCH then SCRATCH else size) + Pow2(q.k) + q.size <= WRAP
  }

  ghost predicate AllSuit(pool: Pool, qs: seq<Request>) {
    forall q, q' | q in qs && q' in qs :: Suits(q, pool.vbase, pool.size) && Suits(q, q'.m.vbase, q'.m.size)
  }

  // Where a pool can come from: it is the starting one, or one of the mappings brought it.
  ghost predicate ComesFrom(pool: Pool, start: Pool, qs: seq<Request>) {
    || (pool.vbase == start.vbase && pool.size == start.size)
    || exists q :: q in qs && pool.vbase == q.m.vbase && (pool.size == q.m.size || pool.size == 0)
  }

  lemma MappedPool(pool: Pool, m: Mapping)
    requires pool == Unmapped || Dead(pool) || (PoolOk(pool) && pool.size > 0)
    ensures var (p, ok) := Mapped(pool, m);
      && (pool != Unmapped ==> p == pool && ok)
      && (pool == Unmapped ==> p.vbase == m.vbase && (p.size == m.size || p.size == 0))
      && (ok ==> Dead(p) || (PoolOk(p) && p.size > 0))
      && (!ok ==> p == Unmapped || Dead(p))
  {
  }

  // A pool without room grants nothing but empty blocks, and stays as it is.
  lemma DeadGrantsNothing(pool: Pool, size: nat, k: nat)
    requires Dead(pool) && pool.vbase + SCRATCH + Pow2(k) + size <= WRAP
    ensures var (p, a) := AllocIn(pool, size, Pow2(k));
      p == pool && (a != 0 ==> size == 0)
  {
    AlignUpIsLeast(pool.vbase, k);
    hide AlignUp, Pow2, AllocIn;
    AllocUnwrapped(pool, size, Pow2(k));
  }

  lemma RequestKeepsRun(r: Run, q: Request)
    requires RunOk(r) && Suits(q, Mapped(r.pool, q.m).0.vbase, Mapped(r.pool, q.m).0.size)
    ensures RunOk(RunOne(r, q))
    ensures RunOne(r, q).pool.vbase == Mapped(r.pool, q.m).0.vbase
    ensures RunOne(r, q).pool.size == Mapped(r.pool, q.m).0.size
  {
    hide AllocIn, Pow2;
    MappedPool(r.pool, q.m);
    var (p, ok) := Mapped(r.pool, q.m);
    hide Mapped;
    if ok {
      if Dead(p) {
        DeadGrantsNothing(p, q.size, q.k);
      } else {
        RequestIsSound(p, q.size, q.k);
      }
    }
  }

  // Over any sequence of requests, from before the pool is mapped and however often mapping it
  // fails, the granted blocks are aligned and lie inside the pool past its first 4096 bytes, one
  // after the other; or the pool has no room, and every granted block is empty.
  lemma {:induction false} BlocksAreDisjoint(start: Run, qs: seq<Request>)
    requires RunOk(start) && AllSuit(start.pool, qs)
    ensures RunOk(After(start, qs)) && ComesFrom(After(start, qs).pool, start.pool, qs)
  {
    hide RunOk, Suits, RunOne, PoolOk, Dead;
    if qs != [] {
      var before, q := qs[..|qs| - 1], qs[|qs| - 1];
      assert forall x :: x in before ==> x in qs;
      BlocksAreDisjoint(start, before);
      var r := After(start, before);
      NextSuits(r, start.pool, qs);
      RequestKeepsRun(r, q);
    }
  }

  lemma NextSuits(r: Run, start: Pool, qs: seq<Request>)
    requires qs != [] && RunOk(r) && AllSuit(start, qs) && ComesFrom(r.pool, start, qs[..|qs| - 1])
    ensures var (q, p) := (qs[|qs| - 1], Mapped(r.pool, qs[|qs| - 1].m).0);
      Suits(q, p.vbase, p.size) && ComesFrom(p, start, qs)
  {
    var q := qs[|qs| - 1];
    assert q in qs;
    assert forall x :: x in qs[..|qs| - 1] ==> x in qs;
    MappedPool(r.pool, q.m);
    hide BlocksOk, PoolOk, Pow2, Mapped;
    if r.pool.vbase == start.vbase && r.pool.size == start.size {
      assert Suits(q, start.vbase, start.size) && Suits(q, q.m.vbase, q.m.size);
    } else {
      var q' :| q' in qs[..|qs| - 1] && r.pool.vbase == q'.m.vbase && (r.pool.size == q'.m.size || r.pool.size == 0);
      assert Suits(q, q'.m.vbase, q'.m.size) && Suits(q, q.m.vbase, q.m.size);
    }
  }

  // So from the start on, two blocks that are not empty never meet, and each is aligned and inside
  // the pool; every mapping that may come must leave the requests modest.
  lemma BlocksFromBoot(qs: seq<Request>, i: nat, j: nat)
    requires forall q, q' | q in qs && q' in qs :: Suits(q, q'.m.vbase, q'.m.size)
    requires i < j < |After(Run(Unmapped, []), qs).blocks|
    ensures var (pool, x, y) := (After(Run(Unmapped, []), qs).pool, After(Run(Unmapped, []), qs).blocks[i],
                                 After(Run(Unmapped, []), qs).blocks[j]);
      0 < x.size && 0 < y.size ==>
        && x.align > 0 && x.addr % x.align == 0 && y.align > 0 && y.addr % y.align == 0
        && pool.vbase + SCRATCH <= x.addr && x.addr + x.size <= y.addr
        && y.addr + y.size <= pool.vbase + pool.size
  {
    hide After;
    assert AllSuit(Unmapped, qs);
    BlocksAreDisjoint(Run(Unmapped, []), qs);
  }

  // Once asking for the size has failed, however the requests go on: the pool stays as it is,
  // and no block of a non-zero size is ever granted.
  lemma {:induction false} FailedInfoIsFinal(m: Mapping, q0: Request, qs: seq<Request>)
    requires 0 < m.vbase && (!m.infoOk || m.size == 0) && q0.m == m
    requires forall q | q in [q0] + qs :: Suits(q, m.vbase, 0)
    ensures var r := After(RunOne(Run(Unmapped, []), q0), qs);
      && Dead(r.pool) && r.pool.vbase == m.vbase
      && forall i | 0 <= i < |r.blocks| :: r.blocks[i].size == 0
    decreases |qs|
  {
    hide AllocIn, Pow2;
    if qs != [] {
      var before, q := qs[..|qs| - 1], qs[|qs| - 1];
      assert q in [q0] + qs;
      assert forall x :: x in [q0] + before ==> x in [q0] + qs;
      FailedInfoIsFinal(m, q0, before);
      DeadGrantsNothing(After(RunOne(Run(Unmapped, []), q0), before).pool, q.size, q.k);
    }
  }

  // ----- Bus addresses -----

  // (uint32_t)(pbase + (p - vbase))
  function Phys32(pool: Pool, p: nat): Word {
    (pool.pbase + (p - pool.vbase)) % WRAP
  }

  // The 32-bit bus address is the true one for the whole pool exactly when the pool lies below
  // 4 GiB.
  lemma BusAddressesTrueIff(pool: Pool)
    requires 0 < pool.size
    ensures (forall p | pool.vbase <= p < pool.vbase + pool.size :: Phys32(pool, p) == pool.pbase + (p - pool.vbase))
       <==> pool.pbase + pool.size <= WRAP
  {
    if pool.pbase + pool.size > WRAP {
      var p := pool.vbase + pool.size - 1;
      assert Phys32(pool, p) != pool.pbase + (p - pool.vbase);
    }
  }

  // Below 4 GiB, disjoint blocks have disjoint bus ranges, which end below 4 GiB too.
  lemma BusRangesDisjoint(pool: Pool, a: Block, b: Block)
    requires pool.pbase + pool.size <= WRAP && 0 < a.size && 0 < b.size
    requires pool.vbase <= a.addr && a.addr + a.size <= b.addr && b.addr + b.size <= pool.vbase + pool.size
    ensures Phys32(pool, a.addr) + a.size <= Phys32(pool, b.addr) && Phys32(pool, b.addr) + b.size <= WRAP
  {
  }

  // ----- The allocator -----

  class Allocator {
    var pool: Pool
    // Attempts made to map the pool, and what each brings.
    var attempts: nat
    const mappings: nat -> Mapping

    constructor (mappings: nat -> Mapping)
      ensures pool == Unmapped && attempts == 0 && this.mappings == mappings
    {
      this.mappings := mappings;
      pool, attempts := Unmapped, 0;
    }

    method DmaAlloc(size: nat, align: nat) returns (a: nat)
      requires align > 0
      modifies this
      ensures (pool, a) == AllocResult(old(pool), mappings(old(attempts)), size, align)
    {
      hide AlignUp;
      if pool.vbase == 0 {
        var m := mappings(attempts);
        attempts := attempts + 1;
        if m.vbase == 0 {
          return 0;
        }
        pool := pool.(vbase := m.vbase);
        if !m.infoOk {
          return 0;
        }
        pool := pool.(pbase := m.pbase, size := m.size);
        if m.size == 0 {
          return 0;
        }
        if pool.off < SCRATCH {
          pool := pool.(off := SCRATCH);
        }
      }
      var p := (pool.vbase + pool.off) % WRAP;
      a := AlignUp(p, align);
      if (a + size) % WRAP > (pool.vbase + pool.size) % WRAP {
        return 0;
      }
      pool := pool.(off := (a - pool.vbase + size) % WRAP);
    }
  }
}
