/** The SBUS message layer: register and memory accesses become S-Channel messages whose header
    names an operation, a block and a length. */
module Sbus {
  import opened Bits

  const READ_MEM: nat := 0x07
  const WRITE_MEM: nat := 0x09
  const READ_REG: nat := 0x0B
  const WRITE_REG: nat := 0x0D

  // Words of the driver's user-space message and data buffers.
  const USER_WORDS: nat := 16
  // Most data words of one table entry.
  const MAX_DATA: nat := 14

  // ----- Message header -----

  // (opcode << 26) | (block << 20) | (length in bytes << 7), in 32 bits.
  function Header(op: nat, blk: Word, dwords: nat): Word
    requires op < 64 && dwords < 32
  {
    Pow2Values();
    BitwiseBound(op * 0x400_0000, (blk * 0x10_0000) % 0x1_0000_0000, 0, 32);
    BitwiseBound(Or(op * 0x400_0000, (blk * 0x10_0000) % 0x1_0000_0000), (dwords * 4) * 0x80, 0, 32);
    Or(Or(op * 0x400_0000, (blk * 0x10_0000) % 0x1_0000_0000), (dwords * 4) * 0x80)
  }

  // The opcode as it leaves: a block number of 64 or more spills into it.
  function SentOp(op: nat, blk: Word): (r: nat)
    requires op < 64
    ensures r < 64
    ensures blk < 64 ==> r == op
  {
    OrZero(op);
    OrBelow64(op, (blk / 64) % 64);
    Or(op, (blk / 64) % 64)
  }

  lemma OrBelow64(a: nat, b: nat)
    requires a < 64 && b < 64
    ensures Or(a, b) < 64
  {
    hide Or;
    assert Pow2(6) == 64;
    BitwiseBound(a, b, 0, 6);
  }

  lemma BlockShifted(blk: Word)
    ensures (blk * 0x10_0000) % 0x1_0000_0000 == (blk / 64) % 64 * 0x400_0000 + blk % 64 * 0x10_0000
  {
    var (q, spill, b) := (blk / 0x1000, (blk % 0x1000) / 64, (blk % 0x1000) % 64);
    DivModUnique(blk, 64, q * 64 + spill, b);
    DivModUnique(q * 64 + spill, 64, q, spill);
    DivModUnique(blk * 0x10_0000, 0x1_0000_0000, q, spill * 0x400_0000 + b * 0x10_0000);
  }

  datatype Request = Request(op: nat, blk: nat, dwords: nat)

  function DecodeHeader(h: Word): (r: Request)
    ensures r.op < 64 && r.blk < 64 && r.dwords < 32
  {
    var h: nat := h;
    Request((h / 0x400_0000) % 64, (h / 0x10_0000) % 64, (h / 0x80) % 0x80 / 4)
  }

  // The header is the sum of its fields once the spill is counted into the opcode.
  lemma HeaderValue(op: nat, blk: Word, dwords: nat)
    requires op < 64 && dwords < 32
    ensures Header(op, blk, dwords) == SentOp(op, blk) * 0x400_0000 + (blk % 64) * 0x10_0000 + dwords * 0x200
  {
    BlockShifted(blk);
    SbusShifts();
    hide Or, Pow2;
    HeaderParts(op, (blk / 64) % 64, blk % 64, dwords);
  }

  lemma HeaderParts(op: nat, spill: nat, b: nat, dwords: nat)
    requires op < 64 && spill < 64 && b < 64 && dwords < 32
    ensures Or(Or(op * 0x400_0000, spill * 0x400_0000 + b * 0x10_0000), dwords * 0x200)
         == Or(op, spill) * 0x400_0000 + b * 0x10_0000 + dwords * 0x200
  {
    SbusShifts();
    hide Or, Pow2;
    OrAbove(op, spill, b * 0x10_0000, 26);
    var high := Or(op, spill) * 64 + b;
    OrAbove(high, 0, dwords * 0x200, 20);
    OrZero(high);
  }

  // Length and the low six bits of the block always come back; the opcode comes back exactly
  // when the bits of the block above those are among its own.
  lemma HeaderDecodes(op: nat, blk: Word, dwords: nat)
    requires op < 64 && dwords < 32
    ensures DecodeHeader(Header(op, blk, dwords)) == Request(SentOp(op, blk), blk % 64, dwords)
  {
    HeaderValue(op, blk, dwords);
    FieldsDecode(SentOp(op, blk), blk % 64, dwords, Header(op, blk, dwords));
  }

  lemma OpcodeIntactIff(op: nat, blk: Word)
    requires op < 64
    ensures SentOp(op, blk) == op <==> forall i: nat | BitOf((blk / 64) % 64, i) :: BitOf(op, i)
  {
    hide BitOf, Or;
    var spill := (blk / 64) % 64;
    forall i: nat ensures BitOf(SentOp(op, blk), i) == (BitOf(op, i) || BitOf(spill, i)) {
      OrBits(op, spill, i);
    }
    if forall i: nat | BitOf(spill, i) :: BitOf(op, i) {
      BitsDetermine(SentOp(op, blk), op);
    }
  }

  lemma FieldsDecode(op: nat, b: nat, dwords: nat, h: Word)
    requires op < 64 && b < 64 && dwords < 32 && h == op * 0x400_0000 + b * 0x10_0000 + dwords * 0x200
    ensures DecodeHeader(h) == Request(op, b, dwords)
  {
    DivModUnique(h, 0x400_0000, op, b * 0x10_0000 + dwords * 0x200);
    DivModUnique(h, 0x10_0000, op * 64 + b, dwords * 0x200);
    DivModUnique(op * 64 + b, 64, op, b);
    DivModUnique(h, 0x80, op * 0x8_0000 + b * 0x2000 + dwords * 4, 0);
    DivModUnique(op * 0x8_0000 + b * 0x2000 + dwords * 4, 0x80, op * 0x1000 + b * 0x40, dwords * 4);
  }

  // ----- Block routing -----

  // Bits 23:20 of an address, with bits 31:30 above them.
  function Block(addr: Word): (b: nat)
    ensures b < 64
  {
    (addr / 0x10_0000) % 16 + ((addr / 0x4000_0000) % 4) * 16
  }

  // (base & ~0xF00000) | (block << 20) | (port << 12)
  function PortAddr(base: Word, port: nat): Word
    requires port < 0x10_0000
  {
    Pow2Values();
    BitwiseBound(base, 0xF0_0000, 0, 32);
    BitwiseBound(Merge(base, 0xF0_0000, 0), Block(base) * 0x10_0000, 0, 32);
    BitwiseBound(Or(Merge(base, 0xF0_0000, 0), Block(base) * 0x10_0000), port * 0x1000, 0, 32);
    Or(Or(Merge(base, 0xF0_0000, 0), Block(base) * 0x10_0000), port * 0x1000)
  }

  lemma BlockBits(addr: Word, i: nat)
    ensures BitOf(Block(addr), i) == (i < 6 && BitOf(addr, if i < 4 then 20 + i else 26 + i))
  {
    var x, y := Shr(addr, 20), Shr(addr, 30);
    BlockIsJoin(addr);
    JoinBits(x % 16, y % 4, 4, i);
    LowBits(x, x % 16, 4, i);
    LowBits(y, y % 4, 2, if i < 4 then 0 else i - 4);
    ShrAdd(addr, 20, i);
    ShrAdd(addr, 30, if i < 4 then 0 else i - 4);
  }

  lemma BlockIsJoin(addr: Word)
    ensures Pow2(4) == 16 && Pow2(2) == 4
    ensures Block(addr) == Shr(addr, 20) % Pow2(4) + (Shr(addr, 30) % Pow2(2)) * Pow2(4)
  {
    ShrIsQuotient(addr, 20);
    ShrIsQuotient(addr, 30);
    SbusShifts();
  }

  lemma SbusShifts()
    ensures Pow2(12) == 0x1000 && Pow2(20) == 0x10_0000 && Pow2(26) == 0x400_0000 && Pow2(30) == 0x4000_0000
  {
    assert Pow2(10) == 0x400;
    assert Pow2(18) == 0x4_0000;
    assert Pow2(24) == 0x100_0000;
  }

  // Bits 23:20 are the block's; bits 25:24 gain the block's high bits; the port is or-ed in
  // from bit 12.
  lemma PortAddrBits(base: Word, port: nat, i: nat)
    requires port < 0x10_0000
    ensures BitOf(PortAddr(base, port), i)
         == (BitOf(base, i) || (i >= 12 && BitOf(port, i - 12)) || (24 <= i < 26 && BitOf(base, i + 6)))
  {
    hide Shr, Block, Or, Merge;
    SbusShifts();
    var m, b := Merge(base, 0xF0_0000, 0), Block(base) * 0x10_0000;
    OrBits(m, b, i);
    OrBits(Or(m, b), port * 0x1000, i);
    MergeBits(base, 0xF0_0000, 0, i);
    MaskBits(i);
    ZeroBits(i);
    ShlBits(Block(base), 20, i);
    ShlBits(port, 12, i);
    BlockBits(base, if i < 20 then 0 else i - 20);
  }

  lemma MaskBits(i: nat)
    ensures BitOf(0xF0_0000, i) == (20 <= i < 24)
  {
    SbusShifts();
    assert 0xF0_0000 == 15 * 0x10_0000;
    ShlBits(15, 20, i);
    if i >= 20 {
      JoinBits(15, 0, 4, i - 20);
      ZeroBits(i);
      ZeroBits(if i >= 24 then i - 24 else 0);
      assert i < 24 ==> i == 20 || i == 21 || i == 22 || i == 23;
    }
  }

  // A port below 256 never moves a register to another block.
  lemma PortAddrRoutes(base: Word, port: nat)
    requires port < 256
    ensures Block(PortAddr(base, port)) == Block(base)
  {
    hide Block, Shr, PortAddr;
    forall i: nat ensures BitOf(Block(PortAddr(base, port)), i) == BitOf(Block(base), i) {
      BlockBits(base, i);
      BlockBits(PortAddr(base, port), i);
      var k := if i < 4 then 20 + i else 26 + i;
      PortAddrBits(base, port, k);
      Pow2Values();
      HighBitsZero(port, 8, k - 12);
    }
    BitsDetermine(Block(PortAddr(base, port)), Block(base));
  }

  // Ports of a register whose port field is blank have distinct addresses.
  lemma PortAddrsDistinct(base: Word, p: nat, q: nat)
    requires p < 256 && q < 256 && PortAddr(base, p) == PortAddr(base, q)
    requires forall i: nat | 12 <= i < 20 :: !BitOf(base, i)
    ensures p == q
  {
    hide Shr, PortAddr;
    forall i: nat ensures BitOf(p, i) == BitOf(q, i) {
      Pow2Values();
      if i < 8 {
        PortAddrBits(base, p, i + 12);
        PortAddrBits(base, q, i + 12);
      } else {
        HighBitsZero(p, 8, i);
        HighBitsZero(q, 8, i);
      }
    }
    BitsDetermine(p, q);
  }
}
