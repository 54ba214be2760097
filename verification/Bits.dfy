/** Numbers as bit strings, and 32-bit words.

    A word is the number it holds: setting bit b adds 2^b when the bit is clear, clearing it
    subtracts 2^b when it is set. The bitwise operators are defined bit by bit, and shifts by
    doubling and halving. */
module Bits {

  // ----- Numbers as bit strings -----

  function Pow2(n: nat): (p: nat)
    ensures p > 0
  {
    if n == 0 then 1 else 2 * Pow2(n - 1)
  }

  // v >> s: s halvings.
  function Shr(v: nat, s: nat): nat {
    if s == 0 then v else Shr(v / 2, s - 1)
  }

  // (v >> i) & 1.
  predicate BitOf(v: nat, i: nat) {
    Shr(v, i) % 2 == 1
  }

  lemma DivModUnique(v: nat, d: nat, q: nat, r: nat)
    requires d > 0 && r < d && v == d * q + r
    ensures v / d == q && v % d == r
  {
    var e := v / d - q;
    assert d * (v / d) == d * q + d * e;
    assert e >= 1 ==> d * e >= d;
    assert e <= -1 ==> d * e <= -1 * d;
  }

  // Halving a number halves the power of two that a remainder or quotient is taken by.
  lemma HalveModDiv(v: nat, w: nat)
    ensures v % Pow2(w + 1) == v % 2 + 2 * ((v / 2) % Pow2(w))
    ensures v / Pow2(w + 1) == (v / 2) / Pow2(w)
  {
    var p := Pow2(w);
    var q, r := (v / 2) / p, (v / 2) % p;
    assert v / 2 == p * q + r;
    assert v == 2 * (p * q + r) + v % 2 == (2 * p) * q + (2 * r + v % 2);
    DivModUnique(v, 2 * p, q, 2 * r + v % 2);
  }

  lemma {:induction false} ShrIsQuotient(v: nat, s: nat)
    ensures Shr(v, s) == v / Pow2(s)
  {
    if s > 0 {
      ShrIsQuotient(v / 2, s - 1);
      HalveModDiv(v, s - 1);
    }
  }

  lemma {:induction false} ShrAdd(v: nat, s: nat, i: nat)
    ensures Shr(Shr(v, s), i) == Shr(v, s + i)
  {
    if s > 0 {
      ShrAdd(v / 2, s - 1, i);
    }
  }

  // Two numbers below 2^n with the same bits from s up are equal after a shift by s.
  lemma {:induction false} HighBitsDetermine(x: nat, y: nat, s: nat, n: nat)
    requires s <= n && x < Pow2(n) && y < Pow2(n)
    requires forall i: nat | s <= i < n :: BitOf(x, i) == BitOf(y, i)
    ensures Shr(x, s) == Shr(y, s)
  {
    if n > 0 {
      var s' := if s == 0 then 0 else s - 1;
      forall i: nat | s' <= i < n - 1 ensures BitOf(x / 2, i) == BitOf(y / 2, i) {
        assert BitOf(x, i + 1) == BitOf(y, i + 1);
      }
      HighBitsDetermine(x / 2, y / 2, s', n - 1);
      if s == 0 {
        assert BitOf(x, 0) == BitOf(y, 0);
      }
    }
  }

  lemma {:induction false} ZeroBits(i: nat)
    ensures !BitOf(0, i)
  {
    if i > 0 {
      ZeroBits(i - 1);
    }
  }

  // ----- One word -----

  type Word = w: nat | w < 0x1_0000_0000

  function SetOne(w: nat, b: nat): nat {
    if BitOf(w, b) then w else w + Pow2(b)
  }

  function ClearOne(w: nat, b: nat): (r: nat)
    ensures r <= w
  {
    BitIsPresent(w, b);
    if BitOf(w, b) then w - Pow2(b) else w
  }

  lemma {:induction false} BitIsPresent(w: nat, b: nat)
    ensures BitOf(w, b) ==> w >= Pow2(b)
  {
    if b > 0 {
      BitIsPresent(w / 2, b - 1);
    }
  }

  lemma {:induction false} SetOneBits(w: nat, b: nat, c: nat)
    ensures BitOf(SetOne(w, b), c) == (b == c || BitOf(w, c))
  {
    if b > 0 {
      assert !BitOf(w, b) ==> (w + Pow2(b)) / 2 == w / 2 + Pow2(b - 1) && (w + Pow2(b)) % 2 == w % 2;
      if c > 0 {
        SetOneBits(w / 2, b - 1, c - 1);
      }
    } else if !BitOf(w, 0) {
      assert (w + 1) / 2 == w / 2;
    }
  }

  lemma {:induction false} ClearOneBits(w: nat, b: nat, c: nat)
    ensures BitOf(ClearOne(w, b), c) == (b != c && BitOf(w, c))
  {
    BitIsPresent(w, b);
    if b > 0 {
      assert BitOf(w, b) ==> (w - Pow2(b)) / 2 == w / 2 - Pow2(b - 1) && (w - Pow2(b)) % 2 == w % 2;
      if c > 0 {
        ClearOneBits(w / 2, b - 1, c - 1);
      }
    } else if BitOf(w, 0) {
      assert (w - 1) / 2 == w / 2;
    }
  }

  lemma {:induction false} SetOneBound(w: nat, b: nat, n: nat)
    requires b < n && w < Pow2(n)
    ensures SetOne(w, b) < Pow2(n)
  {
    assert Pow2(n) == 2 * Pow2(n - 1);
    if b > 0 {
      SetOneBound(w / 2, b - 1, n - 1);
      assert BitOf(w, b) == BitOf(w / 2, b - 1) && Pow2(b) == 2 * Pow2(b - 1);
      hide Pow2, BitOf;
      assert SetOne(w, b) == w % 2 + 2 * SetOne(w / 2, b - 1);
    } else {
      assert Pow2(0) == 1 && BitOf(w, 0) == (w % 2 == 1);
      hide Pow2, BitOf;
    }
  }

  lemma Pow2Values()
    ensures Pow2(8) == 0x100 && Pow2(16) == 0x1_0000 && Pow2(32) == 0x1_0000_0000
  {
    assert Pow2(4) == 16;
    assert Pow2(12) == 0x1000;
    assert Pow2(20) == 0x10_0000;
    assert Pow2(24) == 0x100_0000;
    assert Pow2(28) == 0x1000_0000;
  }

  // The widths of the hardware fields.
  lemma Pow2Widths()
    ensures Pow2(7) == 0x80 && Pow2(10) == 0x400 && Pow2(12) == 0x1000
    ensures Pow2(13) == 0x2000 && Pow2(14) == 0x4000
    ensures Pow2(44) == 0x1000_0000_0000 && Pow2(48) == 0x1_0000_0000_0000
    ensures Pow2(64) == 0x1_0000_0000_0000_0000
  {
    Pow2Values();
    assert Pow2(36) == 0x10_0000_0000;
    assert Pow2(40) == 0x100_0000_0000;
    assert Pow2(52) == 0x10_0000_0000_0000;
    assert Pow2(56) == 0x100_0000_0000_0000;
    assert Pow2(60) == 0x1000_0000_0000_0000;
  }

  function PutInWord(w: Word, b: nat, value: bool): Word
    requires b < 32
  {
    Pow2Values();
    SetOneBound(w, b, 32);
    if value then SetOne(w, b) else ClearOne(w, b)
  }

  // ----- Bitwise operations on numbers -----

  // a | b
  function Or(a: nat, b: nat): nat
    decreases a + b
  {
    if a == 0 && b == 0 then 0
    else (if a % 2 == 1 || b % 2 == 1 then 1 else 0) + 2 * Or(a / 2, b / 2)
  }

  // (cur & ~mask) | (value & mask)
  function Merge(cur: nat, mask: nat, value: nat): nat
    decreases cur + mask
  {
    if cur == 0 && mask == 0 then 0
    else (if mask % 2 == 1 then value % 2 else cur % 2) + 2 * Merge(cur / 2, mask / 2, value / 2)
  }

  lemma {:induction false} OrBits(a: nat, b: nat, i: nat)
    ensures BitOf(Or(a, b), i) == (BitOf(a, i) || BitOf(b, i))
    decreases i
  {
    if a == 0 && b == 0 {
      ZeroBits(i);
    } else if i > 0 {
      OrBits(a / 2, b / 2, i - 1);
    }
  }

  lemma {:induction false} MergeBits(cur: nat, mask: nat, value: nat, i: nat)
    ensures BitOf(Merge(cur, mask, value), i) == if BitOf(mask, i) then BitOf(value, i) else BitOf(cur, i)
    decreases i
  {
    if cur == 0 && mask == 0 {
      ZeroBits(i);
    } else if i > 0 {
      MergeBits(cur / 2, mask / 2, value / 2, i - 1);
    }
  }

  lemma {:induction false} BitwiseBound(a: nat, b: nat, value: nat, n: nat)
    requires a < Pow2(n) && b < Pow2(n)
    ensures Or(a, b) < Pow2(n) && Merge(a, b, value) < Pow2(n)
    decreases n
  {
    if n > 0 {
      BitwiseBound(a / 2, b / 2, value / 2, n - 1);
    }
  }

  lemma {:induction false} OrZero(x: nat)
    ensures Or(x, 0) == x && Or(0, x) == x
    decreases x
  {
    if x > 0 {
      OrZero(x / 2);
    }
  }

  // What lies below 2^k is not touched by an or above it.
  lemma OrAbove(a: nat, b: nat, low: nat, k: nat)
    requires low < Pow2(k)
    ensures Or(a * Pow2(k), b * Pow2(k) + low) == Or(a, b) * Pow2(k) + low
  {
    ShlIsProduct(a, k);
    ShlIsProduct(b, k);
    ShlIsProduct(Or(a, b), k);
    hide Or, Pow2;
    OrAboveShl(a, b, low, k);
  }

  lemma {:induction false} OrAboveShl(a: nat, b: nat, low: nat, k: nat)
    requires low < Pow2(k)
    ensures Or(Shl(a, k), Shl(b, k) + low) == Shl(Or(a, b), k) + low
    decreases k
  {
    hide Or;
    if k > 0 {
      OrAboveShl(a, b, low / 2, k - 1);
      OrEven(Shl(a, k - 1), Shl(b, k - 1) + low / 2, low % 2);
    }
  }

  lemma OrEven(a: nat, b: nat, bit: nat)
    requires bit < 2
    ensures Or(2 * a, 2 * b + bit) == 2 * Or(a, b) + bit
  {
    assert (2 * b + bit) / 2 == b && (2 * b + bit) % 2 == bit;
  }

  function MergeWord(cur: Word, mask: Word, value: Word): Word {
    Pow2Values();
    BitwiseBound(cur, mask, value, 32);
    Merge(cur, mask, value)
  }

  // v << s: s doublings.
  function Shl(v: nat, s: nat): nat {
    if s == 0 then v else 2 * Shl(v, s - 1)
  }

  lemma {:induction false} ShlIsProduct(v: nat, s: nat)
    ensures Shl(v, s) == v * Pow2(s)
  {
    if s > 0 {
      ShlIsProduct(v, s - 1);
    }
  }

  lemma ShlBits(v: nat, s: nat, i: nat)
    ensures BitOf(v * Pow2(s), i) == (i >= s && BitOf(v, i - s))
  {
    JoinBits(0, v, s, i);
    ZeroBits(i);
  }

  // low sits below y.
  lemma JoinBits(low: nat, y: nat, k: nat, i: nat)
    requires low < Pow2(k)
    ensures BitOf(low + y * Pow2(k), i) == if i < k then BitOf(low, i) else BitOf(y, i - k)
  {
    ShlIsProduct(y, k);
    hide Pow2;
    JoinShl(low, y, k, i);
  }

  lemma {:induction false} JoinShl(low: nat, y: nat, k: nat, i: nat)
    requires low < Pow2(k)
    ensures BitOf(low + Shl(y, k), i) == if i < k then BitOf(low, i) else BitOf(y, i - k)
    decreases k
  {
    if k > 0 {
      var sum := low + Shl(y, k);
      assert sum % 2 == low % 2;
      assert sum / 2 == low / 2 + Shl(y, k - 1);
      if i > 0 {
        JoinShl(low / 2, y, k - 1, i - 1);
      }
    }
  }

  lemma {:induction false} LowBits(x: nat, low: nat, k: nat, i: nat)
    requires low == x % Pow2(k)
    ensures BitOf(low, i) == (i < k && BitOf(x, i))
    decreases k
  {
    if k == 0 {
      ZeroBits(i);
    } else {
      HalveModDiv(x, k - 1);
      var rest := (x / 2) % Pow2(k - 1);
      assert low == x % 2 + 2 * rest;
      if i > 0 {
        LowBits(x / 2, rest, k - 1, i - 1);
      }
    }
  }

  lemma HighBitsZero(x: nat, k: nat, i: nat)
    requires x < Pow2(k) && i >= k
    ensures !BitOf(x, i)
  {
    JoinBits(x, 0, k, i);
    ZeroBits(i - k);
  }

  // Numbers with the same bits are equal.
  lemma {:induction false} BitsDetermine(x: nat, y: nat)
    requires forall i: nat :: BitOf(x, i) == BitOf(y, i)
    ensures x == y
    decreases x + y
  {
    if x + y > 0 {
      forall i: nat ensures BitOf(x / 2, i) == BitOf(y / 2, i) {
        assert BitOf(x, i + 1) == BitOf(y, i + 1);
      }
      assert BitOf(x, 0) == BitOf(y, 0);
      BitsDetermine(x / 2, y / 2);
    }
  }
}
