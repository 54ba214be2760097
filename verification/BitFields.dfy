/** Arrays of hardware words as bit strings, and bit-by-bit insertion of fields into them. */
module BitFields {
  import opened Bits

  function Zeros(n: nat): (ws: seq<Word>)
    ensures |ws| == n && forall i | 0 <= i < n :: ws[i] == 0
  {
    seq(n, _ => 0)
  }

  predicate Bit(ws: seq<Word>, k: nat)
    requires k < 32 * |ws|
  {
    BitOf(ws[k / 32], k % 32)
  }

  // The number held by bits [start, start + width).
  function Field(ws: seq<Word>, start: nat, width: nat): nat
    requires start + width <= 32 * |ws|
    decreases width, ws
  {
    if width == 0 then 0
    else (if Bit(ws, start) then 1 else 0) + 2 * Field(ws, start + 1, width - 1)
  }

  // A bit past the end of the array is ignored.
  function PutBit(ws: seq<Word>, k: nat, value: bool): (r: seq<Word>)
    ensures |r| == |ws|
  {
    if k / 32 >= |ws| then ws else ws[k / 32 := PutInWord(ws[k / 32], k % 32, value)]
  }

  function SetField(ws: seq<Word>, start: nat, width: nat, v: nat): (r: seq<Word>)
    ensures |r| == |ws|
    decreases width, ws, v
  {
    if width == 0 then ws
    else PutBit(SetField(ws, start, width - 1, v), start + width - 1, BitOf(v, width - 1))
  }

  lemma PutBitBits(ws: seq<Word>, k: nat, value: bool, j: nat)
    requires k < 32 * |ws| && j < 32 * |ws|
    ensures Bit(PutBit(ws, k, value), j) == if j == k then value else Bit(ws, j)
  {
    SetOneBits(ws[k / 32], k % 32, j % 32);
    ClearOneBits(ws[k / 32], k % 32, j % 32);
  }

  // Insertion sets exactly the bits of its field and frames all the others.
  lemma {:induction false} SetFieldBits(ws: seq<Word>, start: nat, width: nat, v: nat, k: nat)
    requires start + width <= 32 * |ws| && k < 32 * |ws|
    ensures Bit(SetField(ws, start, width, v), k)
         == if start <= k < start + width then BitOf(v, k - start) else Bit(ws, k)
  {
    hide Bit, PutBit, BitOf;
    if width > 0 {
      SetFieldBits(ws, start, width - 1, v, k);
      var r := SetField(ws, start, width - 1, v);
      PutBitBits(r, start + width - 1, BitOf(v, width - 1), k);
    }
  }

  lemma {:induction false} FieldOfBits(ws: seq<Word>, start: nat, width: nat, v: nat)
    requires start + width <= 32 * |ws|
    requires forall i: nat | i < width :: Bit(ws, start + i) == BitOf(v, i)
    ensures Field(ws, start, width) == v % Pow2(width)
    decreases width
  {
    hide Bit;
    if width > 0 {
      forall i: nat | i < width - 1 ensures Bit(ws, start + 1 + i) == BitOf(v / 2, i) {
        assert Bit(ws, start + (i + 1)) == BitOf(v, i + 1);
      }
      FieldOfBits(ws, start + 1, width - 1, v / 2);
      HalveModDiv(v, width - 1);
      assert Bit(ws, start + 0) == BitOf(v, 0);
    }
  }

  // Each bit of a field is the matching bit of the number it holds.
  lemma {:induction false} BitOfField(ws: seq<Word>, start: nat, width: nat, i: nat)
    requires start + width <= 32 * |ws| && i < width
    ensures BitOf(Field(ws, start, width), i) == Bit(ws, start + i)
    decreases width
  {
    var rest := Field(ws, start + 1, width - 1);
    assert Field(ws, start, width) / 2 == rest;
    if i > 0 {
      BitOfField(ws, start + 1, width - 1, i - 1);
    }
  }

  lemma {:induction false} FieldFrame(ws: seq<Word>, ws': seq<Word>, start: nat, width: nat)
    requires |ws| == |ws'| && start + width <= 32 * |ws|
    requires forall k: nat | start <= k < start + width :: Bit(ws, k) == Bit(ws', k)
    ensures Field(ws, start, width) == Field(ws', start, width)
    decreases width
  {
    if width > 0 {
      FieldFrame(ws, ws', start + 1, width - 1);
    }
  }

  lemma FieldRoundTrip(ws: seq<Word>, start: nat, width: nat, v: nat)
    requires start + width <= 32 * |ws|
    ensures Field(SetField(ws, start, width, v), start, width) == v % Pow2(width)
  {
    hide Bit, SetField, Field, BitOf;
    var r := SetField(ws, start, width, v);
    forall i: nat | i < width ensures Bit(r, start + i) == BitOf(v, i) {
      SetFieldBits(ws, start, width, v, start + i);
    }
    FieldOfBits(r, start, width, v);
  }

  // A value that fits its field is read back as it is.
  lemma FieldHolds(ws: seq<Word>, start: nat, width: nat, v: nat)
    requires start + width <= 32 * |ws| && v < Pow2(width)
    ensures Field(SetField(ws, start, width, v), start, width) == v
  {
    FieldRoundTrip(ws, start, width, v);
    DivModUnique(v, Pow2(width), 0, v);
  }

  lemma OtherFieldKept(ws: seq<Word>, start: nat, width: nat, v: nat, start': nat, width': nat)
    requires start + width <= 32 * |ws| && start' + width' <= 32 * |ws|
    requires start' + width' <= start || start + width <= start'
    ensures Field(SetField(ws, start, width, v), start', width') == Field(ws, start', width')
  {
    hide Bit, SetField, Field, BitOf;
    forall k: nat | start' <= k < start' + width'
      ensures Bit(SetField(ws, start, width, v), k) == Bit(ws, k)
    {
      SetFieldBits(ws, start, width, v, k);
    }
    FieldFrame(SetField(ws, start, width, v), ws, start', width');
  }

  lemma TwoFieldsHold(ws: seq<Word>, s1: nat, w1: nat, v1: nat, s2: nat, w2: nat, v2: nat)
    requires s1 + w1 <= 32 * |ws| && s2 + w2 <= 32 * |ws|
    requires s1 + w1 <= s2 || s2 + w2 <= s1
    requires v1 < Pow2(w1) && v2 < Pow2(w2)
    ensures var r := SetField(SetField(ws, s1, w1, v1), s2, w2, v2);
      Field(r, s1, w1) == v1 && Field(r, s2, w2) == v2
  {
    var w := SetField(ws, s1, w1, v1);
    FieldHolds(ws, s1, w1, v1);
    OtherFieldKept(w, s2, w2, v2, s1, w1);
    FieldHolds(w, s2, w2, v2);
  }

  // Replacing word i leaves every field outside bits [32i, 32i + 32) as it was.
  lemma WordFrame(ws: seq<Word>, i: nat, w: Word, start: nat, width: nat)
    requires i < |ws| && start + width <= 32 * |ws|
    requires start + width <= 32 * i || 32 * i + 32 <= start
    ensures Field(ws[i := w], start, width) == Field(ws, start, width)
  {
    FieldFrame(ws[i := w], ws, start, width);
  }

  lemma {:induction false} ZeroField(n: nat, start: nat, width: nat)
    requires start + width <= 32 * n
    ensures Field(Zeros(n), start, width) == 0
    decreases width
  {
    if width > 0 {
      ZeroBits(start % 32);
      ZeroField(n, start + 1, width - 1);
    }
  }

  // ----- The C helpers -----

  method SetBit(words: array<Word>, bit: nat, value: bool)
    modifies words
    ensures words[..] == PutBit(old(words[..]), bit, value)
  {
    var wi := bit / 32;
    var bi := bit % 32;
    if wi >= words.Length {
      return;
    }
    words[wi] := PutInWord(words[wi], bi, value);
  }

  method SetBitsU64(words: array<Word>, startBit: nat, width: nat, value: nat)
    requires width <= 64 && value < 0x1_0000_0000_0000_0000
    modifies words
    ensures words[..] == SetField(old(words[..]), startBit, width, value)
  {
    var rest := value;
    for i := 0 to width
      invariant words[..] == SetField(old(words[..]), startBit, i, value)
      invariant rest == Shr(value, i)
    {
      SetBit(words, startBit + i, rest % 2 == 1);
      ShrAdd(value, i, 1);
      rest := rest / 2;
    }
  }
}
