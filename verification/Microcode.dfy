/** The WARPcore's 8051 as its registers show it: a RAM that is cleared on command and then
    filled through a data register whose address advances by itself. */
module Microcode {
  import opened BitFields

  const RAM_BYTES: nat := 0x1_0000

  const UC_RAMWORD: nat := 0xffc0
  const UC_ADDRESS: nat := 0xffc1
  const UC_COMMAND: nat := 0xffc2
  const UC_WRDATA: nat := 0xffc3
  const UC_DL_STATUS: nat := 0xffc5
  const UC_COMMAND2: nat := 0xffca
  const FW_VERSION: nat := 0x81f0
  const FW_CRC: nat := 0x81fe

  // left counts the bytes that a running download still takes.
  datatype Uc = Uc(running: bool, size: nat, left: nat, ptr: nat, ram: seq<nat>)

  // COMMAND: bit 15 clears the RAM, unless bit 4 lets the code in it run; WRITE (bit 3) with RUN
  // (bit 0) starts a download, anything else stops it.
  function Command(uc: Uc, v: nat): Uc {
    if (v / 0x8000) % 2 == 1 then
      uc.(running := false, ram := if (v / 0x10) % 2 == 1 then uc.ram else Zeros(RAM_BYTES))
    else if v % 2 == 1 && (v / 8) % 2 == 1 then uc.(running := true, left := uc.size)
    else uc.(running := false)
  }

  // WRDATA: two bytes, low byte first.
  function Take(uc: Uc, v: nat): Uc {
    if !uc.running || uc.left < 2 || |uc.ram| != RAM_BYTES then uc
    else
      var ram := uc.ram[uc.ptr % RAM_BYTES := v % 0x100];
      uc.(ram := ram[(uc.ptr + 1) % RAM_BYTES := (v / 0x100) % 0x100],
          ptr := (uc.ptr + 2) % RAM_BYTES, left := uc.left - 2)
  }

  function UcWrite(uc: Uc, addr: nat, v: nat): Uc {
    if addr == UC_COMMAND then Command(uc, v)
    else if addr == UC_RAMWORD then uc.(size := v + 1)
    else if addr == UC_ADDRESS then uc.(ptr := v)
    else if addr == UC_WRDATA then Take(uc, v)
    else uc
  }

  // Writing any other register leaves the microcontroller alone.
  predicate Controls(addr: nat) {
    addr == UC_COMMAND || addr == UC_RAMWORD || addr == UC_ADDRESS || addr == UC_WRDATA
  }

  // A download of n bytes has been announced and started on a cleared RAM.
  predicate Ready(uc: Uc, n: nat) {
    uc.running && uc.size == n && uc.left == n && uc.ptr == 0 && uc.ram == Zeros(RAM_BYTES)
  }

  // ----- The image -----

  type Byte = b: nat | b < 0x100

  // (len + 15) & ~15
  function Aligned(n: nat): nat {
    (n + 15) / 16 * 16
  }

  // The word that carries bytes i and i + 1; bytes past the image are 0.
  function WordAt(image: seq<Byte>, i: nat): (w: nat)
    ensures w < 0x1_0000
  {
    var low: nat := if i < |image| then image[i] else 0;
    var high: nat := if i + 1 < |image| then image[i + 1] else 0;
    low + high * 0x100
  }

  // The image, zeros up to a multiple of 16, and zeros for the rest of the RAM.
  ghost predicate Holds(ram: seq<nat>, image: seq<Byte>, n: nat) {
    && |ram| == RAM_BYTES && n <= RAM_BYTES
    && forall i: nat | i < RAM_BYTES :: ram[i] == if i < n && i < |image| then image[i] else 0
  }

  // The download has taken the first i bytes.
  ghost predicate Streaming(uc: Uc, image: seq<Byte>, i: nat) {
    && uc.running && uc.left == Aligned(|image|) - i && uc.size == Aligned(|image|)
    && Holds(uc.ram, image, i) && uc.ptr == i % RAM_BYTES
  }

  lemma BlankHolds(image: seq<Byte>)
    ensures Holds(Zeros(RAM_BYTES), image, 0)
  {
  }

  lemma AlignedFits(n: nat)
    ensures Aligned(n) % 2 == 0 && n <= Aligned(n) && (n <= RAM_BYTES ==> Aligned(n) <= RAM_BYTES)
    ensures 0 < n <= RAM_BYTES ==> (Aligned(n) - 1) % 0x1_0000 + 1 == Aligned(n)
  {
  }

  lemma WordBytes(image: seq<Byte>, i: nat)
    ensures WordAt(image, i) % 0x100 == if i < |image| then image[i] else 0
    ensures (WordAt(image, i) / 0x100) % 0x100 == if i + 1 < |image| then image[i + 1] else 0
  {
  }

  // One word moves the download on by two bytes.
  lemma TakeStreams(uc: Uc, image: seq<Byte>, i: nat)
    requires Streaming(uc, image, i) && i % 2 == 0 && i + 2 <= Aligned(|image|) <= RAM_BYTES
    ensures Streaming(Take(uc, WordAt(image, i)), image, i + 2)
  {
    hide WordAt, Aligned;
    WordBytes(image, i);
    assert i % RAM_BYTES == i && (i + 1) % RAM_BYTES == i + 1;
  }

  // ----- Downloads that lose words -----

  function TakeAll(uc: Uc, ws: seq<nat>): Uc
    decreases |ws|
  {
    if ws == [] then uc else TakeAll(Take(uc, ws[0]), ws[1..])
  }

  // Each word taken leaves two bytes less to come; the microcontroller cannot tell which it got.
  lemma {:induction false} TakeAllCounts(uc: Uc, ws: seq<nat>)
    requires uc.running && |uc.ram| == RAM_BYTES && 2 * |ws| <= uc.left
    ensures var r := TakeAll(uc, ws);
      r.left == uc.left - 2 * |ws| && r.size == uc.size && r.running && |r.ram| == RAM_BYTES
    decreases |ws|
  {
    if ws != [] {
      TakeAllCounts(Take(uc, ws[0]), ws[1..]);
    }
  }
}
