/** The SerDes driver: MIIM operations over the controller's registers, polled for DONE, window access
    to WARPcore registers, firmware download, once-per-PHY initialisation, and link status.

    The operation takes effect at a poll of its own choosing, or after the last one, or never. Each
    method is proved to leave the PHYs as the function of the same name in Warpcore does; the
    download and the link status add what the driver makes of results that it ignores. */
module Serdes {
  import opened Bits
  import opened Wrappers
  import opened BitFields
  import opened Warpcore
  import opened Microcode
  import Schan

  const EIO: int := 5
  const EINVAL: int := 22

  const CTRL_DONE: nat := 18
  const RESET_READ: Word := 16
  const RESET_WRITE: Word := 17
  const CLEAR_DONE: Word := 18
  const START_READ: Word := 0x90
  const START_WRITE: Word := 0x91

  const ETIMEDOUT: int := 110

  const XGXS_CONTROL: nat := 0x8000
  const LANE_PRBS: nat := 0x8015
  const MISC1: nat := 0x8308
  const SERDES_ID0: nat := 0x8310
  // The firmware version that needs no download.
  const CURRENT_VERSION: nat := 0x0101

  ghost predicate OthersKept(b: Bus, b': Bus, id: Id) {
    forall o | o != id :: PhyAt(b', o) == PhyAt(b, o)
  }

  // ----- Ports -----

  datatype Location = Location(phy: nat, bus: nat, lane: nat)

  const PHYS_BUS0: seq<nat> := [1, 5, 9, 13, 17, 21, 31]
  const PHYS_BUS2: seq<nat> := [1, 9, 13, 17, 21, 31]

  function PortToPhyBus(port: int): (r: Option<Location>)
    ensures r.Some? <==> 1 <= port <= 52
    ensures r.Some? ==> r.value.phy < 32 && r.value.bus < 3 && r.value.lane < 4
  {
    if port == 49 then Some(Location(13, 1, 0))
    else if port == 50 then Some(Location(17, 1, 0))
    else if port == 51 then Some(Location(31, 1, 0))
    else if port == 52 then Some(Location(31, 1, 1))
    else if 1 <= port <= 48 then
      var block := (port - 1) / 4;
      var lane := (port - 1) % 4;
      if block < 7 then Some(Location(PHYS_BUS0[block], 0, lane)) else Some(Location(PHYS_BUS2[block - 7], 2, lane))
    else None
  }

  // Every port has a lane of its own.
  lemma PortsHaveOwnLanes(p: int, q: int)
    requires PortToPhyBus(p).Some? && PortToPhyBus(p) == PortToPhyBus(q)
    ensures p == q
  {
  }

  // ----- Which PHYs have been initialised -----

  // mask is phy_inited; order lists the initialisations in the order in which they ran.
  datatype Inits = Inits(mask: seq<Word>, order: seq<Id>)

  function IdOf(l: Location): Id {
    Id(l.bus, l.phy)
  }

  function InitPort(s: Inits, port: int): Inits
    requires |s.mask| == 3
  {
    match PortToPhyBus(port)
    case None => s
    case Some(l) =>
      if BitOf(s.mask[l.bus], l.phy) then s
      else Inits(s.mask[l.bus := PutInWord(s.mask[l.bus], l.phy, true)], s.order + [IdOf(l)])
  }

  function InitsAfter(ports: seq<int>): (s: Inits)
    ensures |s.mask| == 3
  {
    if ports == [] then Inits(Zeros(3), []) else InitPort(InitsAfter(ports[..|ports| - 1]), ports[|ports| - 1])
  }

  ghost predicate MaskAgrees(s: Inits) {
    && |s.mask| == 3
    && forall bus: nat, phy: nat | bus < 3 && phy < 32 :: BitOf(s.mask[bus], phy) <==> Id(bus, phy) in s.order
  }

  ghost predicate NoRepeats(ids: seq<Id>) {
    forall i, j | 0 <= i < j < |ids| :: ids[i] != ids[j]
  }

  lemma InitKeepsMask(s: Inits, port: int)
    requires MaskAgrees(s) && NoRepeats(s.order)
    ensures MaskAgrees(InitPort(s, port)) && NoRepeats(InitPort(s, port).order)
  {
    hide BitOf, PutInWord;
    var s' := InitPort(s, port);
    match PortToPhyBus(port)
    case None =>
    case Some(l) =>
      if !BitOf(s.mask[l.bus], l.phy) {
        forall bus: nat, phy: nat | bus < 3 && phy < 32
          ensures BitOf(s'.mask[bus], phy) <==> Id(bus, phy) in s'.order
        {
          PutBitKnown(s.mask[l.bus], l.phy, phy);
          assert Id(bus, phy) in s'.order <==> Id(bus, phy) in s.order || Id(bus, phy) == IdOf(l);
        }
      }
  }

  lemma PutBitKnown(w: Word, b: nat, c: nat)
    requires b < 32
    ensures BitOf(PutInWord(w, b, true), c) == (b == c || BitOf(w, c))
  {
    SetOneBits(w, b, c);
  }

  // Over any run of port inits, every PHY that some port needs is initialised exactly once.
  lemma {:induction false} EachPhyOnce(ports: seq<int>)
    ensures var s := InitsAfter(ports);
      && MaskAgrees(s) && NoRepeats(s.order)
      && forall id :: id in s.order <==>
           exists p :: p in ports && PortToPhyBus(p).Some? && IdOf(PortToPhyBus(p).value) == id
  {
    hide PortToPhyBus, BitOf;
    if ports == [] {
      forall phy: nat ensures !BitOf(0, phy) { ZeroBits(phy); }
    } else {
      var before, port := ports[..|ports| - 1], ports[|ports| - 1];
      EachPhyOnce(before);
      InitKeepsMask(InitsAfter(before), port);
      assert forall p :: p in ports <==> p in before || p == port;
      var s, s' := InitsAfter(before), InitsAfter(ports);
      if PortToPhyBus(port).Some? {
        var l := PortToPhyBus(port).value;
        assert BitOf(s.mask[l.bus], l.phy) <==> IdOf(l) in s.order;
        assert forall id :: id in s'.order <==> id in s.order || id == IdOf(l);
      }
    }
  }

  // ----- Downloads over a bus that loses data writes -----

  // While bytes idx.. of n are streamed, every operation but the data writes is in time.
  ghost predicate SelectsPrompt(ts: Timings, start: nat, idx: nat, n: nat) {
    forall k: nat | start + 2 * idx <= k < start + 2 * n && (k - start) % 4 != 3 :: InTime(ts(k))
  }

  // The data write of the word at byte idx happens.
  predicate WordLands(ts: Timings, start: nat, idx: nat) {
    Happens(ts(start + 2 * idx + 3))
  }

  // The words of the image from byte idx on whose data write happens.
  ghost function LandedWords(image: seq<Byte>, ts: Timings, start: nat, idx: nat): seq<nat>
    decreases Aligned(|image|) - idx
  {
    if idx >= Aligned(|image|) then []
    else
      (if WordLands(ts, start, idx) then [WordAt(image, idx)] else [])
      + LandedWords(image, ts, start, idx + 2)
  }

  // A download of n bytes whose first operation is number turn, on a chip that is done clearing
  // its RAM at once and signals no error, loses nothing but data writes.
  ghost predicate OnlyDataLost(ts: Timings, turn: nat, n: nat) {
    && Prompt(ts, turn, 40) && ts(turn + 19).status == 0x8000
    && SelectsPrompt(ts, turn + 40, 0, n)
    && Prompt(ts, turn + 40 + 2 * n, 8) && ts(turn + 40 + 2 * n + 7).status % 4 == 0
  }

  function ReadyUc(n: nat): Uc {
    Uc(true, n, n, 0, Zeros(RAM_BYTES))
  }

  // A download of the image can start.
  ghost predicate SoundStart(b: Bus, id: Id, image: seq<Byte>) {
    |image| <= RAM_BYTES && Ready(PhyAt(b, id).uc, Aligned(|image|))
  }

  lemma StreamStarts(uc: Uc, image: seq<Byte>)
    requires Ready(uc, Aligned(|image|))
    ensures Streaming(uc, image, 0)
  {
    BlankHolds(image);
    hide Zeros, Holds, Aligned;
  }

  lemma ReadyIsReadyUc(uc: Uc, n: nat)
    ensures Ready(uc, n) <==> uc == ReadyUc(n)
  {
  }

  // START_SEQUENCER, as lane 0 has it.
  predicate PllRuns(p: Phy) {
    BitOf(Reg0(p, XGXS_CONTROL), 13)
  }

  // A register of lane 0, 16 bits wide.
  function Reg0(p: Phy, addr: nat): nat {
    Reg(p.regs, 0, addr) % 0x1_0000
  }

  // The registers that a firmware download works with.
  predicate Firmware(addr: nat) {
    0xffc0 <= addr <= 0xffcf || addr == FW_CRC
  }

  // All the others.
  function Config(regs: Regs): Regs {
    map k | k in regs && !Firmware(k.1) :: regs[k]
  }

  lemma ConfigFrame(was: Regs, now: Regs, addr: nat, v: nat)
    requires now == was || now == was[(0, addr) := v]
    ensures Firmware(addr) ==> Config(now) == Config(was)
  {
  }

  lemma ConfigReg(p: Phy, q: Phy, addr: nat)
    requires Config(p.regs) == Config(q.regs) && !Firmware(addr)
    ensures Reg0(p, addr) == Reg0(q, addr)
  {
    assert (0, addr) in p.regs <==> (0, addr) in Config(p.regs);
    assert (0, addr) in q.regs <==> (0, addr) in Config(q.regs);
  }

  // A 16-bit register with one of its bits set or cleared.
  predicate BitChanged(was: nat, now: nat, bit: nat, value: bool) {
    now < 0x1_0000 && forall i: nat | i < 16 :: BitOf(now, i) == if i == bit then value else BitOf(was, i)
  }

  // Clearing a bit and then setting it.
  lemma ClearedThenSet(was: nat, mid: nat, now: nat, bit: nat)
    requires BitChanged(was, mid, bit, false) && BitChanged(mid, now, bit, true)
    ensures BitChanged(was, now, bit, true)
  {
    hide BitOf;
  }

  lemma SetBit16(v: nat, bit: nat)
    requires v < 0x1_0000 && bit < 16
    ensures SetOne(v, bit) < 0x1_0000 && BitChanged(v, SetOne(v, bit), bit, true)
  {
    hide SetOne, BitOf;
    Pow2Values();
    SetOneBound(v, bit, 16);
    forall i: nat | i < 16 ensures BitOf(SetOne(v, bit), i) == (i == bit || BitOf(v, i)) {
      SetOneBits(v, bit, i);
    }
  }

  lemma ClearBit16(v: nat, bit: nat)
    requires v < 0x1_0000 && bit < 16
    ensures ClearOne(v, bit) < 0x1_0000 && BitChanged(v, ClearOne(v, bit), bit, false)
    ensures !BitOf(v, bit) ==> ClearOne(v, bit) == v
  {
    hide BitOf;
    forall i: nat | i < 16 ensures BitOf(ClearOne(v, bit), i) == (i != bit && BitOf(v, i)) {
      ClearOneBits(v, bit, i);
    }
  }

  // Bits 12:8 select the divider for 10G, and the others are as they were.
  predicate Divided(was: nat, now: nat) {
    (now / 0x100) % 0x20 == 0x12 && now % 0x100 == was % 0x100 && now / 0x2000 == was / 0x2000
  }

  // All registers but one are as they were.
  ghost predicate OthersSame(was: Phy, now: Phy, addr: nat) {
    forall a: nat | a != addr :: Reg0(now, a) == Reg0(was, a)
  }

  // What an initialisation on a bus that loses nothing makes of the lane-0 registers: the PLL runs,
  // bits 12:8 of MISC1 select the divider for 10G, PRBS is off, the microcontroller is let run with
  // its timers on, and the window is parked.
  ghost predicate Configured(was: Phy, now: Phy) {
    && BitChanged(Reg0(was, XGXS_CONTROL), Reg0(now, XGXS_CONTROL), 13, true)
    && Divided(Reg0(was, MISC1), Reg0(now, MISC1))
    && Reg0(now, LANE_PRBS) == 0
    && (forall a: nat | !Firmware(a) && a != XGXS_CONTROL && a != MISC1 && a != LANE_PRBS ::
          Reg0(now, a) == Reg0(was, a))
    && TimersOn(now) && Reg0(now, UC_COMMAND) == 0x8010 && now.blk == 0
  }

  // The same, with the PLL still off.
  ghost predicate Stopped(was: Phy, now: Phy) {
    && BitChanged(Reg0(was, XGXS_CONTROL), Reg0(now, XGXS_CONTROL), 13, false)
    && Divided(Reg0(was, MISC1), Reg0(now, MISC1))
    && Reg0(now, LANE_PRBS) == 0
    && (forall a: nat | a != XGXS_CONTROL && a != MISC1 && a != LANE_PRBS :: Reg0(now, a) == Reg0(was, a))
  }

  lemma DividerBits(v: nat, w: nat)
    requires v < 0x1_0000 && w == v - (v / 0x100) % 0x20 * 0x100 + 0x1200
    ensures w < 0x1_0000 && Divided(v, w)
  {
    DividerParts(v / 0x2000, (v / 0x100) % 0x20, v % 0x100, v);
    DividerParts(v / 0x2000, 0x12, v % 0x100, w);
  }

  lemma DividerParts(high: nat, mid: nat, low: nat, v: nat)
    requires high < 8 && mid < 0x20 && low < 0x100
    ensures v == high * 0x2000 + mid * 0x100 + low ==>
      v < 0x1_0000 && (v / 0x100) % 0x20 == mid && v % 0x100 == low && v / 0x2000 == high
  {
    if v == high * 0x2000 + mid * 0x100 + low {
      DivModUnique(v, 0x100, high * 0x20 + mid, low);
      DivModUnique(high * 0x20 + mid, 0x20, high, mid);
      DivModUnique(v, 0x2000, high, mid * 0x100 + low);
    }
  }

  // The microcontroller's timers are on.
  predicate TimersOn(p: Phy) {
    BitOf(Reg0(p, UC_COMMAND2), 5)
  }

  // The microcontroller runs the code in its RAM unchecked, with its timers on.
  predicate Running(p: Phy) {
    TimersOn(p) && Reg0(p, FW_CRC) == 1 && Reg0(p, UC_COMMAND) == 0x0010
  }

  // What poll number k of a poll that starts at operation turn shows.
  function Polled(ts: Timings, turn: nat, k: nat): nat {
    ts(turn + 4 * k + 3).status % 0x1_0000
  }

  // None of 500 polls shows a bit at or above the given one.
  predicate NeverShown(ts: Timings, turn: nat, bit: nat) {
    forall k: nat | k < 500 :: Shr(Polled(ts, turn, k), bit) == 0
  }

  lemma StoppedMeansOff(was: Phy, now: Phy)
    requires Stopped(was, now)
    ensures !PllRuns(now)
  {
    hide BitOf, Reg0, Divided;
    assert BitOf(Reg0(now, XGXS_CONTROL), 13) == false;
  }

  lemma PllStarted(p0: Phy, p1: Phy, p2: Phy)
    requires BitChanged(Reg0(p0, XGXS_CONTROL), Reg0(p1, XGXS_CONTROL), 13, true) && OthersSame(p0, p1, XGXS_CONTROL)
    requires forall a: nat | !Firmware(a) :: Reg0(p2, a) == Reg0(p1, a)
    ensures BitChanged(Reg0(p0, XGXS_CONTROL), Reg0(p2, XGXS_CONTROL), 13, true)
    ensures forall a: nat | a != XGXS_CONTROL && !Firmware(a) :: Reg0(p2, a) == Reg0(p0, a)
  {
    hide Reg0, BitChanged;
  }

  // The stages of an initialisation: PLL stopped, firmware downloaded, PLL started, window parked.
  lemma Configures(p0: Phy, p1: Phy, p2: Phy, p3: Phy, p4: Phy)
    requires Stopped(p0, p1) && Config(p2.regs) == Config(p1.regs) && p4.regs == p3.regs && p4.blk == 0
    requires BitChanged(Reg0(p2, XGXS_CONTROL), Reg0(p3, XGXS_CONTROL), 13, true)
    requires forall a: nat | a != XGXS_CONTROL && !Firmware(a) :: Reg0(p3, a) == Reg0(p2, a)
    requires TimersOn(p3) && Reg0(p3, UC_COMMAND) == 0x8010
    ensures Configured(p0, p4)
  {
    assert forall a: nat :: Reg0(p4, a) == Reg0(p3, a);
    hide Reg0, BitChanged, Config, BitOf, Divided;
    forall a: nat | !Firmware(a) ensures Reg0(p2, a) == Reg0(p1, a) {
      ConfigReg(p1, p2, a);
    }
    ClearedThenSet(Reg0(p0, XGXS_CONTROL), Reg0(p1, XGXS_CONTROL), Reg0(p3, XGXS_CONTROL), 13);
  }

  lemma RamKept(u0: Uc, u1: Uc, u2: Uc, u4: Uc, image: seq<Byte>, warm: bool, loaded: int)
    requires u1 == u0 && u4 == u2.(running := u4.running) && (warm ==> u2 == u1)
    requires !warm && loaded == -ETIMEDOUT ==> u2.ram == Zeros(RAM_BYTES)
    requires !warm && loaded != -ETIMEDOUT && 0 < |image| <= RAM_BYTES ==> Holds(u2.ram, image, Aligned(|image|))
    ensures Initialised(u0, u4, image, warm, loaded)
  {
    hide Zeros, Holds, Aligned;
  }

  // A register has been written.
  lemma RegSet(was: Phy, now: Phy, addr: nat, v: nat)
    requires now.regs == was.regs[(0, addr) := v] && v < 0x1_0000
    ensures Reg0(now, addr) == v && OthersSame(was, now, addr)
  {
  }

  // What an initialisation on a bus that loses nothing makes of the microcontroller's RAM: what it
  // was with the current firmware running, the image after a download, and zeros after one that
  // gave up on clearing the RAM.
  ghost predicate Initialised(was: Uc, now: Uc, image: seq<Byte>, warm: bool, loaded: int) {
    && (warm ==> now.ram == was.ram)
    && (!warm && loaded == -ETIMEDOUT ==> now.ram == Zeros(RAM_BYTES))
    && (!warm && loaded != -ETIMEDOUT && 0 < |image| <= RAM_BYTES ==> Holds(now.ram, image, Aligned(|image|)))
  }

  lemma ErrorBits(status: nat)
    ensures status % 0x1_0000 % 4 == status % 4
  {
  }

  lemma {:induction false} ZeroShifts(n: nat)
    ensures Shr(0, n) == 0
  {
    if n > 0 {
      ZeroShifts(n - 1);
    }
  }

  lemma TopBitOf(v: nat)
    requires v < 0x1_0000
    ensures Shr(v, 15) == v / 0x8000 == (v / 0x8000) % 2
  {
    ShrIsQuotient(v, 15);
    Pow2Widths();
    assert Pow2(15) == 2 * Pow2(14);
  }

  lemma TopBit()
    ensures Shr(0x8000, 15) == 1
  {
    assert Shr(0x8000, 15) == Shr(0x80, 7) == 1;
  }

  // Stopping and checksum writes leave RAM and count alone, landed or not.
  lemma PokeKeepsRam(b: Bus, ts: Timings, id: Id, addr: nat, v: nat)
    requires (addr == UC_COMMAND && (v == 0x0002 || v == 0x0010 || v == 0x8010)) || (addr == FW_CRC && v == 1)
    ensures var (was, now) := (PhyAt(b, id).uc, PhyAt(Warpcore.WcWrite(b, ts, id, 0, addr, v).0, id).uc);
      && now == was.(running := now.running) && (now.running ==> was.running)
      && (Reliable(ts) && addr == UC_COMMAND ==> !now.running)
  {
    hide PhyAt, Warpcore.WcWrite, Warpcore.MiimWrite, Warpcore.Select, Lands, Take;
    WriteRefinesFlat(b, ts, id, 0, addr, v);
    if Reliable(ts) {
      ReliableWrite(b, ts, id, 0, addr, v);
    }
  }

  lemma SelectsAt(ts: Timings, start: nat, idx: nat, n: nat)
    requires SelectsPrompt(ts, start, 0, n) && idx % 2 == 0 && idx + 2 <= n
    ensures Prompt(ts, start + 2 * idx, 3)
  {
  }

  lemma TakeNext(uc: Uc, image: seq<Byte>, ts: Timings, start: nat, idx: nat)
    requires idx < Aligned(|image|)
    ensures TakeAll(uc, LandedWords(image, ts, start, idx))
         == TakeAll(if WordLands(ts, start, idx) then Take(uc, WordAt(image, idx)) else uc,
                    LandedWords(image, ts, start, idx + 2))
  {
    hide Take, WordAt, WordLands, Aligned;
    var rest := LandedWords(image, ts, start, idx + 2);
    assert ([WordAt(image, idx)] + rest)[1..] == rest && [] + rest == rest;
  }

  lemma TakeNone(uc: Uc, image: seq<Byte>, ts: Timings, start: nat, idx: nat)
    requires idx >= Aligned(|image|)
    ensures TakeAll(uc, LandedWords(image, ts, start, idx)) == uc
  {
  }

  // Every data write from byte 2j on happens.
  ghost predicate AllLand(ts: Timings, start: nat, j: nat, words: nat) {
    forall i: nat | j <= i < words :: WordLands(ts, start, 2 * i)
  }

  // All words land exactly when every data write happens: the bytes left over tell, but the
  // driver does not look at them.
  lemma {:induction false} AllLandIff(image: seq<Byte>, ts: Timings, start: nat, j: nat, words: nat)
    requires Aligned(|image|) == 2 * words && j <= words
    ensures |LandedWords(image, ts, start, 2 * j)| <= words - j
    ensures |LandedWords(image, ts, start, 2 * j)| == words - j <==> AllLand(ts, start, j, words)
    decreases words - j
  {
    hide WordAt, WordLands, Aligned;
    if j < words {
      AllLandIff(image, ts, start, j + 1, words);
      NextLands(image, ts, start, j, words);
      hide LandedWords, AllLand;
    }
  }

  lemma NextLands(image: seq<Byte>, ts: Timings, start: nat, j: nat, words: nat)
    requires Aligned(|image|) == 2 * words && j < words
    ensures |LandedWords(image, ts, start, 2 * j)|
         == (if WordLands(ts, start, 2 * j) then 1 else 0) + |LandedWords(image, ts, start, 2 * (j + 1))|
    ensures AllLand(ts, start, j, words) <==> WordLands(ts, start, 2 * j) && AllLand(ts, start, j + 1, words)
  {
    hide WordAt, WordLands, Aligned;
    assert 2 * (j + 1) == 2 * j + 2;
  }

  // ----- The driver -----

  class Driver {
    var phys: map<Id, Phy>
    // MIIM operations started so far.
    var turn: nat
    const timings: Timings

    // CMIC_MIIM_CTRL, _ADDRESS, _PARAM and _READ_DATA.
    var ctrl: Word
    var address: Word
    var param: Word
    var readData: nat

    const phyInited: array<Word>
    ghost var order: seq<Id>

    constructor (timings: Timings)
      ensures View() == Bus(map[], 0) && this.timings == timings
      ensures Inited() == Inits(Zeros(3), []) && fresh(phyInited) && phyInited.Length == 3
    {
      this.timings := timings;
      phys, turn, ctrl, address, param, readData, order := map[], 0, 0, 0, 0, 0, [];
      phyInited := new Word[3](_ => 0);
    }

    ghost function View(): Bus
      reads this
    {
      Bus(phys, turn)
    }

    ghost function Inited(): Inits
      reads this, phyInited
    {
      Inits(phyInited[..], order)
    }

    // ----- The MIIM controller -----

    // Writing 0x80 | b sets bit b of MIIM_CTRL, writing b clears it.
    method WriteCtrl(v: Word)
      modifies this`ctrl
      ensures ctrl == Schan.CtrlAfter(old(ctrl), v)
    {
      ctrl := Schan.CtrlAfter(ctrl, v);
    }

    // The addressed PHY takes the write in the parameter register.
    method ControllerWrites()
      modifies this`phys
      ensures phys == old(phys)[ParamTarget(param) :=
        PhyWrite(PhyAt(Bus(old(phys), turn), ParamTarget(param)), address % 32, ParamData(param))]
    {
      var id := ParamTarget(param);
      phys := phys[id := PhyWrite(PhyAt(Bus(phys, turn), id), address % 32, ParamData(param))];
    }

    // Poll for DONE; the operation acts at its own time, or after the last poll, or never.
    method PollWrite(t: Timing) returns (done: bool)
      requires !BitOf(ctrl, CTRL_DONE)
      modifies this`phys, this`ctrl
      ensures done == InTime(t)
      ensures phys == if Happens(t)
        then old(phys)[ParamTarget(param) :=
               PhyWrite(PhyAt(Bus(old(phys), turn), ParamTarget(param)), address % 32, ParamData(param))]
        else old(phys)
    {
      hide PhyWrite, PhyAt, ParamTarget, ParamData, BitOf;
      for i := 0 to POLL_MAX
        invariant phys == old(phys) && !BitOf(ctrl, CTRL_DONE) && i <= t.latency
      {
        if i == t.latency {
          ControllerWrites();
          PutDone(ctrl);
          ctrl := PutInWord(ctrl, CTRL_DONE, true);
        }
        if BitOf(ctrl, CTRL_DONE) {
          WriteCtrl(CLEAR_DONE);
          return true;
        }
      }
      if t.late {
        ControllerWrites();
      }
      WriteCtrl(RESET_WRITE);
      return false;
    }

    // The addressed PHY's register goes into the read data register.
    method ControllerReads()
      modifies this`phys, this`readData
      ensures var (b, id) := (Bus(old(phys), turn), ParamTarget(param));
        && readData == ReadValue(PhyAt(b, id), address % 32, timings(turn).status, LatchedUp(b, timings, id))
        && phys == if ShowsStatus(PhyAt(b, id), address % 32) then old(phys)[id := Released(PhyAt(b, id), turn)]
                   else old(phys)
    {
      var b, id := Bus(phys, turn), ParamTarget(param);
      readData := ReadValue(PhyAt(b, id), address % 32, timings(turn).status, LatchedUp(b, timings, id));
      if ShowsStatus(PhyAt(b, id), address % 32) {
        phys := phys[id := Released(PhyAt(b, id), turn)];
      }
    }

    method PollRead() returns (done: bool)
      requires !BitOf(ctrl, CTRL_DONE)
      modifies this`phys, this`ctrl, this`readData
      ensures done == InTime(timings(turn))
      ensures var (b, id) := (Bus(old(phys), turn), ParamTarget(param));
        && (done ==>
              readData == ReadValue(PhyAt(b, id), address % 32, timings(turn).status, LatchedUp(b, timings, id)))
        && phys == if Happens(timings(turn)) && ShowsStatus(PhyAt(b, id), address % 32)
                   then old(phys)[id := Released(PhyAt(b, id), turn)] else old(phys)
    {
      hide ReadValue, PhyAt, ParamTarget, BitOf, ShowsStatus, LatchedUp;
      var t := timings(turn);
      for i := 0 to POLL_MAX
        invariant phys == old(phys) && !BitOf(ctrl, CTRL_DONE) && i <= t.latency
      {
        if i == t.latency {
          ControllerReads();
          PutDone(ctrl);
          ctrl := PutInWord(ctrl, CTRL_DONE, true);
        }
        if BitOf(ctrl, CTRL_DONE) {
          WriteCtrl(CLEAR_DONE);
          return true;
        }
      }
      if t.late {
        ControllerReads();
      }
      WriteCtrl(RESET_READ);
      return false;
    }

    method MiimWrite(phy: nat, bus: nat, reg: Word, data: nat) returns (rc: int)
      modifies this`phys, this`turn, this`ctrl, this`address, this`param
      ensures (View(), rc == 0) == Warpcore.MiimWrite(old(View()), timings, PhyOf(bus, phy), reg, data)
      ensures rc == 0 || rc == -EIO
    {
      hide PhyWrite, BitOf, Param, ParamTarget, ParamData, PhyAt, Schan.CtrlAfter;
      WriteCtrl(RESET_WRITE);
      Schan.CtrlBits(ctrl, CLEAR_DONE, CTRL_DONE);
      WriteCtrl(CLEAR_DONE);
      address := reg % 32;
      param := Param(bus, phy, data);
      ParamDecodes(bus, phy, data);
      Schan.CtrlBits(ctrl, START_WRITE, CTRL_DONE);
      WriteCtrl(START_WRITE);
      var done := PollWrite(timings(turn));
      turn := turn + 1;
      rc := if done then 0 else -EIO;
      assert PhyAt(Bus(old(phys), old(turn)), PhyOf(bus, phy)) == PhyAt(old(View()), PhyOf(bus, phy));
    }

    method MiimRead(phy: nat, bus: nat, reg: Word) returns (rc: int, data: nat)
      modifies this`phys, this`turn, this`ctrl, this`address, this`param, this`readData
      ensures var (b, ok, v) := Warpcore.MiimRead(old(View()), timings, PhyOf(bus, phy), reg);
        View() == b && rc == (if ok then 0 else -EIO) && (ok ==> data == v)
    {
      hide ReadValue, BitOf, Param, ParamTarget, ParamData, PhyAt, ShowsStatus, LatchedUp, Released, Schan.CtrlAfter;
      ghost var b := View();
      WriteCtrl(RESET_READ);
      Schan.CtrlBits(ctrl, CLEAR_DONE, CTRL_DONE);
      WriteCtrl(CLEAR_DONE);
      address := reg % 32;
      param := Param(bus, phy, 0);
      ParamDecodes(bus, phy, 0);
      Schan.CtrlBits(ctrl, START_READ, CTRL_DONE);
      WriteCtrl(START_READ);
      var done := PollRead();
      assert b == Bus(old(phys), old(turn));
      turn := turn + 1;
      rc := if done then 0 else -EIO;
      data := readData;
    }

    // ----- Window access -----

    // Select a lane and block; the first failure stops the sequence.
    method Select(phy: nat, bus: nat, lane: nat, block: nat) returns (rc: int)
      requires block < 0x1_0000
      modifies this`phys, this`turn, this`ctrl, this`address, this`param
      ensures (View(), rc == 0) == Warpcore.Select(old(View()), timings, PhyOf(bus, phy), lane, block)
      ensures rc == 0 || rc == -EIO
    {
      hide PhyAt, Warpcore.MiimWrite;
      rc := MiimWrite(phy, bus, AER_BLK, AER_BROADCAST);
      if rc != 0 {
        return -EIO;
      }
      rc := MiimWrite(phy, bus, AER_LANE, lane % 4);
      if rc != 0 {
        return -EIO;
      }
      rc := MiimWrite(phy, bus, AER_BLK, block);
    }

    method WcRead(phy: nat, lane: nat, bus: nat, addr: nat) returns (rc: int, v: nat)
      requires addr < 0x1_0000
      modifies this`phys, this`turn, this`ctrl, this`address, this`param, this`readData
      ensures var (b, ok, x) := Warpcore.WcRead(old(View()), timings, PhyOf(bus, phy), lane, addr);
        View() == b && rc == (if ok then 0 else -EIO) && (ok ==> v == x)
    {
      hide PhyAt, Warpcore.MiimRead, Warpcore.Select;
      v := 0;
      rc := Select(phy, bus, lane, addr - addr % 16);
      if rc != 0 {
        return;
      }
      rc, v := MiimRead(phy, bus, 0x10 + addr % 16);
    }

    method WcWrite(phy: nat, lane: nat, bus: nat, addr: nat, v: nat) returns (rc: int)
      requires addr < 0x1_0000
      modifies this`phys, this`turn, this`ctrl, this`address, this`param
      ensures (View(), rc == 0) == Warpcore.WcWrite(old(View()), timings, PhyOf(bus, phy), lane, addr, v)
      ensures rc == 0 || rc == -EIO
    {
      hide PhyAt, Warpcore.MiimWrite, Warpcore.Select;
      rc := Select(phy, bus, lane, addr - addr % 16);
      if rc != 0 {
        return;
      }
      rc := MiimWrite(phy, bus, 0x10 + addr % 16, v);
    }

    method WcCl45Read(phy: nat, bus: nat, devad: nat, reg: nat) returns (rc: int, v: nat)
      requires reg < 0x1_0000
      modifies this`phys, this`turn, this`ctrl, this`address, this`param, this`readData
      ensures var (b, ok, x) := Cl45Read(old(View()), timings, PhyOf(bus, phy), devad, reg);
        View() == b && rc == (if ok then 0 else -EIO) && (ok ==> v == x)
    {
      hide PhyAt, Warpcore.MiimWrite, Warpcore.MiimRead;
      var _ := MiimWrite(phy, bus, AER_BLK, AER_BROADCAST);
      var _ := MiimWrite(phy, bus, AER_LANE, 0);
      var _ := MiimWrite(phy, bus, AER_BLK, 0);
      var _ := MiimWrite(phy, bus, MMD_CTL, devad % 32);
      var _ := MiimWrite(phy, bus, MMD_DATA, reg);
      var _ := MiimWrite(phy, bus, MMD_CTL, 0x4000 + devad % 32);
      rc, v := MiimRead(phy, bus, MMD_DATA);
    }

    // ----- Firmware download -----

    // Write a lane-0 register of the PHY's microcontroller; the result is ignored.
    method Poke(phy: nat, bus: nat, addr: nat, v: nat)
      requires Plain(addr) && v < 0x1_0000
      modifies this`phys, this`turn, this`ctrl, this`address, this`param
      ensures OthersKept(old(View()), View(), PhyOf(bus, phy))
      ensures View() == Warpcore.WcWrite(old(View()), timings, PhyOf(bus, phy), 0, addr, v).0
      ensures Prompt(timings, old(turn), 3) ==>
        var (was, now) := (PhyAt(old(View()), PhyOf(bus, phy)).uc, PhyAt(View(), PhyOf(bus, phy)).uc);
        turn == old(turn) + 4 && now == if Happens(timings(old(turn) + 3)) then UcWrite(was, addr, v) else was
      ensures var (was, now) := (PhyAt(old(View()), PhyOf(bus, phy)), PhyAt(View(), PhyOf(bus, phy)));
        && (Firmware(addr) ==> Config(now.regs) == Config(was.regs))
        && (Reliable(timings) ==> Reg0(now, addr) == v && OthersSame(was, now, addr))
    {
      hide PhyAt, Warpcore.WcWrite, UcWrite, Happens, Lands, Config, Reg0, OthersSame;
      ghost var (id, b) := (PhyOf(bus, phy), View());
      WriteRefinesFlat(b, timings, id, 0, addr, v);
      ReliableWrite(b, timings, id, 0, addr, v);
      if Reliable(timings) {
        RegSet(PhyAt(b, id), PhyAt(Warpcore.WcWrite(b, timings, id, 0, addr, v).0, id), addr, v);
      }
      ConfigFrame(PhyAt(b, id).regs, PhyAt(Warpcore.WcWrite(b, timings, id, 0, addr, v).0, id).regs, addr, v);
      if Prompt(timings, turn, 3) {
        PromptWrite(View(), timings, PhyOf(bus, phy), 0, addr, v);
      }
      var _ := WcWrite(phy, 0, bus, addr, v);
    }

    // Read a lane-0 register into a variable that holds was: a failed read leaves it alone.
    method Peek(phy: nat, bus: nat, addr: nat, was: nat) returns (v: nat)
      requires addr < 0x1_0000 && was < 0x1_0000
      modifies this`phys, this`turn, this`ctrl, this`address, this`param, this`readData
      ensures OthersKept(old(View()), View(), PhyOf(bus, phy))
      ensures PhyAt(View(), PhyOf(bus, phy)).uc == PhyAt(old(View()), PhyOf(bus, phy)).uc
      ensures v < 0x1_0000
      ensures View() == Warpcore.WcRead(old(View()), timings, PhyOf(bus, phy), 0, addr).0
      ensures v == var r := Warpcore.WcRead(old(View()), timings, PhyOf(bus, phy), 0, addr);
                   if r.1 then r.2 % 0x1_0000 else was
      ensures Prompt(timings, old(turn), 4) ==>
        turn == old(turn) + 4 && (Driven(addr) ==> v == timings(old(turn) + 3).status % 0x1_0000)
      ensures PhyAt(View(), PhyOf(bus, phy)).regs == PhyAt(old(View()), PhyOf(bus, phy)).regs
      ensures forall a: nat :: Reg0(PhyAt(View(), PhyOf(bus, phy)), a) == Reg0(PhyAt(old(View()), PhyOf(bus, phy)), a)
      ensures Prompt(timings, old(turn), 4) && Plain(addr) && !Driven(addr) ==>
        v == Reg0(PhyAt(old(View()), PhyOf(bus, phy)), addr)
    {
      hide PhyAt, Warpcore.WcRead, Reg;
      ReadRefinesFlat(View(), timings, PhyOf(bus, phy), 0, addr);
      if Prompt(timings, turn, 4) {
        PromptReadTurn(View(), timings, PhyOf(bus, phy), 0, addr);
        if Driven(addr) {
          PromptRead(View(), timings, PhyOf(bus, phy), 0, addr);
        }
      }
      var rc, x := WcRead(phy, 0, bus, addr);
      v := if rc == 0 then x % 0x1_0000 else was;
    }

    // Poll a register that the chip drives, at most 500 times, until one of its bits in [bit, 16)
    // is set.
    method Await(phy: nat, bus: nat, addr: nat, bit: nat) returns (v: nat)
      requires Driven(addr)
      modifies this`phys, this`turn, this`ctrl, this`address, this`param, this`readData
      ensures OthersKept(old(View()), View(), PhyOf(bus, phy))
      ensures PhyAt(View(), PhyOf(bus, phy)).uc == PhyAt(old(View()), PhyOf(bus, phy)).uc
      ensures v < 0x1_0000
      ensures Prompt(timings, old(turn), 4) && Shr(timings(old(turn) + 3).status % 0x1_0000, bit) != 0 ==>
        turn == old(turn) + 4 && v == timings(old(turn) + 3).status % 0x1_0000
      ensures PhyAt(View(), PhyOf(bus, phy)).regs == PhyAt(old(View()), PhyOf(bus, phy)).regs
      ensures forall a: nat :: Reg0(PhyAt(View(), PhyOf(bus, phy)), a) == Reg0(PhyAt(old(View()), PhyOf(bus, phy)), a)
      ensures Reliable(timings) ==> (Shr(v, bit) == 0 <==> NeverShown(timings, old(turn), bit))
    {
      hide PhyAt, Shr, Warpcore.WcRead;
      ZeroShifts(bit);
      v := 0;
      for cnt := 0 to 500
        invariant OthersKept(old(View()), View(), PhyOf(bus, phy)) && v < 0x1_0000
        invariant PhyAt(View(), PhyOf(bus, phy)).uc == PhyAt(old(View()), PhyOf(bus, phy)).uc
        invariant PhyAt(View(), PhyOf(bus, phy)).regs == PhyAt(old(View()), PhyOf(bus, phy)).regs
        invariant cnt == 0 ==> turn == old(turn)
        invariant Shr(v, bit) == 0
        invariant Reliable(timings) ==>
          turn == old(turn) + 4 * cnt && forall k: nat | k < cnt :: Shr(Polled(timings, old(turn), k), bit) == 0
        invariant cnt > 0 ==>
          !(Prompt(timings, old(turn), 4) && Shr(timings(old(turn) + 3).status % 0x1_0000, bit) != 0)
      {
        v := Peek(phy, bus, addr, v);
        assert Reliable(timings) ==> v == Polled(timings, old(turn), cnt);
        if Shr(v, bit) != 0 {
          return;
        }
      }
    }

    method Halt(phy: nat, bus: nat)
      modifies this`phys, this`turn, this`ctrl, this`address, this`param
      ensures Config(PhyAt(View(), PhyOf(bus, phy)).regs) == Config(PhyAt(old(View()), PhyOf(bus, phy)).regs)
      ensures OthersKept(old(View()), View(), PhyOf(bus, phy))
      ensures Prompt(timings, old(turn), 12) ==> turn == old(turn) + 12
    {
      hide Config, PhyAt, UcWrite, Warpcore.WcWrite;
      Poke(phy, bus, UC_COMMAND, 0x0002);
      Poke(phy, bus, UC_COMMAND, 0x0000);
      Poke(phy, bus, UC_DL_STATUS, 0x0000);
    }

    // Stop the microcontroller and have it clear its RAM.
    method ClearRam(phy: nat, bus: nat) returns (ok: bool, v: nat)
      modifies this`phys, this`turn, this`ctrl, this`address, this`param, this`readData
      ensures Config(PhyAt(View(), PhyOf(bus, phy)).regs) == Config(PhyAt(old(View()), PhyOf(bus, phy)).regs)
      ensures OthersKept(old(View()), View(), PhyOf(bus, phy)) && v < 0x1_0000
      ensures Prompt(timings, old(turn), 16) ==> PhyAt(View(), PhyOf(bus, phy)).uc.ram == Zeros(RAM_BYTES)
      ensures Prompt(timings, old(turn), 20) && timings(old(turn) + 19).status == 0x8000 ==>
        ok && turn == old(turn) + 20
      ensures Reliable(timings) ==> (!ok <==> NeverShown(timings, old(turn) + 16, 15))
    {
      hide Config, PhyAt, Take, Zeros, Shr, NeverShown, Warpcore.WcWrite, Warpcore.WcRead;
      TopBit();
      Halt(phy, bus);
      Poke(phy, bus, UC_COMMAND, 0x8000);
      v := Await(phy, bus, UC_DL_STATUS, 15);
      ok := (v / 0x8000) % 2 == 1;
      TopBitOf(v);
    }

    method EnableTimers(phy: nat, bus: nat, was: nat) returns (v: nat)
      requires was < 0x1_0000
      modifies this`phys, this`turn, this`ctrl, this`address, this`param, this`readData
      ensures Config(PhyAt(View(), PhyOf(bus, phy)).regs) == Config(PhyAt(old(View()), PhyOf(bus, phy)).regs)
      ensures OthersKept(old(View()), View(), PhyOf(bus, phy)) && v < 0x1_0000
      ensures Prompt(timings, old(turn), 8) ==> turn == old(turn) + 8
      ensures PhyAt(View(), PhyOf(bus, phy)).uc == PhyAt(old(View()), PhyOf(bus, phy)).uc
      ensures Reliable(timings) ==>
        var (was, now) := (PhyAt(old(View()), PhyOf(bus, phy)), PhyAt(View(), PhyOf(bus, phy)));
        BitChanged(Reg0(was, UC_COMMAND2), Reg0(now, UC_COMMAND2), 5, true) && OthersSame(was, now, UC_COMMAND2)
    {
      hide Config, PhyAt, BitOf, SetOne, BitChanged, Reg0, Warpcore.WcRead, Warpcore.WcWrite, Lands;
      v := Peek(phy, bus, UC_COMMAND2, was);
      SetBit16(v, 5);
      WriteRefinesFlat(View(), timings, PhyOf(bus, phy), 0, UC_COMMAND2, SetOne(v, 5));
      Poke(phy, bus, UC_COMMAND2, SetOne(v, 5));
    }

    // Announce the size and start the download.
    method StartDownload(phy: nat, bus: nat, aligned: nat, was: nat) returns (v: nat)
      requires was < 0x1_0000
      modifies this`phys, this`turn, this`ctrl, this`address, this`param, this`readData
      ensures Config(PhyAt(View(), PhyOf(bus, phy)).regs) == Config(PhyAt(old(View()), PhyOf(bus, phy)).regs)
      ensures OthersKept(old(View()), View(), PhyOf(bus, phy)) && v < 0x1_0000
      ensures Prompt(timings, old(turn), 20) ==> turn == old(turn) + 20
      ensures Reliable(timings) ==> TimersOn(PhyAt(View(), PhyOf(bus, phy)))
      ensures Prompt(timings, old(turn), 20) && PhyAt(old(View()), PhyOf(bus, phy)).uc.ram == Zeros(RAM_BYTES) ==>
        Ready(PhyAt(View(), PhyOf(bus, phy)).uc, (aligned - 1) % 0x1_0000 + 1)
    {
      hide Config, PhyAt, Take, Zeros, Or, Warpcore.WcRead, Warpcore.WcWrite;
      v := EnableTimers(phy, bus, was);
      Poke(phy, bus, UC_RAMWORD, (aligned - 1) % 0x1_0000);
      Poke(phy, bus, UC_ADDRESS, 0x0000);
      Poke(phy, bus, UC_COMMAND, 0x0009);
    }

    // Stream the image, padded to a multiple of 16 bytes, two bytes a write. On a bus that loses
    // nothing the RAM ends up holding it; on one that loses data writes, it takes in what is left
    // of the image without gaps.
    method StreamImage(phy: nat, bus: nat, image: seq<Byte>)
      modifies this`phys, this`turn, this`ctrl, this`address, this`param
      ensures Config(PhyAt(View(), PhyOf(bus, phy)).regs) == Config(PhyAt(old(View()), PhyOf(bus, phy)).regs)
      ensures OthersKept(old(View()), View(), PhyOf(bus, phy))
      ensures Reliable(timings) && TimersOn(PhyAt(old(View()), PhyOf(bus, phy))) ==>
        TimersOn(PhyAt(View(), PhyOf(bus, phy)))
      ensures SoundStart(old(View()), PhyOf(bus, phy), image) && Reliable(timings) ==>
        var uc := PhyAt(View(), PhyOf(bus, phy)).uc;
        Holds(uc.ram, image, Aligned(|image|)) && uc.left == 0 && uc.size == Aligned(|image|)
      ensures SelectsPrompt(timings, old(turn), 0, Aligned(|image|)) ==>
        && turn == old(turn) + 2 * Aligned(|image|)
        && PhyAt(View(), PhyOf(bus, phy)).uc
           == TakeAll(PhyAt(old(View()), PhyOf(bus, phy)).uc, LandedWords(image, timings, old(turn), 0))
    {
      hide Config, PhyAt, Take, Holds, Aligned, WordAt, TakeAll, LandedWords, SelectsPrompt, Ready, Warpcore.WcWrite;
      ghost var id := PhyOf(bus, phy);
      ghost var sound := SoundStart(View(), id, image) && Reliable(timings);
      ghost var selects := SelectsPrompt(timings, turn, 0, Aligned(|image|));
      AlignedFits(|image|);
      if sound {
        StreamStarts(PhyAt(View(), id).uc, image);
      }
      ghost var all := TakeAll(PhyAt(View(), id).uc, LandedWords(image, timings, turn, 0));
      var idx := 0;
      while idx < Aligned(|image|)
        invariant idx % 2 == 0 && idx <= Aligned(|image|)
        invariant OthersKept(old(View()), View(), id)
        invariant Config(PhyAt(View(), id).regs) == Config(PhyAt(old(View()), id).regs)
        invariant Reliable(timings) ==>
          Reg0(PhyAt(View(), id), UC_COMMAND2) == Reg0(PhyAt(old(View()), id), UC_COMMAND2)
        invariant sound ==> Streaming(PhyAt(View(), id).uc, image, idx)
        invariant selects ==> turn == old(turn) + 2 * idx
        invariant selects ==> TakeAll(PhyAt(View(), id).uc, LandedWords(image, timings, old(turn), idx)) == all
      {
        if sound {
          TakeStreams(PhyAt(View(), id).uc, image, idx);
          assert Prompt(timings, turn, 3) && Happens(timings(turn + 3));
        }
        if selects {
          TakeNext(PhyAt(View(), id).uc, image, timings, old(turn), idx);
          SelectsAt(timings, old(turn), idx, Aligned(|image|));
        }
        Poke(phy, bus, UC_WRDATA, WordAt(image, idx));
        idx := idx + 2;
      }
      TakeNone(PhyAt(View(), id).uc, image, timings, old(turn), idx);
    }

    // On a reliable bus a download that gets past the RAM initialisation leaves the RAM holding
    // exactly the image, zero-padded, and has streamed exactly the announced number of bytes. On
    // a bus that loses some of the data writes, and nothing else, it reports success all the
    // same, over what landed.
    method WcFirmwareDownload(phy: nat, bus: nat, image: seq<Byte>) returns (rc: int)
      requires Reliable(timings) ==> !PllRuns(PhyAt(View(), PhyOf(bus, phy)))
      modifies this`phys, this`turn, this`ctrl, this`address, this`param, this`readData
      ensures Config(PhyAt(View(), PhyOf(bus, phy)).regs) == Config(PhyAt(old(View()), PhyOf(bus, phy)).regs)
      ensures OthersKept(old(View()), View(), PhyOf(bus, phy))
      ensures rc == 0 || rc == -EIO || rc == -ETIMEDOUT
      ensures Reliable(timings) ==> (rc == -ETIMEDOUT <==> NeverShown(timings, old(turn) + 16, 15))
      ensures Reliable(timings) && rc == 0 ==> Running(PhyAt(View(), PhyOf(bus, phy)))
      ensures Reliable(timings) && rc == -ETIMEDOUT ==> PhyAt(View(), PhyOf(bus, phy)).uc.ram == Zeros(RAM_BYTES)
      ensures Reliable(timings) && 0 < |image| <= RAM_BYTES && rc != -ETIMEDOUT ==>
        var uc := PhyAt(View(), PhyOf(bus, phy)).uc;
        && Holds(uc.ram, image, Aligned(|image|))
        && uc.size == Aligned(|image|) && uc.left == 0 && !uc.running
      ensures 0 < |image| <= RAM_BYTES && OnlyDataLost(timings, old(turn), Aligned(|image|)) ==>
        var (uc, ws) := (PhyAt(View(), PhyOf(bus, phy)).uc, LandedWords(image, timings, old(turn) + 40, 0));
        && rc == 0 && uc.ram == TakeAll(ReadyUc(Aligned(|image|)), ws).ram
        && uc.left == Aligned(|image|) - 2 * |ws|
        && (uc.left == 0 <==> AllLand(timings, old(turn) + 40, 0, Aligned(|image|) / 2))
    {
      hide Config, PhyAt, UcWrite, Holds, Aligned, TakeAll, LandedWords, SelectsPrompt, Zeros, Ready, AllLand;
      hide PllRuns, NeverShown, TimersOn, Reg0;
      ghost var id := PhyOf(bus, phy);
      ghost var n := Aligned(|image|);
      ghost var lossy := 0 < |image| <= RAM_BYTES && OnlyDataLost(timings, turn, n);
      var ok, v := ClearRam(phy, bus);
      if !ok {
        return -ETIMEDOUT;
      }
      AlignedFits(|image|);
      v := StartDownload(phy, bus, Aligned(|image|), v);
      ghost var start := PhyAt(View(), id).uc;
      StreamImage(phy, bus, image);
      if lossy {
        ReadyIsReadyUc(start, n);
        AllLandIff(image, timings, old(turn) + 40, 0, n / 2);
        TakeAllCounts(start, LandedWords(image, timings, old(turn) + 40, 0));
      }
      rc := FinishDownload(phy, bus, v);
    }

    // Stop the download, check for errors, and start the microcontroller: the RAM and the count
    // stay, whatever is lost.
    method FinishDownload(phy: nat, bus: nat, was: nat) returns (rc: int)
      requires was < 0x1_0000
      modifies this`phys, this`turn, this`ctrl, this`address, this`param, this`readData
      ensures Config(PhyAt(View(), PhyOf(bus, phy)).regs) == Config(PhyAt(old(View()), PhyOf(bus, phy)).regs)
      ensures OthersKept(old(View()), View(), PhyOf(bus, phy))
      ensures rc == 0 || rc == -EIO
      ensures var (was, now) := (PhyAt(old(View()), PhyOf(bus, phy)).uc, PhyAt(View(), PhyOf(bus, phy)).uc);
        && now == was.(running := now.running)
        && (Reliable(timings) ==> !now.running)
      ensures Prompt(timings, old(turn), 8) ==> (rc == 0 <==> timings(old(turn) + 7).status % 4 == 0)
      ensures Reliable(timings) && rc == 0 && TimersOn(PhyAt(old(View()), PhyOf(bus, phy))) ==>
        Running(PhyAt(View(), PhyOf(bus, phy)))
    {
      hide Config, PhyAt, UcWrite, Shr, Warpcore.WcRead, Warpcore.WcWrite;
      PokeKeepsRam(View(), timings, PhyOf(bus, phy), UC_COMMAND, 0x0002);
      Poke(phy, bus, UC_COMMAND, 0x0002);
      var v := Peek(phy, bus, UC_DL_STATUS, was);
      ErrorBits(timings(old(turn) + 7).status);
      if v % 4 != 0 {
        return -EIO;
      }
      StartCode(phy, bus);
      rc := 0;
    }

    // Start the microcontroller and wait for it.
    method StartCode(phy: nat, bus: nat)
      modifies this`phys, this`turn, this`ctrl, this`address, this`param, this`readData
      ensures Config(PhyAt(View(), PhyOf(bus, phy)).regs) == Config(PhyAt(old(View()), PhyOf(bus, phy)).regs)
      ensures OthersKept(old(View()), View(), PhyOf(bus, phy))
      ensures var (was, now) := (PhyAt(old(View()), PhyOf(bus, phy)).uc, PhyAt(View(), PhyOf(bus, phy)).uc);
        now == was.(running := now.running) && (now.running ==> was.running)
      ensures Reliable(timings) && TimersOn(PhyAt(old(View()), PhyOf(bus, phy))) ==>
        Running(PhyAt(View(), PhyOf(bus, phy)))
    {
      hide Reg0, BitOf, Config, PhyAt, UcWrite, Shr, Warpcore.WcRead, Warpcore.WcWrite;
      PokeKeepsRam(View(), timings, PhyOf(bus, phy), FW_CRC, 0x0001);
      Poke(phy, bus, FW_CRC, 0x0001);
      PokeKeepsRam(View(), timings, PhyOf(bus, phy), UC_COMMAND, 0x0010);
      Poke(phy, bus, UC_COMMAND, 0x0010);
      var _ := Await(phy, bus, FW_VERSION, 0);
    }

    // ----- Ports -----

    // Write a lane-0 register that does not drive the microcontroller; the result is ignored.
    method Configure(phy: nat, bus: nat, addr: nat, v: nat)
      requires Plain(addr) && !Controls(addr) && v < 0x1_0000
      modifies this`phys, this`turn, this`ctrl, this`address, this`param
      ensures OthersKept(old(View()), View(), PhyOf(bus, phy))
      ensures PhyAt(View(), PhyOf(bus, phy)).uc == PhyAt(old(View()), PhyOf(bus, phy)).uc
      ensures Prompt(timings, old(turn), 3) ==> turn == old(turn) + 4
      ensures Reliable(timings) ==>
        var (was, now) := (PhyAt(old(View()), PhyOf(bus, phy)), PhyAt(View(), PhyOf(bus, phy)));
        Reg0(now, addr) == v && OthersSame(was, now, addr)
    {
      hide PhyAt, Warpcore.WcWrite, Happens, Lands, Reg0, OthersSame;
      WriteRefinesFlat(View(), timings, PhyOf(bus, phy), 0, addr, v);
      Poke(phy, bus, addr, v);
    }

    // Stop the PLL if it runs; was is what the variable held that the registers are read into.
    method StopPll(phy: nat, bus: nat, was: nat) returns (v: nat)
      requires was < 0x1_0000
      modifies this`phys, this`turn, this`ctrl, this`address, this`param, this`readData
      ensures OthersKept(old(View()), View(), PhyOf(bus, phy)) && v < 0x1_0000
      ensures PhyAt(View(), PhyOf(bus, phy)).uc == PhyAt(old(View()), PhyOf(bus, phy)).uc
      ensures Prompt(timings, old(turn), 12) ==>
        turn == old(turn) + (if PllRuns(PhyAt(old(View()), PhyOf(bus, phy))) then 12 else 8)
      ensures Reliable(timings) ==>
        var (was, now) := (PhyAt(old(View()), PhyOf(bus, phy)), PhyAt(View(), PhyOf(bus, phy)));
        BitChanged(Reg0(was, XGXS_CONTROL), Reg0(now, XGXS_CONTROL), 13, false) && OthersSame(was, now, XGXS_CONTROL)
    {
      hide PhyAt, BitOf, ClearOne, BitChanged, Warpcore.WcRead, Reg0;
      v := Peek(phy, bus, SERDES_ID0, was);
      v := Peek(phy, bus, XGXS_CONTROL, v);
      ClearBit16(v, 13);
      if BitOf(v, 13) {
        Configure(phy, bus, XGXS_CONTROL, ClearOne(v, 13));
      }
    }

    // Set the PLL divider for 10G.
    method SetDivider(phy: nat, bus: nat, was: nat) returns (v: nat)
      requires was < 0x1_0000
      modifies this`phys, this`turn, this`ctrl, this`address, this`param, this`readData
      ensures OthersKept(old(View()), View(), PhyOf(bus, phy)) && v < 0x1_0000
      ensures PhyAt(View(), PhyOf(bus, phy)).uc == PhyAt(old(View()), PhyOf(bus, phy)).uc
      ensures Prompt(timings, old(turn), 12) ==> turn == old(turn) + 12
      ensures Reliable(timings) ==>
        var (was, now) := (PhyAt(old(View()), PhyOf(bus, phy)), PhyAt(View(), PhyOf(bus, phy)));
        && Divided(Reg0(was, MISC1), Reg0(now, MISC1)) && Reg0(now, LANE_PRBS) == 0
        && forall a: nat | a != MISC1 && a != LANE_PRBS :: Reg0(now, a) == Reg0(was, a)
    {
      hide PhyAt, Warpcore.WcRead, Reg0, Divided;
      Configure(phy, bus, LANE_PRBS, 0);
      v := Peek(phy, bus, MISC1, was);
      DividerBits(v, v - (v / 0x100) % 0x20 * 0x100 + 0x1200);
      v := v - (v / 0x100) % 0x20 * 0x100 + 0x1200;
      Configure(phy, bus, MISC1, v);
    }

    // Read the firmware version.
    method CheckVersion(phy: nat, bus: nat, was: nat) returns (warm: bool, v: nat)
      requires was < 0x1_0000
      modifies this`phys, this`turn, this`ctrl, this`address, this`param, this`readData
      ensures OthersKept(old(View()), View(), PhyOf(bus, phy)) && v < 0x1_0000
      ensures PhyAt(View(), PhyOf(bus, phy)).uc == PhyAt(old(View()), PhyOf(bus, phy)).uc
      ensures Prompt(timings, old(turn), 28) ==>
        var t := old(turn) + if PllRuns(PhyAt(old(View()), PhyOf(bus, phy))) then 27 else 23;
        warm <==> timings(t).status % 0x1_0000 == CURRENT_VERSION
      ensures Reliable(timings) ==> Stopped(PhyAt(old(View()), PhyOf(bus, phy)), PhyAt(View(), PhyOf(bus, phy)))
    {
      hide PhyAt, Warpcore.WcRead, PllRuns, BitChanged, Reg0, Divided;
      v := StopPll(phy, bus, was);
      v := SetDivider(phy, bus, v);
      v := Peek(phy, bus, FW_VERSION, v);
      warm := v == CURRENT_VERSION;
    }

    // Start the PLL, wait for it, and let the microcontroller run the code that its RAM holds.
    method StartPll(phy: nat, bus: nat, was: nat)
      requires was < 0x1_0000
      modifies this`phys, this`turn, this`ctrl, this`address, this`param, this`readData
      ensures OthersKept(old(View()), View(), PhyOf(bus, phy))
      ensures var (was, now) := (PhyAt(old(View()), PhyOf(bus, phy)).uc, PhyAt(View(), PhyOf(bus, phy)).uc);
        now == was.(running := now.running)
      ensures Reliable(timings) ==>
        var (was, now) := (PhyAt(old(View()), PhyOf(bus, phy)), PhyAt(View(), PhyOf(bus, phy)));
        && BitChanged(Reg0(was, XGXS_CONTROL), Reg0(now, XGXS_CONTROL), 13, true)
        && (forall a: nat | a != XGXS_CONTROL && !Firmware(a) :: Reg0(now, a) == Reg0(was, a))
        && TimersOn(now) && Reg0(now, UC_COMMAND) == 0x8010
    {
      hide PhyAt, Config, SetOne, BitOf, BitChanged, Reg0;
      ghost var (id, p0) := (PhyOf(bus, phy), PhyAt(View(), PhyOf(bus, phy)));
      var v := Peek(phy, bus, XGXS_CONTROL, was);
      SetBit16(v, 13);
      Configure(phy, bus, XGXS_CONTROL, SetOne(v, 13));
      v := WaitForPll(phy, bus, v);
      ghost var p1 := PhyAt(View(), id);
      RestartCode(phy, bus, v);
      if Reliable(timings) {
        PllStarted(p0, p1, PhyAt(View(), id));
      }
    }

    // Poll the PLL status, at most 200 times, for its lock bit, which nothing then depends on.
    method WaitForPll(phy: nat, bus: nat, was: nat) returns (v: nat)
      requires was < 0x1_0000
      modifies this`phys, this`turn, this`ctrl, this`address, this`param, this`readData
      ensures OthersKept(old(View()), View(), PhyOf(bus, phy))
      ensures PhyAt(View(), PhyOf(bus, phy)).uc == PhyAt(old(View()), PhyOf(bus, phy)).uc
      ensures forall a: nat :: Reg0(PhyAt(View(), PhyOf(bus, phy)), a) == Reg0(PhyAt(old(View()), PhyOf(bus, phy)), a)
      ensures v < 0x1_0000
    {
      hide PhyAt, Reg0, BitOf, Warpcore.WcRead;
      v := was;
      for cnt := 0 to 200
        invariant OthersKept(old(View()), View(), PhyOf(bus, phy)) && v < 0x1_0000
        invariant PhyAt(View(), PhyOf(bus, phy)).uc == PhyAt(old(View()), PhyOf(bus, phy)).uc
        invariant forall a: nat ::
          Reg0(PhyAt(View(), PhyOf(bus, phy)), a) == Reg0(PhyAt(old(View()), PhyOf(bus, phy)), a)
      {
        v := Peek(phy, bus, XGXS_STATUS, v);
        if BitOf(v, 11) {
          break;
        }
      }
    }

    // Turn the timers on and let the microcontroller run what its RAM holds.
    method RestartCode(phy: nat, bus: nat, was: nat)
      requires was < 0x1_0000
      modifies this`phys, this`turn, this`ctrl, this`address, this`param, this`readData
      ensures OthersKept(old(View()), View(), PhyOf(bus, phy))
      ensures var (was, now) := (PhyAt(old(View()), PhyOf(bus, phy)).uc, PhyAt(View(), PhyOf(bus, phy)).uc);
        now == was.(running := now.running)
      ensures Reliable(timings) ==>
        var (was, now) := (PhyAt(old(View()), PhyOf(bus, phy)), PhyAt(View(), PhyOf(bus, phy)));
        && (forall a: nat | !Firmware(a) :: Reg0(now, a) == Reg0(was, a))
        && TimersOn(now) && Reg0(now, UC_COMMAND) == 0x8010
    {
      hide PhyAt, Config, UcWrite, BitOf, Shr, Reg0, Warpcore.WcRead, Warpcore.WcWrite;
      var v := EnableTimers(phy, bus, was);
      PokeKeepsRam(View(), timings, PhyOf(bus, phy), UC_COMMAND, 0x8010);
      Poke(phy, bus, UC_COMMAND, 0x8010);
      v := Await(phy, bus, FW_VERSION, 0);
      v := Peek(phy, bus, UC_COMMAND, v);
    }

    // Initialise a PHY: download the firmware unless the current version runs already (warm), and
    // start the PLL. The result of the download, loaded, is only logged.
    method WcPhyInit(phy: nat, bus: nat, image: seq<Byte>, was: nat) returns (warm: bool, loaded: int)
      requires was < 0x1_0000
      modifies this`phys, this`turn, this`ctrl, this`address, this`param, this`readData
      ensures OthersKept(old(View()), View(), PhyOf(bus, phy))
      ensures Prompt(timings, old(turn), 28) ==>
        var t := old(turn) + if PllRuns(PhyAt(old(View()), PhyOf(bus, phy))) then 27 else 23;
        warm <==> timings(t).status % 0x1_0000 == CURRENT_VERSION
      ensures Reliable(timings) ==>
        Initialised(PhyAt(old(View()), PhyOf(bus, phy)).uc, PhyAt(View(), PhyOf(bus, phy)).uc, image, warm, loaded)
      ensures Reliable(timings) ==> Configured(PhyAt(old(View()), PhyOf(bus, phy)), PhyAt(View(), PhyOf(bus, phy)))
    {
      hide PhyAt, Holds, PllRuns, Config, Configured, Stopped, NeverShown, Running, BitOf, Reg0;
      hide Warpcore.MiimWrite, Prompt, Zeros, Initialised;
      ghost var (id, p0) := (PhyOf(bus, phy), PhyAt(View(), PhyOf(bus, phy)));
      var v;
      warm, v := CheckVersion(phy, bus, was);
      ghost var p1 := PhyAt(View(), id);
      if Reliable(timings) {
        StoppedMeansOff(p0, p1);
      }
      loaded := 0;
      if !warm {
        loaded := WcFirmwareDownload(phy, bus, image);
      }
      ghost var p2 := PhyAt(View(), id);
      StartPll(phy, bus, v);
      ghost var p3 := PhyAt(View(), id);
      var _ := MiimWrite(phy, bus, AER_BLK, 0);
      AerWrites(p3, 0);
      if Reliable(timings) {
        Configures(p0, p1, p2, p3, PhyAt(View(), id));
        RamKept(p0.uc, p1.uc, p2.uc, PhyAt(View(), id).uc, image, warm, loaded);
      }
    }

    // The one-time part of a port's initialisation: nothing happens to a PHY that is marked, and
    // the others are marked whatever comes of their initialisation.
    method InitPhyOnce(port: int, image: seq<Byte>, was: nat) returns (rc: int, warm: bool, loaded: int)
      requires phyInited.Length == 3 && was < 0x1_0000
      modifies phyInited, this`order, this`phys, this`turn, this`ctrl, this`address, this`param, this`readData
      ensures Inited() == InitPort(old(Inited()), port)
      ensures rc == if 1 <= port <= 52 then 0 else -EINVAL
      ensures rc != 0 || Inited() == old(Inited()) ==> View() == old(View())
      ensures rc == 0 ==> OthersKept(old(View()), View(), IdOf(PortToPhyBus(port).value))
      ensures rc == 0 && Inited() != old(Inited()) && Reliable(timings) ==>
        var id := IdOf(PortToPhyBus(port).value);
        && Initialised(PhyAt(old(View()), id).uc, PhyAt(View(), id).uc, image, warm, loaded)
        && Configured(PhyAt(old(View()), id), PhyAt(View(), id))
    {
      hide BitOf, PutInWord, PortToPhyBus, PhyAt, Initialised, Configured;
      warm, loaded := false, 0;
      var location := PortToPhyBus(port);
      if location.None? {
        return -EINVAL, warm, loaded;
      }
      var l := location.value;
      if !BitOf(phyInited[l.bus], l.phy) {
        warm, loaded := WcPhyInit(l.phy, l.bus, image, was);
        order := order + [IdOf(l)];
        phyInited[l.bus] := PutInWord(phyInited[l.bus], l.phy, true);
        assert |order| == |old(order)| + 1;
      }
      rc := 0;
    }

    // Link status is bit 2 of PCS register 1 (device 3) of the PHY's lane 0: for a port on
    // another lane it is the status of its neighbour. The bit latches low, and the first read lets
    // go of it.
    method LinkGet(port: int) returns (rc: int, up: bool)
      modifies this`phys, this`turn, this`ctrl, this`address, this`param, this`readData
      ensures rc == -EINVAL <==> !(1 <= port <= 52)
      ensures rc == 0 || rc == -EIO || rc == -EINVAL
      ensures rc == -EIO
         <==> 1 <= port <= 52 && !(InTime(timings(old(turn) + 6)) && InTime(timings(old(turn) + 13)))
      ensures 1 <= port <= 52 ==>
        (View(), rc, up) == LinkResult(old(View()), timings, IdOf(PortToPhyBus(port).value))
      ensures rc == 0 && AllHappen(timings, old(turn), 14) ==>
        var id := IdOf(PortToPhyBus(port).value);
        && up == Linked(timings, id, 0, old(turn) + 6, old(turn) + 13)
        && PhyAt(View(), id).regs == PhyAt(old(View()), id).regs
    {
      hide BitOf, PortToPhyBus, PhyAt, Warpcore.MiimWrite, Cl45Read, Linked;
      ghost var b0 := View();
      up := false;
      var location := PortToPhyBus(port);
      if location.None? {
        return -EINVAL, false;
      }
      var l := location.value;
      assert PhyOf(l.bus, l.phy) == IdOf(l);
      var v;
      rc, v := WcCl45Read(l.phy, l.bus, 3, 1);
      if rc != 0 {
        return;
      }
      rc, v := WcCl45Read(l.phy, l.bus, 3, 1);
      if rc != 0 {
        return;
      }
      if AllHappen(timings, b0.turn, 14) {
        TwoReads(b0, timings, IdOf(l));
      }
      up := BitOf(v, 2);
      var _ := MiimWrite(l.phy, l.bus, AER_BLK, 0);
    }
  }

  // Two status reads, as the bit latches low, and then the window parked.
  function LinkResult(b: Bus, ts: Timings, id: Id): (Bus, int, bool) {
    var (b1, ok1, _) := Cl45Read(b, ts, id, 3, 1);
    if !ok1 then (b1, -EIO, false)
    else
      var (b2, ok2, v) := Cl45Read(b1, ts, id, 3, 1);
      if !ok2 then (b2, -EIO, false) else (Warpcore.MiimWrite(b2, ts, id, AER_BLK, 0).0, 0, BitOf(v, 2))
  }

  // Two ports are told the same link status exactly when they sit on one PHY: the four ports of
  // each of the blocks 1..4, 5..8, .., 45..48, and ports 51 and 52.
  lemma SharedLinkStatus(p: int, q: int)
    requires 1 <= p <= q <= 52
    ensures IdOf(PortToPhyBus(p).value) == IdOf(PortToPhyBus(q).value)
       <==> p == q || (q <= 48 && (p - 1) / 4 == (q - 1) / 4) || (p == 51 && q == 52)
  {
  }

  // The status read is that of the port's own lane exactly when its lane is 0.
  lemma OwnLaneIff(port: int)
    requires 1 <= port <= 52
    ensures PortToPhyBus(port).value.lane == 0 <==> (port <= 48 && port % 4 == 1) || 49 <= port <= 51
  {
  }

  // When nothing but the last step before the data is lost from the second read, the link is
  // reported down without an error, whatever its state.
  lemma LostStepReportsDown(b: Bus, ts: Timings, id: Id)
    requires Cl45Read(b, ts, id, 3, 1).1
    requires var t := b.turn + 7; AllHappen(ts, t, 5) && !Happens(ts(t + 5)) && InTime(ts(t + 6))
    ensures LinkResult(b, ts, id).1 == 0 && !LinkResult(b, ts, id).2
  {
    assert !BitOf(1, 2);
    hide Cl45Read, BitOf;
    Cl45WithoutDataFunction(Cl45Read(b, ts, id, 3, 1).0, ts, id, 3, 1);
  }

  lemma LinkBit(w: nat, up: bool)
    ensures BitOf(WithLink(w, up), 2) == up
  {
    var x, u := WithLink(w, up), if up then 1 else 0;
    Quarter(x, w / 8, u, w % 4);
    hide WithLink;
    assert Shr(x, 2) == Shr(x / 2, 1) == Shr(x / 2 / 2, 0);
  }

  lemma Quarter(x: nat, q: nat, u: nat, low: nat)
    requires x == q * 8 + u * 4 + low && low < 4
    ensures x / 2 / 2 == q * 2 + u
  {
  }

  // What the two status reads show, when every step takes effect: the first, whether the link has
  // been up ever since the last read before it; the second, whether it was up at the first and
  // stayed up.
  lemma TwoReads(b: Bus, ts: Timings, id: Id)
    requires AllHappen(ts, b.turn, 14)
    ensures var ((b1, _, v1), t) := (Cl45Read(b, ts, id, PCS, PCS_STATUS), b.turn);
      var (b2, _, v2) := Cl45Read(b1, ts, id, PCS, PCS_STATUS);
      && (BitOf(v1, 2) <==> Linked(ts, id, 0, Seen(PhyAt(b, id), 0), t + 6))
      && (BitOf(v2, 2) <==> Linked(ts, id, 0, t + 6, t + 13))
      && PhyAt(b2, id).regs == PhyAt(b, id).regs
  {
    hide BitOf, PhyAt, Linked, Cl45Read, WithLink, MmdReg;
    var b1 := Cl45Read(b, ts, id, PCS, PCS_STATUS).0;
    assert Happens(ts(b.turn + 6));
    Cl45ReadsLaneZero(b, ts, id, PCS, PCS_STATUS);
    Cl45ReadsLaneZero(b1, ts, id, PCS, PCS_STATUS);
    LinkBit(MmdReg(PhyAt(b, id), 0, PCS, PCS_STATUS), Linked(ts, id, 0, Seen(PhyAt(b, id), 0), b.turn + 6));
    LinkBit(MmdReg(PhyAt(b1, id), 0, PCS, PCS_STATUS), Linked(ts, id, 0, b.turn + 6, b.turn + 13));
  }

  // So a link that does not change between the two reads is reported as it is.
  lemma SteadyLinkReported(b: Bus, ts: Timings, id: Id, up: bool)
    requires AllHappen(ts, b.turn, 14) && LinkResult(b, ts, id).1 == 0
    requires forall k: nat | b.turn + 6 <= k <= b.turn + 13 :: ((id, 0) in ts(k).up) == up
    ensures LinkResult(b, ts, id).2 == up
  {
    hide BitOf, PhyAt, Cl45Read, MiimWrite;
    TwoReads(b, ts, id);
    assert (id, 0) in ts(b.turn + 13).up <==> up;
  }

  // The input: the link was down for a moment since the last read and has been up again since
  // before the call. One read would report it down; the call reports it up.
  lemma OneReadIsStale(b: Bus, ts: Timings, id: Id, k: nat)
    requires AllHappen(ts, b.turn, 14) && LinkResult(b, ts, id).1 == 0
    requires Seen(PhyAt(b, id), 0) <= k < b.turn && (id, 0) !in ts(k).up
    requires forall n: nat | k < n <= b.turn + 13 :: (id, 0) in ts(n).up
    ensures !BitOf(Cl45Read(b, ts, id, PCS, PCS_STATUS).2, 2) && LinkResult(b, ts, id).2
  {
    hide BitOf, PhyAt, Cl45Read, MiimWrite;
    TwoReads(b, ts, id);
  }

  // The input: of the two-byte image [1, 2] the first data write is lost. The download reports
  // success and the RAM holds zeros only.
  method LoseFirstWord() returns (driver: Driver, rc: int)
    ensures fresh(driver) && rc == 0
    ensures var uc := PhyAt(driver.View(), PhyOf(1, 13)).uc;
      !Holds(uc.ram, [1, 2], 16) && uc.left == 2
  {
    hide OnlyDataLost, LandedWords, Holds, TakeAll, PhyAt;
    var ts: Timings := (n: nat) => Timing(if n == 43 then POLL_MAX else 0, false, 0x8000, {});
    driver := new Driver(ts);
    assert Aligned(|[1, 2]|) == 16;
    FirstLost(ts);
    assert !InTime(ts(43));
    rc := driver.WcFirmwareDownload(13, 1, [1, 2]);
  }

  lemma FirstLost(ts: Timings)
    requires forall n: nat :: ts(n) == Timing(if n == 43 then POLL_MAX else 0, false, 0x8000, {})
    ensures OnlyDataLost(ts, 0, 16)
    ensures var ws := LandedWords([1, 2], ts, 40, 0);
      |ws| == 7 && !Holds(TakeAll(ReadyUc(16), ws).ram, [1, 2], 16)
  {
    FirstWordLost(ts);
    hide LandedWords;
    ZerosTaken(ReadyUc(16), LandedWords([1, 2], ts, 40, 2));
    hide TakeAll;
    ZerosAreNotHeld();
  }

  lemma FirstWordLost(ts: Timings)
    requires forall n: nat :: ts(n) == Timing(if n == 43 then POLL_MAX else 0, false, 0x8000, {})
    ensures var ws := LandedWords([1, 2], ts, 40, 2);
      && LandedWords([1, 2], ts, 40, 0) == ws
      && |ws| == 7 && forall i | 0 <= i < |ws| :: ws[i] == 0
  {
    ZeroWords(ts, 2);
    assert Aligned(|[1, 2]|) == 16;
  }

  lemma ZerosAreNotHeld()
    ensures !Holds(Zeros(RAM_BYTES), [1, 2], 16)
  {
    assert Zeros(RAM_BYTES)[0] != [1, 2][0];
  }

  lemma {:induction false} ZeroWords(ts: Timings, idx: nat)
    requires forall n: nat :: ts(n) == Timing(if n == 43 then POLL_MAX else 0, false, 0x8000, {})
    requires 2 <= idx <= 16 && idx % 2 == 0
    ensures var ws := LandedWords([1, 2], ts, 40, idx);
      2 * |ws| == 16 - idx && forall i | 0 <= i < |ws| :: ws[i] == 0
    decreases 16 - idx
  {
    assert Aligned(|[1, 2]|) == 16;
    if idx < 16 {
      ZeroWords(ts, idx + 2);
    }
  }

  // Words of zeros leave a RAM of zeros.
  lemma {:induction false} ZerosTaken(uc: Uc, ws: seq<nat>)
    requires uc.ram == Zeros(RAM_BYTES) && forall i | 0 <= i < |ws| :: ws[i] == 0
    ensures TakeAll(uc, ws).ram == Zeros(RAM_BYTES)
    decreases |ws|
  {
    if ws != [] {
      assert Take(uc, 0).ram == Zeros(RAM_BYTES);
      ZerosTaken(Take(uc, 0), ws[1..]);
    }
  }

  lemma PutDone(ctrl: Word)
    ensures BitOf(PutInWord(ctrl, CTRL_DONE, true), CTRL_DONE)
  {
    SetOneBits(ctrl, CTRL_DONE, CTRL_DONE);
  }
}
