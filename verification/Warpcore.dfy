/** WARPcore PHY registers behind MIIM operations that may fail: a window, lanes, and Clause 45 registers. */
module Warpcore {
  import opened Bits
  import opened Microcode

  const AER_BLK: nat := 0x1f
  const AER_LANE: nat := 0x1e
  const AER_BROADCAST: nat := 0xffd0
  // The address at which the window shows the lane register.
  const LANE_ADDR: nat := 0xffde
  const MMD_CTL: nat := 13
  const MMD_DATA: nat := 14
  const POLL_MAX: nat := 2000
  // The PCS status register, of Clause 45 device 3; its bit 2 is the link.
  const PCS: nat := 3
  const PCS_STATUS: nat := 1
  const XGXS_STATUS: nat := 0x8001

  // ----- MIIM parameters -----

  // internal | (bus & 7) << 22 | (phy & 31) << 16 | data & 0xffff
  function Param(bus: nat, phy: nat, data: nat): Word {
    0x200_0000 + (bus % 8) * 0x40_0000 + (phy % 32) * 0x1_0000 + data % 0x1_0000
  }

  datatype Id = Id(bus: nat, phy: nat)

  function PhyOf(bus: nat, phy: nat): Id {
    Id(bus % 8, phy % 32)
  }

  function ParamTarget(p: Word): Id {
    var p: nat := p;
    Id((p / 0x40_0000) % 8, (p / 0x1_0000) % 32)
  }

  function ParamData(p: Word): nat {
    p % 0x1_0000
  }

  lemma ParamDecodes(bus: nat, phy: nat, data: nat)
    ensures ParamTarget(Param(bus, phy, data)) == PhyOf(bus, phy)
    ensures ParamData(Param(bus, phy, data)) == data % 0x1_0000
  {
    var b, y, d := bus % 8, phy % 32, data % 0x1_0000;
    ParamSplits(b, y, d, Param(bus, phy, data));
  }

  lemma ParamSplits(b: nat, y: nat, d: nat, p: nat)
    requires b < 8 && y < 32 && d < 0x1_0000 && p == 0x200_0000 + b * 0x40_0000 + y * 0x1_0000 + d
    ensures (p / 0x40_0000) % 8 == b && (p / 0x1_0000) % 32 == y && p % 0x1_0000 == d
  {
    DivModUnique(p, 0x40_0000, 8 + b, y * 0x1_0000 + d);
    DivModUnique(p, 0x1_0000, 0x200 + b * 0x40 + y, d);
    DivModUnique(0x200 + b * 0x40 + y, 32, 0x10 + b * 2, y);
  }

  // ----- One PHY -----

  type Regs = map<(nat, nat), nat>

  // regs is the register file proper, by lane and address; low holds Clause 22 registers below
  // 16 by lane; mmdAddr and mmd are the Clause 45 address registers and registers, by lane and
  // device; uc is the microcontroller that some registers drive; seen says, by lane, when the PCS
  // status was last read.
  datatype Phy = Phy(
    blk: nat, lane: nat, regs: Regs,
    low: Regs, mmdAddr: map<(nat, nat), nat>, mmd: map<(nat, nat, nat), nat>, uc: Uc, seen: map<nat, nat>)

  const ResetPhy := Phy(0, 0, map[], map[], map[], map[], Uc(false, 0, 0, 0, []), map[])

  function Reg(regs: Regs, lane: nat, addr: nat): nat {
    if (lane, addr) in regs then regs[(lane, addr)] else 0
  }

  function MmdAddr(p: Phy, devad: nat): nat {
    if (p.lane, devad) in p.mmdAddr then p.mmdAddr[(p.lane, devad)] else 0
  }

  function MmdReg(p: Phy, lane: nat, devad: nat, reg: nat): nat {
    if (lane, devad, reg) in p.mmd then p.mmd[(lane, devad, reg)] else 0
  }

  // The address that Clause 22 register r >= 16 shows through the window.
  function WindowAddr(blk: nat, r: nat): nat
    requires 0x10 <= r
  {
    (blk / 16) * 16 + (r - 0x10)
  }

  function PhyWrite(p: Phy, r: nat, v: nat): Phy {
    if r == AER_BLK then p.(blk := v)
    else if r >= 0x10 then
      if WindowAddr(p.blk, r) == LANE_ADDR then p.(lane := v)
      else p.(regs := p.regs[(p.lane, WindowAddr(p.blk, r)) := v], uc := UcWrite(p.uc, WindowAddr(p.blk, r), v))
    else if r == MMD_DATA then
      var ctl := Reg(p.low, p.lane, MMD_CTL);
      var devad := ctl % 32;
      if ctl / 0x4000 == 0 then p.(mmdAddr := p.mmdAddr[(p.lane, devad) := v])
      else if ctl / 0x4000 == 1 then p.(mmd := p.mmd[(p.lane, devad, MmdAddr(p, devad)) := v])
      else p
    else p.(low := p.low[(p.lane, r) := v])
  }

  function PhyRead(p: Phy, r: nat): nat {
    if r == AER_BLK then p.blk
    else if r >= 0x10 then
      if WindowAddr(p.blk, r) == LANE_ADDR then p.lane else Reg(p.regs, p.lane, WindowAddr(p.blk, r))
    else if r == MMD_DATA then
      var ctl := Reg(p.low, p.lane, MMD_CTL);
      if ctl / 0x4000 == 0 then MmdAddr(p, ctl % 32)
      else if ctl / 0x4000 == 1 then MmdReg(p, p.lane, ctl % 32, MmdAddr(p, ctl % 32))
      else 0
    else Reg(p.low, p.lane, r)
  }

  // What the chip itself drives: download status, firmware version and PLL status.
  predicate Driven(addr: nat) {
    addr == UC_DL_STATUS || addr == FW_VERSION || addr == XGXS_STATUS
  }

  // Clause 22 register r shows the PCS status.
  predicate ShowsStatus(p: Phy, r: nat) {
    var ctl := Reg(p.low, p.lane, MMD_CTL);
    r == MMD_DATA && ctl / 0x4000 == 1 && ctl % 32 == PCS && MmdAddr(p, PCS) == PCS_STATUS
  }

  function WithLink(w: nat, up: bool): nat {
    (w / 8) * 8 + (if up then 4 else 0) + w % 4
  }

  // A register as it reads while the chip drives status and the latched link.
  function ReadValue(p: Phy, r: nat, status: nat, up: bool): nat {
    if 0x10 <= r < AER_BLK && Driven(WindowAddr(p.blk, r)) then status
    else if ShowsStatus(p, r) then WithLink(PhyRead(p, r), up)
    else PhyRead(p, r)
  }

  function Seen(p: Phy, lane: nat): nat {
    if lane in p.seen then p.seen[lane] else 0
  }

  // Reading the status at operation t lets go of the latch.
  function Released(p: Phy, t: nat): Phy {
    p.(seen := p.seen[p.lane := t])
  }

  // ----- MIIM operations -----

  // DONE shows after latency polls; an operation past the last poll may still take effect.
  // status is what the registers that the chip drives show at that time, and up holds the lanes
  // whose links are up throughout it.
  datatype Timing = Timing(latency: nat, late: bool, status: nat, up: set<(Id, nat)>)

  predicate InTime(t: Timing) {
    t.latency < POLL_MAX
  }

  predicate Happens(t: Timing) {
    InTime(t) || t.late
  }

  datatype Bus = Bus(phys: map<Id, Phy>, turn: nat)

  type Timings = nat -> Timing

  function PhyAt(b: Bus, id: Id): Phy {
    if id in b.phys then b.phys[id] else ResetPhy
  }

  function MiimWrite(b: Bus, ts: Timings, id: Id, reg: nat, data: nat): (r: (Bus, bool))
    ensures r.0.turn == b.turn + 1 && r.1 == InTime(ts(b.turn))
    ensures PhyAt(r.0, id)
         == if Happens(ts(b.turn)) then PhyWrite(PhyAt(b, id), reg % 32, data % 0x1_0000) else PhyAt(b, id)
    ensures forall o | o != id :: PhyAt(r.0, o) == PhyAt(b, o)
  {
    var t := ts(b.turn);
    var phys := if Happens(t) then b.phys[id := PhyWrite(PhyAt(b, id), reg % 32, data % 0x1_0000)] else b.phys;
    (Bus(phys, b.turn + 1), InTime(t))
  }

  // The link of a lane was never down during operations from..to.
  predicate Linked(ts: Timings, id: Id, lane: nat, from: nat, to: nat) {
    forall k: nat | from <= k <= to :: (id, lane) in ts(k).up
  }

  // The link bit latches low: it shows a link that was down at any time since the last read.
  predicate LatchedUp(b: Bus, ts: Timings, id: Id) {
    var p := PhyAt(b, id);
    Linked(ts, id, p.lane, Seen(p, p.lane), b.turn)
  }

  // A read disturbs nothing but the latch.
  function MiimRead(b: Bus, ts: Timings, id: Id, reg: nat): (r: (Bus, bool, nat))
    ensures r.0.turn == b.turn + 1 && r.1 == InTime(ts(b.turn))
    ensures r.2 == ReadValue(PhyAt(b, id), reg % 32, ts(b.turn).status, LatchedUp(b, ts, id))
    ensures PhyAt(r.0, id)
         == if Happens(ts(b.turn)) && ShowsStatus(PhyAt(b, id), reg % 32) then Released(PhyAt(b, id), b.turn)
            else PhyAt(b, id)
    ensures forall o | o != id :: PhyAt(r.0, o) == PhyAt(b, o)
  {
    var p := PhyAt(b, id);
    var release := Happens(ts(b.turn)) && ShowsStatus(p, reg % 32);
    (Bus(if release then b.phys[id := Released(p, b.turn)] else b.phys, b.turn + 1),
     InTime(ts(b.turn)), ReadValue(p, reg % 32, ts(b.turn).status, LatchedUp(b, ts, id)))
  }

  // ----- Register access through the window -----

  // Point the window at a lane and block; the first failure stops it.
  function Select(b: Bus, ts: Timings, id: Id, lane: nat, block: nat): (Bus, bool) {
    var (b1, ok1) := MiimWrite(b, ts, id, AER_BLK, AER_BROADCAST);
    if !ok1 then (b1, false)
    else
      var (b2, ok2) := MiimWrite(b1, ts, id, AER_LANE, lane % 4);
      if !ok2 then (b2, false) else MiimWrite(b2, ts, id, AER_BLK, block)
  }

  function WcWrite(b: Bus, ts: Timings, id: Id, lane: nat, addr: nat, v: nat): (Bus, bool) {
    var (b1, ok) := Select(b, ts, id, lane, addr - addr % 16);
    if !ok then (b1, false) else MiimWrite(b1, ts, id, 0x10 + addr % 16, v)
  }

  function WcRead(b: Bus, ts: Timings, id: Id, lane: nat, addr: nat): (Bus, bool, nat) {
    var (b1, ok) := Select(b, ts, id, lane, addr - addr % 16);
    if !ok then (b1, false, 0) else MiimRead(b1, ts, id, 0x10 + addr % 16)
  }

  // A write that got past its selection and whose own MIIM write happened.
  predicate Lands(b: Bus, ts: Timings, id: Id, lane: nat, addr: nat) {
    var (b1, ok) := Select(b, ts, id, lane, addr - addr % 16);
    ok && Happens(ts(b1.turn))
  }

  // Reached through the window: not the block register, not the lane register.
  predicate Plain(addr: nat) {
    addr < 0x1_0000 && addr % 16 != 15 && addr != LANE_ADDR
  }

  // Selecting touches no register of the file, however far it gets, and no other PHY.
  lemma SelectEffect(b: Bus, ts: Timings, id: Id, lane: nat, block: nat)
    requires block < 0x1_0000
    ensures var (b', ok) := Select(b, ts, id, lane, block);
      && PhyAt(b', id) == PhyAt(b, id).(blk := PhyAt(b', id).blk, lane := PhyAt(b', id).lane)
      && (ok ==> PhyAt(b', id).blk == block && PhyAt(b', id).lane == lane % 4)
      && forall o | o != id :: PhyAt(b', o) == PhyAt(b, o)
  {
    hide MiimWrite, PhyAt, PhyWrite, WindowAddr;
    AerWrites(PhyAt(b, id), AER_BROADCAST);
    var (b1, ok1) := MiimWrite(b, ts, id, AER_BLK, AER_BROADCAST);
    if ok1 {
      AerWrites(PhyAt(b1, id), lane % 4);
      var (b2, ok2) := MiimWrite(b1, ts, id, AER_LANE, lane % 4);
      AerWrites(PhyAt(b2, id), block);
    }
  }

  // What the window shows of an address once its block is selected.
  lemma WindowRead(p: Phy, addr: nat, status: nat, up: bool)
    requires addr < 0x1_0000 && p.blk == addr - addr % 16
    ensures var r := (0x10 + addr % 16) % 32;
      && !ShowsStatus(p, r)
      && ReadValue(p, r, status, up)
         == if addr % 16 == 15 then p.blk else if Driven(addr) then status
            else if addr == LANE_ADDR then p.lane else Reg(p.regs, p.lane, addr)
  {
    hide Reg, MmdAddr, MmdReg, WithLink;
  }

  lemma WindowWrite(p: Phy, addr: nat, v: nat)
    requires addr < 0x1_0000 && p.blk == addr - addr % 16
    ensures PhyWrite(p, (0x10 + addr % 16) % 32, v)
         == if addr % 16 == 15 then p.(blk := v) else if addr == LANE_ADDR then p.(lane := v)
            else p.(regs := p.regs[(p.lane, addr) := v], uc := UcWrite(p.uc, addr, v))
  {
    hide Reg, MmdAddr, UcWrite;
  }

  // A write changes its own register and nothing else of the file, and only once it has been
  // selected; without late effects it lands exactly when it reports success. A write to the block
  // or lane register changes nothing in the file.
  lemma WriteRefinesFlat(b: Bus, ts: Timings, id: Id, lane: nat, addr: nat, v: nat)
    requires addr < 0x1_0000 && v < 0x1_0000
    ensures var (b', ok) := WcWrite(b, ts, id, lane, addr, v);
      var changes := Lands(b, ts, id, lane, addr) && Plain(addr);
      && PhyAt(b', id).regs == (if changes then PhyAt(b, id).regs[(lane % 4, addr) := v] else PhyAt(b, id).regs)
      && PhyAt(b', id).mmd == PhyAt(b, id).mmd
      && PhyAt(b', id).uc == (if changes then UcWrite(PhyAt(b, id).uc, addr, v) else PhyAt(b, id).uc)
      && (ok ==> Lands(b, ts, id, lane, addr))
      && (forall o | o != id :: PhyAt(b', o) == PhyAt(b, o))
  {
    hide MiimWrite, PhyAt, Select, PhyWrite, UcWrite;
    SelectEffect(b, ts, id, lane, addr - addr % 16);
    var (b1, ok) := Select(b, ts, id, lane, addr - addr % 16);
    if ok {
      WindowWrite(PhyAt(b1, id), addr, v);
    }
  }

  // A read returns its register and leaves the file, and the microcontroller, alone.
  lemma ReadRefinesFlat(b: Bus, ts: Timings, id: Id, lane: nat, addr: nat)
    requires addr < 0x1_0000
    ensures var (b', ok, v) := WcRead(b, ts, id, lane, addr);
      && (ok && Plain(addr) && !Driven(addr) ==> v == Reg(PhyAt(b, id).regs, lane % 4, addr))
      && PhyAt(b', id).regs == PhyAt(b, id).regs && PhyAt(b', id).mmd == PhyAt(b, id).mmd
      && PhyAt(b', id).uc == PhyAt(b, id).uc
      && forall o | o != id :: PhyAt(b', o) == PhyAt(b, o)
  {
    hide MiimRead, PhyAt, Select, ReadValue, ShowsStatus, LatchedUp, Reg, Happens;
    SelectEffect(b, ts, id, lane, addr - addr % 16);
    var (b1, ok) := Select(b, ts, id, lane, addr - addr % 16);
    if ok {
      WindowRead(PhyAt(b1, id), addr, ts(b1.turn).status, LatchedUp(b1, ts, id));
    }
  }

  ghost predicate Reliable(ts: Timings) {
    forall n: nat :: InTime(ts(n))
  }

  // On a reliable bus every register write reaches the microcontroller.
  lemma ReliableWrite(b: Bus, ts: Timings, id: Id, lane: nat, addr: nat, v: nat)
    requires Plain(addr) && v < 0x1_0000
    ensures var (b', ok) := WcWrite(b, ts, id, lane, addr, v);
      && (Reliable(ts) ==> ok && PhyAt(b', id).uc == UcWrite(PhyAt(b, id).uc, addr, v))
      && (forall o | o != id :: PhyAt(b', o) == PhyAt(b, o))
  {
    WriteRefinesFlat(b, ts, id, lane, addr, v);
    hide PhyAt, MiimWrite, UcWrite;
  }

  // Operations turn..turn + n - 1 are in time.
  ghost predicate Prompt(ts: Timings, turn: nat, n: nat) {
    forall k: nat | turn <= k < turn + n :: InTime(ts(k))
  }

  // A write whose selection is in time takes four operations and lands exactly when the last of
  // them happens.
  lemma PromptWrite(b: Bus, ts: Timings, id: Id, lane: nat, addr: nat, v: nat)
    requires Plain(addr) && v < 0x1_0000 && Prompt(ts, b.turn, 3)
    ensures var b' := WcWrite(b, ts, id, lane, addr, v).0;
      && b'.turn == b.turn + 4
      && PhyAt(b', id).uc
         == if Happens(ts(b.turn + 3)) then UcWrite(PhyAt(b, id).uc, addr, v) else PhyAt(b, id).uc
  {
    hide PhyAt, MiimWrite, UcWrite, Select, Happens;
    SelectTurn(b, ts, id, lane, addr - addr % 16);
    WriteRefinesFlat(b, ts, id, lane, addr, v);
  }

  // A read in time of what the chip drives returns it.
  lemma PromptRead(b: Bus, ts: Timings, id: Id, lane: nat, addr: nat)
    requires Driven(addr) && Prompt(ts, b.turn, 4)
    ensures var (b', ok, v) := WcRead(b, ts, id, lane, addr);
      ok && b'.turn == b.turn + 4 && v == ts(b.turn + 3).status
  {
    hide PhyAt, MiimWrite, MiimRead, Select, ReadValue, ShowsStatus, LatchedUp, Reg;
    SelectTurn(b, ts, id, lane, addr - addr % 16);
    SelectEffect(b, ts, id, lane, addr - addr % 16);
    var b1 := Select(b, ts, id, lane, addr - addr % 16).0;
    WindowRead(PhyAt(b1, id), addr, ts(b1.turn).status, LatchedUp(b1, ts, id));
  }

  lemma PromptReadTurn(b: Bus, ts: Timings, id: Id, lane: nat, addr: nat)
    requires Prompt(ts, b.turn, 4)
    ensures WcRead(b, ts, id, lane, addr).1 && WcRead(b, ts, id, lane, addr).0.turn == b.turn + 4
  {
    SelectTurn(b, ts, id, lane, addr - addr % 16);
    hide PhyAt, MiimWrite, MiimRead, Select;
  }

  lemma SelectTurn(b: Bus, ts: Timings, id: Id, lane: nat, block: nat)
    requires Prompt(ts, b.turn, 3)
    ensures Select(b, ts, id, lane, block).1 && Select(b, ts, id, lane, block).0.turn == b.turn + 3
  {
    hide PhyAt, MiimWrite;
  }

  // The outcome owes nothing to the window's old position.
  lemma AerIrrelevant(b: Bus, c: Bus, ts: Timings, id: Id, lane: nat, addr: nat, v: nat)
    requires Plain(addr) && v < 0x1_0000
    requires b.turn == c.turn && PhyAt(b, id).regs == PhyAt(c, id).regs
    ensures var ((b', ok), (c', ok')) := (WcWrite(b, ts, id, lane, addr, v), WcWrite(c, ts, id, lane, addr, v));
      ok == ok' && PhyAt(b', id).regs == PhyAt(c', id).regs
    ensures var ((_, ok, x), (_, ok', x')) := (WcRead(b, ts, id, lane, addr), WcRead(c, ts, id, lane, addr));
      ok == ok' && (ok && !Driven(addr) ==> x == x')
  {
    hide PhyAt, MiimWrite, Select, MiimRead, Happens, UcWrite, Reg;
    SelectTurns(b, c, ts, id, lane, addr - addr % 16);
    hide WcWrite, WcRead;
    WriteRefinesFlat(b, ts, id, lane, addr, v);
    WriteRefinesFlat(c, ts, id, lane, addr, v);
    ReadRefinesFlat(b, ts, id, lane, addr);
    ReadRefinesFlat(c, ts, id, lane, addr);
    SameVerdicts(b, c, ts, id, lane, addr, v);
  }

  lemma SelectTurns(b: Bus, c: Bus, ts: Timings, id: Id, lane: nat, block: nat)
    requires b.turn == c.turn
    ensures var ((b', ok), (c', ok')) := (Select(b, ts, id, lane, block), Select(c, ts, id, lane, block));
      ok == ok' && b'.turn == c'.turn
  {
    hide PhyAt, MiimWrite;
  }

  lemma SameVerdicts(b: Bus, c: Bus, ts: Timings, id: Id, lane: nat, addr: nat, v: nat)
    requires b.turn == c.turn
    ensures WcWrite(b, ts, id, lane, addr, v).1 == WcWrite(c, ts, id, lane, addr, v).1
    ensures WcRead(b, ts, id, lane, addr).1 == WcRead(c, ts, id, lane, addr).1
  {
    hide PhyAt, MiimWrite, MiimRead, Select;
    SelectTurns(b, c, ts, id, lane, addr - addr % 16);
  }

  // Which addresses read back what was written. An address ending in 0xF is the block register
  // and 0xFFDE the lane register, and selecting an address rewrites both.
  lemma ReadBackIff(b: Bus, ts: Timings, id: Id, lane: nat, addr: nat, v: nat)
    requires addr < 0x1_0000 && v < 0x1_0000 && !Driven(addr)
    ensures var (b1, ok) := WcWrite(b, ts, id, lane, addr, v);
      var (_, ok', x) := WcRead(b1, ts, id, lane, addr);
      ok && ok' ==> (x == v <==>
        Plain(addr) || (addr % 16 == 15 && v == addr - 15) || (addr == LANE_ADDR && v == lane % 4))
  {
    hide PhyAt, MiimWrite, MiimRead, Select, PhyWrite, ReadValue, ShowsStatus, UcWrite, LatchedUp;
    SelectEffect(b, ts, id, lane, addr - addr % 16);
    var (b1, ok) := Select(b, ts, id, lane, addr - addr % 16);
    var b2 := WcWrite(b, ts, id, lane, addr, v).0;
    SelectEffect(b2, ts, id, lane, addr - addr % 16);
    var (b3, ok') := Select(b2, ts, id, lane, addr - addr % 16);
    if ok && ok' {
      WindowWrite(PhyAt(b1, id), addr, v);
      WindowRead(PhyAt(b3, id), addr, ts(b3.turn).status, LatchedUp(b3, ts, id));
    }
  }

  // ----- Clause 45 through Clause 22 -----

  // The result of every step but the last is ignored.
  function Cl45Read(b: Bus, ts: Timings, id: Id, devad: nat, reg: nat): (r: (Bus, bool, nat))
    ensures r.0.turn == b.turn + 7 && r.1 == InTime(ts(b.turn + 6))
  {
    var b1 := MiimWrite(b, ts, id, AER_BLK, AER_BROADCAST).0;
    var b2 := MiimWrite(b1, ts, id, AER_LANE, 0).0;
    var b3 := MiimWrite(b2, ts, id, AER_BLK, 0).0;
    var b4 := MiimWrite(b3, ts, id, MMD_CTL, devad % 32).0;
    var b5 := MiimWrite(b4, ts, id, MMD_DATA, reg).0;
    var b6 := MiimWrite(b5, ts, id, MMD_CTL, 0x4000 + devad % 32).0;
    MiimRead(b6, ts, id, MMD_DATA)
  }

  predicate AllHappen(ts: Timings, turn: nat, n: nat) {
    forall k: nat | turn <= k < turn + n :: Happens(ts(k))
  }

  function Lane0(b: Bus, ts: Timings, id: Id): Bus {
    var b1 := MiimWrite(b, ts, id, AER_BLK, AER_BROADCAST).0;
    var b2 := MiimWrite(b1, ts, id, AER_LANE, 0).0;
    MiimWrite(b2, ts, id, AER_BLK, 0).0
  }

  lemma Lane0Effect(b: Bus, ts: Timings, id: Id)
    ensures var (p, p') := (PhyAt(b, id), PhyAt(Lane0(b, ts, id), id));
      && p'.low == p.low && p'.mmd == p.mmd && p'.mmdAddr == p.mmdAddr && p'.seen == p.seen
      && Lane0(b, ts, id).turn == b.turn + 3
      && (AllHappen(ts, b.turn, 3) ==> p'.lane == 0 && p'.regs == p.regs)
      && p'.regs == if Strays(b, ts, id) then p.regs[(p.lane, WindowAddr(p.blk, AER_LANE)) := 0] else p.regs
  {
    hide PhyAt, MiimWrite, PhyWrite, WindowAddr;
    var b1 := MiimWrite(b, ts, id, AER_BLK, AER_BROADCAST).0;
    AerWrites(PhyAt(b, id), AER_BROADCAST);
    AerWrites(PhyAt(b1, id), 0);
    AerWrites(PhyAt(MiimWrite(b1, ts, id, AER_LANE, 0).0, id), 0);
  }

  lemma AerWrites(p: Phy, v: nat)
    ensures PhyWrite(p, AER_BLK, v) == p.(blk := v)
    ensures PhyWrite(p, AER_LANE, v)
         == if WindowAddr(p.blk, AER_LANE) == LANE_ADDR then p.(lane := v)
            else p.(regs := p.regs[(p.lane, WindowAddr(p.blk, AER_LANE)) := v],
                    uc := UcWrite(p.uc, WindowAddr(p.blk, AER_LANE), v))
    ensures WindowAddr(AER_BROADCAST, AER_LANE) == LANE_ADDR
  {
  }

  // Registers 13 and 14 as IEEE 802.3 Annex 22D has them.
  lemma MmdSequence(p: Phy, devad: nat, reg: nat, status: nat, up: bool)
    requires devad < 32
    ensures var p3 := PhyWrite(PhyWrite(PhyWrite(p, MMD_CTL, devad), MMD_DATA, reg), MMD_CTL, 0x4000 + devad);
      && ReadValue(p3, MMD_DATA, status, up)
         == (var w := MmdReg(p, p.lane, devad, reg); if devad == PCS && reg == PCS_STATUS then WithLink(w, up) else w)
      && p3.regs == p.regs && p3.mmd == p.mmd && p3.seen == p.seen && p3.lane == p.lane
      && (ShowsStatus(p3, MMD_DATA) <==> devad == PCS && reg == PCS_STATUS)
  {
    var p1 := PhyWrite(p, MMD_CTL, devad);
    assert p1 == p.(low := p.low[(p.lane, MMD_CTL) := devad]);
    var p2 := PhyWrite(p1, MMD_DATA, reg);
    assert p2 == p1.(mmdAddr := p1.mmdAddr[(p.lane, devad) := reg]);
    var p3 := PhyWrite(p2, MMD_CTL, 0x4000 + devad);
    assert p3 == p2.(low := p2.low[(p.lane, MMD_CTL) := 0x4000 + devad]);
  }

  lemma MmdKeepsFile(p: Phy, v: nat)
    ensures PhyWrite(p, MMD_CTL, v).regs == p.regs && PhyWrite(p, MMD_DATA, v).regs == p.regs
  {
  }

  // The lane is written through a window that was never moved to the lane register.
  predicate Strays(b: Bus, ts: Timings, id: Id) {
    && !Happens(ts(b.turn)) && Happens(ts(b.turn + 1))
    && WindowAddr(PhyAt(b, id).blk, AER_LANE) != LANE_ADDR
  }

  predicate IsStatus(devad: nat, reg: nat) {
    devad % 32 == PCS && reg == PCS_STATUS
  }

  // What a read of a device's register at operation t reports of a lane, and what it does to the
  // latch.
  function Reported(p: Phy, ts: Timings, id: Id, lane: nat, devad: nat, reg: nat, t: nat): nat {
    var w := MmdReg(p, lane, devad % 32, reg);
    if IsStatus(devad, reg) then WithLink(w, Linked(ts, id, lane, Seen(p, lane), t)) else w
  }

  function SeenAfter(p: Phy, ts: Timings, lane: nat, devad: nat, reg: nat, t: nat): map<nat, nat> {
    if IsStatus(devad, reg) && Happens(ts(t)) then p.seen[lane := t] else p.seen
  }

  // When every step takes effect, the read returns the device's register of lane 0, whatever
  // lane the port is on, and leaves the register file and the device registers alone.
  lemma Cl45ReadsLaneZero(b: Bus, ts: Timings, id: Id, devad: nat, reg: nat)
    requires AllHappen(ts, b.turn, 6) && reg < 0x1_0000
    ensures var ((b', ok, v), p) := (Cl45Read(b, ts, id, devad, reg), PhyAt(b, id));
      && v == Reported(p, ts, id, 0, devad, reg, b.turn + 6)
      && PhyAt(b', id).regs == p.regs && PhyAt(b', id).mmd == p.mmd
      && PhyAt(b', id).seen == SeenAfter(p, ts, 0, devad, reg, b.turn + 6)
  {
    hide PhyAt, MiimWrite, MiimRead;
    assert AllHappen(ts, b.turn, 3);
    Lane0Effect(b, ts, id);
    var b3 := Lane0(b, ts, id);
    assert Happens(ts(b3.turn)) && Happens(ts(b3.turn + 1)) && Happens(ts(b3.turn + 2));
    hide Lane0, Strays;
    Cl45Frames(b3, ts, id, devad, reg);
    assert Cl45Read(b, ts, id, devad, reg) == Frames(b3, ts, id, devad, reg) by { Cl45Splits(b, ts, id, devad, reg); }
  }

  function Frames(b: Bus, ts: Timings, id: Id, devad: nat, reg: nat): (Bus, bool, nat) {
    var b4 := MiimWrite(b, ts, id, MMD_CTL, devad % 32).0;
    var b5 := MiimWrite(b4, ts, id, MMD_DATA, reg).0;
    var b6 := MiimWrite(b5, ts, id, MMD_CTL, 0x4000 + devad % 32).0;
    MiimRead(b6, ts, id, MMD_DATA)
  }

  lemma Cl45Splits(b: Bus, ts: Timings, id: Id, devad: nat, reg: nat)
    ensures Cl45Read(b, ts, id, devad, reg) == Frames(Lane0(b, ts, id), ts, id, devad, reg)
  {
    hide MiimWrite, MiimRead;
  }

  lemma Cl45Frames(b: Bus, ts: Timings, id: Id, devad: nat, reg: nat)
    requires Happens(ts(b.turn)) && Happens(ts(b.turn + 1)) && Happens(ts(b.turn + 2)) && reg < 0x1_0000
    ensures var ((b', ok, v), p) := (Frames(b, ts, id, devad, reg), PhyAt(b, id));
      && v == Reported(p, ts, id, p.lane, devad, reg, b.turn + 3)
      && PhyAt(b', id).regs == p.regs && PhyAt(b', id).mmd == p.mmd
      && PhyAt(b', id).seen == SeenAfter(p, ts, p.lane, devad, reg, b.turn + 3)
  {
    hide PhyAt, MiimWrite, MiimRead, PhyWrite, ReadValue, ShowsStatus, MmdReg, WithLink, Linked, Happens;
    var b4 := MiimWrite(b, ts, id, MMD_CTL, devad % 32).0;
    var b5 := MiimWrite(b4, ts, id, MMD_DATA, reg).0;
    var b6 := MiimWrite(b5, ts, id, MMD_CTL, 0x4000 + devad % 32).0;
    MmdSequence(PhyAt(b, id), devad % 32, reg, ts(b6.turn).status, LatchedUp(b6, ts, id));
  }

  // However its steps fail, the read disturbs the register file exactly when the lane write
  // strays, and then it clears register 0xE of whatever block the window was left on.
  lemma Cl45StraysIff(b: Bus, ts: Timings, id: Id, devad: nat, reg: nat)
    ensures var (p, p') := (PhyAt(b, id), PhyAt(Cl45Read(b, ts, id, devad, reg).0, id));
      p'.regs == if Strays(b, ts, id) then p.regs[(p.lane, (p.blk / 16) * 16 + 0xE) := 0] else p.regs
  {
    hide PhyAt, MiimWrite, MiimRead, Strays;
    Lane0Effect(b, ts, id);
    Cl45Splits(b, ts, id, devad, reg);
    hide Lane0, Cl45Read;
    FramesKeepFile(Lane0(b, ts, id), ts, id, devad, reg);
  }

  lemma FramesKeepFile(b: Bus, ts: Timings, id: Id, devad: nat, reg: nat)
    ensures PhyAt(Frames(b, ts, id, devad, reg).0, id).regs == PhyAt(b, id).regs
  {
    hide PhyAt, MiimWrite, MiimRead, PhyWrite, ReadValue, ShowsStatus, LatchedUp, Happens;
    var b4 := MiimWrite(b, ts, id, MMD_CTL, devad % 32).0;
    var b5 := MiimWrite(b4, ts, id, MMD_DATA, reg).0;
    MmdKeepsFile(PhyAt(b, id), devad % 32);
    MmdKeepsFile(PhyAt(b4, id), reg % 0x1_0000);
    MmdKeepsFile(PhyAt(b5, id), 0x4000 + devad % 32);
  }

  // The step that asks for data instead of the address is lost: the read succeeds and returns the
  // register number it was given.
  lemma Cl45WithoutDataFunction(b: Bus, ts: Timings, id: Id, devad: nat, reg: nat)
    requires AllHappen(ts, b.turn, 5) && !Happens(ts(b.turn + 5)) && InTime(ts(b.turn + 6)) && reg < 0x1_0000
    ensures Cl45Read(b, ts, id, devad, reg).1 && Cl45Read(b, ts, id, devad, reg).2 == reg
  {
    assert AllHappen(ts, b.turn, 3);
    var b3 := Lane0(b, ts, id);
    Lane0Effect(b, ts, id);
    assert Happens(ts(b3.turn)) && Happens(ts(b3.turn + 1));
    hide PhyAt, MiimWrite, MiimRead, Lane0, Strays;
    Cl45Splits(b, ts, id, devad, reg);
    FramesWithoutData(b3, ts, id, devad, reg);
  }

  lemma FramesWithoutData(b: Bus, ts: Timings, id: Id, devad: nat, reg: nat)
    requires Happens(ts(b.turn)) && Happens(ts(b.turn + 1)) && !Happens(ts(b.turn + 2)) && InTime(ts(b.turn + 3))
    requires reg < 0x1_0000
    ensures Frames(b, ts, id, devad, reg).1 && Frames(b, ts, id, devad, reg).2 == reg
  {
    hide PhyAt, MiimWrite, MiimRead, PhyWrite, PhyRead;
    MmdAddressReads(PhyAt(b, id), devad % 32, reg);
  }

  lemma MmdAddressReads(p: Phy, devad: nat, reg: nat)
    requires devad < 32
    ensures var p2 := PhyWrite(PhyWrite(p, MMD_CTL, devad), MMD_DATA, reg);
      PhyRead(p2, MMD_DATA) == reg && !ShowsStatus(p2, MMD_DATA)
  {
    var p1 := PhyWrite(p, MMD_CTL, devad);
    assert p1 == p.(low := p.low[(p.lane, MMD_CTL) := devad]);
    var p2 := PhyWrite(p1, MMD_DATA, reg);
    assert p2 == p1.(mmdAddr := p1.mmdAddr[(p.lane, devad) := reg]);
  }

  // ----- Runs -----

  // Park resets the block register, as the driver does after its sequences.
  datatype Op =
    | Rd(id: Id, lane: nat, addr: nat)
    | Wr(id: Id, lane: nat, addr: nat, v: nat)
    | Cl45(id: Id, devad: nat, reg: nat)
    | Park(id: Id)

  predicate Allowed(op: Op) {
    match op
    case Rd(_, _, addr) => addr < 0x1_0000
    case Wr(_, _, addr, v) => addr < 0x1_0000 && v < 0x1_0000
    case Cl45(_, _, reg) => reg < 0x1_0000
    case Park(_) => true
  }

  function Apply(b: Bus, ts: Timings, op: Op): Bus {
    match op
    case Rd(id, lane, addr) => WcRead(b, ts, id, lane, addr).0
    case Wr(id, lane, addr, v) => WcWrite(b, ts, id, lane, addr, v).0
    case Cl45(id, devad, reg) => Cl45Read(b, ts, id, devad, reg).0
    case Park(id) => MiimWrite(b, ts, id, AER_BLK, 0).0
  }

  ghost function After(ops: seq<Op>, ts: Timings): Bus {
    if ops == [] then Bus(map[], 0) else Apply(After(ops[..|ops| - 1], ts), ts, ops[|ops| - 1])
  }

  // The flat register file: each PHY's registers as the writes that landed left them, and the
  // Clause 45 reads that strayed.
  ghost function FlatAfter(ops: seq<Op>, ts: Timings, id: Id): Regs {
    if ops == [] then map[]
    else
      var regs := FlatAfter(ops[..|ops| - 1], ts, id);
      var b := After(ops[..|ops| - 1], ts);
      var op := ops[|ops| - 1];
      if op.id != id then regs
      else if op.Wr? && Lands(b, ts, id, op.lane, op.addr) && Plain(op.addr) then regs[(op.lane % 4, op.addr) := op.v]
      else if op.Cl45? && Strays(b, ts, id) then regs[(PhyAt(b, id).lane, (PhyAt(b, id).blk / 16) * 16 + 0xE) := 0]
      else regs
  }

  // Over any run, however operations fail, the registers are the flat file's.
  lemma {:induction false} RunRefinesFlat(ops: seq<Op>, ts: Timings, id: Id)
    requires forall op | op in ops :: Allowed(op)
    ensures PhyAt(After(ops, ts), id).regs == FlatAfter(ops, ts, id)
  {
    hide PhyAt, WcWrite, WcRead, MiimWrite, Lands, Cl45Read, Strays;
    if ops == [] {
      BlankPhy(id);
    } else {
      RunRefinesFlat(ops[..|ops| - 1], ts, id);
      assert ops[|ops| - 1] in ops;
      var b := After(ops[..|ops| - 1], ts);
      match ops[|ops| - 1]
      case Rd(o, lane, addr) => ReadRefinesFlat(b, ts, o, lane, addr);
      case Wr(o, lane, addr, v) => WriteRefinesFlat(b, ts, o, lane, addr, v);
      case Cl45(o, devad, reg) =>
        Cl45StraysIff(b, ts, o, devad, reg);
        Cl45KeepsOthers(b, ts, o, devad, reg, id);
      case Park(o) =>
    }
  }

  lemma Cl45KeepsOthers(b: Bus, ts: Timings, id: Id, devad: nat, reg: nat, o: Id)
    ensures o != id ==> PhyAt(Cl45Read(b, ts, id, devad, reg).0, o) == PhyAt(b, o)
  {
    hide PhyAt, MiimWrite, MiimRead;
  }

  lemma BlankPhy(id: Id)
    ensures PhyAt(Bus(map[], 0), id).regs == map[]
  {
  }
}
