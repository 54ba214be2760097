/** The L2 hash table (L2_ENTRY, six-slot probing without an occupancy check) and the
    L2_USER_ENTRY slot allocator. */
module L2 {
  import opened Bits
  import opened Wrappers
  import opened BitFields
  import opened Macs
  import opened Transport

  const ENTRIES: nat := 131072
  const PROBES: nat := 6

  datatype Addr = Addr(mac: Mac, vid: nat, port: int, isStatic: bool)

  // ----- Hashing -----

  // (MAC << 16) | (VLAN << 4) | (KEY_TYPE << 1), with key type 0.
  function HashKey(mac: Mac, vid: nat): nat {
    Mac48(mac) * 0x1_0000 + (vid % 0x1000) * 16
  }

  function Home(mac: Mac, vid: nat): (h: nat)
    ensures h < ENTRIES
  {
    HashKey(mac, vid) % ENTRIES
  }

  function LowBit(mac: Mac): (b: nat)
    ensures b < 2
  {
    mac[5] % 2
  }

  lemma KeyModTable(mac48: nat, v: nat)
    requires v < 0x1000
    ensures (mac48 * 0x1_0000 + v * 16) % ENTRIES == v * 16 + (mac48 % 2) * 0x1_0000
  {
  }

  // Of the address only its lowest bit reaches the index, so homes are sixteen apart and a
  // window of six never wraps around the table.
  lemma HomeIsVlanAndLowBit(mac: Mac, vid: nat)
    ensures Home(mac, vid) == (vid % 0x1000) * 16 + LowBit(mac) * 0x1_0000
    ensures Home(mac, vid) + PROBES <= ENTRIES
  {
    KeyModTable(Mac48(mac), vid % 0x1000);
    LastByte(mac);
  }

  lemma WindowsDisjoint(mac: Mac, vid: nat, mac': Mac, vid': nat)
    requires vid % 0x1000 != vid' % 0x1000 || LowBit(mac) != LowBit(mac')
    ensures Home(mac, vid) + PROBES <= Home(mac', vid') || Home(mac', vid') + PROBES <= Home(mac, vid)
  {
    hide Home;
    HomeIsVlanAndLowBit(mac, vid);
    HomeIsVlanAndLowBit(mac', vid');
  }

  // ----- Entries -----

  function Pack(a: Addr): (ws: seq<Word>)
    ensures |ws| == 4
  {
    Limits();
    [1 + (a.vid % 0x1000) * 0x10 + Number(a.mac[..2]) * 0x1_0000,
     Number(a.mac[2..]),
     a.port % 0x80 + (if a.isStatic then 0x2000_0000 else 0),
     0]
  }

  predicate IsValid(ws: seq<Word>) {
    |ws| == 4 && ws[0] % 2 == 1
  }

  // The byte of w whose lowest bit is bit 8n.
  function ByteOf(w: Word, n: nat): Byte
    requires n < 4
  {
    if n == 0 then w % 0x100 else ByteOf(w / 0x100, n - 1)
  }

  function MacOf(ws: seq<Word>): Mac
    requires |ws| == 4
  {
    [ByteOf(ws[0], 3), ByteOf(ws[0], 2), ByteOf(ws[1], 3), ByteOf(ws[1], 2), ByteOf(ws[1], 1), ByteOf(ws[1], 0)]
  }

  function VidOf(ws: seq<Word>): nat
    requires |ws| == 4
  {
    (ws[0] / 0x10) % 0x1000
  }

  function Unpack(ws: seq<Word>): Addr
    requires |ws| == 4
  {
    Addr(MacOf(ws), VidOf(ws), ws[2] % 0x80, (ws[2] / 0x2000_0000) % 2 == 1)
  }

  function Normal(a: Addr): Addr {
    a.(vid := a.vid % 0x1000, port := a.port % 0x80)
  }

  lemma FirstWordSplits(v: nat, half: nat, w: nat)
    requires v < 0x1000 && half < 0x1_0000 && w == 1 + v * 0x10 + half * 0x1_0000
    ensures w < 0x1_0000_0000 && w % 2 == 1 && (w / 0x10) % 0x1000 == v && w / 0x100 / 0x100 == half
  {
    assert w / 0x10 == v + half * 0x1000;
    assert w / 0x100 == v / 0x10 + half * 0x100;
  }

  lemma ThirdWordSplits(port: nat, isStatic: bool, w: nat)
    requires port < 0x80 && w == port + (if isStatic then 0x2000_0000 else 0)
    ensures w % 0x80 == port && ((w / 0x2000_0000) % 2 == 1 <==> isStatic)
  {
  }

  lemma Bytes(w: Word)
    ensures ByteOf(w, 0) == w % 0x100 && ByteOf(w, 1) == w / 0x100 % 0x100
    ensures ByteOf(w, 2) == w / 0x100 / 0x100 % 0x100 && ByteOf(w, 3) == w / 0x100 / 0x100 / 0x100 % 0x100
  {
    assert ByteOf(w, 2) == ByteOf(w / 0x100, 1);
    assert ByteOf(w, 3) == ByteOf(w / 0x100, 2) == ByteOf(w / 0x100 / 0x100, 1);
  }

  // The bytes of a number of two or four bytes, last one first.
  lemma BytesOfNumber(bs: seq<Byte>, n: nat)
    requires n < |bs| <= 4 && Number(bs) < 0x1_0000_0000
    ensures ByteOf(Number(bs), n) == bs[|bs| - 1 - n]
    decreases n
  {
    hide Number;
    LastByte(bs);
    if n > 0 {
      BytesOfNumber(bs[..|bs| - 1], n - 1);
    }
  }

  lemma PackedMac(a: Addr)
    ensures MacOf(Pack(a)) == a.mac
  {
    Limits();
    hide Number, Limit;
    var m, w := a.mac, Pack(a);
    var high := Number(m[..2]);
    FirstWordSplits(a.vid % 0x1000, high, w[0]);
    BytesOfNumber(m[..2], 0);
    BytesOfNumber(m[..2], 1);
    BytesOfNumber(m[2..], 0);
    BytesOfNumber(m[2..], 1);
    BytesOfNumber(m[2..], 2);
    BytesOfNumber(m[2..], 3);
    Bytes(w[0]);
    Bytes(high);
    hide ByteOf, Pack;
    assert MacOf(w) == [m[0], m[1], m[2], m[3], m[4], m[5]] == m;
  }

  // An entry unpacks to the address it was packed from, with the VLAN cut to 12 bits and the
  // port to 7.
  lemma PackRoundTrip(a: Addr)
    ensures IsValid(Pack(a)) && Unpack(Pack(a)) == Normal(a)
  {
    hide MacOf;
    PackedMac(a);
    Limits();
    FirstWordSplits(a.vid % 0x1000, Number(a.mac[..2]), Pack(a)[0]);
    ThirdWordSplits(a.port % 0x80, a.isStatic, Pack(a)[2]);
  }

  // Nothing else is in an entry: the key type is 0, and so is what is beside the port and STATIC.
  lemma PackOtherBits(a: Addr)
    ensures Pack(a)[0] % 0x10 == 1 && Pack(a)[3] == 0
    ensures Pack(a)[2] / 0x80 == if a.isStatic then 0x40_0000 else 0
  {
    hide Number;
  }

  predicate Matches(ws: seq<Word>, mac: Mac, vid: nat) {
    IsValid(ws) && VidOf(ws) == vid % 0x1000 && MacOf(ws) == mac
  }

  // ----- Operations -----

  // Writes ws to the first slot of the window, from the given probe on, whose write goes through.
  function WriteProbing(hw: Hw, f: Faults, home: nat, ws: seq<Word>, probe: nat): (r: (Hw, bool))
    requires probe <= PROBES
    decreases PROBES - probe, hw
  {
    if probe == PROBES then (hw, false)
    else
      var (hw', ok) := Write(hw, f, L2Entry, (home + probe) % ENTRIES, ws);
      if ok then (hw', true) else WriteProbing(hw', f, home, ws, probe + 1)
  }

  function Add(hw: Hw, f: Faults, a: Addr): (Hw, int) {
    var (hw', ok) := WriteProbing(hw, f, Home(a.mac, a.vid), Pack(a), 0);
    (hw', if ok then 0 else -ENOSPC)
  }

  function Delete(hw: Hw, f: Faults, mac: Mac, vid: nat): Hw {
    WriteProbing(hw, f, Home(mac, vid), Zeros(4), 0).0
  }

  function GetProbing(hw: Hw, g: ReadOutcomes, home: nat, mac: Mac, vid: nat, probe: nat): (r: (Hw, Option<Addr>))
    requires probe <= PROBES
    decreases PROBES - probe, hw
  {
    if probe == PROBES then (hw, None)
    else
      var r := ReadAt(hw, g, L2Entry, (home + probe) % ENTRIES, hw.clock);
      if r.Some? && Matches(r.value, mac, vid) then (Tick(hw), Some(Unpack(r.value)))
      else GetProbing(Tick(hw), g, home, mac, vid, probe + 1)
  }

  function Get(hw: Hw, g: ReadOutcomes, mac: Mac, vid: nat): (Hw, Option<Addr>) {
    GetProbing(hw, g, Home(mac, vid), mac, vid, 0)
  }

  // ----- Where entries can be -----

  predicate InWindow(hw: Hw, j: nat) {
    var ws := Entry(hw, L2Entry, j);
    IsValid(ws) ==> Home(MacOf(ws), VidOf(ws)) <= j < Home(MacOf(ws), VidOf(ws)) + PROBES
  }

  ghost predicate AllInWindow(hw: Hw) {
    forall j: nat | j < ENTRIES :: InWindow(hw, j)
  }

  lemma {:induction false} ProbingKeepsWindows(hw: Hw, f: Faults, home: nat, ws: seq<Word>, probe: nat)
    requires probe <= PROBES && home + PROBES <= ENTRIES && AllInWindow(hw)
    requires IsValid(ws) ==> Home(MacOf(ws), VidOf(ws)) == home
    ensures AllInWindow(WriteProbing(hw, f, home, ws, probe).0)
    decreases PROBES - probe
  {
    hide Write, Entry, Home, MacOf, VidOf;
    if probe < PROBES {
      var (hw', ok) := Write(hw, f, L2Entry, (home + probe) % ENTRIES, ws);
      forall j: nat | j < ENTRIES ensures InWindow(hw', j) {
        assert InWindow(hw, j);
      }
      if !ok {
        ProbingKeepsWindows(hw', f, home, ws, probe + 1);
      }
    }
  }

  lemma HomeOfCutVlan(mac: Mac, vid: nat, v: nat)
    requires v == vid % 0x1000
    ensures Home(mac, v) == Home(mac, vid) && Home(mac, vid) + PROBES <= ENTRIES
  {
    hide Home, LowBit;
    HomeIsVlanAndLowBit(mac, vid);
    HomeIsVlanAndLowBit(mac, v);
  }

  lemma AddKeepsWindows(hw: Hw, f: Faults, a: Addr)
    requires AllInWindow(hw)
    ensures AllInWindow(Add(hw, f, a).0)
  {
    hide AllInWindow, WriteProbing, Home, Pack, Unpack, MacOf, VidOf, IsValid;
    PackRoundTrip(a);
    UnpackFields(Pack(a));
    HomeOfCutVlan(a.mac, a.vid, VidOf(Pack(a)));
    ProbingKeepsWindows(hw, f, Home(a.mac, a.vid), Pack(a), 0);
  }

  lemma DeleteKeepsWindows(hw: Hw, f: Faults, mac: Mac, vid: nat)
    requires AllInWindow(hw)
    ensures AllInWindow(Delete(hw, f, mac, vid))
  {
    hide AllInWindow, WriteProbing, Home;
    HomeIsVlanAndLowBit(mac, vid);
    ProbingKeepsWindows(hw, f, Home(mac, vid), Zeros(4), 0);
  }

  datatype Op = OpAdd(a: Addr) | OpDelete(mac: Mac, vid: nat)

  ghost function After(ops: seq<Op>, f: Faults): Hw {
    if ops == [] then BlankHw
    else
      var hw := After(ops[..|ops| - 1], f);
      match ops[|ops| - 1]
      case OpAdd(a) => Add(hw, f, a).0
      case OpDelete(mac, vid) => Delete(hw, f, mac, vid)
  }

  lemma {:induction false} ReachableInWindow(ops: seq<Op>, f: Faults)
    ensures AllInWindow(After(ops, f))
  {
    hide AllInWindow, Add, Delete;
    if ops == [] {
      BlankInWindow();
    } else {
      ReachableInWindow(ops[..|ops| - 1], f);
      match ops[|ops| - 1]
      case OpAdd(a) => AddKeepsWindows(After(ops[..|ops| - 1], f), f, a);
      case OpDelete(mac, vid) => DeleteKeepsWindows(After(ops[..|ops| - 1], f), f, mac, vid);
    }
  }

  lemma BlankInWindow()
    ensures AllInWindow(BlankHw)
  {
  }

  // ----- The probe against a scan of the whole table -----

  // The first matching entry at slot j or later.
  function Scan(hw: Hw, mac: Mac, vid: nat, j: nat): Option<Addr>
    requires j <= ENTRIES
    decreases ENTRIES - j, hw
  {
    if j == ENTRIES then None
    else if Matches(Entry(hw, L2Entry, j), mac, vid) then Some(Unpack(Entry(hw, L2Entry, j)))
    else Scan(hw, mac, vid, j + 1)
  }

  lemma {:induction false} ScanSkips(hw: Hw, mac: Mac, vid: nat, j: nat, k: nat)
    requires j <= k <= ENTRIES
    requires forall i: nat | j <= i < k :: !Matches(Entry(hw, L2Entry, i), mac, vid)
    ensures Scan(hw, mac, vid, j) == Scan(hw, mac, vid, k)
    decreases k - j
  {
    hide Matches, Entry;
    if j < k {
      ScanSkips(hw, mac, vid, j + 1, k);
    }
  }

  lemma {:induction false} ProbeIsScan(hw: Hw, hw': Hw, g: ReadOutcomes, mac: Mac, vid: nat, probe: nat)
    requires probe <= PROBES && Home(mac, vid) + PROBES <= ENTRIES
    requires hw'.mem == hw.mem && AllTruthful(g)
    requires forall i: nat | Home(mac, vid) + PROBES <= i < ENTRIES :: !Matches(Entry(hw, L2Entry, i), mac, vid)
    ensures GetProbing(hw', g, Home(mac, vid), mac, vid, probe).1 == Scan(hw, mac, vid, Home(mac, vid) + probe)
    decreases PROBES - probe
  {
    hide Matches, Home, Unpack;
    var j := Home(mac, vid) + probe;
    if probe == PROBES {
      ScanSkips(hw, mac, vid, j, ENTRIES);
    } else {
      assert Entry(hw', L2Entry, j) == Entry(hw, L2Entry, j);
      ProbeIsScan(hw, Tick(hw'), g, mac, vid, probe + 1);
    }
  }

  // Wherever entries sit inside their windows and reads bring them back, looking at six slots
  // finds what a first-match scan of all 131072 would find.
  lemma GetIsFullScan(hw: Hw, g: ReadOutcomes, mac: Mac, vid: nat)
    requires AllInWindow(hw) && AllTruthful(g)
    ensures Get(hw, g, mac, vid).1 == Scan(hw, mac, vid, 0)
  {
    hide Home, MacOf, VidOf, Entry;
    var home := Home(mac, vid);
    HomeIsVlanAndLowBit(mac, vid);
    HomeIsVlanAndLowBit(mac, vid % 0x1000);
    forall i: nat | i < ENTRIES && !(home <= i < home + PROBES)
      ensures !Matches(Entry(hw, L2Entry, i), mac, vid)
    {
      assert InWindow(hw, i);
    }
    ScanSkips(hw, mac, vid, 0, home);
    ProbeIsScan(hw, hw, g, mac, vid, 0);
  }

  // In every state reachable by adds and deletes under any write failures, lookups whose reads
  // bring back the entries see the whole table.
  lemma ReachableGetIsFullScan(ops: seq<Op>, f: Faults, g: ReadOutcomes, mac: Mac, vid: nat)
    requires AllTruthful(g)
    ensures Get(After(ops, f), g, mac, vid).1 == Scan(After(ops, f), mac, vid, 0)
  {
    hide AllInWindow, Get, Scan, After;
    ReachableInWindow(ops, f);
    GetIsFullScan(After(ops, f), g, mac, vid);
  }

  lemma UnpackFields(ws: seq<Word>)
    requires |ws| == 4
    ensures Unpack(ws).mac == MacOf(ws) && Unpack(ws).vid == VidOf(ws)
  {
  }

  // ----- The functions over the hardware -----

  lemma ProbeStep(hw: Hw, f: Faults, home: nat, ws: seq<Word>, probe: nat)
    requires probe < PROBES
    ensures var (hw', ok) := Write(hw, f, L2Entry, (home + probe) % ENTRIES, ws);
      WriteProbing(hw, f, home, ws, probe) == if ok then (hw', true) else WriteProbing(hw', f, home, ws, probe + 1)
  {
    hide Write;
  }

  // Try the six slots of a window in turn until a write goes through.
  method WriteFirst(asic: Asic, index: nat, words: seq<Word>) returns (ok: bool)
    modifies asic
    ensures (asic.hw, ok) == WriteProbing(old(asic.hw), asic.fails, index, words, 0)
  {
    hide Write;
    ghost var goal := WriteProbing(asic.hw, asic.fails, index, words, 0);
    for probe := 0 to PROBES
      invariant goal == WriteProbing(asic.hw, asic.fails, index, words, probe)
    {
      hide WriteProbing;
      ProbeStep(asic.hw, asic.fails, index, words, probe);
      var wrc := asic.MemWrite(L2Entry, (index + probe) % ENTRIES, words);
      if wrc == 0 {
        return true;
      }
    }
    return false;
  }

  method AddrAdd(asic: Asic, a: Addr) returns (rc: int)
    modifies asic
    ensures (asic.hw, rc) == Add(old(asic.hw), asic.fails, a)
  {
    hide WriteProbing, Pack, HashKey;
    var ok := WriteFirst(asic, HashKey(a.mac, a.vid) % ENTRIES, Pack(a));
    rc := if ok then 0 else -ENOSPC;
  }

  method AddrDelete(asic: Asic, mac: Mac, vid: nat) returns (rc: int)
    modifies asic
    ensures asic.hw == Delete(old(asic.hw), asic.fails, mac, vid) && rc == 0
  {
    hide WriteProbing, HashKey;
    var _ := WriteFirst(asic, HashKey(mac, vid) % ENTRIES, Zeros(4));
    rc := 0;
  }

  method AddrGet(asic: Asic, mac: Mac, vid: nat) returns (rc: int, out: Option<Addr>)
    modifies asic
    ensures (asic.hw, out) == Get(old(asic.hw), asic.outcomes, mac, vid)
    ensures rc == if out.None? then -ENOENT else 0
  {
    hide MacOf, VidOf, Unpack, HashKey, Entry;
    var index := HashKey(mac, vid) % ENTRIES;
    for probe := 0 to PROBES
      invariant GetProbing(old(asic.hw), asic.outcomes, index, mac, vid, 0)
             == GetProbing(asic.hw, asic.outcomes, index, mac, vid, probe)
    {
      var rrc, words := asic.MemRead(L2Entry, (index + probe) % ENTRIES);
      if rrc == 0 && IsValid(words) && VidOf(words) == vid % 0x1000 && MacOf(words) == mac {
        return 0, Some(Unpack(words));
      }
    }
    return -ENOENT, None;
  }
}
