/** The table transport under the managers. A write may fail and then leaves the entry as it was; a
    read may fail, or be refused and bring back other words; which do is given by operation number. */
module Transport {
  import opened Bits
  import opened Wrappers
  import opened BitFields

  const EIO: int := 5
  const EINVAL: int := 22
  const ENOSPC: int := 28
  const ENOENT: int := 2
  const ENOTSUP: int := 95

  datatype Table =
    | EgrL3Intf | IngL3NextHop | EgrL3NextHop | L3Defip
    | L3Ecmp | L3EcmpGroup
    | L2Entry | L2UserEntry
    | VlanIng | VlanEgr

  function BaseAddr(t: Table): nat {
    match t
    case EgrL3Intf => 0x01264000
    case IngL3NextHop => 0x0e17c000
    case EgrL3NextHop => 0x0c260000
    case L3Defip => 0x0a170000
    case L3Ecmp => 0x0e176000
    case L3EcmpGroup => 0x0e174000
    case L2Entry => 0x07120000
    case L2UserEntry => 0x06168000
    case VlanIng => 0x12168000
    case VlanEgr => 0x0d260000
  }

  function Entries(t: Table): nat {
    match t
    case EgrL3Intf => 4096
    case IngL3NextHop => 16384
    case EgrL3NextHop => 16384
    case L3Defip => 8192
    case L3Ecmp => 4096
    case L3EcmpGroup => 1024
    case L2Entry => 131072
    case L2UserEntry => 512
    case VlanIng => 4096
    case VlanEgr => 4096
  }

  function EntryWords(t: Table): nat {
    match t
    case EgrL3Intf => 4
    case IngL3NextHop => 2
    case EgrL3NextHop => 4
    case L3Defip => 8
    case L3Ecmp => 1
    case L3EcmpGroup => 7
    case L2Entry => 4
    case L2UserEntry => 5
    case VlanIng => 10
    case VlanEgr => 8
  }

  // Distinct entries of distinct tables have distinct SBUS addresses, so keying the
  // hardware state by (table, index) loses nothing.
  lemma EntryAddressesDistinct(t: Table, i: nat, t': Table, i': nat)
    requires i < Entries(t) && i' < Entries(t')
    requires BaseAddr(t) + i == BaseAddr(t') + i'
    ensures t == t' && i == i'
  {
    match t
    case EgrL3Intf => case IngL3NextHop => case EgrL3NextHop => case L3Defip => case L3Ecmp =>
    case L3EcmpGroup => case L2Entry => case L2UserEntry => case VlanIng => case VlanEgr =>
  }

  // Which transport operations fail, by the order in which they are issued.
  type Faults = nat -> bool

  datatype Hw = Hw(mem: map<(Table, nat), seq<Word>>, clock: nat)

  const BlankHw := Hw(map[], 0)

  // Tables come out of reset holding zeros.
  function Entry(hw: Hw, t: Table, i: nat): seq<Word> {
    if (t, i) in hw.mem then hw.mem[(t, i)] else Zeros(EntryWords(t))
  }

  function Write(hw: Hw, f: Faults, t: Table, i: nat, ws: seq<Word>): (r: (Hw, bool))
    ensures r.0.clock == hw.clock + 1 && r.1 == !f(hw.clock)
    ensures Entry(r.0, t, i) == if r.1 then ws else Entry(hw, t, i)
    ensures forall t', i': nat | (t', i') != (t, i) :: Entry(r.0, t', i') == Entry(hw, t', i')
  {
    if f(hw.clock) then (hw.(clock := hw.clock + 1), false)
    else (Hw(hw.mem[(t, i) := ws], hw.clock + 1), true)
  }

  // A read fails, or brings back the entry, or is refused by the target, reported as a success all
  // the same, and brings back words that are none of the entry's.
  datatype ReadOutcome = Fails | Truthful | Refused(words: seq<Word>)

  // What comes of reads, by the order in which operations are issued.
  type ReadOutcomes = nat -> ReadOutcome

  ghost predicate AllTruthful(g: ReadOutcomes) {
    forall t: nat :: g(t) == Truthful
  }

  // The n words of a buffer that words have been put into.
  function Brought(words: seq<Word>, n: nat): (ws: seq<Word>)
    ensures |ws| == n && forall k | 0 <= k < n :: ws[k] == if k < |words| then words[k] else 0
  {
    seq(n, k requires 0 <= k < n => if k < |words| then words[k] else 0)
  }

  // What a read that is operation number clock reports.
  function ReadAt(hw: Hw, g: ReadOutcomes, t: Table, i: nat, clock: nat): Option<seq<Word>> {
    match g(clock)
    case Fails => None
    case Truthful => Some(Entry(hw, t, i))
    case Refused(words) => Some(Brought(words, EntryWords(t)))
  }

  function Tick(hw: Hw): Hw {
    hw.(clock := hw.clock + 1)
  }

  class Asic {
    var hw: Hw
    const fails: Faults
    const outcomes: ReadOutcomes

    constructor (fails: Faults, outcomes: ReadOutcomes)
      ensures hw == BlankHw && this.fails == fails && this.outcomes == outcomes
    {
      this.fails := fails;
      this.outcomes := outcomes;
      hw := BlankHw;
    }

    method MemWrite(t: Table, i: nat, ws: seq<Word>) returns (rc: int)
      modifies this
      ensures (hw, rc == 0) == Write(old(hw), fails, t, i, ws)
      ensures rc == 0 || rc == -1
    {
      if fails(hw.clock) {
        hw := hw.(clock := hw.clock + 1);
        rc := -1;
      } else {
        hw := Hw(hw.mem[(t, i) := ws], hw.clock + 1);
        rc := 0;
      }
    }

    method MemRead(t: Table, i: nat) returns (rc: int, ws: seq<Word>)
      modifies this
      ensures hw == Tick(old(hw))
      ensures var r := ReadAt(old(hw), outcomes, t, i, old(hw).clock);
        rc == (if r.None? then -1 else 0) && (r.Some? ==> ws == r.value)
    {
      var r := ReadAt(hw, outcomes, t, i, hw.clock);
      hw := Tick(hw);
      match r {
        case None => return -1, [];
        case Some(words) => return 0, words;
      }
    }
  }
}
