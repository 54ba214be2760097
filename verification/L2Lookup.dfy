/** What an L2 add or delete does to lookups of its own and of other addresses, whatever writes fail. */
module L2Lookup {
  import opened Bits
  import opened Wrappers
  import opened BitFields
  import opened Macs
  import opened Transport
  import opened L2

  // The first probe, from probe on, whose write goes through when the next write is number clock.
  function Landing(f: Faults, clock: nat, probe: nat): (p: nat)
    requires probe <= PROBES
    ensures probe <= p <= PROBES
    decreases PROBES - probe, f
  {
    if probe == PROBES || !f(clock) then probe else Landing(f, clock + 1, probe + 1)
  }

  // The first match among probes lo up to hi of a window.
  function FirstMatch(hw: Hw, home: nat, mac: Mac, vid: nat, lo: nat, hi: nat): Option<Addr>
    requires lo <= hi
    decreases hi - lo, hw
  {
    if lo == hi then None
    else if Matches(Entry(hw, L2Entry, home + lo), mac, vid) then Some(Unpack(Entry(hw, L2Entry, home + lo)))
    else FirstMatch(hw, home, mac, vid, lo + 1, hi)
  }

  function Lookup(hw: Hw, mac: Mac, vid: nat): Option<Addr> {
    FirstMatch(hw, Home(mac, vid), mac, vid, 0, PROBES)
  }

  // ----- Probing -----

  // The write lands on exactly one slot of the window, or on none.
  lemma {:induction false} WriteLands(hw: Hw, f: Faults, home: nat, ws: seq<Word>, probe: nat)
    requires probe <= PROBES && home + PROBES <= ENTRIES
    ensures var (hw', ok) := WriteProbing(hw, f, home, ws, probe);
      var p := Landing(f, hw.clock, probe);
      && ok == (p < PROBES)
      && forall i: nat :: Entry(hw', L2Entry, i) == if ok && i == home + p then ws else Entry(hw, L2Entry, i)
    decreases PROBES - probe
  {
    hide Entry, Write;
    if probe < PROBES {
      var (hw', ok) := Write(hw, f, L2Entry, (home + probe) % ENTRIES, ws);
      if !ok {
        WriteLands(hw', f, home, ws, probe + 1);
      }
    }
  }

  lemma {:induction false} ProbeIsFirstMatch(
    hw: Hw, hw': Hw, g: ReadOutcomes, home: nat, mac: Mac, vid: nat, probe: nat)
    requires probe <= PROBES && home + PROBES <= ENTRIES && hw'.mem == hw.mem && AllTruthful(g)
    ensures GetProbing(hw', g, home, mac, vid, probe).1 == FirstMatch(hw, home, mac, vid, probe, PROBES)
    decreases PROBES - probe
  {
    hide Matches, Unpack;
    if probe < PROBES {
      assert Entry(hw', L2Entry, home + probe) == Entry(hw, L2Entry, home + probe);
      ProbeIsFirstMatch(hw, Tick(hw'), g, home, mac, vid, probe + 1);
    }
  }

  lemma GetIsLookup(hw: Hw, g: ReadOutcomes, mac: Mac, vid: nat)
    requires AllTruthful(g)
    ensures Get(hw, g, mac, vid).1 == Lookup(hw, mac, vid)
  {
    hide Home, FirstMatch, GetProbing;
    HomeIsVlanAndLowBit(mac, vid);
    ProbeIsFirstMatch(hw, hw, g, Home(mac, vid), mac, vid, 0);
  }

  lemma {:induction false} MatchSplits(hw: Hw, home: nat, mac: Mac, vid: nat, lo: nat, mid: nat, hi: nat)
    requires lo <= mid <= hi
    ensures FirstMatch(hw, home, mac, vid, lo, hi)
         == var early := FirstMatch(hw, home, mac, vid, lo, mid);
            if early.Some? then early else FirstMatch(hw, home, mac, vid, mid, hi)
    decreases mid - lo
  {
    hide Matches, Unpack, Entry;
    if lo < mid {
      MatchSplits(hw, home, mac, vid, lo + 1, mid, hi);
    }
  }

  lemma {:induction false} SameSlotsSameMatch(hw: Hw, hw': Hw, home: nat, mac: Mac, vid: nat, lo: nat, hi: nat)
    requires lo <= hi
    requires forall i: nat | home + lo <= i < home + hi :: Entry(hw', L2Entry, i) == Entry(hw, L2Entry, i)
    ensures FirstMatch(hw', home, mac, vid, lo, hi) == FirstMatch(hw, home, mac, vid, lo, hi)
    decreases hi - lo
  {
    hide Matches, Unpack, Entry;
    if lo < hi {
      SameSlotsSameMatch(hw, hw', home, mac, vid, lo + 1, hi);
    }
  }

  // ----- One write into a window -----

  // The lookup of a key whose window a write has landed in at probe p: an earlier match stays,
  // then comes what was written, if it is the key's, and then the rest of the window.
  lemma LookupAfterWrite(hw: Hw, hw': Hw, home: nat, ws: seq<Word>, p: nat, mac: Mac, vid: nat)
    requires home == Home(mac, vid) && p < PROBES
    requires forall i: nat :: Entry(hw', L2Entry, i) == if i == home + p then ws else Entry(hw, L2Entry, i)
    ensures Lookup(hw', mac, vid)
         == var early := FirstMatch(hw, home, mac, vid, 0, p);
            if early.Some? then early
            else if Matches(ws, mac, vid) then Some(Unpack(ws))
            else FirstMatch(hw, home, mac, vid, p + 1, PROBES)
  {
    hide Entry, Matches, Unpack, Home;
    MatchSplits(hw', home, mac, vid, 0, p, PROBES);
    SameSlotsSameMatch(hw, hw', home, mac, vid, 0, p);
    SameSlotsSameMatch(hw, hw', home, mac, vid, p + 1, PROBES);
  }

  // A write into another window does not touch the lookup.
  lemma OtherWindowKept(hw: Hw, f: Faults, mac0: Mac, vid0: nat, ws: seq<Word>, mac: Mac, vid: nat)
    requires Home(mac, vid) != Home(mac0, vid0) || Landing(f, hw.clock, 0) == PROBES
    ensures Lookup(WriteProbing(hw, f, Home(mac0, vid0), ws, 0).0, mac, vid) == Lookup(hw, mac, vid)
  {
    hide Home, Landing, FirstMatch, Entry, WriteProbing;
    HomeIsVlanAndLowBit(mac0, vid0);
    HomeIsVlanAndLowBit(mac, vid);
    var home := Home(mac, vid);
    WriteLands(hw, f, Home(mac0, vid0), ws, 0);
    SameSlotsSameMatch(hw, WriteProbing(hw, f, Home(mac0, vid0), ws, 0).0, home, mac, vid, 0, PROBES);
  }

  // The slot that an operation on (mac0, vid0) overwrites is the one a lookup of (mac, vid) finds,
  // and the rest of the window has no copy of that entry to come first.
  predicate Disturbs(hw: Hw, f: Faults, mac0: Mac, vid0: nat, mac: Mac, vid: nat) {
    var (home, p) := (Home(mac, vid), Landing(f, hw.clock, 0));
    && home == Home(mac0, vid0) && p < PROBES
    && FirstMatch(hw, home, mac, vid, 0, p) == None && Matches(Entry(hw, L2Entry, home + p), mac, vid)
    && FirstMatch(hw, home, mac, vid, p + 1, PROBES) != Some(Unpack(Entry(hw, L2Entry, home + p)))
  }

  lemma OverwriteKeepsIff(hw: Hw, f: Faults, mac0: Mac, vid0: nat, ws: seq<Word>, mac: Mac, vid: nat)
    requires !Matches(ws, mac, vid)
    ensures Lookup(WriteProbing(hw, f, Home(mac0, vid0), ws, 0).0, mac, vid) == Lookup(hw, mac, vid)
       <==> !Disturbs(hw, f, mac0, vid0, mac, vid)
  {
    hide Home, Landing, Entry, WriteProbing, Matches, Unpack;
    var (home, p) := (Home(mac, vid), Landing(f, hw.clock, 0));
    if home != Home(mac0, vid0) || p == PROBES {
      OtherWindowKept(hw, f, mac0, vid0, ws, mac, vid);
    } else {
      HomeIsVlanAndLowBit(mac, vid);
      WriteLands(hw, f, home, ws, 0);
      LookupAfterWrite(hw, WriteProbing(hw, f, home, ws, 0).0, home, ws, p, mac, vid);
      MatchSplits(hw, home, mac, vid, 0, p, PROBES);
    }
  }

  // An add reports -ENOSPC exactly when the writes of all six probes are lost.
  lemma AddReports(hw: Hw, f: Faults, a: Addr)
    ensures Add(hw, f, a).1 == -ENOSPC <==> forall p | hw.clock <= p < hw.clock + 6 :: f(p)
    ensures Add(hw, f, a).1 == 0 || Add(hw, f, a).1 == -ENOSPC
  {
    hide Home, Pack, WriteProbing;
    HomeIsVlanAndLowBit(a.mac, a.vid);
    WriteLands(hw, f, Home(a.mac, a.vid), Pack(a), 0);
    LandingIff(f, hw.clock, 0);
  }

  lemma {:induction false} LandingIff(f: Faults, clock: nat, probe: nat)
    requires probe <= PROBES
    ensures Landing(f, clock, probe) == PROBES <==> forall p | clock <= p < clock + (PROBES - probe) :: f(p)
    decreases PROBES - probe
  {
    if probe < PROBES && f(clock) {
      LandingIff(f, clock + 1, probe + 1);
    }
  }

  // ----- Adds and deletes against other addresses -----

  // There is no occupancy check. Whatever writes fail, an add leaves the lookup of another
  // address as it was exactly when the slot it lands on is not the one that lookup finds, or a
  // copy of that entry stands further on in the window.
  lemma AddKeepsOthersIff(hw: Hw, f: Faults, g: ReadOutcomes, a: Addr, mac: Mac, vid: nat)
    requires (mac, vid % 0x1000) != (a.mac, a.vid % 0x1000) && AllTruthful(g)
    ensures Get(Add(hw, f, a).0, g, mac, vid).1 == Get(hw, g, mac, vid).1
       <==> !Disturbs(hw, f, a.mac, a.vid, mac, vid)
  {
    hide Home, Landing, Entry, WriteProbing, Pack, Unpack, MacOf, VidOf, Lookup, Get, Disturbs;
    PackRoundTrip(a);
    UnpackFields(Pack(a));
    OverwriteKeepsIff(hw, f, a.mac, a.vid, Pack(a), mac, vid);
    GetIsLookup(hw, g, mac, vid);
    GetIsLookup(Add(hw, f, a).0, g, mac, vid);
  }

  // A delete does not look whose slot it clears: the same holds of it, its own address included.
  lemma DeleteKeepsIff(hw: Hw, f: Faults, g: ReadOutcomes, mac0: Mac, vid0: nat, mac: Mac, vid: nat)
    requires AllTruthful(g)
    ensures Get(Delete(hw, f, mac0, vid0), g, mac, vid).1 == Get(hw, g, mac, vid).1
       <==> !Disturbs(hw, f, mac0, vid0, mac, vid)
  {
    assert !Matches(Zeros(4), mac, vid);
    hide Home, Landing, Entry, WriteProbing, Unpack, Matches, Lookup, Get, Disturbs;
    OverwriteKeepsIff(hw, f, mac0, vid0, Zeros(4), mac, vid);
    GetIsLookup(hw, g, mac, vid);
    GetIsLookup(Delete(hw, f, mac0, vid0), g, mac, vid);
  }

  // So an address with the same VLAN and low bit that was only in the home slot is lost.
  lemma AddEvictsSameHome(hw: Hw, f: Faults, g: ReadOutcomes, a: Addr, mac: Mac, vid: nat)
    requires !f(hw.clock) && AllTruthful(g)
    requires Home(mac, vid) == Home(a.mac, a.vid) && (mac, vid % 0x1000) != (a.mac, a.vid % 0x1000)
    requires FirstMatch(hw, Home(mac, vid), mac, vid, 1, PROBES) == None
    ensures Get(Add(hw, f, a).0, g, mac, vid).1 == None
  {
    hide Home, Entry, WriteProbing, Pack, Unpack, MacOf, VidOf, Lookup, Get;
    PackRoundTrip(a);
    UnpackFields(Pack(a));
    HomeIsVlanAndLowBit(mac, vid);
    WriteLands(hw, f, Home(mac, vid), Pack(a), 0);
    LookupAfterWrite(hw, Add(hw, f, a).0, Home(mac, vid), Pack(a), 0, mac, vid);
    GetIsLookup(Add(hw, f, a).0, g, mac, vid);
  }

  // ----- Adds and deletes of the address itself -----

  // Whatever writes fail, an add that reports success is found by the next lookup exactly when no
  // slot of the window before the one it landed on holds the key, or the first that does holds
  // the same entry.
  lemma AddThenGet(hw: Hw, f: Faults, g: ReadOutcomes, a: Addr)
    requires Add(hw, f, a).1 == 0 && AllTruthful(g)
    ensures Landing(f, hw.clock, 0) < PROBES
    ensures var early := FirstMatch(hw, Home(a.mac, a.vid), a.mac, a.vid, 0, Landing(f, hw.clock, 0));
      && Get(Add(hw, f, a).0, g, a.mac, a.vid).1 == (if early.Some? then early else Some(Normal(a)))
      && (Get(Add(hw, f, a).0, g, a.mac, a.vid).1 == Some(Normal(a)) <==> early == None || early == Some(Normal(a)))
  {
    hide Home, Landing, Entry, WriteProbing, Pack, Unpack, MacOf, VidOf, Lookup, Get;
    PackRoundTrip(a);
    UnpackFields(Pack(a));
    HomeIsVlanAndLowBit(a.mac, a.vid);
    var home := Home(a.mac, a.vid);
    WriteLands(hw, f, home, Pack(a), 0);
    LookupAfterWrite(hw, Add(hw, f, a).0, home, Pack(a), Landing(f, hw.clock, 0), a.mac, a.vid);
    GetIsLookup(Add(hw, f, a).0, g, a.mac, a.vid);
  }

  // The input: an address is moved from port 1 to port 2, and the second add's first write is
  // lost. Both adds report success and the lookup still answers port 1.
  lemma StaleAddressWins(mac: Mac, vid: nat, g: ReadOutcomes)
    requires AllTruthful(g)
    ensures var f: Faults := (t: nat) => t == 1;
      var (one, two) := (Addr(mac, vid, 1, true), Addr(mac, vid, 2, true));
      var (hw1, rc1) := Add(BlankHw, f, one);
      var (hw2, rc2) := Add(hw1, f, two);
      && rc1 == 0 && rc2 == 0
      && Get(hw2, g, mac, vid).1 == Some(Normal(one)) && Normal(one) != Normal(two)
  {
    hide Home, Entry, Pack, Unpack, MacOf, VidOf, Get, GetProbing;
    var f: Faults := (t: nat) => t == 1;
    var (one, two) := (Addr(mac, vid, 1, true), Addr(mac, vid, 2, true));
    var hw1 := Add(BlankHw, f, one).0;
    PackRoundTrip(one);
    UnpackFields(Pack(one));
    HomeIsVlanAndLowBit(mac, vid);
    WriteLands(BlankHw, f, Home(mac, vid), Pack(one), 0);
    assert hw1.clock == 1 && Landing(f, 1, 0) == 1;
    WriteLands(hw1, f, Home(mac, vid), Pack(two), 0);
    AddThenGet(hw1, f, g, two);
  }

  // ----- Lookups through reads of every kind -----

  // What the read of probe p reports, in a lookup whose first read is operation number clock.
  function Probed(hw: Hw, g: ReadOutcomes, home: nat, clock: nat, p: nat): Option<seq<Word>> {
    ReadAt(hw, g, L2Entry, home + p, clock + p)
  }

  predicate ProbeMatches(hw: Hw, g: ReadOutcomes, home: nat, clock: nat, p: nat, mac: Mac, vid: nat) {
    var r := Probed(hw, g, home, clock, p);
    r.Some? && Matches(r.value, mac, vid)
  }

  // The first probe, from lo on, that reports a match.
  function FirstProbe(hw: Hw, g: ReadOutcomes, home: nat, clock: nat, mac: Mac, vid: nat, lo: nat): (p: nat)
    requires lo <= PROBES
    ensures lo <= p <= PROBES
    ensures p < PROBES ==> ProbeMatches(hw, g, home, clock, p, mac, vid)
    decreases PROBES - lo, hw
  {
    if lo == PROBES || ProbeMatches(hw, g, home, clock, lo, mac, vid) then lo
    else FirstProbe(hw, g, home, clock, mac, vid, lo + 1)
  }

  // A lookup answers with the first match that its reads report.
  lemma {:induction false} GetIsFirstProbe(
    hw: Hw, hw': Hw, g: ReadOutcomes, home: nat, clock: nat, mac: Mac, vid: nat, lo: nat)
    requires lo <= PROBES && home + PROBES <= ENTRIES && hw'.mem == hw.mem && hw'.clock == clock + lo
    ensures var p := FirstProbe(hw, g, home, clock, mac, vid, lo);
      GetProbing(hw', g, home, mac, vid, lo).1
      == if p == PROBES then None else Some(Unpack(Probed(hw, g, home, clock, p).value))
    decreases PROBES - lo
  {
    hide Matches, Unpack;
    if lo < PROBES {
      assert Entry(hw', L2Entry, home + lo) == Entry(hw, L2Entry, home + lo);
      GetIsFirstProbe(hw, Tick(hw'), g, home, clock, mac, vid, lo + 1);
    }
  }

  // The first slot of the window, from lo on, that holds a match.
  function FirstSlot(hw: Hw, home: nat, mac: Mac, vid: nat, lo: nat): (p: nat)
    requires lo <= PROBES
    ensures lo <= p <= PROBES
    ensures p < PROBES ==> Matches(Entry(hw, L2Entry, home + p), mac, vid)
    decreases PROBES - lo, hw
  {
    if lo == PROBES || Matches(Entry(hw, L2Entry, home + lo), mac, vid) then lo
    else FirstSlot(hw, home, mac, vid, lo + 1)
  }

  lemma {:induction false} LookupIsFirstSlot(hw: Hw, home: nat, mac: Mac, vid: nat, lo: nat)
    requires lo <= PROBES
    ensures var p := FirstSlot(hw, home, mac, vid, lo);
      FirstMatch(hw, home, mac, vid, lo, PROBES)
      == if p == PROBES then None else Some(Unpack(Entry(hw, L2Entry, home + p)))
    decreases PROBES - lo
  {
    hide Matches, Unpack, Entry;
    if lo < PROBES {
      LookupIsFirstSlot(hw, home, mac, vid, lo + 1);
    }
  }

  // Through reads that fail, tell the truth or are refused, a lookup gives the window's first
  // match exactly when neither the slots nor the reads have a match, or the first of each unpack
  // to the same address.
  lemma LookupIsTrueIff(hw: Hw, g: ReadOutcomes, mac: Mac, vid: nat)
    ensures var home := Home(mac, vid);
      var p := FirstSlot(hw, home, mac, vid, 0);
      var q := FirstProbe(hw, g, home, hw.clock, mac, vid, 0);
      Get(hw, g, mac, vid).1 == Lookup(hw, mac, vid)
      <==> || (p == PROBES && q == PROBES)
           || (p < PROBES && q < PROBES
               && Unpack(Probed(hw, g, home, hw.clock, q).value) == Unpack(Entry(hw, L2Entry, home + p)))
  {
    hide Home, Unpack, Entry, Matches;
    HomeIsVlanAndLowBit(mac, vid);
    GetIsFirstProbe(hw, hw, g, Home(mac, vid), hw.clock, mac, vid, 0);
    LookupIsFirstSlot(hw, Home(mac, vid), mac, vid, 0);
  }

  // No refused read brings back words that match the key.
  ghost predicate Unrelated(g: ReadOutcomes, mac: Mac, vid: nat) {
    forall t: nat | g(t).Refused? :: !Matches(Brought(g(t).words, EntryWords(L2Entry)), mac, vid)
  }

  predicate SlotMatches(hw: Hw, home: nat, i: nat, mac: Mac, vid: nat) {
    Matches(Entry(hw, L2Entry, home + i), mac, vid)
  }

  // An entry that stands once in its window is found exactly when the read of its slot is
  // truthful: a failed read of it hides it, and so does a refused one.
  lemma OnlyEntryFoundIff(hw: Hw, g: ReadOutcomes, mac: Mac, vid: nat, p: nat)
    requires p < PROBES && Unrelated(g, mac, vid) && SlotMatches(hw, Home(mac, vid), p, mac, vid)
    requires forall i: nat | i < PROBES && i != p :: !SlotMatches(hw, Home(mac, vid), i, mac, vid)
    ensures Get(hw, g, mac, vid).1
         == if g(hw.clock + p) == Truthful then Some(Unpack(Entry(hw, L2Entry, Home(mac, vid) + p))) else None
  {
    hide Home, Unpack, Entry, Matches;
    HomeIsVlanAndLowBit(mac, vid);
    var home := Home(mac, vid);
    GetIsFirstProbe(hw, hw, g, home, hw.clock, mac, vid, 0);
    forall i: nat | i < PROBES
      ensures ProbeMatches(hw, g, home, hw.clock, i, mac, vid) <==> i == p && g(hw.clock + p) == Truthful
    {
      assert SlotMatches(hw, home, i, mac, vid) <==> i == p;
      assert g(hw.clock + i).Refused? ==>
        !Matches(Brought(g(hw.clock + i).words, EntryWords(L2Entry)), mac, vid);
    }
    hide ProbeMatches;
    OnlyProbe(hw, g, home, hw.clock, mac, vid, p, g(hw.clock + p) == Truthful, 0);
  }

  lemma {:induction false} OnlyProbe(
    hw: Hw, g: ReadOutcomes, home: nat, clock: nat, mac: Mac, vid: nat, p: nat, there: bool, lo: nat)
    requires p < PROBES && lo <= PROBES && (lo <= p || !there)
    requires forall i: nat | i < PROBES :: ProbeMatches(hw, g, home, clock, i, mac, vid) <==> i == p && there
    ensures FirstProbe(hw, g, home, clock, mac, vid, lo) == if there then p else PROBES
    decreases PROBES - lo
  {
    hide ProbeMatches;
    if lo < PROBES && !ProbeMatches(hw, g, home, clock, lo, mac, vid) {
      OnlyProbe(hw, g, home, clock, mac, vid, p, there, lo + 1);
    }
  }

  // A refused read that brings back the address of its own slot matches no address that does not
  // begin with 7, so an entry in that slot is missed.
  lemma OwnAddressMatches(i: nat, rest: seq<Word>, mac: Mac, vid: nat)
    requires i < ENTRIES && Matches(Brought([BaseAddr(L2Entry) + i] + rest, EntryWords(L2Entry)), mac, vid)
    ensures mac[0] == 7
  {
    var w: nat := BaseAddr(L2Entry) + i;
    hide VidOf;
    Bytes(w);
    assert w / 0x100 / 0x100 / 0x100 == 7;
  }
}
