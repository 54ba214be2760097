/** The L2_USER_ENTRY TCAM: packing, and the search that reads the hardware for an entry with VALID
    clear; it passes over slots that cannot be read. */
module L2User {
  import opened Bits
  import opened Wrappers
  import opened BitFields
  import opened Macs
  import opened Transport

  const SLOTS: nat := 512

  datatype UserAddr = UserAddr(mac: Mac, vid: nat, port: int, keyType: int, copyToCpu: int, bpdu: int, mask: nat)

  function Pack(a: UserAddr): (ws: seq<Word>)
    requires a.mask < 0x1_0000_0000_0000_0000
    ensures |ws| == 5
  {
    [1 + (Mac48(a.mac) % 0x8000_0000) * 2,
     (Mac48(a.mac) / 0x8000_0000) % 0x2_0000 + (a.vid % 0x1000) * 0x2_0000
       + (a.keyType % 2) * 0x2000_0000 + (a.mask % 4) * 0x4000_0000,
     (a.mask / 4) % 0x1_0000_0000,
     (a.mask / 0x4_0000_0000) % 0x8000_0000,
     (a.copyToCpu % 2) * 2 + (a.port % 0x80) * 8 + (a.bpdu % 2) * 0x400_0000]
  }

  function MacNumberOf(ws: seq<Word>): nat
    requires |ws| == 5
  {
    var high: nat := ws[1] % 0x2_0000;
    ws[0] / 2 + high * 0x8000_0000
  }

  function MaskOf(ws: seq<Word>): nat
    requires |ws| == 5
  {
    var (middle: nat, high: nat) := (ws[2], ws[3]);
    ws[1] / 0x4000_0000 + middle * 4 + high * 0x4_0000_0000
  }

  lemma KeyWordSplits(high: nat, vid: nat, key: nat, mask: nat, w: nat)
    requires high < 0x2_0000 && vid < 0x1000 && key < 2 && mask < 4
    requires w == high + vid * 0x2_0000 + key * 0x2000_0000 + mask * 0x4000_0000
    ensures w % 0x2_0000 == high && (w / 0x2_0000) % 0x1000 == vid
    ensures (w / 0x2000_0000) % 2 == key && w / 0x4000_0000 == mask
  {
    assert w / 0x2_0000 == vid + key * 0x1000 + mask * 0x2000;
  }

  lemma DataWordSplits(cpu: nat, port: nat, bpdu: nat, w: nat)
    requires cpu < 2 && port < 0x80 && bpdu < 2 && w == cpu * 2 + port * 8 + bpdu * 0x400_0000
    ensures (w / 2) % 2 == cpu && (w / 8) % 0x80 == port && w / 0x400_0000 == bpdu
  {
    assert w / 2 == cpu + port * 4 + bpdu * 0x200_0000;
    assert w / 8 == port + bpdu * 0x80_0000;
  }

  lemma MaskSplits(mask: nat)
    requires mask < 0x1_0000_0000_0000_0000
    ensures mask == mask % 4 + ((mask / 4) % 0x1_0000_0000) * 4 + ((mask / 0x4_0000_0000) % 0x8000_0000) * 0x4_0000_0000
  {
    assert mask / 4 / 0x1_0000_0000 == mask / 0x4_0000_0000;
  }

  lemma NumberSplits(v: nat)
    requires v < 0x1_0000_0000_0000
    ensures v == v % 0x8000_0000 + ((v / 0x8000_0000) % 0x2_0000) * 0x8000_0000
  {
  }

  // No bit of the address is lost.
  lemma AddressRoundTrip(a: UserAddr)
    requires a.mask < 0x1_0000_0000_0000_0000
    ensures Pack(a)[0] % 2 == 1 && MacNumberOf(Pack(a)) == Mac48(a.mac)
  {
    hide Mac48;
    NumberSplits(Mac48(a.mac));
    KeyWordSplits((Mac48(a.mac) / 0x8000_0000) % 0x2_0000, a.vid % 0x1000, a.keyType % 2, a.mask % 4, Pack(a)[1]);
  }

  // Although the 64 mask bits are spread over three words, none of them is lost.
  lemma MaskRoundTrip(a: UserAddr)
    requires a.mask < 0x1_0000_0000_0000_0000
    ensures MaskOf(Pack(a)) == a.mask
    ensures (Pack(a)[1] / 0x2_0000) % 0x1000 == a.vid % 0x1000 && (Pack(a)[1] / 0x2000_0000) % 2 == a.keyType % 2
  {
    hide Mac48;
    KeyWordSplits((Mac48(a.mac) / 0x8000_0000) % 0x2_0000, a.vid % 0x1000, a.keyType % 2, a.mask % 4, Pack(a)[1]);
    MaskSplits(a.mask);
  }

  lemma DataRoundTrip(a: UserAddr)
    requires a.mask < 0x1_0000_0000_0000_0000
    ensures var w := Pack(a)[4];
      (w / 2) % 2 == a.copyToCpu % 2 && (w / 8) % 0x80 == a.port % 0x80 && w / 0x400_0000 == a.bpdu % 2
  {
    DataWordSplits(a.copyToCpu % 2, a.port % 0x80, a.bpdu % 2, Pack(a)[4]);
  }

  // Nothing else is in an entry.
  lemma PackOtherBits(a: UserAddr)
    requires a.mask < 0x1_0000_0000_0000_0000
    ensures Pack(a)[3] < 0x8000_0000
    ensures Pack(a)[4] % 2 == 0 && (Pack(a)[4] / 4) % 2 == 0 && (Pack(a)[4] / 0x400) % 0x1_0000 == 0
    ensures Pack(a)[4] < 0x800_0000
  {
    var (cpu, port, bpdu) := (a.copyToCpu % 2, a.port % 0x80, a.bpdu % 2);
    assert Pack(a)[4] / 4 == port * 2 + bpdu * 0x100_0000;
    assert Pack(a)[4] / 0x400 == bpdu * 0x1_0000;
  }

  predicate IsValid(ws: seq<Word>) {
    |ws| > 0 && ws[0] % 2 == 1
  }

  datatype Outcome = Outcome(hw: Hw, rc: int, index: nat)

  // A read reports success and an entry with VALID clear.
  predicate LooksFree(r: Option<seq<Word>>) {
    r.Some? && !IsValid(r.value)
  }

  function AddFrom(hw: Hw, f: Faults, g: ReadOutcomes, ws: seq<Word>, i: nat): Outcome
    requires i <= SLOTS
    decreases SLOTS - i, hw
  {
    if i == SLOTS then Outcome(hw, -ENOSPC, 0)
    else if !LooksFree(ReadAt(hw, g, L2UserEntry, i, hw.clock)) then AddFrom(Tick(hw), f, g, ws, i + 1)
    else
      var (hw', ok) := Write(Tick(hw), f, L2UserEntry, i, ws);
      if ok then Outcome(hw', 0, i) else Outcome(hw', -EIO, 0)
  }

  // Slot j as the search from slot i sees it.
  predicate SeenFree(hw: Hw, g: ReadOutcomes, i: nat, j: nat)
    requires i <= j
  {
    LooksFree(ReadAt(hw, g, L2UserEntry, j, hw.clock + (j - i)))
  }

  // The search comes to slot j, sees it free, and its write goes through.
  predicate Takes(hw: Hw, f: Faults, g: ReadOutcomes, i: nat, j: nat)
    requires i <= j
  {
    && (forall k | i <= k < j :: !SeenFree(hw, g, i, k))
    && SeenFree(hw, g, i, j) && !f(hw.clock + (j - i) + 1)
  }

  // Whatever reads and writes do: a slot is overwritten exactly when it is the first that looks
  // free and its write goes through, and success names that slot.
  lemma {:induction false} AddTakesFirstThatLooksFree(
    hw: Hw, f: Faults, g: ReadOutcomes, ws: seq<Word>, i: nat, j: nat)
    requires i <= j < SLOTS
    ensures var o := AddFrom(hw, f, g, ws, i);
      && Entry(o.hw, L2UserEntry, j) == (if Takes(hw, f, g, i, j) then ws else Entry(hw, L2UserEntry, j))
      && (o.rc == 0 && o.index == j <==> Takes(hw, f, g, i, j))
    decreases SLOTS - i
  {
    hide Write, LooksFree;
    if SeenFree(hw, g, i, i) {
      assert i < j ==> !Takes(hw, f, g, i, j);
    } else {
      assert Entry(Tick(hw), L2UserEntry, j) == Entry(hw, L2UserEntry, j);
      if i == j {
        PassedSlotsKept(Tick(hw), f, g, ws, i + 1, j);
      } else {
        AddTakesFirstThatLooksFree(Tick(hw), f, g, ws, i + 1, j);
        LaterSlots(hw, Tick(hw), f, g, i, i + 1, j);
      }
    }
  }

  predicate NoneSeen(hw: Hw, g: ReadOutcomes, i: nat) {
    forall j: nat | i <= j < 512 :: !SeenFree(hw, g, i, j)
  }

  // An add is out of space exactly when no slot looks free.
  lemma {:induction false} NoSpaceIff(hw: Hw, f: Faults, g: ReadOutcomes, ws: seq<Word>, i: nat)
    requires i <= SLOTS
    ensures AddFrom(hw, f, g, ws, i).rc == -ENOSPC <==> NoneSeen(hw, g, i)
    decreases SLOTS - i
  {
    hide Write, LooksFree;
    if i < SLOTS && !SeenFree(hw, g, i, i) {
      NoSpaceIff(Tick(hw), f, g, ws, i + 1);
      LaterNoneSeen(hw, Tick(hw), f, g, i, i + 1);
    }
  }

  lemma LaterNoneSeen(hw: Hw, hw': Hw, f: Faults, g: ReadOutcomes, i: nat, i': nat)
    requires i' == i + 1 <= SLOTS && hw' == Tick(hw) && !SeenFree(hw, g, i, i)
    ensures NoneSeen(hw', g, i') <==> NoneSeen(hw, g, i)
  {
    hide SeenFree;
    forall j: nat | i' <= j < SLOTS ensures SeenFree(hw', g, i', j) == SeenFree(hw, g, i, j) {
      LaterSlots(hw, hw', f, g, i, i', j);
    }
  }

  // The rest of the search reads the slots one operation later each.
  lemma LaterSlots(hw: Hw, hw': Hw, f: Faults, g: ReadOutcomes, i: nat, i': nat, j: nat)
    requires i' == i + 1 <= j && hw' == Tick(hw) && !SeenFree(hw, g, i, i)
    ensures Takes(hw', f, g, i', j) == Takes(hw, f, g, i, j)
    ensures SeenFree(hw', g, i', j) == SeenFree(hw, g, i, j)
  {
    hide LooksFree;
    forall k | i' <= k <= j ensures SeenFree(hw', g, i', k) == SeenFree(hw, g, i, k) {
      assert Entry(hw', L2UserEntry, k) == Entry(hw, L2UserEntry, k);
    }
  }

  lemma {:induction false} PassedSlotsKept(hw: Hw, f: Faults, g: ReadOutcomes, ws: seq<Word>, i: nat, j: nat)
    requires j < i <= SLOTS
    ensures var o := AddFrom(hw, f, g, ws, i);
      Entry(o.hw, L2UserEntry, j) == Entry(hw, L2UserEntry, j) && (o.rc == 0 ==> o.index != j)
    decreases SLOTS - i
  {
    hide Write, LooksFree;
    if i < SLOTS && !LooksFree(ReadAt(hw, g, L2UserEntry, i, hw.clock)) {
      PassedSlotsKept(Tick(hw), f, g, ws, i + 1, j);
    }
  }

  // So a valid slot is safe exactly as long as the search does not come to it with a refused read
  // whose words happen to have VALID clear.
  lemma ValidSlotLostIff(hw: Hw, f: Faults, g: ReadOutcomes, ws: seq<Word>, j: nat)
    requires j < SLOTS && IsValid(Entry(hw, L2UserEntry, j)) && Entry(hw, L2UserEntry, j) != ws
    ensures Entry(AddFrom(hw, f, g, ws, 0).hw, L2UserEntry, j) != Entry(hw, L2UserEntry, j)
       <==> && (forall k | 0 <= k < j :: !SeenFree(hw, g, 0, k)) && !f(hw.clock + j + 1)
            && g(hw.clock + j).Refused? && !IsValid(Brought(g(hw.clock + j).words, EntryWords(L2UserEntry)))
  {
    hide Entry, AddFrom;
    AddTakesFirstThatLooksFree(hw, f, g, ws, 0, j);
  }

  // The input: slot 0 is valid, the target refuses to read it, and the word brought back is the
  // address of the table. The add replaces the entry and reports success.
  lemma RefusedReadLosesEntry(hw: Hw, ws: seq<Word>)
    requires IsValid(Entry(hw, L2UserEntry, 0))
    ensures var g: ReadOutcomes := (t: nat) => if t == hw.clock then Refused([BaseAddr(L2UserEntry)]) else Truthful;
      var o := AddFrom(hw, t => false, g, ws, 0);
      o.rc == 0 && o.index == 0 && Entry(o.hw, L2UserEntry, 0) == ws
  {
    var g: ReadOutcomes := (t: nat) => if t == hw.clock then Refused([BaseAddr(L2UserEntry)]) else Truthful;
    hide Entry, AddFrom;
    assert Brought([BaseAddr(L2UserEntry)], 5)[0] == BaseAddr(L2UserEntry);
    assert SeenFree(hw, g, 0, 0);
    AddTakesFirstThatLooksFree(hw, t => false, g, ws, 0, 0);
  }

  // Without refused reads an add never touches a valid slot, and on success has filled the first
  // slot that could be read and was free.
  lemma AddTakesFreeSlot(hw: Hw, f: Faults, g: ReadOutcomes, ws: seq<Word>, j: nat)
    requires j < SLOTS && forall t: nat :: !g(t).Refused?
    ensures var o := AddFrom(hw, f, g, ws, 0);
      && (IsValid(Entry(hw, L2UserEntry, j)) ==> Entry(o.hw, L2UserEntry, j) == Entry(hw, L2UserEntry, j))
      && (o.rc == 0 && o.index == j ==> !IsValid(Entry(hw, L2UserEntry, j)) && Entry(o.hw, L2UserEntry, j) == ws)
      && (o.rc == -ENOSPC ==> IsValid(Entry(hw, L2UserEntry, j)) || g(hw.clock + j) == Fails)
  {
    hide Entry, AddFrom;
    NoSpaceIff(hw, f, g, ws, 0);
    assert SeenFree(hw, g, 0, j) || !SeenFree(hw, g, 0, j);
    AddTakesFirstThatLooksFree(hw, f, g, ws, 0, j);
  }

  method EntryAdd(asic: Asic, a: UserAddr) returns (rc: int, index: nat)
    requires a.mask < 0x1_0000_0000_0000_0000
    modifies asic
    ensures Outcome(asic.hw, rc, index) == AddFrom(old(asic.hw), asic.fails, asic.outcomes, Pack(a), 0)
  {
    hide Write, Pack;
    var words := Pack(a);
    for i := 0 to SLOTS
      invariant AddFrom(old(asic.hw), asic.fails, asic.outcomes, words, 0)
             == AddFrom(asic.hw, asic.fails, asic.outcomes, words, i)
    {
      var rrc, readBack := asic.MemRead(L2UserEntry, i);
      if rrc == 0 && !IsValid(readBack) {
        var wrc := asic.MemWrite(L2UserEntry, i, words);
        if wrc != 0 {
          return -EIO, 0;
        }
        return 0, i;
      }
    }
    return -ENOSPC, 0;
  }

  method EntryDelete(asic: Asic, index: int) returns (rc: int)
    modifies asic
    ensures index < 0 || index >= 512 ==> rc == -EINVAL && asic.hw == old(asic.hw)
    ensures 0 <= index < 512 ==> (asic.hw, rc == 0) == Write(old(asic.hw), asic.fails, L2UserEntry, index, Zeros(5))
  {
    if index < 0 || index >= SLOTS {
      return -EINVAL;
    }
    rc := asic.MemWrite(L2UserEntry, index, Zeros(5));
  }
}
