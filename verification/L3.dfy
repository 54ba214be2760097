/** L3 interfaces, next hops and the DEFIP route table: the hardware entries bit by bit, and the
    functions that create and destroy objects and add and delete routes, as functions of the
    used flags, the route keys and the hardware. What they guarantee is in the modules Defip,
    ForwardingChain and Netlink. */
module L3 {
  import opened Bits
  import opened BitFields
  import opened IdMaps
  import opened Macs
  import opened Transport

  const MAX_INTF: nat := 4096
  const MAX_NHOP: nat := 16384
  const MAX_DEFIP: nat := 8192

  // ----- Hardware entries -----

  function IntfWords(mac: Mac, vid: nat): (r: seq<Word>)
    ensures |r| == 4
  {
    SetField(SetField(Zeros(4), 13, 12, vid % 0x1000), 33, 48, Mac48(mac))
  }

  function IngWords(port: nat): (r: seq<Word>)
    ensures |r| == 2
  {
    SetField(SetField(Zeros(2), 0, 2, 0), 16, 7, port % 0x80)
  }

  function EgrWords(intf: nat, mac: Mac): (r: seq<Word>)
    ensures |r| == 4
  {
    SetField(SetField(SetField(Zeros(4), 0, 2, 0), 3, 12, intf % 0x1000), 15, 48, Mac48(mac))
  }

  // (uint32_t)(0xffffffff << (32 - plen)), and 0 for the default route.
  function IpMask(plen: nat): nat
    requires plen <= 32
  {
    if plen == 0 then 0 else (0xffff_ffff * Pow2(32 - plen)) % 0x1_0000_0000
  }

  // KEY0: VRF 0 | address | mode 0.
  function Key(addr: Word): nat {
    2 * addr
  }

  // MASK0: all VRF bits | address mask | mode bit.
  function KeyMask(plen: nat): nat
    requires plen <= 32
  {
    0x3ff * 0x2_0000_0000 + 2 * IpMask(plen) + 1
  }

  function DefipWords(prefix: Word, plen: nat, nhop: nat): (r: seq<Word>)
    requires plen <= 32
    ensures |r| == 8
  {
    var w := PutBit(Zeros(8), 0, true);
    SetField(SetField(SetField(w, 2, 44, Key(prefix)), 90, 44, KeyMask(plen)), 207, 14, nhop % 0x4000)
  }

  // ----- State -----

  datatype State = State(
    intfUsed: seq<bool>, nhopUsed: seq<bool>,
    defipUsed: seq<bool>, defipPrefix: seq<Word>, defipPlen: seq<nat>,
    hw: Hw)
  {
    predicate Shaped() {
      && |intfUsed| == MAX_INTF && |nhopUsed| == MAX_NHOP
      && |defipUsed| == MAX_DEFIP && |defipPrefix| == MAX_DEFIP && |defipPlen| == MAX_DEFIP
    }

    predicate HasKey(i: nat, prefix: Word, plen: int)
      requires Shaped() && i < MAX_DEFIP
    {
      defipUsed[i] && defipPrefix[i] == prefix && defipPlen[i] == plen
    }
  }

  const Initial :=
    State(Unused(MAX_INTF), Unused(MAX_NHOP), Unused(MAX_DEFIP), Zeros(MAX_DEFIP), Zeros(MAX_DEFIP), BlankHw)

  datatype Result = Result(s: State, rc: int, id: int)

  // ----- Interfaces -----

  function IntfCreateResult(s: State, f: Faults, mac: Mac, vid: nat): (r: Result)
    requires s.Shaped()
    ensures r.s.Shaped()
  {
    var id := FirstFree(s.intfUsed, 1, MAX_INTF);
    if id == -1 then Result(s, -ENOSPC, 0)
    else
      var (hw, ok) := Write(s.hw, f, EgrL3Intf, id, IntfWords(mac, vid));
      if ok then Result(s.(intfUsed := s.intfUsed[id := true], hw := hw), 0, id)
      else Result(s.(intfUsed := s.intfUsed[id := false], hw := hw), -EIO, 0)
  }

  function IntfDestroyResult(s: State, f: Faults, id: int): (r: Result)
    requires s.Shaped()
    ensures r.s.Shaped()
  {
    if id <= 0 || id >= MAX_INTF then Result(s, -EINVAL, 0)
    else
      Result(s.(intfUsed := s.intfUsed[id := false], hw := Write(s.hw, f, EgrL3Intf, id, Zeros(4)).0), 0, 0)
  }

  // ----- Next hops -----

  function EgressCreateResult(s: State, f: Faults, port: int, intf: int, mac: Mac): (r: Result)
    requires s.Shaped()
    ensures r.s.Shaped()
  {
    if port <= 0 || port > 255 then Result(s, -EINVAL, 0)
    else if intf <= 0 || intf >= MAX_INTF then Result(s, -EINVAL, 0)
    else
      var id := FirstFree(s.nhopUsed, 1, MAX_NHOP);
      if id == -1 then Result(s, -ENOSPC, 0)
      else
        var (hw1, ok1) := Write(s.hw, f, IngL3NextHop, id, IngWords(port));
        if !ok1 then Result(s.(nhopUsed := s.nhopUsed[id := false], hw := hw1), -EIO, 0)
        else
          var (hw2, ok2) := Write(hw1, f, EgrL3NextHop, id, EgrWords(intf, mac));
          if !ok2 then Result(s.(nhopUsed := s.nhopUsed[id := false], hw := hw2), -EIO, 0)
          else Result(s.(nhopUsed := s.nhopUsed[id := true], hw := hw2), 0, id)
  }

  function EgressDestroyResult(s: State, f: Faults, id: int): (r: Result)
    requires s.Shaped()
    ensures r.s.Shaped()
  {
    if id <= 0 || id >= MAX_NHOP then Result(s, -EINVAL, 0)
    else
      var hw1 := Write(s.hw, f, IngL3NextHop, id, Zeros(2)).0;
      var hw2 := Write(hw1, f, EgrL3NextHop, id, Zeros(4)).0;
      Result(s.(nhopUsed := s.nhopUsed[id := false], hw := hw2), 0, 0)
  }

  // ----- Routes -----

  datatype Route = Route(prefix: Word, plen: int, egress: int, isIpv6: bool)

  // The least slot >= i in use for the key, or -1.
  function Find(s: State, prefix: Word, plen: int, i: nat): (r: int)
    requires s.Shaped() && i <= MAX_DEFIP
    ensures r == -1 ==> forall j | i <= j < MAX_DEFIP :: !s.HasKey(j, prefix, plen)
    ensures r != -1 ==> i <= r < MAX_DEFIP && s.HasKey(r, prefix, plen)
                        && forall j | i <= j < r :: !s.HasKey(j, prefix, plen)
    decreases MAX_DEFIP - i, s
  {
    if i == MAX_DEFIP then -1
    else if s.HasKey(i, prefix, plen) then i
    else Find(s, prefix, plen, i + 1)
  }

  // The slot a route goes to: the one already holding its key, else the first unused one.
  function Slot(s: State, prefix: Word, plen: int): int
    requires s.Shaped()
  {
    var idx := Find(s, prefix, plen, 0);
    if idx != -1 then idx else FirstFree(s.defipUsed, 0, MAX_DEFIP)
  }

  function Claim(s: State, idx: nat, prefix: Word, plen: nat): (s': State)
    requires s.Shaped() && idx < MAX_DEFIP
    ensures s'.Shaped()
  {
    s.(defipUsed := s.defipUsed[idx := true],
       defipPrefix := s.defipPrefix[idx := prefix], defipPlen := s.defipPlen[idx := plen])
  }

  function RouteAddResult(s: State, f: Faults, r: Route): (res: Result)
    requires s.Shaped()
    ensures res.s.Shaped()
  {
    if r.isIpv6 then Result(s, -ENOTSUP, 0)
    else if r.plen < 0 || r.plen > 32 then Result(s, -EINVAL, 0)
    else if r.egress <= 0 || r.egress >= MAX_NHOP then Result(s, -EINVAL, 0)
    else
      var idx := Slot(s, r.prefix, r.plen);
      if idx == -1 then Result(s, -ENOSPC, 0)
      else
        var s1 := Claim(s, idx, r.prefix, r.plen);
        var (hw, ok) := Write(s.hw, f, L3Defip, idx, DefipWords(r.prefix, r.plen, r.egress));
        Result(s1.(hw := hw), if ok then 0 else -EIO, 0)
  }

  function RouteDeleteResult(s: State, f: Faults, r: Route): (res: Result)
    requires s.Shaped()
    ensures res.s.Shaped()
  {
    if r.isIpv6 then Result(s, -ENOTSUP, 0)
    else if r.plen < 0 || r.plen > 32 then Result(s, -EINVAL, 0)
    else
      var idx := Find(s, r.prefix, r.plen, 0);
      if idx == -1 then Result(s, 0, 0)
      else
        Result(s.(defipUsed := s.defipUsed[idx := false],
                  defipPrefix := s.defipPrefix[idx := 0], defipPlen := s.defipPlen[idx := 0],
                  hw := Write(s.hw, f, L3Defip, idx, Zeros(8)).0), 0, 0)
  }

  function HostAddResult(s: State, f: Faults, addr: Word, egress: int, isIpv6: bool): (res: Result)
    requires s.Shaped()
    ensures res.s.Shaped()
  {
    if isIpv6 then Result(s, -ENOTSUP, 0)
    else RouteAddResult(s, f, Route(addr, 32, egress, false))
  }

  // ----- What the entries decode to -----

  lemma IntfDecodes(mac: Mac, vid: nat)
    ensures Field(IntfWords(mac, vid), 13, 12) == vid % 0x1000
    ensures Field(IntfWords(mac, vid), 33, 48) == Mac48(mac)
  {
    Pow2Widths();
    TwoFieldsHold(Zeros(4), 13, 12, vid % 0x1000, 33, 48, Mac48(mac));
  }

  // The port survives only up to its seven bits.
  lemma IngDecodes(port: nat)
    ensures Field(IngWords(port), 16, 7) == port % 0x80
    ensures Field(IngWords(port), 16, 7) == port <==> port < 0x80
  {
    Pow2Widths();
    FieldHolds(SetField(Zeros(2), 0, 2, 0), 16, 7, port % 0x80);
  }

  lemma EgrDecodes(intf: nat, mac: Mac)
    ensures Field(EgrWords(intf, mac), 3, 12) == intf % 0x1000
    ensures Field(EgrWords(intf, mac), 15, 48) == Mac48(mac)
  {
    Pow2Widths();
    TwoFieldsHold(SetField(Zeros(4), 0, 2, 0), 3, 12, intf % 0x1000, 15, 48, Mac48(mac));
  }

  // Every bit of an interface entry and of the two next-hop entries.
  lemma IntfBits(mac: Mac, vid: nat, k: nat)
    requires k < 128
    ensures Bit(IntfWords(mac, vid), k)
         == if 13 <= k < 25 then BitOf(vid % 0x1000, k - 13)
            else if 33 <= k < 81 then BitOf(Mac48(mac), k - 33)
            else false
  {
    hide Bit, SetField, BitOf, Mac48;
    SetFieldBits(SetField(Zeros(4), 13, 12, vid % 0x1000), 33, 48, Mac48(mac), k);
    SetFieldBits(Zeros(4), 13, 12, vid % 0x1000, k);
    ZeroBit(4, k);
  }

  lemma IngBits(port: nat, k: nat)
    requires k < 64
    ensures Bit(IngWords(port), k) == if 16 <= k < 23 then BitOf(port % 0x80, k - 16) else false
  {
    hide Bit, SetField, BitOf;
    SetFieldBits(SetField(Zeros(2), 0, 2, 0), 16, 7, port % 0x80, k);
    SetFieldBits(Zeros(2), 0, 2, 0, k);
    ZeroBit(2, k);
    ZeroBits(k);
  }

  lemma EgrBits(intf: nat, mac: Mac, k: nat)
    requires k < 128
    ensures Bit(EgrWords(intf, mac), k)
         == if 3 <= k < 15 then BitOf(intf % 0x1000, k - 3)
            else if 15 <= k < 63 then BitOf(Mac48(mac), k - 15)
            else false
  {
    hide Bit, SetField, BitOf, Mac48;
    var w := SetField(Zeros(4), 0, 2, 0);
    SetFieldBits(SetField(w, 3, 12, intf % 0x1000), 15, 48, Mac48(mac), k);
    SetFieldBits(w, 3, 12, intf % 0x1000, k);
    SetFieldBits(Zeros(4), 0, 2, 0, k);
    ZeroBit(4, k);
    ZeroBits(k);
  }

  lemma DefipBits(prefix: Word, plen: nat, nhop: nat, k: nat)
    requires plen <= 32 && k < 256
    ensures Bit(DefipWords(prefix, plen, nhop), k)
         == if k == 0 then true
            else if 2 <= k < 46 then BitOf(Key(prefix), k - 2)
            else if 90 <= k < 134 then BitOf(KeyMask(plen), k - 90)
            else if 207 <= k < 221 then BitOf(nhop % 0x4000, k - 207)
            else false
  {
    hide Bit, SetField, PutBit, Key, KeyMask, BitOf;
    var w0 := PutBit(Zeros(8), 0, true);
    var w1 := SetField(w0, 2, 44, Key(prefix));
    var w2 := SetField(w1, 90, 44, KeyMask(plen));
    SetFieldBits(w2, 207, 14, nhop % 0x4000, k);
    SetFieldBits(w1, 90, 44, KeyMask(plen), k);
    SetFieldBits(w0, 2, 44, Key(prefix), k);
    PutBitBits(Zeros(8), 0, true, k);
    ZeroBit(8, k);
  }

  lemma ZeroBit(n: nat, k: nat)
    requires k < 32 * n
    ensures !Bit(Zeros(n), k)
  {
    ZeroBits(k % 32);
  }

  function NextHopIndex(e: seq<Word>): nat
    requires |e| == 8
  {
    Field(e, 207, 14)
  }

  lemma DefipNextHop(prefix: Word, plen: nat, nhop: nat)
    requires plen <= 32
    ensures NextHopIndex(DefipWords(prefix, plen, nhop)) == nhop % 0x4000
  {
    hide SetField, Key, KeyMask;
    Pow2Widths();
    var w := SetField(SetField(PutBit(Zeros(8), 0, true), 2, 44, Key(prefix)), 90, 44, KeyMask(plen));
    FieldHolds(w, 207, 14, nhop % 0x4000);
  }
}
