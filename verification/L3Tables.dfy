/** The L3 functions as the program has them: static arrays of used flags and route keys, updated
    in place around writes to the hardware tables. Entries are packed bit by bit into a word
    buffer and written; when a write fails the entry's flag is cleared again, or, for routes,
    left set so that a retry finds its slot.

    The arrays together with the hardware are one state of module L3. Every method is proved to
    compute what that module's function for it (IntfCreateResult for IntfCreate) says: the whole
    new state, the return code and the id. What those functions guarantee over runs of operations
    is in the modules Defip and ForwardingChain. */
module L3Tables {
  import opened Bits
  import opened BitFields
  import opened IdMaps
  import opened Macs
  import opened Transport
  import opened L3

  class Tables {
    const intfUsed: array<bool>
    const nhopUsed: array<bool>
    const defipUsed: array<bool>
    const defipPrefix: array<Word>
    const defipPlen: array<nat>
    const asic: Asic

    ghost predicate Valid() {
      && intfUsed.Length == MAX_INTF && nhopUsed.Length == MAX_NHOP && defipUsed.Length == MAX_DEFIP
      && defipPrefix.Length == MAX_DEFIP && defipPlen.Length == MAX_DEFIP
      && intfUsed != nhopUsed && intfUsed != defipUsed && nhopUsed != defipUsed
      && (defipPrefix as object) != (defipPlen as object)
    }

    ghost function View(): (s: State)
      requires Valid()
      reads intfUsed, nhopUsed, defipUsed, defipPrefix, defipPlen, asic
      ensures s.Shaped()
    {
      State(intfUsed[..], nhopUsed[..], defipUsed[..], defipPrefix[..], defipPlen[..], asic.hw)
    }

    constructor (asic: Asic)
      requires asic.hw == BlankHw
      ensures Valid() && this.asic == asic && View() == Initial
      ensures fresh(intfUsed) && fresh(nhopUsed) && fresh(defipUsed) && fresh(defipPrefix) && fresh(defipPlen)
    {
      intfUsed := new bool[MAX_INTF](_ => false);
      nhopUsed := new bool[MAX_NHOP](_ => false);
      defipUsed := new bool[MAX_DEFIP](_ => false);
      defipPrefix := new Word[MAX_DEFIP](_ => 0);
      defipPlen := new nat[MAX_DEFIP](_ => 0);
      this.asic := asic;
      new;
      assert intfUsed[..] == Unused(MAX_INTF) && nhopUsed[..] == Unused(MAX_NHOP) && defipUsed[..] == Unused(MAX_DEFIP);
      assert defipPrefix[..] == Zeros(MAX_DEFIP) && defipPlen[..] == Zeros(MAX_DEFIP);
    }

    method IntfCreate(mac: Mac, vid: nat) returns (rc: int, intfId: int)
      requires Valid() && vid < 0x1_0000
      modifies intfUsed, asic
      ensures Result(View(), rc, intfId) == IntfCreateResult(old(View()), asic.fails, mac, vid)
    {
      hide Write, IntfWords;
      var id := AllocId(intfUsed, 1);
      if id < 0 {
        return -ENOSPC, 0;
      }
      var w := PackIntf(mac, vid);
      var wrc := asic.MemWrite(EgrL3Intf, id, w);
      if wrc != 0 {
        FreeId(intfUsed, id);
        assert old(intfUsed[..])[id := true][id := false] == old(intfUsed[..])[id := false];
        return -EIO, 0;
      }
      return 0, id;
    }

    method PackIntf(mac: Mac, vid: nat) returns (words: seq<Word>)
      ensures words == IntfWords(mac, vid)
    {
      hide SetField, Mac48;
      var w := new Word[4](_ => 0);
      assert w[..] == Zeros(4);
      SetBitsU64(w, 13, 12, vid % 0x1000);
      SetBitsU64(w, 33, 48, Mac48(mac));
      return w[..];
    }

    method IntfDestroy(intfId: int) returns (rc: int)
      requires Valid()
      modifies intfUsed, asic
      ensures Result(View(), rc, 0) == IntfDestroyResult(old(View()), asic.fails, intfId)
    {
      hide Write;
      if intfId <= 0 || intfId >= MAX_INTF {
        return -EINVAL;
      }
      var _ := asic.MemWrite(EgrL3Intf, intfId, Zeros(4));
      FreeId(intfUsed, intfId);
      return 0;
    }

    method EgressCreate(port: int, intfId: int, mac: Mac) returns (rc: int, egressId: int)
      requires Valid()
      modifies nhopUsed, asic
      ensures Result(View(), rc, egressId) == EgressCreateResult(old(View()), asic.fails, port, intfId, mac)
    {
      hide Write, IngWords, EgrWords;
      if port <= 0 || port > 255 {
        return -EINVAL, 0;
      }
      if intfId <= 0 || intfId >= MAX_INTF {
        return -EINVAL, 0;
      }
      var id := AllocId(nhopUsed, 1);
      if id < 0 {
        return -ENOSPC, 0;
      }
      var ingw, egrw := PackNextHop(port, intfId, mac);
      var rc1 := asic.MemWrite(IngL3NextHop, id, ingw);
      var rc2 := -1;
      if rc1 == 0 {
        rc2 := asic.MemWrite(EgrL3NextHop, id, egrw);
      }
      if rc1 != 0 || rc2 != 0 {
        FreeId(nhopUsed, id);
        assert old(nhopUsed[..])[id := true][id := false] == old(nhopUsed[..])[id := false];
        return -EIO, 0;
      }
      return 0, id;
    }

    method PackNextHop(port: nat, intfId: nat, mac: Mac) returns (ingw: seq<Word>, egrw: seq<Word>)
      ensures ingw == IngWords(port) && egrw == EgrWords(intfId, mac)
    {
      hide SetField, Mac48;
      var i := new Word[2](_ => 0);
      assert i[..] == Zeros(2);
      SetBitsU64(i, 0, 2, 0);
      SetBitsU64(i, 16, 7, port % 0x80);
      var e := new Word[4](_ => 0);
      assert e[..] == Zeros(4);
      SetBitsU64(e, 0, 2, 0);
      SetBitsU64(e, 3, 12, intfId % 0x1000);
      SetBitsU64(e, 15, 48, Mac48(mac));
      return i[..], e[..];
    }

    method EgressDestroy(egressId: int) returns (rc: int)
      requires Valid()
      modifies nhopUsed, asic
      ensures Result(View(), rc, 0) == EgressDestroyResult(old(View()), asic.fails, egressId)
    {
      hide Write;
      if egressId <= 0 || egressId >= MAX_NHOP {
        return -EINVAL;
      }
      var _ := asic.MemWrite(IngL3NextHop, egressId, Zeros(2));
      var _ := asic.MemWrite(EgrL3NextHop, egressId, Zeros(4));
      FreeId(nhopUsed, egressId);
      return 0;
    }

    method DefipFind(prefix: Word, plen: int) returns (idx: int)
      requires Valid()
      ensures idx == Find(View(), prefix, plen, 0)
    {
      hide Find;
      for i := 0 to MAX_DEFIP
        invariant forall j: nat | j < i :: !View().HasKey(j, prefix, plen)
      {
        if defipUsed[i] && defipPrefix[i] == prefix && defipPlen[i] == plen {
          assert View().HasKey(i, prefix, plen);
          return i;
        }
      }
      return -1;
    }

    method PackV4Ucast(prefix: Word, plen: nat, nhop: nat) returns (w: seq<Word>)
      requires plen <= 32
      ensures w == DefipWords(prefix, plen, nhop)
    {
      hide SetField;
      var ipMask := if plen <= 0 then 0 else (0xffff_ffff * Pow2(32 - plen)) % 0x1_0000_0000;
      var key := 2 * prefix;
      var mask := 0x3ff * 0x2_0000_0000 + 2 * ipMask + 1;
      var a := new Word[8](_ => 0);
      assert a[..] == Zeros(8);
      SetBit(a, 0, true);
      SetBitsU64(a, 2, 44, key);
      SetBitsU64(a, 90, 44, mask);
      SetBitsU64(a, 207, 14, nhop % 0x4000);
      return a[..];
    }

    method RouteAdd(route: Route) returns (rc: int)
      requires Valid()
      modifies defipUsed, defipPrefix, defipPlen, asic
      ensures Result(View(), rc, 0) == RouteAddResult(old(View()), asic.fails, route)
    {
      hide Write, DefipWords, Find;
      if route.isIpv6 {
        return -ENOTSUP;
      }
      if route.plen < 0 || route.plen > 32 {
        return -EINVAL;
      }
      if route.egress <= 0 || route.egress >= MAX_NHOP {
        return -EINVAL;
      }
      var idx := DefipFind(route.prefix, route.plen);
      if idx < 0 {
        idx := AllocId(defipUsed, 0);
        if idx < 0 {
          return -ENOSPC;
        }
        defipPrefix[idx] := route.prefix;
        defipPlen[idx] := route.plen;
      } else {
        assert old(View()).HasKey(idx, route.prefix, route.plen);
      }
      assert View() == Claim(old(View()), idx, route.prefix, route.plen);
      var w := PackV4Ucast(route.prefix, route.plen, route.egress);
      var wrc := asic.MemWrite(L3Defip, idx, w);
      return if wrc != 0 then -EIO else 0;
    }

    method RouteDelete(route: Route) returns (rc: int)
      requires Valid()
      modifies defipUsed, defipPrefix, defipPlen, asic
      ensures Result(View(), rc, 0) == RouteDeleteResult(old(View()), asic.fails, route)
    {
      hide Write, Find;
      if route.isIpv6 {
        return -ENOTSUP;
      }
      if route.plen < 0 || route.plen > 32 {
        return -EINVAL;
      }
      var idx := DefipFind(route.prefix, route.plen);
      if idx < 0 {
        return 0;
      }
      var _ := asic.MemWrite(L3Defip, idx, Zeros(8));
      defipUsed[idx] := false;
      defipPrefix[idx] := 0;
      defipPlen[idx] := 0;
      return 0;
    }

    method HostAdd(addr: Word, egress: int, isIpv6: bool) returns (rc: int)
      requires Valid()
      modifies defipUsed, defipPrefix, defipPlen, asic
      ensures Result(View(), rc, 0) == HostAddResult(old(View()), asic.fails, addr, egress, isIpv6)
    {
      if isIpv6 {
        return -ENOTSUP;
      }
      rc := RouteAdd(Route(addr, 32, egress, false));
    }
  }
}
