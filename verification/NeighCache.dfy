/** The neighbour cache, (address, interface) -> MAC, as the array of at most 256 entries that it is. */
module NeighCache {
  import opened Bits
  import opened Macs

  const CAPACITY: nat := 256

  datatype Neigh = Neigh(ip: Word, ifindex: int, mac: Mac)

  datatype Lookup = Missing | Found(mac: Mac)

  predicate Has(e: Neigh, ip: Word, ifindex: int) {
    e.ip == ip && e.ifindex == ifindex
  }

  // The least index >= i holding the key, or -1.
  function IndexOf(c: seq<Neigh>, ip: Word, ifindex: int, i: nat): (r: int)
    requires i <= |c|
    ensures r == -1 ==> forall j | i <= j < |c| :: !Has(c[j], ip, ifindex)
    ensures r != -1 ==> i <= r < |c| && Has(c[r], ip, ifindex) && forall j | i <= j < r :: !Has(c[j], ip, ifindex)
    decreases |c| - i, c
  {
    if i == |c| then -1 else if Has(c[i], ip, ifindex) then i else IndexOf(c, ip, ifindex, i + 1)
  }

  function WithEntry(c: seq<Neigh>, ip: Word, ifindex: int, mac: Mac): seq<Neigh> {
    var i := IndexOf(c, ip, ifindex, 0);
    if i != -1 then c[i := c[i].(mac := mac)]
    else if |c| >= CAPACITY then c
    else c + [Neigh(ip, ifindex, mac)]
  }

  function LookUp(c: seq<Neigh>, ip: Word, ifindex: int): Lookup {
    var i := IndexOf(c, ip, ifindex, 0);
    if i == -1 then Missing else Found(c[i].mac)
  }

  function WithoutEntry(c: seq<Neigh>, ip: Word, ifindex: int): seq<Neigh> {
    var i := IndexOf(c, ip, ifindex, 0);
    if i == -1 then c else c[..i] + c[i + 1..]
  }

  predicate DistinctKeys(c: seq<Neigh>) {
    |c| <= CAPACITY && forall i, j | 0 <= i < j < |c| :: !Has(c[j], c[i].ip, c[i].ifindex)
  }

  lemma GetAt(c: seq<Neigh>, i: nat)
    requires DistinctKeys(c) && i < |c|
    ensures LookUp(c, c[i].ip, c[i].ifindex) == Found(c[i].mac)
  {
  }

  // A set is read back under its key and disturbs no other, unless the key is new and the cache
  // is full: then nothing changes.
  lemma SetIsMapUpdate(c: seq<Neigh>, ip: Word, ifindex: int, mac: Mac, ip': Word, ifindex': int)
    requires DistinctKeys(c)
    ensures DistinctKeys(WithEntry(c, ip, ifindex, mac))
    ensures LookUp(WithEntry(c, ip, ifindex, mac), ip', ifindex')
         == if (ip, ifindex) == (ip', ifindex') && (LookUp(c, ip, ifindex).Found? || |c| < CAPACITY) then Found(mac)
            else LookUp(c, ip', ifindex')
  {
    var c' := WithEntry(c, ip, ifindex, mac);
    var i, j := IndexOf(c, ip, ifindex, 0), IndexOf(c, ip', ifindex', 0);
    if (ip, ifindex) == (ip', ifindex') {
      if i != -1 {
        GetAt(c', i);
      } else if |c| < CAPACITY {
        GetAt(c', |c|);
      }
    } else if j != -1 {
      assert c'[j] == c[j];
      GetAt(c', j);
    } else {
      assert forall k | 0 <= k < |c'| :: !Has(c'[k], ip', ifindex');
    }
  }

  // A remove takes out its key and closes the gap without disturbing any other.
  lemma RemoveIsMapRemoval(c: seq<Neigh>, ip: Word, ifindex: int, ip': Word, ifindex': int)
    requires DistinctKeys(c)
    ensures DistinctKeys(WithoutEntry(c, ip, ifindex))
    ensures LookUp(WithoutEntry(c, ip, ifindex), ip', ifindex')
         == if (ip, ifindex) == (ip', ifindex') then Missing else LookUp(c, ip', ifindex')
  {
    var c' := WithoutEntry(c, ip, ifindex);
    var i, j := IndexOf(c, ip, ifindex, 0), IndexOf(c, ip', ifindex', 0);
    if i != -1 {
      assert forall k | 0 <= k < |c'| :: c'[k] == if k < i then c[k] else c[k + 1];
      if (ip, ifindex) == (ip', ifindex') || j == -1 {
        assert forall k | 0 <= k < |c'| :: !Has(c'[k], ip', ifindex');
      } else {
        GetAt(c', if j < i then j else j - 1);
      }
    }
  }

  // ----- The cache as a map -----

  type NeighMap = map<(Word, int), Mac>

  predicate RoomFor(m: NeighMap, ip: Word, ifindex: int) {
    (ip, ifindex) in m || |m| < CAPACITY
  }

  function MapSet(m: NeighMap, ip: Word, ifindex: int, mac: Mac): NeighMap {
    if RoomFor(m, ip, ifindex) then m[(ip, ifindex) := mac] else m
  }

  function Listed(m: NeighMap, ip: Word, ifindex: int): Lookup {
    if (ip, ifindex) in m then Found(m[(ip, ifindex)]) else Missing
  }

  // Lookups in the cache are those in the map, and the cache has no entry more.
  ghost predicate Represents(c: seq<Neigh>, m: NeighMap) {
    && DistinctKeys(c) && |m| == |c|
    && forall ip: Word, ifindex: int :: LookUp(c, ip, ifindex) == Listed(m, ip, ifindex)
  }

  lemma SetRepresents(c: seq<Neigh>, m: NeighMap, ip: Word, ifindex: int, mac: Mac)
    requires Represents(c, m)
    ensures Represents(WithEntry(c, ip, ifindex, mac), MapSet(m, ip, ifindex, mac))
  {
    var c' := WithEntry(c, ip, ifindex, mac);
    assert LookUp(c, ip, ifindex) == Listed(m, ip, ifindex);
    assert |MapSet(m, ip, ifindex, mac)| == |c'|;
    SetIsMapUpdate(c, ip, ifindex, mac, ip, ifindex);
    hide LookUp, WithEntry, DistinctKeys;
    forall ip': Word, ifindex': int
      ensures LookUp(c', ip', ifindex') == Listed(MapSet(m, ip, ifindex, mac), ip', ifindex')
    {
      SetIsMapUpdate(c, ip, ifindex, mac, ip', ifindex');
      assert LookUp(c, ip', ifindex') == Listed(m, ip', ifindex');
    }
  }

  lemma RemoveRepresents(c: seq<Neigh>, m: NeighMap, ip: Word, ifindex: int)
    requires Represents(c, m)
    ensures Represents(WithoutEntry(c, ip, ifindex), m - {(ip, ifindex)})
  {
    var c' := WithoutEntry(c, ip, ifindex);
    assert LookUp(c, ip, ifindex) == Listed(m, ip, ifindex);
    SmallerMap(m, ip, ifindex);
    assert |m - {(ip, ifindex)}| == |c'|;
    RemoveIsMapRemoval(c, ip, ifindex, ip, ifindex);
    hide LookUp, WithoutEntry, DistinctKeys;
    forall ip': Word, ifindex': int
      ensures LookUp(c', ip', ifindex') == Listed(m - {(ip, ifindex)}, ip', ifindex')
    {
      RemoveIsMapRemoval(c, ip, ifindex, ip', ifindex');
      assert LookUp(c, ip', ifindex') == Listed(m, ip', ifindex');
    }
  }

  lemma SmallerMap(m: NeighMap, ip: Word, ifindex: int)
    ensures |m - {(ip, ifindex)}| == if (ip, ifindex) in m then |m| - 1 else |m|
  {
    var rest := m - {(ip, ifindex)};
    if (ip, ifindex) in m {
      assert m == rest[(ip, ifindex) := m[(ip, ifindex)]];
    } else {
      assert m == rest;
    }
  }

  class Cache {
    const entries: array<Neigh>
    var count: nat

    ghost predicate Valid()
      reads this
    {
      entries.Length == CAPACITY && count <= CAPACITY
    }

    ghost function View(): (c: seq<Neigh>)
      requires Valid()
      reads this, entries
      ensures |c| == count
    {
      entries[..count]
    }

    constructor ()
      ensures Valid() && fresh(entries) && View() == []
    {
      entries := new Neigh[CAPACITY](_ => Neigh(0, 0, [0, 0, 0, 0, 0, 0]));
      count := 0;
    }

    method Find(ip: Word, ifindex: int) returns (i: int)
      requires Valid()
      ensures i == IndexOf(View(), ip, ifindex, 0)
    {
      for k := 0 to count
        invariant forall j | 0 <= j < k :: !Has(entries[j], ip, ifindex)
      {
        if entries[k].ip == ip && entries[k].ifindex == ifindex {
          assert Has(View()[k], ip, ifindex);
          return k;
        }
      }
      return -1;
    }

    method Set(ip: Word, ifindex: int, mac: Mac)
      requires Valid()
      modifies this, entries
      ensures Valid() && View() == WithEntry(old(View()), ip, ifindex, mac)
    {
      var i := Find(ip, ifindex);
      if i >= 0 {
        entries[i] := entries[i].(mac := mac);
        return;
      }
      if count >= CAPACITY {
        return;
      }
      entries[count] := Neigh(ip, ifindex, mac);
      count := count + 1;
    }

    method Get(ip: Word, ifindex: int) returns (r: Lookup)
      requires Valid()
      ensures r == LookUp(View(), ip, ifindex)
    {
      var i := Find(ip, ifindex);
      return if i < 0 then Missing else Found(entries[i].mac);
    }

    // memmove of the tail over the entry at i.
    method CloseGap(i: nat)
      requires Valid() && i < count
      modifies entries
      ensures entries[..count - 1] == old(entries[..i]) + old(entries[i + 1..count])
    {
      for k := i to count - 1
        invariant forall j | 0 <= j < CAPACITY ::
          entries[j] == if i <= j < k then old(entries[j + 1]) else old(entries[j])
      {
        entries[k] := entries[k + 1];
      }
    }

    method Remove(ip: Word, ifindex: int)
      requires Valid()
      modifies this, entries
      ensures Valid() && View() == WithoutEntry(old(View()), ip, ifindex)
    {
      hide IndexOf;
      var i := Find(ip, ifindex);
      if i < 0 {
        return;
      }
      CloseGap(i);
      count := count - 1;
    }
  }
}
