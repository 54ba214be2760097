/** Used-maps: one flag per table entry, searched in index order. */
module IdMaps {

  function Unused(n: nat): (u: seq<bool>)
    ensures |u| == n && forall i | 0 <= i < n :: !u[i]
  {
    seq(n, _ => false)
  }

  // The least free index in [lo, hi), or -1.
  function FirstFree(taken: seq<bool>, lo: nat, hi: nat): (r: int)
    requires lo <= hi <= |taken|
    ensures r == -1 ==> forall j | lo <= j < hi :: taken[j]
    ensures r != -1 ==> lo <= r < hi && !taken[r] && forall j | lo <= j < r :: taken[j]
    decreases hi - lo, taken
  {
    if lo == hi then -1 else if !taken[lo] then lo else FirstFree(taken, lo + 1, hi)
  }

  method AllocId(used: array<bool>, start: nat) returns (id: int)
    requires start <= used.Length
    modifies used
    ensures id == FirstFree(old(used[..]), start, used.Length)
    ensures used[..] == if id == -1 then old(used[..]) else old(used[..])[id := true]
  {
    for i := start to used.Length
      invariant unchanged(used)
      invariant forall j | start <= j < i :: used[j]
    {
      if !used[i] {
        used[i] := true;
        return i;
      }
    }
    return -1;
  }

  method FreeId(used: array<bool>, id: int)
    modifies used
    ensures used[..] == if 0 < id < used.Length then old(used[..])[id := false] else old(used[..])
  {
    if id > 0 && id < used.Length {
      used[id] := false;
    }
  }
}
