/** The slab arena both the rectangle map and the octree keep their records in:
    a map from positive keys to records, where 0 stands for "no record". Inserting
    takes the least positive key that is not in use. */
module Slab {

  /** Number of keys of `m` from `k` on. */
  function KeysFrom<T>(m: map<nat, T>, k: nat): set<nat>
  {
    set j | j in m.Keys && j >= k
  }

  /** The least key at or above `k` that is not in use. */
  function FreeFrom<T>(m: map<nat, T>, k: nat): (r: nat)
    ensures r >= k && r !in m
    decreases |KeysFrom(m, k)|
  {
    if k !in m then k
    else
      assert KeysFrom(m, k + 1) == KeysFrom(m, k) - {k};
      FreeFrom(m, k + 1)
  }

  /** The key the next insertion gets: the least positive key not in use. The
      first record inserted into an empty slab gets key 1. */
  function Fresh<T>(m: map<nat, T>): (k: nat)
    ensures k >= 1 && k !in m
  {
    FreeFrom(m, 1)
  }

  /** No key below the one `FreeFrom` returns is free. */
  lemma {:induction false} FreeFromLeast<T>(m: map<nat, T>, k: nat)
    ensures forall j :: k <= j < FreeFrom(m, k) ==> j in m
    decreases |KeysFrom(m, k)|
  {
    if k in m {
      assert KeysFrom(m, k + 1) == KeysFrom(m, k) - {k};
      FreeFromLeast(m, k + 1);
    }
  }

  /** Every positive key below `Fresh(m)` is in use, so the key is the least
      free one. */
  lemma FreshLeast<T>(m: map<nat, T>)
    ensures forall j :: 1 <= j < Fresh(m) ==> j in m
  {
    FreeFromLeast(m, 1);
  }

  lemma FreshOfEmpty<T>(m: map<nat, T>)
    requires m == map[]
    ensures Fresh(m) == 1
  {
  }
}
