// The dirty marks of cg/src/octree.rs: the per-cell mask of slots that may
// have to be split or merged (`set_dirty`) and the tree's queue of dirty
// cells, one vector per layer with a count and a lowest layer
// (`set_tree_dirty`).
module OctreeDirty {
  import opened OctreeState

  /// `set_dirty`: the mask with bit `index` set, and `(layer, rid)` when the
  /// mask was clean before, `(0, 0)` otherwise.
  function SetDirty(mask: bv8, index: nat, layer: nat, rid: nat): (r: (bv8, (nat, nat)))
    requires index < 8
    ensures r.0 & Bit(index) == Bit(index)
    ensures r.0 & mask == mask
    ensures r.0 & !(mask | Bit(index)) == 0
    ensures r.1 != (0, 0) ==> mask == 0 && r.1 == (layer, rid)
    ensures mask == 0 && rid != 0 ==> r.1 == (layer, rid)
  {
    (mask | Bit(index), if mask == 0 then (layer, rid) else (0, 0))
  }

  /// A slot marked by `set_dirty` is reported once per cell: a second mark
  /// on the same cell reports nothing.
  lemma SetDirtyOnce(mask: bv8, i: nat, j: nat, layer: nat, rid: nat)
    requires i < 8 && j < 8
    ensures SetDirty(SetDirty(mask, i, layer, rid).0, j, layer, rid).1 == (0, 0)
  {
    var m := SetDirty(mask, i, layer, rid).0;
    assert m & Bit(i) == Bit(i);
    assert Bit(i) != 0 by {
      assert i == 0 || i == 1 || i == 2 || i == 3 || i == 4 || i == 5 || i == 6 || i == 7;
    }
    assert m != 0;
  }

  /// Appending an empty vector adds nothing to the queue's size.
  lemma SumLensPad(q: seq<seq<nat>>)
    ensures SumLens(q + [[]]) == SumLens(q)
  {
    assert (q + [[]])[..|q|] == q;
  }

  /// Replacing one vector of the queue.
  lemma {:induction false} SumLensUpdate(q: seq<seq<nat>>, i: nat, s: seq<nat>)
    requires i < |q|
    ensures SumLens(q[i := s]) == SumLens(q) - |q[i]| + |s|
    decreases |q|
  {
    var q' := q[i := s];
    if i == |q| - 1 {
      assert q'[..|q'| - 1] == q[..|q| - 1];
    } else {
      assert q'[..|q'| - 1] == q[..|q| - 1][i := s];
      SumLensUpdate(q[..|q| - 1], i, s);
    }
  }

  /// A queue of size 0 holds only empty vectors.
  lemma {:induction false} SumLensZero(q: seq<seq<nat>>)
    requires SumLens(q) == 0
    ensures forall i | 0 <= i < |q| :: q[i] == []
    decreases |q|
  {
    if q != [] {
      SumLensZero(q[..|q| - 1]);
      forall i | 0 <= i < |q| ensures q[i] == [] {
        if i < |q| - 1 {
          assert q[i] == q[..|q| - 1][i];
        }
      }
    }
  }

  /// A queue of empty vectors has size 0.
  lemma {:induction false} SumLensEmpty(q: seq<seq<nat>>)
    requires forall i | 0 <= i < |q| :: q[i] == []
    ensures SumLens(q) == 0
    decreases |q|
  {
    if q != [] {
      SumLensEmpty(q[..|q| - 1]);
    }
  }

  /// A queue with a non-empty vector has a positive size.
  lemma SumLensPositive(q: seq<seq<nat>>, i: nat)
    requires i < |q| && q[i] != []
    ensures SumLens(q) > 0
  {
    if SumLens(q) == 0 {
      SumLensZero(q);
    }
  }

  /// `set_tree_dirty`: nothing for `rid == 0`; otherwise the count grows by
  /// one, the lowest layer drops to `layer` if needed, the queue is padded
  /// with empty vectors up to `layer` and `rid` is appended to vector `layer`.
  method SetTreeDirty(q: seq<seq<nat>>, count: nat, min: nat, layer: nat, rid: nat)
    returns (q': seq<seq<nat>>, count': nat, min': nat)
    ensures rid == 0 ==> q' == q && count' == count && min' == min
    ensures rid != 0 ==>
      count' == count + 1 && min' <= min && min' <= layer && (min' == min || min' == layer) &&
      |q'| == (if |q| <= layer then layer + 1 else |q|) &&
      q'[layer] == (if layer < |q| then q[layer] else []) + [rid] &&
      forall i | 0 <= i < |q'| && i != layer :: q'[i] == (if i < |q| then q[i] else [])
    ensures DirtyOk(q, count, min) ==> DirtyOk(q', count', min')
    ensures QueueKeeps(q, q') && (rid != 0 ==> InQueue(q', rid))
  {
    if rid == 0 {
      return q, count, min;
    }
    count' := count + 1;
    min' := if min > layer then layer else min;
    q' := q;
    if |q'| <= layer {
      var i := |q'|;
      while i < layer + 1
        invariant |q| <= i <= layer + 1 && |q'| == i
        invariant forall j | 0 <= j < i :: q'[j] == (if j < |q| then q[j] else [])
        invariant SumLens(q') == SumLens(q)
      {
        SumLensPad(q');
        q' := q' + [[]];
        i := i + 1;
      }
    }
    SumLensUpdate(q', layer, q'[layer] + [rid]);
    q' := q'[layer := q'[layer] + [rid]];
    forall c | InQueue(q, c)
      ensures InQueue(q', c)
    {
      var i :| 0 <= i < |q| && c in q[i];
      assert c in q'[i];
    }
    assert rid in q'[layer];
  }

  /// A step that marks at most the cell `r`, followed by queueing `r`,
  /// keeps every dirty cell in the queue.
  lemma QueuedAfter(cells: Cells, cells': Cells, q: seq<seq<nat>>, q': seq<seq<nat>>, r: nat)
    requires MarksFrom(cells, cells', r) && QueueKeeps(q, q') && (r != 0 ==> InQueue(q', r))
    ensures MaskQueued(cells, q) ==> MaskQueued(cells', q')
  {
  }

  /// A new record `n` for cell `p` whose mask is clean unless it was
  /// before or `p` is now queued keeps every dirty cell in the queue.
  lemma QueuedMark(cells: Cells, p: nat, n: OctNode, q: seq<seq<nat>>, q': seq<seq<nat>>)
    requires p in cells && QueueKeeps(q, q')
    requires n.dirty != 0 && cells[p].dirty == 0 ==> InQueue(q', p)
    ensures MaskQueued(cells, q) ==> MaskQueued(cells[p := n], q')
  {
  }
}
