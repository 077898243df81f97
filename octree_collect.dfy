// `collect` and `split` of cg/src/octree.rs: the only place cells are made
// or destroyed.  A cell's flagged slots are visited in order; a child cell
// with too few entries beneath it is merged back into a list, and a list
// with too many entries gets a child cell of its own, which is collected in
// turn when its own slots ask for it.
module OctreeCollect {
  import opened OctreeGeometry
  import opened OctreeState
  import opened OctreeCounts
  import opened OctreeSteps
  import opened OctreeGather
  import opened OctreeShrink
  import opened OctreeSplit
  import opened OctreeGrow
  import Slab

  /// The layers left between `layer` and the depth limit `deep`: a cell
  /// split at or below the limit is not collected again.
  function Depth(deep: nat, layer: nat): nat {
    if layer < deep then deep - layer else 0
  }

  /// Every entry keeps its box, its bind and its layer; only the cell and
  /// slot it hangs in and its links may change.
  ghost predicate Kept<T>(abs: Entries<T>, abs': Entries<T>) {
    abs'.Keys == abs.Keys &&
    forall y | y in abs ::
      abs'[y] == abs[y].(parent := abs'[y].parent, parentChild := abs'[y].parentChild,
                         prev := abs'[y].prev, next := abs'[y].next)
  }

  /// The cells that do not lie beneath `p` are still there with the same
  /// records and ancestors.
  ghost predicate Outside(cells: Cells, canc: map<nat, set<nat>>, cells': Cells, canc': map<nat, set<nat>>, p: nat) {
    forall c | c in cells && c in canc && p !in canc[c] ::
      c in cells' && c in canc' && cells'[c] == cells[c] && canc'[c] == canc[c]
  }

  /// What `collect` leaves in a slot that held `s`, when the slot is
  /// flagged (`on`): a child cell with fewer than `adjust.0` entries beneath
  /// it becomes a list of those entries, a list longer than `adjust.1`
  /// becomes a child cell with all of them beneath it; anything else stays.
  predicate Collected(s: ChildNode, s': ChildNode, on: bool, adjust: (nat, nat)) {
    if on && s.Oct? && s.num < adjust.0 then s'.Ab? && s'.list.len == s.num
    else if on && s.Ab? && s.list.len > adjust.1 then s'.Oct? && s'.num == s.list.len
    else s' == s
  }

  /// The record of a collected cell: the mask is clear, every slot is
  /// collected as its mask bit says, and nothing else changed.
  predicate CollectedCell(a: OctNode, b: OctNode, adjust: (nat, nat)) {
    |a.childs| == 8 && |b.childs| == 8 && b == a.(childs := b.childs, dirty := 0) &&
    forall j | 0 <= j < 8 :: Collected(a.childs[j], b.childs[j], a.dirty & Bit(j) != 0, adjust)
  }

  lemma KeptTrans<T>(a0: Entries<T>, a1: Entries<T>, a2: Entries<T>)
    requires Kept(a0, a1) && Kept(a1, a2)
    ensures Kept(a0, a2)
  {
  }

  lemma OutsideTrans(c0: Cells, k0: map<nat, set<nat>>, c1: Cells, k1: map<nat, set<nat>>,
                     c2: Cells, k2: map<nat, set<nat>>, p: nat)
    requires Outside(c0, k0, c1, k1, p) && Outside(c1, k1, c2, k2, p)
    ensures Outside(c0, k0, c2, k2, p)
  {
  }

  /// A cell's mask does not take part in the invariant.
  lemma InvMask<T>(cells: Cells, abs: Entries<T>, outer: NodeList, lists: map<Owner, seq<nat>>,
                   canc: map<nat, set<nat>>, loose: Vec3, p: nat, m: bv8)
    requires Inv(cells, abs, outer, lists, canc, loose, 0, 0, {}, Outer, {}) && p in cells
    ensures Inv(cells[p := cells[p].(dirty := m)], abs, outer, lists, canc, loose, 0, 0, {}, Outer, {})
  {
    var cells' := cells[p := cells[p].(dirty := m)];
    forall c | c in cells
      ensures CellFrame(cells[c], cells'[c])
    {
      assert CellShape(cells, canc, c);
    }
    MovedNone(cells, cells', canc, 0);
    assert forall o :: ListOf(cells', outer, o) == ListOf(cells, outer, o);
    InvMove(cells, cells', abs, outer, lists, canc, loose, 0, 0, 0, {}, Outer, {});
  }

  /// A child cell that counts nothing has nothing to gather.
  lemma GatherEmpty<T>(cells: Cells, abs: Entries<T>, outer: NodeList, lists: map<Owner, seq<nat>>,
                       canc: map<nat, set<nat>>, loose: Vec3, p: nat, i: nat)
    requires Inv(cells, abs, outer, lists, canc, loose, 0, 0, {}, Outer, {})
    requires p in cells && i < 8 && i < |cells[p].childs| && cells[p].childs[i].Oct?
    ensures cells[p].childs[i].oct in cells
    ensures |Gather(cells, lists, canc, cells[p].childs[i].oct)| == cells[p].childs[i].num
  {
    var oct := cells[p].childs[i].oct;
    assert CellShape(cells, canc, p);
    assert CountOk(cells, abs, canc, 0, 0, p);
    assert 0 !in canc;
    GatherIsBeneath(cells, abs, outer, lists, canc, loose, oct);
  }

  /// The cells the merge of slot `i` of `p` frees lie beneath `p`: the
  /// others keep their records and ancestors.
  lemma PrunedOutside(cells: Cells, canc: map<nat, set<nat>>, cells': Cells, p: nat, i: nat, nl: NodeList)
    requires Shape(cells, canc) && p in cells && i < 8 && i < |cells[p].childs| && cells[p].childs[i].Oct?
    requires Pruned(cells, cells', p, i, Sub(cells, canc, cells[p].childs[i].oct), nl)
    ensures Outside(cells, canc, cells', canc - Sub(cells, canc, cells[p].childs[i].oct), p)
  {
    var oct := cells[p].childs[i].oct;
    ChildAnc(cells, canc, p, i);
    assert CellShape(cells, canc, p);
    forall c | c in cells && c in canc && p !in canc[c]
      ensures c !in Sub(cells, canc, oct) && c != p
    {
      if oct in canc[c] {
        AncClosed(cells, canc, oct, c);
      }
    }
  }

  /// Cell `k`, new, now sits in slot `i` of `p`, which counts the length
  /// of the list the slot held; every other cell keeps its record and its
  /// ancestors, which do not include `k`.
  ghost predicate Extended(cells: Cells, canc: map<nat, set<nat>>, cells': Cells, canc': map<nat, set<nat>>,
                           p: nat, i: nat, k: nat)
  {
    k != 0 && k !in cells && k in cells' && p in cells && p in cells' &&
    i < |cells[p].childs| && cells[p].childs[i].Ab? &&
    cells'[p] == cells[p].(childs := cells[p].childs[i := Oct(k, cells[p].childs[i].list.len)]) &&
    forall c | c in cells ::
      c in cells' && c in canc' && c in canc && canc'[c] == canc[c] && k !in canc[c] &&
      (c != p ==> cells'[c] == cells[c])
  }

  lemma ExtendedBy(cells: Cells, canc: map<nat, set<nat>>, p: nat, i: nat, k: nat, n: OctNode)
    requires Shape(cells, canc) && p in cells && i < |cells[p].childs| && cells[p].childs[i].Ab?
    requires k != 0 && k !in cells
    ensures Extended(cells, canc,
                     cells[k := n][p := cells[p].(childs := cells[p].childs[i := Oct(k, cells[p].childs[i].list.len)])],
                     canc[k := canc[p] + {k}], p, i, k)
  {
    forall c | c in cells
      ensures c in canc && k !in canc[c]
    {
      assert CellShape(cells, canc, c);
    }
  }

  /// `split_down` only rehangs and relinks entries.
  lemma SplitOutKept<T>(abs: Entries<T>, abs': Entries<T>, n0: OctNode, n: OctNode, k: nat, L: seq<nat>)
    requires forall y | y in L :: y in abs
    requires SplitOut(abs, abs', n0, n, k, L)
    ensures Kept(abs, abs')
  {
  }

  /// The part of `split` before the new cell is collected: slot `i` of
  /// `p` gets a new child cell `k` (the least free key), the slot's list
  /// goes down into it as `split_down` sends it, and the slot counts the
  /// list's length.
  method Grow<T>(cells: Cells, abs: Entries<T>, adjust: (nat, nat), deep: nat, p: nat, i: nat,
                 ghost outer: NodeList, ghost lists: map<Owner, seq<nat>>, ghost canc: map<nat, set<nat>>,
                 ghost loose: Vec3)
    returns (cells': Cells, abs': Entries<T>, k: nat, ghost lists': map<Owner, seq<nat>>,
             ghost canc': map<nat, set<nat>>)
    requires Inv(cells, abs, outer, lists, canc, loose, 0, 0, {}, Outer, {})
    requires p in cells && i < 8 && i < |cells[p].childs| && cells[p].childs[i].Ab?
    ensures Inv(cells', abs', outer, lists', canc', loose, 0, 0, {}, Outer, {})
    ensures Extended(cells, canc, cells', canc', p, i, k)
    ensures cells'[k].layer == cells[p].layer + 1 && (cells'[k].dirty != 0 ==> cells'[k].layer < deep)
    ensures Kept(abs, abs')
    ensures MarksFrom(cells, cells', k)
  {
    var list := cells[p].childs[i].list;
    var n0 := CreateChild(cells[p].aabb, cells[p].loose, cells[p].layer, p, i);
    k := Slab.Fresh(cells);
    ListFacts(cells, abs, outer, lists, canc, loose, Slot(p, i));
    ghost var L := lists[Slot(p, i)];
    var n;
    abs', n := SplitDown(abs, adjust.1, deep, n0, k, list, L, Slot(p, i));
    cells' := cells[k := n][p := cells[p].(childs := cells[p].childs[i := Oct(k, list.len)])];
    assert SplitOut(abs, abs', ChildOf(cells, p, i), n, k, L);
    assert Grown(cells, cells', p, i, k, n, |L|);
    InvSplit(cells, cells', abs, abs', outer, lists, canc, loose, p, i, k, n);
    SplitOutKept(abs, abs', ChildOf(cells, p, i), n, k, L);
    ExtendedBy(cells, canc, p, i, k, n);
    lists' := SplitLists(lists, abs, ChildOf(cells, p, i), p, i, k, L);
    canc' := canc[k := canc[p] + {k}];
    if n.dirty != 0 {
      MaskZero(n.dirty);
    }
  }

  /// `split`: `Grow`, then the new cell is collected when one of its slots
  /// came out too long.  The parent's slot is written before the new cell
  /// is collected, which does not look at it.
  method Split<T>(cells: Cells, abs: Entries<T>, adjust: (nat, nat), deep: nat, p: nat, i: nat,
                  ghost outer: NodeList, ghost lists: map<Owner, seq<nat>>, ghost canc: map<nat, set<nat>>,
                  ghost loose: Vec3)
    returns (cells': Cells, abs': Entries<T>, k: nat, ghost lists': map<Owner, seq<nat>>,
             ghost canc': map<nat, set<nat>>)
    requires Inv(cells, abs, outer, lists, canc, loose, 0, 0, {}, Outer, {})
    requires p in cells && i < 8 && i < |cells[p].childs| && cells[p].childs[i].Ab?
    ensures Inv(cells', abs', outer, lists', canc', loose, 0, 0, {}, Outer, {})
    ensures k != 0 && k !in cells && p in cells'
    ensures cells'[p] == cells[p].(childs := cells[p].childs[i := Oct(k, cells[p].childs[i].list.len)])
    ensures forall c | c in cells ::
      c in cells' && c in canc' && c in canc && canc'[c] == canc[c] && (c != p ==> cells'[c] == cells[c])
    ensures Kept(abs, abs')
    ensures MarksFrom(cells, cells', 0)
    decreases Depth(deep, cells[p].layer), 1
  {
    var cells1, abs1;
    ghost var lists1, canc1;
    cells1, abs1, k, lists1, canc1 := Grow(cells, abs, adjust, deep, p, i, outer, lists, canc, loose);
    cells', abs', lists', canc' := cells1, abs1, lists1, canc1;
    if cells1[k].dirty != 0 {
      cells', abs', lists', canc' := Collect(cells1, abs1, adjust, deep, k, outer, lists1, canc1, loose);
      KeptTrans(abs, abs1, abs');
    }
  }

  /// The merge of `collect`: the child cell in slot `i` of `p` gives up
  /// the entries beneath it (`shrink`, when it counts any), it is freed
  /// with its whole subtree, and the slot takes the merged list, which
  /// holds as many entries as the slot counted.
  method Merge<T>(cells: Cells, abs: Entries<T>, p: nat, i: nat,
                  ghost outer: NodeList, ghost lists: map<Owner, seq<nat>>, ghost canc: map<nat, set<nat>>,
                  ghost loose: Vec3)
    returns (cells': Cells, abs': Entries<T>, list: NodeList, ghost lists': map<Owner, seq<nat>>,
             ghost canc': map<nat, set<nat>>)
    requires Inv(cells, abs, outer, lists, canc, loose, 0, 0, {}, Outer, {})
    requires p in cells && i < 8 && i < |cells[p].childs| && cells[p].childs[i].Oct?
    ensures Inv(cells', abs', outer, lists', canc', loose, 0, 0, {}, Outer, {})
    ensures cells'.Keys == cells.Keys - Sub(cells, canc, cells[p].childs[i].oct)
    ensures p in cells' && cells'[p] == cells[p].(childs := cells[p].childs[i := Ab(list)])
    ensures list.len == cells[p].childs[i].num
    ensures Kept(abs, abs')
    ensures Outside(cells, canc, cells', canc', p)
    ensures MarksFrom(cells, cells', 0)
  {
    var oct := cells[p].childs[i].oct;
    var num := cells[p].childs[i].num;
    GatherEmpty(cells, abs, outer, lists, canc, loose, p, i);
    ShrinkFacts(cells, abs, outer, lists, canc, loose, p, i);
    ghost var G := Gather(cells, lists, canc, oct);
    list := NodeList(0, 0);
    abs' := abs;
    if num > 0 {
      assert Linked(abs, list, [], Slot(p, i), {}, {});
      abs', list := Shrink(cells, abs, abs, outer, lists, canc, loose, p, i, oct, list, []);
      assert G + [] == G;
    } else {
      assert G == [];
    }
    cells' := FreeCells(cells, cells, canc, oct);
    cells' := cells'[p := cells'[p].(childs := cells'[p].childs[i := Ab(list)])];
    assert Pruned(cells, cells', p, i, Sub(cells, canc, oct), list);
    InvShrink(cells, cells', abs, abs', outer, lists, canc, loose, p, i, list);
    lists' := ShrunkLists(lists, Sub(cells, canc, oct), p, i, G);
    canc' := canc - Sub(cells, canc, oct);
    PrunedOutside(cells, canc, cells', p, i, list);
  }

  /// One flagged slot of `collect`, which held `s`: a child cell counting
  /// fewer than `adjust.0` entries is merged, a list longer than `adjust.1`
  /// is split, anything else is left alone.
  method CollectSlot<T>(cells: Cells, abs: Entries<T>, adjust: (nat, nat), deep: nat, p: nat, i: nat,
                        s: ChildNode, ghost outer: NodeList, ghost lists: map<Owner, seq<nat>>,
                        ghost canc: map<nat, set<nat>>, ghost loose: Vec3)
    returns (cells': Cells, abs': Entries<T>, ghost lists': map<Owner, seq<nat>>,
             ghost canc': map<nat, set<nat>>)
    requires Inv(cells, abs, outer, lists, canc, loose, 0, 0, {}, Outer, {})
    requires p in cells && i < 8 && i < |cells[p].childs| && cells[p].childs[i] == s
    ensures Inv(cells', abs', outer, lists', canc', loose, 0, 0, {}, Outer, {})
    ensures p in cells' && |cells'[p].childs| == |cells[p].childs|
    ensures cells'[p] == cells[p].(childs := cells[p].childs[i := cells'[p].childs[i]])
    ensures Collected(s, cells'[p].childs[i], true, adjust)
    ensures Kept(abs, abs')
    ensures Outside(cells, canc, cells', canc', p)
    ensures MarksFrom(cells, cells', 0)
    decreases Depth(deep, cells[p].layer), 2
  {
    cells', abs', lists', canc' := cells, abs, lists, canc;
    if s.Oct? && s.num < adjust.0 {
      var list;
      cells', abs', list, lists', canc' := Merge(cells, abs, p, i, outer, lists, canc, loose);
    } else if s.Ab? && s.list.len > adjust.1 {
      var k;
      assert CellShape(cells, canc, p);
      cells', abs', k, lists', canc' := Split(cells, abs, adjust, deep, p, i, outer, lists, canc, loose);
    } else {
      assert cells[p].childs[i := s] == cells[p].childs;
    }
  }

  /// `collect` of cell `p`, whose record was `n`, after the first `i`
  /// slots: the mask is clear, the slots from `i` on are as they were, the
  /// slots before `i` are collected, only entries' places and links
  /// changed, and nothing outside `p`'s subtree did.
  ghost predicate Swept<T>(cells: Cells, canc: map<nat, set<nat>>, abs: Entries<T>, n: OctNode, p: nat,
                           cells': Cells, canc': map<nat, set<nat>>, abs': Entries<T>, i: nat,
                           adjust: (nat, nat))
  {
    p in cells' && |n.childs| == 8 && |cells'[p].childs| == 8 &&
    cells'[p] == n.(childs := cells'[p].childs, dirty := 0) &&
    (forall j | i <= j < 8 :: cells'[p].childs[j] == n.childs[j]) &&
    (forall j | 0 <= j < i && j < 8 :: Collected(n.childs[j], cells'[p].childs[j], n.dirty & Bit(j) != 0, adjust)) &&
    Kept(abs, abs') && Outside(cells, canc, cells', canc', p)
  }

  /// A flagged slot collected as `CollectSlot` promises extends the sweep.
  lemma SweptSlot<T>(cells: Cells, canc: map<nat, set<nat>>, abs: Entries<T>, n: OctNode, p: nat,
                     c0: Cells, k0: map<nat, set<nat>>, a0: Entries<T>,
                     cells': Cells, canc': map<nat, set<nat>>, abs': Entries<T>, i: nat, adjust: (nat, nat))
    requires Swept(cells, canc, abs, n, p, c0, k0, a0, i, adjust) && i < 8 && n.dirty & Bit(i) != 0
    requires p in cells' && |cells'[p].childs| == |c0[p].childs|
    requires cells'[p] == c0[p].(childs := c0[p].childs[i := cells'[p].childs[i]])
    requires Collected(n.childs[i], cells'[p].childs[i], true, adjust)
    requires Kept(a0, abs') && Outside(c0, k0, cells', canc', p)
    ensures Swept(cells, canc, abs, n, p, cells', canc', abs', i + 1, adjust)
  {
    KeptTrans(abs, a0, abs');
    OutsideTrans(cells, canc, c0, k0, cells', canc', p);
  }

  /// A slot whose bit is clear is left as it was.
  lemma SweptSkip<T>(cells: Cells, canc: map<nat, set<nat>>, abs: Entries<T>, n: OctNode, p: nat,
                     cells': Cells, canc': map<nat, set<nat>>, abs': Entries<T>, i: nat, adjust: (nat, nat))
    requires Swept(cells, canc, abs, n, p, cells', canc', abs', i, adjust) && i < 8 && n.dirty & Bit(i) == 0
    ensures Swept(cells, canc, abs, n, p, cells', canc', abs', i + 1, adjust)
  {
  }

  /// One turn of the loop of `collect` over the copied slots `childs` and
  /// mask `dirty` of cell `p`, whose record was `n`: slot `i` is collected
  /// when its bit is set.
  method SweepSlot<T>(cells: Cells, abs: Entries<T>, adjust: (nat, nat), deep: nat, p: nat, n: OctNode,
                      dirty: bv8, childs: seq<ChildNode>, i: nat,
                      ghost outer: NodeList, ghost lists: map<Owner, seq<nat>>, ghost canc: map<nat, set<nat>>,
                      ghost loose: Vec3, ghost cells0: Cells, ghost canc0: map<nat, set<nat>>, ghost abs0: Entries<T>)
    returns (cells': Cells, abs': Entries<T>, ghost lists': map<Owner, seq<nat>>,
             ghost canc': map<nat, set<nat>>)
    requires Inv(cells, abs, outer, lists, canc, loose, 0, 0, {}, Outer, {})
    requires Swept(cells0, canc0, abs0, n, p, cells, canc, abs, i, adjust) && i < 8
    requires dirty == n.dirty && childs == n.childs
    ensures Inv(cells', abs', outer, lists', canc', loose, 0, 0, {}, Outer, {})
    ensures Swept(cells0, canc0, abs0, n, p, cells', canc', abs', i + 1, adjust)
    ensures MarksFrom(cells, cells', 0)
    decreases Depth(deep, n.layer), 3
  {
    cells', abs', lists', canc' := cells, abs, lists, canc;
    if dirty & Bit(i) != 0 {
      cells', abs', lists', canc' := CollectSlot(cells, abs, adjust, deep, p, i, childs[i], outer, lists,
                                                 canc, loose);
      SweptSlot(cells0, canc0, abs0, n, p, cells, canc, abs, cells', canc', abs', i, adjust);
    } else {
      SweptSkip(cells0, canc0, abs0, n, p, cells, canc, abs, i, adjust);
    }
  }

  /// `collect`: a cell with a clear mask is left alone; otherwise the mask
  /// is cleared and every flagged slot is collected, in slot order, from a
  /// copy of the slots taken before the first one changes.
  method Collect<T>(cells: Cells, abs: Entries<T>, adjust: (nat, nat), deep: nat, p: nat,
                    ghost outer: NodeList, ghost lists: map<Owner, seq<nat>>, ghost canc: map<nat, set<nat>>,
                    ghost loose: Vec3)
    returns (cells': Cells, abs': Entries<T>, ghost lists': map<Owner, seq<nat>>,
             ghost canc': map<nat, set<nat>>)
    requires Inv(cells, abs, outer, lists, canc, loose, 0, 0, {}, Outer, {}) && p in cells
    ensures Inv(cells', abs', outer, lists', canc', loose, 0, 0, {}, Outer, {})
    ensures p in cells' && CollectedCell(cells[p], cells'[p], adjust)
    ensures Kept(abs, abs')
    ensures Outside(cells, canc, cells', canc', p)
    ensures MarksFrom(cells, cells', 0)
    decreases Depth(deep, cells[p].layer), 4
  {
    var n := cells[p];
    assert CellShape(cells, canc, p);
    if n.dirty == 0 {
      assert n.(childs := n.childs, dirty := 0) == n;
      return cells, abs, lists, canc;
    }
    var dirty := n.dirty;
    var childs := n.childs;
    InvMask(cells, abs, outer, lists, canc, loose, p, 0);
    cells', abs', lists', canc' := cells[p := n.(dirty := 0)], abs, lists, canc;
    for i := 0 to 8
      invariant Inv(cells', abs', outer, lists', canc', loose, 0, 0, {}, Outer, {})
      invariant Swept(cells, canc, abs, n, p, cells', canc', abs', i, adjust)
      invariant MarksFrom(cells, cells', 0)
    {
      cells', abs', lists', canc' := SweepSlot(cells', abs', adjust, deep, p, n, dirty, childs, i, outer, lists',
                                               canc', loose, cells, canc, abs);
    }
  }
}
