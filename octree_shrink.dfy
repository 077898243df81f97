// What merging a slot's child cell back into a list does to the tree in
// `collect` of cg/src/octree.rs: the child cell goes (with, corrected, the
// whole subtree below it), the slot holds the list `shrink` gathered, and
// the invariant of the tree holds again.
module OctreeShrink {
  import opened OctreeGeometry
  import opened OctreeState
  import opened OctreeLists
  import opened OctreeCounts
  import opened OctreeGather

  // ---------------------------------------------------------------------
  // Subtrees.

  /// A cell outside the subtree of `k` has no ancestor inside it.
  lemma OutsideSub(cells: Cells, canc: map<nat, set<nat>>, k: nat, c: nat)
    requires Shape(cells, canc) && c in cells && c !in Sub(cells, canc, k)
    ensures forall a | a in canc[c] :: a in cells && a !in Sub(cells, canc, k)
  {
    forall a | a in canc[c]
      ensures a in cells && a !in Sub(cells, canc, k)
    {
      AncClosed(cells, canc, a, c);
    }
  }

  /// The subtrees of the child cells of `k` in slots below `j`.
  ghost function SubBelow(cells: Cells, canc: map<nat, set<nat>>, k: nat, j: nat): set<nat>
    requires Shape(cells, canc) && k in cells && j <= 8
  {
    assert CellShape(cells, canc, k);
    if j == 0 then {}
    else
      var here := if cells[k].childs[j - 1].Oct? then Sub(cells, canc, cells[k].childs[j - 1].oct) else {};
      SubBelow(cells, canc, k, j - 1) + here
  }

  /// The subtree of the child in slot `j` of `k` lies in the subtree of
  /// `k`, without `k`, apart from the subtrees of the slots before it, and
  /// its ancestors are those of `k` and itself.
  lemma SubChild(cells: Cells, canc: map<nat, set<nat>>, k: nat, j: nat)
    requires Shape(cells, canc) && k in cells && j < 8 && j < |cells[k].childs| && cells[k].childs[j].Oct?
    ensures var g := cells[k].childs[j].oct;
      g in cells && canc[g] == canc[k] + {g} && g !in canc[k] &&
      k !in Sub(cells, canc, g) &&
      (forall c | c in Sub(cells, canc, g) :: c in Sub(cells, canc, k)) &&
      (forall c | c in Sub(cells, canc, g) :: c !in SubBelow(cells, canc, k, j))
  {
    var g := cells[k].childs[j].oct;
    ChildAnc(cells, canc, k, j);
    assert CellShape(cells, canc, k);
    assert k !in Sub(cells, canc, g);
    forall c | c in Sub(cells, canc, g)
      ensures c in Sub(cells, canc, k)
    {
      AncClosed(cells, canc, g, c);
      assert k in canc[g];
    }
    forall c | c in Sub(cells, canc, g)
      ensures c !in SubBelow(cells, canc, k, j)
    {
      if c in SubBelow(cells, canc, k, j) {
        var m := SubBelowWhich(cells, canc, k, j, c);
        var h := cells[k].childs[m].oct;
        ChildAnc(cells, canc, k, m);
        SiblingsApart(cells, canc, c, g, h);
        assert false;
      }
    }
  }

  /// The slot below `j` whose child's subtree holds `c`.
  lemma {:induction false} SubBelowWhich(cells: Cells, canc: map<nat, set<nat>>, k: nat, j: nat, c: nat)
    returns (m: nat)
    requires Shape(cells, canc) && k in cells && j <= 8 && c in SubBelow(cells, canc, k, j)
    ensures m < j && |cells[k].childs| == 8 && cells[k].childs[m].Oct?
    ensures c in Sub(cells, canc, cells[k].childs[m].oct)
  {
    assert CellShape(cells, canc, k);
    if c in SubBelow(cells, canc, k, j - 1) {
      m := SubBelowWhich(cells, canc, k, j - 1, c);
    } else {
      m := j - 1;
    }
  }

  /// The subtree below slot `m` is in the subtrees below every later bound.
  lemma {:induction false} SubBelowHas(cells: Cells, canc: map<nat, set<nat>>, k: nat, m: nat, j: nat, c: nat)
    requires Shape(cells, canc) && k in cells && m < j <= 8 && |cells[k].childs| == 8
    requires cells[k].childs[m].Oct? && c in Sub(cells, canc, cells[k].childs[m].oct)
    ensures c in SubBelow(cells, canc, k, j)
    decreases j
  {
    if m < j - 1 {
      SubBelowHas(cells, canc, k, m, j - 1, c);
    }
  }

  /// The subtree of `k` is `k` and the subtrees of its child cells.
  lemma SubWhole(cells: Cells, canc: map<nat, set<nat>>, k: nat)
    requires Shape(cells, canc) && k in cells
    ensures Sub(cells, canc, k) == {k} + SubBelow(cells, canc, k, 8)
  {
    assert CellShape(cells, canc, k);
    forall c | c in Sub(cells, canc, k) && c != k
      ensures c in SubBelow(cells, canc, k, 8)
    {
      var m := ChildOnPath(cells, canc, k, c);
      SubBelowHas(cells, canc, k, m, 8, c);
    }
    forall c | c in SubBelow(cells, canc, k, 8)
      ensures c in Sub(cells, canc, k)
    {
      var m := SubBelowWhich(cells, canc, k, 8, c);
      SubChild(cells, canc, k, m);
    }
  }

  /// The corrected `oct_slab.remove(oct)` of `collect`: the merged cell and
  /// every cell beneath it leave the slab, child cells first.
  method FreeCells(cells: Cells, ghost cells0: Cells, ghost canc: map<nat, set<nat>>, k: nat)
    returns (cells': Cells)
    requires Shape(cells0, canc) && k in cells0
    requires forall c | c in Sub(cells0, canc, k) :: c in cells && cells[c] == cells0[c]
    ensures cells' == cells - Sub(cells0, canc, k)
    decreases cells0.Keys - canc[k]
  {
    assert CellShape(cells0, canc, k);
    assert k in Sub(cells0, canc, k);
    var n := cells[k];
    cells' := cells;
    ghost var done: set<nat> := {};
    var j := 0;
    while j < 8
      invariant j <= 8 && done == SubBelow(cells0, canc, k, j)
      invariant cells' == cells - done
    {
      if n.childs[j].Oct? {
        var g := n.childs[j].oct;
        SubChild(cells0, canc, k, j);
        assert g in cells0.Keys - canc[k] && g !in cells0.Keys - canc[g];
        ghost var before := cells';
        cells' := FreeCells(cells', cells0, canc, g);
        assert cells' == cells - (done + Sub(cells0, canc, g)) by {
          assert before == cells - done;
        }
        done := done + Sub(cells0, canc, g);
      }
      j := j + 1;
    }
    SubWhole(cells0, canc, k);
    cells' := cells' - {k};
  }

  /// `oct_slab.remove(oct)` in `collect` as written: only the merged cell
  /// leaves the slab.
  function FreeAsWritten(cells: Cells, oct: nat): (r: Cells)
    ensures r.Keys == cells.Keys - {oct}
    ensures forall c | c in r :: r[c] == cells[c]
  {
    cells - {oct}
  }

  /// When the merged cell has a child cell of its own, that child stays in
  /// the slab while its parent is gone: it can no longer be reached from the
  /// root, and the cells left are not a tree under any ancestry.
  lemma FreeAsWrittenOrphans(cells: Cells, canc: map<nat, set<nat>>, oct: nat, j: nat)
    requires Shape(cells, canc) && oct in cells && j < 8 && j < |cells[oct].childs| && cells[oct].childs[j].Oct?
    ensures var g := cells[oct].childs[j].oct;
      g in FreeAsWritten(cells, oct) && g != ROOT && FreeAsWritten(cells, oct)[g].parent !in FreeAsWritten(cells, oct)
    ensures forall canc' :: !Shape(FreeAsWritten(cells, oct), canc')
  {
    var g := cells[oct].childs[j].oct;
    ChildAnc(cells, canc, oct, j);
    var r := FreeAsWritten(cells, oct);
    forall canc': map<nat, set<nat>>
      ensures !Shape(r, canc')
    {
      if g in canc' {
        assert !CellShape(r, canc', g);
      }
    }
  }

  /// `FreeCells` leaves no such orphan: what stays of a tree after the
  /// subtree of a child cell goes is closed under parents.
  lemma FreeCellsKeepsParents(cells: Cells, canc: map<nat, set<nat>>, k: nat, c: nat)
    requires Shape(cells, canc) && k in cells && k != ROOT
    requires c in cells - Sub(cells, canc, k) && c != ROOT
    ensures cells[c].parent in cells - Sub(cells, canc, k)
  {
    assert CellShape(cells, canc, c);
    assert CellShape(cells, canc, cells[c].parent);
    OutsideSub(cells, canc, k, c);
  }

  // ---------------------------------------------------------------------
  // The tree after a shrink.

  /// The cells after slot `i` of cell `p` gave up its child cell, and the
  /// subtree `S` under it, for the list `nl`; only `p`'s mask may change
  /// besides.
  ghost predicate Pruned(cells: Cells, cells': Cells, p: nat, i: nat, S: set<nat>, nl: NodeList)
    requires p in cells && i < |cells[p].childs|
  {
    cells'.Keys == cells.Keys - S && p in cells' &&
    (forall c | c in cells' && c != p :: cells'[c] == cells[c]) &&
    cells'[p] == cells[p].(childs := cells[p].childs[i := Ab(nl)], dirty := cells'[p].dirty)
  }

  /// The ghost lists after a shrink: the owners in the subtree are gone and
  /// the slot holds the gathered list.
  ghost function ShrunkLists(lists: map<Owner, seq<nat>>, S: set<nat>, p: nat, i: nat, G: seq<nat>)
    : map<Owner, seq<nat>>
  {
    (map o | o in lists && CellOf(o) !in S :: lists[o])[Slot(p, i) := G]
  }

  /// What a shrink of slot `i` of `p` relies on: the child cell, its
  /// subtree `S` without `p` and the root, and the gathered entries, which
  /// are those whose cell lies in `S`.
  lemma ShrinkFacts<T>(cells: Cells, abs: Entries<T>, outer: NodeList, lists: map<Owner, seq<nat>>,
                       canc: map<nat, set<nat>>, loose: Vec3, p: nat, i: nat)
    requires Inv(cells, abs, outer, lists, canc, loose, 0, 0, {}, Outer, {})
    requires p in cells && i < 8 && i < |cells[p].childs| && cells[p].childs[i].Oct?
    ensures var oct := cells[p].childs[i].oct;
      var S := Sub(cells, canc, oct);
      oct in cells && oct != ROOT && cells[oct].parent == p && cells[oct].parentChild == i &&
      canc[oct] == canc[p] + {oct} && oct in S && p !in S && ROOT !in S &&
      Distinct(Gather(cells, lists, canc, oct)) &&
      forall y :: y in Gather(cells, lists, canc, oct) <==> y in abs && abs[y].parent in S
  {
    var oct := cells[p].childs[i].oct;
    ChildAnc(cells, canc, p, i);
    assert CellShape(cells, canc, ROOT);
    assert CellShape(cells, canc, p);
    GatherIsBeneath(cells, abs, outer, lists, canc, loose, oct);
  }

  /// A child cell of a cell kept by a shrink is kept too.
  lemma KeptChild(cells: Cells, cells': Cells, canc: map<nat, set<nat>>, p: nat, i: nat, nl: NodeList,
                  c: nat, j: nat)
    requires Shape(cells, canc) && p in cells && i < 8 && i < |cells[p].childs| && cells[p].childs[i].Oct?
    requires Pruned(cells, cells', p, i, Sub(cells, canc, cells[p].childs[i].oct), nl)
    requires c in cells' && j < 8 && j < |cells'[c].childs| && cells'[c].childs[j].Oct?
    ensures cells'[c].childs[j] == cells[c].childs[j]
    ensures cells[c].childs[j].oct in cells'
  {
    var oct := cells[p].childs[i].oct;
    var g := cells[c].childs[j].oct;
    assert CellShape(cells, canc, c);
    ChildAnc(cells, canc, c, j);
    ChildAnc(cells, canc, p, i);
    assert g != oct;
    assert oct !in canc[c];
  }

  lemma ShrinkCells(cells: Cells, cells': Cells, canc: map<nat, set<nat>>, loose: Vec3, p: nat, i: nat,
                    nl: NodeList)
    requires CellsOk(cells, canc, loose) && p in cells && i < 8 && i < |cells[p].childs| && cells[p].childs[i].Oct?
    requires p !in Sub(cells, canc, cells[p].childs[i].oct)
    requires Pruned(cells, cells', p, i, Sub(cells, canc, cells[p].childs[i].oct), nl)
    ensures CellsOk(cells', canc - Sub(cells, canc, cells[p].childs[i].oct), loose)
  {
    var oct := cells[p].childs[i].oct;
    var S := Sub(cells, canc, oct);
    var canc' := canc - S;
    ChildAnc(cells, canc, p, i);
    assert CellShape(cells, canc, ROOT);
    forall c | c in cells'
      ensures CellShape(cells', canc', c)
    {
      ShrinkShapeAt(cells, cells', canc, loose, p, i, nl, canc', c);
    }
    forall c | c in cells'
      ensures CellGeom(cells', canc', loose, c)
    {
      ShrinkGeomAt(cells, cells', canc, loose, p, i, nl, canc', c);
    }
  }

  lemma ShrinkShapeAt(cells: Cells, cells': Cells, canc: map<nat, set<nat>>, loose: Vec3, p: nat, i: nat,
                      nl: NodeList, canc': map<nat, set<nat>>, c: nat)
    requires CellsOk(cells, canc, loose) && p in cells && i < 8 && i < |cells[p].childs| && cells[p].childs[i].Oct?
    requires p !in Sub(cells, canc, cells[p].childs[i].oct)
    requires Pruned(cells, cells', p, i, Sub(cells, canc, cells[p].childs[i].oct), nl)
    requires canc' == canc - Sub(cells, canc, cells[p].childs[i].oct) && c in cells'
    ensures CellShape(cells', canc', c)
  {
    var oct := cells[p].childs[i].oct;
    ChildAnc(cells, canc, p, i);
    assert CellShape(cells, canc, c);
    OutsideSub(cells, canc, oct, c);
    var n := cells[c];
    if c != ROOT {
      assert CellShape(cells, canc, n.parent);
      assert n.parent in canc[c];
      assert c != oct;
    }
    forall j | 0 <= j < 8 && cells'[c].childs[j].Oct?
      ensures cells'[c].childs[j].oct in cells' && cells'[cells'[c].childs[j].oct].parent == c &&
        cells'[cells'[c].childs[j].oct].parentChild == j
    {
      KeptChild(cells, cells', canc, p, i, nl, c, j);
    }
  }

  lemma ShrinkGeomAt(cells: Cells, cells': Cells, canc: map<nat, set<nat>>, loose: Vec3, p: nat, i: nat,
                      nl: NodeList, canc': map<nat, set<nat>>, c: nat)
    requires CellsOk(cells, canc, loose) && p in cells && i < 8 && i < |cells[p].childs| && cells[p].childs[i].Oct?
    requires p !in Sub(cells, canc, cells[p].childs[i].oct)
    requires Pruned(cells, cells', p, i, Sub(cells, canc, cells[p].childs[i].oct), nl)
    requires canc' == canc - Sub(cells, canc, cells[p].childs[i].oct) && c in cells'
    ensures CellGeom(cells', canc', loose, c)
  {
    var oct := cells[p].childs[i].oct;
    ChildAnc(cells, canc, p, i);
    assert CellGeom(cells, canc, loose, c);
    assert CellShape(cells, canc, c);
    OutsideSub(cells, canc, oct, c);
    if c != ROOT {
      assert CellShape(cells, canc, cells[c].parent);
      assert cells[c].parent in canc[c];
    }
  }

  /// An entry gathered from the subtree moves from a cell `d` inside it to
  /// `p`: the cells outside the subtree above it stay the same.
  lemma GatheredAbove(cells: Cells, canc: map<nat, set<nat>>, p: nat, i: nat, d: nat, g: nat)
    requires Shape(cells, canc) && p in cells && i < 8 && i < |cells[p].childs| && cells[p].childs[i].Oct?
    requires d in cells && d in Sub(cells, canc, cells[p].childs[i].oct)
    requires g in cells && g !in Sub(cells, canc, cells[p].childs[i].oct)
    ensures g in canc[d] <==> g in canc[p]
  {
    var oct := cells[p].childs[i].oct;
    ChildAnc(cells, canc, p, i);
    AncClosed(cells, canc, oct, d);
    assert oct !in canc[g];
    if g in canc[d] {
      AncChain(cells, canc, d, g, oct);
    }
  }

  lemma ShrinkCounts<T>(cells: Cells, cells': Cells, abs: Entries<T>, abs': Entries<T>, outer: NodeList,
                        lists: map<Owner, seq<nat>>, canc: map<nat, set<nat>>, loose: Vec3,
                        p: nat, i: nat, nl: NodeList)
    requires Inv(cells, abs, outer, lists, canc, loose, 0, 0, {}, Outer, {})
    requires p in cells && i < 8 && i < |cells[p].childs| && cells[p].childs[i].Oct?
    requires cells[p].childs[i].oct in cells
    requires Pruned(cells, cells', p, i, Sub(cells, canc, cells[p].childs[i].oct), nl)
    requires Rehung(abs, abs', Gather(cells, lists, canc, cells[p].childs[i].oct))
    requires forall y | y in Gather(cells, lists, canc, cells[p].childs[i].oct) :: y in abs' && abs'[y].parent == p
    ensures Counts(cells', abs', canc - Sub(cells, canc, cells[p].childs[i].oct), 0, 0)
  {
    var oct := cells[p].childs[i].oct;
    var S := Sub(cells, canc, oct);
    var canc' := canc - S;
    var G := Gather(cells, lists, canc, oct);
    ShrinkFacts(cells, abs, outer, lists, canc, loose, p, i);
    forall c | c in cells'
      ensures CountOk(cells', abs', canc', 0, 0, c)
    {
      assert CountOk(cells, abs, canc, 0, 0, c);
      forall j | 0 <= j < 8 && j < |cells'[c].childs| && cells'[c].childs[j].Oct?
        ensures cells'[c].childs[j].num == |Beneath(abs', canc', cells'[c].childs[j].oct, 0)|
      {
        KeptChild(cells, cells', canc, p, i, nl, c, j);
        var g := cells[c].childs[j].oct;
        forall y
          ensures y in Beneath(abs', canc', g, 0) <==> y in Beneath(abs, canc, g, 0)
        {
          if y in abs && y in G {
            GatheredAbove(cells, canc, p, i, abs[y].parent, g);
          }
        }
        assert Beneath(abs', canc', g, 0) == Beneath(abs, canc, g, 0);
      }
    }
  }

  lemma ShrinkLists<T>(cells: Cells, cells': Cells, abs: Entries<T>, abs': Entries<T>, outer: NodeList,
                       lists: map<Owner, seq<nat>>, canc: map<nat, set<nat>>, loose: Vec3,
                       p: nat, i: nat, nl: NodeList)
    requires Inv(cells, abs, outer, lists, canc, loose, 0, 0, {}, Outer, {})
    requires p in cells && i < 8 && i < |cells[p].childs| && cells[p].childs[i].Oct?
    requires cells[p].childs[i].oct in cells
    requires Pruned(cells, cells', p, i, Sub(cells, canc, cells[p].childs[i].oct), nl)
    requires Rehung(abs, abs', Gather(cells, lists, canc, cells[p].childs[i].oct))
    requires Linked(abs', nl, Gather(cells, lists, canc, cells[p].childs[i].oct), Slot(p, i), {}, {})
    ensures ListsOk(cells', abs', outer,
                    ShrunkLists(lists, Sub(cells, canc, cells[p].childs[i].oct), p, i,
                                Gather(cells, lists, canc, cells[p].childs[i].oct)), {}, Outer, {})
  {
    var oct := cells[p].childs[i].oct;
    var S := Sub(cells, canc, oct);
    var G := Gather(cells, lists, canc, oct);
    var lists' := ShrunkLists(lists, S, p, i, G);
    ShrinkFacts(cells, abs, outer, lists, canc, loose, p, i);
    assert CellShape(cells, canc, p);
    forall o | ListOf(cells', outer, o).Some?
      ensures o in lists'
    {
      if o != Slot(p, i) {
        assert ListOf(cells, outer, o).Some?;
      }
    }
    forall o | o in lists'
      ensures OwnerOk(cells', abs', outer, lists', {}, Outer, {}, o)
    {
      if o != Slot(p, i) {
        assert OwnerOk(cells, abs, outer, lists, {}, Outer, {}, o);
        assert ListOf(cells', outer, o) == ListOf(cells, outer, o);
        var L := lists[o];
        forall m | 0 <= m < |L| && L[m] in abs
          ensures L[m] in abs' && SameLink(abs[L[m]], abs'[L[m]])
        {
          assert LinkOk(abs, L, m, o, {});
        }
        LinkedFrame(abs, abs', ListOf(cells, outer, o).value, L, o, {}, {}, {}, {});
      }
    }
  }

  /// Placement only looks at the root's box and at the box, loose value and
  /// layer of the entry's own cell.
  lemma PlacedKeep<T>(cells: Cells, cells': Cells, loose: Vec3, e: AbNode<T>)
    requires ROOT in cells && ROOT in cells' && Fits(loose) && Placed(cells, loose, e)
    requires cells'[ROOT].aabb == cells[ROOT].aabb
    requires e.parent != 0 ==>
      e.parent in cells' && cells'[e.parent].aabb == cells[e.parent].aabb &&
      cells'[e.parent].loose == cells[e.parent].loose && cells'[e.parent].layer == cells[e.parent].layer
    ensures Placed(cells', loose, e)
  {
  }

  /// An entry placed in a cell beneath the child of slot `i` of `p` fits the
  /// octant of that slot and lies below `p`'s layer.
  lemma PlacedUnder<T>(cells: Cells, canc: map<nat, set<nat>>, loose: Vec3, p: nat, i: nat, e: AbNode<T>)
    requires CellsOk(cells, canc, loose) && p in cells && i < 8 && i < |cells[p].childs| && cells[p].childs[i].Oct?
    requires Placed(cells, loose, e) && e.parent in cells && cells[p].childs[i].oct in canc[e.parent]
    ensures Contains(Octant(cells[p].aabb, cells[p].loose, i), e.aabb) && e.layer > cells[p].layer
  {
    var oct := cells[p].childs[i].oct;
    var d := e.parent;
    ChildAnc(cells, canc, p, i);
    assert CellGeom(cells, canc, loose, d);
    assert CellGeom(cells, canc, loose, oct);
    assert CellShape(cells, canc, d);
  }

  lemma ShrinkEntries<T>(cells: Cells, cells': Cells, abs: Entries<T>, abs': Entries<T>, outer: NodeList,
                         lists: map<Owner, seq<nat>>, canc: map<nat, set<nat>>, loose: Vec3,
                         p: nat, i: nat, nl: NodeList)
    requires Inv(cells, abs, outer, lists, canc, loose, 0, 0, {}, Outer, {})
    requires p in cells && i < 8 && i < |cells[p].childs| && cells[p].childs[i].Oct?
    requires cells[p].childs[i].oct in cells
    requires Pruned(cells, cells', p, i, Sub(cells, canc, cells[p].childs[i].oct), nl)
    requires Rehung(abs, abs', Gather(cells, lists, canc, cells[p].childs[i].oct))
    requires Linked(abs', nl, Gather(cells, lists, canc, cells[p].childs[i].oct), Slot(p, i), {}, {})
    ensures ROOT in cells'
    ensures EntriesOk(cells', abs',
                      ShrunkLists(lists, Sub(cells, canc, cells[p].childs[i].oct), p, i,
                                  Gather(cells, lists, canc, cells[p].childs[i].oct)), loose, 0)
  {
    var oct := cells[p].childs[i].oct;
    var S := Sub(cells, canc, oct);
    var G := Gather(cells, lists, canc, oct);
    var lists' := ShrunkLists(lists, S, p, i, G);
    ShrinkFacts(cells, abs, outer, lists, canc, loose, p, i);
    forall y | y in abs'
      ensures EntryOk(cells', abs', lists', loose, y)
    {
      assert EntryOk(cells, abs, lists, loose, y);
      var e := abs[y];
      if y in G {
        var m :| 0 <= m < |G| && G[m] == y;
        assert LinkOk(abs', G, m, Slot(p, i), {});
        PlacedUnder(cells, canc, loose, p, i, e);
      } else {
        if e.parent != 0 {
          assert OwnerOk(cells, abs, outer, lists, {}, Outer, {}, OwnerOf(e));
        }
        PlacedKeep(cells, cells', loose, e);
      }
    }
  }

  /// A shrink keeps the invariant: with the subtree of the child cell gone,
  /// the slot holding what `shrink` gathered, and the gathered entries
  /// rehung in that slot, every count, list and placement holds.
  lemma InvShrink<T>(cells: Cells, cells': Cells, abs: Entries<T>, abs': Entries<T>, outer: NodeList,
                     lists: map<Owner, seq<nat>>, canc: map<nat, set<nat>>, loose: Vec3,
                     p: nat, i: nat, nl: NodeList)
    requires Inv(cells, abs, outer, lists, canc, loose, 0, 0, {}, Outer, {})
    requires p in cells && i < 8 && i < |cells[p].childs| && cells[p].childs[i].Oct?
    requires cells[p].childs[i].oct in cells
    requires Pruned(cells, cells', p, i, Sub(cells, canc, cells[p].childs[i].oct), nl)
    requires Rehung(abs, abs', Gather(cells, lists, canc, cells[p].childs[i].oct))
    requires Linked(abs', nl, Gather(cells, lists, canc, cells[p].childs[i].oct), Slot(p, i), {}, {})
    ensures Inv(cells', abs', outer,
                ShrunkLists(lists, Sub(cells, canc, cells[p].childs[i].oct), p, i,
                            Gather(cells, lists, canc, cells[p].childs[i].oct)),
                canc - Sub(cells, canc, cells[p].childs[i].oct), loose, 0, 0, {}, Outer, {})
  {
    var G := Gather(cells, lists, canc, cells[p].childs[i].oct);
    ShrinkFacts(cells, abs, outer, lists, canc, loose, p, i);
    ShrinkCells(cells, cells', canc, loose, p, i, nl);
    forall y | y in G
      ensures y in abs' && abs'[y].parent == p
    {
      var m :| 0 <= m < |G| && G[m] == y;
      assert LinkOk(abs', G, m, Slot(p, i), {});
    }
    ShrinkCounts(cells, cells', abs, abs', outer, lists, canc, loose, p, i, nl);
    ShrinkLists(cells, cells', abs, abs', outer, lists, canc, loose, p, i, nl);
    ShrinkEntries(cells, cells', abs, abs', outer, lists, canc, loose, p, i, nl);
  }
}
