// The tree after `split` of cg/src/octree.rs: a slot's list went down into a
// new child cell, and the invariant of the tree holds again.
module OctreeGrow {
  import opened OctreeGeometry
  import opened OctreeState
  import opened OctreeLists
  import opened OctreeGather
  import opened OctreeShrink
  import opened OctreeSplit

  /// The cell `create_child` builds for slot `i` of cell `p`.
  function ChildOf(cells: Cells, p: nat, i: nat): OctNode
    requires p in cells
  {
    CreateChild(cells[p].aabb, cells[p].loose, cells[p].layer, p, i)
  }

  /// What `split_down` left: the new cell `n` (created as `n0`, key `k`)
  /// holds the entries `L` in the lists `Dest` picks, linked both ways, and
  /// each of them hangs there; no other entry changed.
  ghost predicate SplitOut<T>(abs: Entries<T>, abs': Entries<T>, n0: OctNode, n: OctNode, k: nat, L: seq<nat>)
    requires forall y | y in L :: y in abs
  {
    CellKept(n0, n) && |n.childs| == 8 && (forall j | 0 <= j < 8 :: n.childs[j].Ab?) &&
    (forall d | 0 <= d <= 8 :: Linked(abs', CellList(n, d), Bucket(abs, n0, L, d), DestOwner(k, d), {}, {})) &&
    abs'.Keys == abs.Keys &&
    (forall y | y in abs && y !in L :: abs'[y] == abs[y]) &&
    (forall y | y in L :: abs'[y] == Spread(n0, k, abs[y]).(prev := abs'[y].prev, next := abs'[y].next))
  }

  /// The cells after the split: cell `k` is new and slot `i` of `p` holds it
  /// with `cnt` entries beneath; only `p`'s mask may change besides.
  ghost predicate Grown(cells: Cells, cells': Cells, p: nat, i: nat, k: nat, n: OctNode, cnt: nat)
    requires p in cells && i < |cells[p].childs|
  {
    cells'.Keys == cells.Keys + {k} && p in cells' && k in cells' && cells'[k] == n &&
    (forall c | c in cells && c != p :: cells'[c] == cells[c]) &&
    cells'[p] == cells[p].(childs := cells[p].childs[i := Oct(k, cnt)], dirty := cells'[p].dirty)
  }

  /// The list a cell's owner names: 8 for its own list, the slot number
  /// for a slot, 9 for none.
  function DestOf(o: Owner): nat {
    match o
    case Outer => 9
    case Nodes(_) => 8
    case Slot(_, j) => if j < 8 then j else 9
  }

  /// The owners of the lists of a new cell `k`.
  function Owners(k: nat): set<Owner> {
    {Nodes(k), Slot(k, 0), Slot(k, 1), Slot(k, 2), Slot(k, 3), Slot(k, 4), Slot(k, 5), Slot(k, 6), Slot(k, 7)}
  }

  /// The ghost lists after the split: the slot's list is gone and the new
  /// cell's lists are the buckets of its entries.
  ghost function SplitLists<T>(lists: map<Owner, seq<nat>>, abs: Entries<T>, n0: OctNode, p: nat, i: nat,
                               k: nat, L: seq<nat>): (r: map<Owner, seq<nat>>)
    requires forall y | y in L :: y in abs
    ensures forall o :: o in r <==> (o in lists && o != Slot(p, i) && o !in Owners(k)) || o in Owners(k)
    ensures forall o | o in Owners(k) ::
      (DestOf(o) <= 8 && o == DestOwner(k, DestOf(o)) && r[o] == Bucket(abs, n0, L, DestOf(o)))
    ensures forall o | o in r && o !in Owners(k) :: r[o] == lists[o]
  {
    map o | o in (lists.Keys - {Slot(p, i)} - Owners(k)) + Owners(k) ::
      if o in Owners(k) then Bucket(abs, n0, L, DestOf(o)) else lists[o]
  }

  // ---------------------------------------------------------------------

  /// What a split of slot `i` of `p` relies on: the slot's list, whose
  /// entries are exactly those hanging in the slot, and none of them is
  /// stranded by the new child cell.
  lemma SplitFacts<T>(cells: Cells, abs: Entries<T>, outer: NodeList, lists: map<Owner, seq<nat>>,
                      canc: map<nat, set<nat>>, loose: Vec3, p: nat, i: nat)
    requires Inv(cells, abs, outer, lists, canc, loose, 0, 0, {}, Outer, {})
    requires p in cells && i < 8 && i < |cells[p].childs| && cells[p].childs[i].Ab?
    ensures Slot(p, i) in lists
    ensures Linked(abs, cells[p].childs[i].list, lists[Slot(p, i)], Slot(p, i), {}, {})
    ensures forall y :: y in lists[Slot(p, i)] <==> y in abs && OwnerOf(abs[y]) == Slot(p, i)
    ensures forall y | y in lists[Slot(p, i)] :: Dest(ChildOf(cells, p, i), abs[y]) <= 8
  {
    var o := Slot(p, i);
    assert ListOf(cells, outer, o).Some?;
    assert OwnerOk(cells, abs, outer, lists, {}, Outer, {}, o);
    var L := lists[o];
    forall y
      ensures y in L <==> y in abs && OwnerOf(abs[y]) == o
    {
      if y in L {
        var m :| 0 <= m < |L| && L[m] == y;
        assert LinkOk(abs, L, m, o, {});
      }
      if y in abs && OwnerOf(abs[y]) == o {
        assert EntryOk(cells, abs, lists, loose, y);
      }
    }
    forall y | y in L
      ensures Dest(ChildOf(cells, p, i), abs[y]) <= 8
    {
      assert EntryOk(cells, abs, lists, loose, y);
      NoStrand(cells, canc, loose, p, i, abs[y]);
    }
  }

  /// Every entry hangs in cell 0 (outside the root) or in a cell.
  lemma ParentsIn<T>(cells: Cells, abs: Entries<T>, outer: NodeList, lists: map<Owner, seq<nat>>,
                     canc: map<nat, set<nat>>, loose: Vec3, y: nat)
    requires Inv(cells, abs, outer, lists, canc, loose, 0, 0, {}, Outer, {}) && y in abs
    ensures abs[y].parent == 0 || abs[y].parent in cells
  {
    assert EntryOk(cells, abs, lists, loose, y);
  }

  lemma GrowCells(cells: Cells, cells': Cells, canc: map<nat, set<nat>>, loose: Vec3, p: nat, i: nat,
                  k: nat, n: OctNode, cnt: nat)
    requires CellsOk(cells, canc, loose) && p in cells && i < 8 && i < |cells[p].childs| && cells[p].childs[i].Ab?
    requires k != 0 && k !in cells
    requires CellKept(ChildOf(cells, p, i), n) && |n.childs| == 8 && forall j | 0 <= j < 8 :: n.childs[j].Ab?
    requires Grown(cells, cells', p, i, k, n, cnt)
    ensures CellsOk(cells', canc[k := canc[p] + {k}], loose)
  {
    GrowShape(cells, cells', canc, loose, p, i, k, n, cnt);
    GrowGeom(cells, cells', canc, loose, p, i, k, n, cnt);
  }

  lemma GrowShape(cells: Cells, cells': Cells, canc: map<nat, set<nat>>, loose: Vec3, p: nat, i: nat,
                  k: nat, n: OctNode, cnt: nat)
    requires CellsOk(cells, canc, loose) && p in cells && i < 8 && i < |cells[p].childs| && cells[p].childs[i].Ab?
    requires k != 0 && k !in cells
    requires CellKept(ChildOf(cells, p, i), n) && |n.childs| == 8 && forall j | 0 <= j < 8 :: n.childs[j].Ab?
    requires Grown(cells, cells', p, i, k, n, cnt)
    ensures Shape(cells', canc[k := canc[p] + {k}])
  {
    var canc' := canc[k := canc[p] + {k}];
    assert CellShape(cells, canc, ROOT);
    forall c | c in cells'
      ensures CellShape(cells', canc', c)
    {
      if c == k {
        assert CellShape(cells, canc, p);
      } else {
        GrowShapeOld(cells, cells', canc, loose, p, i, k, n, cnt, c);
      }
    }
  }

  /// A cell that was there keeps its shape once the new cell hangs in slot
  /// `i` of `p`.
  lemma GrowShapeOld(cells: Cells, cells': Cells, canc: map<nat, set<nat>>, loose: Vec3, p: nat, i: nat,
                     k: nat, n: OctNode, cnt: nat, c: nat)
    requires CellsOk(cells, canc, loose) && p in cells && i < 8 && i < |cells[p].childs| && cells[p].childs[i].Ab?
    requires k != 0 && k !in cells
    requires CellKept(ChildOf(cells, p, i), n) && |n.childs| == 8
    requires Grown(cells, cells', p, i, k, n, cnt)
    requires c in cells
    ensures c in canc[k := canc[p] + {k}] && CellShape(cells', canc[k := canc[p] + {k}], c)
  {
    assert CellShape(cells, canc, c);
    var q := cells[c];
    if c != ROOT {
      assert CellShape(cells, canc, q.parent);
      if q.parent == p {
        assert q.parentChild != i;
      }
    }
  }

  lemma GrowGeom(cells: Cells, cells': Cells, canc: map<nat, set<nat>>, loose: Vec3, p: nat, i: nat,
                 k: nat, n: OctNode, cnt: nat)
    requires CellsOk(cells, canc, loose) && p in cells && i < 8 && i < |cells[p].childs| && cells[p].childs[i].Ab?
    requires k != 0 && k !in cells
    requires CellKept(ChildOf(cells, p, i), n)
    requires Grown(cells, cells', p, i, k, n, cnt)
    ensures forall c {:trigger CellGeom(cells', canc[k := canc[p] + {k}], loose, c)} | c in cells' ::
      c in canc[k := canc[p] + {k}] && CellGeom(cells', canc[k := canc[p] + {k}], loose, c)
  {
    var canc' := canc[k := canc[p] + {k}];
    forall c | c in cells'
      ensures c in canc' && CellGeom(cells', canc', loose, c)
    {
      if c == k {
        CellGeomNew(cells, cells', canc, loose, p, i, k, n, cnt);
      } else {
        assert CellGeom(cells, canc, loose, c);
        assert CellShape(cells, canc, c);
        if c != ROOT {
          assert CellShape(cells, canc, cells[c].parent);
        }
      }
    }
  }

  /// The geometry of the new cell: the octant of its slot, one layer down,
  /// inside every ancestor of its parent.
  lemma CellGeomNew(cells: Cells, cells': Cells, canc: map<nat, set<nat>>, loose: Vec3, p: nat, i: nat,
                    k: nat, n: OctNode, cnt: nat)
    requires CellsOk(cells, canc, loose) && p in cells && i < 8 && i < |cells[p].childs| && cells[p].childs[i].Ab?
    requires k != 0 && k !in cells
    requires CellKept(ChildOf(cells, p, i), n)
    requires Grown(cells, cells', p, i, k, n, cnt)
    ensures k in canc[k := canc[p] + {k}] && CellGeom(cells', canc[k := canc[p] + {k}], loose, k)
  {
    var c := cells[p];
    var canc' := canc[k := canc[p] + {k}];
    assert CellGeom(cells, canc, loose, p);
    assert CellShape(cells, canc, p);
    LooseStep(loose, c.layer);
    assert k != ROOT;
    assert n.aabb == Octant(c.aabb, c.loose, i) && n.layer == c.layer + 1;
    NewCellInside(cells, cells', canc, loose, p, i, k, n, cnt);
  }

  /// Every ancestor of the new cell contains it and lies above it.
  lemma NewCellInside(cells: Cells, cells': Cells, canc: map<nat, set<nat>>, loose: Vec3, p: nat, i: nat,
                      k: nat, n: OctNode, cnt: nat)
    requires CellsOk(cells, canc, loose) && p in cells && i < 8 && i < |cells[p].childs| && cells[p].childs[i].Ab?
    requires k !in cells && CellKept(ChildOf(cells, p, i), n)
    requires Grown(cells, cells', p, i, k, n, cnt)
    ensures forall a | a in canc[p] + {k} && a in cells' :: Contains(cells'[a].aabb, n.aabb) && cells'[a].layer <= n.layer
  {
    var c := cells[p];
    assert CellGeom(cells, canc, loose, p);
    assert n.aabb == Octant(c.aabb, c.loose, i) && n.layer == c.layer + 1;
    forall a | a in canc[p] + {k} && a in cells'
      ensures Contains(cells'[a].aabb, n.aabb) && cells'[a].layer <= n.layer
    {
      if a != k {
        assert a in canc[p] && a in cells;
        assert cells'[a].aabb == cells[a].aabb && cells'[a].layer == cells[a].layer;
        assert Contains(cells[a].aabb, c.aabb) && cells[a].layer <= c.layer;
      }
    }
  }

  lemma GrowCounts<T>(cells: Cells, cells': Cells, abs: Entries<T>, abs': Entries<T>, outer: NodeList,
                      lists: map<Owner, seq<nat>>, canc: map<nat, set<nat>>, loose: Vec3,
                      p: nat, i: nat, k: nat, n: OctNode)
    requires Inv(cells, abs, outer, lists, canc, loose, 0, 0, {}, Outer, {})
    requires p in cells && i < 8 && i < |cells[p].childs| && cells[p].childs[i].Ab? && k != 0 && k !in cells
    requires Slot(p, i) in lists && forall y | y in lists[Slot(p, i)] :: y in abs
    requires SplitOut(abs, abs', ChildOf(cells, p, i), n, k, lists[Slot(p, i)])
    requires Grown(cells, cells', p, i, k, n, |lists[Slot(p, i)]|)
    ensures Counts(cells', abs', canc[k := canc[p] + {k}], 0, 0)
  {
    var canc' := canc[k := canc[p] + {k}];
    var L := lists[Slot(p, i)];
    SplitFacts(cells, abs, outer, lists, canc, loose, p, i);
    assert CellShape(cells, canc, p);
    forall c | c in cells'
      ensures CountOk(cells', abs', canc', 0, 0, c)
    {
      forall j | 0 <= j < 8 && j < |cells'[c].childs| && cells'[c].childs[j].Oct?
        ensures cells'[c].childs[j].num == |Beneath(abs', canc', cells'[c].childs[j].oct, 0)|
      {
        if c == p && j == i {
          NewCount(cells, abs, abs', outer, lists, canc, loose, p, i, k, n);
        } else {
          OldCount(cells, cells', abs, abs', outer, lists, canc, loose, p, i, k, n, c, j);
        }
      }
    }
  }

  /// The new slot counts the entries that went down.
  lemma NewCount<T>(cells: Cells, abs: Entries<T>, abs': Entries<T>, outer: NodeList,
                    lists: map<Owner, seq<nat>>, canc: map<nat, set<nat>>, loose: Vec3,
                    p: nat, i: nat, k: nat, n: OctNode)
    requires Inv(cells, abs, outer, lists, canc, loose, 0, 0, {}, Outer, {})
    requires p in cells && i < 8 && i < |cells[p].childs| && cells[p].childs[i].Ab? && k != 0 && k !in cells
    requires Slot(p, i) in lists && forall y | y in lists[Slot(p, i)] :: y in abs
    requires SplitOut(abs, abs', ChildOf(cells, p, i), n, k, lists[Slot(p, i)])
    ensures |Beneath(abs', canc[k := canc[p] + {k}], k, 0)| == |lists[Slot(p, i)]|
  {
    var canc' := canc[k := canc[p] + {k}];
    var L := lists[Slot(p, i)];
    var n0 := ChildOf(cells, p, i);
    SplitFacts(cells, abs, outer, lists, canc, loose, p, i);
    forall y
      ensures y in Beneath(abs', canc', k, 0) <==> y in L
    {
      if y in L {
        assert Dest(n0, abs[y]) <= 8;
      } else if y in abs {
        ParentsIn(cells, abs, outer, lists, canc, loose, y);
        var q := abs[y].parent;
        if q in canc {
          assert CellShape(cells, canc, q);
        }
      }
    }
    DistinctCard(L, Beneath(abs', canc', k, 0));
  }

  /// A slot that held a child cell before still counts the same entries:
  /// those that went down into `k` are still beneath every cell they were
  /// beneath.
  lemma OldCount<T>(cells: Cells, cells': Cells, abs: Entries<T>, abs': Entries<T>, outer: NodeList,
                    lists: map<Owner, seq<nat>>, canc: map<nat, set<nat>>, loose: Vec3,
                    p: nat, i: nat, k: nat, n: OctNode, c: nat, j: nat)
    requires Inv(cells, abs, outer, lists, canc, loose, 0, 0, {}, Outer, {})
    requires p in cells && i < 8 && i < |cells[p].childs| && cells[p].childs[i].Ab? && k != 0 && k !in cells
    requires Slot(p, i) in lists && forall y | y in lists[Slot(p, i)] :: y in abs
    requires SplitOut(abs, abs', ChildOf(cells, p, i), n, k, lists[Slot(p, i)])
    requires Grown(cells, cells', p, i, k, n, |lists[Slot(p, i)]|)
    requires c in cells' && j < 8 && j < |cells'[c].childs| && cells'[c].childs[j].Oct? && (c != p || j != i)
    ensures cells'[c].childs[j].num == |Beneath(abs', canc[k := canc[p] + {k}], cells'[c].childs[j].oct, 0)|
  {
    var canc' := canc[k := canc[p] + {k}];
    var L := lists[Slot(p, i)];
    var n0 := ChildOf(cells, p, i);
    SplitFacts(cells, abs, outer, lists, canc, loose, p, i);
    assert c != k;
    assert cells'[c].childs[j] == cells[c].childs[j];
    var g := cells[c].childs[j].oct;
    assert CountOk(cells, abs, canc, 0, 0, c);
    assert CellShape(cells, canc, c);
    assert g in cells && g != k;
    forall y
      ensures y in Beneath(abs', canc', g, 0) <==> y in Beneath(abs, canc, g, 0)
    {
      if y in L {
        assert Dest(n0, abs[y]) <= 8;
        assert abs[y].parent == p && abs'[y].parent == k;
      } else if y in abs {
        ParentsIn(cells, abs, outer, lists, canc, loose, y);
      }
      BeneathStays(abs, abs', canc, p, k, g, L, y);
    }
    assert Beneath(abs', canc', g, 0) == Beneath(abs, canc, g, 0);
  }

  /// Whether entry `y` lies beneath cell `g` is the same before and after
  /// the entries `L` of a slot of `p` moved into the new cell `k`.
  lemma BeneathStays<T>(abs: Entries<T>, abs': Entries<T>, canc: map<nat, set<nat>>, p: nat, k: nat, g: nat,
                        L: seq<nat>, y: nat)
    requires g != k && p in canc && abs'.Keys == abs.Keys
    requires y in abs && y !in L ==> abs'[y] == abs[y] && abs[y].parent != k
    requires y in L ==> y in abs && abs[y].parent == p && abs'[y].parent == k
    ensures y in Beneath(abs', canc[k := canc[p] + {k}], g, 0) <==> y in Beneath(abs, canc, g, 0)
  {
  }

  lemma GrowLists<T>(cells: Cells, cells': Cells, abs: Entries<T>, abs': Entries<T>, outer: NodeList,
                     lists: map<Owner, seq<nat>>, canc: map<nat, set<nat>>, loose: Vec3,
                     p: nat, i: nat, k: nat, n: OctNode)
    requires Inv(cells, abs, outer, lists, canc, loose, 0, 0, {}, Outer, {})
    requires p in cells && i < 8 && i < |cells[p].childs| && cells[p].childs[i].Ab? && k != 0 && k !in cells
    requires Slot(p, i) in lists && forall y | y in lists[Slot(p, i)] :: y in abs
    requires SplitOut(abs, abs', ChildOf(cells, p, i), n, k, lists[Slot(p, i)])
    requires Grown(cells, cells', p, i, k, n, |lists[Slot(p, i)]|)
    ensures ListsOk(cells', abs', outer,
                    SplitLists(lists, abs, ChildOf(cells, p, i), p, i, k, lists[Slot(p, i)]), {}, Outer, {})
  {
    var L := lists[Slot(p, i)];
    var n0 := ChildOf(cells, p, i);
    var lists' := SplitLists(lists, abs, n0, p, i, k, L);
    GrowListed(cells, cells', abs, outer, lists, canc, loose, p, i, k, n, |L|, lists');
    SplitFacts(cells, abs, outer, lists, canc, loose, p, i);
    forall o | o in lists'
      ensures OwnerOk(cells', abs', outer, lists', {}, Outer, {}, o)
    {
      if o in Owners(k) {
        assert ListOf(cells', outer, o) == Some(CellList(n, DestOf(o)));
      } else {
        OldList(cells, cells', abs, abs', outer, lists, canc, loose, p, i, k, n, o);
      }
    }
  }

  /// Every list of the grown tree has a ghost list.
  lemma GrowListed<T>(cells: Cells, cells': Cells, abs: Entries<T>, outer: NodeList,
                      lists: map<Owner, seq<nat>>, canc: map<nat, set<nat>>, loose: Vec3,
                      p: nat, i: nat, k: nat, n: OctNode, cnt: nat, lists': map<Owner, seq<nat>>)
    requires Inv(cells, abs, outer, lists, canc, loose, 0, 0, {}, Outer, {})
    requires p in cells && i < 8 && i < |cells[p].childs| && k !in cells
    requires |n.childs| == 8 && Grown(cells, cells', p, i, k, n, cnt)
    requires forall o :: o in lists' <==> (o in lists && o != Slot(p, i) && o !in Owners(k)) || o in Owners(k)
    ensures forall o {:trigger ListOf(cells', outer, o)} :: ListOf(cells', outer, o).Some? ==> o in lists'
  {
    forall o | ListOf(cells', outer, o).Some?
      ensures o in lists'
    {
      if o !in Owners(k) && o != Slot(p, i) {
        assert ListOf(cells, outer, o).Some?;
      }
    }
  }

  /// A list the split did not touch.
  lemma OldList<T>(cells: Cells, cells': Cells, abs: Entries<T>, abs': Entries<T>, outer: NodeList,
                   lists: map<Owner, seq<nat>>, canc: map<nat, set<nat>>, loose: Vec3,
                   p: nat, i: nat, k: nat, n: OctNode, o: Owner)
    requires Inv(cells, abs, outer, lists, canc, loose, 0, 0, {}, Outer, {})
    requires p in cells && i < 8 && i < |cells[p].childs| && cells[p].childs[i].Ab? && k != 0 && k !in cells
    requires Slot(p, i) in lists && forall y | y in lists[Slot(p, i)] :: y in abs
    requires forall y :: y in lists[Slot(p, i)] <==> y in abs && OwnerOf(abs[y]) == Slot(p, i)
    requires SplitOut(abs, abs', ChildOf(cells, p, i), n, k, lists[Slot(p, i)])
    requires Grown(cells, cells', p, i, k, n, |lists[Slot(p, i)]|)
    requires o in lists && o != Slot(p, i) && o !in Owners(k)
    ensures ListOf(cells, outer, o).Some? && ListOf(cells', outer, o) == ListOf(cells, outer, o)
    ensures Linked(abs', ListOf(cells, outer, o).value, lists[o], o, {}, {})
  {
    var L := lists[Slot(p, i)];
    assert OwnerOk(cells, abs, outer, lists, {}, Outer, {}, o);
    assert CellOf(o) != k;
    var B := lists[o];
    forall y | y in B
      ensures y !in Members(L)
    {
      var m :| 0 <= m < |B| && B[m] == y;
      assert LinkOk(abs, B, m, o, {});
    }
    FixFrame(abs, abs', ListOf(cells, outer, o).value, B, o, {}, Members(L));
  }

  lemma GrowEntries<T>(cells: Cells, cells': Cells, abs: Entries<T>, abs': Entries<T>, outer: NodeList,
                       lists: map<Owner, seq<nat>>, canc: map<nat, set<nat>>, loose: Vec3,
                       p: nat, i: nat, k: nat, n: OctNode)
    requires Inv(cells, abs, outer, lists, canc, loose, 0, 0, {}, Outer, {})
    requires p in cells && i < 8 && i < |cells[p].childs| && cells[p].childs[i].Ab? && k != 0 && k !in cells
    requires Slot(p, i) in lists && forall y | y in lists[Slot(p, i)] :: y in abs
    requires SplitOut(abs, abs', ChildOf(cells, p, i), n, k, lists[Slot(p, i)])
    requires Grown(cells, cells', p, i, k, n, |lists[Slot(p, i)]|)
    ensures ROOT in cells'
    ensures EntriesOk(cells', abs',
                      SplitLists(lists, abs, ChildOf(cells, p, i), p, i, k, lists[Slot(p, i)]), loose, 0)
  {
    var L := lists[Slot(p, i)];
    var n0 := ChildOf(cells, p, i);
    var lists' := SplitLists(lists, abs, n0, p, i, k, L);
    SplitFacts(cells, abs, outer, lists, canc, loose, p, i);
    forall y | y in abs'
      ensures EntryOk(cells', abs', lists', loose, y)
    {
      if y in L {
        NewEntry(cells, cells', abs, abs', outer, lists, canc, loose, p, i, k, n, y);
      } else {
        assert EntryOk(cells, abs, lists, loose, y);
        var e := abs[y];
        if e.parent != 0 {
          assert OwnerOk(cells, abs, outer, lists, {}, Outer, {}, OwnerOf(e));
        }
        PlacedKeep(cells, cells', loose, e);
      }
    }
  }

  /// An entry that went down hangs in the list `Dest` picked, and fits it.
  lemma NewEntry<T>(cells: Cells, cells': Cells, abs: Entries<T>, abs': Entries<T>, outer: NodeList,
                    lists: map<Owner, seq<nat>>, canc: map<nat, set<nat>>, loose: Vec3,
                    p: nat, i: nat, k: nat, n: OctNode, y: nat)
    requires Inv(cells, abs, outer, lists, canc, loose, 0, 0, {}, Outer, {})
    requires p in cells && i < 8 && i < |cells[p].childs| && cells[p].childs[i].Ab? && k != 0 && k !in cells
    requires Slot(p, i) in lists && forall y | y in lists[Slot(p, i)] :: y in abs
    requires forall y | y in lists[Slot(p, i)] :: OwnerOf(abs[y]) == Slot(p, i)
    requires forall y | y in lists[Slot(p, i)] :: Dest(ChildOf(cells, p, i), abs[y]) <= 8
    requires SplitOut(abs, abs', ChildOf(cells, p, i), n, k, lists[Slot(p, i)])
    requires Grown(cells, cells', p, i, k, n, |lists[Slot(p, i)]|)
    requires y in lists[Slot(p, i)]
    ensures ROOT in cells' && y in abs'
    ensures EntryOk(cells', abs', SplitLists(lists, abs, ChildOf(cells, p, i), p, i, k, lists[Slot(p, i)]), loose, y)
  {
    var L := lists[Slot(p, i)];
    var n0 := ChildOf(cells, p, i);
    var e := abs[y];
    var d := Dest(n0, e);
    var lists' := SplitLists(lists, abs, n0, p, i, k, L);
    assert d <= 8;
    assert abs'[y] == Spread(n0, k, e).(prev := abs'[y].prev, next := abs'[y].next);
    assert OwnerOf(abs'[y]) == DestOwner(k, d);
    BucketHas(abs, n0, L, d);
    DestOwnerIn(k, d);
    assert lists'[DestOwner(k, d)] == Bucket(abs, n0, L, d);
    assert EntryOk(cells, abs, lists, loose, y);
    PlacedSpread(cells, cells', loose, p, i, k, n, |L|, e, abs'[y]);
  }

  /// The list a destination names is one of the new cell's.
  lemma DestOwnerIn(k: nat, d: nat)
    requires d <= 8
    ensures DestOwner(k, d) in Owners(k) && DestOf(DestOwner(k, d)) == d
  {
  }

  /// An entry of slot `i` of `p`, once `split_down` moves it to the new cell
  /// `k` in that slot, fits where it went.
  lemma PlacedSpread<T>(cells: Cells, cells': Cells, loose: Vec3, p: nat, i: nat, k: nat, n: OctNode,
                        cnt: nat, e: AbNode<T>, e': AbNode<T>)
    requires ROOT in cells && Fits(loose) && ROOT in cells'
    requires p in cells && i < 8 && i < |cells[p].childs| && k != 0 && k !in cells
    requires Grown(cells, cells', p, i, k, n, cnt)
    requires CellKept(ChildOf(cells, p, i), n)
    requires Placed(cells, loose, e) && OwnerOf(e) == Slot(p, i) && Dest(ChildOf(cells, p, i), e) <= 8
    requires e' == Spread(ChildOf(cells, p, i), k, e).(prev := e'.prev, next := e'.next)
    ensures Placed(cells', loose, e')
  {
    var n0 := ChildOf(cells, p, i);
    DestSpec(n0, e);
    assert k in cells' && cells'[k] == n && k != ROOT;
    assert e.layer > cells[p].layer && Contains(Octant(cells[p].aabb, cells[p].loose, i), e.aabb);
  }

  /// A split keeps the invariant: with the new cell `k` in slot `i` of `p`,
  /// counting the slot's entries, and those entries in the new cell's lists,
  /// every shape, count, list and placement holds.
  lemma InvSplit<T>(cells: Cells, cells': Cells, abs: Entries<T>, abs': Entries<T>, outer: NodeList,
                    lists: map<Owner, seq<nat>>, canc: map<nat, set<nat>>, loose: Vec3,
                    p: nat, i: nat, k: nat, n: OctNode)
    requires Inv(cells, abs, outer, lists, canc, loose, 0, 0, {}, Outer, {})
    requires p in cells && i < 8 && i < |cells[p].childs| && cells[p].childs[i].Ab? && k != 0 && k !in cells
    requires Slot(p, i) in lists && forall y | y in lists[Slot(p, i)] :: y in abs
    requires SplitOut(abs, abs', ChildOf(cells, p, i), n, k, lists[Slot(p, i)])
    requires Grown(cells, cells', p, i, k, n, |lists[Slot(p, i)]|)
    ensures Inv(cells', abs', outer, SplitLists(lists, abs, ChildOf(cells, p, i), p, i, k, lists[Slot(p, i)]),
                canc[k := canc[p] + {k}], loose, 0, 0, {}, Outer, {})
  {
    GrowCells(cells, cells', canc, loose, p, i, k, n, |lists[Slot(p, i)]|);
    GrowCounts(cells, cells', abs, abs', outer, lists, canc, loose, p, i, k, n);
    GrowLists(cells, cells', abs, abs', outer, lists, canc, loose, p, i, k, n);
    GrowEntries(cells, cells', abs, abs', outer, lists, canc, loose, p, i, k, n);
  }
}
