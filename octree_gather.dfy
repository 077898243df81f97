// `shrink` and `shrink_merge` of cg/src/octree.rs: the lists of a cell's
// whole subtree are merged, one list after another, into a single list whose
// entries all hang in one slot of the cell above.
module OctreeGather {
  import opened OctreeGeometry
  import opened OctreeState
  import opened OctreeLists
  import opened OctreeCounts

  /// The entries `shrink` gathers from the subtree of cell `k`, in the order
  /// of the merged list: every list merged lands in front of the ones
  /// before it, so the slots come last slot first, then the cell's own list.
  ghost function Gather(cells: Cells, lists: map<Owner, seq<nat>>, canc: map<nat, set<nat>>, k: nat): seq<nat>
    requires Shape(cells, canc) && k in cells
    decreases cells.Keys - canc[k], 9
  {
    GatherBelow(cells, lists, canc, k, 8) + ListAt(lists, Nodes(k))
  }

  /// What the slots of cell `k` below `j` contribute, slot `j - 1` first.
  ghost function GatherBelow(cells: Cells, lists: map<Owner, seq<nat>>, canc: map<nat, set<nat>>,
                             k: nat, j: nat): seq<nat>
    requires Shape(cells, canc) && k in cells && j <= 8
    decreases cells.Keys - canc[k], j
  {
    if j == 0 then []
    else Part(cells, lists, canc, k, j - 1) + GatherBelow(cells, lists, canc, k, j - 1)
  }

  /// What slot `j` of cell `k` contributes: its list, or all that its child
  /// cell gathers.
  ghost function Part(cells: Cells, lists: map<Owner, seq<nat>>, canc: map<nat, set<nat>>, k: nat, j: nat): seq<nat>
    requires Shape(cells, canc) && k in cells && j < 8
    decreases cells.Keys - canc[k], j, 0
  {
    assert CellShape(cells, canc, k);
    match cells[k].childs[j]
    case Oct(k2, _) =>
      assert CellShape(cells, canc, k2);
      Gather(cells, lists, canc, k2)
    case Ab(_) => ListAt(lists, Slot(k, j))
  }

  /// The cells of the subtree of cell `k`, `k` included.
  ghost function Sub(cells: Cells, canc: map<nat, set<nat>>, k: nat): set<nat> {
    set c | c in cells && c in canc && k in canc[c]
  }

  /// Entry record `e` lies beneath slot `j` of cell `k`: in that slot's list
  /// or beneath the child cell there.
  ghost predicate InSlot<T>(cells: Cells, canc: map<nat, set<nat>>, k: nat, j: nat, e: AbNode<T>)
    requires k in cells && j < 8 && |cells[k].childs| == 8
  {
    (e.parent == k && e.parentChild == j) ||
    (cells[k].childs[j].Oct? && e.parent in canc && cells[k].childs[j].oct in canc[e.parent])
  }

  // ---------------------------------------------------------------------
  // The ancestors of a cell form a chain.

  /// Two cells with the same parent are never both ancestors of one cell.
  lemma {:induction false} SiblingsApart(cells: Cells, canc: map<nat, set<nat>>, d: nat, a: nat, b: nat)
    requires Shape(cells, canc) && d in cells && a in canc[d] && b in canc[d]
    requires a in cells && b in cells && a != ROOT && b != ROOT && cells[a].parent == cells[b].parent
    ensures a == b
    decreases canc[d]
  {
    assert CellShape(cells, canc, d);
    assert CellShape(cells, canc, a);
    assert CellShape(cells, canc, b);
    if a != d && b != d {
      SiblingsApart(cells, canc, cells[d].parent, a, b);
    }
  }

  /// Of two ancestors of a cell, one is an ancestor of the other.
  lemma {:induction false} AncChain(cells: Cells, canc: map<nat, set<nat>>, d: nat, a: nat, b: nat)
    requires Shape(cells, canc) && d in cells && a in canc[d] && b in canc[d]
    ensures a in cells && b in cells && (a in canc[b] || b in canc[a])
    decreases canc[d]
  {
    assert CellShape(cells, canc, d);
    AncClosed(cells, canc, a, d);
    AncClosed(cells, canc, b, d);
    if a != d && b != d {
      AncChain(cells, canc, cells[d].parent, a, b);
    }
  }

  /// An entry lies beneath at most one slot of a cell.
  lemma SlotUnique<T>(cells: Cells, canc: map<nat, set<nat>>, k: nat, a: nat, b: nat, e: AbNode<T>)
    requires Shape(cells, canc) && k in cells && a < 8 && b < 8 && |cells[k].childs| == 8
    requires InSlot(cells, canc, k, a, e) && InSlot(cells, canc, k, b, e)
    ensures a == b
  {
    assert CellShape(cells, canc, k);
    var n := cells[k];
    if n.childs[a].Oct? {
      assert CellShape(cells, canc, n.childs[a].oct);
    }
    if n.childs[b].Oct? {
      assert CellShape(cells, canc, n.childs[b].oct);
    }
    if n.childs[a].Oct? && n.childs[b].Oct? && e.parent in canc && e.parent != k &&
       n.childs[a].oct in canc[e.parent] && n.childs[b].oct in canc[e.parent] {
      SiblingsApart(cells, canc, e.parent, n.childs[a].oct, n.childs[b].oct);
    }
  }

  /// An entry beneath a slot of a cell is not in the cell's own list.
  lemma SlotNotOwn<T>(cells: Cells, canc: map<nat, set<nat>>, k: nat, j: nat, e: AbNode<T>)
    requires Shape(cells, canc) && k in cells && j < 8 && |cells[k].childs| == 8
    requires InSlot(cells, canc, k, j, e)
    ensures !(e.parent == k && e.parentChild >= 8)
  {
    assert CellShape(cells, canc, k);
    if cells[k].childs[j].Oct? {
      assert CellShape(cells, canc, cells[k].childs[j].oct);
    }
  }

  lemma DistinctConcat(a: seq<nat>, b: seq<nat>)
    requires Distinct(a) && Distinct(b) && forall y | y in a :: y !in b
    ensures Distinct(a + b)
  {
    forall i, j | 0 <= i < j < |a + b|
      ensures (a + b)[i] != (a + b)[j]
    {
      if j < |a| {
      } else if i >= |a| {
        assert (a + b)[i] == b[i - |a|] && (a + b)[j] == b[j - |a|];
      } else {
        assert (a + b)[i] in a && (a + b)[j] == b[j - |a|];
      }
    }
  }

  // ---------------------------------------------------------------------
  // What `shrink` gathers is the set of entries beneath the cell, each once.

  /// The entries of the list of an owner in cell `k` hang in `k`.
  lemma ListFacts<T>(cells: Cells, abs: Entries<T>, outer: NodeList, lists: map<Owner, seq<nat>>,
                     canc: map<nat, set<nat>>, loose: Vec3, o: Owner)
    requires Inv(cells, abs, outer, lists, canc, loose, 0, 0, {}, Outer, {})
    requires ListOf(cells, outer, o).Some?
    ensures o in lists && ListAt(lists, o) == lists[o]
    ensures Linked(abs, ListOf(cells, outer, o).value, lists[o], o, {}, {})
    ensures Distinct(lists[o]) && 0 !in lists[o]
    ensures forall y | y in lists[o] :: y in abs && OwnerOf(abs[y]) == o
  {
    assert OwnerOk(cells, abs, outer, lists, {}, Outer, {}, o);
    forall y | y in lists[o]
      ensures y in abs && OwnerOf(abs[y]) == o
    {
      var j :| 0 <= j < |lists[o]| && lists[o][j] == y;
      assert LinkOk(abs, lists[o], j, o, {});
    }
  }

  lemma {:induction false} GatherFacts<T>(cells: Cells, abs: Entries<T>, outer: NodeList,
                                         lists: map<Owner, seq<nat>>, canc: map<nat, set<nat>>,
                                         loose: Vec3, k: nat)
    requires Inv(cells, abs, outer, lists, canc, loose, 0, 0, {}, Outer, {}) && k in cells
    ensures Distinct(Gather(cells, lists, canc, k)) && 0 !in Gather(cells, lists, canc, k)
    ensures forall y | y in Gather(cells, lists, canc, k) ::
      y in abs && abs[y].parent in cells && k in canc[abs[y].parent]
    decreases cells.Keys - canc[k], 9
  {
    assert CellShape(cells, canc, k);
    GatherBelowFacts(cells, abs, outer, lists, canc, loose, k, 8);
    ListFacts(cells, abs, outer, lists, canc, loose, Nodes(k));
    var A := GatherBelow(cells, lists, canc, k, 8);
    var B := lists[Nodes(k)];
    forall y | y in B
      ensures y in abs && abs[y].parent == k && abs[y].parentChild >= 8
    {
    }
    DistinctConcat(A, B);
  }

  lemma {:induction false} GatherBelowFacts<T>(cells: Cells, abs: Entries<T>, outer: NodeList,
                                              lists: map<Owner, seq<nat>>, canc: map<nat, set<nat>>,
                                              loose: Vec3, k: nat, j: nat)
    requires Inv(cells, abs, outer, lists, canc, loose, 0, 0, {}, Outer, {}) && k in cells && j <= 8
    ensures |cells[k].childs| == 8
    ensures Distinct(GatherBelow(cells, lists, canc, k, j)) && 0 !in GatherBelow(cells, lists, canc, k, j)
    ensures forall y | y in GatherBelow(cells, lists, canc, k, j) ::
      y in abs && abs[y].parent in cells && k in canc[abs[y].parent] &&
      !(abs[y].parent == k && abs[y].parentChild >= 8) &&
      forall j0 | j <= j0 < 8 :: !InSlot(cells, canc, k, j0, abs[y])
    decreases cells.Keys - canc[k], j
  {
    assert CellShape(cells, canc, k);
    if j > 0 {
      PartFacts(cells, abs, outer, lists, canc, loose, k, j - 1);
      GatherBelowFacts(cells, abs, outer, lists, canc, loose, k, j - 1);
      var P := Part(cells, lists, canc, k, j - 1);
      var G := GatherBelow(cells, lists, canc, k, j - 1);
      forall y | y in P
        ensures !(abs[y].parent == k && abs[y].parentChild >= 8)
        ensures forall j0 | j - 1 <= j0 < 8 :: j0 != j - 1 ==> !InSlot(cells, canc, k, j0, abs[y])
      {
        SlotNotOwn(cells, canc, k, j - 1, abs[y]);
        forall j0 | j - 1 <= j0 < 8 && j0 != j - 1
          ensures !InSlot(cells, canc, k, j0, abs[y])
        {
          if InSlot(cells, canc, k, j0, abs[y]) {
            SlotUnique(cells, canc, k, j - 1, j0, abs[y]);
          }
        }
      }
      DistinctConcat(P, G);
    }
  }

  lemma {:induction false} PartFacts<T>(cells: Cells, abs: Entries<T>, outer: NodeList,
                                       lists: map<Owner, seq<nat>>, canc: map<nat, set<nat>>,
                                       loose: Vec3, k: nat, j: nat)
    requires Inv(cells, abs, outer, lists, canc, loose, 0, 0, {}, Outer, {}) && k in cells && j < 8
    ensures |cells[k].childs| == 8
    ensures Distinct(Part(cells, lists, canc, k, j)) && 0 !in Part(cells, lists, canc, k, j)
    ensures forall y | y in Part(cells, lists, canc, k, j) ::
      y in abs && abs[y].parent in cells && k in canc[abs[y].parent] && InSlot(cells, canc, k, j, abs[y])
    decreases cells.Keys - canc[k], j, 0
  {
    assert CellShape(cells, canc, k);
    var n := cells[k];
    if n.childs[j].Oct? {
      var k2 := n.childs[j].oct;
      assert CellShape(cells, canc, k2);
      GatherFacts(cells, abs, outer, lists, canc, loose, k2);
      forall y | y in Gather(cells, lists, canc, k2)
        ensures k in canc[abs[y].parent]
      {
        AncClosed(cells, canc, k2, abs[y].parent);
      }
    } else {
      assert ListOf(cells, outer, Slot(k, j)).Some?;
      ListFacts(cells, abs, outer, lists, canc, loose, Slot(k, j));
    }
  }

  /// Slot `j` is gathered with every slot from `j + 1` on.
  lemma {:induction false} PartIn(cells: Cells, lists: map<Owner, seq<nat>>, canc: map<nat, set<nat>>,
                                 k: nat, j: nat, m: nat, y: nat)
    requires Shape(cells, canc) && k in cells && j < m <= 8
    requires y in Part(cells, lists, canc, k, j)
    ensures y in GatherBelow(cells, lists, canc, k, m)
    decreases m
  {
    if j < m - 1 {
      PartIn(cells, lists, canc, k, j, m - 1, y);
    }
  }

  /// Every entry beneath cell `k` is gathered.
  lemma {:induction false} GatherComplete<T>(cells: Cells, abs: Entries<T>, outer: NodeList,
                                            lists: map<Owner, seq<nat>>, canc: map<nat, set<nat>>,
                                            loose: Vec3, k: nat, y: nat)
    requires Inv(cells, abs, outer, lists, canc, loose, 0, 0, {}, Outer, {}) && k in cells
    requires y in abs && abs[y].parent in cells && k in canc[abs[y].parent]
    ensures y in Gather(cells, lists, canc, k)
    decreases cells.Keys - canc[k]
  {
    var d := abs[y].parent;
    assert EntryOk(cells, abs, lists, loose, y);
    var o := OwnerOf(abs[y]);
    assert CellShape(cells, canc, k);
    if d == k {
      if o.Slot? {
        assert OwnerOk(cells, abs, outer, lists, {}, Outer, {}, o);
        assert y in Part(cells, lists, canc, k, o.i);
        PartIn(cells, lists, canc, k, o.i, 8, y);
      }
    } else {
      var i := ChildOnPath(cells, canc, k, d);
      var k2 := cells[k].childs[i].oct;
      assert CellShape(cells, canc, k2);
      GatherComplete(cells, abs, outer, lists, canc, loose, k2, y);
      assert y in Part(cells, lists, canc, k, i);
      PartIn(cells, lists, canc, k, i, 8, y);
    }
  }

  /// A list without repetitions has as many elements as the set of them.
  lemma {:induction false} DistinctCard(s: seq<nat>, S: set<nat>)
    requires Distinct(s) && forall y :: y in s <==> y in S
    ensures |S| == |s|
  {
    if s != [] {
      var t := s[..|s| - 1];
      var last := s[|s| - 1];
      assert s == t + [last];
      assert Distinct(t);
      assert last !in t;
      DistinctCard(t, S - {last});
    }
  }

  /// `shrink` gathers exactly the entries beneath cell `k`, each once, so as
  /// many as the slot holding `k` counts.
  lemma GatherIsBeneath<T>(cells: Cells, abs: Entries<T>, outer: NodeList, lists: map<Owner, seq<nat>>,
                           canc: map<nat, set<nat>>, loose: Vec3, k: nat)
    requires Inv(cells, abs, outer, lists, canc, loose, 0, 0, {}, Outer, {}) && k in cells
    ensures Distinct(Gather(cells, lists, canc, k))
    ensures forall y :: y in Gather(cells, lists, canc, k) <==> y in Beneath(abs, canc, k, 0)
    ensures |Gather(cells, lists, canc, k)| == |Beneath(abs, canc, k, 0)|
  {
    var G := Gather(cells, lists, canc, k);
    GatherFacts(cells, abs, outer, lists, canc, loose, k);
    forall y | y in Beneath(abs, canc, k, 0)
      ensures y in G
    {
      assert EntryOk(cells, abs, lists, loose, y);
      GatherComplete(cells, abs, outer, lists, canc, loose, k, y);
    }
    DistinctCard(G, Beneath(abs, canc, k, 0));
  }

  // ---------------------------------------------------------------------
  // The merge.

  /// The records of `abs'` are those of `abs` but for the place and links
  /// of the entries of `moved`.
  ghost predicate Rehung<T>(abs: Entries<T>, abs': Entries<T>, moved: seq<nat>) {
    abs'.Keys == abs.Keys &&
    (forall y | y in abs && y !in moved :: abs'[y] == abs[y]) &&
    forall y | y in abs ::
      abs'[y] == abs[y].(parent := abs'[y].parent, parentChild := abs'[y].parentChild,
                         prev := abs'[y].prev, next := abs'[y].next)
  }

  lemma RehungTrans<T>(a0: Entries<T>, a1: Entries<T>, a2: Entries<T>, m1: seq<nat>, m2: seq<nat>)
    requires Rehung(a0, a1, m1) && Rehung(a1, a2, m2) && forall y | y in m1 :: y in m2
    ensures Rehung(a0, a2, m2)
  {
  }

  /// `shrink_merge`: the list `A` of owner `oA`, whose record is `list`,
  /// moves in front of the list `R` gathered so far: its entries now hang in
  /// slot `i` of cell `p`, its last entry is followed by the old head and
  /// the old head points back to it.
  method ShrinkMerge<T>(abs: Entries<T>, p: nat, i: nat, list: NodeList, result: NodeList,
                        ghost A: seq<nat>, ghost oA: Owner, ghost R: seq<nat>)
    returns (abs': Entries<T>, result': NodeList)
    requires p != 0 && i < 8 && list.len > 0
    requires Linked(abs, list, A, oA, {}, {}) && Linked(abs, result, R, Slot(p, i), {}, {})
    requires forall y | y in A :: y !in R
    ensures Linked(abs', result', A + R, Slot(p, i), {}, {})
    ensures Rehung(abs, abs', A + R)
  {
    var head := result.head;
    result' := NodeList(list.head, result.len + list.len);
    abs' := abs;
    var id := list.head;
    ghost var k := 0;
    forall j | 0 <= j < |A| ensures A[j] in abs {
      assert LinkOk(abs, A, j, oA, {});
    }
    forall j | 0 <= j < |R| ensures R[j] in abs {
      assert LinkOk(abs, R, j, Slot(p, i), {});
    }
    while abs'[id].next != 0
      invariant forall j | 0 <= j < |A| :: A[j] in abs
      invariant k < |A| && id == A[k]
      invariant abs'.Keys == abs.Keys
      invariant forall y | y in abs && y !in A[..k] :: abs'[y] == abs[y]
      invariant forall j | 0 <= j < k :: abs'[A[j]] == abs[A[j]].(parent := p, parentChild := i)
      decreases |A| - k
    {
      assert LinkOk(abs, A, k, oA, {});
      assert A[k] !in A[..k];
      abs' := abs'[id := abs'[id].(parent := p, parentChild := i)];
      id := abs'[id].next;
      k := k + 1;
      assert A[..k] == A[..k - 1] + [A[k - 1]];
    }
    assert LinkOk(abs, A, k, oA, {});
    assert A[k] !in A[..k];
    assert k == |A| - 1;
    abs' := abs'[id := abs'[id].(parent := p, parentChild := i, next := head)];
    ghost var abs1 := abs';
    if head > 0 {
      assert LinkOk(abs, R, 0, Slot(p, i), {});
      abs' := abs'[head := abs'[head].(prev := id)];
    }
    MergeLinked(abs, abs1, abs', p, i, A, oA, R, result');
  }

  lemma MergeLinked<T>(abs: Entries<T>, abs1: Entries<T>, abs': Entries<T>, p: nat, i: nat,
                       A: seq<nat>, oA: Owner, R: seq<nat>, result': NodeList)
    requires p != 0 && i < 8 && |A| > 0
    requires Linked(abs, NodeList(A[0], |A|), A, oA, {}, {}) && Linked(abs, NodeList(if |R| == 0 then 0 else R[0], |R|), R, Slot(p, i), {}, {})
    requires forall y | y in A :: y !in R
    requires forall y | y in A :: y in abs
    requires forall y | y in R :: y in abs
    requires result' == NodeList(A[0], |R| + |A|)
    requires abs1.Keys == abs.Keys
    requires forall y | y in abs && y !in A :: abs1[y] == abs[y]
    requires forall j | 0 <= j < |A| - 1 :: abs1[A[j]] == abs[A[j]].(parent := p, parentChild := i)
    requires abs1[A[|A| - 1]] == abs[A[|A| - 1]].(parent := p, parentChild := i, next := if |R| == 0 then 0 else R[0])
    requires abs' == if |R| == 0 then abs1 else abs1[R[0] := abs1[R[0]].(prev := A[|A| - 1])]
    ensures Linked(abs', result', A + R, Slot(p, i), {}, {})
    ensures Rehung(abs, abs', A + R)
  {
    var L := A + R;
    var n := |A|;
    forall j | 0 <= j < |L|
      ensures LinkOk(abs', L, j, Slot(p, i), {})
    {
      if j < n {
        assert L[j] == A[j];
        assert LinkOk(abs, A, j, oA, {});
        if j + 1 < n {
          assert L[j + 1] == A[j + 1];
        }
        if j > 0 {
          assert L[j - 1] == A[j - 1];
        }
        if |R| > 0 {
          assert A[j] in A && R[0] in R;
        }
      } else {
        assert L[j] == R[j - n];
        assert LinkOk(abs, R, j - n, Slot(p, i), {});
        assert L[j] !in A;
        if j + 1 < |L| {
          assert L[j + 1] == R[j - n + 1];
        }
        if j > n {
          assert L[j - 1] == R[j - n - 1];
          assert R[j - n] != R[0];
        }
      }
    }
    DistinctConcat(A, R);
  }

  /// `shrink` from cell `k` in front of the list `R` gathered so far, whose
  /// entries hang in slot `i` of cell `p`: every list of `k`'s subtree is
  /// merged, `k`'s own list first, then slot by slot, skipping empty lists
  /// and child cells that count nothing.
  method Shrink<T>(cells: Cells, abs: Entries<T>, ghost abs0: Entries<T>, ghost outer: NodeList,
                   ghost lists: map<Owner, seq<nat>>, ghost canc: map<nat, set<nat>>, ghost loose: Vec3,
                   p: nat, i: nat, k: nat, result: NodeList, ghost R: seq<nat>)
    returns (abs': Entries<T>, result': NodeList)
    requires Inv(cells, abs0, outer, lists, canc, loose, 0, 0, {}, Outer, {}) && k in cells && p != 0 && i < 8
    requires Rehung(abs0, abs, R) && Linked(abs, result, R, Slot(p, i), {}, {})
    requires forall y | y in R :: y !in Gather(cells, lists, canc, k)
    ensures Rehung(abs0, abs', Gather(cells, lists, canc, k) + R)
    ensures Linked(abs', result', Gather(cells, lists, canc, k) + R, Slot(p, i), {}, {})
    decreases cells.Keys - canc[k], 3
  {
    var node := cells[k];
    GatherFacts(cells, abs0, outer, lists, canc, loose, k);
    assert CellShape(cells, canc, k);
    ListFacts(cells, abs0, outer, lists, canc, loose, Nodes(k));
    ghost var A := lists[Nodes(k)];
    abs', result' := abs, result;
    if node.nodes.len > 0 {
      LinkedFrame(abs0, abs, node.nodes, A, Nodes(k), {}, {}, {}, {});
      abs', result' := ShrinkMerge(abs, p, i, node.nodes, result, A, Nodes(k), R);
    } else {
      assert A == [];
      assert A + R == R;
    }
    abs', result' := ShrinkSlots(cells, abs', abs0, outer, lists, canc, loose, p, i, k, result', A, R);
  }

  /// The slots of `shrink` from cell `k`, after its own list `A`.
  method ShrinkSlots<T>(cells: Cells, abs: Entries<T>, ghost abs0: Entries<T>, ghost outer: NodeList,
                        ghost lists: map<Owner, seq<nat>>, ghost canc: map<nat, set<nat>>, ghost loose: Vec3,
                        p: nat, i: nat, k: nat, result: NodeList, ghost A: seq<nat>, ghost R: seq<nat>)
    returns (abs': Entries<T>, result': NodeList)
    requires Inv(cells, abs0, outer, lists, canc, loose, 0, 0, {}, Outer, {}) && k in cells && p != 0 && i < 8
    requires A == ListAt(lists, Nodes(k))
    requires Rehung(abs0, abs, A + R) && Linked(abs, result, A + R, Slot(p, i), {}, {})
    requires forall y | y in R :: y !in Gather(cells, lists, canc, k)
    ensures Rehung(abs0, abs', Gather(cells, lists, canc, k) + R)
    ensures Linked(abs', result', Gather(cells, lists, canc, k) + R, Slot(p, i), {}, {})
    decreases cells.Keys - canc[k], 2
  {
    abs', result' := abs, result;
    assert GatherBelow(cells, lists, canc, k, 0) + A + R == A + R;
    var j := 0;
    while j < 8
      invariant j <= 8
      invariant Rehung(abs0, abs', GatherBelow(cells, lists, canc, k, j) + A + R)
      invariant Linked(abs', result', GatherBelow(cells, lists, canc, k, j) + A + R, Slot(p, i), {}, {})
    {
      ghost var D := GatherBelow(cells, lists, canc, k, j) + A + R;
      ShrinkDisjoint(cells, abs0, outer, lists, canc, loose, k, j, R);
      abs', result' := ShrinkSlot(cells, abs', abs0, outer, lists, canc, loose, p, i, k, j, result', D);
      assert Part(cells, lists, canc, k, j) + D == GatherBelow(cells, lists, canc, k, j + 1) + A + R;
      j := j + 1;
    }
  }

  /// Slot `j` of `k` gathers nothing gathered before it.
  lemma ShrinkDisjoint<T>(cells: Cells, abs: Entries<T>, outer: NodeList, lists: map<Owner, seq<nat>>,
                          canc: map<nat, set<nat>>, loose: Vec3, k: nat, j: nat, R: seq<nat>)
    requires Inv(cells, abs, outer, lists, canc, loose, 0, 0, {}, Outer, {}) && k in cells && j < 8
    requires forall y | y in R :: y !in Gather(cells, lists, canc, k)
    ensures forall y | y in Part(cells, lists, canc, k, j) ::
      y !in GatherBelow(cells, lists, canc, k, j) + ListAt(lists, Nodes(k)) + R
  {
    PartFacts(cells, abs, outer, lists, canc, loose, k, j);
    GatherBelowFacts(cells, abs, outer, lists, canc, loose, k, j);
    ListFacts(cells, abs, outer, lists, canc, loose, Nodes(k));
    forall y | y in Part(cells, lists, canc, k, j)
      ensures y !in GatherBelow(cells, lists, canc, k, j) + ListAt(lists, Nodes(k)) + R
    {
      SlotNotOwn(cells, canc, k, j, abs[y]);
      PartIn(cells, lists, canc, k, j, 8, y);
    }
  }

  /// One slot of `shrink`.
  method ShrinkSlot<T>(cells: Cells, abs: Entries<T>, ghost abs0: Entries<T>, ghost outer: NodeList,
                       ghost lists: map<Owner, seq<nat>>, ghost canc: map<nat, set<nat>>, ghost loose: Vec3,
                       p: nat, i: nat, k: nat, j: nat, result: NodeList, ghost R: seq<nat>)
    returns (abs': Entries<T>, result': NodeList)
    requires Inv(cells, abs0, outer, lists, canc, loose, 0, 0, {}, Outer, {}) && k in cells && p != 0 && i < 8
    requires j < 8
    requires Rehung(abs0, abs, R) && Linked(abs, result, R, Slot(p, i), {}, {})
    requires forall y | y in Part(cells, lists, canc, k, j) :: y !in R
    ensures Rehung(abs0, abs', Part(cells, lists, canc, k, j) + R)
    ensures Linked(abs', result', Part(cells, lists, canc, k, j) + R, Slot(p, i), {}, {})
    decreases cells.Keys - canc[k], 1
  {
    var node := cells[k];
    assert CellShape(cells, canc, k);
    abs', result' := abs, result;
    if node.childs[j].Ab? {
      var list := node.childs[j].list;
      assert ListOf(cells, outer, Slot(k, j)).Some?;
      ListFacts(cells, abs0, outer, lists, canc, loose, Slot(k, j));
      ghost var A := lists[Slot(k, j)];
      if list.len > 0 {
        LinkedFrame(abs0, abs, list, A, Slot(k, j), {}, {}, {}, {});
        abs', result' := ShrinkMerge(abs, p, i, list, result, A, Slot(k, j), R);
      } else {
        assert A == [];
        assert [] + R == R;
      }
    } else {
      var oct, len := node.childs[j].oct, node.childs[j].num;
      assert CellShape(cells, canc, oct);
      if len > 0 {
        abs', result' := Shrink(cells, abs, abs0, outer, lists, canc, loose, p, i, oct, result, R);
      } else {
        assert CountOk(cells, abs0, canc, 0, 0, k);
        GatherIsBeneath(cells, abs0, outer, lists, canc, loose, oct);
        assert |Gather(cells, lists, canc, oct)| == 0;
        assert Part(cells, lists, canc, k, j) + R == R;
      }
    }
  }
}
