// The counts a slot holding a child cell keeps of the entries beneath that
// cell (`ChildNode::Oct(oct, num)` in cg/src/octree.rs), and how they follow
// an entry that moves, arrives or leaves.
module OctreeCounts {
  import opened OctreeGeometry
  import opened OctreeState

  /// The ancestors of an ancestor are ancestors.
  lemma {:induction false} AncClosed(cells: Cells, canc: map<nat, set<nat>>, a: nat, c: nat)
    requires Shape(cells, canc) && c in cells && a in canc[c]
    ensures a in cells && canc[a] <= canc[c]
    decreases |canc[c]|
  {
    assert CellShape(cells, canc, c);
    if a != c {
      var p := cells[c].parent;
      assert c != ROOT;
      assert canc[c] == canc[p] + {c} && c !in canc[p];
      assert |canc[p]| < |canc[c]| by {
        assert canc[c] - {c} == canc[p];
      }
      AncClosed(cells, canc, a, p);
    }
  }

  /// A cell on the way from `c` down to a cell `d` beneath it: the child of
  /// `c` whose subtree holds `d`.
  lemma {:induction false} ChildOnPath(cells: Cells, canc: map<nat, set<nat>>, c: nat, d: nat) returns (i: nat)
    requires Shape(cells, canc) && d in cells && c in canc[d] && c != d
    ensures c in cells && i < 8 && |cells[c].childs| == 8 && cells[c].childs[i].Oct?
    ensures cells[c].childs[i].oct in canc[d]
    decreases canc[d]
  {
    assert CellShape(cells, canc, d);
    var n := cells[d];
    AncClosed(cells, canc, c, d);
    if d == ROOT {
      assert false;
    } else if n.parent == c {
      i := n.parentChild;
      assert CellShape(cells, canc, c);
    } else {
      assert CellShape(cells, canc, n.parent);
      i := ChildOnPath(cells, canc, c, n.parent);
    }
  }

  /// No slot holds the root.
  lemma RootNotChild(cells: Cells, canc: map<nat, set<nat>>, c: nat, i: nat)
    requires Shape(cells, canc) && c in cells && i < 8 && i < |cells[c].childs| && cells[c].childs[i].Oct?
    ensures cells[c].childs[i].oct != ROOT && cells[c].childs[i].oct in cells
  {
    assert CellShape(cells, canc, c);
    assert CellShape(cells, canc, ROOT);
  }

  /// The child held by slot `i` of cell `c` has the ancestors of `c` and itself.
  lemma ChildAnc(cells: Cells, canc: map<nat, set<nat>>, c: nat, i: nat)
    requires Shape(cells, canc) && c in cells && i < 8 && i < |cells[c].childs| && cells[c].childs[i].Oct?
    ensures var k := cells[c].childs[i].oct;
      k in cells && k != ROOT && cells[k].parent == c && cells[k].parentChild == i &&
      canc[k] == canc[c] + {k} && k !in canc[c]
  {
    assert CellShape(cells, canc, c);
    var k := cells[c].childs[i].oct;
    RootNotChild(cells, canc, c, i);
    assert CellShape(cells, canc, k);
  }

  /// Counts follow the moving entry from `from` to `to`.
  lemma CountsMoved<T>(cells: Cells, cells': Cells, abs: Entries<T>, canc: map<nat, set<nat>>,
                       x: nat, from: nat, to: nat)
    requires Counts(cells, abs, canc, x, from) && Frame(cells, cells') && Moved(cells, cells', canc, from, to)
    ensures Counts(cells', abs, canc, x, to)
  {
    forall c | c in cells'
      ensures CountOk(cells', abs, canc, x, to, c)
    {
      assert CountOk(cells, abs, canc, x, from, c);
      assert CellFrame(cells[c], cells'[c]);
      forall i | 0 <= i < 8 && i < |cells'[c].childs| && cells'[c].childs[i].Oct?
        ensures cells'[c].childs[i].num ==
          |Beneath(abs, canc, cells'[c].childs[i].oct, x)| + InAnc(canc, to, cells'[c].childs[i].oct)
      {
        assert cells'[c].childs[i].num + InAnc(canc, from, cells[c].childs[i].oct) ==
          cells[c].childs[i].num + InAnc(canc, to, cells[c].childs[i].oct);
      }
    }
  }

  /// Changing only list records and dirty masks moves nothing.
  lemma MovedNone(cells: Cells, cells': Cells, canc: map<nat, set<nat>>, v: nat)
    requires Frame(cells, cells')
    requires forall c, i | c in cells && 0 <= i < 8 && i < |cells[c].childs| && cells[c].childs[i].Oct? ::
      cells'[c].childs[i].num == cells[c].childs[i].num
    ensures Moved(cells, cells', canc, v, v)
  {
  }

  /// One more entry in the slot of cell `c` that holds child `k`: the entry
  /// moves from beneath `c` to beneath `k`; one fewer: back again.
  lemma MovedStep(cells: Cells, c: nat, i: nat, n': OctNode, canc: map<nat, set<nat>>, down: bool)
    requires Shape(cells, canc) && c in cells && i < 8 && i < |cells[c].childs| && cells[c].childs[i].Oct?
    requires CellFrame(cells[c], n')
    requires forall j | 0 <= j < 8 && j != i :: n'.childs[j] == cells[c].childs[j]
    requires n'.childs[i].num + (if down then 0 else 1) == cells[c].childs[i].num + (if down then 1 else 0)
    ensures Frame(cells, cells[c := n'])
    ensures down ==> Moved(cells, cells[c := n'], canc, c, cells[c].childs[i].oct)
    ensures !down ==> Moved(cells, cells[c := n'], canc, cells[c].childs[i].oct, c)
  {
    var k := cells[c].childs[i].oct;
    ChildAnc(cells, canc, c, i);
    var cells' := cells[c := n'];
    forall d | d in cells ensures CellFrame(cells[d], cells'[d]) {
      assert CellShape(cells, canc, d);
    }
    forall d, j | d in cells && 0 <= j < 8 && j < |cells[d].childs| && cells[d].childs[j].Oct?
      ensures down ==> (cells'[d].childs[j].num + InAnc(canc, c, cells[d].childs[j].oct) ==
                        cells[d].childs[j].num + InAnc(canc, k, cells[d].childs[j].oct))
      ensures !down ==> (cells'[d].childs[j].num + InAnc(canc, k, cells[d].childs[j].oct) ==
                         cells[d].childs[j].num + InAnc(canc, c, cells[d].childs[j].oct))
    {
      assert CellShape(cells, canc, d);
      var m := cells[d].childs[j].oct;
      ChildAnc(cells, canc, d, j);
      if d == c && j == i {
        assert m == k;
      } else {
        assert m != k by {
          assert CellShape(cells, canc, k);
          assert cells[m].parent == d && cells[m].parentChild == j;
        }
      }
    }
  }

  /// Two moves in a row.
  lemma MovedTrans(c1: Cells, c2: Cells, c3: Cells, canc: map<nat, set<nat>>, a: nat, b: nat, d: nat)
    requires Frame(c1, c2) && Moved(c1, c2, canc, a, b)
    requires Frame(c2, c3) && Moved(c2, c3, canc, b, d)
    ensures Frame(c1, c3) && Moved(c1, c3, canc, a, d)
  {
    forall c | c in c1
      ensures CellFrame(c1[c], c3[c])
    {
      assert CellFrame(c1[c], c2[c]) && CellFrame(c2[c], c3[c]);
    }
    forall c, i | c in c1 && 0 <= i < 8 && i < |c1[c].childs| && c1[c].childs[i].Oct?
      ensures c3[c].childs[i].num + InAnc(canc, a, c1[c].childs[i].oct) ==
        c1[c].childs[i].num + InAnc(canc, d, c1[c].childs[i].oct)
    {
      assert CellFrame(c1[c], c2[c]);
      assert c2[c].childs[i].num + InAnc(canc, a, c1[c].childs[i].oct) ==
        c1[c].childs[i].num + InAnc(canc, b, c1[c].childs[i].oct);
      assert c3[c].childs[i].num + InAnc(canc, b, c2[c].childs[i].oct) ==
        c2[c].childs[i].num + InAnc(canc, d, c2[c].childs[i].oct);
    }
  }

  /// The moving entry counted at the root is counted nowhere: no slot holds
  /// the root.
  lemma CountsRoot<T>(cells: Cells, abs: Entries<T>, canc: map<nat, set<nat>>, x: nat, v: nat, v': nat)
    requires Shape(cells, canc) && (v == 0 || v == ROOT) && (v' == 0 || v' == ROOT)
    requires Counts(cells, abs, canc, x, v)
    ensures Counts(cells, abs, canc, x, v')
  {
    forall c | c in cells
      ensures CountOk(cells, abs, canc, x, v', c)
    {
      assert CountOk(cells, abs, canc, x, v, c);
      assert CellShape(cells, canc, ROOT);
      assert CellShape(cells, canc, c);
      forall i | 0 <= i < 8 && cells[c].childs[i].Oct?
        ensures InAnc(canc, v, cells[c].childs[i].oct) == 0 == InAnc(canc, v', cells[c].childs[i].oct)
      {
        RootNotChild(cells, canc, c, i);
      }
    }
  }

  /// The record of the moving entry does not matter to the counts.
  lemma CountsRecord<T>(cells: Cells, abs: Entries<T>, canc: map<nat, set<nat>>, x: nat, v: nat, e: AbNode<T>)
    requires Counts(cells, abs, canc, x, v)
    ensures Counts(cells, abs[x := e], canc, x, v)
  {
    forall k ensures Beneath(abs[x := e], canc, k, x) == Beneath(abs, canc, k, x) {
    }
    forall c | c in cells
      ensures CountOk(cells, abs[x := e], canc, x, v, c)
    {
      assert CountOk(cells, abs, canc, x, v, c);
    }
  }

  /// Records that keep their cells keep the counts.
  lemma CountsParents<T>(cells: Cells, abs: Entries<T>, abs': Entries<T>, canc: map<nat, set<nat>>,
                         x: nat, v: nat)
    requires Counts(cells, abs, canc, x, v)
    requires abs'.Keys == abs.Keys && forall y | y in abs :: abs'[y].parent == abs[y].parent
    ensures Counts(cells, abs', canc, x, v)
  {
    forall k ensures Beneath(abs', canc, k, x) == Beneath(abs, canc, k, x) {
    }
    forall c | c in cells
      ensures CountOk(cells, abs', canc, x, v, c)
    {
      assert CountOk(cells, abs, canc, x, v, c);
    }
  }

  /// Adding the record `e` of `x` to the entries beneath `k`.
  lemma BeneathAdd<T>(abs: Entries<T>, canc: map<nat, set<nat>>, k: nat, x: nat, e: AbNode<T>)
    requires x != 0 && 0 !in abs
    ensures |Beneath(abs[x := e], canc, k, 0)| == |Beneath(abs, canc, k, x)| + InAnc(canc, e.parent, k)
  {
    var abs' := abs[x := e];
    if e.parent in canc && k in canc[e.parent] {
      assert Beneath(abs', canc, k, 0) == Beneath(abs, canc, k, x) + {x};
    } else {
      assert Beneath(abs', canc, k, 0) == Beneath(abs, canc, k, x);
    }
  }

  /// The moving entry settles in its cell `e.parent` (0 for the outer list).
  lemma CountsSettle<T>(cells: Cells, abs: Entries<T>, canc: map<nat, set<nat>>, x: nat, e: AbNode<T>)
    requires Counts(cells, abs, canc, x, e.parent) && x != 0 && 0 !in abs && 0 !in canc
    ensures Counts(cells, abs[x := e], canc, 0, 0)
  {
    var abs' := abs[x := e];
    forall c | c in cells
      ensures CountOk(cells, abs', canc, 0, 0, c)
    {
      assert CountOk(cells, abs, canc, x, e.parent, c);
      forall i | 0 <= i < 8 && i < |cells[c].childs| && cells[c].childs[i].Oct?
        ensures cells[c].childs[i].num == |Beneath(abs', canc, cells[c].childs[i].oct, 0)|
      {
        BeneathAdd(abs, canc, cells[c].childs[i].oct, x, e);
      }
    }
  }

  /// Taking the moving entry `x` out of the entries beneath `k`.
  lemma BeneathRemove<T>(abs: Entries<T>, canc: map<nat, set<nat>>, k: nat, x: nat)
    requires x in abs && x != 0 && 0 !in abs
    ensures |Beneath(abs, canc, k, 0)| == |Beneath(abs, canc, k, x)| + InAnc(canc, abs[x].parent, k)
  {
    var q := abs[x].parent;
    if q in canc && k in canc[q] {
      assert Beneath(abs, canc, k, 0) == Beneath(abs, canc, k, x) + {x};
    } else {
      assert Beneath(abs, canc, k, 0) == Beneath(abs, canc, k, x);
    }
  }

  /// An entry starts to move: it is counted as sitting in its cell.
  lemma CountsUnsettle<T>(cells: Cells, abs: Entries<T>, canc: map<nat, set<nat>>, x: nat)
    requires Counts(cells, abs, canc, 0, 0) && x in abs && x != 0 && 0 !in abs && 0 !in canc
    ensures Counts(cells, abs, canc, x, abs[x].parent)
  {
    var q := abs[x].parent;
    forall c | c in cells
      ensures CountOk(cells, abs, canc, x, q, c)
    {
      assert CountOk(cells, abs, canc, 0, 0, c);
      forall i | 0 <= i < 8 && i < |cells[c].childs| && cells[c].childs[i].Oct?
        ensures cells[c].childs[i].num ==
          |Beneath(abs, canc, cells[c].childs[i].oct, x)| + InAnc(canc, q, cells[c].childs[i].oct)
      {
        BeneathRemove(abs, canc, cells[c].childs[i].oct, x);
      }
    }
  }

  /// An entry is deleted: it is counted as sitting in its cell until the
  /// counts above it are lowered.
  lemma CountsDelete<T>(cells: Cells, abs: Entries<T>, canc: map<nat, set<nat>>, x: nat)
    requires Counts(cells, abs, canc, 0, 0) && x in abs && x != 0 && 0 !in abs && 0 !in canc
    ensures Counts(cells, abs - {x}, canc, 0, abs[x].parent)
  {
    var q := abs[x].parent;
    CountsUnsettle(cells, abs, canc, x);
    forall c | c in cells
      ensures CountOk(cells, abs - {x}, canc, 0, q, c)
    {
      assert CountOk(cells, abs, canc, x, q, c);
      forall i | 0 <= i < 8 && i < |cells[c].childs| && cells[c].childs[i].Oct?
        ensures Beneath(abs - {x}, canc, cells[c].childs[i].oct, 0) == Beneath(abs, canc, cells[c].childs[i].oct, x)
      {
      }
    }
  }
}
