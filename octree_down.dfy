// `down` of cg/src/octree.rs: an entry that a cell contains sinks to the
// deepest cell of its size on the way, counted by every slot it passes.
module OctreeDown {
  import opened OctreeGeometry
  import opened OctreeState
  import opened OctreeCounts
  import opened OctreeSteps
  import opened OctreeDirty

  /// A change to the lists or the dirty mask of one cell keeps the frame and
  /// every count.
  lemma PushFrame(cells: Cells, canc: map<nat, set<nat>>, c: nat, n': OctNode, v: nat)
    requires Shape(cells, canc) && c in cells && CellFrame(cells[c], n')
    requires forall j | 0 <= j < 8 && cells[c].childs[j].Oct? :: n'.childs[j] == cells[c].childs[j]
    ensures Frame(cells, cells[c := n']) && Moved(cells, cells[c := n'], canc, v, v)
  {
    var cells' := cells[c := n'];
    forall d | d in cells
      ensures CellFrame(cells[d], cells'[d])
    {
      assert CellShape(cells, canc, d);
    }
  }

  /// Counting an entry at the root is counting it nowhere: either end of a
  /// move may be switched between the root and 0.
  lemma MovedEnds(cells: Cells, cells': Cells, canc: map<nat, set<nat>>, a: nat, b: nat, a': nat, b': nat)
    requires Shape(cells, canc) && Frame(cells, cells') && Moved(cells, cells', canc, a, b)
    requires a == a' || ((a == 0 || a == ROOT) && (a' == 0 || a' == ROOT))
    requires b == b' || ((b == 0 || b == ROOT) && (b' == 0 || b' == ROOT))
    ensures Moved(cells, cells', canc, a', b')
  {
    assert CellShape(cells, canc, ROOT);
    forall c, i | c in cells && 0 <= i < 8 && cells[c].childs[i].Oct?
      ensures InAnc(canc, a, cells[c].childs[i].oct) == InAnc(canc, a', cells[c].childs[i].oct)
      ensures InAnc(canc, b, cells[c].childs[i].oct) == InAnc(canc, b', cells[c].childs[i].oct)
    {
      assert CellShape(cells, canc, c);
      RootNotChild(cells, canc, c, i);
    }
    forall c, i | c in cells && 0 <= i < 8 && cells[c].childs[i].Oct?
      ensures cells'[c].childs[i].num + InAnc(canc, a', cells[c].childs[i].oct) ==
        cells[c].childs[i].num + InAnc(canc, b', cells[c].childs[i].oct)
    {
      assert cells'[c].childs[i].num + InAnc(canc, a, cells[c].childs[i].oct) ==
        cells[c].childs[i].num + InAnc(canc, b, cells[c].childs[i].oct);
    }
  }

  /// Nothing moves when nothing changes.
  lemma MovedSame(cells: Cells, canc: map<nat, set<nat>>, a: nat, b: nat)
    requires Shape(cells, canc)
    requires a == b || ((a == 0 || a == ROOT) && (b == 0 || b == ROOT))
    ensures Frame(cells, cells) && Moved(cells, cells, canc, a, b)
  {
    assert CellShape(cells, canc, ROOT);
    PushFrame(cells, canc, ROOT, cells[ROOT], a);
    assert cells[ROOT := cells[ROOT]] == cells;
    MovedEnds(cells, cells, canc, a, a, a, b);
  }

  /// What `down` from cell `c` does with entry `x`: its record `e` gains a
  /// cell at or below `c` (no deeper than the entry's layer, containing it)
  /// and the head of that owner's list as its successor; that list grows by
  /// `x` at its head, every other list is kept, the slots on the way count
  /// the entry, and the entry is placed where it may hang.
  ghost predicate Sank<T>(cells: Cells, cells': Cells, canc: map<nat, set<nat>>, loose: Vec3,
                          outer: NodeList, c: nat, e: AbNode<T>, e': AbNode<T>, x: nat)
    requires CellsOk(cells, canc, loose) && c in cells
  {
    e' == e.(parent := e'.parent, parentChild := e'.parentChild, next := e'.next) &&
    e'.parent in cells && cells[c].layer <= cells[e'.parent].layer <= e.layer &&
    Contains(cells[e'.parent].aabb, e.aabb) &&
    Frame(cells, cells') && Moved(cells, cells', canc, c, e'.parent) &&
    Placed(cells', loose, e') &&
    ListOf(cells, outer, OwnerOf(e')).Some? &&
    e'.next == ListOf(cells, outer, OwnerOf(e')).value.head &&
    ListOf(cells', outer, OwnerOf(e')) == Some(NodeList(x, ListOf(cells, outer, OwnerOf(e')).value.len + 1)) &&
    forall o {:trigger ListOf(cells', outer, o)} | o != OwnerOf(e') ::
      ListOf(cells', outer, o) == ListOf(cells, outer, o)
  }

  /// The entry joins the own list of cell `c`.
  lemma SinkNodes<T>(cells: Cells, canc: map<nat, set<nat>>, loose: Vec3, outer: NodeList,
                     c: nat, e: AbNode<T>, x: nat)
    requires CellsOk(cells, canc, loose) && c in cells
    requires WellFormed(e.aabb) && e.layer == CalcLayer(loose, Dim(e.aabb)) && e.parentChild == 8
    requires Contains(cells[c].aabb, e.aabb) && cells[c].layer == e.layer
    ensures Sank(cells, cells[c := cells[c].(nodes := NodeList(x, cells[c].nodes.len + 1))], canc, loose,
                 outer, c, e, e.(parent := c, next := cells[c].nodes.head), x)
  {
    var n := cells[c];
    assert CellShape(cells, canc, c);
    var e' := e.(parent := c, next := n.nodes.head);
    var n' := n.(nodes := NodeList(x, n.nodes.len + 1));
    var cells' := cells[c := n'];
    PushFrame(cells, canc, c, n', c);
    PlacedFrame(cells, cells', loose, e');
  }

  /// The entry joins the list of slot `i` of cell `c`, whose octant
  /// contains it, and the cell's mask becomes `mask`.
  lemma SinkSlot<T>(cells: Cells, cells': Cells, canc: map<nat, set<nat>>, loose: Vec3, outer: NodeList,
                    c: nat, i: nat, e: AbNode<T>, e': AbNode<T>, x: nat, mask: bv8)
    requires CellsOk(cells, canc, loose) && c in cells && i < 8 && |cells[c].childs| == 8
    requires WellFormed(e.aabb) && e.layer == CalcLayer(loose, Dim(e.aabb))
    requires Contains(cells[c].aabb, e.aabb) && cells[c].layer < e.layer
    requires Contains(Octant(cells[c].aabb, cells[c].loose, i), e.aabb)
    requires cells[c].childs[i].Ab?
    requires e' == e.(parent := c, parentChild := i, next := cells[c].childs[i].list.head)
    requires cells' == cells[c := cells[c].(childs := cells[c].childs[i := Ab(NodeList(x, cells[c].childs[i].list.len + 1))],
                                            dirty := mask)]
    ensures Sank(cells, cells', canc, loose, outer, c, e, e', x)
  {
    var n := cells[c];
    assert CellShape(cells, canc, c);
    PushFrame(cells, canc, c, cells'[c], c);
    PlacedFrame(cells, cells', loose, e');
    assert Placed(cells', loose, e');
    assert ListOf(cells, outer, Slot(c, i)) == Some(n.childs[i].list);
    forall o | o != Slot(c, i)
      ensures ListOf(cells', outer, o) == ListOf(cells, outer, o)
    {
    }
  }

  /// Counting the entry in slot `i` of cell `c` changes no list.
  lemma CountListsSame(cells: Cells, cells1: Cells, outer: NodeList, c: nat, i: nat)
    requires c in cells && i < 8 && i < |cells[c].childs| && cells[c].childs[i].Oct?
    requires cells1 == cells[c := cells[c].(childs := cells[c].childs[i := Oct(cells[c].childs[i].oct,
                                                                              cells[c].childs[i].num + 1)])]
    ensures forall o :: ListOf(cells1, outer, o) == ListOf(cells, outer, o)
  {
  }

  /// Counting the entry in the child cell `k` of slot `i` and sinking it
  /// from `k` is sinking it from `c`.
  lemma SinkDeeper<T>(cells: Cells, cells1: Cells, cells': Cells, canc: map<nat, set<nat>>, loose: Vec3,
                      outer: NodeList, c: nat, i: nat, k: nat, e: AbNode<T>, e': AbNode<T>, x: nat)
    requires CellsOk(cells, canc, loose) && c in cells && i < 8 && |cells[c].childs| == 8
    requires cells[c].childs[i].Oct? && cells[c].childs[i].oct == k
    requires cells1 == cells[c := cells[c].(childs := cells[c].childs[i := Oct(k, cells[c].childs[i].num + 1)])]
    requires CellsOk(cells1, canc, loose) && k in cells1 && cells1[k].layer > cells[c].layer
    requires Sank(cells1, cells', canc, loose, outer, k, e, e', x)
    ensures Sank(cells, cells', canc, loose, outer, c, e, e', x)
  {
    var n1 := cells1[c];
    assert CellShape(cells, canc, c);
    MovedStep(cells, c, i, n1, canc, true);
    MovedTrans(cells, cells1, cells', canc, c, k, e'.parent);
    CountListsSame(cells, cells1, outer, c, i);
    assert e'.parent != c;
    assert cells1[e'.parent] == cells[e'.parent];
  }

  /// `down`: starting at cell `c`, which contains the entry and is not
  /// deeper than its layer, the entry `x` with record `e` goes to the own
  /// list of the first cell whose layer reaches the entry's; before that, to
  /// the first octant of the cell that contains it: a child cell there
  /// counts it and `down` goes on below, a list there takes it at its head
  /// and, once longer than `adjust` in a cell above layer `deep`, marks its
  /// slot dirty and reports the cell if its mask was clean.  The entry is
  /// never left without a list.
  method Down<T>(cells: Cells, ghost canc: map<nat, set<nat>>, ghost loose: Vec3, ghost outer: NodeList,
                 adjust: nat, deep: nat, c: nat, e: AbNode<T>, x: nat)
    returns (cells': Cells, e': AbNode<T>, d: (nat, nat))
    requires CellsOk(cells, canc, loose) && c in cells
    requires WellFormed(e.aabb) && e.layer == CalcLayer(loose, Dim(e.aabb)) && e.parentChild == 8
    requires Contains(cells[c].aabb, e.aabb) && cells[c].layer <= e.layer
    ensures Sank(cells, cells', canc, loose, outer, c, e, e', x)
    ensures d.1 != 0 ==>
      d == (cells[e'.parent].layer, e'.parent) && cells[e'.parent].dirty == 0 && e'.parentChild < 8
    ensures MarksFrom(cells, cells', d.1)
    decreases e.layer - cells[c].layer
  {
    var n := cells[c];
    if n.layer >= e.layer {
      cells', e', d := PushNodes(cells, canc, loose, outer, c, e, x);
      return;
    }
    Descend(cells, canc, loose, c, e);
    var i := FirstOctant(n.aabb, n.loose, e.aabb, 0);
    match n.childs[i]
    case Oct(k, num) =>
      var cells1 := cells[c := n.(childs := n.childs[i := Oct(k, num + 1)])];
      DeeperOk(cells, cells1, canc, loose, c, i, k, e);
      cells', e', d := Down(cells1, canc, loose, outer, adjust, deep, k, e, x);
      SinkDeeper(cells, cells1, cells', canc, loose, outer, c, i, k, e, e', x);
      assert cells1[e'.parent] == cells[e'.parent];
    case Ab(list) =>
      cells', e', d := PushSlot(cells, canc, loose, outer, adjust, deep, c, i, e, x);
  }

  /// The entry stops at cell `c`, whose layer it reaches: it is pushed on
  /// the cell's own list.
  method PushNodes<T>(cells: Cells, ghost canc: map<nat, set<nat>>, ghost loose: Vec3, ghost outer: NodeList,
                      c: nat, e: AbNode<T>, x: nat)
    returns (cells': Cells, e': AbNode<T>, d: (nat, nat))
    requires CellsOk(cells, canc, loose) && c in cells
    requires WellFormed(e.aabb) && e.layer == CalcLayer(loose, Dim(e.aabb)) && e.parentChild == 8
    requires Contains(cells[c].aabb, e.aabb) && cells[c].layer == e.layer
    ensures Sank(cells, cells', canc, loose, outer, c, e, e', x) && d == (0, 0)
    ensures MarksFrom(cells, cells', 0)
  {
    var n := cells[c];
    e' := e.(parent := c, next := n.nodes.head);
    cells' := cells[c := n.(nodes := NodeList(x, n.nodes.len + 1))];
    d := (0, 0);
    SinkNodes(cells, canc, loose, outer, c, e, x);
  }

  /// The entry stops in slot `i` of cell `c`, which holds a list: it is
  /// pushed there, and a list grown past `adjust` above layer `deep` marks
  /// the slot dirty, reporting the cell when its mask was clean.
  method PushSlot<T>(cells: Cells, ghost canc: map<nat, set<nat>>, ghost loose: Vec3, ghost outer: NodeList,
                     adjust: nat, deep: nat, c: nat, i: nat, e: AbNode<T>, x: nat)
    returns (cells': Cells, e': AbNode<T>, d: (nat, nat))
    requires CellsOk(cells, canc, loose) && c in cells && i < 8 && |cells[c].childs| == 8
    requires cells[c].childs[i].Ab? && i == FirstOctant(cells[c].aabb, cells[c].loose, e.aabb, 0)
    requires WellFormed(e.aabb) && e.layer == CalcLayer(loose, Dim(e.aabb)) && e.parentChild == 8
    requires Contains(cells[c].aabb, e.aabb) && cells[c].layer < e.layer
    ensures Sank(cells, cells', canc, loose, outer, c, e, e', x)
    ensures d.1 != 0 ==>
      d == (cells[e'.parent].layer, e'.parent) && cells[e'.parent].dirty == 0 && e'.parentChild < 8
    ensures MarksFrom(cells, cells', d.1)
  {
    var n := cells[c];
    var list := n.childs[i].list;
    e' := e.(parent := c, parentChild := i, next := list.head);
    var len := list.len + 1;
    var mask := n.dirty;
    d := (0, 0);
    if len > adjust && n.layer < deep {
      var r := SetDirty(n.dirty, i, n.layer, c);
      mask, d := r.0, r.1;
    }
    var n' := n.(childs := n.childs[i := Ab(NodeList(x, len))], dirty := mask);
    cells' := cells[c := n'];
    assert Contains(Octant(n.aabb, n.loose, i), e.aabb);
    assert c != 0 && d.1 != 0 ==> d == (n.layer, c) && n.dirty == 0;
    SinkSlot(cells, cells', canc, loose, outer, c, i, e, e', x, mask);
    MarkOne(cells, c, n', d.1);
  }

  /// Replacing the record of cell `c` turns no other cell dirty: `c` is
  /// the only cell that can be newly dirty, and then it is the one reported.
  lemma MarkOne(cells: Cells, c: nat, n': OctNode, r: nat)
    requires c in cells && c != 0 && (n'.dirty == 0 || cells[c].dirty != 0 || r == c)
    ensures MarksFrom(cells, cells[c := n'], r)
  {
  }

  /// Counting the entry in the child cell `k` of slot `i` keeps the cells
  /// whole, and that child contains the entry without being deeper than it.
  lemma DeeperOk<T>(cells: Cells, cells1: Cells, canc: map<nat, set<nat>>, loose: Vec3, c: nat, i: nat, k: nat,
                    e: AbNode<T>)
    requires CellsOk(cells, canc, loose) && c in cells && i < 8 && |cells[c].childs| == 8
    requires cells[c].childs[i].Oct? && cells[c].childs[i].oct == k
    requires cells1 == cells[c := cells[c].(childs := cells[c].childs[i := Oct(k, cells[c].childs[i].num + 1)])]
    requires cells[c].layer < e.layer && Contains(Octant(cells[c].aabb, cells[c].loose, i), e.aabb)
    ensures CellsOk(cells1, canc, loose) && k in cells1 && cells1[k].layer > cells[c].layer
    ensures Contains(cells1[k].aabb, e.aabb) && cells1[k].layer <= e.layer
  {
    assert CellShape(cells, canc, c);
    MovedStep(cells, c, i, cells1[c], canc, true);
    CellsFrame(cells, cells1, canc, loose);
    assert CellShape(cells, canc, k);
    assert CellGeom(cells, canc, loose, k);
    assert cells1[k] == cells[k];
  }

  /// A cell above the entry's layer that contains it has an octant that
  /// contains it.
  lemma Descend<T>(cells: Cells, canc: map<nat, set<nat>>, loose: Vec3, c: nat, e: AbNode<T>)
    requires CellsOk(cells, canc, loose) && c in cells
    requires WellFormed(e.aabb) && e.layer == CalcLayer(loose, Dim(e.aabb))
    requires Contains(cells[c].aabb, e.aabb) && cells[c].layer < e.layer
    ensures |cells[c].childs| == 8
    ensures FirstOctant(cells[c].aabb, cells[c].loose, e.aabb, 0) < 8
  {
    assert CellShape(cells, canc, c);
    assert CellGeom(cells, canc, loose, c);
    LayerSmall(loose, e.aabb, cells[c].layer);
    OctantCover(cells[c].aabb, cells[c].loose, e.aabb);
  }
}
