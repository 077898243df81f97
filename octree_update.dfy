// `update` of cg/src/octree.rs: after an entry's box changed, the entry
// either stays in its list or moves to the list where it now belongs, and
// the counts of the slots on the way follow it.  The old list is left for
// `remove_add` (module OctreeRelink) to unlink.
module OctreeUpdate {
  import opened OctreeGeometry
  import opened OctreeState
  import opened OctreeCounts
  import opened OctreeSteps
  import opened OctreeDirty
  import opened OctreeDown

  /// What a move of entry `x` with record `e` does: the new record `e'`
  /// changes only its cell, slot and links, is the new head (no
  /// predecessor, the old head as successor) of a list other than its old
  /// one, which grows by one while every other list is kept, the counts move
  /// from beneath the old cell to beneath the new one, and the entry is
  /// placed where it may hang.
  ghost predicate Relocated<T>(cells: Cells, cells': Cells, canc: map<nat, set<nat>>, loose: Vec3,
                               outer: NodeList, outer': NodeList, x: nat, e: AbNode<T>, e': AbNode<T>)
    requires CellsOk(cells, canc, loose)
  {
    e' == e.(parent := e'.parent, parentChild := e'.parentChild, prev := 0, next := e'.next) &&
    OwnerOf(e') != OwnerOf(e) &&
    (e'.parent == 0 || e'.parent in cells) &&
    Frame(cells, cells') && Moved(cells, cells', canc, e.parent, e'.parent) &&
    Placed(cells', loose, e') &&
    ListOf(cells, outer, OwnerOf(e')).Some? &&
    e'.next == ListOf(cells, outer, OwnerOf(e')).value.head &&
    ListOf(cells', outer', OwnerOf(e')) ==
      Some(NodeList(x, ListOf(cells, outer, OwnerOf(e')).value.len + 1)) &&
    forall o {:trigger ListOf(cells', outer', o)} | o != OwnerOf(e') ::
      ListOf(cells', outer', o) == ListOf(cells, outer, o)
  }

  /// Counting the entry on the way to cell `p` and sinking it from there
  /// relocates it.
  lemma SankRelocated<T>(cells: Cells, cells1: Cells, cells': Cells, canc: map<nat, set<nat>>, loose: Vec3,
                         outer: NodeList, p: nat, x: nat, e: AbNode<T>, e': AbNode<T>)
    requires CellsOk(cells, canc, loose) && CellsOk(cells1, canc, loose) && p in cells1
    requires Frame(cells, cells1) && Moved(cells, cells1, canc, e.parent, p)
    requires forall o :: ListOf(cells1, outer, o) == ListOf(cells, outer, o)
    requires Sank(cells1, cells', canc, loose, outer, p, e.(prev := 0, parentChild := 8), e', x)
    requires OwnerOf(e') != OwnerOf(e)
    ensures Relocated(cells, cells', canc, loose, outer, outer, x, e, e')
  {
    MovedTrans(cells, cells1, cells', canc, e.parent, p, e'.parent);
    assert ListOf(cells1, outer, OwnerOf(e')) == ListOf(cells, outer, OwnerOf(e'));
    forall o | o != OwnerOf(e')
      ensures ListOf(cells', outer, o) == ListOf(cells, outer, o)
    {
      assert ListOf(cells1, outer, o) == ListOf(cells, outer, o);
    }
  }

  /// Pushing the entry on a list of cell `p` that changes nothing but that
  /// cell's lists and mask relocates it.
  lemma PushRelocated<T>(cells: Cells, cells1: Cells, canc: map<nat, set<nat>>, loose: Vec3,
                         outer: NodeList, x: nat, e: AbNode<T>, e': AbNode<T>, n': OctNode)
    requires CellsOk(cells, canc, loose) && CellsOk(cells1, canc, loose)
    requires Frame(cells, cells1) && Moved(cells, cells1, canc, e.parent, e'.parent)
    requires forall o :: ListOf(cells1, outer, o) == ListOf(cells, outer, o)
    requires e'.parent in cells1 && CellFrame(cells1[e'.parent], n')
    requires forall j | 0 <= j < 8 && cells1[e'.parent].childs[j].Oct? :: n'.childs[j] == cells1[e'.parent].childs[j]
    requires e' == e.(parent := e'.parent, parentChild := e'.parentChild, prev := 0, next := e'.next)
    requires OwnerOf(e') != OwnerOf(e) && Placed(cells1, loose, e')
    requires ListOf(cells1, outer, OwnerOf(e')).Some?
    requires e'.next == ListOf(cells1, outer, OwnerOf(e')).value.head
    requires ListOf(cells1[e'.parent := n'], outer, OwnerOf(e')) ==
      Some(NodeList(x, ListOf(cells1, outer, OwnerOf(e')).value.len + 1))
    requires forall o | o != OwnerOf(e') :: ListOf(cells1[e'.parent := n'], outer, o) == ListOf(cells1, outer, o)
    ensures Relocated(cells, cells1[e'.parent := n'], canc, loose, outer, outer, x, e, e')
  {
    var cells' := cells1[e'.parent := n'];
    PushFrame(cells1, canc, e'.parent, n', e'.parent);
    MovedTrans(cells, cells1, cells', canc, e.parent, e'.parent, e'.parent);
    PlacedFrame(cells1, cells', loose, e');
    assert ListOf(cells1, outer, OwnerOf(e')) == ListOf(cells, outer, OwnerOf(e'));
    forall o | o != OwnerOf(e')
      ensures ListOf(cells', outer, o) == ListOf(cells, outer, o)
    {
      assert ListOf(cells1, outer, o) == ListOf(cells, outer, o);
    }
  }

  /// An entry that `check_contain` keeps in its slot (or, for slot 8, in
  /// the cell's own list) is still placed where it hangs.
  lemma StayPlaced<T>(cells: Cells, canc: map<nat, set<nat>>, loose: Vec3, e: AbNode<T>)
    requires CellsOk(cells, canc, loose) && e.parent in cells
    requires WellFormed(e.aabb) && e.layer == CalcLayer(loose, Dim(e.aabb))
    requires OwnerOf(e).Slot? || e.parentChild == 8
    requires e.layer > cells[e.parent].layer
    requires CheckContain(cells[e.parent].aabb, cells[e.parent].loose, e.aabb, e.parentChild) == e.parentChild
    ensures Placed(cells, loose, e)
  {
    var n := cells[e.parent];
    assert CellShape(cells, canc, e.parent);
    assert CellGeom(cells, canc, loose, e.parent);
    LayerSmall(loose, e.aabb, n.layer);
    CheckContainStay(n.aabb, n.loose, e.aabb, e.parentChild);
  }

  /// Counting the entry in the child cell `k` of slot `child` of its own
  /// cell `p`, whose octant contains it.
  lemma SiblingCount<T>(cells: Cells, cells1: Cells, canc: map<nat, set<nat>>, loose: Vec3, outer: NodeList,
                        child: nat, k: nat, e: AbNode<T>)
    requires CellsOk(cells, canc, loose) && e.parent in cells && child < 8 && |cells[e.parent].childs| == 8
    requires cells[e.parent].childs[child].Oct? && cells[e.parent].childs[child].oct == k
    requires cells1 == cells[e.parent := cells[e.parent].(childs := cells[e.parent].childs[child :=
                                        Oct(k, cells[e.parent].childs[child].num + 1)])]
    requires cells[e.parent].layer < e.layer
    requires Contains(Octant(cells[e.parent].aabb, cells[e.parent].loose, child), e.aabb)
    ensures CellsOk(cells1, canc, loose) && k in cells1 && cells1[k].layer > cells[e.parent].layer
    ensures Contains(cells1[k].aabb, e.aabb) && cells1[k].layer <= e.layer
    ensures Frame(cells, cells1) && Moved(cells, cells1, canc, e.parent, k)
    ensures forall o :: ListOf(cells1, outer, o) == ListOf(cells, outer, o)
    ensures cells1[e.parent].layer == cells[e.parent].layer
  {
    var p := e.parent;
    DeeperOk(cells, cells1, canc, loose, p, child, k, e);
    assert CellShape(cells, canc, p);
    MovedStep(cells, p, child, cells1[p], canc, true);
    CountListsSame(cells, cells1, outer, p, child);
  }

  /// The move of `update` to slot `child` of the entry's own cell `p`,
  /// whose octant contains it: a child cell there counts it and the entry
  /// sinks from it (`down`); a list there takes it at its head and, once
  /// longer than `adjust1` while the ENTRY's layer is above `deep`, marks
  /// the slot dirty and reports `p` with its layer when its mask was clean
  /// (the source drops that report: `SiblingMarkAsWritten`).
  method MoveSibling<T>(cells: Cells, ghost canc: map<nat, set<nat>>, ghost loose: Vec3, ghost outer: NodeList,
                        adjust1: nat, deep: nat, x: nat, e: AbNode<T>, child: nat)
    returns (cells': Cells, e': AbNode<T>, d: (nat, nat))
    requires CellsOk(cells, canc, loose) && e.parent in cells
    requires WellFormed(e.aabb) && e.layer == CalcLayer(loose, Dim(e.aabb))
    requires OwnerOf(e).Slot? || e.parentChild == 8
    requires e.layer > cells[e.parent].layer
    requires child < 8 && child != e.parentChild
    requires Contains(Octant(cells[e.parent].aabb, cells[e.parent].loose, child), e.aabb)
    ensures Relocated(cells, cells', canc, loose, outer, outer, x, e, e')
    ensures MarksFrom(cells, cells', d.1)
  {
    SlotsOf(cells, canc, loose, e.parent);
    if cells[e.parent].childs[child].Oct? {
      cells', e', d := SiblingDown(cells, canc, loose, outer, adjust1, deep, x, e, child);
    } else {
      cells', e', d := SiblingList(cells, canc, loose, outer, adjust1, deep, x, e, child);
    }
  }

  /// The child-cell branch of `MoveSibling`: the child cell of slot
  /// `child` counts the entry and `down` continues from it.
  method SiblingDown<T>(cells: Cells, ghost canc: map<nat, set<nat>>, ghost loose: Vec3, ghost outer: NodeList,
                        adjust1: nat, deep: nat, x: nat, e: AbNode<T>, child: nat)
    returns (cells': Cells, e': AbNode<T>, d: (nat, nat))
    requires CellsOk(cells, canc, loose) && e.parent in cells
    requires WellFormed(e.aabb) && e.layer == CalcLayer(loose, Dim(e.aabb))
    requires OwnerOf(e).Slot? || e.parentChild == 8
    requires e.layer > cells[e.parent].layer
    requires child < 8 && child != e.parentChild && child < |cells[e.parent].childs|
    requires cells[e.parent].childs[child].Oct?
    requires Contains(Octant(cells[e.parent].aabb, cells[e.parent].loose, child), e.aabb)
    ensures Relocated(cells, cells', canc, loose, outer, outer, x, e, e')
    ensures MarksFrom(cells, cells', d.1)
  {
    var p := e.parent;
    var n := cells[p];
    SlotsOf(cells, canc, loose, p);
    var k := n.childs[child].oct;
    var cells1 := cells[p := n.(childs := n.childs[child := Oct(k, n.childs[child].num + 1)])];
    SiblingCount(cells, cells1, canc, loose, outer, child, k, e);
    cells', e', d := Down(cells1, canc, loose, outer, adjust1, deep, k, e.(prev := 0, parentChild := 8), x);
    SankRelocated(cells, cells1, cells', canc, loose, outer, k, x, e, e');
  }

  /// The list branch of `MoveSibling`: the list of slot `child` takes the
  /// entry at its head and, grown past `adjust1` while the entry's layer
  /// is above `deep`, marks the slot and reports the cell.
  method SiblingList<T>(cells: Cells, ghost canc: map<nat, set<nat>>, ghost loose: Vec3, ghost outer: NodeList,
                        adjust1: nat, deep: nat, x: nat, e: AbNode<T>, child: nat)
    returns (cells': Cells, e': AbNode<T>, d: (nat, nat))
    requires CellsOk(cells, canc, loose) && e.parent in cells
    requires WellFormed(e.aabb) && e.layer == CalcLayer(loose, Dim(e.aabb))
    requires OwnerOf(e).Slot? || e.parentChild == 8
    requires e.layer > cells[e.parent].layer
    requires child < 8 && child != e.parentChild && child < |cells[e.parent].childs|
    requires cells[e.parent].childs[child].Ab?
    requires Contains(Octant(cells[e.parent].aabb, cells[e.parent].loose, child), e.aabb)
    ensures Relocated(cells, cells', canc, loose, outer, outer, x, e, e')
    ensures MarksFrom(cells, cells', d.1)
  {
    var p := e.parent;
    var n := cells[p];
    SlotsOf(cells, canc, loose, p);
    var list := n.childs[child].list;
    e' := e.(prev := 0, parentChild := child, next := list.head);
    var mask := n.dirty;
    d := (0, 0);
    if list.len + 1 > adjust1 && e.layer < deep {
      var r := SetDirty(n.dirty, child, n.layer, p);
      mask, d := r.0, r.1;
    }
    var n' := n.(childs := n.childs[child := Ab(NodeList(x, list.len + 1))], dirty := mask);
    cells' := cells[p := n'];
    SiblingPush(cells, canc, loose, outer, x, e, e', n');
  }

  /// The list branch of the move to a sibling slot as the source writes
  /// it: the list of slot `child` of the entry's cell, record `n`, grows to
  /// `len` with `x` at its head, and past `adjust1` while the entry's layer
  /// is above `deep` the slot is marked with the entry `x` named as the
  /// cell to report, and the report is dropped: only the new record comes
  /// out, the queue is not touched.
  function SiblingMarkAsWritten(n: OctNode, child: nat, len: nat, adjust1: nat, deep: nat, layer: nat,
                                x: nat): (n': OctNode)
    requires child < 8 && child < |n.childs|
    ensures n' == n.(childs := n.childs[child := Ab(NodeList(x, len))], dirty := n'.dirty)
    ensures len > adjust1 && layer < deep ==> n'.dirty & Bit(child) == Bit(child)
    ensures !(len > adjust1 && layer < deep) ==> n'.dirty == n.dirty
  {
    var n1 := n.(childs := n.childs[child := Ab(NodeList(x, len))]);
    if len > adjust1 && layer < deep then
      var r := SetDirty(n.dirty, child, n.layer, x);
      n1.(dirty := r.0)
    else
      n1
  }

  /// The dropped report loses a cell: a cell `p` with a clean mask that
  /// waits in no vector of the queue, in a state where every dirty cell
  /// waits in it, comes out of the as-written sibling move dirty and still
  /// unqueued, so `collect` never splits the slot.  `MoveSibling` reports
  /// it instead, and `Update` keeps every dirty cell queued.
  lemma SiblingMarkLost(cells: Cells, q: seq<seq<nat>>, p: nat, child: nat, len: nat, adjust1: nat,
                        deep: nat, layer: nat, x: nat)
    requires p in cells && child < 8 && child < |cells[p].childs|
    requires MaskQueued(cells, q) && cells[p].dirty == 0 && !InQueue(q, p)
    requires len > adjust1 && layer < deep
    ensures var n' := SiblingMarkAsWritten(cells[p], child, len, adjust1, deep, layer, x);
      n'.dirty != 0 && !MaskQueued(cells[p := n'], q)
  {
    var n' := SiblingMarkAsWritten(cells[p], child, len, adjust1, deep, layer, x);
    assert Bit(child) != 0 by {
      assert child == 0 || child == 1 || child == 2 || child == 3 || child == 4 || child == 5 || child == 6 ||
        child == 7;
    }
    assert n'.dirty & Bit(child) == Bit(child);
    assert p in cells[p := n'] && cells[p := n'][p].dirty != 0;
  }

  /// A cell has eight slots.
  lemma SlotsOf(cells: Cells, canc: map<nat, set<nat>>, loose: Vec3, p: nat)
    requires CellsOk(cells, canc, loose) && p in cells
    ensures |cells[p].childs| == 8
  {
    assert CellShape(cells, canc, p);
  }

  /// Pushing the entry on the list of slot `i` of its own cell, whose
  /// octant contains it.
  lemma SiblingPush<T>(cells: Cells, canc: map<nat, set<nat>>, loose: Vec3, outer: NodeList,
                       x: nat, e: AbNode<T>, e': AbNode<T>, n': OctNode)
    requires CellsOk(cells, canc, loose) && e.parent in cells
    requires WellFormed(e.aabb) && e.layer == CalcLayer(loose, Dim(e.aabb))
    requires OwnerOf(e).Slot? || e.parentChild == 8
    requires e.layer > cells[e.parent].layer && |cells[e.parent].childs| == 8
    requires e'.parentChild < 8 && e'.parentChild != e.parentChild
    requires Contains(Octant(cells[e.parent].aabb, cells[e.parent].loose, e'.parentChild), e.aabb)
    requires cells[e.parent].childs[e'.parentChild].Ab?
    requires e' == e.(prev := 0, parentChild := e'.parentChild,
                      next := cells[e.parent].childs[e'.parentChild].list.head)
    requires n' == cells[e.parent].(childs := cells[e.parent].childs[e'.parentChild :=
      Ab(NodeList(x, cells[e.parent].childs[e'.parentChild].list.len + 1))], dirty := n'.dirty)
    ensures Relocated(cells, cells[e.parent := n'], canc, loose, outer, outer, x, e, e')
  {
    var p := e.parent;
    assert CellShape(cells, canc, p);
    MovedSame(cells, canc, p, p);
    CellsFrame(cells, cells, canc, loose);
    assert ListOf(cells, outer, Slot(p, e'.parentChild)) == Some(cells[p].childs[e'.parentChild].list);
    PushRelocated(cells, cells, canc, loose, outer, x, e, e', n');
  }

  /// The move of `update` of an entry in a slot of a cell of its own layer
  /// that contains it to that cell's own list, as the head with no
  /// predecessor.
  method MoveToNodes<T>(cells: Cells, ghost canc: map<nat, set<nat>>, ghost loose: Vec3, ghost outer: NodeList,
                        x: nat, e: AbNode<T>)
    returns (cells': Cells, e': AbNode<T>)
    requires CellsOk(cells, canc, loose) && e.parent in cells && e.parentChild < 8
    requires WellFormed(e.aabb) && e.layer == CalcLayer(loose, Dim(e.aabb))
    requires e.layer == cells[e.parent].layer && Contains(cells[e.parent].aabb, e.aabb)
    ensures Relocated(cells, cells', canc, loose, outer, outer, x, e, e')
    ensures MarksFrom(cells, cells', 0)
  {
    var p := e.parent;
    var n := cells[p];
    assert CellShape(cells, canc, p);
    e' := e.(parentChild := 8, prev := 0, next := n.nodes.head);
    var n' := n.(nodes := NodeList(x, n.nodes.len + 1));
    cells' := cells[p := n'];
    MovedSame(cells, canc, p, p);
    CellsFrame(cells, cells, canc, loose);
    PushRelocated(cells, cells, canc, loose, outer, x, e, e', n');
  }

  /// The cell `cur` (not the root) counts the moving entry `x`: its parent
  /// holds it in a slot whose count is at least 1, one layer up.
  lemma ClimbFacts<T>(cells: Cells, canc: map<nat, set<nat>>, loose: Vec3, abs: Entries<T>, x: nat, cur: nat)
    requires CellsOk(cells, canc, loose) && cur in cells && cur != ROOT
    requires Counts(cells, abs, canc, x, cur)
    ensures var p := cells[cur].parent; var c := cells[cur].parentChild;
      p in cells && c < 8 && |cells[p].childs| == 8 && cells[p].childs[c].Oct? &&
      cells[p].childs[c].oct == cur && cells[p].childs[c].num >= 1 &&
      cells[p].layer < cells[cur].layer
  {
    assert CellShape(cells, canc, cur);
    assert CellGeom(cells, canc, loose, cur);
    var p := cells[cur].parent;
    assert CountOk(cells, abs, canc, x, cur, p);
  }

  /// One step of the climb of `update` and of `remove_up`: slot `c` of
  /// cell `p`, holding the cell the entry `x` counts as sitting in, stops
  /// counting it; once its count is below `adjust0` the slot is marked
  /// dirty, and the cell reported with `layer` if its mask was clean.
  method Uncount<T>(cells: Cells, ghost canc: map<nat, set<nat>>, ghost loose: Vec3, ghost abs: Entries<T>,
                    ghost outer: NodeList, adjust0: nat, q: seq<seq<nat>>, count: nat, min: nat,
                    ghost x: nat, p: nat, c: nat, layer: nat)
    returns (cells': Cells, q': seq<seq<nat>>, count': nat, min': nat)
    requires CellsOk(cells, canc, loose) && p in cells && c < 8 && c < |cells[p].childs| && cells[p].childs[c].Oct?
    requires Counts(cells, abs, canc, x, cells[p].childs[c].oct)
    ensures CellsOk(cells', canc, loose) && Frame(cells, cells')
    ensures Moved(cells, cells', canc, cells[p].childs[c].oct, p) && Counts(cells', abs, canc, x, p)
    ensures forall o :: ListOf(cells', outer, o) == ListOf(cells, outer, o)
    ensures |cells'[p].childs| == 8 && cells'[p].childs[c].num == cells[p].childs[c].num - 1
    ensures forall i | 0 <= i < 8 && i != c :: cells'[p].childs[i] == cells[p].childs[i]
    ensures cells'[p].childs[c].num < adjust0 ==> cells'[p].dirty & Bit(c) == Bit(c)
    ensures cells'[p].dirty & cells[p].dirty == cells[p].dirty
    ensures forall d | d in cells && d != p :: cells'[d] == cells[d]
    ensures DirtyOk(q, count, min) ==> DirtyOk(q', count', min')
    ensures QueueKeeps(q, q') && (MaskQueued(cells, q) ==> MaskQueued(cells', q'))
  {
    var np := cells[p];
    var k := np.childs[c].oct;
    UncountFacts(cells, canc, loose, abs, x, p, c);
    var num := np.childs[c].num - 1;
    var mask;
    mask, q', count', min' := MarkBelow(np.dirty, c, num, adjust0, layer, p, q, count, min);
    cells' := cells[p := np.(childs := np.childs[c := Oct(k, num)], dirty := mask)];
    UncountCells(cells, cells', canc, loose, abs, outer, adjust0, x, p, c, mask);
    QueuedMark(cells, p, cells'[p], q, q');
  }

  /// A slot whose count `num` fell below `adjust0` is marked dirty in
  /// `mask`, and the cell `p` queued at `layer` if its mask was clean.
  method MarkBelow(mask: bv8, c: nat, num: nat, adjust0: nat, layer: nat, p: nat,
                   q: seq<seq<nat>>, count: nat, min: nat)
    returns (mask': bv8, q': seq<seq<nat>>, count': nat, min': nat)
    requires c < 8
    ensures num < adjust0 ==> mask' & Bit(c) == Bit(c)
    ensures num >= adjust0 ==> mask' == mask && q' == q && count' == count && min' == min
    ensures mask' & mask == mask
    ensures DirtyOk(q, count, min) ==> DirtyOk(q', count', min')
    ensures QueueKeeps(q, q') && (mask' != 0 && mask == 0 && p != 0 ==> InQueue(q', p))
  {
    mask', q', count', min' := mask, q, count, min;
    if num < adjust0 {
      var sd := SetDirty(mask, c, layer, p);
      mask' := sd.0;
      if sd.1.1 > 0 {
        q', count', min' := SetTreeDirty(q, count, min, sd.1.0, sd.1.1);
      }
    }
  }

  /// The cells after `Uncount`: slot `c` of `p` counts one less and the mask
  /// of `p` only gains bits.
  lemma UncountCells<T>(cells: Cells, cells': Cells, canc: map<nat, set<nat>>, loose: Vec3, abs: Entries<T>,
                        outer: NodeList, adjust0: nat, x: nat, p: nat, c: nat, mask: bv8)
    requires CellsOk(cells, canc, loose) && p in cells && c < 8 && c < |cells[p].childs| && cells[p].childs[c].Oct?
    requires Counts(cells, abs, canc, x, cells[p].childs[c].oct)
    requires cells[p].childs[c].num >= 1
    requires cells' == cells[p := cells[p].(childs := cells[p].childs[c := Oct(cells[p].childs[c].oct,
                                                                             cells[p].childs[c].num - 1)],
                                            dirty := mask)]
    requires mask & cells[p].dirty == cells[p].dirty
    requires cells[p].childs[c].num - 1 < adjust0 ==> mask & Bit(c) == Bit(c)
    ensures CellsOk(cells', canc, loose) && Frame(cells, cells')
    ensures cells'[p].childs[c].num < adjust0 ==> cells'[p].dirty & Bit(c) == Bit(c)
    ensures cells'[p].dirty & cells[p].dirty == cells[p].dirty
    ensures Moved(cells, cells', canc, cells[p].childs[c].oct, p) && Counts(cells', abs, canc, x, p)
    ensures forall o :: ListOf(cells', outer, o) == ListOf(cells, outer, o)
    ensures |cells'[p].childs| == 8 && cells'[p].childs[c].num == cells[p].childs[c].num - 1
    ensures forall i | 0 <= i < 8 && i != c :: cells'[p].childs[i] == cells[p].childs[i]
    ensures forall d | d in cells && d != p :: cells'[d] == cells[d]
  {
    UncountFacts(cells, canc, loose, abs, x, p, c);
    ClimbStep(cells, cells', canc, loose, abs, outer, x, cells[p].childs[c].oct, mask);
  }

  /// The slot that holds the cell an entry counts as sitting in counts it.
  lemma UncountFacts<T>(cells: Cells, canc: map<nat, set<nat>>, loose: Vec3, abs: Entries<T>, x: nat, p: nat, c: nat)
    requires CellsOk(cells, canc, loose) && p in cells && c < 8 && c < |cells[p].childs| && cells[p].childs[c].Oct?
    requires Counts(cells, abs, canc, x, cells[p].childs[c].oct)
    ensures var k := cells[p].childs[c].oct;
      k in cells && k != ROOT && cells[k].parent == p && cells[k].parentChild == c &&
      cells[p].childs[c].num >= 1 && |cells[p].childs| == 8
  {
    assert CellShape(cells, canc, p);
    RootNotChild(cells, canc, p, c);
    var k := cells[p].childs[c].oct;
    assert CellShape(cells, canc, k);
    assert CountOk(cells, abs, canc, x, k, p);
  }

  /// One step of the climb: the parent's slot that holds `cur` stops
  /// counting the entry, which now counts as sitting in the parent.
  lemma ClimbStep<T>(cells: Cells, cells2: Cells, canc: map<nat, set<nat>>, loose: Vec3, abs: Entries<T>,
                     outer: NodeList, x: nat, cur: nat, mask: bv8)
    requires CellsOk(cells, canc, loose) && cur in cells && cur != ROOT
    requires Counts(cells, abs, canc, x, cur)
    requires var p := cells[cur].parent; var c := cells[cur].parentChild;
      p in cells && c < 8 && |cells[p].childs| == 8 && cells[p].childs[c].Oct? &&
      cells[p].childs[c].oct == cur && cells[p].childs[c].num >= 1 &&
      cells2 == cells[p := cells[p].(childs := cells[p].childs[c := Oct(cur, cells[p].childs[c].num - 1)],
                                     dirty := mask)]
    ensures CellsOk(cells2, canc, loose) && Frame(cells, cells2)
    ensures Moved(cells, cells2, canc, cur, cells[cur].parent)
    ensures Counts(cells2, abs, canc, x, cells[cur].parent)
    ensures forall o :: ListOf(cells2, outer, o) == ListOf(cells, outer, o)
  {
    var p := cells[cur].parent;
    var c := cells[cur].parentChild;
    assert CellShape(cells, canc, p);
    MovedStep(cells, p, c, cells2[p], canc, false);
    CellsFrame(cells, cells2, canc, loose);
    CountsMoved(cells, cells2, abs, canc, x, cur, p);
  }

  /// The entry, escaped from its cell, is taken by `down` from an ancestor
  /// reached by the climb.
  lemma ClimbRelocated<T>(cells: Cells, cells1: Cells, cells': Cells, canc: map<nat, set<nat>>, loose: Vec3,
                          outer: NodeList, p: nat, x: nat, e: AbNode<T>, e': AbNode<T>)
    requires CellsOk(cells, canc, loose) && CellsOk(cells1, canc, loose) && p in cells1 && e.parent in cells
    requires Frame(cells, cells1) && Moved(cells, cells1, canc, e.parent, p)
    requires forall o :: ListOf(cells1, outer, o) == ListOf(cells, outer, o)
    requires !Contains(cells[e.parent].aabb, e.aabb) || e.layer < cells[e.parent].layer
    requires Sank(cells1, cells', canc, loose, outer, p, e.(prev := 0, parentChild := 8), e', x)
    ensures Relocated(cells, cells', canc, loose, outer, outer, x, e, e')
  {
    assert cells[e.parent].layer == cells1[e.parent].layer && cells[e.parent].aabb == cells1[e.parent].aabb;
    SankRelocated(cells, cells1, cells', canc, loose, outer, p, x, e, e');
  }

  /// The climb of `update` from the entry's cell, which no longer holds it:
  /// each ancestor's slot on the way stops counting it, and marks itself
  /// dirty below `adjust0` (reporting the cell with the ENTRY's layer); the
  /// first ancestor at most as deep as the entry that contains it takes it
  /// by `down`.  Reaching the root without one, nothing is placed.
  method Climb<T>(cells: Cells, ghost canc: map<nat, set<nat>>, ghost loose: Vec3, ghost abs: Entries<T>,
                  ghost outer: NodeList, adjust: (nat, nat), deep: nat,
                  q: seq<seq<nat>>, count: nat, min: nat, x: nat, e: AbNode<T>)
    returns (cells': Cells, q': seq<seq<nat>>, count': nat, min': nat, e': AbNode<T>, placed: bool)
    requires CellsOk(cells, canc, loose) && e.parent in cells && e.parent != ROOT
    requires Counts(cells, abs, canc, x, e.parent)
    requires WellFormed(e.aabb) && e.layer == CalcLayer(loose, Dim(e.aabb))
    requires !Contains(cells[e.parent].aabb, e.aabb) || e.layer < cells[e.parent].layer
    ensures placed ==> Relocated(cells, cells', canc, loose, outer, outer, x, e, e')
    ensures !placed ==>
      CellsOk(cells', canc, loose) && Frame(cells, cells') && Moved(cells, cells', canc, e.parent, ROOT) &&
      (forall o :: ListOf(cells', outer, o) == ListOf(cells, outer, o)) &&
      !Contains(cells[ROOT].aabb, e.aabb)
    ensures DirtyOk(q, count, min) ==> DirtyOk(q', count', min')
    ensures MaskQueued(cells, q) ==> MaskQueued(cells', q')
  {
    cells', q', count', min' := cells, q, count, min;
    e' := e;
    var cur := e.parent;
    MovedSame(cells, canc, cur, cur);
    while cur != ROOT
      invariant cur in cells' && CellsOk(cells', canc, loose)
      invariant Frame(cells, cells') && Moved(cells, cells', canc, e.parent, cur)
      invariant Counts(cells', abs, canc, x, cur)
      invariant forall o :: ListOf(cells', outer, o) == ListOf(cells, outer, o)
      invariant cur == ROOT ==> !Contains(cells[ROOT].aabb, e.aabb)
      invariant DirtyOk(q, count, min) ==> DirtyOk(q', count', min')
      invariant MaskQueued(cells, q) ==> MaskQueued(cells', q')
      decreases cells'[cur].layer
    {
      ClimbFacts(cells', canc, loose, abs, x, cur);
      var p := cells'[cur].parent;
      var cells2;
      cells2, q', count', min' := Uncount(cells', canc, loose, abs, outer, adjust.0, q', count', min', x,
                                          p, cells'[cur].parentChild, e.layer);
      MovedTrans(cells, cells', cells2, canc, e.parent, cur, p);
      cells' := cells2;
      if cells'[p].layer <= e.layer && Contains(cells'[p].aabb, e.aabb) {
        var cells3, d;
        cells3, e', d := Down(cells', canc, loose, outer, adjust.1, deep, p, e.(prev := 0, parentChild := 8), x);
        ClimbRelocated(cells, cells', cells3, canc, loose, outer, p, x, e, e');
        ghost var q2 := q';
        q', count', min' := SetTreeDirty(q', count', min', d.0, d.1);
        QueuedAfter(cells', cells3, q2, q', d.1);
        return cells3, q', count', min', e', true;
      }
      RootLayer(cells', canc, loose);
      cur := p;
    }
    placed := false;
  }

  /// The root is at layer 0.
  lemma RootLayer(cells: Cells, canc: map<nat, set<nat>>, loose: Vec3)
    requires CellsOk(cells, canc, loose)
    ensures cells[ROOT].layer == 0
  {
    assert CellGeom(cells, canc, loose, ROOT);
  }

  /// The end of `update` for an entry that no cell below the root takes and
  /// that does not stay where it was: it joins the root's own list when it
  /// touches the root, the outer list otherwise.
  method SettleTop<T>(ghost cells0: Cells, cells: Cells, ghost canc: map<nat, set<nat>>, ghost loose: Vec3,
                      outer: NodeList, x: nat, e: AbNode<T>)
    returns (cells': Cells, outer': NodeList, e': AbNode<T>)
    requires CellsOk(cells0, canc, loose) && CellsOk(cells, canc, loose) && e.parent in cells0
    requires Frame(cells0, cells) && Moved(cells0, cells, canc, e.parent, ROOT)
    requires forall o :: ListOf(cells, outer, o) == ListOf(cells0, outer, o)
    requires WellFormed(e.aabb) && e.layer == CalcLayer(loose, Dim(e.aabb))
    requires OwnerOf(e).Slot? || e.parentChild == 8
    requires !Contains(cells[ROOT].aabb, e.aabb)
    requires Intersects(cells[ROOT].aabb, e.aabb) ==> OwnerOf(e) != Nodes(ROOT)
    ensures Relocated(cells0, cells', canc, loose, outer, outer', x, e, e')
    ensures MarksFrom(cells, cells', 0)
  {
    var root := cells[ROOT];
    assert CellShape(cells, canc, ROOT);
    if Intersects(root.aabb, e.aabb) {
      e' := e.(parent := ROOT, parentChild := 8, prev := 0, next := root.nodes.head);
      var n' := root.(nodes := NodeList(x, root.nodes.len + 1));
      cells' := cells[ROOT := n'];
      outer' := outer;
      PushRelocated(cells0, cells, canc, loose, outer, x, e, e', n');
    } else {
      e' := e.(parent := 0, parentChild := 8, prev := 0, next := outer.head);
      cells' := cells;
      outer' := NodeList(x, outer.len + 1);
      MovedEnds(cells0, cells, canc, e.parent, ROOT, e.parent, 0);
      PlacedFrame(cells0, cells, loose, e');
      forall o | o != Outer
        ensures ListOf(cells', outer', o) == ListOf(cells0, outer, o)
      {
        assert ListOf(cells', outer', o) == ListOf(cells, outer, o);
      }
    }
  }

  /// `update` of an entry of the outer list: once it touches the root it
  /// leaves the outer list, for the cell `down` gives it when the root
  /// contains it, for the root's own list otherwise.
  method Enter<T>(cells: Cells, ghost canc: map<nat, set<nat>>, ghost loose: Vec3, outer: NodeList,
                  adjust1: nat, deep: nat, x: nat, e: AbNode<T>)
    returns (cells': Cells, e': AbNode<T>, d: (nat, nat), entered: bool)
    requires CellsOk(cells, canc, loose) && e.parent == 0 && e.parentChild == 8
    requires WellFormed(e.aabb) && e.layer == CalcLayer(loose, Dim(e.aabb))
    ensures entered <==> Intersects(cells[ROOT].aabb, e.aabb)
    ensures !entered ==> cells' == cells && e' == e && d == (0, 0)
    ensures entered ==> Relocated(cells, cells', canc, loose, outer, outer, x, e, e')
    ensures MarksFrom(cells, cells', d.1)
  {
    var root := cells[ROOT];
    if !Intersects(root.aabb, e.aabb) {
      return cells, e, (0, 0), false;
    }
    entered := true;
    var e1 := e.(prev := 0, parentChild := 8);
    assert CellGeom(cells, canc, loose, ROOT);
    MovedSame(cells, canc, 0, ROOT);
    CellsFrame(cells, cells, canc, loose);
    if Contains(root.aabb, e.aabb) {
      cells', e', d := Down(cells, canc, loose, outer, adjust1, deep, ROOT, e1, x);
      SankRelocated(cells, cells, cells', canc, loose, outer, ROOT, x, e, e');
    } else {
      assert CellShape(cells, canc, ROOT);
      e' := e1.(parent := ROOT, next := root.nodes.head);
      var n' := root.(nodes := NodeList(x, root.nodes.len + 1));
      cells' := cells[ROOT := n'];
      d := (0, 0);
      MovedSame(cells, canc, 0, ROOT);
      PushRelocated(cells, cells, canc, loose, outer, x, e, e', n');
    }
  }

  /// The inputs on which `update` returns None and changes nothing: an
  /// outer entry that still misses the root; an entry deeper than its
  /// cell whose slot `check_contain` keeps; an entry of a cell's own list
  /// at the cell's layer that the cell still contains; and an entry of the
  /// root's own list that still touches the root and has no octant of the
  /// root to move to.
  ghost predicate Stays<T>(cells: Cells, e: AbNode<T>)
    requires ROOT in cells
  {
    if e.parent == 0 then !Intersects(cells[ROOT].aabb, e.aabb)
    else
      e.parent in cells && e.parentChild <= 8 &&
      var n := cells[e.parent];
      ((e.layer > n.layer && CheckContain(n.aabb, n.loose, e.aabb, e.parentChild) == e.parentChild) ||
       (e.layer == n.layer && e.parentChild == 8 && Contains(n.aabb, e.aabb)) ||
       (e.parent == ROOT && e.parentChild == 8 && Intersects(n.aabb, e.aabb) &&
        (e.layer <= n.layer || CheckContain(n.aabb, n.loose, e.aabb, 8) == 9)))
  }

  /// `update`: entry `x`, whose record `e` already holds its new box and
  /// layer, either stays (None: nothing changes, and the entry is placed
  /// where it hangs) or is relocated; the result then names its old list
  /// (cell, slot, predecessor, successor) and its new successor, for
  /// `remove_add`.  Every cell `down` or the climb reports joins the dirty
  /// queue.
  method Update<T>(cells: Cells, ghost canc: map<nat, set<nat>>, ghost loose: Vec3, ghost abs: Entries<T>,
                   adjust: (nat, nat), deep: nat, outer: NodeList,
                   q: seq<seq<nat>>, count: nat, min: nat, x: nat, e: AbNode<T>)
    returns (cells': Cells, outer': NodeList, q': seq<seq<nat>>, count': nat, min': nat,
             e': AbNode<T>, r: Option<(nat, nat, nat, nat, nat)>)
    requires CellsOk(cells, canc, loose) && (e.parent == 0 || e.parent in cells)
    requires Counts(cells, abs, canc, x, e.parent)
    requires WellFormed(e.aabb) && e.layer == CalcLayer(loose, Dim(e.aabb))
    requires OwnerOf(e).Slot? || e.parentChild == 8
    ensures r.None? ==>
      cells' == cells && outer' == outer && e' == e && q' == q && count' == count && min' == min &&
      Placed(cells, loose, e)
    ensures r.None? <==> Stays(cells, e)
    ensures r.Some? ==>
      Relocated(cells, cells', canc, loose, outer, outer', x, e, e') &&
      r.value == (e.parent, if e.parent == 0 then 0 else e.parentChild, e.prev, e.next, e'.next)
    ensures DirtyOk(q, count, min) ==> DirtyOk(q', count', min')
    ensures MaskQueued(cells, q) ==> MaskQueued(cells', q')
  {
    var p := e.parent;
    if p == 0 {
      var d, entered;
      cells', e', d, entered := Enter(cells, canc, loose, outer, adjust.1, deep, x, e);
      if !entered {
        return cells, outer, q, count, min, e, None;
      }
      q', count', min' := SetTreeDirty(q, count, min, d.0, d.1);
      QueuedAfter(cells, cells', q, q', d.1);
      return cells', outer, q', count', min', e', Some((0, 0, e.prev, e.next, e'.next));
    }
    var c := e.parentChild;
    var n := cells[p];
    assert CellShape(cells, canc, p);
    assert CellGeom(cells, canc, loose, p);
    if e.layer > n.layer {
      var child := CheckContain(n.aabb, n.loose, e.aabb, c);
      if child == c {
        StayPlaced(cells, canc, loose, e);
        return cells, outer, q, count, min, e, None;
      }
      if child < 8 {
        cells', q', count', min', e' := ToSibling(cells, canc, loose, abs, adjust, deep, outer, q, count, min, x, e);
        return cells', outer, q', count', min', e', Some((p, c, e.prev, e.next, e'.next));
      }
    } else if e.layer == n.layer && Contains(n.aabb, e.aabb) {
      if c == 8 {
        return cells, outer, q, count, min, e, None;
      }
      cells', e' := MoveToNodes(cells, canc, loose, outer, x, e);
      return cells', outer, q, count, min, e', Some((p, c, e.prev, e.next, e'.next));
    }
    cells', outer', q', count', min', e', r := Leave(cells, canc, loose, abs, adjust, deep, outer, q, count, min, x, e);
  }

  /// The part of `update` that moves an entry deeper than its cell to
  /// the other slot `check_contain` names, and queues what `down` or the
  /// move reports.
  method ToSibling<T>(cells: Cells, ghost canc: map<nat, set<nat>>, ghost loose: Vec3, ghost abs: Entries<T>,
                      adjust: (nat, nat), deep: nat, outer: NodeList,
                      q: seq<seq<nat>>, count: nat, min: nat, x: nat, e: AbNode<T>)
    returns (cells': Cells, q': seq<seq<nat>>, count': nat, min': nat, e': AbNode<T>)
    requires CellsOk(cells, canc, loose) && e.parent != 0 && e.parent in cells
    requires Counts(cells, abs, canc, x, e.parent)
    requires WellFormed(e.aabb) && e.layer == CalcLayer(loose, Dim(e.aabb))
    requires OwnerOf(e).Slot? || e.parentChild == 8
    requires var n := cells[e.parent]; var child := CheckContain(n.aabb, n.loose, e.aabb, e.parentChild);
      e.layer > n.layer && child != e.parentChild && child < 8
    ensures Relocated(cells, cells', canc, loose, outer, outer, x, e, e')
    ensures DirtyOk(q, count, min) ==> DirtyOk(q', count', min')
    ensures MaskQueued(cells, q) ==> MaskQueued(cells', q')
  {
    var n := cells[e.parent];
    var c := e.parentChild;
    assert CellShape(cells, canc, e.parent);
    assert CellGeom(cells, canc, loose, e.parent);
    var child := CheckContain(n.aabb, n.loose, e.aabb, c);
    LayerSmall(loose, e.aabb, n.layer);
    CheckContainSound(n.aabb, n.loose, e.aabb, c);
    var d;
    cells', e', d := MoveSibling(cells, canc, loose, outer, adjust.1, deep, x, e, child);
    q', count', min' := SetTreeDirty(q, count, min, d.0, d.1);
    QueuedAfter(cells, cells', q, q', d.1);
  }

  /// The rest of `update`, once the entry fits neither its slot, another
  /// slot nor the own list of its cell: it climbs to the first ancestor
  /// that contains it, and otherwise settles on the root's own list or the
  /// outer list.  Only an entry of the root's own list that still touches
  /// the root stays.
  method Leave<T>(cells: Cells, ghost canc: map<nat, set<nat>>, ghost loose: Vec3, ghost abs: Entries<T>,
                  adjust: (nat, nat), deep: nat, outer: NodeList,
                  q: seq<seq<nat>>, count: nat, min: nat, x: nat, e: AbNode<T>)
    returns (cells': Cells, outer': NodeList, q': seq<seq<nat>>, count': nat, min': nat,
             e': AbNode<T>, r: Option<(nat, nat, nat, nat, nat)>)
    requires CellsOk(cells, canc, loose) && e.parent != 0 && e.parent in cells
    requires Counts(cells, abs, canc, x, e.parent)
    requires WellFormed(e.aabb) && e.layer == CalcLayer(loose, Dim(e.aabb))
    requires OwnerOf(e).Slot? || e.parentChild == 8
    requires var n := cells[e.parent];
      e.layer < n.layer || (e.layer == n.layer && !Contains(n.aabb, e.aabb)) ||
      (e.layer > n.layer && CheckContain(n.aabb, n.loose, e.aabb, e.parentChild) == 9)
    ensures r.None? ==>
      cells' == cells && outer' == outer && e' == e && q' == q && count' == count && min' == min &&
      Placed(cells, loose, e)
    ensures r.None? <==> e.parent == ROOT && e.parentChild == 8 && Intersects(cells[ROOT].aabb, e.aabb)
    ensures r.Some? ==>
      Relocated(cells, cells', canc, loose, outer, outer', x, e, e') &&
      r.value == (e.parent, e.parentChild, e.prev, e.next, e'.next)
    ensures DirtyOk(q, count, min) ==> DirtyOk(q', count', min')
    ensures MaskQueued(cells, q) ==> MaskQueued(cells', q')
  {
    var p := e.parent;
    var c := e.parentChild;
    assert CellShape(cells, canc, p);
    assert CellGeom(cells, canc, loose, p);
    var cellsC := cells;
    q', count', min' := q, count, min;
    if p != ROOT {
      var placed;
      cellsC, q', count', min', e', placed := Climb(cells, canc, loose, abs, outer, adjust, deep, q, count, min, x, e);
      if placed {
        return cellsC, outer, q', count', min', e', Some((p, c, e.prev, e.next, e'.next));
      }
    } else {
      MovedSame(cells, canc, p, ROOT);
    }
    if Intersects(cellsC[ROOT].aabb, e.aabb) && p == ROOT && c == 8 {
      return cells, outer, q, count, min, e, None;
    }
    cells', outer', e' := SettleTop(cells, cellsC, canc, loose, outer, x, e);
    QueuedAfter(cellsC, cells', q', q', 0);
    r := Some((p, c, e.prev, e.next, e'.next));
  }
}
