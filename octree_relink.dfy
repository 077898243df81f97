// Unlinking in cg/src/octree.rs: `NodeList::remove`, `remove_add` (which
// completes a move of `update` by unlinking the entry from its old list and
// repairing the new successor's backward link) and `remove_up` (which
// uncounts a removed entry on the way to the root).
module OctreeRelink {
  import opened OctreeGeometry
  import opened OctreeState
  import opened OctreeLists
  import opened OctreeCounts
  import opened OctreeSteps
  import opened OctreeDirty
  import opened OctreeDown
  import opened OctreeUpdate

  /// The owner named by a cell and a slot number, as `remove_add` reads
  /// them: cell 0 is the outer list, slot 8 the cell's own list.
  function OwnerAt(rid: nat, child: nat): (o: Owner)
    ensures rid == 0 <==> o == Outer
    ensures rid != 0 ==> CellOf(o) == rid
  {
    if rid == 0 then Outer else if child < 8 then Slot(rid, child) else Nodes(rid)
  }

  /// An entry's owner is the one its cell and slot name.
  lemma OwnerAtOf<T>(e: AbNode<T>)
    ensures OwnerOf(e) == OwnerAt(e.parent, if e.parent == 0 then 0 else e.parentChild)
  {
  }

  /// `NodeList::remove`: the predecessor (or, without one, the list head)
  /// skips the removed entry, the successor points back past it, the length
  /// drops by one.
  method ListRemove<T>(nl: NodeList, abs: Entries<T>, prev: nat, next: nat)
    returns (nl': NodeList, abs': Entries<T>)
    requires nl.len > 0
    requires prev > 0 ==> prev in abs
    requires next > 0 ==> next in abs
    ensures nl' == UnlinkList(nl, prev, next) && abs' == UnlinkAbs(abs, prev, next)
    ensures nl'.len == nl.len - 1 && abs'.Keys == abs.Keys
    ensures prev == 0 ==> nl'.head == next
    ensures prev > 0 ==> nl'.head == nl.head && abs'[prev].next == next
    ensures next > 0 ==> abs'[next].prev == prev
  {
    nl' := nl;
    abs' := abs;
    if prev > 0 {
      abs' := abs'[prev := abs'[prev].(next := next)];
    } else {
      nl' := nl'.(head := next);
    }
    if next > 0 {
      abs' := abs'[next := abs'[next].(prev := prev)];
    }
    nl' := nl'.(len := nl'.len - 1);
  }

  /// The list records of the cell `rid` after the list of slot `child` (or
  /// of its own list, for slot 8) became `nl`.
  function SetList(n: OctNode, child: nat, nl: NodeList): (r: OctNode)
    requires child < 8 ==> child < |n.childs|
    ensures child < 8 ==> r == n.(childs := n.childs[child := Ab(nl)])
    ensures child >= 8 ==> r == n.(nodes := nl)
  {
    if child < 8 then n.(childs := n.childs[child := Ab(nl)]) else n.(nodes := nl)
  }

  /// The record of the successor `curNext` of the moved entry `x`, pointing
  /// back to `x`.
  function FixNext<T>(abs: Entries<T>, curNext: nat, x: nat): (r: Entries<T>)
    requires curNext > 0 ==> curNext in abs
    ensures r.Keys == abs.Keys
    ensures curNext > 0 ==> r[curNext] == abs[curNext].(prev := x)
    ensures forall y | y in abs && y != curNext :: r[y] == abs[y]
  {
    if curNext > 0 then abs[curNext := abs[curNext].(prev := x)] else abs
  }

  /// `remove_add`: after `update` reported a move, entry `x` is unlinked
  /// from its old list (cell, slot, predecessor, successor) and its new
  /// successor points back to it; with nothing reported, nothing changes.
  /// Only list records change among the cells.
  method RemoveAdd<T>(cells: Cells, ghost canc: map<nat, set<nat>>, abs: Entries<T>, outer: NodeList,
                      x: nat, r: Option<(nat, nat, nat, nat, nat)>)
    returns (cells': Cells, abs': Entries<T>, outer': NodeList)
    requires Shape(cells, canc)
    requires r.Some? ==>
      var (rid, child, prev, next, curNext) := r.value;
      ListOf(cells, outer, OwnerAt(rid, child)).Some? && ListOf(cells, outer, OwnerAt(rid, child)).value.len > 0 &&
      (prev > 0 ==> prev in abs) && (next > 0 ==> next in abs) && (curNext > 0 ==> curNext in abs)
    ensures r.None? ==> cells' == cells && abs' == abs && outer' == outer
    ensures r.Some? ==>
      var (rid, child, prev, next, curNext) := r.value;
      var o := OwnerAt(rid, child);
      Frame(cells, cells') && Moved(cells, cells', canc, 0, 0) &&
      ListOf(cells', outer', o) == Some(UnlinkList(ListOf(cells, outer, o).value, prev, next)) &&
      (forall o' | o' != o :: ListOf(cells', outer', o') == ListOf(cells, outer, o')) &&
      abs' == FixNext(UnlinkAbs(abs, prev, next), curNext, x)
    ensures MarksFrom(cells, cells', 0)
  {
    if r.None? {
      return cells, abs, outer;
    }
    var (rid, child, prev, next, curNext) := r.value;
    var nl: NodeList;
    if rid > 0 {
      var n := cells[rid];
      var old_nl := if child < 8 then n.childs[child].list else n.nodes;
      nl, abs' := ListRemove(old_nl, abs, prev, next);
      cells' := cells[rid := SetList(n, child, nl)];
      outer' := outer;
      assert CellShape(cells, canc, rid);
      PushFrame(cells, canc, rid, cells'[rid], 0);
    } else {
      nl, abs' := ListRemove(outer, abs, prev, next);
      cells' := cells;
      outer' := nl;
      MovedSame(cells, canc, 0, 0);
    }
    abs' := FixNext(abs', curNext, x);
  }

  /// `remove_up`: the slots from slot `child` of cell `parent` up to the
  /// root stop counting the removed entry, which counted as sitting in the
  /// cell `v` that slot holds (in the root for `parent == 0`); every slot
  /// whose count falls below `adjust0` is marked dirty, and a cell whose
  /// mask was clean joins the queue at its own layer.  Masks only grow and
  /// no list changes.
  method RemoveUp<T>(cells: Cells, ghost canc: map<nat, set<nat>>, ghost loose: Vec3, ghost abs: Entries<T>,
                     ghost outer: NodeList, adjust0: nat, q: seq<seq<nat>>, count: nat, min: nat,
                     ghost x: nat, ghost v: nat, parent: nat, child: nat)
    returns (cells': Cells, q': seq<seq<nat>>, count': nat, min': nat)
    requires CellsOk(cells, canc, loose) && Counts(cells, abs, canc, x, v)
    requires parent == 0 ==> v == ROOT
    requires parent != 0 ==>
      parent in cells && child < 8 && child < |cells[parent].childs| && cells[parent].childs[child].Oct? &&
      cells[parent].childs[child].oct == v
    ensures CellsOk(cells', canc, loose) && Frame(cells, cells') && Moved(cells, cells', canc, v, ROOT)
    ensures Counts(cells', abs, canc, x, ROOT)
    ensures forall o :: ListOf(cells', outer, o) == ListOf(cells, outer, o)
    ensures forall d | d in cells :: cells'[d].dirty & cells[d].dirty == cells[d].dirty
    ensures forall d, i {:trigger cells'[d].childs[i]} | d in cells && 0 <= i < 8 && cells[d].childs[i].Oct? ::
      cells'[d].childs[i].num != cells[d].childs[i].num && cells'[d].childs[i].num < adjust0 ==>
      cells'[d].dirty & Bit(i) == Bit(i)
    ensures DirtyOk(q, count, min) ==> DirtyOk(q', count', min')
    ensures MaskQueued(cells, q) ==> MaskQueued(cells', q')
    decreases if parent in cells then cells[parent].layer + 1 else 0
  {
    if parent == 0 {
      MovedSame(cells, canc, ROOT, ROOT);
      return cells, q, count, min;
    }
    var cells1, q1, count1, min1 :=
      Uncount(cells, canc, loose, abs, outer, adjust0, q, count, min, x, parent, child, cells[parent].layer);
    var n := cells1[parent];
    UpStep(cells, cells1, canc, loose, parent);
    cells', q', count', min' :=
      RemoveUp(cells1, canc, loose, abs, outer, adjust0, q1, count1, min1, x, parent, n.parent, n.parentChild);
    ClimbTrans(cells, cells1, cells', canc, outer, adjust0, v, parent, child);
  }

  /// One step of `remove_up` followed by the rest of the climb is the whole
  /// climb: frames, moves, lists and marks compose.
  lemma ClimbTrans(cells: Cells, cells1: Cells, cells': Cells, canc: map<nat, set<nat>>, outer: NodeList,
                   adjust0: nat, v: nat, p: nat, c: nat)
    requires p in cells && c < 8 && c < |cells[p].childs| && cells[p].childs[c].Oct? && cells[p].childs[c].oct == v
    requires Frame(cells, cells1) && Moved(cells, cells1, canc, v, p)
    requires forall o :: ListOf(cells1, outer, o) == ListOf(cells, outer, o)
    requires |cells1[p].childs| == 8 && cells1[p].childs[c].num == cells[p].childs[c].num - 1
    requires forall i | 0 <= i < 8 && i != c :: cells1[p].childs[i] == cells[p].childs[i]
    requires cells1[p].childs[c].num < adjust0 ==> cells1[p].dirty & Bit(c) == Bit(c)
    requires cells1[p].dirty & cells[p].dirty == cells[p].dirty
    requires forall d | d in cells && d != p :: cells1[d] == cells[d]
    requires Frame(cells1, cells') && Moved(cells1, cells', canc, p, ROOT)
    requires forall o :: ListOf(cells', outer, o) == ListOf(cells1, outer, o)
    requires forall d | d in cells1 :: cells'[d].dirty & cells1[d].dirty == cells1[d].dirty
    requires forall d, i {:trigger cells'[d].childs[i]} | d in cells1 && 0 <= i < 8 && cells1[d].childs[i].Oct? ::
      cells'[d].childs[i].num != cells1[d].childs[i].num && cells'[d].childs[i].num < adjust0 ==>
      cells'[d].dirty & Bit(i) == Bit(i)
    ensures Frame(cells, cells') && Moved(cells, cells', canc, v, ROOT)
    ensures forall o :: ListOf(cells', outer, o) == ListOf(cells, outer, o)
    ensures forall d | d in cells :: cells'[d].dirty & cells[d].dirty == cells[d].dirty
    ensures forall d, i {:trigger cells'[d].childs[i]} | d in cells && 0 <= i < 8 && cells[d].childs[i].Oct? ::
      cells'[d].childs[i].num != cells[d].childs[i].num && cells'[d].childs[i].num < adjust0 ==>
      cells'[d].dirty & Bit(i) == Bit(i)
  {
    MovedTrans(cells, cells1, cells', canc, v, p, ROOT);
    Flagged(cells, cells1, cells', adjust0, p, c);
  }

  /// The next step of `remove_up` goes to the parent of cell `p`, one layer
  /// up, whose slot holds `p`.
  lemma UpStep(cells: Cells, cells1: Cells, canc: map<nat, set<nat>>, loose: Vec3, p: nat)
    requires CellsOk(cells, canc, loose) && CellsOk(cells1, canc, loose) && Frame(cells, cells1) && p in cells
    ensures var n := cells1[p];
      n.parent == 0 ==> p == ROOT
    ensures var n := cells1[p];
      n.parent != 0 ==>
        n.parent in cells1 && n.parentChild < 8 && n.parentChild < |cells1[n.parent].childs| &&
        cells1[n.parent].childs[n.parentChild].Oct? && cells1[n.parent].childs[n.parentChild].oct == p &&
        cells1[n.parent].layer < cells[p].layer
  {
    assert CellShape(cells1, canc, p);
    assert CellGeom(cells1, canc, loose, p);
    assert cells[p].layer == cells1[p].layer;
  }

  /// Marks set by one step survive the rest of the climb, and the rest of
  /// the climb marks its own slots.
  lemma Flagged(cells: Cells, cells1: Cells, cells': Cells, adjust0: nat, p: nat, c: nat)
    requires Frame(cells, cells1) && Frame(cells1, cells') && p in cells && c < 8
    requires cells[p].childs[c].Oct?
    requires cells1[p].childs[c].num < adjust0 ==> cells1[p].dirty & Bit(c) == Bit(c)
    requires forall d | d in cells && d != p :: cells1[d] == cells[d]
    requires cells1[p].dirty & cells[p].dirty == cells[p].dirty
    requires forall d | d in cells1 :: cells'[d].dirty & cells1[d].dirty == cells1[d].dirty
    requires forall d, i {:trigger cells'[d].childs[i]} | d in cells1 && 0 <= i < 8 && cells1[d].childs[i].Oct? ::
      cells'[d].childs[i].num != cells1[d].childs[i].num && cells'[d].childs[i].num < adjust0 ==>
      cells'[d].dirty & Bit(i) == Bit(i)
    requires forall d, i | d in cells && 0 <= i < 8 && (d != p || i != c) && cells[d].childs[i].Oct? ::
      cells1[d].childs[i] == cells[d].childs[i]
    ensures forall d | d in cells :: cells'[d].dirty & cells[d].dirty == cells[d].dirty
    ensures forall d, i {:trigger cells'[d].childs[i]} | d in cells && 0 <= i < 8 && cells[d].childs[i].Oct? ::
      cells'[d].childs[i].num != cells[d].childs[i].num && cells'[d].childs[i].num < adjust0 ==>
      cells'[d].dirty & Bit(i) == Bit(i)
  {
    forall d | d in cells
      ensures cells'[d].dirty & cells[d].dirty == cells[d].dirty
    {
      MaskKeeps(cells[d].dirty, cells1[d].dirty, cells'[d].dirty);
    }
    forall d, i | d in cells && 0 <= i < 8 && cells[d].childs[i].Oct? &&
        cells'[d].childs[i].num != cells[d].childs[i].num && cells'[d].childs[i].num < adjust0
      ensures cells'[d].dirty & Bit(i) == Bit(i)
    {
      if cells'[d].childs[i].num == cells1[d].childs[i].num {
        MaskKeeps(Bit(i), cells1[d].dirty, cells'[d].dirty);
      }
    }
  }

  /// A mask that keeps every bit of one that keeps every bit of `m` keeps
  /// every bit of `m`.
  lemma MaskKeeps(m: bv8, m1: bv8, m2: bv8)
    requires m1 & m == m && m2 & m1 == m1
    ensures m2 & m == m
  {
  }

  // ---------------------------------------------------------------------
  // The move of `update` to a cell's own list, as written (see README).

  /// The move to the cell's own list as cg/src/octree.rs writes it: the
  /// entry becomes the list's head but keeps its old predecessor link.
  function MoveToNodesAsWritten<T>(n: OctNode, e: AbNode<T>, x: nat): (r: (OctNode, AbNode<T>))
    ensures r.1.parentChild == 8 && r.1.next == n.nodes.head && r.1.prev == e.prev
    ensures r.0.nodes == NodeList(x, n.nodes.len + 1)
  {
    (n.(nodes := NodeList(x, n.nodes.len + 1)), e.(parentChild := 8, next := n.nodes.head))
  }

  /// An entry that had a predecessor in its slot's list is left as the head
  /// of the cell's own list with a predecessor link: `remove_add` does not
  /// repair it, so the list is no longer linked.
  lemma MoveToNodesAsWrittenBreaksLinks<T>(n: OctNode, e: AbNode<T>, x: nat, abs: Entries<T>, L: seq<nat>)
    requires e.prev != 0 && e.parent != 0
    ensures var e' := MoveToNodesAsWritten(n, e, x).1;
      !LinkOk(abs[x := e'], [x] + L, 0, Nodes(e.parent), {})
  {
    var e' := MoveToNodesAsWritten(n, e, x).1;
    assert PrevOf([x] + L, 0) == 0;
    assert (abs[x := e'])[x].prev == e.prev;
  }

  // ---------------------------------------------------------------------
  // An entry of the root's own list that stays there, as written (see README).

  /// `update` of an entry of the root's own list that still touches the
  /// root but no longer fits in it, as cg/src/octree.rs writes it: its
  /// predecessor link is cleared before it reports that nothing moved.
  function RootStayAsWritten<T>(e: AbNode<T>): (r: (AbNode<T>, Option<(nat, nat, nat, nat, nat)>))
    requires e.parent == ROOT && e.parentChild == 8
    ensures r.1 == None && r.0.prev == 0
  {
    (e.(prev := 0, parentChild := 8), None)
  }

  /// Such an entry not at the head of the root's list loses its place:
  /// its record no longer points back to its predecessor.
  lemma RootStayAsWrittenBreaksLinks<T>(e: AbNode<T>, x: nat, abs: Entries<T>, L: seq<nat>, k: nat)
    requires e.parent == ROOT && e.parentChild == 8
    requires 0 < k < |L| && L[k] == x && L[k - 1] != 0
    ensures !LinkOk(abs[x := RootStayAsWritten(e).0], L, k, Nodes(ROOT), {})
  {
    assert PrevOf(L, k) == L[k - 1];
  }
}
