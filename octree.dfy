// `Tree` of cg/src/octree.rs: the loose octree itself.  Its cells and
// entries live in two slabs (maps whose first key is 1, 0 being the null
// key), the entries outside the root's box in the outer list, and the cells
// whose slots may have to be split or merged in a queue of dirty cells,
// one vector per layer, that `collect` works through.
module Octree {
  import opened OctreeGeometry
  import opened OctreeState
  import opened OctreeLists
  import opened OctreeCounts
  import opened OctreeSteps
  import opened OctreeDirty
  import opened OctreeDown
  import opened OctreeUpdate
  import opened OctreeRelink
  import opened OctreeQuery
  import opened OctreeCollect
  import Slab

  const LOOSE: nat := 3000
  const LOOSE_MAX: nat := 5000
  const DEEP_MAX: nat := 24
  const ADJUST_MIN: nat := 4
  const ADJUST_MAX: nat := 5

  /// The loose ratio `new` keeps, in ten-thousandths of the root's extent:
  /// 0 asks for the default, anything above the maximum is cut to it.
  function LooseRatio(r: nat): (lr: nat)
    ensures 0 < lr <= LOOSE_MAX
    ensures 0 < r <= LOOSE_MAX ==> lr == r
    ensures r == 0 ==> lr == LOOSE
  {
    if r == 0 then LOOSE else if r > LOOSE_MAX then LOOSE_MAX else r
  }

  /// The loose value of the root: `lr` ten-thousandths of its extent, at
  /// most half of it.
  function RootLoose(d: Vec3, lr: nat): (l: Vec3)
    requires NonNeg(d) && lr <= LOOSE_MAX
    ensures NonNeg(l) && Le(l, d)
    ensures 2 * l.x <= d.x && 2 * l.y <= d.y && 2 * l.z <= d.z
  {
    Vec3(d.x * lr / 10000, d.y * lr / 10000, d.z * lr / 10000)
  }

  /// The depth limit asked of `new`: 0 or anything above the maximum
  /// means the maximum.
  function DeepLimit(deep: nat): (r: nat)
    ensures 0 < r <= DEEP_MAX
    ensures 0 < deep <= DEEP_MAX ==> r == deep
  {
    if deep == 0 || deep > DEEP_MAX then DEEP_MAX else deep
  }

  /// The split and merge thresholds: 0 asks for the default, and the split
  /// threshold is raised to the merge threshold when it is below it.
  function Adjust(amin: nat, amax: nat): (a: (nat, nat))
    ensures 0 < a.0 <= a.1
    ensures amin > 0 ==> a.0 == amin
    ensures amax >= a.0 ==> a.1 == amax
    ensures 0 < amin <= amax ==> a == (amin, amax)
  {
    var lo := if amin == 0 then ADJUST_MIN else amin;
    var hi := if amax == 0 then ADJUST_MAX else amax;
    (lo, if lo > hi then lo else hi)
  }

  predicate Positive(v: Vec3) {
    v.x > 0 && v.y > 0 && v.z > 0
  }

  /// The depth `new` settles on in integer space: the deepest layer up to
  /// `deep` such that the loose value of every layer down to it is still
  /// positive on all three axes.
  method MaxDeep(loose: Vec3, deep: nat) returns (i: nat)
    requires NonNeg(loose)
    ensures i <= deep
    ensures forall k | 1 <= k <= i :: Positive(LooseAt(loose, k))
    ensures i < deep ==> !Positive(LooseAt(loose, i + 1))
  {
    i := 0;
    assert LooseAt(loose, 0) == loose;
    LooseStep(loose, 0);
    var l := HalfVec(loose);
    while i < deep && l.x > 0 && l.y > 0 && l.z > 0
      invariant i <= deep && l == LooseAt(loose, i + 1)
      invariant forall k | 1 <= k <= i :: Positive(LooseAt(loose, k))
    {
      LooseStep(loose, i + 1);
      l := HalfVec(l);
      i := i + 1;
    }
  }

  /// The lists of a tree with no entry: the outer list, the root's own
  /// list and its eight slots, all empty.
  ghost function NoLists(): map<Owner, seq<nat>> {
    map[Outer := [], Nodes(ROOT) := [],
        Slot(ROOT, 0) := [], Slot(ROOT, 1) := [], Slot(ROOT, 2) := [], Slot(ROOT, 3) := [],
        Slot(ROOT, 4) := [], Slot(ROOT, 5) := [], Slot(ROOT, 6) := [], Slot(ROOT, 7) := []]
  }

  /// A root cell alone, with no entry, is a tree.
  lemma InvRoot<T>(root: Aabb, loose: Vec3, abs: Entries<T>)
    requires WellFormed(root) && Fits(loose) && Le(loose, Dim(root)) && abs == map[]
    ensures Inv(map[ROOT := NewCell(root, loose, 0, 0, 0)], abs, NodeList(0, 0), NoLists(),
                map[ROOT := {ROOT}], loose, 0, 0, {}, Outer, {})
  {
    var cells := map[ROOT := NewCell(root, loose, 0, 0, 0)];
    var canc := map[ROOT := {ROOT}];
    var outer := NodeList(0, 0);
    assert LooseAt(loose, 0) == loose;
    assert CellShape(cells, canc, ROOT);
    assert CellGeom(cells, canc, loose, ROOT);
    forall o | ListOf(cells, outer, o).Some?
      ensures o in NoLists()
    {
      if o.Slot? {
        var i := o.i;
        assert i == 0 || i == 1 || i == 2 || i == 3 || i == 4 || i == 5 || i == 6 || i == 7;
      }
    }
    forall o | o in NoLists()
      ensures OwnerOk(cells, abs, outer, NoLists(), {}, Outer, {}, o)
    {
      assert ListOf(cells, outer, o) == Some(NodeList(0, 0));
    }
  }

  /// Whether `ListsOk` holds does not depend on which owner skips no records.
  lemma InvOuter<T>(cells: Cells, abs: Entries<T>, outer: NodeList, lists: map<Owner, seq<nat>>,
                    canc: map<nat, set<nat>>, loose: Vec3, v: nat, ho: Owner)
    requires Inv(cells, abs, outer, lists, canc, loose, 0, v, {}, ho, {}) && (v == 0 || v == ROOT)
    ensures Inv(cells, abs, outer, lists, canc, loose, 0, 0, {}, Outer, {})
  {
    CountsRoot(cells, abs, canc, 0, v, 0);
    forall o | o in lists
      ensures OwnerOk(cells, abs, outer, lists, {}, Outer, {}, o)
    {
      assert OwnerOk(cells, abs, outer, lists, {}, ho, {}, o);
    }
  }

  /// A listed entry outside the skipped records has a record.
  lemma ListedIn<T>(cells: Cells, abs: Entries<T>, outer: NodeList, lists: map<Owner, seq<nat>>,
                    stale: set<nat>, ho: Owner, skip: set<nat>, o: Owner, j: nat)
    requires ListsOk(cells, abs, outer, lists, stale, ho, skip)
    requires o in lists && j < |lists[o]| && (o == ho ==> lists[o][j] !in skip)
    ensures lists[o][j] in abs && lists[o][j] != 0
  {
    assert OwnerOk(cells, abs, outer, lists, stale, ho, skip, o);
    assert LinkOk(abs, lists[o], j, o, stale);
  }

  /// Where a new entry `x` with record `e` hangs once its record is `e'`:
  /// counted in the cells down to its own, pushed at the head of its new
  /// list, and placed where it may hang.
  ghost predicate Hung<T>(cells: Cells, cells': Cells, canc: map<nat, set<nat>>, loose: Vec3,
                          outer: NodeList, outer': NodeList, x: nat, e: AbNode<T>, e': AbNode<T>)
    requires CellsOk(cells, canc, loose)
  {
    e' == e.(parent := e'.parent, parentChild := e'.parentChild, next := e'.next) &&
    (e'.parent == 0 || e'.parent in cells) &&
    Frame(cells, cells') && Moved(cells, cells', canc, 0, e'.parent) &&
    Placed(cells', loose, e') &&
    ListOf(cells, outer, OwnerOf(e')).Some? &&
    e'.next == ListOf(cells, outer, OwnerOf(e')).value.head &&
    ListOf(cells', outer', OwnerOf(e')) == Some(NodeList(x, ListOf(cells, outer, OwnerOf(e')).value.len + 1)) &&
    forall o {:trigger ListOf(cells', outer', o)} | o != OwnerOf(e') ::
      ListOf(cells', outer', o) == ListOf(cells, outer, o)
  }

  /// The placing part of `add`: an entry the root's box contains sinks from
  /// the root, one that only touches the root joins the root's own list,
  /// and any other joins the outer list.  `d` is the cell a sinking entry
  /// made dirty, if any, with its layer.
  method Hang<T>(cells: Cells, ghost canc: map<nat, set<nat>>, ghost loose: Vec3, outer: NodeList,
                 adjust1: nat, deep: nat, x: nat, e: AbNode<T>)
    returns (cells': Cells, outer': NodeList, e': AbNode<T>, d: (nat, nat))
    requires CellsOk(cells, canc, loose)
    requires WellFormed(e.aabb) && e.layer == CalcLayer(loose, Dim(e.aabb))
    requires e.parent == 0 && e.parentChild == 8
    ensures Hung(cells, cells', canc, loose, outer, outer', x, e, e')
    ensures e'.parent == 0 <==> !Contains(cells[ROOT].aabb, e.aabb) && !Intersects(cells[ROOT].aabb, e.aabb)
    ensures Contains(cells[ROOT].aabb, e.aabb) ==> e'.parent in cells && Contains(cells[e'.parent].aabb, e.aabb)
    ensures MarksFrom(cells, cells', d.1)
  {
    var root := cells[ROOT];
    assert CellGeom(cells, canc, loose, ROOT);
    assert CellShape(cells, canc, ROOT);
    if Contains(root.aabb, e.aabb) {
      cells', e', d := Down(cells, canc, loose, outer, adjust1, deep, ROOT, e, x);
      outer' := outer;
      MovedEnds(cells, cells', canc, ROOT, e'.parent, 0, e'.parent);
    } else if Intersects(root.aabb, e.aabb) {
      e' := e.(parent := ROOT, next := root.nodes.head);
      cells' := cells[ROOT := root.(nodes := NodeList(x, root.nodes.len + 1))];
      outer' := outer;
      d := (0, 0);
      PushFrame(cells, canc, ROOT, cells'[ROOT], 0);
      MovedEnds(cells, cells', canc, 0, 0, 0, ROOT);
    } else {
      e' := e.(next := outer.head);
      cells' := cells;
      outer' := NodeList(x, outer.len + 1);
      d := (0, 0);
      MovedSame(cells, canc, 0, 0);
    }
  }

  /// Hanging a new entry and pointing its successor back to it restores
  /// the invariant.
  lemma InvHang<T>(cells: Cells, cells': Cells, abs: Entries<T>, outer: NodeList, outer': NodeList,
                   lists: map<Owner, seq<nat>>, canc: map<nat, set<nat>>, loose: Vec3,
                   x: nat, e: AbNode<T>, e': AbNode<T>)
    requires Inv(cells, abs[x := e], outer, lists, canc, loose, x, 0, {}, Outer, {}) && x !in abs
    requires x != 0 && forall o | o in lists :: x !in lists[o]
    requires Hung(cells, cells', canc, loose, outer, outer', x, e, e') && e.prev == 0
    ensures e'.next > 0 ==> e'.next in abs && e'.next != x
    ensures Inv(cells', FixNext(abs[x := e'], e'.next, x), outer',
                lists[OwnerOf(e') := [x] + lists[OwnerOf(e')]], canc, loose, 0, 0, {}, Outer, {})
  {
    var o := OwnerOf(e');
    assert o in lists;
    assert OwnerOk(cells, abs[x := e], outer, lists, {}, Outer, {}, o);
    InvAttach(cells, cells', abs[x := e], outer, outer', lists, canc, loose, x, 0, Outer, {}, o, e');
    assert abs[x := e][x := e'] == abs[x := e'];
    var L' := lists[o := [x] + lists[o]];
    if e'.next > 0 {
      assert lists[o] != [] && L'[o][1] == e'.next;
      InvFixHead(cells', abs[x := e'], outer', L', canc, loose, Outer, {}, o);
    }
  }

  /// What `add` does: the new entry `id` takes a free key and has the
  /// given box, bind and layer; it hangs outside the tree exactly when it
  /// neither lies in nor touches the root's box, and in a cell whose box
  /// contains it when the root's box does.  No cell is made or destroyed,
  /// and every other entry keeps its record but for the backward link of
  /// the list head `h` it now precedes.
  ghost predicate Added<T>(cells: Cells, abs: Entries<T>, cells': Cells, abs': Entries<T>, loose: Vec3,
                           id: nat, aabb: Aabb, bind: T)
    requires ROOT in cells && Fits(loose) && WellFormed(aabb)
  {
    id !in abs && id in abs' &&
    abs'[id].aabb == aabb && abs'[id].bind == bind && abs'[id].layer == CalcLayer(loose, Dim(aabb)) &&
    cells'.Keys == cells.Keys && cells'[ROOT].aabb == cells[ROOT].aabb &&
    (abs'[id].parent == 0 <==> !Contains(cells[ROOT].aabb, aabb) && !Intersects(cells[ROOT].aabb, aabb)) &&
    (Contains(cells[ROOT].aabb, aabb) ==> abs'[id].parent in cells && Contains(cells[abs'[id].parent].aabb, aabb)) &&
    var h := abs'[id].next;
    abs' - {id, h} == abs - {h} &&
    (h != 0 ==> h in abs && h in abs' && abs'[h] == abs[h].(prev := id)) &&
    (h == 0 ==> abs'.Keys == abs.Keys + {id})
  }

  lemma AddedBy<T>(cells: Cells, cells': Cells, abs: Entries<T>, canc: map<nat, set<nat>>, loose: Vec3,
                   outer: NodeList, outer': NodeList, id: nat, e: AbNode<T>, e': AbNode<T>)
    requires CellsOk(cells, canc, loose) && WellFormed(e.aabb) && e.layer == CalcLayer(loose, Dim(e.aabb))
    requires id !in abs && Hung(cells, cells', canc, loose, outer, outer', id, e, e')
    requires e'.next > 0 ==> e'.next in abs && e'.next != id
    requires e'.parent == 0 <==> !Contains(cells[ROOT].aabb, e.aabb) && !Intersects(cells[ROOT].aabb, e.aabb)
    requires Contains(cells[ROOT].aabb, e.aabb) ==> e'.parent in cells && Contains(cells[e'.parent].aabb, e.aabb)
    ensures Added(cells, abs, cells', FixNext(abs[id := e'], e'.next, id), loose, id, e.aabb, e.bind)
  {
    assert CellFrame(cells[ROOT], cells'[ROOT]);
  }

  /// `add` on the values of the tree's fields.
  method AddEntry<T>(cells: Cells, abs: Entries<T>, outer: NodeList, q: seq<seq<nat>>, count: nat, min: nat,
                     ghost lists: map<Owner, seq<nat>>, ghost canc: map<nat, set<nat>>, loose: Vec3,
                     adjust1: nat, deep: nat, id: nat, aabb: Aabb, bind: T)
    returns (cells': Cells, abs': Entries<T>, outer': NodeList, q': seq<seq<nat>>, count': nat, min': nat,
             ghost lists': map<Owner, seq<nat>>)
    requires Inv(cells, abs, outer, lists, canc, loose, 0, 0, {}, Outer, {}) && DirtyOk(q, count, min)
    requires WellFormed(aabb) && id !in abs && id != 0
    ensures Inv(cells', abs', outer', lists', canc, loose, 0, 0, {}, Outer, {}) && DirtyOk(q', count', min')
    ensures Added(cells, abs, cells', abs', loose, id, aabb, bind)
    ensures MaskQueued(cells, q) ==> MaskQueued(cells', q')
  {
    var layer := CalcLayer(loose, Dim(aabb));
    var e: AbNode<T> := AbNode(aabb, bind, layer, 0, 8, 0, 0);
    InvAddRecord(cells, abs, outer, lists, canc, loose, id, e);
    var e', d;
    cells', outer', e', d := Hang(cells, canc, loose, outer, adjust1, deep, id, e);
    q', count', min' := SetTreeDirty(q, count, min, d.0, d.1);
    QueuedAfter(cells, cells', q, q', d.1);
    InvHang(cells, cells', abs, outer, outer', lists, canc, loose, id, e, e');
    AddedBy(cells, cells', abs, canc, loose, outer, outer', id, e, e');
    abs' := FixNext(abs[id := e'], e'.next, id);
    lists' := lists[OwnerOf(e') := [id] + lists[OwnerOf(e')]];
  }

  /// What `update` and `shift` do to the entries once the record of `id`
  /// became `e`: `id` keeps `e` but for the cell, slot and links it now
  /// has, and every other entry keeps its record but for its links.
  ghost predicate Relinked<T>(abs: Entries<T>, abs': Entries<T>, id: nat, e: AbNode<T>) {
    abs'.Keys == abs.Keys && id in abs' &&
    abs'[id] == e.(parent := abs'[id].parent, parentChild := abs'[id].parentChild,
                   prev := abs'[id].prev, next := abs'[id].next) &&
    forall y | y in abs && y != id :: abs'[y] == abs[y].(prev := abs'[y].prev, next := abs'[y].next)
  }

  /// The entry `x` moved from position `k` of the list of owner `ho` to the
  /// head of the list of its new owner: pushed on the new list, and with
  /// the records `remove_add` will look at all present.
  lemma InvReattach<T>(cells: Cells, cells1: Cells, abs: Entries<T>, outer: NodeList, outer1: NodeList,
                       lists: map<Owner, seq<nat>>, canc: map<nat, set<nat>>, loose: Vec3,
                       x: nat, k: nat, e: AbNode<T>, e': AbNode<T>)
    requires x in abs && e == abs[x].(aabb := e.aabb, layer := e.layer)
    requires var ho := OwnerOf(abs[x]);
      ho in lists && k < |lists[ho]| && lists[ho][k] == x &&
      abs[x].prev == PrevOf(lists[ho], k) && abs[x].next == NextOf(lists[ho], k) &&
      (forall o | o in lists && o != ho :: x !in lists[o]) &&
      Inv(cells, abs[x := e], outer, lists, canc, loose, x, abs[x].parent, {}, ho, {x})
    requires Relocated(cells, cells1, canc, loose, outer, outer1, x, e, e')
    ensures var ho := OwnerOf(e);
      var o := OwnerOf(e');
      o != ho && o in lists && ho in lists && k < |lists[ho]| && lists[ho][k] == x &&
      (e'.next == if lists[o] == [] then 0 else lists[o][0]) &&
      Inv(cells1, abs[x := e'], outer1, lists[o := [x] + lists[o]], canc, loose, 0, 0, HeadSet(lists[o]), ho, {x}) &&
      ListOf(cells1, outer1, ho) == ListOf(cells, outer, ho) && ListOf(cells1, outer1, ho).Some? &&
      ListOf(cells1, outer1, ho).value.len == |lists[ho]| &&
      (e.prev > 0 ==> e.prev in abs) && (e.next > 0 ==> e.next in abs) && (e'.next > 0 ==> e'.next in abs)
  {
    var ho := OwnerOf(e);
    var o := OwnerOf(e');
    var a := abs[x := e];
    assert o in lists;
    assert OwnerOk(cells, a, outer, lists, {}, ho, {x}, o);
    assert OwnerOk(cells, a, outer, lists, {}, ho, {x}, ho);
    assert Distinct(lists[ho]);
    if k > 0 {
      ListedIn(cells, a, outer, lists, {}, ho, {x}, ho, k - 1);
    }
    if k + 1 < |lists[ho]| {
      ListedIn(cells, a, outer, lists, {}, ho, {x}, ho, k + 1);
    }
    if lists[o] != [] {
      ListedIn(cells, a, outer, lists, {}, ho, {x}, o, 0);
    }
    InvAttach(cells, cells1, a, outer, outer1, lists, canc, loose, x, e.parent, ho, {x}, o, e');
    assert a[x := e'] == abs[x := e'];
  }

  /// Unlinking the moved entry from its old list and pointing the old head
  /// of its new list back to it restores the invariant.
  lemma InvDetach<T>(cells: Cells, cells': Cells, abs: Entries<T>, outer: NodeList, outer': NodeList,
                     lists: map<Owner, seq<nat>>, canc: map<nat, set<nat>>, loose: Vec3,
                     x: nat, k: nat, ho: Owner, o: Owner)
    requires ho in lists && o in lists && ho != o && k < |lists[ho]| && lists[ho][k] == x
    requires |lists[o]| >= 1 && lists[o][0] == x
    requires Inv(cells, abs, outer, lists, canc, loose, 0, 0, HeadSet(lists[o][1..]), ho, {x})
    requires x in abs && OwnerOf(abs[x]) == o
    requires Frame(cells, cells') && Moved(cells, cells', canc, 0, 0)
    requires ListOf(cells, outer, ho).Some? && ListOf(cells, outer, ho).value.len > 0
    requires ListOf(cells', outer', ho) ==
      Some(UnlinkList(ListOf(cells, outer, ho).value, PrevOf(lists[ho], k), NextOf(lists[ho], k)))
    requires forall o' | o' != ho :: ListOf(cells', outer', o') == ListOf(cells, outer, o')
    ensures var next := if |lists[o]| == 1 then 0 else lists[o][1];
      (next > 0 ==> next in abs) &&
      Inv(cells', FixNext(UnlinkAbs(abs, PrevOf(lists[ho], k), NextOf(lists[ho], k)), next, x), outer',
          lists[ho := lists[ho][..k] + lists[ho][k + 1..]], canc, loose, 0, 0, {}, Outer, {})
  {
    var P, N := PrevOf(lists[ho], k), NextOf(lists[ho], k);
    var L' := lists[ho := lists[ho][..k] + lists[ho][k + 1..]];
    if |lists[o]| > 1 {
      ListedIn(cells, abs, outer, lists, HeadSet(lists[o][1..]), ho, {x}, o, 1);
    }
    InvUnlink(cells, cells', abs, outer, outer', lists, canc, loose, 0, HeadSet(lists[o][1..]), ho, k);
    var a := UnlinkAbs(abs, P, N);
    if |lists[o]| > 1 {
      assert L'[o] == lists[o];
      InvFixHead(cells', a, outer', L', canc, loose, ho, {}, o);
      InvOuter(cells', FixNext(a, lists[o][1], x), outer', L', canc, loose, 0, ho);
    } else {
      InvOuter(cells', a, outer', L', canc, loose, 0, ho);
    }
  }

  /// Unlinking and relinking touch only links: the moved entry keeps its
  /// new record but for links, every other entry its old one.
  lemma RelinkedBy<T>(abs: Entries<T>, x: nat, e: AbNode<T>, e': AbNode<T>, prev: nat, next: nat, curNext: nat)
    requires x in abs && e'.aabb == e.aabb && e'.bind == e.bind && e'.layer == e.layer
    requires curNext > 0 ==> curNext in abs
    ensures Relinked(abs, FixNext(UnlinkAbs(abs[x := e'], prev, next), curNext, x), x, e)
  {
    var a := UnlinkAbs(abs[x := e'], prev, next);
    var b := FixNext(a, curNext, x);
    assert b[x] == a[x].(prev := b[x].prev);
    assert a[x] == e'.(prev := a[x].prev, next := a[x].next);
    forall y | y in abs && y != x
      ensures b[y] == abs[y].(prev := b[y].prev, next := b[y].next)
    {
      assert a[y] == abs[y].(prev := a[y].prev, next := a[y].next);
    }
  }

  /// The tail of `update` once it reported a move: `remove_add`.
  method Reattach<T>(cells: Cells, cells1: Cells, abs: Entries<T>, outer: NodeList, outer1: NodeList,
                     ghost lists: map<Owner, seq<nat>>, ghost canc: map<nat, set<nat>>, ghost loose: Vec3,
                     x: nat, ghost k: nat, e: AbNode<T>, e': AbNode<T>, r: (nat, nat, nat, nat, nat))
    returns (cells': Cells, abs': Entries<T>, outer': NodeList, ghost lists': map<Owner, seq<nat>>)
    requires x in abs && e == abs[x].(aabb := e.aabb, layer := e.layer)
    requires var ho := OwnerOf(abs[x]);
      ho in lists && k < |lists[ho]| && lists[ho][k] == x &&
      abs[x].prev == PrevOf(lists[ho], k) && abs[x].next == NextOf(lists[ho], k) &&
      (forall o | o in lists && o != ho :: x !in lists[o]) &&
      Inv(cells, abs[x := e], outer, lists, canc, loose, x, abs[x].parent, {}, ho, {x})
    requires Relocated(cells, cells1, canc, loose, outer, outer1, x, e, e')
    requires r == (e.parent, if e.parent == 0 then 0 else e.parentChild, e.prev, e.next, e'.next)
    ensures Inv(cells', abs', outer', lists', canc, loose, 0, 0, {}, Outer, {})
    ensures cells'.Keys == cells.Keys && Relinked(abs, abs', x, e)
    ensures MarksFrom(cells1, cells', 0)
  {
    ghost var ho := OwnerOf(e);
    ghost var o := OwnerOf(e');
    InvReattach(cells, cells1, abs, outer, outer1, lists, canc, loose, x, k, e, e');
    ghost var L1 := lists[o := [x] + lists[o]];
    OwnerAtOf(e);
    cells', abs', outer' := RemoveAdd(cells1, canc, abs[x := e'], outer1, x, Some(r));
    assert L1[o][1..] == lists[o] && L1[ho] == lists[ho];
    InvDetach(cells1, cells', abs[x := e'], outer1, outer', L1, canc, loose, x, k, ho, o);
    RelinkedBy(abs, x, e, e', e.prev, e.next, e'.next);
    lists' := L1[ho := L1[ho][..k] + L1[ho][k + 1..]];
  }

  /// `update` and `shift` on the values of the tree's fields, once the
  /// record of `id` got its new box and layer `e`: the entry stays when it
  /// still fits where it hangs, and otherwise moves and is relinked.
  method UpdateEntry<T>(cells: Cells, abs: Entries<T>, outer: NodeList, q: seq<seq<nat>>, count: nat, min: nat,
                        ghost lists: map<Owner, seq<nat>>, ghost canc: map<nat, set<nat>>, loose: Vec3,
                        adjust: (nat, nat), deep: nat, id: nat, e: AbNode<T>)
    returns (cells': Cells, abs': Entries<T>, outer': NodeList, q': seq<seq<nat>>, count': nat, min': nat,
             ghost lists': map<Owner, seq<nat>>)
    requires Inv(cells, abs, outer, lists, canc, loose, 0, 0, {}, Outer, {}) && DirtyOk(q, count, min)
    requires id in abs && e == abs[id].(aabb := e.aabb, layer := e.layer)
    requires WellFormed(e.aabb) && e.layer == CalcLayer(loose, Dim(e.aabb))
    ensures Inv(cells', abs', outer', lists', canc, loose, 0, 0, {}, Outer, {}) && DirtyOk(q', count', min')
    ensures cells'.Keys == cells.Keys && Relinked(abs, abs', id, e)
    ensures MaskQueued(cells, q) ==> MaskQueued(cells', q')
    ensures Stays(cells, e) ==>
      cells' == cells && abs' == abs[id := e] && outer' == outer && lists' == lists &&
      q' == q && count' == count && min' == min
  {
    ghost var k := InvStart(cells, abs, outer, lists, canc, loose, id, e);
    ghost var ho := OwnerOf(abs[id]);
    var cells1, outer1, e', r;
    cells1, outer1, q', count', min', e', r := Update(cells, canc, loose, abs[id := e], adjust, deep, outer, q, count, min, id, e);
    if r.None? {
      assert LinkOk(abs[id := e], lists[ho], k, ho, {});
      InvStay(cells, abs[id := e], outer, lists, canc, loose, id, ho, k);
      cells', abs', outer', lists' := cells, abs[id := e], outer, lists;
    } else {
      cells', abs', outer', lists' := Reattach(cells, cells1, abs, outer, outer1, lists, canc, loose, id, k, e, e', r.value);
      QueuedAfter(cells1, cells', q', q', 0);
    }
  }

  /// A new bind changes no link, place or count.
  lemma InvBind<T>(cells: Cells, abs: Entries<T>, outer: NodeList, lists: map<Owner, seq<nat>>,
                   canc: map<nat, set<nat>>, loose: Vec3, id: nat, bind: T)
    requires Inv(cells, abs, outer, lists, canc, loose, 0, 0, {}, Outer, {}) && id in abs
    ensures Inv(cells, abs[id := abs[id].(bind := bind)], outer, lists, canc, loose, 0, 0, {}, Outer, {})
  {
    var abs' := abs[id := abs[id].(bind := bind)];
    forall y | y in abs
      ensures SameLink(abs[y], abs'[y]) && SamePlace(abs[y], abs'[y]) && abs[y].parent == abs'[y].parent
    {
    }
    InvRecords(cells, abs, abs', outer, lists, canc, loose);
  }

  /// A live entry is placed where it hangs: its layer is its box's.
  lemma LiveLayer<T>(cells: Cells, abs: Entries<T>, outer: NodeList, lists: map<Owner, seq<nat>>,
                     canc: map<nat, set<nat>>, loose: Vec3, id: nat)
    requires Inv(cells, abs, outer, lists, canc, loose, 0, 0, {}, Outer, {}) && id in abs
    ensures WellFormed(abs[id].aabb) && abs[id].layer == CalcLayer(loose, Dim(abs[id].aabb))
  {
    assert EntryOk(cells, abs, lists, loose, id);
  }

  /// What `remove` does to the entries: `id` is gone and every other entry
  /// keeps its record but for its links.
  ghost predicate Removed<T>(abs: Entries<T>, abs': Entries<T>, id: nat) {
    id in abs && abs'.Keys == abs.Keys - {id} &&
    forall y | y in abs' :: abs'[y] == abs[y].(prev := abs'[y].prev, next := abs'[y].next)
  }

  /// A step that changes no count keeps the count of any cell.
  lemma MovedAny(cells: Cells, cells': Cells, canc: map<nat, set<nat>>, v: nat)
    requires Frame(cells, cells') && Moved(cells, cells', canc, 0, 0)
    ensures Moved(cells, cells', canc, v, v)
  {
  }

  /// The entry `x` at position `k` of its owner's list, once its record is
  /// deleted: the list is there and its neighbours are live.
  lemma InvDeleted<T>(cells: Cells, abs: Entries<T>, outer: NodeList, lists: map<Owner, seq<nat>>,
                      canc: map<nat, set<nat>>, loose: Vec3, x: nat, e: AbNode<T>, k: nat)
    requires var ho := OwnerOf(e);
      ho in lists && k < |lists[ho]| && lists[ho][k] == x &&
      e.prev == PrevOf(lists[ho], k) && e.next == NextOf(lists[ho], k) &&
      Inv(cells, abs, outer, lists, canc, loose, 0, e.parent, {}, ho, {x})
    ensures var ho := OwnerOf(e);
      ListOf(cells, outer, ho).Some? && ListOf(cells, outer, ho).value.len > 0 &&
      (e.prev > 0 ==> e.prev in abs) && (e.next > 0 ==> e.next in abs)
  {
    var ho := OwnerOf(e);
    assert OwnerOk(cells, abs, outer, lists, {}, ho, {x}, ho);
    assert Distinct(lists[ho]);
    if k > 0 {
      ListedIn(cells, abs, outer, lists, {}, ho, {x}, ho, k - 1);
    }
    if k + 1 < |lists[ho]| {
      ListedIn(cells, abs, outer, lists, {}, ho, {x}, ho, k + 1);
    }
  }

  /// Deleting `id` and unlinking it touch only links of the others.
  lemma RemovedBy<T>(abs: Entries<T>, id: nat, prev: nat, next: nat)
    requires id in abs && 0 !in abs
    ensures Removed(abs, FixNext(UnlinkAbs(abs - {id}, prev, next), 0, id), id)
  {
    var a := UnlinkAbs(abs - {id}, prev, next);
    forall y | y in a
      ensures a[y] == abs[y].(prev := a[y].prev, next := a[y].next)
    {
      assert a[y] == (abs - {id})[y].(prev := a[y].prev, next := a[y].next);
    }
  }

  /// `remove` on the values of the tree's fields: the record of `id` is
  /// deleted and unlinked from its list, and when it hung in a cell every
  /// slot above that cell stops counting it (`remove_up`), the slots that
  /// fall below the merge threshold turning dirty.
  method RemoveEntry<T>(cells: Cells, abs: Entries<T>, outer: NodeList, q: seq<seq<nat>>, count: nat, min: nat,
                        ghost lists: map<Owner, seq<nat>>, ghost canc: map<nat, set<nat>>, ghost loose: Vec3,
                        adjust0: nat, id: nat)
    returns (cells': Cells, abs': Entries<T>, outer': NodeList, q': seq<seq<nat>>, count': nat, min': nat,
             ghost lists': map<Owner, seq<nat>>, aabb: Aabb, bind: T)
    requires Inv(cells, abs, outer, lists, canc, loose, 0, 0, {}, Outer, {}) && DirtyOk(q, count, min)
    requires id in abs
    ensures Inv(cells', abs', outer', lists', canc, loose, 0, 0, {}, Outer, {}) && DirtyOk(q', count', min')
    ensures aabb == abs[id].aabb && bind == abs[id].bind
    ensures cells'.Keys == cells.Keys && Removed(abs, abs', id)
    ensures MaskQueued(cells, q) ==> MaskQueued(cells', q')
  {
    var e := abs[id];
    ghost var k := InvDelete(cells, abs, outer, lists, canc, loose, id);
    ghost var ho := OwnerOf(e);
    InvDeleted(cells, abs - {id}, outer, lists, canc, loose, id, e, k);
    OwnerAtOf(e);
    var cells1, abs1, outer1 :=
      RemoveAdd(cells, canc, abs - {id}, outer, id, Some((e.parent, if e.parent == 0 then 0 else e.parentChild, e.prev, e.next, 0)));
    MovedAny(cells, cells1, canc, e.parent);
    QueuedAfter(cells, cells1, q, q, 0);
    InvUnlink(cells, cells1, abs - {id}, outer, outer1, lists, canc, loose, e.parent, {}, ho, k);
    lists' := lists[ho := lists[ho][..k] + lists[ho][k + 1..]];
    if e.parent > 0 {
      var n := cells1[e.parent];
      assert CellShape(cells1, canc, e.parent);
      cells', q', count', min' := RemoveUp(cells1, canc, loose, abs1, outer1, adjust0, q, count, min, 0, e.parent, n.parent, n.parentChild);
      InvMove(cells1, cells', abs1, outer1, lists', canc, loose, 0, e.parent, ROOT, {}, ho, {});
      InvOuter(cells', abs1, outer1, lists', canc, loose, ROOT, ho);
    } else {
      cells', q', count', min' := cells1, q, count, min;
      InvOuter(cells1, abs1, outer1, lists', canc, loose, 0, ho);
    }
    RemovedBy(abs, id, e.prev, e.next);
    abs', outer' := abs1, outer1;
    aabb, bind := e.aabb, e.bind;
  }

  /// One layer of the dirty queue: every queued cell still in the slab is
  /// collected in turn (a queued cell an earlier collection freed is
  /// skipped).  No entry is lost and boxes and binds stay; no cell turns
  /// dirty and every queued cell left ends with a clean mask.
  method CollectLayer<T>(cells: Cells, abs: Entries<T>, adjust: (nat, nat), deep: nat, ids: seq<nat>,
                         ghost outer: NodeList, ghost lists: map<Owner, seq<nat>>,
                         ghost canc: map<nat, set<nat>>, ghost loose: Vec3)
    returns (cells': Cells, abs': Entries<T>, ghost lists': map<Owner, seq<nat>>,
             ghost canc': map<nat, set<nat>>)
    requires Inv(cells, abs, outer, lists, canc, loose, 0, 0, {}, Outer, {})
    ensures Inv(cells', abs', outer, lists', canc', loose, 0, 0, {}, Outer, {})
    ensures Kept(abs, abs')
    ensures MarksFrom(cells, cells', 0)
    ensures forall j | 0 <= j < |ids| && ids[j] in cells' :: cells'[ids[j]].dirty == 0
  {
    cells', abs', lists', canc' := cells, abs, lists, canc;
    for j := 0 to |ids|
      invariant Inv(cells', abs', outer, lists', canc', loose, 0, 0, {}, Outer, {})
      invariant Kept(abs, abs')
      invariant MarksFrom(cells, cells', 0)
      invariant forall j' | 0 <= j' < j && ids[j'] in cells' :: cells'[ids[j']].dirty == 0
    {
      if ids[j] in cells' {
        var cells2, abs2, lists2, canc2 := Collect(cells', abs', adjust, deep, ids[j], outer, lists', canc', loose);
        KeptTrans(abs, abs', abs2);
        cells', abs', lists', canc' := cells2, abs2, lists2, canc2;
      }
    }
  }

  /// Every dirty cell waits in a vector of layer `i` or above.
  ghost predicate QueuedFrom(cells: Cells, q: seq<seq<nat>>, i: nat) {
    forall c | c in cells && cells[c].dirty != 0 :: exists j | i <= j < |q| :: c in q[j]
  }

  /// No vector below the lowest layer holds a cell.
  lemma QueuedFromMin(cells: Cells, q: seq<seq<nat>>, count: nat, min: nat)
    requires DirtyOk(q, count, min) && MaskQueued(cells, q)
    ensures QueuedFrom(cells, q, min)
  {
    forall c | c in cells && cells[c].dirty != 0
      ensures exists j | min <= j < |q| :: c in q[j]
    {
      var j :| 0 <= j < |q| && c in q[j];
      assert q[j] != [];
    }
  }

  /// Once the cells of vector `i` are clean and no cell turned dirty, the
  /// dirty cells wait above `i`.
  lemma QueuedPast(cells: Cells, cells': Cells, q: seq<seq<nat>>, i: nat)
    requires i < |q| && QueuedFrom(cells, q, i) && MarksFrom(cells, cells', 0)
    requires forall j | 0 <= j < |q[i]| && q[i][j] in cells' :: cells'[q[i][j]].dirty == 0
    ensures QueuedFrom(cells', q, i + 1)
  {
    forall c | c in cells' && cells'[c].dirty != 0
      ensures exists j | i + 1 <= j < |q| :: c in q[j]
    {
      var j :| i <= j < |q| && c in q[j];
    }
  }

  /// With nothing queued from layer `i` on, no cell is dirty.
  lemma QueuedNone(cells: Cells, q: seq<seq<nat>>, i: nat)
    requires QueuedFrom(cells, q, i) && forall j | i <= j < |q| :: q[j] == []
    ensures forall c | c in cells :: cells[c].dirty == 0
  {
  }

  /// `collect` on the vector `ids` of layer `i` of the queue `q`: a
  /// collection that keeps the invariant and every entry, after which every
  /// dirty cell that waited in the queue from layer `i` on waits in it from
  /// layer `i + 1` on.
  method CollectVec<T>(cells: Cells, abs: Entries<T>, adjust: (nat, nat), deep: nat, ids: seq<nat>,
                       ghost q: seq<seq<nat>>, ghost i: nat, ghost abs0: Entries<T>,
                       ghost outer: NodeList, ghost lists: map<Owner, seq<nat>>,
                       ghost canc: map<nat, set<nat>>, ghost loose: Vec3)
    returns (cells': Cells, abs': Entries<T>, ghost lists': map<Owner, seq<nat>>,
             ghost canc': map<nat, set<nat>>)
    requires i < |q| && q[i] == ids
    requires Inv(cells, abs, outer, lists, canc, loose, 0, 0, {}, Outer, {}) && Kept(abs0, abs)
    ensures Inv(cells', abs', outer, lists', canc', loose, 0, 0, {}, Outer, {}) && Kept(abs0, abs')
    ensures QueuedFrom(cells, q, i) ==> QueuedFrom(cells', q, i + 1)
  {
    cells', abs', lists', canc' := CollectLayer(cells, abs, adjust, deep, ids, outer, lists, canc, loose);
    KeptTrans(abs0, abs, abs');
    if QueuedFrom(cells, q, i) {
      QueuedPast(cells, cells', q, i);
    }
  }

  /// `collect` on the values of the tree's fields: nothing when the queue
  /// is empty; otherwise the layers are collected from the lowest dirty one
  /// up until the queued count is used up, each layer's vector is cleared,
  /// and the queue ends empty with no lowest layer.
  method CollectAll<T>(cells: Cells, abs: Entries<T>, q: seq<seq<nat>>, count: nat, min: nat,
                       ghost outer: NodeList, ghost lists: map<Owner, seq<nat>>, ghost canc: map<nat, set<nat>>,
                       ghost loose: Vec3, adjust: (nat, nat), deep: nat)
    returns (cells': Cells, abs': Entries<T>, q': seq<seq<nat>>, count': nat, min': nat,
             ghost lists': map<Owner, seq<nat>>, ghost canc': map<nat, set<nat>>)
    requires Inv(cells, abs, outer, lists, canc, loose, 0, 0, {}, Outer, {}) && DirtyOk(q, count, min)
    ensures Inv(cells', abs', outer, lists', canc', loose, 0, 0, {}, Outer, {}) && DirtyOk(q', count', min')
    ensures Kept(abs, abs')
    ensures count == 0 ==> cells' == cells && abs' == abs && q' == q && count' == 0 && min' == min
    ensures count > 0 ==> |q'| == |q| && count' == 0 && min' == USIZE_MAX
    ensures forall i | 0 <= i < |q'| :: q'[i] == []
    ensures MaskQueued(cells, q) ==> forall c | c in cells' :: cells'[c].dirty == 0
  {
    if count == 0 {
      SumLensZero(q);
      return cells, abs, q, 0, min, lists, canc;
    }
    cells', abs', lists', canc' := cells, abs, lists, canc;
    q' := q;
    var cnt := count;
    var i := min;
    if MaskQueued(cells, q) {
      QueuedFromMin(cells, q, count, min);
    }
    while i < |q'|
      invariant |q'| == |q| && cnt == SumLens(q')
      invariant Inv(cells', abs', outer, lists', canc', loose, 0, 0, {}, Outer, {})
      invariant Kept(abs, abs')
      invariant forall j | 0 <= j < |q'| && j < i :: q'[j] == []
      invariant forall j | i <= j < |q'| :: q'[j] == q[j]
      invariant MaskQueued(cells, q) ==> QueuedFrom(cells', q, i)
      decreases |q'| - i
    {
      var c := |q'[i]|;
      if c > 0 {
        cells', abs', lists', canc' := CollectVec(cells', abs', adjust, deep, q'[i], q, i, abs, outer, lists', canc', loose);
        SumLensUpdate(q', i, []);
        q' := q'[i := []];
        if cnt <= c {
          SumLensZero(q');
          if MaskQueued(cells, q) {
            assert forall j | i + 1 <= j < |q| :: q[j] == q'[j];
            QueuedNone(cells', q, i + 1);
          }
          break;
        }
        cnt := cnt - c;
      } else if MaskQueued(cells, q) {
        QueuedPast(cells', cells', q, i);
      }
      i := i + 1;
    }
    if MaskQueued(cells, q) && i >= |q| {
      QueuedNone(cells', q, i);
    }
    SumLensEmpty(q');
    count', min' := 0, USIZE_MAX;
  }

  class Tree<T> {
    const looseRatio: nat
    const adjust: (nat, nat)
    const deep: nat
    const loose: Vec3
    var octSlab: Cells
    var abSlab: Entries<T>
    var outer: NodeList
    var queue: seq<seq<nat>>
    var count: nat
    var min: nat
    ghost var lists: map<Owner, seq<nat>>
    ghost var canc: map<nat, set<nat>>

    /// The cells form a loose octree, every entry is listed where it is
    /// placed and counted beneath its cells, the queue's count is its size,
    /// and every cell with a dirty slot waits in the queue.
    ghost predicate Valid()
      reads this
    {
      Inv(octSlab, abSlab, outer, lists, canc, loose, 0, 0, {}, Outer, {}) && DirtyOk(queue, count, min) &&
      MaskQueued(octSlab, queue)
    }

    /// `Tree::new`: a root cell with the given box and no entry.
    constructor (root: Aabb, looseRatio0: nat, adjustMin: nat, adjustMax: nat, deep0: nat)
      requires WellFormed(root) && Fits(Dim(root))
      ensures Valid()
      ensures looseRatio == LooseRatio(looseRatio0) && loose == RootLoose(Dim(root), looseRatio)
      ensures adjust == Adjust(adjustMin, adjustMax)
      ensures deep <= DeepLimit(deep0) && forall k | 1 <= k <= deep :: Positive(LooseAt(loose, k))
      ensures deep < DeepLimit(deep0) ==> !Positive(LooseAt(loose, deep + 1))
      ensures octSlab == map[ROOT := NewCell(root, loose, 0, 0, 0)] && abSlab == map[]
      ensures outer == NodeList(0, 0) && queue == [] && count == 0 && min == USIZE_MAX
    {
      var lr := LooseRatio(looseRatio0);
      var l := RootLoose(Dim(root), lr);
      var d := MaxDeep(l, DeepLimit(deep0));
      looseRatio := lr;
      loose := l;
      adjust := Adjust(adjustMin, adjustMax);
      deep := d;
      octSlab := map[ROOT := NewCell(root, l, 0, 0, 0)];
      abSlab := map[];
      outer := NodeList(0, 0);
      queue := [];
      count := 0;
      min := USIZE_MAX;
      lists := NoLists();
      canc := map[ROOT := {ROOT}];
      new;
      InvRoot(root, l, abSlab);
    }

    /// `get_layer`: the layer of a box, the first whose loose value a box
    /// with some extent does not fit under (it fits under the loose value
    /// of every shallower layer); a point gets layer 64.
    function GetLayer(aabb: Aabb): (r: nat)
      reads this
      requires Valid() && WellFormed(aabb)
      ensures forall k: nat | k < r :: Small(aabb, LooseAt(loose, k))
      ensures Dim(aabb).x > 0 || Dim(aabb).y > 0 || Dim(aabb).z > 0 ==> !Small(aabb, LooseAt(loose, r))
      ensures Dim(aabb) == Vec3(0, 0, 0) ==> r == 64
    {
      var layer := CalcLayer(loose, Dim(aabb));
      assert forall k: nat | k < layer :: Small(aabb, LooseAt(loose, k)) by {
        forall k: nat | k < layer ensures Small(aabb, LooseAt(loose, k)) {
          LayerSmall(loose, aabb, k);
        }
      }
      assert Dim(aabb).x > 0 || Dim(aabb).y > 0 || Dim(aabb).z > 0 ==> !Small(aabb, LooseAt(loose, layer)) by {
        if Dim(aabb).x > 0 || Dim(aabb).y > 0 || Dim(aabb).z > 0 {
          LayerTight(loose, aabb);
        }
      }
      assert Dim(aabb) == Vec3(0, 0, 0) ==> layer == 64 by {
        if Dim(aabb) == Vec3(0, 0, 0) {
          LayerPoint(loose, aabb);
        }
      }
      layer
    }

    /// `get`: the box and bind of a live entry.
    function Get(id: nat): (r: Option<(Aabb, T)>)
      reads this
      ensures r.Some? <==> id in abSlab
      ensures r.Some? ==> r.value == (abSlab[id].aabb, abSlab[id].bind)
    {
      if id in abSlab then Some((abSlab[id].aabb, abSlab[id].bind)) else None
    }

    /// `get_unchecked`: `get` for an id the caller knows to be live.
    function GetUnchecked(id: nat): (r: (Aabb, T))
      reads this
      requires id in abSlab
      ensures Get(id) == Some(r)
    {
      (abSlab[id].aabb, abSlab[id].bind)
    }

    /// `add`: the entry takes the least free key; it sinks from the root
    /// when the root's box contains it, joins the root's own list when it
    /// only touches the root, and the outer list otherwise.  Every other
    /// entry keeps its record but for the backward link of the list head it
    /// now precedes; only counts, lists and masks of cells change.
    method Add(aabb: Aabb, bind: T) returns (id: nat)
      requires Valid() && WellFormed(aabb)
      modifies this
      ensures Valid() && id == Slab.Fresh(old(abSlab))
      ensures Added(old(octSlab), old(abSlab), octSlab, abSlab, loose, id, aabb, bind)
    {
      var cells', abs', out', q', cnt', mn';
      ghost var lists';
      id := Slab.Fresh(abSlab);
      cells', abs', out', q', cnt', mn', lists' :=
        AddEntry(octSlab, abSlab, outer, queue, count, min, lists, canc, loose, adjust.1, deep, id, aabb, bind);
      octSlab, abSlab, outer, queue, count, min := cells', abs', out', q', cnt', mn';
      lists := lists';
    }
    /// `update`: a live entry gets a new box and the layer of that box; it
    /// stays where it hangs when it still fits there and is moved and
    /// relinked otherwise.  An unknown id changes nothing and reports false.
    method Update(id: nat, aabb: Aabb) returns (ok: bool)
      requires Valid() && (id in abSlab ==> WellFormed(aabb))
      modifies this
      ensures Valid() && (ok <==> id in old(abSlab))
      ensures !ok ==> unchanged(this)
      ensures ok ==> octSlab.Keys == old(octSlab).Keys
      ensures ok ==>
        Relinked(old(abSlab), abSlab, id, old(abSlab)[id].(aabb := aabb, layer := CalcLayer(loose, Dim(aabb))))
      ensures ok && old(Stays(octSlab, abSlab[id].(aabb := aabb, layer := CalcLayer(loose, Dim(aabb))))) ==>
        octSlab == old(octSlab) && outer == old(outer) && lists == old(lists) &&
        queue == old(queue) && count == old(count) && min == old(min) &&
        abSlab == old(abSlab)[id := old(abSlab)[id].(aabb := aabb, layer := CalcLayer(loose, Dim(aabb)))]
    {
      if id !in abSlab {
        return false;
      }
      var e := abSlab[id].(aabb := aabb, layer := CalcLayer(loose, Dim(aabb)));
      var cells', abs', out', q', cnt', mn';
      ghost var lists';
      cells', abs', out', q', cnt', mn', lists' :=
        UpdateEntry(octSlab, abSlab, outer, queue, count, min, lists, canc, loose, adjust, deep, id, e);
      octSlab, abSlab, outer, queue, count, min := cells', abs', out', q', cnt', mn';
      lists := lists';
      ok := true;
    }

    /// `shift`: a live entry's box moves by `d`; its size and so its layer
    /// stay, and it is relinked as by `update`.  An unknown id changes
    /// nothing and reports false.
    method Shift(id: nat, d: Vec3) returns (ok: bool)
      requires Valid()
      modifies this
      ensures Valid() && (ok <==> id in old(abSlab))
      ensures !ok ==> unchanged(this)
      ensures ok ==> octSlab.Keys == old(octSlab).Keys
      ensures ok ==>
        Relinked(old(abSlab), abSlab, id, old(abSlab)[id].(aabb := OctreeGeometry.Shift(old(abSlab)[id].aabb, d)))
      ensures ok && old(Stays(octSlab, abSlab[id].(aabb := OctreeGeometry.Shift(abSlab[id].aabb, d)))) ==>
        octSlab == old(octSlab) && outer == old(outer) && lists == old(lists) &&
        queue == old(queue) && count == old(count) && min == old(min) &&
        abSlab == old(abSlab)[id := old(abSlab)[id].(aabb := OctreeGeometry.Shift(old(abSlab)[id].aabb, d))]
    {
      if id !in abSlab {
        return false;
      }
      LiveLayer(octSlab, abSlab, outer, lists, canc, loose, id);
      var e := abSlab[id].(aabb := OctreeGeometry.Shift(abSlab[id].aabb, d));
      var cells', abs', out', q', cnt', mn';
      ghost var lists';
      cells', abs', out', q', cnt', mn', lists' :=
        UpdateEntry(octSlab, abSlab, outer, queue, count, min, lists, canc, loose, adjust, deep, id, e);
      octSlab, abSlab, outer, queue, count, min := cells', abs', out', q', cnt', mn';
      lists := lists';
      ok := true;
    }

    /// `update_bind`: a live entry gets a new bind and nothing else
    /// changes; an unknown id reports false.
    method UpdateBind(id: nat, bind: T) returns (ok: bool)
      requires Valid()
      modifies this
      ensures Valid() && (ok <==> id in old(abSlab))
      ensures ok ==> abSlab == old(abSlab)[id := old(abSlab)[id].(bind := bind)]
      ensures !ok ==> abSlab == old(abSlab)
      ensures octSlab == old(octSlab) && outer == old(outer)
      ensures queue == old(queue) && count == old(count) && min == old(min)
    {
      if id !in abSlab {
        return false;
      }
      InvBind(octSlab, abSlab, outer, lists, canc, loose, id, bind);
      abSlab := abSlab[id := abSlab[id].(bind := bind)];
      ok := true;
    }
    /// `remove`: the entry leaves its list and stops being counted; its box
    /// and bind are returned.  The id must be live.
    method Remove(id: nat) returns (aabb: Aabb, bind: T)
      requires Valid() && id in abSlab
      modifies this
      ensures Valid() && aabb == old(abSlab)[id].aabb && bind == old(abSlab)[id].bind
      ensures octSlab.Keys == old(octSlab).Keys && Removed(old(abSlab), abSlab, id)
    {
      var cells', abs', out', q', cnt', mn';
      ghost var lists';
      cells', abs', out', q', cnt', mn', lists', aabb, bind :=
        RemoveEntry(octSlab, abSlab, outer, queue, count, min, lists, canc, loose, adjust.0, id);
      octSlab, abSlab, outer, queue, count, min := cells', abs', out', q', cnt', mn';
      lists := lists';
    }
    /// `collect`: every cell queued as dirty is collected (slots split,
    /// grown or merged as their counts ask) and the queue is emptied; no
    /// entry is lost, every box and bind stays, and no cell is left with a
    /// dirty slot.
    method Collect()
      requires Valid()
      modifies this
      ensures Valid() && Kept(old(abSlab), abSlab) && outer == old(outer)
      ensures old(count) == 0 ==> octSlab == old(octSlab) && abSlab == old(abSlab) && queue == old(queue) && min == old(min)
      ensures old(count) > 0 ==> |queue| == |old(queue)| && min == USIZE_MAX
      ensures count == 0 && forall i | 0 <= i < |queue| :: queue[i] == []
      ensures forall c | c in octSlab :: octSlab[c].dirty == 0
    {
      var cells', abs', q', cnt', mn';
      ghost var lists', canc';
      cells', abs', q', cnt', mn', lists', canc' :=
        CollectAll(octSlab, abSlab, queue, count, min, outer, lists, canc, loose, adjust, deep);
      octSlab, abSlab, queue, count, min := cells', abs', q', cnt', mn';
      lists, canc := lists', canc';
    }
    /// `query`: the entries the walk from the root visits with the octant
    /// predicate `accept`, in visiting order; each of them is a live entry
    /// hanging in a cell.
    method Query(accept: Aabb -> bool) returns (visited: seq<nat>)
      requires Valid()
      ensures visited == Visit(octSlab, lists, canc, ROOT, accept)
      ensures forall y | y in visited :: y in abSlab && abSlab[y].parent in octSlab
    {
      visited := OctreeQuery.Query(octSlab, abSlab, outer, lists, canc, loose, ROOT, accept);
      forall y | y in visited
        ensures y in abSlab && abSlab[y].parent in octSlab
      {
        VisitSound(octSlab, abSlab, outer, lists, canc, loose, ROOT, accept, y);
      }
    }

    /// `query_outer`: exactly the entries outside the root's box, in the
    /// order of the outer list.
    method QueryOuter() returns (visited: seq<nat>)
      requires Valid()
      ensures Outer in lists && visited == lists[Outer]
      ensures forall y | y in abSlab :: y in visited <==> abSlab[y].parent == 0
    {
      visited := OctreeQuery.QueryOuter(octSlab, abSlab, outer, lists, canc, loose);
    }

    /// `collision`: for a live entry, the root's own list, then the entries
    /// after it in its own list, then those before it, nearest first;
    /// nothing for an unknown id.  The layer limit is not used.
    method Collision(id: nat, limitLayer: nat) returns (visited: seq<nat>)
      requires Valid()
      ensures Nodes(ROOT) in lists
      ensures id !in abSlab ==> visited == []
      ensures id in abSlab ==>
        OwnerOf(abSlab[id]) in lists && id in lists[OwnerOf(abSlab[id])] &&
        var L := lists[OwnerOf(abSlab[id])];
        var k := IndexOf(L, id);
        visited == lists[Nodes(ROOT)] + L[k + 1..] + Reverse(L[..k])
    {
      visited := OctreeQuery.Collision(octSlab, abSlab, outer, lists, canc, loose, id);
    }
  }
}
