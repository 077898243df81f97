// The read-only walks of cg/src/octree.rs: `query` (a cell's own list, then
// each slot whose octant the predicate accepts), `query_outer` and
// `collision`.  The visitor callbacks are modelled by the sequence of entry
// ids they would be called with, in call order.
module OctreeQuery {
  import opened OctreeGeometry
  import opened OctreeState
  import opened OctreeCounts

  /// The entries `query` visits from cell `c` with the octant predicate
  /// `accept`: the cell's own list, then slot by slot, a non-empty list or
  /// a child cell with a positive count when `accept` takes the slot's
  /// octant.
  ghost function Visit(cells: Cells, lists: map<Owner, seq<nat>>, canc: map<nat, set<nat>>,
                       c: nat, accept: Aabb -> bool): seq<nat>
    requires Shape(cells, canc) && c in cells
    decreases cells.Keys - canc[c], 9
  {
    ListAt(lists, Nodes(c)) + VisitSlots(cells, lists, canc, c, accept, 0)
  }

  ghost function VisitSlots(cells: Cells, lists: map<Owner, seq<nat>>, canc: map<nat, set<nat>>,
                            c: nat, accept: Aabb -> bool, i: nat): seq<nat>
    requires Shape(cells, canc) && c in cells && i <= 8
    decreases cells.Keys - canc[c], 8 - i
  {
    if i == 8 then []
    else VisitSlot(cells, lists, canc, c, accept, i) + VisitSlots(cells, lists, canc, c, accept, i + 1)
  }

  ghost function VisitSlot(cells: Cells, lists: map<Owner, seq<nat>>, canc: map<nat, set<nat>>,
                           c: nat, accept: Aabb -> bool, i: nat): seq<nat>
    requires Shape(cells, canc) && c in cells && i < 8
    decreases cells.Keys - canc[c], 8 - i, 0
  {
    var n := cells[c];
    assert CellShape(cells, canc, c);
    match n.childs[i]
    case Oct(k, num) =>
      if num > 0 && accept(Octant(n.aabb, n.loose, i)) then
        assert CellShape(cells, canc, k);
        Visit(cells, lists, canc, k, accept)
      else []
    case Ab(list) =>
      if list.head > 0 && accept(Octant(n.aabb, n.loose, i)) then ListAt(lists, Slot(c, i)) else []
  }

  /// The walk of `query`, `query_outer` and `collision_list` along the
  /// forward links from `head`: the ids of the list `L` whose record is `nl`.
  method WalkList<T>(abs: Entries<T>, head: nat, ghost nl: NodeList, ghost L: seq<nat>, ghost o: Owner,
                     ghost skip: set<nat>)
    returns (visited: seq<nat>)
    requires Linked(abs, nl, L, o, {}, skip) && skip == {} && nl.head == head
    ensures visited == L
  {
    visited := [];
    var id := head;
    ghost var k := 0;
    while id > 0
      invariant k <= |L| && id == (if k < |L| then L[k] else 0) && visited == L[..k]
      decreases |L| - k
    {
      assert LinkOk(abs, L, k, o, {});
      visited := visited + [id];
      id := abs[id].next;
      k := k + 1;
    }
    assert L[..k] == L;
  }

  /// `query` from cell `c`: exactly the entries `Visit` describes.
  method Query<T>(cells: Cells, abs: Entries<T>, ghost outer: NodeList, ghost lists: map<Owner, seq<nat>>,
                  ghost canc: map<nat, set<nat>>, ghost loose: Vec3, c: nat, accept: Aabb -> bool)
    returns (visited: seq<nat>)
    requires Inv(cells, abs, outer, lists, canc, loose, 0, 0, {}, Outer, {}) && c in cells
    ensures visited == Visit(cells, lists, canc, c, accept)
    decreases cells.Keys - canc[c], 9
  {
    var n := cells[c];
    assert CellShape(cells, canc, c);
    assert OwnerOk(cells, abs, outer, lists, {}, Outer, {}, Nodes(c));
    visited := WalkList(abs, n.nodes.head, n.nodes, lists[Nodes(c)], Nodes(c), {});
    var i := 0;
    while i < 8
      invariant i <= 8
      invariant visited + VisitSlots(cells, lists, canc, c, accept, i) == Visit(cells, lists, canc, c, accept)
    {
      var part := QuerySlot(cells, abs, outer, lists, canc, loose, c, accept, i);
      visited := visited + part;
      i := i + 1;
    }
  }

  /// One slot of `query`.
  method QuerySlot<T>(cells: Cells, abs: Entries<T>, ghost outer: NodeList, ghost lists: map<Owner, seq<nat>>,
                      ghost canc: map<nat, set<nat>>, ghost loose: Vec3, c: nat, accept: Aabb -> bool, i: nat)
    returns (visited: seq<nat>)
    requires Inv(cells, abs, outer, lists, canc, loose, 0, 0, {}, Outer, {}) && c in cells && i < 8
    ensures visited == VisitSlot(cells, lists, canc, c, accept, i)
    decreases cells.Keys - canc[c], 8 - i, 0
  {
    var n := cells[c];
    assert CellShape(cells, canc, c);
    visited := [];
    match n.childs[i]
    case Oct(k, num) =>
      if num > 0 && accept(Octant(n.aabb, n.loose, i)) {
        assert CellShape(cells, canc, k);
        visited := Query(cells, abs, outer, lists, canc, loose, k, accept);
      }
    case Ab(list) =>
      if list.head > 0 && accept(Octant(n.aabb, n.loose, i)) {
        assert ListOf(cells, outer, Slot(c, i)).Some?;
        assert OwnerOk(cells, abs, outer, lists, {}, Outer, {}, Slot(c, i));
        visited := WalkList(abs, list.head, list, lists[Slot(c, i)], Slot(c, i), {});
      }
  }

  /// `query_outer`: the outer list, in list order.
  method QueryOuter<T>(cells: Cells, abs: Entries<T>, outer: NodeList, ghost lists: map<Owner, seq<nat>>,
                       ghost canc: map<nat, set<nat>>, ghost loose: Vec3)
    returns (visited: seq<nat>)
    requires Inv(cells, abs, outer, lists, canc, loose, 0, 0, {}, Outer, {})
    ensures Outer in lists && visited == lists[Outer]
    ensures forall y | y in abs :: y in visited <==> abs[y].parent == 0
  {
    assert ListOf(cells, outer, Outer).Some?;
    assert OwnerOk(cells, abs, outer, lists, {}, Outer, {}, Outer);
    visited := WalkList(abs, outer.head, outer, lists[Outer], Outer, {});
    forall y | y in abs
      ensures y in visited <==> abs[y].parent == 0
    {
      if y in visited {
        var k :| 0 <= k < |visited| && visited[k] == y;
        assert LinkOk(abs, lists[Outer], k, Outer, {});
      }
      if abs[y].parent == 0 {
        assert EntryOk(cells, abs, lists, loose, y);
      }
    }
  }

  // ---------------------------------------------------------------------
  // What `query` visits.

  /// Sequence reversal.
  function Reverse(s: seq<nat>): (r: seq<nat>)
    ensures |r| == |s| && forall i | 0 <= i < |s| :: r[i] == s[|s| - 1 - i]
  {
    if s == [] then [] else Reverse(s[1..]) + [s[0]]
  }

  /// The slots from `j` on visit everything slot `i` visits.
  lemma {:induction false} VisitSlotsHas(cells: Cells, lists: map<Owner, seq<nat>>, canc: map<nat, set<nat>>,
                                         c: nat, accept: Aabb -> bool, j: nat, i: nat, y: nat)
    requires Shape(cells, canc) && c in cells && j <= i < 8
    requires y in VisitSlot(cells, lists, canc, c, accept, i)
    ensures y in VisitSlots(cells, lists, canc, c, accept, j)
    decreases i - j
  {
    if j < i {
      VisitSlotsHas(cells, lists, canc, c, accept, j + 1, i, y);
    }
  }

  /// A query that accepts every octant visits every entry beneath the cell
  /// it starts from.
  lemma {:induction false} VisitAll<T>(cells: Cells, abs: Entries<T>, outer: NodeList, lists: map<Owner, seq<nat>>,
                                      canc: map<nat, set<nat>>, loose: Vec3, c: nat, y: nat)
    requires Inv(cells, abs, outer, lists, canc, loose, 0, 0, {}, Outer, {}) && c in cells
    requires y in abs && abs[y].parent in cells && c in canc[abs[y].parent]
    ensures y in Visit(cells, lists, canc, c, _ => true)
    decreases cells.Keys - canc[c]
  {
    var accept: Aabb -> bool := _ => true;
    var d := abs[y].parent;
    assert EntryOk(cells, abs, lists, loose, y);
    var o := OwnerOf(abs[y]);
    assert CellShape(cells, canc, c);
    if d == c {
      if o.Slot? {
        var i := o.i;
        assert OwnerOk(cells, abs, outer, lists, {}, Outer, {}, o);
        var list := cells[c].childs[i].list;
        assert list.head != 0 by {
          assert lists[o][0] != 0;
        }
        VisitSlotsHas(cells, lists, canc, c, accept, 0, i, y);
      }
    } else {
      var i := ChildOnPath(cells, canc, c, d);
      var k := cells[c].childs[i].oct;
      assert CountOk(cells, abs, canc, 0, 0, c);
      assert y in Beneath(abs, canc, k, 0);
      assert CellShape(cells, canc, k);
      VisitAll(cells, abs, outer, lists, canc, loose, k, y);
      VisitSlotsHas(cells, lists, canc, c, accept, 0, i, y);
    }
  }

  /// Every entry `query` visits from cell `c` is an entry beneath `c`.
  lemma {:induction false} VisitSound<T>(cells: Cells, abs: Entries<T>, outer: NodeList,
                                        lists: map<Owner, seq<nat>>, canc: map<nat, set<nat>>, loose: Vec3,
                                        c: nat, accept: Aabb -> bool, y: nat)
    requires Inv(cells, abs, outer, lists, canc, loose, 0, 0, {}, Outer, {}) && c in cells
    requires y in Visit(cells, lists, canc, c, accept)
    ensures y in abs && abs[y].parent in cells && c in canc[abs[y].parent]
    decreases cells.Keys - canc[c], 9
  {
    assert CellShape(cells, canc, c);
    if y in ListAt(lists, Nodes(c)) {
      ListedOwner(cells, abs, outer, lists, canc, loose, Nodes(c), y);
    } else {
      VisitSlotsSound(cells, abs, outer, lists, canc, loose, c, accept, 0, y);
    }
  }

  lemma {:induction false} VisitSlotsSound<T>(cells: Cells, abs: Entries<T>, outer: NodeList,
                                             lists: map<Owner, seq<nat>>, canc: map<nat, set<nat>>, loose: Vec3,
                                             c: nat, accept: Aabb -> bool, i: nat, y: nat)
    requires Inv(cells, abs, outer, lists, canc, loose, 0, 0, {}, Outer, {}) && c in cells && i <= 8
    requires y in VisitSlots(cells, lists, canc, c, accept, i)
    ensures y in abs && abs[y].parent in cells && c in canc[abs[y].parent]
    decreases cells.Keys - canc[c], 8 - i
  {
    assert CellShape(cells, canc, c);
    if y in VisitSlot(cells, lists, canc, c, accept, i) {
      var n := cells[c];
      match n.childs[i]
      case Oct(k, num) =>
        assert CellShape(cells, canc, k);
        VisitSound(cells, abs, outer, lists, canc, loose, k, accept, y);
        AncClosed(cells, canc, k, abs[y].parent);
      case Ab(list) =>
        ListedOwner(cells, abs, outer, lists, canc, loose, Slot(c, i), y);
    } else {
      VisitSlotsSound(cells, abs, outer, lists, canc, loose, c, accept, i + 1, y);
    }
  }

  /// An entry of the list of cell `c`'s own list or slot hangs in `c`.
  lemma ListedOwner<T>(cells: Cells, abs: Entries<T>, outer: NodeList, lists: map<Owner, seq<nat>>,
                       canc: map<nat, set<nat>>, loose: Vec3, o: Owner, y: nat)
    requires Inv(cells, abs, outer, lists, canc, loose, 0, 0, {}, Outer, {}) && !o.Outer?
    requires o.cell in cells && y in ListAt(lists, o)
    ensures y in abs && abs[y].parent == o.cell && o.cell in canc[abs[y].parent]
  {
    assert CellShape(cells, canc, o.cell);
    assert OwnerOk(cells, abs, outer, lists, {}, Outer, {}, o);
    var k :| 0 <= k < |lists[o]| && lists[o][k] == y;
    assert LinkOk(abs, lists[o], k, o, {});
  }

  // ---------------------------------------------------------------------
  // `collision`.

  /// The position of `y` in `L`.
  ghost function IndexOf(L: seq<nat>, y: nat): (k: nat)
    requires y in L
    ensures k < |L| && L[k] == y
  {
    if L[0] == y then 0 else 1 + IndexOf(L[1..], y)
  }

  /// The walk of `collision` backward from entry `L[k]` along the backward
  /// links: its predecessors, nearest first.
  method WalkBack<T>(abs: Entries<T>, ghost nl: NodeList, ghost L: seq<nat>, ghost o: Owner, ghost k: nat,
                     id: nat)
    returns (visited: seq<nat>)
    requires Linked(abs, nl, L, o, {}, {}) && k < |L| && L[k] == id
    ensures visited == Reverse(L[..k])
  {
    assert LinkOk(abs, L, k, o, {});
    var prev := abs[id].prev;
    visited := [];
    ghost var j: nat := k;
    while prev > 0
      invariant j <= k && prev == PrevOf(L, j) && visited == Reverse(L[j..k])
      invariant j == 0 ==> prev == 0
      decreases j
    {
      assert LinkOk(abs, L, j - 1, o, {});
      assert L[j - 1..k] == [L[j - 1]] + L[j..k];
      visited := visited + [prev];
      prev := abs[prev].prev;
      j := j - 1;
    }
    assert j == 0;
    assert L[..k] == L[0..k];
  }

  /// `collision` of entry `id`: none for an unknown id; otherwise the root's
  /// own list, then the entries after `id` in its own list, then those
  /// before it, nearest first (the layer limit and the visitor's answer are
  /// not used).
  method Collision<T>(cells: Cells, abs: Entries<T>, ghost outer: NodeList, ghost lists: map<Owner, seq<nat>>,
                      ghost canc: map<nat, set<nat>>, ghost loose: Vec3, id: nat)
    returns (visited: seq<nat>)
    requires Inv(cells, abs, outer, lists, canc, loose, 0, 0, {}, Outer, {})
    ensures Nodes(ROOT) in lists
    ensures id !in abs ==> visited == []
    ensures id in abs ==>
      OwnerOf(abs[id]) in lists && id in lists[OwnerOf(abs[id])] &&
      var L := lists[OwnerOf(abs[id])];
      var k := IndexOf(L, id);
      visited == lists[Nodes(ROOT)] + L[k + 1..] + Reverse(L[..k])
  {
    assert ListOf(cells, outer, Nodes(ROOT)).Some?;
    if id !in abs {
      return [];
    }
    var a := abs[id];
    assert EntryOk(cells, abs, lists, loose, id);
    ghost var o := OwnerOf(a);
    ghost var L := lists[o];
    ghost var k := IndexOf(L, id);
    assert ListOf(cells, outer, Nodes(ROOT)).Some?;
    assert OwnerOk(cells, abs, outer, lists, {}, Outer, {}, Nodes(ROOT));
    var root := WalkList(abs, cells[ROOT].nodes.head, cells[ROOT].nodes, lists[Nodes(ROOT)], Nodes(ROOT), {});
    assert OwnerOk(cells, abs, outer, lists, {}, Outer, {}, o);
    assert LinkOk(abs, L, k, o, {});
    var after := WalkFrom(abs, ListOf(cells, outer, o).value, L, o, k, id);
    var before := WalkBack(abs, ListOf(cells, outer, o).value, L, o, k, id);
    visited := root + after + before;
  }

  /// `collision_list` from the successor of entry `L[k]`: the entries after it.
  method WalkFrom<T>(abs: Entries<T>, ghost nl: NodeList, ghost L: seq<nat>, ghost o: Owner, ghost k: nat,
                     from: nat)
    returns (visited: seq<nat>)
    requires Linked(abs, nl, L, o, {}, {}) && k < |L| && L[k] == from
    ensures visited == L[k + 1..]
  {
    assert LinkOk(abs, L, k, o, {});
    var id := abs[from].next;
    visited := [];
    ghost var j := k + 1;
    while id > 0
      invariant k + 1 <= j <= |L| && id == (if j < |L| then L[j] else 0) && visited == L[k + 1..j]
      decreases |L| - j
    {
      assert LinkOk(abs, L, j, o, {});
      visited := visited + [id];
      id := abs[id].next;
      j := j + 1;
    }
  }

  /// `collision` meets every other entry of the entry's own list exactly
  /// once.
  lemma CollisionOwnList(L: seq<nat>, k: nat)
    requires Distinct(L) && k < |L|
    ensures multiset(L[k + 1..] + Reverse(L[..k])) == multiset(L) - multiset{L[k]}
  {
    assert multiset(Reverse(L[..k])) == multiset(L[..k]) by {
      ReverseSame(L[..k]);
    }
    assert L == L[..k] + [L[k]] + L[k + 1..];
  }

  lemma {:induction false} ReverseSame(s: seq<nat>)
    ensures multiset(Reverse(s)) == multiset(s)
  {
    if s != [] {
      ReverseSame(s[1..]);
      assert s == [s[0]] + s[1..];
    }
  }
}
