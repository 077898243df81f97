// Splitting a slot's list into a new child cell: `create_child`,
// `split_down` and `fix_prev` of cg/src/octree.rs, and the proof that the
// tree invariant survives the split.
module OctreeSplit {
  import opened OctreeGeometry
  import opened OctreeState
  import opened OctreeLists
  import opened OctreeCounts
  import opened OctreeDirty
  import opened OctreeGather
  import opened OctreeShrink

  /// `create_child`: the empty cell for slot `child` of a cell with box
  /// `aabb`, loose value `loose` and layer `layer`.  When the loose value
  /// fits the box, the new cell lies inside it and its halved loose value
  /// fits its own box.
  function CreateChild(aabb: Aabb, loose: Vec3, layer: nat, parent: nat, child: nat): (r: OctNode)
    ensures r.parent == parent && r.parentChild == child && r.layer == layer + 1
    ensures r.aabb == Octant(aabb, loose, child) && r.loose == HalfVec(loose)
    ensures LooseFits(aabb, loose) ==> Contains(aabb, r.aabb) && LooseFits(r.aabb, r.loose)
  {
    NewCell(Octant(aabb, loose, child), HalfVec(loose), parent, child, layer + 1)
  }

  // ---------------------------------------------------------------------
  // Where `split_down` sends each entry.

  /// The list of the new cell `n` that `split_down` pushes entry `e` on:
  /// the cell's own list (8) when the entry is not deeper than the cell,
  /// otherwise the first octant that contains it; 9 when no octant does,
  /// and the entry is then left out of every list.
  function Dest<T>(n: OctNode, e: AbNode<T>): (d: nat)
    ensures d <= 9
  {
    if n.layer >= e.layer then 8
    else
      var j := FirstOctant(n.aabb, n.loose, e.aabb, 0);
      if j < 8 then j else 9
  }

  /// Where `Dest` sends an entry: its own list when the cell's layer
  /// reaches the entry's, else the first octant that contains its box,
  /// else nowhere (9).
  lemma DestSpec<T>(n: OctNode, e: AbNode<T>)
    ensures Dest(n, e) == 8 <==> n.layer >= e.layer
    ensures Dest(n, e) < 8 ==> n.layer < e.layer && Contains(Octant(n.aabb, n.loose, Dest(n, e)), e.aabb)
    ensures Dest(n, e) < 9 && n.layer < e.layer ==>
      forall j :: 0 <= j < Dest(n, e) ==> !Contains(Octant(n.aabb, n.loose, j), e.aabb)
    ensures Dest(n, e) == 9 ==> forall j :: 0 <= j < 8 ==> !Contains(Octant(n.aabb, n.loose, j), e.aabb)
  {
  }

  /// The owner of list `d` of cell `k`.
  function DestOwner(k: nat, d: nat): Owner {
    if d == 8 then Nodes(k) else Slot(k, d)
  }

  /// The list `d` that walking the entries `L` into cell `n` builds: each
  /// entry is pushed at the head, so the last one walked comes first.
  ghost function Bucket<T>(abs: Entries<T>, n: OctNode, L: seq<nat>, d: nat): seq<nat>
    requires forall y | y in L :: y in abs
  {
    if L == [] then []
    else
      var y := L[|L| - 1];
      var rest := Bucket(abs, n, L[..|L| - 1], d);
      if Dest(n, abs[y]) == d then [y] + rest else rest
  }

  /// A list built by the walk holds exactly the walked entries sent to it,
  /// each once.
  lemma {:induction false} BucketHas<T>(abs: Entries<T>, n: OctNode, L: seq<nat>, d: nat)
    requires forall y | y in L :: y in abs
    ensures forall y :: y in Bucket(abs, n, L, d) <==> y in L && Dest(n, abs[y]) == d
    ensures Distinct(L) ==> Distinct(Bucket(abs, n, L, d))
    ensures 0 !in L ==> 0 !in Bucket(abs, n, L, d)
    decreases |L|
  {
    if L != [] {
      var t := L[..|L| - 1];
      var y := L[|L| - 1];
      assert L == t + [y];
      BucketHas(abs, n, t, d);
      if Distinct(L) {
        assert Distinct(t);
        assert y !in t;
      }
    }
  }

  /// Walking one more entry.
  lemma BucketStep<T>(abs: Entries<T>, n: OctNode, L: seq<nat>, t: nat, d: nat)
    requires t < |L| && forall y | y in L :: y in abs
    ensures forall y | y in L[..t + 1] :: y in abs
    ensures Bucket(abs, n, L[..t + 1], d) ==
      if Dest(n, abs[L[t]]) == d then [L[t]] + Bucket(abs, n, L[..t], d) else Bucket(abs, n, L[..t], d)
  {
    assert L[..t + 1][..t] == L[..t];
  }

  /// `split_down` never drops an entry: every entry of a slot's list is
  /// either kept by the new child cell of that slot or fits one of its
  /// octants.
  lemma NoStrand<T>(cells: Cells, canc: map<nat, set<nat>>, loose: Vec3, p: nat, i: nat, e: AbNode<T>)
    requires CellsOk(cells, canc, loose) && p in cells && i < 8
    requires Placed(cells, loose, e) && OwnerOf(e) == Slot(p, i)
    ensures Dest(CreateChild(cells[p].aabb, cells[p].loose, cells[p].layer, p, i), e) <= 8
  {
    var c := cells[p];
    assert CellGeom(cells, canc, loose, p);
    var n := CreateChild(c.aabb, c.loose, c.layer, p, i);
    if n.layer < e.layer {
      LooseStep(loose, c.layer);
      LayerSmall(loose, e.aabb, n.layer);
      OctantCover(n.aabb, n.loose, e.aabb);
    }
  }

  // ---------------------------------------------------------------------
  // Dirty masks.

  /// Setting bit `d` leaves the other bits alone.
  lemma BitOr(m: bv8, d: nat, j: nat)
    requires d < 8 && j < 8
    ensures ((m | Bit(d)) & Bit(j) != 0) <==> (m & Bit(j) != 0 || d == j)
  {
    assert d == 0 || d == 1 || d == 2 || d == 3 || d == 4 || d == 5 || d == 6 || d == 7;
    assert j == 0 || j == 1 || j == 2 || j == 3 || j == 4 || j == 5 || j == 6 || j == 7;
  }

  /// A mask is clean exactly when none of its eight bits is set.
  lemma MaskZero(m: bv8)
    ensures m == 0 <==> forall j | 0 <= j < 8 :: m & Bit(j) == 0
  {
    if m != 0 {
      assert m & Bit(0) != 0 || m & Bit(1) != 0 || m & Bit(2) != 0 || m & Bit(3) != 0 ||
             m & Bit(4) != 0 || m & Bit(5) != 0 || m & Bit(6) != 0 || m & Bit(7) != 0;
    }
  }

  // ---------------------------------------------------------------------
  // `fix_prev`.

  ghost function Members(L: seq<nat>): set<nat> {
    set y | y in L
  }

  /// The entries after `fix_prev` walked list `B` up to position `t`.
  ghost function FixedMap<T>(abs: Entries<T>, B: seq<nat>, t: nat): (r: Entries<T>)
    requires t < |B| && forall m | 0 <= m < |B| :: B[m] in abs
    ensures r.Keys == abs.Keys
    decreases t
  {
    if t == 0 then abs
    else
      var a := FixedMap(abs, B, t - 1);
      a[B[t] := a[B[t]].(prev := B[t - 1])]
  }

  /// Walking the list changes no field of an entry but its backward link.
  lemma {:induction false} FixedOnlyPrev<T>(abs: Entries<T>, B: seq<nat>, t: nat, y: nat)
    requires t < |B| && (forall m | 0 <= m < |B| :: B[m] in abs) && y in abs
    ensures FixedMap(abs, B, t)[y] == abs[y].(prev := FixedMap(abs, B, t)[y].prev)
    decreases t
  {
    if t > 0 {
      FixedOnlyPrev(abs, B, t - 1, y);
    }
  }

  /// An entry the walk has not reached yet is untouched.
  lemma {:induction false} FixedOutside<T>(abs: Entries<T>, B: seq<nat>, t: nat, y: nat)
    requires t < |B| && (forall m | 0 <= m < |B| :: B[m] in abs) && y in abs
    requires forall m | 0 < m <= t :: B[m] != y
    ensures FixedMap(abs, B, t)[y] == abs[y]
    decreases t
  {
    if t > 0 {
      FixedOutside(abs, B, t - 1, y);
    }
  }

  /// An entry the walk has reached links back to its predecessor.
  lemma {:induction false} FixedPrev<T>(abs: Entries<T>, B: seq<nat>, t: nat, m: nat)
    requires Distinct(B) && t < |B| && (forall m | 0 <= m < |B| :: B[m] in abs) && 0 < m <= t
    ensures FixedMap(abs, B, t)[B[m]].prev == B[m - 1]
    decreases t
  {
    if m < t {
      FixedPrev(abs, B, t - 1, m);
    }
  }

  /// `fix_prev`: walking a list from its head, each successor gets its
  /// backward link; only backward links change.
  method FixPrev<T>(abs: Entries<T>, head: nat, ghost nl: NodeList, ghost B: seq<nat>, ghost o: Owner,
                    ghost stale: set<nat>)
    returns (abs': Entries<T>)
    requires Linked(abs, nl, B, o, stale, {}) && head == nl.head
    requires |B| > 0 ==> B[0] in abs && abs[B[0]].prev == 0
    ensures Linked(abs', nl, B, o, {}, {})
    ensures abs'.Keys == abs.Keys
    ensures forall y | y in abs :: abs'[y] == abs[y].(prev := abs'[y].prev)
    ensures forall y | y in abs && y !in B :: abs'[y] == abs[y]
  {
    abs' := abs;
    if head == 0 {
      assert |B| == 0;
      return;
    }
    forall m | 0 <= m < |B|
      ensures B[m] in abs && abs[B[m]].next == NextOf(B, m)
    {
      assert LinkOk(abs, B, m, o, stale);
    }
    abs' := FixChain(abs, head, B);
    ghost var t := |B| - 1;
    forall y | y in abs
      ensures abs'[y] == abs[y].(prev := abs'[y].prev)
    {
      FixedOnlyPrev(abs, B, t, y);
    }
    forall y | y in abs && y !in B
      ensures abs'[y] == abs[y]
    {
      FixedOutside(abs, B, t, y);
    }
    forall m | 0 <= m < |B|
      ensures LinkOk(abs', B, m, o, {})
    {
      assert LinkOk(abs, B, m, o, stale);
      FixedLink(abs, B, m, o, stale);
    }
  }

  /// After the walk, position `m` of the list links both ways.
  lemma FixedLink<T>(abs: Entries<T>, B: seq<nat>, m: nat, o: Owner, stale: set<nat>)
    requires Distinct(B) && m < |B| && (forall j | 0 <= j < |B| :: B[j] in abs)
    requires LinkOk(abs, B, m, o, stale) && abs[B[0]].prev == 0
    ensures LinkOk(FixedMap(abs, B, |B| - 1), B, m, o, {})
  {
    var t := |B| - 1;
    FixedOnlyPrev(abs, B, t, B[m]);
    if m == 0 {
      FixedOutside(abs, B, t, B[0]);
    } else {
      FixedPrev(abs, B, t, m);
    }
  }

  /// The loop of `fix_prev` over the chain of `next` links `B`.
  method FixChain<T>(abs: Entries<T>, head: nat, ghost B: seq<nat>) returns (abs': Entries<T>)
    requires |B| > 0 && head == B[0] && Distinct(B) && 0 !in B
    requires forall m | 0 <= m < |B| :: B[m] in abs
    requires forall m {:trigger abs[B[m]]} | 0 <= m < |B| :: abs[B[m]].next == NextOf(B, m)
    ensures abs' == FixedMap(abs, B, |B| - 1)
  {
    abs' := abs;
    var cur := head;
    var next := abs[head].next;
    ghost var t := 0;
    assert |B| > 1 ==> B[1] in B;
    while next > 0
      invariant t < |B| && cur == B[t] && next == NextOf(B, t)
      invariant next == 0 <==> t + 1 == |B|
      invariant abs' == FixedMap(abs, B, t)
      decreases |B| - t
    {
      FixedOutside(abs, B, t, B[t + 1]);
      abs' := abs'[next := abs'[next].(prev := cur)];
      cur := next;
      next := abs'[next].next;
      t := t + 1;
      assert t + 1 < |B| ==> B[t + 1] in B;
    }
  }

  /// A list that shares no entry with the list `fix_prev` walked stays
  /// linked.
  lemma FixFrame<T>(abs: Entries<T>, abs': Entries<T>, nl: NodeList, B: seq<nat>, o: Owner,
                    stale: set<nat>, Done: set<nat>)
    requires Linked(abs, nl, B, o, stale, {}) && abs'.Keys == abs.Keys
    requires forall y | y in abs && y !in Done :: abs'[y] == abs[y]
    requires forall y | y in B :: y !in Done
    ensures Linked(abs', nl, B, o, stale, {})
    ensures |B| > 0 ==> B[0] in abs' && abs'[B[0]] == abs[B[0]]
  {
    forall m | 0 <= m < |B|
      ensures LinkOk(abs', B, m, o, stale)
    {
      assert LinkOk(abs, B, m, o, stale);
    }
    if |B| > 0 {
      assert LinkOk(abs, B, 0, o, stale);
    }
  }

  // ---------------------------------------------------------------------
  // `split_down`.

  /// The record of an entry once `split_down` walked it, but for its link
  /// to the next entry: it hangs in the list it was sent to, with no
  /// predecessor yet; an entry sent nowhere only loses its predecessor.
  function Spread<T>(n: OctNode, k: nat, e: AbNode<T>): AbNode<T> {
    var d := Dest(n, e);
    if d <= 8 then e.(parent := k, parentChild := d, prev := 0) else e.(prev := 0)
  }

  /// The state of `split_down` after walking the first `t` entries of `L`
  /// into cell `k`, created as `n0`: the cell's lists are the buckets of
  /// the walked entries, linked forward, with backward links still to be
  /// repaired; unwalked entries are untouched; a slot is marked dirty
  /// exactly when its list grew longer than `adjust` in a cell above layer
  /// `deep`.
  ghost predicate Walked<T>(abs: Entries<T>, abs': Entries<T>, n0: OctNode, n: OctNode, k: nat,
                            L: seq<nat>, t: nat, adjust: nat, deep: nat)
    requires t <= |L| && forall y | y in L :: y in abs
  {
    CellKept(n0, n) &&
    WalkedLists(abs, abs', n0, n, k, L, t) &&
    WalkedRecords(abs, abs', n0, k, L, t) &&
    WalkedDirty(abs, n0, n, L, t, adjust, deep)
  }

  /// Two records of a cell that differ at most in lists and dirty mask.
  ghost predicate CellKept(a: OctNode, b: OctNode) {
    a.aabb == b.aabb && a.loose == b.loose && a.parent == b.parent &&
    a.parentChild == b.parentChild && a.layer == b.layer
  }

  /// The lists of the new cell are the buckets of the first `t` entries.
  ghost predicate WalkedLists<T>(abs: Entries<T>, abs': Entries<T>, n0: OctNode, n: OctNode, k: nat,
                                 L: seq<nat>, t: nat)
    requires t <= |L| && forall y | y in L :: y in abs
  {
    |n.childs| == 8 &&
    (forall j | 0 <= j < 8 ::
      n.childs[j].Ab? && Linked(abs', n.childs[j].list, Bucket(abs, n0, L[..t], j), Slot(k, j), Members(L), {})) &&
    Linked(abs', n.nodes, Bucket(abs, n0, L[..t], 8), Nodes(k), Members(L), {})
  }

  /// The first `t` entries are spread, the others untouched.
  ghost predicate WalkedRecords<T>(abs: Entries<T>, abs': Entries<T>, n0: OctNode, k: nat, L: seq<nat>, t: nat)
    requires t <= |L|
  {
    abs'.Keys == abs.Keys &&
    (forall y | y in abs && y !in Prefix(L, t) :: abs'[y] == abs[y]) &&
    (forall y | y in Prefix(L, t) && y in abs :: y in abs' && abs'[y] == Spread(n0, k, abs[y]).(next := abs'[y].next)) &&
    (forall y | y in Prefix(L, t) && y in abs && Dest(n0, abs[y]) == 9 :: y in abs' && abs'[y].next == abs[y].next)
  }

  /// The first `t` entries of `L`.
  ghost function Prefix(L: seq<nat>, t: nat): (r: set<nat>)
    requires t <= |L|
    ensures forall y :: y in r <==> y in L[..t]
  {
    set y | y in L[..t]
  }

  lemma PrefixPush(L: seq<nat>, t: nat)
    requires t < |L|
    ensures Prefix(L, t + 1) == Prefix(L, t) + {L[t]}
  {
    assert L[..t + 1] == L[..t] + [L[t]];
  }

  /// The lengths of the eight slot buckets of the walked entries `W`.
  ghost function Lens<T>(abs: Entries<T>, n0: OctNode, W: seq<nat>): (r: seq<nat>)
    requires forall y | y in W :: y in abs
    ensures |r| == 8 && forall j | 0 <= j < 8 :: r[j] == |Bucket(abs, n0, W, j)|
  {
    seq(8, j requires 0 <= j < 8 => |Bucket(abs, n0, W, j)|)
  }

  /// Slot `j` is marked dirty once its bucket is longer than `adjust` in a
  /// cell above layer `deep`.
  ghost predicate WalkedDirty<T>(abs: Entries<T>, n0: OctNode, n: OctNode, L: seq<nat>, t: nat,
                                 adjust: nat, deep: nat)
    requires t <= |L| && forall y | y in L :: y in abs
  {
    DirtyFor(n.dirty, n0.layer < deep, adjust, Lens(abs, n0, L[..t]))
  }

  /// Mask `m` marks exactly the slots whose length in `lens` exceeds
  /// `adjust`, and only when `low`.
  ghost predicate DirtyFor(m: bv8, low: bool, adjust: nat, lens: seq<nat>)
    requires |lens| == 8
  {
    forall j | 0 <= j < 8 :: (m & Bit(j) != 0) <==> (low && lens[j] > adjust)
  }

  /// One pass of the loop of `split_down`: entry `id`, the `t`-th of `L`,
  /// loses its predecessor and is pushed on the list `Dest` picks; a slot
  /// whose list grows longer than `adjust` in a cell above layer `deep` is
  /// marked dirty.  The entry after `id` is returned.
  method SplitOne<T>(ghost abs: Entries<T>, abs1: Entries<T>, adjust: nat, deep: nat, ghost n0: OctNode,
                     n: OctNode, k: nat, id: nat, ghost list: NodeList, ghost L: seq<nat>, ghost o: Owner,
                     ghost t: nat)
    returns (abs2: Entries<T>, n': OctNode, next: nat)
    requires Linked(abs, list, L, o, {}, {}) && forall y | y in L :: y in abs
    requires k != 0 && t < |L| && id == L[t]
    requires Walked(abs, abs1, n0, n, k, L, t, adjust, deep)
    ensures Walked(abs, abs2, n0, n', k, L, t + 1, adjust, deep)
    ensures next == NextOf(L, t)
  {
    assert LinkOk(abs, L, t, o, {});
    assert L[t] !in L[..t];
    assert abs1[id] == abs[id];
    assert n.layer == n0.layer && n.aabb == n0.aabb && n.loose == n0.loose;
    var node := abs1[id];
    next := node.next;
    node := node.(prev := 0);
    if n.layer >= node.layer {
      node := node.(parent := k, parentChild := 8, next := n.nodes.head);
      n' := n.(nodes := NodeList(id, n.nodes.len + 1));
      abs2 := abs1[id := node];
      assert Dest(n0, abs[id]) == 8;
      WalkStep(abs, abs1, abs2, n0, n, n', k, L, t, adjust, deep, node, 8, n.nodes, n.dirty);
    } else {
      var j := FirstOctant(n.aabb, n.loose, node.aabb, 0);
      if j < 8 {
        var nl := n.childs[j].list;
        node := node.(parent := k, parentChild := j, next := nl.head);
        var dirty;
        n', dirty := PushList(n, adjust, deep, k, j, id);
        abs2 := abs1[id := node];
        assert Dest(n0, abs[id]) == j;
        WalkStep(abs, abs1, abs2, n0, n, n', k, L, t, adjust, deep, node, j, nl, dirty);
      } else {
        n' := n;
        abs2 := abs1[id := node];
        assert Dest(n0, abs[id]) == 9;
        WalkStep(abs, abs1, abs2, n0, n, n', k, L, t, adjust, deep, node, 9, n.nodes, n.dirty);
      }
    }
  }

  /// Entry `id` joins the list of slot `j` of the new cell `n`; a list grown
  /// past `adjust` in a cell above layer `deep` marks the slot dirty.
  method PushList(n: OctNode, adjust: nat, deep: nat, k: nat, j: nat, id: nat) returns (n': OctNode, dirty: bv8)
    requires j < 8 && j < |n.childs| && n.childs[j].Ab?
    ensures n' == n.(childs := n.childs[j := Ab(NodeList(id, n.childs[j].list.len + 1))], dirty := dirty)
    ensures forall i | 0 <= i < 8 ::
      (dirty & Bit(i) != 0) <==> (n.dirty & Bit(i) != 0 || (i == j && n.childs[j].list.len + 1 > adjust && n.layer < deep))
  {
    var nl := n.childs[j].list;
    dirty := n.dirty;
    if nl.len + 1 > adjust && n.layer < deep {
      dirty := SetDirty(dirty, j, n.layer, k).0;
    }
    n' := n.(childs := n.childs[j := Ab(NodeList(id, nl.len + 1))], dirty := dirty);
    forall i | 0 <= i < 8
      ensures (dirty & Bit(i) != 0) <==> (n.dirty & Bit(i) != 0 || (i == j && nl.len + 1 > adjust && n.layer < deep))
    {
      BitOr(n.dirty, j, i);
    }
  }


  /// One walk step: entry `L[t]` of a distinct list of live entries is
  /// sent to list `d` of cell `k` ...
  ghost predicate StepBase<T>(abs: Entries<T>, n0: OctNode, k: nat, L: seq<nat>, t: nat, d: nat) {
    (forall y | y in L :: y in abs) && 0 !in L && Distinct(L) &&
    k != 0 && t < |L| && L[t] !in L[..t] && d == Dest(n0, abs[L[t]])
  }

  /// ... its record is rewritten to `r` ...
  ghost predicate StepRec<T>(abs: Entries<T>, abs1: Entries<T>, abs2: Entries<T>, n0: OctNode, k: nat,
                             L: seq<nat>, t: nat, r: AbNode<T>, d: nat) {
    t < |L| && L[t] in abs &&
    abs2 == abs1[L[t] := r] && r == Spread(n0, k, abs[L[t]]).(next := r.next) &&
    (d == 9 ==> r.next == abs[L[t]].next)
  }

  /// ... and pushed on that list of the cell, `n` becoming `n'`; a slot
  /// grown past `adjust` above the deepest layer is marked dirty.
  ghost predicate StepCell<T>(n0: OctNode, n: OctNode, n': OctNode, L: seq<nat>, t: nat, adjust: nat, deep: nat,
                              r: AbNode<T>, d: nat, nl: NodeList, dirty: bv8) {
    t < |L| &&
    (d == 9 ==> n' == n) &&
    (d == 8 ==> r.next == n.nodes.head && n' == n.(nodes := NodeList(L[t], n.nodes.len + 1))) &&
    (d < 8 ==>
      |n.childs| == 8 && n.childs[d].Ab? && nl == n.childs[d].list && r.next == nl.head &&
      n' == n.(childs := n.childs[d := Ab(NodeList(L[t], nl.len + 1))], dirty := dirty) &&
      forall j | 0 <= j < 8 ::
        (dirty & Bit(j) != 0) <==> (n.dirty & Bit(j) != 0 || (j == d && nl.len + 1 > adjust && n0.layer < deep)))
  }

  /// The lists, records and mask after one more entry is walked.
  lemma WalkStep<T>(abs: Entries<T>, abs1: Entries<T>, abs2: Entries<T>, n0: OctNode, n: OctNode, n': OctNode,
                    k: nat, L: seq<nat>, t: nat, adjust: nat, deep: nat, r: AbNode<T>,
                    d: nat, nl: NodeList, dirty: bv8)
    requires StepBase(abs, n0, k, L, t, d) && StepRec(abs, abs1, abs2, n0, k, L, t, r, d)
    requires StepCell(n0, n, n', L, t, adjust, deep, r, d, nl, dirty)
    requires Walked(abs, abs1, n0, n, k, L, t, adjust, deep)
    ensures Walked(abs, abs2, n0, n', k, L, t + 1, adjust, deep)
  {
    WalkStepLists(abs, abs1, abs2, n0, n, n', k, L, t, adjust, deep, r, d, nl, dirty);
    WalkStepRecords(abs, abs1, abs2, n0, n, n', k, L, t, adjust, deep, r, d, nl, dirty);
    if d < 8 {
      assert Linked(abs1, nl, Bucket(abs, n0, L[..t], d), Slot(k, d), Members(L), {});
    }
    WalkStepBits(abs, n0, n, n', L, t, adjust, deep, r, d, nl, dirty);
    assert CellKept(n0, n');
  }

  /// The dirty mask after one more entry is walked.
  lemma WalkStepBits<T>(abs: Entries<T>, n0: OctNode, n: OctNode, n': OctNode, L: seq<nat>, t: nat,
                        adjust: nat, deep: nat, r: AbNode<T>, d: nat, nl: NodeList, dirty: bv8)
    requires (forall y | y in L :: y in abs) && t < |L| && d == Dest(n0, abs[L[t]])
    requires StepCell(n0, n, n', L, t, adjust, deep, r, d, nl, dirty)
    requires d < 8 ==> nl.len == |Bucket(abs, n0, L[..t], d)|
    requires WalkedDirty(abs, n0, n, L, t, adjust, deep)
    ensures WalkedDirty(abs, n0, n', L, t + 1, adjust, deep)
  {
    LensStep(abs, n0, L, t, d);
    if d < 8 {
      DirtyStep(n.dirty, dirty, n0.layer < deep, adjust, Lens(abs, n0, L[..t]), Lens(abs, n0, L[..t + 1]), d, nl.len);
    } else {
      DirtyStep(n.dirty, n.dirty, n0.layer < deep, adjust, Lens(abs, n0, L[..t]), Lens(abs, n0, L[..t + 1]), d, nl.len);
    }
  }

  /// Walking one more entry, sent to list `d`, lengthens bucket `d` only.
  lemma LensStep<T>(abs: Entries<T>, n0: OctNode, L: seq<nat>, t: nat, d: nat)
    requires (forall y | y in L :: y in abs) && t < |L| && d == Dest(n0, abs[L[t]])
    ensures forall j | 0 <= j < 8 ::
      Lens(abs, n0, L[..t + 1])[j] == if j == d then Lens(abs, n0, L[..t])[j] + 1 else Lens(abs, n0, L[..t])[j]
  {
    forall j | 0 <= j < 8
      ensures Lens(abs, n0, L[..t + 1])[j] == if j == d then Lens(abs, n0, L[..t])[j] + 1 else Lens(abs, n0, L[..t])[j]
    {
      BucketStep(abs, n0, L, t, j);
    }
  }

  /// Pushing on slot `d` (none when `d` is 8 or 9) and marking it once it
  /// is longer than `adjust` keeps the mask in step with the lengths.
  lemma DirtyStep(m: bv8, m': bv8, low: bool, adjust: nat, lens: seq<nat>, lens': seq<nat>, d: nat, len: nat)
    requires |lens| == 8 && |lens'| == 8 && DirtyFor(m, low, adjust, lens)
    requires forall j | 0 <= j < 8 :: lens'[j] == if j == d then lens[j] + 1 else lens[j]
    requires d >= 8 ==> m' == m
    requires d < 8 ==> len == lens[d]
    requires d < 8 ==>
      forall j | 0 <= j < 8 :: (m' & Bit(j) != 0) <==> (m & Bit(j) != 0 || (j == d && len + 1 > adjust && low))
    ensures DirtyFor(m', low, adjust, lens')
  {
  }

  lemma WalkStepLists<T>(abs: Entries<T>, abs1: Entries<T>, abs2: Entries<T>, n0: OctNode, n: OctNode,
                         n': OctNode, k: nat, L: seq<nat>, t: nat, adjust: nat, deep: nat, r: AbNode<T>,
                         d: nat, nl: NodeList, dirty: bv8)
    requires StepBase(abs, n0, k, L, t, d) && StepRec(abs, abs1, abs2, n0, k, L, t, r, d)
    requires StepCell(n0, n, n', L, t, adjust, deep, r, d, nl, dirty)
    requires WalkedLists(abs, abs1, n0, n, k, L, t)
    ensures WalkedLists(abs, abs2, n0, n', k, L, t + 1)
  {
    forall e | 0 <= e <= 8
      ensures Bucket(abs, n0, L[..t + 1], e) ==
        (if d == e then [L[t]] + Bucket(abs, n0, L[..t], e) else Bucket(abs, n0, L[..t], e))
    {
      BucketStep(abs, n0, L, t, e);
    }
    forall j | 0 <= j < 8
      ensures n'.childs[j].Ab? &&
        Linked(abs2, n'.childs[j].list, Bucket(abs, n0, L[..t + 1], j), Slot(k, j), Members(L), {})
    {
      WalkList(abs, abs1, abs2, n0, n.childs[j].list, n'.childs[j].list, Slot(k, j), j, k, L, t, r);
    }
    WalkList(abs, abs1, abs2, n0, n.nodes, n'.nodes, Nodes(k), 8, k, L, t, r);
  }

  lemma WalkStepRecords<T>(abs: Entries<T>, abs1: Entries<T>, abs2: Entries<T>, n0: OctNode, n: OctNode,
                           n': OctNode, k: nat, L: seq<nat>, t: nat, adjust: nat, deep: nat, r: AbNode<T>,
                           d: nat, nl: NodeList, dirty: bv8)
    requires StepBase(abs, n0, k, L, t, d) && StepRec(abs, abs1, abs2, n0, k, L, t, r, d)
    requires WalkedRecords(abs, abs1, n0, k, L, t)
    ensures WalkedRecords(abs, abs2, n0, k, L, t + 1)
  {
    PrefixPush(L, t);
    RecordsPush(abs, abs1, abs2, n0, k, Prefix(L, t), L[t], r);
  }

  /// The records after the entry `x` is walked next to the walked
  /// entries `W`.
  lemma RecordsPush<T>(abs: Entries<T>, abs1: Entries<T>, abs2: Entries<T>, n0: OctNode, k: nat,
                       W: set<nat>, x: nat, r: AbNode<T>)
    requires x in abs && abs2 == abs1[x := r] && r == Spread(n0, k, abs[x]).(next := r.next)
    requires Dest(n0, abs[x]) == 9 ==> r.next == abs[x].next
    requires abs1.Keys == abs.Keys
    requires forall y | y in abs && y !in W :: abs1[y] == abs[y]
    requires forall y | y in W && y in abs :: y in abs1 && abs1[y] == Spread(n0, k, abs[y]).(next := abs1[y].next)
    requires forall y | y in W && y in abs && Dest(n0, abs[y]) == 9 :: y in abs1 && abs1[y].next == abs[y].next
    ensures abs2.Keys == abs.Keys
    ensures forall y | y in abs && y !in W + {x} :: abs2[y] == abs[y]
    ensures forall y | y in W + {x} && y in abs :: y in abs2 && abs2[y] == Spread(n0, k, abs[y]).(next := abs2[y].next)
    ensures forall y | y in W + {x} && y in abs && Dest(n0, abs[y]) == 9 :: y in abs2 && abs2[y].next == abs[y].next
  {
  }

  /// List `d` of the new cell after one more entry is walked: pushed when
  /// the entry goes there, otherwise untouched.
  lemma WalkList<T>(abs: Entries<T>, abs1: Entries<T>, abs2: Entries<T>, n0: OctNode, nl: NodeList,
                    nl': NodeList, ow: Owner, d: nat, k: nat, L: seq<nat>, t: nat, r: AbNode<T>)
    requires (forall y | y in L :: y in abs) && 0 !in L && Distinct(L)
    requires k != 0 && t < |L| && L[t] !in L[..t] && d <= 8 && ow == DestOwner(k, d)
    requires Linked(abs1, nl, Bucket(abs, n0, L[..t], d), ow, Members(L), {})
    requires abs2 == abs1[L[t] := r] && r == Spread(n0, k, abs[L[t]]).(next := r.next)
    requires Dest(n0, abs[L[t]]) == d ==> r.next == nl.head && nl' == NodeList(L[t], nl.len + 1)
    requires Dest(n0, abs[L[t]]) != d ==> nl' == nl
    requires Bucket(abs, n0, L[..t + 1], d) ==
      if Dest(n0, abs[L[t]]) == d then [L[t]] + Bucket(abs, n0, L[..t], d) else Bucket(abs, n0, L[..t], d)
    ensures Linked(abs2, nl', Bucket(abs, n0, L[..t + 1], d), ow, Members(L), {})
  {
    var y := L[t];
    var B := Bucket(abs, n0, L[..t], d);
    BucketHas(abs, n0, L[..t], d);
    assert y !in B;
    if Dest(n0, abs[y]) == d {
      LinkedPush(abs1, nl, B, ow, Members(L), y, r);
      assert Members(L) + HeadSet(B) == Members(L) by {
        if |B| > 0 {
          assert B[0] in L[..t];
        }
      }
    } else {
      LinkedFrame(abs1, abs2, nl, B, ow, Members(L), Members(L), {}, {});
    }
  }

  /// Nothing is walked yet: the new cell is empty and clean.
  lemma WalkStart<T>(abs: Entries<T>, n0: OctNode, k: nat, L: seq<nat>, adjust: nat, deep: nat)
    requires forall y | y in L :: y in abs
    requires |n0.childs| == 8 && (forall j | 0 <= j < 8 :: n0.childs[j] == Ab(NodeList(0, 0)))
    requires n0.nodes == NodeList(0, 0) && n0.dirty == 0
    ensures Walked(abs, abs, n0, n0, k, L, 0, adjust, deep)
  {
    assert L[..0] == [];
    forall j | 0 <= j < 8
      ensures n0.dirty & Bit(j) == 0
    {
    }
  }

  // ---------------------------------------------------------------------
  // `fix_prev` over the lists of the new cell.

  /// List `d` of cell `n`: its own list for 8, slot `d` below.
  function CellList(n: OctNode, d: nat): NodeList {
    if d == 8 then n.nodes
    else if d < |n.childs| && n.childs[d].Ab? then n.childs[d].list
    else NodeList(0, 0)
  }

  /// The lists repaired once the repairs reached step `i`: none at -1,
  /// then the cell's own list (8), then slots 0 up to `i - 1`.
  predicate Done(d: nat, i: int) {
    (d == 8 && i >= 0) || d < i
  }

  /// The list repaired at step `i`.
  function FixedList(i: int): (d: nat)
    requires -1 <= i < 8
    ensures d <= 8 && !Done(d, i) && forall e: nat :: Done(e, i + 1) <==> Done(e, i) || e == d
  {
    if i < 0 then 8 else i
  }

  /// After the walk (`abs1`), the lists done by step `i` have had their
  /// backward links repaired (`abs2`); the other entries are as the walk
  /// left them.
  ghost predicate FixedAt<T>(abs: Entries<T>, abs1: Entries<T>, abs2: Entries<T>, n0: OctNode, n: OctNode,
                             k: nat, L: seq<nat>, i: int)
    requires forall y | y in L :: y in abs
  {
    abs2.Keys == abs1.Keys &&
    (forall y | y in abs1 :: abs2[y] == abs1[y].(prev := abs2[y].prev)) &&
    (forall y | y in abs1 && (y in L ==> !Done(Dest(n0, abs[y]), i)) :: abs2[y] == abs1[y]) &&
    (forall d | d <= 8 && Done(d, i) ::
      Linked(abs2, CellList(n, d), Bucket(abs, n0, L, d), DestOwner(k, d), {}, {}))
  }

  /// A list not repaired yet is still linked forward and its head has no
  /// predecessor, as `fix_prev` needs.
  lemma FixReady<T>(abs: Entries<T>, abs1: Entries<T>, abs2: Entries<T>, n0: OctNode, n: OctNode,
                    k: nat, L: seq<nat>, i: int, d: nat)
    requires (forall y | y in L :: y in abs) && 0 !in L && Distinct(L) && k != 0
    requires WalkedLists(abs, abs1, n0, n, k, L, |L|) && WalkedRecords(abs, abs1, n0, k, L, |L|)
    requires FixedAt(abs, abs1, abs2, n0, n, k, L, i) && d <= 8 && !Done(d, i)
    ensures Linked(abs2, CellList(n, d), Bucket(abs, n0, L, d), DestOwner(k, d), Members(L), {})
    ensures |Bucket(abs, n0, L, d)| > 0 ==>
      Bucket(abs, n0, L, d)[0] in abs2 && abs2[Bucket(abs, n0, L, d)[0]].prev == 0
  {
    assert L[..|L|] == L;
    var B := Bucket(abs, n0, L, d);
    BucketHas(abs, n0, L, d);
    var Fixed := set y | y in L && Done(Dest(n0, abs[y]), i);
    FixFrame(abs1, abs2, CellList(n, d), B, DestOwner(k, d), Members(L), Fixed);
    if |B| > 0 {
      assert B[0] in L[..|L|];
    }
  }

  /// Repairing list `d` at step `i` keeps the lists repaired before it.
  lemma FixStep<T>(abs: Entries<T>, abs1: Entries<T>, abs2: Entries<T>, abs3: Entries<T>, n0: OctNode,
                   n: OctNode, k: nat, L: seq<nat>, i: int, d: nat)
    requires (forall y | y in L :: y in abs) && abs1.Keys == abs.Keys
    requires -1 <= i < 8 && d == FixedList(i)
    requires FixedAt(abs, abs1, abs2, n0, n, k, L, i)
    requires Linked(abs3, CellList(n, d), Bucket(abs, n0, L, d), DestOwner(k, d), {}, {})
    requires abs3.Keys == abs2.Keys
    requires forall y | y in abs2 :: abs3[y] == abs2[y].(prev := abs3[y].prev)
    requires forall y | y in abs2 && y !in Bucket(abs, n0, L, d) :: abs3[y] == abs2[y]
    ensures FixedAt(abs, abs1, abs3, n0, n, k, L, i + 1)
  {
    var B := Bucket(abs, n0, L, d);
    BucketHas(abs, n0, L, d);
    forall e | e <= 8 && Done(e, i)
      ensures Linked(abs3, CellList(n, e), Bucket(abs, n0, L, e), DestOwner(k, e), {}, {})
    {
      BucketHas(abs, n0, L, e);
      FixFrame(abs2, abs3, CellList(n, e), Bucket(abs, n0, L, e), DestOwner(k, e), {}, Members(B));
    }
  }

  /// `split_down`: walks the slot list `list` (the entries `L`, owned by
  /// `o`) into the new empty cell `k` created as `n0`, then repairs the
  /// backward links of the cell's own list and of its eight slots.  Every
  /// entry lands in the list `Dest` picks, in reverse walking order; a slot
  /// is marked dirty exactly when its list is longer than `adjust` and the
  /// cell lies above layer `deep`.
  method SplitDown<T>(abs: Entries<T>, adjust: nat, deep: nat, n0: OctNode, k: nat, list: NodeList,
                      ghost L: seq<nat>, ghost o: Owner)
    returns (abs': Entries<T>, n: OctNode)
    requires Linked(abs, list, L, o, {}, {}) && k != 0
    requires |n0.childs| == 8 && (forall j | 0 <= j < 8 :: n0.childs[j] == Ab(NodeList(0, 0)))
    requires n0.nodes == NodeList(0, 0) && n0.dirty == 0
    ensures forall y | y in L :: y in abs
    ensures CellKept(n0, n) && |n.childs| == 8 && forall j | 0 <= j < 8 :: n.childs[j].Ab?
    ensures forall d | 0 <= d <= 8 ::
      Linked(abs', CellList(n, d), Bucket(abs, n0, L, d), DestOwner(k, d), {}, {})
    ensures abs'.Keys == abs.Keys
    ensures forall y | y in abs && y !in L :: abs'[y] == abs[y]
    ensures forall y | y in L ::
      abs'[y] == Spread(n0, k, abs[y]).(prev := abs'[y].prev, next := abs'[y].next)
    ensures forall y | y in L && Dest(n0, abs[y]) == 9 :: abs'[y] == abs[y].(prev := 0)
    ensures forall j | 0 <= j < 8 ::
      (n.dirty & Bit(j) != 0) <==> (n0.layer < deep && |Bucket(abs, n0, L, j)| > adjust)
  {
    forall y | y in L
      ensures y in abs
    {
      var m :| 0 <= m < |L| && L[m] == y;
      assert LinkOk(abs, L, m, o, {});
    }
    var abs1;
    abs1, n := SplitWalk(abs, adjust, deep, n0, k, list, L, o);
    assert L[..|L|] == L;
    abs' := SplitFix(abs, abs1, n0, n, k, L);
    SplitDownDone(abs, abs1, abs', n0, n, k, L, adjust, deep);
  }

  /// The loop of `split_down`.
  method SplitWalk<T>(abs: Entries<T>, adjust: nat, deep: nat, n0: OctNode, k: nat, list: NodeList,
                      ghost L: seq<nat>, ghost o: Owner)
    returns (abs1: Entries<T>, n: OctNode)
    requires Linked(abs, list, L, o, {}, {}) && k != 0 && forall y | y in L :: y in abs
    requires |n0.childs| == 8 && (forall j | 0 <= j < 8 :: n0.childs[j] == Ab(NodeList(0, 0)))
    requires n0.nodes == NodeList(0, 0) && n0.dirty == 0
    ensures Walked(abs, abs1, n0, n, k, L, |L|, adjust, deep)
  {
    WalkStart(abs, n0, k, L, adjust, deep);
    abs1 := abs;
    n := n0;
    var id := list.head;
    ghost var t := 0;
    while id > 0
      invariant t <= |L| && (t < |L| ==> id == L[t]) && (id == 0 <==> t == |L|)
      invariant Walked(abs, abs1, n0, n, k, L, t, adjust, deep)
      decreases |L| - t
    {
      abs1, n, id := SplitOne(abs, abs1, adjust, deep, n0, n, k, id, list, L, o, t);
      t := t + 1;
    }
  }

  /// The calls of `fix_prev` that end `split_down`: the cell's own list,
  /// then its eight slots.
  method SplitFix<T>(ghost abs: Entries<T>, abs1: Entries<T>, ghost n0: OctNode, n: OctNode, k: nat,
                     ghost L: seq<nat>)
    returns (abs': Entries<T>)
    requires (forall y | y in L :: y in abs) && 0 !in L && Distinct(L) && k != 0 && abs1.Keys == abs.Keys
    requires WalkedLists(abs, abs1, n0, n, k, L, |L|) && WalkedRecords(abs, abs1, n0, k, L, |L|)
    ensures FixedAt(abs, abs1, abs', n0, n, k, L, 8)
  {
    abs' := FixOne(abs, abs1, abs1, n0, n, k, L, -1);
    for i := 0 to 8
      invariant FixedAt(abs, abs1, abs', n0, n, k, L, i)
    {
      abs' := FixOne(abs, abs1, abs', n0, n, k, L, i);
    }
  }

  /// One call of `fix_prev`, on the list repaired at step `i`.
  method FixOne<T>(ghost abs: Entries<T>, ghost abs1: Entries<T>, abs2: Entries<T>, ghost n0: OctNode, n: OctNode,
                   k: nat, ghost L: seq<nat>, i: int)
    returns (abs3: Entries<T>)
    requires (forall y | y in L :: y in abs) && 0 !in L && Distinct(L) && k != 0 && abs1.Keys == abs.Keys
    requires WalkedLists(abs, abs1, n0, n, k, L, |L|) && WalkedRecords(abs, abs1, n0, k, L, |L|)
    requires -1 <= i < 8 && FixedAt(abs, abs1, abs2, n0, n, k, L, i)
    ensures FixedAt(abs, abs1, abs3, n0, n, k, L, i + 1)
  {
    var d := FixedList(i);
    FixReady(abs, abs1, abs2, n0, n, k, L, i, d);
    abs3 := FixPrev(abs2, CellList(n, d).head, CellList(n, d), Bucket(abs, n0, L, d), DestOwner(k, d), Members(L));
    FixStep(abs, abs1, abs2, abs3, n0, n, k, L, i, d);
  }

  /// What the walk and the repairs leave behind.
  lemma SplitDownDone<T>(abs: Entries<T>, abs1: Entries<T>, abs2: Entries<T>, n0: OctNode, n: OctNode,
                         k: nat, L: seq<nat>, adjust: nat, deep: nat)
    requires forall y | y in L :: y in abs
    requires Walked(abs, abs1, n0, n, k, L, |L|, adjust, deep) && L[..|L|] == L
    requires FixedAt(abs, abs1, abs2, n0, n, k, L, 8)
    ensures CellKept(n0, n) && |n.childs| == 8 && forall j | 0 <= j < 8 :: n.childs[j].Ab?
    ensures forall d | 0 <= d <= 8 ::
      Linked(abs2, CellList(n, d), Bucket(abs, n0, L, d), DestOwner(k, d), {}, {})
    ensures abs2.Keys == abs.Keys
    ensures forall y | y in abs && y !in L :: abs2[y] == abs[y]
    ensures forall y | y in L ::
      abs2[y] == Spread(n0, k, abs[y]).(prev := abs2[y].prev, next := abs2[y].next)
    ensures forall y | y in L && Dest(n0, abs[y]) == 9 :: abs2[y] == abs[y].(prev := 0)
    ensures forall j | 0 <= j < 8 ::
      (n.dirty & Bit(j) != 0) <==> (n0.layer < deep && |Bucket(abs, n0, L, j)| > adjust)
  {
    forall d | 0 <= d <= 8
      ensures Linked(abs2, CellList(n, d), Bucket(abs, n0, L, d), DestOwner(k, d), {}, {})
    {
      assert Done(d, 8);
    }
    forall j | 0 <= j < 8
      ensures (n.dirty & Bit(j) != 0) <==> (n0.layer < deep && |Bucket(abs, n0, L, j)| > adjust)
    {
      assert Lens(abs, n0, L[..|L|])[j] == |Bucket(abs, n0, L, j)|;
    }
  }
}
