// The state of the loose octree of cg/src/octree.rs: cells (`OctNode`),
// entries (`AbNode`) kept in doubly linked lists threaded through the entry
// slab, and the invariants that tie them together.
module OctreeState {
  import opened OctreeGeometry

  /// `NodeList`: the head of a list of entries and its length; 0 is the
  /// null key of both slabs.
  datatype NodeList = NodeList(head: nat, len: nat)

  /// `ChildNode`: a slot of a cell holds either a child cell and the
  /// number of entries beneath it, or a list of entries.
  datatype ChildNode = Oct(oct: nat, num: nat) | Ab(list: NodeList)

  /// `OctNode`.  `dirty` has bit `i` set when slot `i` may have to be split
  /// or merged.
  datatype OctNode = OctNode(
    aabb: Aabb,
    loose: Vec3,
    parent: nat,
    parentChild: nat,
    childs: seq<ChildNode>,
    layer: nat,
    nodes: NodeList,
    dirty: bv8)

  /// `AbNode`: an entry; `parent` is its cell (0 for the list of entries
  /// outside the root) and `parentChild` its slot (8 for the cell's own list).
  datatype AbNode<T> = AbNode(
    aabb: Aabb,
    bind: T,
    layer: nat,
    parent: nat,
    parentChild: nat,
    prev: nat,
    next: nat)

  type Cells = map<nat, OctNode>
  type Entries<T> = map<nat, AbNode<T>>

  const ROOT: nat := 1

  /// The list an entry hangs in.
  datatype Owner = Outer | Nodes(cell: nat) | Slot(cell: nat, i: nat)

  function OwnerOf<T>(e: AbNode<T>): Owner {
    if e.parent == 0 then Outer
    else if e.parentChild < 8 then Slot(e.parent, e.parentChild)
    else Nodes(e.parent)
  }

  /// The cell an owner belongs to (0 for the outer list).
  function CellOf(o: Owner): nat {
    match o
    case Outer => 0
    case Nodes(c) => c
    case Slot(c, _) => c
  }

  /// The record of the list of owner `o`, when that list exists.
  function ListOf(cells: Cells, outer: NodeList, o: Owner): Option<NodeList> {
    match o
    case Outer => Some(outer)
    case Nodes(c) => if c in cells then Some(cells[c].nodes) else None
    case Slot(c, i) =>
      if c in cells && i < 8 && i < |cells[c].childs| && cells[c].childs[i].Ab?
      then Some(cells[c].childs[i].list) else None
  }

  /// The ghost list of owner `o`, empty when there is none.
  ghost function ListAt(lists: map<Owner, seq<nat>>, o: Owner): seq<nat> {
    if o in lists then lists[o] else []
  }

  datatype Option<T> = None | Some(value: T)

  /// The new empty cell of `OctNode::new`.
  function NewCell(aabb: Aabb, loose: Vec3, parent: nat, child: nat, layer: nat): (r: OctNode)
    ensures |r.childs| == 8 && forall i :: 0 <= i < 8 ==> r.childs[i] == Ab(NodeList(0, 0))
    ensures r.nodes == NodeList(0, 0) && r.dirty == 0
  {
    var e := Ab(NodeList(0, 0));
    OctNode(aabb, loose, parent, child, [e, e, e, e, e, e, e, e], layer, NodeList(0, 0), 0)
  }

  // ---------------------------------------------------------------------
  // Linked lists.

  function PrevOf(L: seq<nat>, k: nat): nat
    requires k < |L|
  {
    if k == 0 then 0 else L[k - 1]
  }

  function NextOf(L: seq<nat>, k: nat): nat
    requires k < |L|
  {
    if k + 1 == |L| then 0 else L[k + 1]
  }

  predicate Distinct(L: seq<nat>) {
    forall i, j | 0 <= i < j < |L| :: L[i] != L[j]
  }

  /// Position `k` of the list `L` of owner `o` is linked in `abs`; the
  /// backward link is not checked for entries in `stale`.
  ghost predicate LinkOk<T>(abs: Entries<T>, L: seq<nat>, k: nat, o: Owner, stale: set<nat>)
    requires k < |L|
  {
    L[k] in abs && OwnerOf(abs[L[k]]) == o && abs[L[k]].next == NextOf(L, k) &&
    (L[k] !in stale ==> abs[L[k]].prev == PrevOf(L, k))
  }

  /// `nl` is the record of the list `L` of owner `o`; the records of the
  /// entries in `skip` are not looked at.
  ghost predicate Linked<T>(abs: Entries<T>, nl: NodeList, L: seq<nat>, o: Owner,
                            stale: set<nat>, skip: set<nat>)
  {
    nl.head == (if |L| == 0 then 0 else L[0]) && nl.len == |L| &&
    0 !in L && Distinct(L) &&
    forall k {:trigger LinkOk(abs, L, k, o, stale)} | 0 <= k < |L| && L[k] !in skip ::
      LinkOk(abs, L, k, o, stale)
  }

  // ---------------------------------------------------------------------
  // The invariant.

  /// The tree shape around cell `c`: its slots, its parent's slot that
  /// holds it, and its ancestors `canc[c]` (itself included).
  ghost predicate CellShape(cells: Cells, canc: map<nat, set<nat>>, c: nat)
    requires c in cells && c in canc
  {
    var n := cells[c];
    c != 0 && |n.childs| == 8 && c in canc[c] && ROOT in canc[c] && canc[c] <= cells.Keys &&
    (c == ROOT ==> n.parent == 0 && canc[c] == {ROOT}) &&
    (c != ROOT ==>
      n.parent in cells && n.parent in canc && n.parent != c && n.parentChild < 8 &&
      |cells[n.parent].childs| == 8 &&
      cells[n.parent].childs[n.parentChild].Oct? &&
      cells[n.parent].childs[n.parentChild].oct == c &&
      c !in canc[n.parent] && canc[c] == canc[n.parent] + {c}) &&
    forall i | 0 <= i < 8 && n.childs[i].Oct? ::
      n.childs[i].oct in cells && cells[n.childs[i].oct].parent == c &&
      cells[n.childs[i].oct].parentChild == i
  }

  ghost predicate Shape(cells: Cells, canc: map<nat, set<nat>>) {
    ROOT in cells && 0 !in cells && canc.Keys == cells.Keys &&
    forall c {:trigger CellShape(cells, canc, c)} | c in cells :: CellShape(cells, canc, c)
  }

  /// The geometry of cell `c`: its loose value is the root's halved once
  /// per layer and fits its box, a child cell is the octant of its slot one
  /// layer down, and every ancestor's box contains it.
  ghost predicate CellGeom(cells: Cells, canc: map<nat, set<nat>>, loose: Vec3, c: nat)
    requires c in cells && c in canc && NonNeg(loose)
  {
    var n := cells[c];
    WellFormed(n.aabb) && LooseFits(n.aabb, n.loose) && n.loose == LooseAt(loose, n.layer) &&
    (c == ROOT ==> n.layer == 0) &&
    (c != ROOT && n.parent in cells ==>
      n.aabb == Octant(cells[n.parent].aabb, cells[n.parent].loose, n.parentChild) &&
      n.layer == cells[n.parent].layer + 1) &&
    forall a | a in canc[c] && a in cells ::
      Contains(cells[a].aabb, n.aabb) && cells[a].layer <= n.layer
  }

  /// Where an entry may hang: an entry outside a slot has slot number 8, a
  /// slot's entries fit its octant and belong below the cell's layer, a
  /// non-root cell's own entries fit the cell, the root's own entries touch
  /// the root and the outer entries do not.
  ghost predicate Placed<T>(cells: Cells, loose: Vec3, e: AbNode<T>)
    requires ROOT in cells && Fits(loose)
  {
    WellFormed(e.aabb) && e.layer == CalcLayer(loose, Dim(e.aabb)) &&
    (OwnerOf(e).Slot? || e.parentChild == 8) &&
    match OwnerOf(e)
    case Outer => !Intersects(cells[ROOT].aabb, e.aabb)
    case Nodes(c) =>
      c in cells &&
      (c == ROOT ==> Contains(cells[ROOT].aabb, e.aabb) || Intersects(cells[ROOT].aabb, e.aabb)) &&
      (c != ROOT ==> Contains(cells[c].aabb, e.aabb) && e.layer >= cells[c].layer)
    case Slot(c, i) =>
      c in cells &&
      Contains(Octant(cells[c].aabb, cells[c].loose, i), e.aabb) && e.layer > cells[c].layer
  }

  /// The list of owner `o` is the ghost sequence `lists[o]`; in the list of
  /// owner `ho` the records of `skip` are not looked at.
  ghost predicate OwnerOk<T>(cells: Cells, abs: Entries<T>, outer: NodeList,
                             lists: map<Owner, seq<nat>>, stale: set<nat>, ho: Owner,
                             skip: set<nat>, o: Owner)
  {
    o in lists && ListOf(cells, outer, o).Some? &&
    Linked(abs, ListOf(cells, outer, o).value, lists[o], o, stale, if o == ho then skip else {})
  }

  /// Entry `y` is listed by its owner and placed where it may hang.
  ghost predicate EntryOk<T>(cells: Cells, abs: Entries<T>, lists: map<Owner, seq<nat>>,
                             loose: Vec3, y: nat)
    requires y in abs && ROOT in cells && Fits(loose)
  {
    OwnerOf(abs[y]) in lists && y in lists[OwnerOf(abs[y])] && Placed(cells, loose, abs[y])
  }

  /// The entries beneath cell `k`, leaving out `x`.
  ghost function Beneath<T>(abs: Entries<T>, canc: map<nat, set<nat>>, k: nat, x: nat): set<nat> {
    set y | y in abs && y != x && abs[y].parent in canc && k in canc[abs[y].parent]
  }

  /// A child cell's count is the number of entries beneath it; the entry
  /// `x`, while it moves, is counted as if it sat in cell `vpos`.
  ghost predicate CountOk<T>(cells: Cells, abs: Entries<T>, canc: map<nat, set<nat>>,
                             x: nat, vpos: nat, c: nat)
    requires c in cells
  {
    forall i | 0 <= i < 8 && i < |cells[c].childs| && cells[c].childs[i].Oct? ::
      cells[c].childs[i].num ==
        |Beneath(abs, canc, cells[c].childs[i].oct, x)| +
        (if vpos in canc && cells[c].childs[i].oct in canc[vpos] then 1 else 0)
  }

  /// The counts of all cells.
  ghost predicate Counts<T>(cells: Cells, abs: Entries<T>, canc: map<nat, set<nat>>, x: nat, vpos: nat) {
    forall c {:trigger CountOk(cells, abs, canc, x, vpos, c)} | c in cells ::
      CountOk(cells, abs, canc, x, vpos, c)
  }

  /// Every list that exists is `lists[o]` for its owner `o`, and no other
  /// owner is in `lists`.
  ghost predicate ListsOk<T>(cells: Cells, abs: Entries<T>, outer: NodeList,
                             lists: map<Owner, seq<nat>>, stale: set<nat>, ho: Owner, skip: set<nat>)
  {
    (forall o {:trigger ListOf(cells, outer, o)} :: ListOf(cells, outer, o).Some? ==> o in lists) &&
    (forall o {:trigger OwnerOk(cells, abs, outer, lists, stale, ho, skip, o)} | o in lists ::
      OwnerOk(cells, abs, outer, lists, stale, ho, skip, o))
  }

  /// Every entry but `x` is listed and placed.
  ghost predicate EntriesOk<T>(cells: Cells, abs: Entries<T>, lists: map<Owner, seq<nat>>,
                               loose: Vec3, x: nat)
    requires ROOT in cells && Fits(loose)
  {
    forall y {:trigger EntryOk(cells, abs, lists, loose, y)} | y in abs && y != x ::
      EntryOk(cells, abs, lists, loose, y)
  }

  /// The invariant of a tree whose entry `x` (0 for none) may be on the
  /// move: its record is not required to be listed, placed or counted, and
  /// it counts as sitting in `vpos`; the list of owner `ho` does not look at
  /// the records of `skip`, and the backward links of `stale` are not checked.
  ghost predicate Inv<T>(cells: Cells, abs: Entries<T>, outer: NodeList,
                         lists: map<Owner, seq<nat>>, canc: map<nat, set<nat>>, loose: Vec3,
                         x: nat, vpos: nat, stale: set<nat>, ho: Owner, skip: set<nat>)
  {
    CellsOk(cells, canc, loose) && 0 !in abs &&
    Counts(cells, abs, canc, x, vpos) &&
    ListsOk(cells, abs, outer, lists, stale, ho, skip) &&
    EntriesOk(cells, abs, lists, loose, x)
  }

  /// The cells alone: shape and geometry.
  ghost predicate CellsOk(cells: Cells, canc: map<nat, set<nat>>, loose: Vec3) {
    Fits(loose) && Shape(cells, canc) &&
    forall c {:trigger CellGeom(cells, canc, loose, c)} | c in cells :: CellGeom(cells, canc, loose, c)
  }

  // ---------------------------------------------------------------------
  // Changes that keep the shape of the cells.

  /// Two records of one cell differ at most in counts, list records and
  /// dirty masks.
  ghost predicate CellFrame(a: OctNode, b: OctNode) {
    a.aabb == b.aabb && a.loose == b.loose && a.parent == b.parent &&
    a.parentChild == b.parentChild && a.layer == b.layer &&
    |a.childs| == 8 && |b.childs| == 8 &&
    forall i | 0 <= i < 8 ::
      a.childs[i].Oct? == b.childs[i].Oct? && (a.childs[i].Oct? ==> a.childs[i].oct == b.childs[i].oct)
  }

  ghost predicate Frame(cells: Cells, cells': Cells) {
    cells.Keys == cells'.Keys &&
    forall c {:trigger cells'[c]} | c in cells :: CellFrame(cells[c], cells'[c])
  }

  /// 1 when `k` is `v` or one of its ancestors, else 0.
  ghost function InAnc(canc: map<nat, set<nat>>, v: nat, k: nat): nat {
    if v in canc && k in canc[v] then 1 else 0
  }

  /// The counts of `cells'` are those of `cells` after one entry moved from
  /// beneath cell `from` to beneath cell `to`.
  ghost predicate Moved(cells: Cells, cells': Cells, canc: map<nat, set<nat>>, from: nat, to: nat)
    requires Frame(cells, cells')
  {
    forall c, i {:trigger cells'[c].childs[i]} | c in cells && 0 <= i < 8 && cells[c].childs[i].Oct? ::
      cells'[c].childs[i].num + InAnc(canc, from, cells[c].childs[i].oct) ==
      cells[c].childs[i].num + InAnc(canc, to, cells[c].childs[i].oct)
  }

  /// Bit `i` of a dirty mask.
  function Bit(i: nat): bv8
    requires i < 8
  {
    (1 as bv8) << i
  }

  // ---------------------------------------------------------------------
  // The queue of dirty cells: one vector of cell ids per layer, a count and
  // the lowest layer that may hold one.

  function SumLens(q: seq<seq<nat>>): nat {
    if q == [] then 0 else SumLens(q[..|q| - 1]) + |q[|q| - 1]|
  }

  ghost predicate DirtyOk(q: seq<seq<nat>>, count: nat, min: nat) {
    count == SumLens(q) && forall i | 0 <= i < |q| && q[i] != [] :: min <= i
  }

  /// Cell `c` waits in some vector of the queue.
  ghost predicate InQueue(q: seq<seq<nat>>, c: nat) {
    exists i | 0 <= i < |q| :: c in q[i]
  }

  /// Every cell whose mask is not clean waits in the queue, where `collect`
  /// will find it.
  ghost predicate MaskQueued(cells: Cells, q: seq<seq<nat>>) {
    forall c | c in cells && cells[c].dirty != 0 :: InQueue(q, c)
  }

  /// A step leaves no cell dirty that was clean before but `r` (none when
  /// `r` is 0).
  ghost predicate MarksFrom(cells: Cells, cells': Cells, r: nat) {
    forall c | c in cells' && cells'[c].dirty != 0 :: (r != 0 && c == r) || (c in cells && cells[c].dirty != 0)
  }

  /// Every cell queued before is still queued.
  ghost predicate QueueKeeps(q: seq<seq<nat>>, q': seq<seq<nat>>) {
    forall c | InQueue(q, c) :: InQueue(q', c)
  }
}
