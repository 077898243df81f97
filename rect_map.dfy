/** The dynamic rectangle packer of cg/src/rect_map.rs: a guillotine tree of
    nodes kept in a slab. A leaf is free (`Empty`) or holds one rectangle
    (`Content`); an inner node (`Child`) is split into a left part, a right
    strip and a bottom strip, and counts the rectangles beneath it. Sizes are
    rounded up to a multiple of the alignment. Coordinates are `usize`, modelled
    as `nat`. */
module RectMap {
  import Slab

  datatype Vec2 = Vec2(x: nat, y: nat)

  datatype ContentChild =
    | Empty
    | Content(size: Vec2)
    | Child(left: nat, right: nat, bottom: nat, count: nat)

  datatype Node = Node(size: Vec2, pos: Vec2, parent: nat, content: ContentChild)

  datatype Option<T> = None | Some(value: T)

  /** What `remove` gives back: the size and position of the rectangle, or the
      panic on a node that holds no rectangle. */
  datatype Removal = Removed(size: Vec2, pos: Vec2) | InvalidContent

  type Arena = map<nat, Node>

  /** The root node's key. */
  const ROOT: nat := 1

  // ---------------------------------------------------------------------------
  // Alignment

  lemma MulSign(x: int, m: int)
    requires m > 0
    ensures x >= 1 ==> x * m >= m
    ensures x <= -1 ==> x * m <= -m
    ensures (x - 1) * m == x * m - m
  {
  }

  lemma MulMod(k: int, m: int)
    requires m > 0
    ensures (k * m) % m == 0 && (k * m) / m == k
  {
    var d, r := (k * m) / m, (k * m) % m;
    assert (k - d) * m == k * m - d * m;
    MulSign(k - d, m);
  }

  /** Rounds `v` up to a multiple of `align`: the least multiple at or above `v`. */
  function AlignUp(align: nat, v: nat): (r: nat)
    requires align > 0
    ensures r % align == 0 && v <= r < v + align
  {
    var a := v % align;
    if a > 0 then
      MulSign(v / align + 1, align);
      MulMod(v / align + 1, align);
      v + (align - a)
    else v
  }

  predicate Aligned(align: nat, s: Vec2)
    requires align > 0
  {
    s.x % align == 0 && s.y % align == 0
  }

  /** `req` fits into `area` on both axes. */
  predicate Fits(req: Vec2, area: Vec2) {
    req.x <= area.x && req.y <= area.y
  }

  /** `align_size`: rounds each axis up to a multiple of `align`. */
  function AlignSize(align: nat, s: Vec2): (r: Vec2)
    requires align > 0
    ensures Aligned(align, r) && Fits(s, r)
    ensures r.x < s.x + align && r.y < s.y + align
  {
    Vec2(AlignUp(align, s.x), AlignUp(align, s.y))
  }

  /** Two distinct multiples of `a` are at least `a` apart, and their difference
      is a multiple too. */
  lemma MultiplesGap(a: nat, r: nat, t: nat)
    requires a > 0 && r % a == 0 && t % a == 0 && r > t
    ensures r - t >= a && (r - t) % a == 0
  {
    var q, p := r / a, t / a;
    assert r - t == (q - p) * a;
    MulSign(q - p, a);
    MulMod(q - p, a);
  }

  /** Rounding up never passes a multiple of `align` that is already large enough. */
  lemma AlignUpBelow(align: nat, v: nat, t: nat)
    requires align > 0 && v <= t && t % align == 0
    ensures AlignUp(align, v) <= t
  {
    var r := AlignUp(align, v);
    if r > t { MultiplesGap(align, r, t); }
  }

  /** A request that fits an aligned area still fits after alignment. */
  lemma AlignSizeWithin(align: nat, req: Vec2, area: Vec2)
    requires align > 0 && Fits(req, area) && Aligned(align, area)
    ensures Fits(AlignSize(align, req), area)
  {
    AlignUpBelow(align, req.x, area.x);
    AlignUpBelow(align, req.y, area.y);
  }

  // ---------------------------------------------------------------------------
  // Rectangles

  /** The cell `(x, y)` lies in the node's rectangle. */
  predicate InRect(x: int, y: int, n: Node) {
    n.pos.x <= x < n.pos.x + n.size.x && n.pos.y <= y < n.pos.y + n.size.y
  }

  /** No cell lies in both rectangles. */
  ghost predicate Disjoint(a: Node, b: Node) {
    forall x: int, y: int :: !(InRect(x, y, a) && InRect(x, y, b))
  }

  /** Rectangle `a` lies within rectangle `b`. */
  predicate Inside(a: Node, b: Node) {
    b.pos.x <= a.pos.x && a.pos.x + a.size.x <= b.pos.x + b.size.x &&
    b.pos.y <= a.pos.y && a.pos.y + a.size.y <= b.pos.y + b.size.y
  }

  lemma InsideDisjoint(a: Node, a2: Node, b: Node)
    requires Inside(a, a2) && Disjoint(a2, b)
    ensures Disjoint(a, b)
  {
    forall x: int, y: int ensures !(InRect(x, y, a) && InRect(x, y, b)) {
      assert InRect(x, y, a) ==> InRect(x, y, a2);
    }
  }

  lemma SameRectDisjoint(a: Node, a': Node, b: Node, b': Node)
    requires a'.pos == a.pos && a'.size == a.size && b'.pos == b.pos && b'.size == b.size
    requires Disjoint(a, b)
    ensures Disjoint(a', b')
  {
    forall x: int, y: int ensures !(InRect(x, y, a') && InRect(x, y, b')) {
      assert InRect(x, y, a') == InRect(x, y, a) && InRect(x, y, b') == InRect(x, y, b);
    }
  }

  predicate IsLeaf(n: Node) { !n.content.Child? }

  // ---------------------------------------------------------------------------
  // Tree shape

  /** The children an inner node lists are present, know it as their parent and
      are distinct; an inner node holds at least one rectangle. */
  predicate LinksOk(s: Arena, n: nat)
    requires n in s
  {
    match s[n].content
    case Child(l, r, b, c) =>
      c >= 1 && l != 0 && l in s && s[l].parent == n &&
      (r != 0 ==> r in s && s[r].parent == n && r != l) &&
      (b != 0 ==> b in s && s[b].parent == n && b != l && b != r)
    case _ => true
  }

  /** `c` is one of the children inner node `p` lists. */
  predicate ChildOf(s: Arena, c: nat, p: nat)
    requires p in s
  {
    c != 0 && s[p].content.Child? &&
    (c == s[p].content.left || c == s[p].content.right || c == s[p].content.bottom)
  }

  /** A node other than the root is listed by its parent, and its ancestors are
      its parent's plus itself. */
  ghost predicate ParentOk(s: Arena, anc: map<nat, set<nat>>, n: nat)
    requires n in s && anc.Keys == s.Keys
  {
    n != ROOT ==>
      var p := s[n].parent;
      p in s && ChildOf(s, n, p) && anc[n] == anc[p] + {n} && n !in anc[p]
  }

  /** The ancestors of a node are nodes, include the root, and are inner nodes. */
  ghost predicate AncOk(s: Arena, anc: map<nat, set<nat>>, n: nat)
    requires n in s && anc.Keys == s.Keys
  {
    ROOT in anc[n] && n in anc[n] && anc[n] <= s.Keys &&
    forall a | a in anc[n] && a != n :: a in s && s[a].content.Child?
  }

  ghost predicate NodeOk(s: Arena, anc: map<nat, set<nat>>, n: nat)
    requires n in s && anc.Keys == s.Keys
  {
    LinksOk(s, n) && ParentOk(s, anc, n) && AncOk(s, anc, n)
  }

  /** Shape of the tree. `anc[n]` is the set of `n` and its ancestors: it is the
      ghost witness that the parent links form a tree rooted at key 1. */
  ghost predicate ShapeOk(s: Arena, anc: map<nat, set<nat>>) {
    0 !in s && ROOT in s && s[ROOT].parent == 0 && !s[ROOT].content.Content? &&
    anc.Keys == s.Keys && anc[ROOT] == {ROOT} &&
    forall n {:trigger NodeOk(s, anc, n)} | n in s :: NodeOk(s, anc, n)
  }

  /** The nodes that hold a rectangle. */
  ghost function Contents(s: Arena): set<nat> {
    set n | n in s && s[n].content.Content?
  }

  /** The rectangles held beneath node `a`. */
  ghost function Under(s: Arena, anc: map<nat, set<nat>>, a: nat): set<nat>
    requires anc.Keys == s.Keys
  {
    set n | n in s && s[n].content.Content? && a in anc[n]
  }

  /** The nodes from `p` up to the root (none for the null key 0). */
  ghost function Chain(anc: map<nat, set<nat>>, p: nat): set<nat>
    requires p == 0 || p in anc
  {
    if p == 0 then {} else anc[p]
  }

  ghost predicate CountOk(s: Arena, anc: map<nat, set<nat>>, chain: set<nat>, delta: int, a: nat)
    requires anc.Keys == s.Keys && a in s
  {
    s[a].content.Child? ==>
      s[a].content.count == |Under(s, anc, a)| + (if a in chain then delta else 0)
  }

  /** Every inner node counts the rectangles beneath it, except that the nodes in
      `chain` are off by `delta` (while a count update walks up the tree). */
  ghost predicate CountsOk(s: Arena, anc: map<nat, set<nat>>, chain: set<nat>, delta: int)
    requires anc.Keys == s.Keys
  {
    forall a {:trigger CountOk(s, anc, chain, delta, a)} | a in s :: CountOk(s, anc, chain, delta, a)
  }

  /** An inner node is split into a left part at its corner, a right strip beside
      the left part and a bottom strip below both; a strip is absent exactly when
      the left part spans that axis. */
  predicate TileOk(s: Arena, n: nat)
    requires n in s
  {
    match s[n].content
    case Child(l, r, b, _) =>
      l in s && (r != 0 ==> r in s) && (b != 0 ==> b in s) &&
      (var X, L := s[n], s[l];
       L.pos == X.pos && Fits(L.size, X.size) &&
       (r == 0 <==> L.size.x == X.size.x) &&
       (r != 0 ==> s[r].pos == Vec2(X.pos.x + L.size.x, X.pos.y) &&
                   s[r].size == Vec2(X.size.x - L.size.x, L.size.y)) &&
       (b == 0 <==> L.size.y == X.size.y) &&
       (b != 0 ==> s[b].pos == Vec2(X.pos.x, X.pos.y + L.size.y) &&
                   s[b].size == Vec2(X.size.x, X.size.y - L.size.y)))
    case _ => true
  }

  /** A node's size is aligned, it is tiled by its children, a rectangle's node
      has the rectangle's aligned size, and the node lies within its ancestors. */
  ghost predicate GeomNodeOk(s: Arena, anc: map<nat, set<nat>>, align: nat, n: nat)
    requires anc.Keys == s.Keys && n in s && align > 0
  {
    Aligned(align, s[n].size) && TileOk(s, n) &&
    (s[n].content.Content? ==> s[n].size == AlignSize(align, s[n].content.size)) &&
    forall a | a in anc[n] && a in s :: Inside(s[n], s[a])
  }

  /** Two distinct leaves do not overlap. */
  ghost predicate LeavesApart(s: Arena, m: nat, n: nat)
    requires m in s && n in s
  {
    m != n && IsLeaf(s[m]) && IsLeaf(s[n]) ==> Disjoint(s[m], s[n])
  }

  /** Geometry: the root at the origin, every node as `GeomNodeOk` says, and the
      leaves pairwise disjoint. */
  ghost predicate GeomOk(s: Arena, anc: map<nat, set<nat>>, align: nat)
    requires anc.Keys == s.Keys && ROOT in s
  {
    align > 0 && s[ROOT].pos == Vec2(0, 0) &&
    (forall n {:trigger GeomNodeOk(s, anc, align, n)} | n in s :: GeomNodeOk(s, anc, align, n)) &&
    (forall m, n {:trigger LeavesApart(s, m, n)} | m in s && n in s :: LeavesApart(s, m, n))
  }

  /** The whole invariant of a rectangle map. */
  ghost predicate MapOk(s: Arena, anc: map<nat, set<nat>>, align: nat) {
    ShapeOk(s, anc) && CountsOk(s, anc, {}, 0) && GeomOk(s, anc, align)
  }

  // ---------------------------------------------------------------------------
  // Facts about well-shaped trees

  lemma SubsetCard(a: set<nat>, b: set<nat>)
    requires a <= b
    ensures |a| <= |b|
  {
    assert b == a + (b - a);
  }

  /** A listed child is a node one level below its parent. */
  lemma ChildAnc(s: Arena, anc: map<nat, set<nat>>, p: nat, c: nat)
    requires ShapeOk(s, anc) && p in s && ChildOf(s, c, p)
    ensures c in s && s[c].parent == p && c != ROOT
    ensures anc[c] == anc[p] + {c} && c !in anc[p]
    ensures |anc[c]| == |anc[p]| + 1 && |anc[c]| <= |s.Keys|
  {
    assert NodeOk(s, anc, p);
    assert NodeOk(s, anc, c);
    SubsetCard(anc[c], s.Keys);
  }

  /** Nothing lies below a leaf. */
  lemma NotBelowLeaf(s: Arena, anc: map<nat, set<nat>>, id: nat, n: nat)
    requires ShapeOk(s, anc) && id in s && !s[id].content.Child? && n in s && n != id
    ensures id !in anc[n]
  {
    assert NodeOk(s, anc, n);
  }

  /** The child of an ancestor `a` on the way down to `n` is one of `a`'s listed
      children. */
  lemma {:induction false} PathThroughChild(s: Arena, anc: map<nat, set<nat>>, a: nat, n: nat) returns (c: nat)
    requires ShapeOk(s, anc) && n in s && a in anc[n] && a != n
    ensures a in s && ChildOf(s, c, a) && c in s && c in anc[n] && s[c].parent == a
    decreases |anc[n]|
  {
    assert NodeOk(s, anc, n);
    var p := s[n].parent;
    if p == a {
      c := n;
    } else {
      assert |anc[p]| < |anc[n]|;
      c := PathThroughChild(s, anc, a, p);
    }
  }

  /** The ancestors of an ancestor are ancestors. */
  lemma {:induction false} AncTrans(s: Arena, anc: map<nat, set<nat>>, k: nat, n: nat)
    requires ShapeOk(s, anc) && n in s && k in anc[n]
    ensures k in s && anc[k] <= anc[n]
    decreases |anc[n]|
  {
    assert NodeOk(s, anc, n);
    if k != n {
      var p := s[n].parent;
      assert |anc[p]| < |anc[n]|;
      AncTrans(s, anc, k, p);
    }
  }

  /** Every cell of an inner node lies in one of its children. */
  lemma TileCover(s: Arena, n: nat, x: int, y: int)
    requires n in s && s[n].content.Child? && TileOk(s, n) && InRect(x, y, s[n])
    ensures InRect(x, y, s[s[n].content.left]) ||
            (s[n].content.right != 0 && InRect(x, y, s[s[n].content.right])) ||
            (s[n].content.bottom != 0 && InRect(x, y, s[s[n].content.bottom]))
  {
  }

  /** The rectangles of a map lie within the map, occupy their aligned size,
      and do not overlap. */
  lemma Packed(s: Arena, anc: map<nat, set<nat>>, align: nat, m: nat, n: nat)
    requires MapOk(s, anc, align) && m in Contents(s) && n in Contents(s)
    ensures Inside(s[n], s[ROOT]) && s[n].size == AlignSize(align, s[n].content.size)
    ensures m != n ==> Disjoint(s[m], s[n])
  {
    assert NodeOk(s, anc, n);
    assert GeomNodeOk(s, anc, align, n);
    assert LeavesApart(s, m, n);
  }

  /** The root counts every rectangle of the map. */
  lemma RootCountsAll(s: Arena, anc: map<nat, set<nat>>)
    requires ShapeOk(s, anc)
    ensures Under(s, anc, ROOT) == Contents(s)
    ensures s[ROOT].content.Empty? ==> Contents(s) == {}
  {
    forall n | n in Contents(s) ensures ROOT in anc[n] && (n != ROOT ==> s[ROOT].content.Child?) {
      assert NodeOk(s, anc, n);
    }
  }

  // ---------------------------------------------------------------------------
  // Searching for room

  /** `find_node`: the first free leaf, depth first (left, right, bottom), whose
      size fits `req`, with its size and position; subtrees smaller than `req`
      are skipped. */
  function FindNode(s: Arena, ghost anc: map<nat, set<nat>>, req: Vec2, id: nat): (r: Option<(nat, Vec2, Vec2)>)
    requires ShapeOk(s, anc) && id in s
    ensures r.Some? ==> var (n, area, pos) := r.value;
              n in s && s[n].content == Empty && area == s[n].size && pos == s[n].pos &&
              Fits(req, area) && id in anc[n]
    decreases |s.Keys| - |anc[id]|
  {
    assert NodeOk(s, anc, id);
    var node := s[id];
    if req.x > node.size.x || req.y > node.size.y then None
    else
      match node.content
      case Child(left, right, bottom, _) =>
        ChildAnc(s, anc, id, left);
        var r := FindNode(s, anc, req, left);
        if r.Some? then AncTrans(s, anc, left, r.value.0); r
        else
          var r2 := if right > 0 then (ChildAnc(s, anc, id, right); FindNode(s, anc, req, right)) else None;
          if r2.Some? then AncTrans(s, anc, right, r2.value.0); r2
          else if bottom > 0 then
            ChildAnc(s, anc, id, bottom);
            var r3 := FindNode(s, anc, req, bottom);
            if r3.Some? then AncTrans(s, anc, bottom, r3.value.0); r3 else None
          else None
      case Empty => Some((id, node.size, node.pos))
      case Content(_) => None
  }

  /** A free leaf beneath `id` that `req` fits into. */
  ghost predicate RoomUnder(s: Arena, anc: map<nat, set<nat>>, req: Vec2, id: nat)
    requires anc.Keys == s.Keys
  {
    exists n :: n in s && id in anc[n] && s[n].content == Empty && Fits(req, s[n].size)
  }

  /** The search finds room exactly when there is a free leaf large enough. */
  lemma {:induction false} FindNodeComplete(s: Arena, anc: map<nat, set<nat>>, align: nat, req: Vec2, id: nat)
    requires ShapeOk(s, anc) && GeomOk(s, anc, align) && id in s
    ensures FindNode(s, anc, req, id).Some? <==> RoomUnder(s, anc, req, id)
    decreases |s.Keys| - |anc[id]|
  {
    if RoomUnder(s, anc, req, id) {
      var n :| n in s && id in anc[n] && s[n].content == Empty && Fits(req, s[n].size);
      assert GeomNodeOk(s, anc, align, n);
      assert Inside(s[n], s[id]);
      if n != id {
        var c := PathThroughChild(s, anc, id, n);
        ChildAnc(s, anc, id, c);
        FindNodeComplete(s, anc, align, req, c);
        if s[id].content.left != c && s[id].content.right != 0 {
          ChildAnc(s, anc, id, s[id].content.right);
        }
      }
    }
  }

  // ---------------------------------------------------------------------------
  // How the operations change the tree

  /** `b` keeps `a`'s place in the tree: its rectangle, its parent, whether it
      is an inner node and which children it lists. */
  predicate SameFrame(a: Node, b: Node) {
    a.size == b.size && a.pos == b.pos && a.parent == b.parent &&
    a.content.Child? == b.content.Child? &&
    (a.content.Child? ==>
       b.content.left == a.content.left && b.content.right == a.content.right &&
       b.content.bottom == a.content.bottom && b.content.count >= 1)
  }

  /** `b` is `a` with at most the count of an inner node changed. */
  predicate SameButCount(a: Node, b: Node) {
    SameFrame(a, b) && (!a.content.Child? ==> b.content == a.content)
  }

  /** Changes that keep every node's frame keep the shape. */
  lemma FrameShape(s: Arena, s': Arena, anc: map<nat, set<nat>>)
    requires ShapeOk(s, anc) && s'.Keys == s.Keys && !s'[ROOT].content.Content?
    requires forall n | n in s :: SameFrame(s[n], s'[n])
    ensures ShapeOk(s', anc)
  {
    forall n | n in s' ensures NodeOk(s', anc, n) {
      assert NodeOk(s, anc, n);
      if s[n].content.Child? {
        var Child(l, r, b, _) := s[n].content;
        assert SameFrame(s[l], s'[l]);
        if r != 0 { assert SameFrame(s[r], s'[r]); }
        if b != 0 { assert SameFrame(s[b], s'[b]); }
      }
      if n != ROOT { assert SameFrame(s[s[n].parent], s'[s[n].parent]); }
      forall a | a in anc[n] && a != n ensures a in s' && s'[a].content.Child? {
        assert SameFrame(s[a], s'[a]);
      }
    }
  }

  /** Changes that keep every node's frame, and give each rectangle a node of its
      aligned size, keep the geometry of the nodes. */
  lemma FrameNodes(s: Arena, s': Arena, anc: map<nat, set<nat>>, align: nat)
    requires anc.Keys == s.Keys && ROOT in s && GeomOk(s, anc, align)
    requires s'.Keys == s.Keys && forall n | n in s :: SameFrame(s[n], s'[n])
    requires forall n | n in s' && s'[n].content.Content? :: s'[n].size == AlignSize(align, s'[n].content.size)
    ensures forall n | n in s' :: GeomNodeOk(s', anc, align, n)
  {
    forall n | n in s' ensures GeomNodeOk(s', anc, align, n) {
      assert GeomNodeOk(s, anc, align, n);
      assert SameFrame(s[n], s'[n]);
      if s[n].content.Child? {
        var Child(l, r, b, _) := s[n].content;
        assert SameFrame(s[l], s'[l]);
        if r != 0 { assert SameFrame(s[r], s'[r]); }
        if b != 0 { assert SameFrame(s[b], s'[b]); }
      }
      forall a | a in anc[n] && a in s' ensures Inside(s'[n], s'[a]) {
        assert SameFrame(s[a], s'[a]);
      }
    }
  }

  /** Changes that keep every node's frame keep the leaves apart. */
  lemma FrameLeaves(s: Arena, s': Arena, anc: map<nat, set<nat>>, align: nat)
    requires anc.Keys == s.Keys && ROOT in s && GeomOk(s, anc, align)
    requires s'.Keys == s.Keys && forall n | n in s :: SameFrame(s[n], s'[n])
    ensures forall m, n | m in s' && n in s' :: LeavesApart(s', m, n)
  {
    forall m, n | m in s' && n in s' ensures LeavesApart(s', m, n) {
      assert LeavesApart(s, m, n);
      assert SameFrame(s[m], s'[m]) && SameFrame(s[n], s'[n]);
      if m != n && IsLeaf(s[m]) && IsLeaf(s[n]) {
        SameRectDisjoint(s[m], s'[m], s[n], s'[n]);
      }
    }
  }

  lemma FrameGeom(s: Arena, s': Arena, anc: map<nat, set<nat>>, align: nat)
    requires anc.Keys == s.Keys && ROOT in s && GeomOk(s, anc, align)
    requires s'.Keys == s.Keys && forall n | n in s :: SameFrame(s[n], s'[n])
    requires forall n | n in s' && s'[n].content.Content? :: s'[n].size == AlignSize(align, s'[n].content.size)
    ensures GeomOk(s', anc, align)
  {
    FrameNodes(s, s', anc, align);
    FrameLeaves(s, s', anc, align);
    assert SameFrame(s[ROOT], s'[ROOT]);
  }

  /** One step of a count update: node `id` moves its count by `-delta`, which
      settles it, and the update goes on with its parent. */
  lemma RecountChain(s: Arena, s': Arena, anc: map<nat, set<nat>>, id: nat, delta: int)
    requires ShapeOk(s, anc) && id in s && s[id].content.Child?
    requires s'.Keys == s.Keys && forall n | n in s :: SameButCount(s[n], s'[n])
    requires forall n | n in s && n != id :: s'[n] == s[n]
    requires s'[id].content.Child? && s'[id].content.count == s[id].content.count - delta
    requires CountsOk(s, anc, Chain(anc, id), delta)
    ensures s[id].parent == 0 || (s[id].parent in s && s[s[id].parent].content.Child?)
    ensures CountsOk(s', anc, Chain(anc, s[id].parent), delta)
  {
    assert NodeOk(s, anc, id);
    var p := s[id].parent;
    assert Chain(anc, p) == Chain(anc, id) - {id};
    forall a | a in s' ensures CountOk(s', anc, Chain(anc, p), delta, a) {
      assert CountOk(s, anc, Chain(anc, id), delta, a);
      assert Under(s', anc, a) == Under(s, anc, a) by {
        forall n | n in s ensures SameButCount(s[n], s'[n]) { }
      }
    }
  }

  lemma CountsNoChain(s: Arena, anc: map<nat, set<nat>>, delta: int)
    requires anc.Keys == s.Keys && CountsOk(s, anc, {}, delta)
    ensures CountsOk(s, anc, {}, 0)
  {
    forall a | a in s ensures CountOk(s, anc, {}, 0, a) {
      assert CountOk(s, anc, {}, delta, a);
    }
  }

  /** Putting a rectangle into a free leaf leaves each ancestor one short. */
  lemma PlaceCounts(s: Arena, anc: map<nat, set<nat>>, id: nat, size: Vec2)
    requires ShapeOk(s, anc) && CountsOk(s, anc, {}, 0) && id in s && id != ROOT && s[id].content == Empty
    ensures var s' := s[id := s[id].(content := Content(size))];
      s[id].parent in s && s[s[id].parent].content.Child? &&
      CountsOk(s', anc, Chain(anc, s[id].parent), -1)
  {
    var s' := s[id := s[id].(content := Content(size))];
    assert NodeOk(s, anc, id);
    var p := s[id].parent;
    forall a | a in s' ensures CountOk(s', anc, Chain(anc, p), -1, a) {
      assert CountOk(s, anc, {}, 0, a);
      if a in anc[id] {
        assert Under(s', anc, a) == Under(s, anc, a) + {id};
      } else {
        assert Under(s', anc, a) == Under(s, anc, a);
      }
    }
  }

  /** Taking a rectangle out of its leaf leaves each ancestor one over. */
  lemma ClearCounts(s: Arena, anc: map<nat, set<nat>>, id: nat)
    requires ShapeOk(s, anc) && CountsOk(s, anc, {}, 0) && id in s && s[id].content.Content?
    ensures id != ROOT
    ensures var s' := s[id := s[id].(content := Empty)];
      s[id].parent in s && s[s[id].parent].content.Child? &&
      CountsOk(s', anc, Chain(anc, s[id].parent), 1)
  {
    var s' := s[id := s[id].(content := Empty)];
    assert NodeOk(s, anc, id);
    var p := s[id].parent;
    forall a | a in s' ensures CountOk(s', anc, Chain(anc, p), 1, a) {
      assert CountOk(s, anc, {}, 0, a);
      if a in anc[id] {
        assert Under(s, anc, a) == Under(s', anc, a) + {id};
      } else {
        assert Under(s', anc, a) == Under(s, anc, a);
      }
    }
  }

  /** The free strip `add` leaves to the right of a rectangle of size `asize`
      placed in the corner of `X`. */
  function RightStrip(X: Node, asize: Vec2, id: nat): Node
    requires asize.x <= X.size.x
  {
    Node(Vec2(X.size.x - asize.x, asize.y), Vec2(X.pos.x + asize.x, X.pos.y), id, Empty)
  }

  /** The free strip `add` leaves below that rectangle, across the whole width. */
  function BottomStrip(X: Node, asize: Vec2, id: nat): Node
    requires asize.y <= X.size.y
  {
    Node(Vec2(X.size.x, X.size.y - asize.y), Vec2(X.pos.x, X.pos.y + asize.y), id, Empty)
  }

  /** What `add` makes of free leaf `id` when it splits it: the rectangle as its
      left child `kl`, a right strip `kr` and a bottom strip `kb` where there is
      room left (0 where not). */
  ghost function Split(s: Arena, id: nat, size: Vec2, asize: Vec2, kr: nat, kb: nat, kl: nat): Arena
    requires id in s && Fits(asize, s[id].size)
  {
    var X := s[id];
    var s1 := if kr != 0 then s[kr := RightStrip(X, asize, id)] else s;
    var s2 := if kb != 0 then s1[kb := BottomStrip(X, asize, id)] else s1;
    s2[kl := Node(asize, X.pos, id, Content(size))][id := X.(content := Child(kl, kr, kb, 1))]
  }

  /** The ancestors after the split: each new node sits below `id`. */
  ghost function SplitAnc(anc: map<nat, set<nat>>, id: nat, kr: nat, kb: nat, kl: nat): map<nat, set<nat>>
    requires id in anc
  {
    var A := anc[id];
    var a1 := if kr != 0 then anc[kr := A + {kr}] else anc;
    var a2 := if kb != 0 then a1[kb := A + {kb}] else a1;
    a2[kl := A + {kl}]
  }

  /** When `add` may split free leaf `id`: the new keys are fresh and distinct,
      and a strip is made exactly where the aligned size leaves room. */
  ghost predicate SplitPre(s: Arena, anc: map<nat, set<nat>>, align: nat, id: nat, size: Vec2,
                           asize: Vec2, kr: nat, kb: nat, kl: nat)
  {
    MapOk(s, anc, align) && id in s && s[id].content == Empty &&
    asize == AlignSize(align, size) && Fits(asize, s[id].size) &&
    (kr != 0 <==> s[id].size.x > asize.x) && (kb != 0 <==> s[id].size.y > asize.y) &&
    kl != 0 && kl !in s && kr !in s && kb !in s && kl != kr && kl != kb && (kr != 0 ==> kr != kb)
  }

  lemma SplitFacts(s: Arena, anc: map<nat, set<nat>>, align: nat, id: nat, size: Vec2,
                   asize: Vec2, kr: nat, kb: nat, kl: nat)
    requires SplitPre(s, anc, align, id, size, asize, kr, kb, kl)
    ensures var s', anc' := Split(s, id, size, asize, kr, kb, kl), SplitAnc(anc, id, kr, kb, kl);
      var X := s[id];
      s'.Keys == s.Keys + {kl} + (if kr != 0 then {kr} else {}) + (if kb != 0 then {kb} else {}) &&
      anc'.Keys == s'.Keys &&
      s'[id] == X.(content := Child(kl, kr, kb, 1)) && anc'[id] == anc[id] &&
      s'[kl] == Node(asize, X.pos, id, Content(size)) && anc'[kl] == anc[id] + {kl} &&
      (kr != 0 ==> s'[kr] == RightStrip(X, asize, id) && anc'[kr] == anc[id] + {kr}) &&
      (kb != 0 ==> s'[kb] == BottomStrip(X, asize, id) && anc'[kb] == anc[id] + {kb}) &&
      forall n | n in s && n != id :: s'[n] == s[n] && anc'[n] == anc[n]
  {
  }

  lemma SplitShape(s: Arena, anc: map<nat, set<nat>>, align: nat, id: nat, size: Vec2,
                   asize: Vec2, kr: nat, kb: nat, kl: nat)
    requires SplitPre(s, anc, align, id, size, asize, kr, kb, kl)
    ensures ShapeOk(Split(s, id, size, asize, kr, kb, kl), SplitAnc(anc, id, kr, kb, kl))
  {
    SplitFacts(s, anc, align, id, size, asize, kr, kb, kl);
    var s', anc' := Split(s, id, size, asize, kr, kb, kl), SplitAnc(anc, id, kr, kb, kl);
    assert NodeOk(s, anc, ROOT);
    forall n | n in s' ensures NodeOk(s', anc', n) {
      SplitShapeNode(s, anc, align, id, size, asize, kr, kb, kl, s', anc', n);
    }
  }

  /** One node of the split tree is well linked. */
  lemma SplitShapeNode(s: Arena, anc: map<nat, set<nat>>, align: nat, id: nat, size: Vec2,
                       asize: Vec2, kr: nat, kb: nat, kl: nat,
                       s': Arena, anc': map<nat, set<nat>>, n: nat)
    requires SplitPre(s, anc, align, id, size, asize, kr, kb, kl)
    requires s' == Split(s, id, size, asize, kr, kb, kl) && anc' == SplitAnc(anc, id, kr, kb, kl)
    requires n in s'
    ensures anc'.Keys == s'.Keys && NodeOk(s', anc', n)
  {
    SplitFacts(s, anc, align, id, size, asize, kr, kb, kl);
    if n == kl || n == kr || n == kb {
      SplitShapeFresh(s, anc, align, id, size, asize, kr, kb, kl, s', anc', n);
    } else if n == id {
      SplitShapeId(s, anc, align, id, size, asize, kr, kb, kl, s', anc', n);
    } else {
      SplitShapeOther(s, anc, align, id, size, asize, kr, kb, kl, s', anc', n);
    }
  }

  lemma SplitShapeFresh(s: Arena, anc: map<nat, set<nat>>, align: nat, id: nat, size: Vec2,
                       asize: Vec2, kr: nat, kb: nat, kl: nat,
                       s': Arena, anc': map<nat, set<nat>>, n: nat)
    requires SplitPre(s, anc, align, id, size, asize, kr, kb, kl)
    requires s' == Split(s, id, size, asize, kr, kb, kl) && anc' == SplitAnc(anc, id, kr, kb, kl)
    requires n != 0 && (n == kl || n == kr || n == kb)
    ensures anc'.Keys == s'.Keys && n in s' && NodeOk(s', anc', n)
  {
    SplitFacts(s, anc, align, id, size, asize, kr, kb, kl);
    assert NodeOk(s, anc, id);
    assert n != ROOT && n !in anc[id];
    forall a | a in anc'[n] && a != n ensures a in s' && s'[a].content.Child? {
    }
  }

  lemma SplitShapeId(s: Arena, anc: map<nat, set<nat>>, align: nat, id: nat, size: Vec2,
                       asize: Vec2, kr: nat, kb: nat, kl: nat,
                       s': Arena, anc': map<nat, set<nat>>, n: nat)
    requires SplitPre(s, anc, align, id, size, asize, kr, kb, kl)
    requires s' == Split(s, id, size, asize, kr, kb, kl) && anc' == SplitAnc(anc, id, kr, kb, kl)
    requires n == id
    ensures anc'.Keys == s'.Keys && n in s' && NodeOk(s', anc', n)
  {
    SplitFacts(s, anc, align, id, size, asize, kr, kb, kl);
    assert NodeOk(s, anc, id);
    forall a | a in anc'[n] && a != n ensures a in s' && s'[a].content.Child? {
    }
  }

  lemma SplitShapeOther(s: Arena, anc: map<nat, set<nat>>, align: nat, id: nat, size: Vec2,
                       asize: Vec2, kr: nat, kb: nat, kl: nat,
                       s': Arena, anc': map<nat, set<nat>>, n: nat)
    requires SplitPre(s, anc, align, id, size, asize, kr, kb, kl)
    requires s' == Split(s, id, size, asize, kr, kb, kl) && anc' == SplitAnc(anc, id, kr, kb, kl)
    requires n in s && n != id
    ensures anc'.Keys == s'.Keys && n in s' && NodeOk(s', anc', n)
  {
    SplitFacts(s, anc, align, id, size, asize, kr, kb, kl);
    assert NodeOk(s, anc, id);
    assert NodeOk(s, anc, n);
    if n != ROOT {
      assert s[n].parent != id;
    }
    forall a | a in anc'[n] && a != n ensures a in s' && s'[a].content.Child? {
    }
  }

  lemma SplitFreshGeom(s: Arena, anc: map<nat, set<nat>>, align: nat, id: nat, size: Vec2,
                       asize: Vec2, kr: nat, kb: nat, kl: nat, n: nat)
    requires SplitPre(s, anc, align, id, size, asize, kr, kb, kl)
    requires n != 0 && (n == kl || n == kr || n == kb)
    ensures var s', anc' := Split(s, id, size, asize, kr, kb, kl), SplitAnc(anc, id, kr, kb, kl);
      anc'.Keys == s'.Keys && n in s' && GeomNodeOk(s', anc', align, n)
  {
    var s', anc' := Split(s, id, size, asize, kr, kb, kl), SplitAnc(anc, id, kr, kb, kl);
    SplitFreshNode(s, anc, align, id, size, asize, kr, kb, kl, s', anc', n);
  }

  /// The parts a split leaf `X` is cut into are aligned and lie inside it.
  lemma StripsGeom(align: nat, X: Node, asize: Vec2, id: nat)
    requires align > 0 && Aligned(align, X.size) && Aligned(align, asize) && Fits(asize, X.size)
    ensures Inside(Node(asize, X.pos, id, Empty), X)
    ensures Aligned(align, RightStrip(X, asize, id).size) && Inside(RightStrip(X, asize, id), X)
    ensures Aligned(align, BottomStrip(X, asize, id).size) && Inside(BottomStrip(X, asize, id), X)
  {
    if X.size.x > asize.x { MultiplesGap(align, X.size.x, asize.x); }
    if X.size.y > asize.y { MultiplesGap(align, X.size.y, asize.y); }
  }

  lemma SplitFreshNode(s: Arena, anc: map<nat, set<nat>>, align: nat, id: nat, size: Vec2,
                       asize: Vec2, kr: nat, kb: nat, kl: nat,
                       s': Arena, anc': map<nat, set<nat>>, n: nat)
    requires SplitPre(s, anc, align, id, size, asize, kr, kb, kl)
    requires s' == Split(s, id, size, asize, kr, kb, kl) && anc' == SplitAnc(anc, id, kr, kb, kl)
    requires n != 0 && (n == kl || n == kr || n == kb)
    ensures anc'.Keys == s'.Keys && n in s' && GeomNodeOk(s', anc', align, n)
  {
    SplitFacts(s, anc, align, id, size, asize, kr, kb, kl);
    var X := s[id];
    assert GeomNodeOk(s, anc, align, id);
    StripsGeom(align, X, asize, id);
    assert Aligned(align, s'[n].size) && Inside(s'[n], X);
    assert NodeOk(s, anc, id);
    FreshLeafGeom(s, anc, align, id, s', anc', n);
  }

  /// A new leaf inside leaf `id`, whose ancestors are `id`'s and itself, meets
  /// the geometry once `id` keeps its place and every other node stays.
  lemma FreshLeafGeom(s: Arena, anc: map<nat, set<nat>>, align: nat, id: nat,
                      s': Arena, anc': map<nat, set<nat>>, n: nat)
    requires align > 0 && anc'.Keys == s'.Keys && n in s' && id in s && id in anc && id in s'
    requires anc'[n] == anc[id] + {n} && anc[id] <= s.Keys && s.Keys <= s'.Keys
    requires forall a | a in anc[id] :: Inside(s[id], s[a])
    requires forall a | a in s && a != id :: s'[a] == s[a]
    requires s'[id].pos == s[id].pos && s'[id].size == s[id].size
    requires !s'[n].content.Child? && Aligned(align, s'[n].size) && Inside(s'[n], s[id])
    requires s'[n].content.Content? ==> s'[n].size == AlignSize(align, s'[n].content.size)
    ensures GeomNodeOk(s', anc', align, n)
  {
  }

  lemma SplitOldGeom(s: Arena, anc: map<nat, set<nat>>, align: nat, id: nat, size: Vec2,
                     asize: Vec2, kr: nat, kb: nat, kl: nat, n: nat)
    requires SplitPre(s, anc, align, id, size, asize, kr, kb, kl)
    requires n in s
    ensures var s', anc' := Split(s, id, size, asize, kr, kb, kl), SplitAnc(anc, id, kr, kb, kl);
      anc'.Keys == s'.Keys && n in s' && GeomNodeOk(s', anc', align, n)
  {
    var s', anc' := Split(s, id, size, asize, kr, kb, kl), SplitAnc(anc, id, kr, kb, kl);
    if n == id {
      SplitIdGeom(s, anc, align, id, size, asize, kr, kb, kl, s', anc', n);
    } else {
      SplitKeptGeom(s, anc, align, id, size, asize, kr, kb, kl, s', anc', n);
    }
  }

  /// The split leaf itself is tiled by its new children.
  lemma SplitIdGeom(s: Arena, anc: map<nat, set<nat>>, align: nat, id: nat, size: Vec2,
                     asize: Vec2, kr: nat, kb: nat, kl: nat,
                     s': Arena, anc': map<nat, set<nat>>, n: nat)
    requires SplitPre(s, anc, align, id, size, asize, kr, kb, kl)
    requires s' == Split(s, id, size, asize, kr, kb, kl) && anc' == SplitAnc(anc, id, kr, kb, kl)
    requires n == id
    ensures anc'.Keys == s'.Keys && n in s' && GeomNodeOk(s', anc', align, n)
  {
    SplitFacts(s, anc, align, id, size, asize, kr, kb, kl);
    assert GeomNodeOk(s, anc, align, id);
    assert NodeOk(s, anc, id);
    SplitIdTile(s, anc, align, id, size, asize, kr, kb, kl, s');
    forall a | a in anc'[id] && a in s' ensures Inside(s'[id], s'[a]) {
      assert a in s;
      assert Inside(s[id], s[a]);
    }
  }

  lemma SplitIdTile(s: Arena, anc: map<nat, set<nat>>, align: nat, id: nat, size: Vec2,
                    asize: Vec2, kr: nat, kb: nat, kl: nat, s': Arena)
    requires SplitPre(s, anc, align, id, size, asize, kr, kb, kl)
    requires s' == Split(s, id, size, asize, kr, kb, kl)
    ensures id in s' && TileOk(s', id)
  {
    var X := s[id];
    var s1: Arena := if kr != 0 then s[kr := RightStrip(X, asize, id)] else s;
    var s2: Arena := if kb != 0 then s1[kb := BottomStrip(X, asize, id)] else s1;
    assert s' == s2[kl := Node(asize, X.pos, id, Content(size))][id := X.(content := Child(kl, kr, kb, 1))];
    assert kr != 0 ==> s'[kr] == RightStrip(X, asize, id);
    assert kb != 0 ==> s'[kb] == BottomStrip(X, asize, id);
  }

  /// A node other than the split leaf keeps its geometry.
  lemma SplitKeptGeom(s: Arena, anc: map<nat, set<nat>>, align: nat, id: nat, size: Vec2,
                     asize: Vec2, kr: nat, kb: nat, kl: nat,
                     s': Arena, anc': map<nat, set<nat>>, n: nat)
    requires SplitPre(s, anc, align, id, size, asize, kr, kb, kl)
    requires s' == Split(s, id, size, asize, kr, kb, kl) && anc' == SplitAnc(anc, id, kr, kb, kl)
    requires n in s && n != id
    ensures anc'.Keys == s'.Keys && n in s' && GeomNodeOk(s', anc', align, n)
  {
    SplitFacts(s, anc, align, id, size, asize, kr, kb, kl);
    assert GeomNodeOk(s, anc, align, n);
    assert NodeOk(s, anc, n);
    assert s'[n] == s[n] && anc'[n] == anc[n];
    if s[n].content.Child? {
      var Child(cl, cr, cb, _) := s[n].content;
      assert Placed(s, s', cl) && (cr != 0 ==> Placed(s, s', cr)) && (cb != 0 ==> Placed(s, s', cb));
    }
    TileKept(s, s', n);
    forall a | a in anc'[n] && a in s' ensures Inside(s'[n], s'[a]) {
      assert Inside(s[n], s[a]);
    }
  }

  lemma SplitNodes(s: Arena, anc: map<nat, set<nat>>, align: nat, id: nat, size: Vec2,
                   asize: Vec2, kr: nat, kb: nat, kl: nat)
    requires SplitPre(s, anc, align, id, size, asize, kr, kb, kl)
    ensures var s', anc' := Split(s, id, size, asize, kr, kb, kl), SplitAnc(anc, id, kr, kb, kl);
      anc'.Keys == s'.Keys && forall n | n in s' :: GeomNodeOk(s', anc', align, n)
  {
    SplitFacts(s, anc, align, id, size, asize, kr, kb, kl);
    var s' := Split(s, id, size, asize, kr, kb, kl);
    forall n | n in s' ensures GeomNodeOk(s', SplitAnc(anc, id, kr, kb, kl), align, n) {
      if n in s {
        SplitOldGeom(s, anc, align, id, size, asize, kr, kb, kl, n);
      } else {
        SplitFreshGeom(s, anc, align, id, size, asize, kr, kb, kl, n);
      }
    }
  }

  lemma DisjointSym(a: Node, b: Node)
    requires Disjoint(a, b)
    ensures Disjoint(b, a)
  {
  }

  lemma SplitLeaves(s: Arena, anc: map<nat, set<nat>>, align: nat, id: nat, size: Vec2,
                    asize: Vec2, kr: nat, kb: nat, kl: nat)
    requires SplitPre(s, anc, align, id, size, asize, kr, kb, kl)
    ensures var s' := Split(s, id, size, asize, kr, kb, kl);
      forall m, n | m in s' && n in s' :: LeavesApart(s', m, n)
  {
    SplitFacts(s, anc, align, id, size, asize, kr, kb, kl);
    var s' := Split(s, id, size, asize, kr, kb, kl);
    var X := s[id];
    forall m, n | m in s' && n in s' ensures LeavesApart(s', m, n) {
      var fm, fn := m == kl || m == kr || m == kb, n == kl || n == kr || n == kb;
      if m != n && IsLeaf(s'[m]) && IsLeaf(s'[n]) {
        if fm && fn {
          forall x: int, y: int ensures !(InRect(x, y, s'[m]) && InRect(x, y, s'[n])) {
          }
        } else if fm {
          assert LeavesApart(s, id, n);
          InsideDisjoint(s'[m], X, s[n]);
        } else if fn {
          assert LeavesApart(s, id, m);
          InsideDisjoint(s'[n], X, s[m]);
          DisjointSym(s'[n], s[m]);
        } else {
          assert LeavesApart(s, m, n);
        }
      }
    }
  }

  lemma SplitCountAtSplit(s: Arena, anc: map<nat, set<nat>>, align: nat, id: nat, size: Vec2,
                          asize: Vec2, kr: nat, kb: nat, kl: nat)
    requires SplitPre(s, anc, align, id, size, asize, kr, kb, kl)
    ensures var s', anc' := Split(s, id, size, asize, kr, kb, kl), SplitAnc(anc, id, kr, kb, kl);
      anc'.Keys == s'.Keys && id in s' && Under(s', anc', id) == {kl}
  {
    SplitFacts(s, anc, align, id, size, asize, kr, kb, kl);
    var s', anc' := Split(s, id, size, asize, kr, kb, kl), SplitAnc(anc, id, kr, kb, kl);
    forall n | n in Under(s', anc', id) ensures n == kl {
      if n in s && n != id {
        NotBelowLeaf(s, anc, id, n);
      }
    }
    assert NodeOk(s, anc, id);
    assert kl in Under(s', anc', id);
  }

  lemma SplitCountAtOld(s: Arena, anc: map<nat, set<nat>>, align: nat, id: nat, size: Vec2,
                        asize: Vec2, kr: nat, kb: nat, kl: nat, a: nat)
    requires SplitPre(s, anc, align, id, size, asize, kr, kb, kl) && a in s && a != id
    ensures var s', anc' := Split(s, id, size, asize, kr, kb, kl), SplitAnc(anc, id, kr, kb, kl);
      anc'.Keys == s'.Keys &&
      Under(s', anc', a) == Under(s, anc, a) + (if a in anc[id] then {kl} else {})
  {
    SplitFacts(s, anc, align, id, size, asize, kr, kb, kl);
    var s', anc' := Split(s, id, size, asize, kr, kb, kl), SplitAnc(anc, id, kr, kb, kl);
    var U := Under(s, anc, a) + (if a in anc[id] then {kl} else {});
    forall n | n in Under(s', anc', a) ensures n in U {
      if n in s && n != id {
        assert s'[n] == s[n] && anc'[n] == anc[n];
      }
    }
    forall n | n in U ensures n in Under(s', anc', a) {
      if n != kl {
        assert s'[n] == s[n] && anc'[n] == anc[n];
      }
    }
  }

  lemma SplitCountAt(s: Arena, anc: map<nat, set<nat>>, align: nat, id: nat, size: Vec2,
                     asize: Vec2, kr: nat, kb: nat, kl: nat, a: nat)
    requires SplitPre(s, anc, align, id, size, asize, kr, kb, kl) && a in s
    ensures var s', anc' := Split(s, id, size, asize, kr, kb, kl), SplitAnc(anc, id, kr, kb, kl);
      anc'.Keys == s'.Keys && a in s' && CountOk(s', anc', anc[id] - {id}, -1, a)
  {
    SplitFacts(s, anc, align, id, size, asize, kr, kb, kl);
    if a == id {
      assert NodeOk(s, anc, id);
      SplitCountAtSplit(s, anc, align, id, size, asize, kr, kb, kl);
    } else {
      assert CountOk(s, anc, {}, 0, a);
      SplitCountAtOld(s, anc, align, id, size, asize, kr, kb, kl, a);
    }
  }

  lemma SplitCounts(s: Arena, anc: map<nat, set<nat>>, align: nat, id: nat, size: Vec2,
                    asize: Vec2, kr: nat, kb: nat, kl: nat)
    requires SplitPre(s, anc, align, id, size, asize, kr, kb, kl)
    ensures var s', anc' := Split(s, id, size, asize, kr, kb, kl), SplitAnc(anc, id, kr, kb, kl);
      var p := s[id].parent;
      anc'.Keys == s'.Keys && (p == 0 || (p in s' && s'[p].content.Child? && p in anc')) &&
      CountsOk(s', anc', Chain(anc', p), -1)
  {
    SplitFacts(s, anc, align, id, size, asize, kr, kb, kl);
    var s', anc' := Split(s, id, size, asize, kr, kb, kl), SplitAnc(anc, id, kr, kb, kl);
    var p := s[id].parent;
    assert NodeOk(s, anc, id);
    assert Chain(anc', p) == anc[id] - {id};
    forall a | a in s' ensures CountOk(s', anc', anc[id] - {id}, -1, a) {
      SplitCountNode(s, anc, align, id, size, asize, kr, kb, kl, s', anc', a);
    }
  }

  lemma SplitCountNode(s: Arena, anc: map<nat, set<nat>>, align: nat, id: nat, size: Vec2,
                       asize: Vec2, kr: nat, kb: nat, kl: nat,
                       s': Arena, anc': map<nat, set<nat>>, a: nat)
    requires SplitPre(s, anc, align, id, size, asize, kr, kb, kl)
    requires s' == Split(s, id, size, asize, kr, kb, kl) && anc' == SplitAnc(anc, id, kr, kb, kl)
    requires a in s'
    ensures anc'.Keys == s'.Keys && CountOk(s', anc', anc[id] - {id}, -1, a)
  {
    if a in s {
      SplitCountAt(s, anc, align, id, size, asize, kr, kb, kl, a);
    } else {
      SplitFacts(s, anc, align, id, size, asize, kr, kb, kl);
      assert !s'[a].content.Child?;
    }
  }

  /** When `attempt_defrag` reaches inner node `id` holding its last rectangle:
      the counts along the way up from `id` are one over. */
  ghost predicate CollapsePre(s: Arena, anc: map<nat, set<nat>>, align: nat, id: nat) {
    ShapeOk(s, anc) && GeomOk(s, anc, align) && id in s && s[id].content.Child? &&
    s[id].content.count == 1 && CountsOk(s, anc, Chain(anc, id), 1)
  }

  /** The children `attempt_defrag` frees with node `id`. */
  function Kids(s: Arena, id: nat): set<nat>
    requires id in s && s[id].content.Child?
  {
    {s[id].content.left, s[id].content.right, s[id].content.bottom}
  }

  /** What `attempt_defrag` makes of that node: a free leaf, its children gone
      from the slab. */
  ghost function Collapse(s: Arena, id: nat): Arena
    requires id in s && s[id].content.Child?
  {
    s[id := s[id].(content := Empty)] - Kids(s, id)
  }

  /** Nothing is left beneath the collapsing node, and its children are free
      leaves. */
  lemma CollapseKid(s: Arena, anc: map<nat, set<nat>>, align: nat, id: nat, k: nat)
    requires CollapsePre(s, anc, align, id) && ChildOf(s, k, id)
    ensures Under(s, anc, id) == {}
    ensures k in s && s[k].content == Empty && s[k].parent == id
  {
    assert NodeOk(s, anc, id);
    assert CountOk(s, anc, Chain(anc, id), 1, id);
    ChildAnc(s, anc, id, k);
    assert NodeOk(s, anc, k);
    assert CountOk(s, anc, Chain(anc, id), 1, k);
    if s[k].content.Child? {
      var n :| n in Under(s, anc, k);
      AncTrans(s, anc, k, n);
    }
  }

  /** The nodes that stay: none of them is one of the freed children, lies
      beneath `id`, or lists a freed child. */
  lemma CollapseStays(s: Arena, anc: map<nat, set<nat>>, align: nat, id: nat, n: nat)
    requires CollapsePre(s, anc, align, id) && n in s && n !in Kids(s, id)
    ensures forall a | a in anc[n] :: a !in Kids(s, id)
    ensures n != id ==> id !in anc[n]
    ensures n != ROOT ==> s[n].parent != id && s[n].parent !in Kids(s, id)
    ensures n != id && s[n].content.Child? ==>
      s[n].content.left !in Kids(s, id) &&
      (s[n].content.right != 0 ==> s[n].content.right !in Kids(s, id)) &&
      (s[n].content.bottom != 0 ==> s[n].content.bottom !in Kids(s, id))
  {
    var Child(l, r, b, _) := s[id].content;
    assert NodeOk(s, anc, n);
    assert NodeOk(s, anc, id);
    CollapseKid(s, anc, align, id, l);
    if r != 0 { CollapseKid(s, anc, align, id, r); }
    if b != 0 { CollapseKid(s, anc, align, id, b); }
    if n != id && id in anc[n] {
      var c := PathThroughChild(s, anc, id, n);
    }
  }

  lemma CollapseShape(s: Arena, anc: map<nat, set<nat>>, align: nat, id: nat)
    requires CollapsePre(s, anc, align, id)
    ensures ShapeOk(Collapse(s, id), anc - Kids(s, id))
  {
    var s', anc' := Collapse(s, id), anc - Kids(s, id);
    var K := Kids(s, id);
    assert NodeOk(s, anc, id);
    ChildAnc(s, anc, id, s[id].content.left);
    assert ROOT !in K by {
      if s[id].content.right != 0 { ChildAnc(s, anc, id, s[id].content.right); }
      if s[id].content.bottom != 0 { ChildAnc(s, anc, id, s[id].content.bottom); }
    }
    forall n | n in s' ensures NodeOk(s', anc', n) {
      CollapseNodeShape(s, anc, align, id, s', anc', n);
    }
  }

  /** A node that stays after the collapse stays well linked. */
  lemma CollapseNodeShape(s: Arena, anc: map<nat, set<nat>>, align: nat, id: nat,
                          s': Arena, anc': map<nat, set<nat>>, n: nat)
    requires CollapsePre(s, anc, align, id) && ROOT !in Kids(s, id)
    requires s' == Collapse(s, id) && anc' == anc - Kids(s, id) && n in s'
    ensures anc'.Keys == s'.Keys && NodeOk(s', anc', n)
  {
    CollapseStays(s, anc, align, id, n);
    assert NodeOk(s, anc, n);
    if n != ROOT && n != id {
      var p := s[n].parent;
      assert s'[p] == s[p];
    }
    forall a | a in anc'[n] && a != n ensures a in s' && s'[a].content.Child? {
    }
  }

  lemma CollapseNodes(s: Arena, anc: map<nat, set<nat>>, align: nat, id: nat)
    requires CollapsePre(s, anc, align, id)
    ensures var s', anc' := Collapse(s, id), anc - Kids(s, id);
      anc'.Keys == s'.Keys && forall n | n in s' :: GeomNodeOk(s', anc', align, n)
  {
    var s', anc' := Collapse(s, id), anc - Kids(s, id);
    forall n | n in s' ensures GeomNodeOk(s', anc', align, n) {
      CollapseStays(s, anc, align, id, n);
      assert GeomNodeOk(s, anc, align, n);
      forall a | a in anc'[n] && a in s' ensures Inside(s'[n], s'[a]) {
      }
    }
  }

  /** The freed node covers only cells of its free children, so it overlaps no
      other leaf. */
  lemma CollapsedApart(s: Arena, anc: map<nat, set<nat>>, align: nat, id: nat, n: nat)
    requires CollapsePre(s, anc, align, id) && n in s && n != id && n !in Kids(s, id) && IsLeaf(s[n])
    ensures Disjoint(s[id], s[n])
  {
    var Child(l, r, b, _) := s[id].content;
    assert GeomNodeOk(s, anc, align, id);
    CollapseKid(s, anc, align, id, l);
    if r != 0 { CollapseKid(s, anc, align, id, r); }
    if b != 0 { CollapseKid(s, anc, align, id, b); }
    assert LeavesApart(s, l, n);
    assert r != 0 ==> LeavesApart(s, r, n);
    assert b != 0 ==> LeavesApart(s, b, n);
    forall x: int, y: int ensures !(InRect(x, y, s[id]) && InRect(x, y, s[n])) {
      if InRect(x, y, s[id]) {
        TileCover(s, id, x, y);
      }
    }
  }

  lemma CollapseLeaves(s: Arena, anc: map<nat, set<nat>>, align: nat, id: nat)
    requires CollapsePre(s, anc, align, id)
    ensures var s' := Collapse(s, id);
      forall m, n | m in s' && n in s' :: LeavesApart(s', m, n)
  {
    var s' := Collapse(s, id);
    forall m, n | m in s' && n in s' ensures LeavesApart(s', m, n) {
      if m != n && IsLeaf(s'[m]) && IsLeaf(s'[n]) {
        if m == id {
          CollapsedApart(s, anc, align, id, n);
          SameRectDisjoint(s[id], s'[m], s[n], s'[n]);
        } else if n == id {
          CollapsedApart(s, anc, align, id, m);
          DisjointSym(s[id], s[m]);
          SameRectDisjoint(s[m], s'[m], s[id], s'[n]);
        } else {
          assert LeavesApart(s, m, n);
        }
      }
    }
  }

  /** The rectangles beneath each remaining node stay as they were. */
  lemma CollapseUnder(s: Arena, anc: map<nat, set<nat>>, align: nat, id: nat)
    requires CollapsePre(s, anc, align, id)
    ensures var s', anc' := Collapse(s, id), anc - Kids(s, id);
      anc'.Keys == s'.Keys && forall a :: Under(s', anc', a) == Under(s, anc, a)
  {
    var s', anc' := Collapse(s, id), anc - Kids(s, id);
    var Child(l, r, b, _) := s[id].content;
    assert NodeOk(s, anc, id);
    CollapseKid(s, anc, align, id, l);
    if r != 0 { CollapseKid(s, anc, align, id, r); }
    if b != 0 { CollapseKid(s, anc, align, id, b); }
    forall a ensures Under(s', anc', a) == Under(s, anc, a) {
      forall n | n in Under(s, anc, a) ensures n in Under(s', anc', a) {
      }
    }
  }

  lemma CollapseCounts(s: Arena, anc: map<nat, set<nat>>, align: nat, id: nat)
    requires CollapsePre(s, anc, align, id)
    ensures var s', anc' := Collapse(s, id), anc - Kids(s, id);
      var p := s[id].parent;
      anc'.Keys == s'.Keys && (p == 0 || (p in s' && s'[p].content.Child? && p in anc')) &&
      CountsOk(s', anc', Chain(anc', p), 1)
  {
    var s', anc' := Collapse(s, id), anc - Kids(s, id);
    var p := s[id].parent;
    assert NodeOk(s, anc, id);
    if p != 0 {
      var Child(l, r, b, _) := s[id].content;
      ChildAnc(s, anc, id, l);
      if r != 0 { ChildAnc(s, anc, id, r); }
      if b != 0 { ChildAnc(s, anc, id, b); }
      assert NodeOk(s, anc, p);
      assert p in anc[id];
      CollapseStays(s, anc, align, id, p);
    }
    assert Chain(anc', p) == Chain(anc, id) - {id};
    CollapseUnder(s, anc, align, id);
    forall a | a in s' ensures CountOk(s', anc', Chain(anc', p), 1, a) {
      assert CountOk(s, anc, Chain(anc, id), 1, a);
    }
  }

  /** When `extends` may grow a split root to `w` by `h`: the new keys are fresh
      and distinct, and a strip is made on each axis that grows. */
  ghost predicate GrowPre(s: Arena, anc: map<nat, set<nat>>, align: nat, w: nat, h: nat,
                          kr: nat, kb: nat, kl: nat)
  {
    MapOk(s, anc, align) && s[ROOT].content.Child? &&
    s[ROOT].size.x <= w && s[ROOT].size.y <= h && w % align == 0 && h % align == 0 &&
    (kr != 0 <==> w > s[ROOT].size.x) && (kb != 0 <==> h > s[ROOT].size.y) &&
    kl != 0 && kl !in s && kr !in s && kb !in s && kl != kr && kl != kb && (kr != 0 ==> kr != kb)
  }

  /** The keys `extends` adds. */
  function NewKeys(kr: nat, kb: nat, kl: nat): set<nat> {
    {kl} + (if kr != 0 then {kr} else {}) + (if kb != 0 then {kb} else {})
  }

  /** What `extends` makes of a split root: the old root moves to key `kl` as
      the new root's left child, its children now hang below `kl`, and the new
      root of size `w` by `h` lists `kl` and the new right and bottom strips. */
  ghost function Grow(s: Arena, w: nat, h: nat, kr: nat, kb: nat, kl: nat): Arena
    requires ROOT in s && s[ROOT].content.Child? && s[ROOT].size.x <= w && s[ROOT].size.y <= h
  {
    var O := s[ROOT];
    var Child(l, r, b, c) := O.content;
    var s3 := GrowStrips(s, w, h, kr, kb)[kl := Node(O.size, Vec2(0, 0), ROOT, O.content)];
    var s4 := if l in s3 then s3[l := s3[l].(parent := kl)] else s3;
    var s5 := if r != 0 && r in s4 then s4[r := s4[r].(parent := kl)] else s4;
    var s6 := if b != 0 && b in s5 then s5[b := s5[b].(parent := kl)] else s5;
    s6[ROOT := O.(size := Vec2(w, h), content := Child(kl, kr, kb, c))]
  }

  /** The free strips `extends` adds right of and below the old root. */
  ghost function GrowStrips(s: Arena, w: nat, h: nat, kr: nat, kb: nat): Arena
    requires ROOT in s && s[ROOT].size.x <= w && s[ROOT].size.y <= h
  {
    var S := s[ROOT].size;
    var s1 := if kr != 0 then s[kr := Node(Vec2(w - S.x, S.y), Vec2(S.x, 0), ROOT, Empty)] else s;
    if kb != 0 then s1[kb := Node(Vec2(w, h - S.y), Vec2(0, S.y), ROOT, Empty)] else s1
  }

  /** The ancestors after `extends`: every old node but the root also sits
      below `kl`. */
  ghost function GrowAnc(anc: map<nat, set<nat>>, kr: nat, kb: nat, kl: nat): map<nat, set<nat>>
  {
    var a0 := map n | n in anc :: if n == ROOT then anc[n] else anc[n] + {kl};
    var a1 := if kr != 0 then a0[kr := {ROOT, kr}] else a0;
    var a2 := if kb != 0 then a1[kb := {ROOT, kb}] else a1;
    a2[kl := {ROOT, kl}]
  }

  /** The fresh keys and the root's children, as far as `Grow` needs them. */
  predicate GrowKeysOk(s: Arena, w: nat, h: nat, kr: nat, kb: nat, kl: nat) {
    ROOT in s && s[ROOT].content.Child? && s[ROOT].size.x <= w && s[ROOT].size.y <= h &&
    (var Child(l, r, b, _) := s[ROOT].content;
     l in s && (r != 0 ==> r in s) && (b != 0 ==> b in s) && l != ROOT && r != ROOT && b != ROOT) &&
    kl != 0 && kl !in s && kr !in s && kb !in s && kl != kr && kl != kb && (kr != 0 ==> kr != kb)
  }

  lemma GrowKeys(s: Arena, w: nat, h: nat, kr: nat, kb: nat, kl: nat)
    requires GrowKeysOk(s, w, h, kr, kb, kl)
    ensures var s' := Grow(s, w, h, kr, kb, kl);
      var O, S := s[ROOT], s[ROOT].size;
      var Child(l, r, b, _) := O.content;
      s'.Keys == s.Keys + NewKeys(kr, kb, kl) &&
      s'[ROOT] == O.(size := Vec2(w, h), content := Child(kl, kr, kb, O.content.count)) &&
      s'[kl] == Node(S, Vec2(0, 0), ROOT, O.content) &&
      (kr != 0 ==> s'[kr] == Node(Vec2(w - S.x, S.y), Vec2(S.x, 0), ROOT, Empty)) &&
      (kb != 0 ==> s'[kb] == Node(Vec2(w, h - S.y), Vec2(0, S.y), ROOT, Empty)) &&
      forall n | n in s && n != ROOT ::
        s'[n] == if n == l || (r != 0 && n == r) || (b != 0 && n == b) then s[n].(parent := kl) else s[n]
  {
  }

  lemma GrowAncKeys(anc: map<nat, set<nat>>, kr: nat, kb: nat, kl: nat)
    requires kl != 0 && kl !in anc && kr !in anc && kb !in anc
    ensures var anc' := GrowAnc(anc, kr, kb, kl);
      anc'.Keys == anc.Keys + NewKeys(kr, kb, kl) &&
      (ROOT in anc ==> anc'[ROOT] == anc[ROOT]) && anc'[kl] == {ROOT, kl} &&
      (kr != 0 ==> anc'[kr] == {ROOT, kr}) && (kb != 0 ==> anc'[kb] == {ROOT, kb}) &&
      forall n | n in anc && n != ROOT :: anc'[n] == anc[n] + {kl}
  {
  }

  /** What `extends` on a split root does, node by node: `s2`, `anc2` are the
      map and the ancestors afterwards. */
  ghost predicate Grown(s: Arena, anc: map<nat, set<nat>>, w: nat, h: nat, kr: nat, kb: nat, kl: nat,
                        s2: Arena, anc2: map<nat, set<nat>>)
    requires ROOT in s && s[ROOT].content.Child? && s[ROOT].size.x <= w && s[ROOT].size.y <= h
  {
    var O, S := s[ROOT], s[ROOT].size;
    s2.Keys == s.Keys + NewKeys(kr, kb, kl) && anc2.Keys == s2.Keys &&
    s2[ROOT] == O.(size := Vec2(w, h), content := Child(kl, kr, kb, O.content.count)) &&
    anc2[ROOT] == {ROOT} &&
    s2[kl] == Node(S, Vec2(0, 0), ROOT, O.content) && anc2[kl] == {ROOT, kl} &&
    (kr != 0 ==> s2[kr] == Node(Vec2(w - S.x, S.y), Vec2(S.x, 0), ROOT, Empty) && anc2[kr] == {ROOT, kr}) &&
    (kb != 0 ==> s2[kb] == Node(Vec2(w, h - S.y), Vec2(0, S.y), ROOT, Empty) && anc2[kb] == {ROOT, kb}) &&
    forall n | n in s && n != ROOT ::
      n in anc && anc2[n] == anc[n] + {kl} &&
      s2[n] == if s[n].parent == ROOT then s[n].(parent := kl) else s[n]
  }

  lemma GrowFacts(s: Arena, anc: map<nat, set<nat>>, align: nat, w: nat, h: nat, kr: nat, kb: nat, kl: nat)
    requires GrowPre(s, anc, align, w, h, kr, kb, kl)
    ensures Grown(s, anc, w, h, kr, kb, kl, Grow(s, w, h, kr, kb, kl), GrowAnc(anc, kr, kb, kl))
  {
    assert NodeOk(s, anc, ROOT);
    assert GrowKeysOk(s, w, h, kr, kb, kl);
    GrowKeys(s, w, h, kr, kb, kl);
    GrowAncKeys(anc, kr, kb, kl);
    var s' := Grow(s, w, h, kr, kb, kl);
    forall n | n in s && n != ROOT
      ensures s'[n] == if s[n].parent == ROOT then s[n].(parent := kl) else s[n]
    {
      assert NodeOk(s, anc, n);
    }
  }

  /** The new nodes of the grown tree are well linked. */
  lemma GrowNewShape(s: Arena, anc: map<nat, set<nat>>, align: nat, w: nat, h: nat,
                     kr: nat, kb: nat, kl: nat, s': Arena, anc': map<nat, set<nat>>, n: nat)
    requires GrowPre(s, anc, align, w, h, kr, kb, kl) && Grown(s, anc, w, h, kr, kb, kl, s', anc')
    requires n == ROOT || n in NewKeys(kr, kb, kl)
    ensures n in s' && NodeOk(s', anc', n)
  {
    assert NodeOk(s, anc, ROOT);
    var l := s[ROOT].content.left;
    assert NodeOk(s, anc, l);
  }

  /** The old nodes of the grown tree stay well linked. */
  lemma GrowOldShape(s: Arena, anc: map<nat, set<nat>>, align: nat, w: nat, h: nat,
                     kr: nat, kb: nat, kl: nat, s': Arena, anc': map<nat, set<nat>>, n: nat)
    requires GrowPre(s, anc, align, w, h, kr, kb, kl) && Grown(s, anc, w, h, kr, kb, kl, s', anc')
    requires n in s && n != ROOT
    ensures n in s' && NodeOk(s', anc', n)
  {
    assert NodeOk(s, anc, n);
    var p := s[n].parent;
    if p == ROOT {
      assert anc[n] == {ROOT, n};
    } else {
      assert NodeOk(s, anc, p);
    }
    assert ParentOk(s', anc', n);
    if s[n].content.Child? {
      var Child(cl, cr, cb, _) := s[n].content;
      assert NodeOk(s, anc, cl);
      if cr != 0 { assert NodeOk(s, anc, cr); }
      if cb != 0 { assert NodeOk(s, anc, cb); }
    }
    assert LinksOk(s', n);
    forall a | a in anc'[n] && a != n ensures a in s' && s'[a].content.Child? {
      if a != kl && a != ROOT {
        assert a in anc[n];
      }
    }
  }

  lemma GrowNodeShape(s: Arena, anc: map<nat, set<nat>>, align: nat, w: nat, h: nat,
                      kr: nat, kb: nat, kl: nat, s': Arena, anc': map<nat, set<nat>>, n: nat)
    requires GrowPre(s, anc, align, w, h, kr, kb, kl) && Grown(s, anc, w, h, kr, kb, kl, s', anc')
    requires n in s'
    ensures NodeOk(s', anc', n)
  {
    if n == ROOT || n in NewKeys(kr, kb, kl) {
      GrowNewShape(s, anc, align, w, h, kr, kb, kl, s', anc', n);
    } else {
      GrowOldShape(s, anc, align, w, h, kr, kb, kl, s', anc', n);
    }
  }

  lemma GrowShape(s: Arena, anc: map<nat, set<nat>>, align: nat, w: nat, h: nat, kr: nat, kb: nat, kl: nat)
    requires GrowPre(s, anc, align, w, h, kr, kb, kl)
    ensures ShapeOk(Grow(s, w, h, kr, kb, kl), GrowAnc(anc, kr, kb, kl))
  {
    GrowFacts(s, anc, align, w, h, kr, kb, kl);
    var s', anc' := Grow(s, w, h, kr, kb, kl), GrowAnc(anc, kr, kb, kl);
    forall n | n in s' ensures NodeOk(s', anc', n) {
      GrowNodeShape(s, anc, align, w, h, kr, kb, kl, s', anc', n);
    }
  }

  /** The root and the new nodes of the grown tree tile as they should. */
  lemma GrowNewGeom(s: Arena, anc: map<nat, set<nat>>, align: nat, w: nat, h: nat,
                    kr: nat, kb: nat, kl: nat, s': Arena, anc': map<nat, set<nat>>, n: nat)
    requires GrowPre(s, anc, align, w, h, kr, kb, kl) && Grown(s, anc, w, h, kr, kb, kl, s', anc')
    requires n == ROOT || n in NewKeys(kr, kb, kl)
    ensures n in s' && GeomNodeOk(s', anc', align, n)
  {
    if n == ROOT {
      GrowRootGeom(s, anc, align, w, h, kr, kb, kl, s', anc', n);
    } else if n == kl {
      GrowLeftGeom(s, anc, align, w, h, kr, kb, kl, s', anc', n);
    } else {
      GrowStripGeom(s, anc, align, w, h, kr, kb, kl, s', anc', n);
    }
  }

  /** The new root is tiled by the moved old root and the new strips. */
  lemma GrowRootGeom(s: Arena, anc: map<nat, set<nat>>, align: nat, w: nat, h: nat,
                    kr: nat, kb: nat, kl: nat, s': Arena, anc': map<nat, set<nat>>, n: nat)
    requires GrowPre(s, anc, align, w, h, kr, kb, kl) && Grown(s, anc, w, h, kr, kb, kl, s', anc')
    requires n == ROOT
    ensures n in s' && GeomNodeOk(s', anc', align, n)
  {
    assert GeomNodeOk(s, anc, align, ROOT);
    assert TileOk(s', ROOT);
  }

  /** The moved old root keeps its size and its children, and lies in the
      new root. */
  lemma GrowLeftGeom(s: Arena, anc: map<nat, set<nat>>, align: nat, w: nat, h: nat,
                    kr: nat, kb: nat, kl: nat, s': Arena, anc': map<nat, set<nat>>, n: nat)
    requires GrowPre(s, anc, align, w, h, kr, kb, kl) && Grown(s, anc, w, h, kr, kb, kl, s', anc')
    requires n == kl
    ensures n in s' && GeomNodeOk(s', anc', align, n)
  {
    assert GeomNodeOk(s, anc, align, ROOT);
    assert NodeOk(s, anc, ROOT);
    assert TileOk(s, ROOT);
    var Child(l, r, b, _) := s[ROOT].content;
    assert s'[l].pos == s[l].pos && s'[l].size == s[l].size;
    assert r != 0 ==> s'[r].pos == s[r].pos && s'[r].size == s[r].size;
    assert b != 0 ==> s'[b].pos == s[b].pos && s'[b].size == s[b].size;
    assert TileOk(s', kl);
  }

  /** A new strip is aligned and lies in the new root. */
  lemma GrowStripGeom(s: Arena, anc: map<nat, set<nat>>, align: nat, w: nat, h: nat,
                    kr: nat, kb: nat, kl: nat, s': Arena, anc': map<nat, set<nat>>, n: nat)
    requires GrowPre(s, anc, align, w, h, kr, kb, kl) && Grown(s, anc, w, h, kr, kb, kl, s', anc')
    requires n != 0 && (n == kr || n == kb) && n != kl
    ensures n in s' && GeomNodeOk(s', anc', align, n)
  {
    var S := s[ROOT].size;
    assert GeomNodeOk(s, anc, align, ROOT);
    if n == kr {
      MultiplesGap(align, w, S.x);
    } else {
      MultiplesGap(align, h, S.y);
    }
  }

  /** Node `c` is in both maps, at the same place and of the same size. */
  predicate Placed(s: Arena, s': Arena, c: nat) {
    c in s && c in s' && s'[c].pos == s[c].pos && s'[c].size == s[c].size
  }

  /** A node that keeps its place and its children, whose children keep theirs,
      stays tiled. */
  lemma TileKept(s: Arena, s': Arena, n: nat)
    requires n in s && TileOk(s, n) && Placed(s, s', n) && s'[n].content == s[n].content
    requires s[n].content.Child? ==>
      var Child(l, r, b, _) := s[n].content;
      Placed(s, s', l) && (r != 0 ==> Placed(s, s', r)) && (b != 0 ==> Placed(s, s', b))
    ensures TileOk(s', n)
  {
  }

  /** An old node of the grown tree keeps its geometry, and lies inside the
      moved old root and the larger new root. */
  lemma GrowOldGeom(s: Arena, anc: map<nat, set<nat>>, align: nat, w: nat, h: nat,
                    kr: nat, kb: nat, kl: nat, s': Arena, anc': map<nat, set<nat>>, n: nat)
    requires GrowPre(s, anc, align, w, h, kr, kb, kl) && Grown(s, anc, w, h, kr, kb, kl, s', anc')
    requires n in s && n != ROOT
    ensures n in s' && GeomNodeOk(s', anc', align, n)
  {
    assert NodeOk(s, anc, n);
    assert GeomNodeOk(s, anc, align, n);
    if s[n].content.Child? {
      var Child(cl, cr, cb, _) := s[n].content;
      assert NodeOk(s, anc, cl);
      if cr != 0 { assert NodeOk(s, anc, cr); }
      if cb != 0 { assert NodeOk(s, anc, cb); }
      assert Placed(s, s', cl) && (cr != 0 ==> Placed(s, s', cr)) && (cb != 0 ==> Placed(s, s', cb));
    }
    TileKept(s, s', n);
    forall a | a in anc'[n] && a in s' ensures Inside(s'[n], s'[a]) {
      if a != kl && a != ROOT {
        assert a in anc[n];
      }
    }
  }

  lemma GrowNodeGeom(s: Arena, anc: map<nat, set<nat>>, align: nat, w: nat, h: nat,
                     kr: nat, kb: nat, kl: nat, s': Arena, anc': map<nat, set<nat>>, n: nat)
    requires GrowPre(s, anc, align, w, h, kr, kb, kl) && Grown(s, anc, w, h, kr, kb, kl, s', anc')
    requires n in s'
    ensures GeomNodeOk(s', anc', align, n)
  {
    if n == ROOT || n in NewKeys(kr, kb, kl) {
      GrowNewGeom(s, anc, align, w, h, kr, kb, kl, s', anc', n);
    } else {
      GrowOldGeom(s, anc, align, w, h, kr, kb, kl, s', anc', n);
    }
  }

  lemma GrowNodes(s: Arena, anc: map<nat, set<nat>>, align: nat, w: nat, h: nat, kr: nat, kb: nat, kl: nat)
    requires GrowPre(s, anc, align, w, h, kr, kb, kl)
    ensures var s', anc' := Grow(s, w, h, kr, kb, kl), GrowAnc(anc, kr, kb, kl);
      anc'.Keys == s'.Keys && forall n | n in s' :: GeomNodeOk(s', anc', align, n)
  {
    GrowFacts(s, anc, align, w, h, kr, kb, kl);
    var s', anc' := Grow(s, w, h, kr, kb, kl), GrowAnc(anc, kr, kb, kl);
    forall n | n in s' ensures GeomNodeOk(s', anc', align, n) {
      GrowNodeGeom(s, anc, align, w, h, kr, kb, kl, s', anc', n);
    }
  }

  lemma GrowApart(s: Arena, anc: map<nat, set<nat>>, align: nat, w: nat, h: nat,
                  kr: nat, kb: nat, kl: nat, s': Arena, anc': map<nat, set<nat>>)
    requires GrowPre(s, anc, align, w, h, kr, kb, kl) && Grown(s, anc, w, h, kr, kb, kl, s', anc')
    ensures forall m, n | m in s' && n in s' :: LeavesApart(s', m, n)
  {
    forall m, n | m in s' && n in s' ensures LeavesApart(s', m, n) {
      if m != n && IsLeaf(s'[m]) && IsLeaf(s'[n]) {
        var fm, fn := m in NewKeys(kr, kb, kl), n in NewKeys(kr, kb, kl);
        if !fm && !fn {
          assert LeavesApart(s, m, n);
          SameRectDisjoint(s[m], s'[m], s[n], s'[n]);
        } else if !fm {
          assert NodeOk(s, anc, m);
          assert GeomNodeOk(s, anc, align, m);
          assert Inside(s[m], s[ROOT]);
        } else if !fn {
          assert NodeOk(s, anc, n);
          assert GeomNodeOk(s, anc, align, n);
          assert Inside(s[n], s[ROOT]);
        }
      }
    }
  }

  lemma GrowLeaves(s: Arena, anc: map<nat, set<nat>>, align: nat, w: nat, h: nat, kr: nat, kb: nat, kl: nat)
    requires GrowPre(s, anc, align, w, h, kr, kb, kl)
    ensures var s' := Grow(s, w, h, kr, kb, kl);
      forall m, n | m in s' && n in s' :: LeavesApart(s', m, n)
  {
    GrowFacts(s, anc, align, w, h, kr, kb, kl);
    GrowApart(s, anc, align, w, h, kr, kb, kl, Grow(s, w, h, kr, kb, kl), GrowAnc(anc, kr, kb, kl));
  }

  /** The root and `kl` both hold every rectangle. */
  lemma GrowUnderTop(s: Arena, anc: map<nat, set<nat>>, align: nat, w: nat, h: nat,
                     kr: nat, kb: nat, kl: nat, s': Arena, anc': map<nat, set<nat>>, a: nat)
    requires GrowPre(s, anc, align, w, h, kr, kb, kl) && Grown(s, anc, w, h, kr, kb, kl, s', anc')
    requires a == ROOT || a == kl
    ensures Under(s', anc', a) == Under(s, anc, ROOT)
  {
    forall n | n in Under(s, anc, ROOT) ensures n in Under(s', anc', a) {
      assert NodeOk(s, anc, n);
    }
    forall n | n in Under(s', anc', a) ensures n in Under(s, anc, ROOT) {
      assert n in s && n != ROOT;
      assert NodeOk(s, anc, n);
    }
  }

  lemma GrowUnder(s: Arena, anc: map<nat, set<nat>>, align: nat, w: nat, h: nat,
                  kr: nat, kb: nat, kl: nat, s': Arena, anc': map<nat, set<nat>>, a: nat)
    requires GrowPre(s, anc, align, w, h, kr, kb, kl) && Grown(s, anc, w, h, kr, kb, kl, s', anc')
    requires a in s'
    ensures CountOk(s', anc', {}, 0, a)
  {
    if a == ROOT || a == kl {
      assert CountOk(s, anc, {}, 0, ROOT);
      GrowUnderTop(s, anc, align, w, h, kr, kb, kl, s', anc', a);
    } else if a in s {
      assert CountOk(s, anc, {}, 0, a);
      assert Under(s', anc', a) == Under(s, anc, a);
    }
  }

  lemma GrowCounts(s: Arena, anc: map<nat, set<nat>>, align: nat, w: nat, h: nat, kr: nat, kb: nat, kl: nat)
    requires GrowPre(s, anc, align, w, h, kr, kb, kl)
    ensures var s', anc' := Grow(s, w, h, kr, kb, kl), GrowAnc(anc, kr, kb, kl);
      anc'.Keys == s'.Keys && CountsOk(s', anc', {}, 0)
  {
    GrowFacts(s, anc, align, w, h, kr, kb, kl);
    var s', anc' := Grow(s, w, h, kr, kb, kl), GrowAnc(anc, kr, kb, kl);
    forall a | a in s' ensures CountOk(s', anc', {}, 0, a) {
      GrowUnder(s, anc, align, w, h, kr, kb, kl, s', anc', a);
    }
  }

  /** `extends` on a map holding nothing: the root leaf takes the new size. */
  lemma GrowLeaf(s: Arena, anc: map<nat, set<nat>>, align: nat, w: nat, h: nat)
    requires MapOk(s, anc, align) && s[ROOT].content.Empty? && w % align == 0 && h % align == 0
    ensures MapOk(s[ROOT := s[ROOT].(size := Vec2(w, h))], anc, align)
    ensures s.Keys == {ROOT}
    ensures forall n :: Lookup(s[ROOT := s[ROOT].(size := Vec2(w, h))], n) == Lookup(s, n)
  {
    forall n | n in s ensures n == ROOT {
      assert NodeOk(s, anc, n);
    }
    var s' := s[ROOT := s[ROOT].(size := Vec2(w, h))];
    assert NodeOk(s, anc, ROOT);
    assert NodeOk(s', anc, ROOT);
    assert GeomNodeOk(s', anc, align, ROOT);
    assert LeavesApart(s', ROOT, ROOT);
    assert CountOk(s', anc, {}, 0, ROOT);
  }

  /** In a well-shaped tree every inner node holds a rectangle, so each node
      keeps its own frame. */
  lemma FrameRefl(s: Arena, anc: map<nat, set<nat>>)
    requires ShapeOk(s, anc)
    ensures forall n | n in s :: SameButCount(s[n], s[n])
  {
    forall n | n in s ensures SameButCount(s[n], s[n]) {
      assert NodeOk(s, anc, n);
    }
  }

  /** The rectangle placed under `id`, with its position, if any. */
  function Lookup(s: Arena, id: nat): (r: Option<(Vec2, Vec2)>)
    ensures r.Some? <==> id in Contents(s)
    ensures r.Some? ==> r.value == (s[id].content.size, s[id].pos)
  {
    if id in s && s[id].content.Content? then Some((s[id].content.size, s[id].pos)) else None
  }

  /** A count update changes no rectangle. */
  lemma RecountLookup(s: Arena, s': Arena)
    requires s'.Keys == s.Keys && forall n | n in s :: SameButCount(s[n], s'[n])
    ensures forall n :: Lookup(s', n) == Lookup(s, n)
    ensures ROOT in s ==> s'[ROOT].size == s[ROOT].size
  {
    forall n ensures Lookup(s', n) == Lookup(s, n) {
      if n in s {
        assert SameButCount(s[n], s'[n]);
      }
    }
  }

  /** Filling free leaf `id` places exactly one rectangle. */
  lemma PlaceLookup(s: Arena, id: nat, size: Vec2)
    requires id in s && s[id].content == Empty
    ensures var s' := s[id := s[id].(content := Content(size))];
      Lookup(s, id) == None && Lookup(s', id) == Some((size, s[id].pos)) &&
      forall n | n != id :: Lookup(s', n) == Lookup(s, n)
  {
  }

  /** Splitting free leaf `id` places exactly one rectangle, under `kl`. */
  lemma SplitLookup(s: Arena, anc: map<nat, set<nat>>, align: nat, id: nat, size: Vec2,
                    asize: Vec2, kr: nat, kb: nat, kl: nat)
    requires SplitPre(s, anc, align, id, size, asize, kr, kb, kl)
    ensures var s' := Split(s, id, size, asize, kr, kb, kl);
      Lookup(s, kl) == None && Lookup(s', kl) == Some((size, s[id].pos)) &&
      (forall n | n != kl :: Lookup(s', n) == Lookup(s, n)) &&
      s'[ROOT].size == s[ROOT].size
  {
    var s' := Split(s, id, size, asize, kr, kb, kl);
    SplitFacts(s, anc, align, id, size, asize, kr, kb, kl);
    assert NodeOk(s, anc, ROOT);
    forall n | n != kl
      ensures Lookup(s', n) == Lookup(s, n)
    {
      SplitLookupAt(s, s', id, kr, kb, kl, n);
    }
  }

  /** A node the split did not create as the new leaf shows the same
      rectangle, or none, as before. */
  lemma SplitLookupAt(s: Arena, s': Arena, id: nat, kr: nat, kb: nat, kl: nat, n: nat)
    requires id in s && s[id].content == Empty && n != kl
    requires s'.Keys == s.Keys + {kl} + (if kr != 0 then {kr} else {}) + (if kb != 0 then {kb} else {})
    requires s'[id].content.Child?
    requires kr != 0 ==> kr !in s && s'[kr].content == Empty
    requires kb != 0 ==> kb !in s && s'[kb].content == Empty
    requires forall m | m in s && m != id :: s'[m] == s[m]
    ensures Lookup(s', n) == Lookup(s, n)
  {
  }

  /** Putting a rectangle into a free leaf of exactly its aligned size keeps
      the invariant, with the counts above it one short. */
  lemma PlaceOk(s: Arena, anc: map<nat, set<nat>>, align: nat, id: nat, size: Vec2)
    requires MapOk(s, anc, align) && id in s && id != ROOT && s[id].content == Empty
    requires s[id].size == AlignSize(align, size)
    ensures var s' := s[id := s[id].(content := Content(size))];
      ShapeOk(s', anc) && GeomOk(s', anc, align) &&
      s[id].parent in s && s[s[id].parent].content.Child? &&
      CountsOk(s', anc, Chain(anc, s[id].parent), -1)
  {
    var s' := s[id := s[id].(content := Content(size))];
    FrameRefl(s, anc);
    FrameShape(s, s', anc);
    forall n | n in s' && s'[n].content.Content?
      ensures s'[n].size == AlignSize(align, s'[n].content.size)
    {
      assert GeomNodeOk(s, anc, align, n);
    }
    FrameGeom(s, s', anc, align);
    PlaceCounts(s, anc, id, size);
  }

  /** Taking a rectangle out of its leaf keeps the invariant, with the counts
      above it one over. */
  lemma ClearOk(s: Arena, anc: map<nat, set<nat>>, align: nat, id: nat)
    requires MapOk(s, anc, align) && id in s && s[id].content.Content?
    ensures var s' := s[id := s[id].(content := Empty)];
      ShapeOk(s', anc) && GeomOk(s', anc, align) &&
      s[id].parent in s && s[s[id].parent].content.Child? &&
      CountsOk(s', anc, Chain(anc, s[id].parent), 1)
  {
    var s' := s[id := s[id].(content := Empty)];
    ClearCounts(s, anc, id);
    FrameRefl(s, anc);
    FrameShape(s, s', anc);
    forall n | n in s' && s'[n].content.Content?
      ensures s'[n].size == AlignSize(align, s'[n].content.size)
    {
      assert GeomNodeOk(s, anc, align, n);
    }
    FrameGeom(s, s', anc, align);
  }

  /** A node that lists `l` first: freeing it and deleting its listed children
      one by one is `Collapse`. */
  lemma CollapseSteps(s: Arena, id: nat, s': Arena)
    requires 0 !in s && id in s && s[id].content.Child? && s[id].content.left > 0
    requires var Child(l, r, b, _) := s[id].content;
      var s1 := s[id := s[id].(content := Empty)] - {l};
      var s2 := if r > 0 then s1 - {r} else s1;
      s' == if b > 0 then s2 - {b} else s2
    ensures s' == Collapse(s, id)
  {
    assert s'.Keys == Collapse(s, id).Keys;
  }

  /** A count update keeps the shape and the geometry. */
  lemma RecountOk(s: Arena, s': Arena, anc: map<nat, set<nat>>, align: nat)
    requires ShapeOk(s, anc) && GeomOk(s, anc, align)
    requires s'.Keys == s.Keys && forall n | n in s :: SameButCount(s[n], s'[n])
    ensures ShapeOk(s', anc) && GeomOk(s', anc, align)
  {
    assert SameButCount(s[ROOT], s'[ROOT]);
    FrameShape(s, s', anc);
    forall n | n in s' && s'[n].content.Content?
      ensures s'[n].size == AlignSize(align, s'[n].content.size)
    {
      assert SameButCount(s[n], s'[n]);
      assert GeomNodeOk(s, anc, align, n);
    }
    FrameGeom(s, s', anc, align);
  }

  /** Freeing node `id` keeps every rectangle where it was. */
  lemma CollapseContents(s: Arena, anc: map<nat, set<nat>>, align: nat, id: nat)
    requires CollapsePre(s, anc, align, id)
    ensures Contents(Collapse(s, id)) == Contents(s)
    ensures forall n | n in Contents(s) :: Collapse(s, id)[n] == s[n]
  {
    var Child(l, r, b, _) := s[id].content;
    assert NodeOk(s, anc, id);
    CollapseKid(s, anc, align, id, l);
    if r != 0 { CollapseKid(s, anc, align, id, r); }
    if b != 0 { CollapseKid(s, anc, align, id, b); }
  }

  /** Freeing node `id` keeps the invariant, with the counts above it still one
      over. */
  lemma CollapseOk(s: Arena, anc: map<nat, set<nat>>, align: nat, id: nat)
    requires CollapsePre(s, anc, align, id)
    ensures var s', anc' := Collapse(s, id), anc - Kids(s, id);
      var p := s[id].parent;
      ShapeOk(s', anc') && GeomOk(s', anc', align) &&
      (p == 0 || (p in s' && s'[p].content.Child? && p in anc' && anc'[p] == anc[p])) &&
      CountsOk(s', anc', Chain(anc', p), 1)
  {
    CollapseShape(s, anc, align, id);
    CollapseNodes(s, anc, align, id);
    CollapseLeaves(s, anc, align, id);
    CollapseCounts(s, anc, align, id);
  }

  /** Splitting a free leaf keeps the invariant, with the counts above it one
      short. */
  lemma SplitOk(s: Arena, anc: map<nat, set<nat>>, align: nat, id: nat, size: Vec2,
                asize: Vec2, kr: nat, kb: nat, kl: nat)
    requires SplitPre(s, anc, align, id, size, asize, kr, kb, kl)
    ensures var s', anc' := Split(s, id, size, asize, kr, kb, kl), SplitAnc(anc, id, kr, kb, kl);
      var p := s[id].parent;
      ShapeOk(s', anc') && GeomOk(s', anc', align) &&
      (p == 0 || (p in s' && s'[p].content.Child? && p in anc')) &&
      CountsOk(s', anc', Chain(anc', p), -1)
  {
    SplitFacts(s, anc, align, id, size, asize, kr, kb, kl);
    SplitShape(s, anc, align, id, size, asize, kr, kb, kl);
    SplitNodes(s, anc, align, id, size, asize, kr, kb, kl);
    SplitLeaves(s, anc, align, id, size, asize, kr, kb, kl);
    SplitCounts(s, anc, align, id, size, asize, kr, kb, kl);
  }

  /** The updates `extends` makes one after another add up to `Grow`. */
  lemma GrowSteps(s: Arena, w: nat, h: nat, kr: nat, kb: nat, kl: nat, s2: Arena, s': Arena)
    requires GrowKeysOk(s, w, h, kr, kb, kl) && s2 == GrowStrips(s, w, h, kr, kb)
    requires var O := s[ROOT];
      var Child(l, r, b, c) := O.content;
      var s3 := s2[kl := Node(O.size, Vec2(0, 0), ROOT, Child(l, r, b, c))];
      var s4 := s3[l := s3[l].(parent := kl)];
      var s5 := if r > 0 then s4[r := s4[r].(parent := kl)] else s4;
      var s6 := if b > 0 then s5[b := s5[b].(parent := kl)] else s5;
      s' == s6[ROOT := O.(size := Vec2(w, h), content := Child(kl, kr, kb, c))]
    ensures s' == Grow(s, w, h, kr, kb, kl)
  {
  }

  /** Growing a split root keeps every rectangle where it was. */
  lemma GrowContents(s: Arena, anc: map<nat, set<nat>>, align: nat, w: nat, h: nat,
                     kr: nat, kb: nat, kl: nat, s': Arena, anc': map<nat, set<nat>>)
    requires GrowPre(s, anc, align, w, h, kr, kb, kl) && Grown(s, anc, w, h, kr, kb, kl, s', anc')
    ensures Contents(s') == Contents(s)
    ensures forall n | n in Contents(s) :: s'[n].content == s[n].content && s'[n].pos == s[n].pos
  {
  }

  /** Growing a split root keeps the invariant and every rectangle where it was. */
  lemma GrowOk(s: Arena, anc: map<nat, set<nat>>, align: nat, w: nat, h: nat, kr: nat, kb: nat, kl: nat)
    requires GrowPre(s, anc, align, w, h, kr, kb, kl)
    ensures GrowKeysOk(s, w, h, kr, kb, kl)
    ensures var s', anc' := Grow(s, w, h, kr, kb, kl), GrowAnc(anc, kr, kb, kl);
      MapOk(s', anc', align) && s'[ROOT].size == Vec2(w, h) &&
      Contents(s') == Contents(s) &&
      (forall n | n in Contents(s) :: s'[n].content == s[n].content && s'[n].pos == s[n].pos) &&
      forall n :: Lookup(s', n) == Lookup(s, n)
  {
    assert NodeOk(s, anc, ROOT);
    var s', anc' := Grow(s, w, h, kr, kb, kl), GrowAnc(anc, kr, kb, kl);
    GrowFacts(s, anc, align, w, h, kr, kb, kl);
    GrowShape(s, anc, align, w, h, kr, kb, kl);
    GrowNodes(s, anc, align, w, h, kr, kb, kl);
    GrowLeaves(s, anc, align, w, h, kr, kb, kl);
    GrowCounts(s, anc, align, w, h, kr, kb, kl);
    GrowContents(s, anc, align, w, h, kr, kb, kl, s', anc');
    assert s'[ROOT].pos == Vec2(0, 0) && s'[ROOT].size == Vec2(w, h);
    assert GeomOk(s', anc', align);
    SameContentsLookup(s, s');
  }

  /** Maps that hold the same rectangles at the same places answer every
      lookup alike. */
  lemma SameContentsLookup(s: Arena, s': Arena)
    requires Contents(s') == Contents(s)
    requires forall n | n in Contents(s) :: s'[n].content == s[n].content && s'[n].pos == s[n].pos
    ensures forall n :: Lookup(s', n) == Lookup(s, n)
  {
    forall n ensures Lookup(s', n) == Lookup(s, n) {
      if n in Contents(s) {
        assert s'[n].content == s[n].content && s'[n].pos == s[n].pos;
      }
    }
  }

  /** Every rectangle lies inside the root. */
  lemma InsideRoot(s: Arena, anc: map<nat, set<nat>>, align: nat)
    requires MapOk(s, anc, align)
    ensures forall n | n in Contents(s) ::
      s[n].pos.x + s[n].content.size.x <= s[ROOT].size.x &&
      s[n].pos.y + s[n].content.size.y <= s[ROOT].size.y
  {
    forall n | n in Contents(s)
      ensures s[n].pos.x + s[n].content.size.x <= s[ROOT].size.x &&
              s[n].pos.y + s[n].content.size.y <= s[ROOT].size.y
    {
      Packed(s, anc, align, n, n);
    }
  }

  /** `extends` on a split root as rect_map.rs writes it: the strips and the
      new root are sized from the aligned request `a` rather than from the
      per-axis maxima, so the bottom strip and the root can come out narrower
      (or shorter) than the old root they contain. */
  function GrowAsWritten(s: Arena, a: Vec2, kr: nat, kb: nat, kl: nat): (s': Arena)
    requires ROOT in s && s[ROOT].content.Child? && kl !in s
    ensures ROOT in s' && kl in s' && s'[ROOT].size == a && s'[kl].size == s[ROOT].size
  {
    var O, S := s[ROOT], s[ROOT].size;
    var Child(l, r, b, c) := O.content;
    var s1 := if a.x > S.x then s[kr := Node(Vec2(a.x - S.x, S.y), Vec2(S.x, 0), ROOT, Empty)] else s;
    var s2 := if a.y > S.y then s1[kb := Node(Vec2(a.x, a.y - S.y), Vec2(0, S.y), ROOT, Empty)] else s1;
    var s3 := s2[kl := Node(S, Vec2(0, 0), ROOT, O.content)];
    var s4 := if l in s3 then s3[l := s3[l].(parent := kl)] else s3;
    var s5 := if r != 0 && r in s4 then s4[r := s4[r].(parent := kl)] else s4;
    var s6 := if b != 0 && b in s5 then s5[b := s5[b].(parent := kl)] else s5;
    s6[ROOT := O.(size := a, content := Child(kl, if a.x > S.x then kr else 0, if a.y > S.y then kb else 0, c))]
  }

  /** A 512 by 512 map (alignment 16) holding one 16 by 16 rectangle, grown as
      written to 256 by 1024: the old root no longer fits in the new one, so
      the root's tiling is broken, although it held before. */
  lemma ExtendsAsWrittenBreaksTiling()
    ensures var s := map[1 := Node(Vec2(512, 512), Vec2(0, 0), 0, Child(2, 3, 4, 1)),
                         2 := Node(Vec2(16, 16), Vec2(0, 0), 1, Content(Vec2(16, 16))),
                         3 := Node(Vec2(496, 16), Vec2(16, 0), 1, Empty),
                         4 := Node(Vec2(512, 496), Vec2(0, 16), 1, Empty)];
      var a := AlignSize(16, Vec2(256, 1024));
      TileOk(s, ROOT) && a == Vec2(256, 1024) &&
      ExtendsSize(s[ROOT].size, a) == Vec2(512, 1024) &&
      !TileOk(GrowAsWritten(s, a, 5, 6, 7), ROOT)
  {
    var a := AlignSize(16, Vec2(256, 1024));
    assert a.x == 256 by { assert 256 % 16 == 0; }
    assert a.y == 1024 by { assert 1024 % 16 == 0; }
  }

  // ---------------------------------------------------------------------------
  // The rectangle map

  /** `extends` (corrected): the new root size is the larger of the old size and
      the aligned request on each axis. */
  function ExtendsSize(o: Vec2, a: Vec2): (r: Vec2)
    ensures Fits(o, r) && Fits(a, r)
    ensures forall t: Vec2 :: Fits(o, t) && Fits(a, t) ==> Fits(r, t)
  {
    Vec2(if o.x > a.x then o.x else a.x, if o.y > a.y then o.y else a.y)
  }

  /** A dynamic rectangle packer: rectangles are placed into and freed from a
      map of fixed (growable) size; every placed rectangle occupies a node of
      its aligned size and no two placed rectangles overlap. */
  /** The walk of `attempt_defrag` on the slab as a value: one off the count of
      `id` and of every node above it; a node whose last rectangle went becomes
      a free leaf again and its children leave the slab. */
  method Defrag(s: Arena, ghost anc: map<nat, set<nat>>, ghost align: nat, id: nat)
    returns (s': Arena, ghost anc': map<nat, set<nat>>)
    requires ShapeOk(s, anc) && GeomOk(s, anc, align)
    requires id == 0 || (id in s && s[id].content.Child?)
    requires CountsOk(s, anc, Chain(anc, id), 1)
    ensures MapOk(s', anc', align)
    ensures Contents(s') == Contents(s)
    ensures forall n | n in Contents(s') :: s'[n] == s[n]
    ensures s'[ROOT].size == s[ROOT].size
    decreases if id in anc then |anc[id]| else 0
  {
    FrameRefl(s, anc);
    if id == 0 {
      CountsNoChain(s, anc, 1);
      return s, anc;
    }
    var node := s[id];
    assert NodeOk(s, anc, id);
    var Child(l, r, b, c) := node.content;
    var p := node.parent;
    var s1 := s;
    ghost var anc1 := anc;
    if c > 1 {
      s1 := s[id := node.(content := Child(l, r, b, c - 1))];
      DecountStep(s, anc, align, id, s1);
    } else {
      s1 := s[id := node.(content := Empty)];
      if l > 0 {
        s1 := s1 - {l};
        if r > 0 {
          s1 := s1 - {r};
        }
        if b > 0 {
          s1 := s1 - {b};
        }
      }
      CollapseSteps(s, id, s1);
      CollapseOk(s, anc, align, id);
      CollapseContents(s, anc, align, id);
      anc1 := anc - Kids(s, id);
    }
    s', anc' := Defrag(s1, anc1, align, p);
  }

  /** Taking one off the count of inner node `id` keeps the tree well formed,
      leaves the rectangles alone and moves the pending decrement to the parent. */
  lemma DecountStep(s: Arena, anc: map<nat, set<nat>>, align: nat, id: nat, s1: Arena)
    requires ShapeOk(s, anc) && GeomOk(s, anc, align)
    requires id in s && s[id].content.Child? && s[id].content.count > 1
    requires CountsOk(s, anc, Chain(anc, id), 1)
    requires s1 == s[id := s[id].(content := s[id].content.(count := s[id].content.count - 1))]
    ensures ShapeOk(s1, anc) && GeomOk(s1, anc, align)
    ensures var p := s[id].parent; p == 0 || (p in s1 && s1[p].content.Child? && p in anc)
    ensures CountsOk(s1, anc, Chain(anc, s[id].parent), 1)
    ensures s[id].parent in anc ==> |anc[s[id].parent]| < |anc[id]|
    ensures Contents(s1) == Contents(s) && s1[ROOT].size == s[ROOT].size
    ensures forall n | n in Contents(s1) :: s1[n] == s[n]
  {
    FrameRefl(s, anc);
    RecountChain(s, s1, anc, id, 1);
    RecountOk(s, s1, anc, align);
    assert NodeOk(s, anc, id);
    if s[id].parent != 0 {
      assert anc[id] == anc[s[id].parent] + {id};
    }
  }

  /** The second half of `extends` on a split root, on the slab as a value: the
      old root moves to a new key as the left child of a root of size `w` by
      `h`, beside new free strips to its right and below. */
  method GrowRoot(s: Arena, ghost anc: map<nat, set<nat>>, ghost align: nat, w: nat, h: nat)
    returns (s': Arena, ghost anc': map<nat, set<nat>>)
    requires MapOk(s, anc, align) && s[ROOT].content.Child?
    requires s[ROOT].size.x <= w && s[ROOT].size.y <= h && w % align == 0 && h % align == 0
    ensures MapOk(s', anc', align)
    ensures s'[ROOT].size == Vec2(w, h)
    ensures forall n :: Lookup(s', n) == Lookup(s, n)
  {
    s' := s;
    var root := s'[ROOT];
    var Child(l, r, b, c) := root.content;
    var right := 0;
    if w > root.size.x {
      right := Slab.Fresh(s');
      s' := s'[right := Node(Vec2(w - root.size.x, root.size.y), Vec2(root.size.x, 0), ROOT, Empty)];
    }
    var bottom := 0;
    if h > root.size.y {
      bottom := Slab.Fresh(s');
      s' := s'[bottom := Node(Vec2(w, h - root.size.y), Vec2(0, root.size.y), ROOT, Empty)];
    }
    ghost var s2 := s';
    assert s2 == GrowStrips(s, w, h, right, bottom);
    var left := Slab.Fresh(s');
    GrowOk(s, anc, align, w, h, right, bottom, left);
    s' := s'[left := Node(root.size, Vec2(0, 0), ROOT, Child(l, r, b, c))];
    s' := s'[l := s'[l].(parent := left)];
    if r > 0 {
      s' := s'[r := s'[r].(parent := left)];
    }
    if b > 0 {
      s' := s'[b := s'[b].(parent := left)];
    }
    s' := s'[ROOT := root.(size := Vec2(w, h), content := Child(left, right, bottom, c))];
    GrowSteps(s, w, h, right, bottom, left, s2, s');
    anc' := GrowAnc(anc, right, bottom, left);
  }

  /** The walk of `incr_count` on the slab as a value: one more on the count of
      `id` and of every node above it. */
  method Incr(s: Arena, ghost anc: map<nat, set<nat>>, ghost align: nat, id: nat) returns (s': Arena)
    requires ShapeOk(s, anc) && GeomOk(s, anc, align)
    requires id == 0 || (id in s && s[id].content.Child?)
    requires CountsOk(s, anc, Chain(anc, id), -1)
    ensures MapOk(s', anc, align)
    ensures s'.Keys == s.Keys
    ensures forall n | n in s' :: SameButCount(s[n], s'[n])
    decreases if id in anc then |anc[id]| else 0
  {
    FrameRefl(s, anc);
    if id == 0 {
      CountsNoChain(s, anc, -1);
      return s;
    }
    var node := s[id];
    assert NodeOk(s, anc, id);
    var Child(l, r, b, c) := node.content;
    var s1 := s[id := node.(content := Child(l, r, b, c + 1))];
    RecountChain(s, s1, anc, id, -1);
    RecountOk(s, s1, anc, align);
    s' := Incr(s1, anc, align, node.parent);
    SameButCountTrans(s, s1, s');
  }

  lemma SameButCountTrans(s: Arena, s1: Arena, s2: Arena)
    requires s1.Keys == s.Keys && s2.Keys == s1.Keys
    requires forall n | n in s1 :: SameButCount(s[n], s1[n])
    requires forall n | n in s2 :: SameButCount(s1[n], s2[n])
    ensures forall n | n in s2 :: SameButCount(s[n], s2[n])
  {
    forall n | n in s2 ensures SameButCount(s[n], s2[n]) {
      assert SameButCount(s[n], s1[n]) && SameButCount(s1[n], s2[n]);
    }
  }

  /** `add` on the slab as a value: place a rectangle of size `size` in the
      first free leaf that fits it, returning its key, or 0 when there is no
      room. */
  method Place(s: Arena, ghost anc: map<nat, set<nat>>, align: nat, size: Vec2)
    returns (s': Arena, ghost anc': map<nat, set<nat>>, r: nat)
    requires MapOk(s, anc, align)
    ensures MapOk(s', anc', align)
    ensures r == 0 <==> FindNode(s, anc, size, ROOT).None?
    ensures r == 0 <==> !RoomUnder(s, anc, size, ROOT)
    ensures r == 0 ==> s' == s
    ensures r != 0 ==> Lookup(s, r) == None &&
                       Lookup(s', r) == Some((size, FindNode(s, anc, size, ROOT).value.2))
    ensures forall n | n != r :: Lookup(s', n) == Lookup(s, n)
    ensures s'[ROOT].size == s[ROOT].size
  {
    FindNodeComplete(s, anc, align, size, ROOT);
    var found := FindNode(s, anc, size, ROOT);
    if found.None? {
      return s, anc, 0;
    }
    var (id, area, pos) := found.value;
    var asize := AlignSize(align, size);
    assert GeomNodeOk(s, anc, align, id);
    AlignSizeWithin(align, size, area);
    var s1 := s;
    anc' := anc;
    var right := 0;
    if area.x > asize.x {
      right := Slab.Fresh(s1);
      s1 := s1[right := Node(Vec2(area.x - asize.x, asize.y), Vec2(pos.x + asize.x, pos.y), id, Empty)];
    }
    var bottom := 0;
    if area.y > asize.y {
      bottom := Slab.Fresh(s1);
      s1 := s1[bottom := Node(Vec2(area.x, area.y - asize.y), Vec2(pos.x, pos.y + asize.y), id, Empty)];
    }
    var node := s1[id];
    if id > ROOT && right == 0 && bottom == 0 {
      r := id;
      s1 := s1[id := node.(content := Content(size))];
      PlaceOk(s, anc, align, id, size);
      PlaceLookup(s, id, size);
    } else {
      var left := Slab.Fresh(s1);
      s1 := s1[left := Node(asize, pos, id, Content(size))];
      s1 := s1[id := node.(content := Child(left, right, bottom, 1))];
      r := left;
      assert s1 == Split(s, id, size, asize, right, bottom, left);
      SplitOk(s, anc, align, id, size, asize, right, bottom, left);
      SplitLookup(s, anc, align, id, size, asize, right, bottom, left);
      anc' := SplitAnc(anc, id, right, bottom, left);
    }
    s' := Incr(s1, anc', align, node.parent);
    RecountLookup(s1, s');
  }

  class RectMap {
    var slab: Arena
    var align: nat
    ghost var anc: map<nat, set<nat>>

    ghost predicate Valid()
      reads this
    {
      MapOk(slab, anc, align)
    }

    /** `RectMap::new`: one free root node of the aligned size at the origin. */
    constructor (size: Vec2, align: nat)
      requires align > 0
      ensures Valid() && this.align == align
      ensures GetSize() == AlignSize(align, size) && Count() == 0
      ensures forall id :: Get(id) == None
    {
      var asize := AlignSize(align, size);
      var empty: Arena := map[];
      var k := Slab.Fresh(empty);
      Slab.FreshOfEmpty(empty);
      slab := empty[k := Node(asize, Vec2(0, 0), 0, Empty)];
      this.align := align;
      anc := map[ROOT := {ROOT}];
      new;
      assert NodeOk(slab, anc, ROOT);
      assert GeomNodeOk(slab, anc, align, ROOT);
      assert LeavesApart(slab, ROOT, ROOT);
      assert CountOk(slab, anc, {}, 0, ROOT);
    }

    /** `get_size`: the size of the map; every placed rectangle lies inside it. */
    function GetSize(): (r: Vec2)
      reads this
      requires Valid()
      ensures forall n | n in Contents(slab) ::
        slab[n].pos.x + slab[n].content.size.x <= r.x && slab[n].pos.y + slab[n].content.size.y <= r.y
    {
      InsideRoot(slab, anc, align);
      slab[ROOT].size
    }

    /** `count`: the number of rectangles placed. */
    function Count(): (r: nat)
      reads this
      requires Valid()
      ensures r == |Contents(slab)|
    {
      RootCountsAll(slab, anc);
      assert CountOk(slab, anc, {}, 0, ROOT);
      if slab[ROOT].content.Child? then slab[ROOT].content.count else 0
    }

    /** `get`: the size and position of the rectangle placed under `id`. */
    function Get(id: nat): (r: Option<(Vec2, Vec2)>)
      reads this
      ensures r.Some? <==> id in Contents(slab)
      ensures r.Some? ==> r.value == (slab[id].content.size, slab[id].pos)
    {
      Lookup(slab, id)
    }
  
    /** `incr_count`: add one to the count of `id` and of every node above it,
        which settles counts that were one short along that path. */
    method IncrCount(id: nat)
      requires ShapeOk(slab, anc) && GeomOk(slab, anc, align)
      requires id == 0 || (id in slab && slab[id].content.Child?)
      requires CountsOk(slab, anc, Chain(anc, id), -1)
      modifies this
      ensures Valid() && anc == old(anc) && align == old(align)
      ensures slab.Keys == old(slab).Keys
      ensures forall n | n in slab :: SameButCount(old(slab)[n], slab[n])
      decreases if id in anc then |anc[id]| else 0
    {
      slab := Incr(slab, anc, align, id);
    }

    /** `attempt_defrag`: take one off the count of `id` and of every node above
        it; a node whose last rectangle went becomes a free leaf again and its
        children leave the slab. */
    method AttemptDefrag(id: nat)
      requires ShapeOk(slab, anc) && GeomOk(slab, anc, align)
      requires id == 0 || (id in slab && slab[id].content.Child?)
      requires CountsOk(slab, anc, Chain(anc, id), 1)
      modifies this
      ensures Valid() && align == old(align)
      ensures Contents(slab) == old(Contents(slab))
      ensures forall n | n in Contents(slab) :: slab[n] == old(slab)[n]
      ensures slab[ROOT].size == old(slab[ROOT].size)
    {
      slab, anc := Defrag(slab, anc, align, id);
    }
  
    /** `add`: place a rectangle of size `size` in the first free leaf that
        fits it, returning its key, or 0 when there is no room. A leaf of
        exactly the aligned size takes the rectangle itself; otherwise the leaf
        is split into the rectangle and the free strips to its right and below.
        The root is always split, so that it stays an inner node. */
    method Add(size: Vec2) returns (r: nat)
      requires Valid()
      modifies this
      ensures Valid() && align == old(align)
      ensures r == 0 <==> old(FindNode(slab, anc, size, ROOT)).None?
      ensures r == 0 <==> !old(RoomUnder(slab, anc, size, ROOT))
      ensures r == 0 ==> slab == old(slab)
      ensures r != 0 ==> old(Get(r)) == None &&
                         Get(r) == Some((size, old(FindNode(slab, anc, size, ROOT)).value.2))
      ensures forall n | n != r :: Get(n) == old(Get(n))
      ensures GetSize() == old(GetSize())
    {
      slab, anc, r := Place(slab, anc, align, size);
    }
  
    /** `remove`: free the rectangle under `id`, returning its size and
        position; nodes left holding nothing are merged back into free leaves.
        The key must hold a rectangle (anything else is a panic). */
    method Remove(id: nat) returns (size: Vec2, pos: Vec2)
      requires Valid() && id in slab && slab[id].content.Content?
      modifies this
      ensures Valid() && align == old(align)
      ensures old(Get(id)) == Some((size, pos)) && Get(id) == None
      ensures forall n | n != id :: Get(n) == old(Get(n))
      ensures GetSize() == old(GetSize())
    {
      ghost var s := slab;
      var node := slab[id];
      size := node.content.size;
      slab := slab[id := node.(content := Empty)];
      ClearOk(s, anc, align, id);
      pos := node.pos;
      var p := node.parent;
      AttemptDefrag(p);
    }

    /** The second half of `extends` on a split root: the old root moves to a
        new key as the left child of a root of size `w` by `h`, beside new free
        strips to its right and below. */
    method ExtendsSplitRoot(w: nat, h: nat)
      requires Valid() && slab[ROOT].content.Child?
      requires slab[ROOT].size.x <= w && slab[ROOT].size.y <= h && w % align == 0 && h % align == 0
      modifies this
      ensures Valid() && align == old(align)
      ensures slab[ROOT].size == Vec2(w, h)
      ensures forall n :: Get(n) == old(Get(n))
    {
      slab, anc := GrowRoot(slab, anc, align, w, h);
    }

    /** `extends`: nothing when the aligned `size` fits in the map on each
        axis; otherwise a free root (an empty map) just takes the aligned
        `size`, even where that is smaller than before on one axis, and a
        split root moves below a new root holding the old size and the
        aligned `size` on each axis, beside new free strips to its right and
        below. Every rectangle stays where it is. Returns whether the root was
        resized. */
    method Extends(size: Vec2) returns (grew: bool)
      requires Valid()
      modifies this
      ensures Valid() && align == old(align)
      ensures grew <==> !Fits(AlignSize(align, size), old(GetSize()))
      ensures !grew ==> GetSize() == old(GetSize())
      ensures grew && old(slab)[ROOT].content.Empty? ==> GetSize() == AlignSize(align, size)
      ensures grew && !old(slab)[ROOT].content.Empty? ==>
        GetSize() == ExtendsSize(old(GetSize()), AlignSize(align, size))
      ensures forall n :: Get(n) == old(Get(n))
    {
      var asize := AlignSize(align, size);
      var root := slab[ROOT];
      assert GeomNodeOk(slab, anc, align, ROOT);
      var w := if root.size.x > asize.x then root.size.x else asize.x;
      var h := if root.size.y > asize.y then root.size.y else asize.y;
      if w == root.size.x && h == root.size.y {
        return false;
      }
      match root.content {
      case Empty =>
        GrowLeaf(slab, anc, align, asize.x, asize.y);
        slab := slab[ROOT := root.(size := asize)];
      case Child(_, _, _, _) =>
        ExtendsSplitRoot(w, h);
      case Content(_) =>
        assert false;
      }
      grew := true;
    }
  }
}
