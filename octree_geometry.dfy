// Integer boxes and the octant arithmetic of the loose octree (cg/src/octree.rs).
// The scalar type is modelled as unbounded `int`; the octree halves with
// Rust's `/ two`, which truncates toward zero.
module OctreeGeometry {

  datatype Vec3 = Vec3(x: int, y: int, z: int)

  /// An axis-aligned box; `Contains` and `Intersects` below are its relations.
  datatype Aabb = Aabb(min: Vec3, max: Vec3)

  function Plus(a: Vec3, b: Vec3): Vec3 {
    Vec3(a.x + b.x, a.y + b.y, a.z + b.z)
  }

  function Dim(a: Aabb): Vec3 {
    Vec3(a.max.x - a.min.x, a.max.y - a.min.y, a.max.z - a.min.z)
  }

  predicate NonNeg(v: Vec3) {
    v.x >= 0 && v.y >= 0 && v.z >= 0
  }

  /// Componentwise `a <= b`.
  predicate Le(a: Vec3, b: Vec3) {
    a.x <= b.x && a.y <= b.y && a.z <= b.z
  }

  predicate WellFormed(a: Aabb) {
    Le(a.min, a.max)
  }

  /// `a` contains `b`, boundaries included on every axis.
  predicate Contains(a: Aabb, b: Aabb) {
    Le(a.min, b.min) && Le(b.max, a.max)
  }

  /// The strict overlap test of `intersects`: touching boxes do not intersect.
  predicate Intersects(a: Aabb, b: Aabb) {
    a.min.x < b.max.x && a.max.x > b.min.x &&
    a.min.y < b.max.y && a.max.y > b.min.y &&
    a.min.z < b.max.z && a.max.z > b.min.z
  }

  /// The box moved by `d`, as `Tree::shift` rebuilds it.
  function Shift(a: Aabb, d: Vec3): (r: Aabb)
    ensures Dim(r) == Dim(a)
    ensures WellFormed(r) <==> WellFormed(a)
  {
    Aabb(Plus(a.min, d), Plus(a.max, d))
  }

  /// `v / two` on a signed integer: the quotient truncated toward zero.
  function Half(v: int): (r: int)
    ensures v - 1 <= 2 * r <= v + 1
    ensures v >= 0 ==> 0 <= 2 * r <= v
    ensures v < 0 ==> v <= 2 * r <= 0
  {
    if v >= 0 then v / 2 else -((-v) / 2)
  }

  function HalfVec(v: Vec3): Vec3 {
    Vec3(Half(v.x), Half(v.y), Half(v.z))
  }

  lemma HalfMono(a: int, b: int)
    requires a <= b
    ensures Half(a) <= Half(b)
  {
  }

  // ---------------------------------------------------------------------
  // Octants.  On one axis a cell [lo, hi] with loose value l has a low
  // child [lo, Cut2] and a high child [Cut1, hi]; the two overlap by
  // about l.

  function Cut1(lo: int, hi: int, l: int): int {
    Half(lo + hi - l)
  }

  function Cut2(lo: int, hi: int, l: int): int {
    Half(lo + hi + l)
  }

  /// Octants 1, 4, 5 and 7 take the low side on x, 2, 4, 6 and 7 on y,
  /// 3, 5, 6 and 7 on z; every index from 7 up is the `_` arm, octant 7.
  predicate LowX(i: nat) { i == 1 || i == 4 || i == 5 || i >= 7 }
  predicate LowY(i: nat) { i == 2 || i == 4 || i == 6 || i >= 7 }
  predicate LowZ(i: nat) { i == 3 || i == 5 || i == 6 || i >= 7 }

  function AxisMin(lo: int, hi: int, l: int, low: bool): int {
    if low then lo else Cut1(lo, hi, l)
  }

  function AxisMax(lo: int, hi: int, l: int, low: bool): int {
    if low then Cut2(lo, hi, l) else hi
  }

  /// Octant `i` of the cell `a` whose loose value is `l`: the box that
  /// `check_contain`, `down`, `split_down`, `query` and `create_child` build.
  /// When the cell's loose value fits it, the octant lies inside the cell
  /// and has room for the halved loose value, so a child created there
  /// meets the same condition as its parent.
  function Octant(a: Aabb, l: Vec3, i: nat): (r: Aabb)
    ensures LooseFits(a, l) ==> Contains(a, r) && LooseFits(r, HalfVec(l))
  {
    AxisInside(a.min.x, a.max.x, l.x, LowX(i));
    AxisInside(a.min.y, a.max.y, l.y, LowY(i));
    AxisInside(a.min.z, a.max.z, l.z, LowZ(i));
    Aabb(
      Vec3(AxisMin(a.min.x, a.max.x, l.x, LowX(i)),
           AxisMin(a.min.y, a.max.y, l.y, LowY(i)),
           AxisMin(a.min.z, a.max.z, l.z, LowZ(i))),
      Vec3(AxisMax(a.min.x, a.max.x, l.x, LowX(i)),
           AxisMax(a.min.y, a.max.y, l.y, LowY(i)),
           AxisMax(a.min.z, a.max.z, l.z, LowZ(i))))
  }

  /// The octant index with the given side on each axis.
  function OctantOf(lowX: bool, lowY: bool, lowZ: bool): (i: nat)
    ensures i < 8 && LowX(i) == lowX && LowY(i) == lowY && LowZ(i) == lowZ
  {
    if lowX then
      if lowY then (if lowZ then 7 else 4) else (if lowZ then 5 else 1)
    else
      if lowY then (if lowZ then 6 else 2) else (if lowZ then 3 else 0)
  }

  /// On one axis, an interval inside [lo, hi] no longer than l lies on the
  /// low side or on the high side.
  lemma AxisCover(lo: int, hi: int, l: int, a: int, b: int)
    requires lo <= a <= b <= hi && 0 <= l && b - a <= l
    ensures Cut1(lo, hi, l) <= a || b <= Cut2(lo, hi, l)
  {
  }

  /// A side of a cell lies inside the cell when the loose value is at most
  /// the cell's extent on that axis.
  lemma AxisInside(lo: int, hi: int, l: int, low: bool)
    ensures 0 <= l <= hi - lo ==>
      lo <= AxisMin(lo, hi, l, low) <= AxisMax(lo, hi, l, low) <= hi &&
      Half(l) <= AxisMax(lo, hi, l, low) - AxisMin(lo, hi, l, low)
  {
    if 0 <= l <= hi - lo {
      HalfMono(lo + hi - l, 2 * hi);
      HalfMono(2 * lo, lo + hi + l);
      HalfMono(lo + hi + l, 2 * hi);
      HalfMono(2 * lo, lo + hi - l);
    }
  }

  predicate LooseFits(a: Aabb, l: Vec3) {
    NonNeg(l) && Le(l, Dim(a))
  }

  /// The first octant, trying `from`, `from + 1`, ..., 7 in the order of
  /// `down` and `split_down`, that contains `e`; 8 when there is none.
  function FirstOctant(a: Aabb, l: Vec3, e: Aabb, from: nat): (r: nat)
    requires from <= 8
    ensures from <= r <= 8
    ensures r < 8 ==> Contains(Octant(a, l, r), e)
    ensures forall j :: from <= j < r ==> !Contains(Octant(a, l, j), e)
    decreases 8 - from
  {
    if from == 8 then 8
    else if Contains(Octant(a, l, from), e) then from
    else FirstOctant(a, l, e, from + 1)
  }

  /// Whether an extent fits under a loose value on every axis.
  predicate Small(e: Aabb, l: Vec3) {
    WellFormed(e) && Le(Dim(e), l)
  }

  /// A box inside a cell and no larger than the cell's loose value always
  /// fits some octant: `down` and `split_down` never run out of octants.
  lemma {:induction false} OctantCover(a: Aabb, l: Vec3, e: Aabb)
    requires Contains(a, e) && Small(e, l) && NonNeg(l)
    ensures FirstOctant(a, l, e, 0) < 8
  {
    AxisCover(a.min.x, a.max.x, l.x, e.min.x, e.max.x);
    AxisCover(a.min.y, a.max.y, l.y, e.min.y, e.max.y);
    AxisCover(a.min.z, a.max.z, l.z, e.min.z, e.max.z);
    var i := OctantOf(e.max.x <= Cut2(a.min.x, a.max.x, l.x),
                      e.max.y <= Cut2(a.min.y, a.max.y, l.y),
                      e.max.z <= Cut2(a.min.z, a.max.z, l.z));
    assert Contains(Octant(a, l, i), e);
  }

  /// `check_contain`: the current slot `child` when its octant (octant 7
  /// for the cell's own list, 8) contains `node`; 9 when the cell itself
  /// does not; otherwise the first of octants 0, 1, 2, 4, 5, 6, 7 that
  /// contains it, and 3 when none does.
  function CheckContain(parent: Aabb, loose: Vec3, node: Aabb, child: nat): (r: nat)
    requires child <= 8
    ensures r == child || r <= 9
    ensures r == child ==> Contains(Octant(parent, loose, child), node) || r == 3
    ensures r == 9 <==> r != child && !Contains(parent, node)
    ensures r != child && r != 9 ==> r < 8 && Contains(parent, node)
  {
    if Contains(Octant(parent, loose, child), node) then child
    else if !Contains(parent, node) then 9
    else if Contains(Octant(parent, loose, 0), node) then 0
    else if Contains(Octant(parent, loose, 1), node) then 1
    else if Contains(Octant(parent, loose, 2), node) then 2
    else if Contains(Octant(parent, loose, 4), node) then 4
    else if Contains(Octant(parent, loose, 5), node) then 5
    else if Contains(Octant(parent, loose, 6), node) then 6
    else if Contains(Octant(parent, loose, 7), node) then 7
    else 3
  }

  /// When the cell contains a box small enough for its loose value,
  /// `check_contain` names a slot whose octant really contains the box: the
  /// fallback 3 is only reached when octant 3 is the one.
  lemma CheckContainSound(parent: Aabb, loose: Vec3, node: Aabb, child: nat)
    requires child <= 8 && Contains(parent, node) && Small(node, loose) && NonNeg(loose)
    ensures CheckContain(parent, loose, node, child) != 9
    ensures Contains(Octant(parent, loose, CheckContain(parent, loose, node, child)), node)
  {
    OctantCover(parent, loose, node);
  }

  /// Hence a box small enough for the loose value that `check_contain`
  /// keeps in its current slot lies in that slot's octant.
  lemma CheckContainStay(parent: Aabb, loose: Vec3, node: Aabb, child: nat)
    requires child <= 8 && Small(node, loose) && NonNeg(loose)
    requires CheckContain(parent, loose, node, child) == child
    ensures Contains(Octant(parent, loose, child), node)
  {
    if Contains(parent, node) {
      CheckContainSound(parent, loose, node, child);
    }
  }

  // ---------------------------------------------------------------------
  // Layers.

  const USIZE_MAX: nat := 0xFFFF_FFFF_FFFF_FFFF

  function Pow2(k: nat): (r: nat)
    ensures r >= 1
  {
    if k == 0 then 1 else 2 * Pow2(k - 1)
  }

  /// `64 - v.leading_zeros()` for a 64-bit `v`: the number of significant bits.
  function BitLen(v: nat): (r: nat)
    ensures v < Pow2(r)
    ensures r > 0 ==> Pow2(r - 1) <= v
  {
    if v == 0 then 0 else 1 + BitLen(v / 2)
  }

  lemma {:induction false} BitLenMono(a: nat, b: nat)
    requires a <= b
    ensures BitLen(a) <= BitLen(b)
  {
    if a != 0 {
      BitLenMono(a / 2, b / 2);
    }
  }

  lemma {:induction false} BitLenAbove(v: nat, k: nat)
    requires BitLen(v) > k
    ensures Pow2(k) <= v
  {
    if k > 0 {
      BitLenAbove(v / 2, k - 1);
    }
  }

  /// A value that fits in `usize`.
  predicate Fits(v: Vec3) {
    NonNeg(v) && v.x <= USIZE_MAX && v.y <= USIZE_MAX && v.z <= USIZE_MAX
  }

  /// One axis of `calc_layer`: `usize::MAX` for a zero extent, else the
  /// number of times the extent goes into the loose value.
  function Ratio(l: nat, e: nat): nat {
    if e == 0 then USIZE_MAX else l / e
  }

  function Min3(a: nat, b: nat, c: nat): nat {
    var ab := if a <= b then a else b;
    if ab <= c then ab else c
  }

  /// `calc_layer`: the bit length of the smallest per-axis ratio of loose
  /// value to extent.
  ///
  /// The layer is at most 64, and it is 0 exactly when the box is longer
  /// than the loose value on some axis.
  function CalcLayer(loose: Vec3, el: Vec3): (r: nat)
    requires Fits(loose) && NonNeg(el)
    ensures r <= 64
    ensures r == 0 <==> loose.x < el.x || loose.y < el.y || loose.z < el.z
  {
    MinRatioLayer(loose, el);
    BitLen(Min3(Ratio(loose.x, el.x), Ratio(loose.y, el.y), Ratio(loose.z, el.z)))
  }

  /// The bit length of the smallest ratio is at most that of `usize::MAX`,
  /// and it is 0 exactly when some ratio is.
  lemma MinRatioLayer(loose: Vec3, el: Vec3)
    requires Fits(loose) && NonNeg(el)
    ensures var m := Min3(Ratio(loose.x, el.x), Ratio(loose.y, el.y), Ratio(loose.z, el.z));
      BitLen(m) <= 64 && (BitLen(m) == 0 <==> loose.x < el.x || loose.y < el.y || loose.z < el.z)
  {
    var m := Min3(Ratio(loose.x, el.x), Ratio(loose.y, el.y), Ratio(loose.z, el.z));
    RatioBound(loose.x, el.x);
    RatioBound(loose.y, el.y);
    RatioBound(loose.z, el.z);
    RatioZero(loose.x, el.x);
    RatioZero(loose.y, el.y);
    RatioZero(loose.z, el.z);
    BitLenMono(m, USIZE_MAX);
    Pow2Word();
    BitLenOnes(64);
    assert BitLen(m) == 0 <==> m == 0;
  }

  /// A ratio is 0 exactly when the extent exceeds the loose value.
  lemma RatioZero(l: nat, e: nat)
    ensures Ratio(l, e) == 0 <==> l < e
  {
    if e > 0 && l >= e {
      DivLower(l, e, 1);
    }
  }

  lemma DivMonoDen(l: nat, a: nat, b: nat)
    requires 0 < a <= b
    ensures l / b <= l / a
  {
    var q := l / b;
    assert q * a <= q * b <= l;
    DivLower(l, a, q);
  }

  /// `q * a <= l` gives `q <= l / a`.
  lemma DivLower(l: nat, a: nat, q: nat)
    requires a > 0 && q * a <= l
    ensures q <= l / a
  {
    var m := l / a;
    var d: int := q - m;
    assert m * a + l % a == l;
    assert d * a == q * a - m * a;
    assert d * a < a;
  }

  lemma MulLeMono(r: int, q: int, a: nat)
    requires r <= q
    ensures r * a <= q * a
  {
    var d: int := q - r;
    assert q * a == r * a + d * a;
  }

  lemma RatioMono(l: nat, a: nat, b: nat)
    requires a <= b && l <= USIZE_MAX
    ensures Ratio(l, b) <= Ratio(l, a)
  {
    if a > 0 {
      DivMonoDen(l, a, b);
    } else if b > 0 {
      assert l / b <= l;
    }
  }

  /// A larger extent never gives a larger layer.
  lemma CalcLayerMono(loose: Vec3, e1: Vec3, e2: Vec3)
    requires Fits(loose) && NonNeg(e1) && Le(e1, e2)
    ensures CalcLayer(loose, e2) <= CalcLayer(loose, e1)
  {
    RatioMono(loose.x, e1.x, e2.x);
    RatioMono(loose.y, e1.y, e2.y);
    RatioMono(loose.z, e1.z, e2.z);
    BitLenMono(Min3(Ratio(loose.x, e2.x), Ratio(loose.y, e2.y), Ratio(loose.z, e2.z)),
               Min3(Ratio(loose.x, e1.x), Ratio(loose.y, e1.y), Ratio(loose.z, e1.z)));
  }

  /// The loose value of a cell of layer `k`: the root's loose value halved
  /// `k` times.
  function LooseAt(loose: Vec3, k: nat): Vec3
    requires NonNeg(loose)
  {
    Vec3(loose.x / Pow2(k), loose.y / Pow2(k), loose.z / Pow2(k))
  }

  lemma DivDiv(l: nat, a: nat)
    requires a > 0
    ensures l / a / 2 == l / (2 * a)
  {
    var u := l / a;
    var v := u / 2;
    assert l == u * a + l % a;
    assert u == v * 2 + u % 2;
    assert l == v * (2 * a) + ((u % 2) * a + l % a);
    assert (u % 2) * a <= a;
    DivUnique(l, 2 * a, v, (u % 2) * a + l % a);
  }

  lemma DivUnique(l: nat, d: nat, q: nat, r: nat)
    requires d > 0 && l == q * d + r && r < d
    ensures l / d == q
  {
    var m := l / d;
    var s: int := l % d;
    assert m * d + s == l;
    var diff: int := q - m;
    assert diff * d == s - r;
    assert -(d as int) < s - r < d;
  }

  /// Halving the loose value of a layer gives the next layer's.
  lemma LooseStep(loose: Vec3, k: nat)
    requires NonNeg(loose)
    ensures HalfVec(LooseAt(loose, k)) == LooseAt(loose, k + 1)
  {
    HalfStep(loose.x, k);
    HalfStep(loose.y, k);
    HalfStep(loose.z, k);
  }

  lemma HalfStep(l: nat, k: nat)
    ensures Half(l / Pow2(k)) == l / Pow2(k + 1)
  {
    var p := Pow2(k);
    DivDiv(l, p);
    assert Pow2(k + 1) == 2 * p;
  }

  lemma LayerAxis(l: nat, e: nat, k: nat)
    requires Pow2(k) <= Ratio(l, e) && l <= USIZE_MAX
    ensures e <= l / Pow2(k)
  {
    if e > 0 {
      var p := Pow2(k);
      var q := l / e;
      assert p <= q;
      MulLeMono(p, q, e);
      assert q * e <= l;
      assert e * p == p * e;
      DivLower(l, p, e);
      assert e <= l / p;
    } else {
      DivLower(l, Pow2(k), 0);
    }
  }

  /// A box whose layer is above `k` is no larger than the loose value of
  /// layer `k`: this is what lets `down` move it below a cell of layer `k`.
  lemma LayerSmall(loose: Vec3, e: Aabb, k: nat)
    requires Fits(loose) && WellFormed(e) && CalcLayer(loose, Dim(e)) > k
    ensures Small(e, LooseAt(loose, k))
  {
    var d := Dim(e);
    var m := Min3(Ratio(loose.x, d.x), Ratio(loose.y, d.y), Ratio(loose.z, d.z));
    BitLenAbove(m, k);
    LayerAxis(loose.x, d.x, k);
    LayerAxis(loose.y, d.y, k);
    LayerAxis(loose.z, d.z, k);
  }

  lemma {:induction false} Pow2Add(a: nat, b: nat)
    ensures Pow2(a + b) == Pow2(a) * Pow2(b)
    decreases a
  {
    if a > 0 {
      Pow2Add(a - 1, b);
    }
  }

  /// `usize::MAX` is 64 one bits.
  lemma Pow2Word()
    ensures Pow2(64) == USIZE_MAX + 1
  {
    assert Pow2(1) == 2;
    Pow2Add(1, 1);
    assert Pow2(2) == 4;
    Pow2Add(2, 2);
    assert Pow2(4) == 16;
    Pow2Add(4, 4);
    assert Pow2(8) == 0x100;
    Pow2Add(8, 8);
    assert Pow2(16) == 0x1_0000;
    Pow2Add(16, 16);
    assert Pow2(32) == 0x1_0000_0000;
    Pow2Add(32, 32);
  }

  lemma {:induction false} BitLenOnes(k: nat)
    ensures BitLen(Pow2(k) - 1) == k
  {
    if k > 0 {
      assert (Pow2(k) - 1) / 2 == Pow2(k - 1) - 1;
      BitLenOnes(k - 1);
    }
  }

  /// `q * a` above `l` gives `l / a` below `q`.
  lemma DivUpper(l: nat, a: nat, q: nat)
    requires a > 0 && l < q * a
    ensures l / a < q
  {
    var m := l / a;
    assert m * a <= l;
    var d: int := q - m;
    assert d * a == q * a - m * a;
    assert d * a > 0;
  }

  /// An extent whose ratio to the loose value is below `2^k` is larger
  /// than the loose value halved `k` times.
  lemma LayerAxisTight(l: nat, e: nat, k: nat)
    requires e > 0 && Ratio(l, e) < Pow2(k)
    ensures l / Pow2(k) < e
  {
    var p := Pow2(k);
    var q := l / e;
    assert l < (q + 1) * e;
    MulLeMono(q + 1, p, e);
    assert e * p == p * e;
    DivUpper(l, p, e);
  }

  /// The layer of a box with some positive extent is the first whose loose
  /// value it does not fit under.
  lemma LayerTight(loose: Vec3, e: Aabb)
    requires Fits(loose) && WellFormed(e)
    requires Dim(e).x > 0 || Dim(e).y > 0 || Dim(e).z > 0
    ensures !Small(e, LooseAt(loose, CalcLayer(loose, Dim(e))))
  {
    var d := Dim(e);
    var rx, ry, rz := Ratio(loose.x, d.x), Ratio(loose.y, d.y), Ratio(loose.z, d.z);
    var m := Min3(rx, ry, rz);
    var r := BitLen(m);
    assert m < Pow2(r);
    MinPositive(loose, d);
    if d.x > 0 && rx == m {
      LayerAxisTight(loose.x, d.x, r);
    }
    if d.y > 0 && ry == m {
      LayerAxisTight(loose.y, d.y, r);
    }
    if d.z > 0 && rz == m {
      LayerAxisTight(loose.z, d.z, r);
    }
  }

  /// The smallest ratio is that of an axis with a positive extent, when
  /// there is one: a zero extent's ratio is `usize::MAX`, which no other
  /// ratio exceeds.
  lemma MinPositive(loose: Vec3, d: Vec3)
    requires Fits(loose) && NonNeg(d) && (d.x > 0 || d.y > 0 || d.z > 0)
    ensures var m := Min3(Ratio(loose.x, d.x), Ratio(loose.y, d.y), Ratio(loose.z, d.z));
      (d.x > 0 && Ratio(loose.x, d.x) == m) || (d.y > 0 && Ratio(loose.y, d.y) == m) ||
      (d.z > 0 && Ratio(loose.z, d.z) == m)
  {
    RatioBound(loose.x, d.x);
    RatioBound(loose.y, d.y);
    RatioBound(loose.z, d.z);
  }

  /// A ratio is `usize::MAX` for a zero extent and at most that otherwise.
  lemma RatioBound(l: nat, e: nat)
    requires l <= USIZE_MAX
    ensures Ratio(l, e) <= USIZE_MAX && (e == 0 ==> Ratio(l, e) == USIZE_MAX)
  {
    if e > 0 {
      DivLower(l, 1, l / e);
      DivMonoDen(l, 1, e);
    }
  }

  /// A box with no extent at all gets layer 64, the bit length of
  /// `usize::MAX`.
  lemma LayerPoint(loose: Vec3, e: Aabb)
    requires Fits(loose) && WellFormed(e) && Dim(e) == Vec3(0, 0, 0)
    ensures CalcLayer(loose, Dim(e)) == 64
  {
    Pow2Word();
    BitLenOnes(64);
  }
}
