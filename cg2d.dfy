/** Point-in-triangle and point-in-quadrilateral classification by the signs of
    cross products (cg2d/src/lib.rs). The coordinate scalar is modelled as `int`. */
module Cg2d {

  datatype Point2 = Point2(x: int, y: int)

  /** The three answers of a classification. */
  datatype InnOuter = Inner | Outer | Boundary

  /** The vector from `q` to `p`. */
  function Sub(p: Point2, q: Point2): Point2 {
    Point2(p.x - q.x, p.y - q.y)
  }

  /** The 2D cross product (z component of the 3D one). */
  function Cross(a: Point2, b: Point2): int {
    a.x * b.y - a.y * b.x
  }

  /** Reference rule shared by both classifiers: the first product fixes a sign;
      a zero first product is a boundary hit. Then the later products are read in
      order and the first one that does not have that sign decides: zero means
      `Boundary`, the opposite sign means `Outer`. When all agree the point is `Inner`. */
  function SignScan(first: int, rest: seq<int>): (r: InnOuter)
    ensures first == 0 ==> r == Boundary
    ensures r == Inner <==>
              (first > 0 && forall k :: 0 <= k < |rest| ==> rest[k] > 0) ||
              (first < 0 && forall k :: 0 <= k < |rest| ==> rest[k] < 0)
    ensures r == Outer ==>
              exists k :: 0 <= k < |rest| && rest[k] != 0 && (rest[k] > 0 <==> first < 0)
  {
    if first == 0 then Boundary
    else if rest == [] then Inner
    else if rest[0] == 0 then Boundary
    else if (rest[0] > 0) != (first > 0) then Outer
    else SignScan(first, rest[1..])
  }

  /** The branch tree of `include_tri2` over its three cross products `r`, `r2`, `r3`
      (the source computes each only when the previous one has a strict sign). */
  function Decide3(r: int, r2: int, r3: int): (c: InnOuter)
    ensures c == SignScan(r, [r2, r3])
  {
    if r > 0 then
      if r2 > 0 then
        if r3 > 0 then Inner else if r3 < 0 then Outer else Boundary
      else if r2 < 0 then Outer
      else Boundary
    else if r < 0 then
      if r2 < 0 then
        if r3 < 0 then Inner else if r3 > 0 then Outer else Boundary
      else if r2 > 0 then Outer
      else Boundary
    else
      Boundary
  }

  /** The branch tree of `include_quad2` over its four cross products. */
  function Decide4(r: int, r2: int, r3: int, r4: int): (c: InnOuter)
    ensures c == SignScan(r, [r2, r3, r4])
  {
    assert [r2, r3, r4][1..] == [r3, r4] && [r3, r4][1..] == [r4];
    assert SignScan(r, [r4][1..]) == SignScan(r, []);
    assert SignScan(r, [r3, r4][1..]) == SignScan(r, [r4]);
    assert SignScan(r, [r2, r3, r4][1..]) == SignScan(r, [r3, r4]);
    if r > 0 then
      if r2 > 0 then
        if r3 > 0 then
          if r4 > 0 then Inner else if r4 < 0 then Outer else Boundary
        else if r3 < 0 then Outer
        else Boundary
      else if r2 < 0 then Outer
      else Boundary
    else if r < 0 then
      if r2 < 0 then
        if r3 < 0 then
          if r4 < 0 then Inner else if r4 > 0 then Outer else Boundary
        else if r3 > 0 then Outer
        else Boundary
      else if r2 > 0 then Outer
      else Boundary
    else
      Boundary
  }

  /** `include_tri2`: classify `p` against the triangle `p1 p2 p3`. */
  function IncludeTri2(p: Point2, p1: Point2, p2: Point2, p3: Point2): (r: InnOuter)
    ensures r == SignScan(Cross(Sub(p, p1), Sub(p, p2)), [Cross(Sub(p, p2), Sub(p, p3)), Cross(Sub(p, p3), Sub(p, p1))])
  {
    var v1 := Sub(p, p1);
    var v2 := Sub(p, p2);
    var v3 := Sub(p, p3);
    Decide3(Cross(v1, v2), Cross(v2, v3), Cross(v3, v1))
  }

  /** `include_quad2`: classify `p` against the quadrilateral `p1 p2 p3 p4`. */
  function IncludeQuad2(p: Point2, p1: Point2, p2: Point2, p3: Point2, p4: Point2): (r: InnOuter)
    ensures r == SignScan(Cross(Sub(p, p1), Sub(p, p2)),
                          [Cross(Sub(p, p2), Sub(p, p3)), Cross(Sub(p, p3), Sub(p, p4)), Cross(Sub(p, p4), Sub(p, p1))])
  {
    var v1 := Sub(p, p1);
    var v2 := Sub(p, p2);
    var v3 := Sub(p, p3);
    var v4 := Sub(p, p4);
    Decide4(Cross(v1, v2), Cross(v2, v3), Cross(v3, v4), Cross(v4, v1))
  }

  /** A zero first product `(p-p1)x(p-p2)` always gives `Boundary`. */
  lemma TriZeroFirstIsBoundary(p: Point2, p1: Point2, p2: Point2, p3: Point2)
    requires Cross(Sub(p, p1), Sub(p, p2)) == 0
    ensures IncludeTri2(p, p1, p2, p3) == Boundary
  {
  }

  /** `Inner` exactly when the three products share one strict sign. */
  lemma TriInnerIffSameSign(p: Point2, p1: Point2, p2: Point2, p3: Point2)
    ensures var a, b, c := Cross(Sub(p, p1), Sub(p, p2)), Cross(Sub(p, p2), Sub(p, p3)),
                          Cross(Sub(p, p3), Sub(p, p1));
            IncludeTri2(p, p1, p2, p3) == Inner <==> (a > 0 && b > 0 && c > 0) || (a < 0 && b < 0 && c < 0)
  {
    var a, b, c := Cross(Sub(p, p1), Sub(p, p2)), Cross(Sub(p, p2), Sub(p, p3)),
                   Cross(Sub(p, p3), Sub(p, p1));
    assert [b, c][0] == b && [b, c][1] == c;
  }

  /** Each vertex of the triangle lies on its boundary: the difference vector for
      that vertex is zero, so one of the products read is zero before any sign clash. */
  lemma TriVerticesAreBoundary(p1: Point2, p2: Point2, p3: Point2)
    ensures IncludeTri2(p1, p1, p2, p3) == Boundary
    ensures IncludeTri2(p2, p1, p2, p3) == Boundary
    ensures IncludeTri2(p3, p1, p2, p3) == Boundary
  {
  }

  /** `Inner` for the quadrilateral exactly when the four products share one strict sign. */
  lemma QuadInnerIffSameSign(p: Point2, p1: Point2, p2: Point2, p3: Point2, p4: Point2)
    ensures var a, b, c, d := Cross(Sub(p, p1), Sub(p, p2)), Cross(Sub(p, p2), Sub(p, p3)),
                             Cross(Sub(p, p3), Sub(p, p4)), Cross(Sub(p, p4), Sub(p, p1));
            IncludeQuad2(p, p1, p2, p3, p4) == Inner <==>
              (a > 0 && b > 0 && c > 0 && d > 0) || (a < 0 && b < 0 && c < 0 && d < 0)
  {
    var a, b, c, d := Cross(Sub(p, p1), Sub(p, p2)), Cross(Sub(p, p2), Sub(p, p3)),
                      Cross(Sub(p, p3), Sub(p, p4)), Cross(Sub(p, p4), Sub(p, p1));
    assert [b, c, d][0] == b && [b, c, d][1] == c && [b, c, d][2] == d;
  }

  /** The first three vertices of the quadrilateral are always on its boundary; the
      fourth is when the first two products agree in sign (a convex, consistently
      wound quadrilateral, which is what the source asks of its callers). */
  lemma QuadVerticesAreBoundary(p1: Point2, p2: Point2, p3: Point2, p4: Point2)
    ensures IncludeQuad2(p1, p1, p2, p3, p4) == Boundary
    ensures IncludeQuad2(p2, p1, p2, p3, p4) == Boundary
    ensures IncludeQuad2(p3, p1, p2, p3, p4) == Boundary
    ensures Cross(Sub(p4, p1), Sub(p4, p2)) * Cross(Sub(p4, p2), Sub(p4, p3)) >= 0 ==>
              IncludeQuad2(p4, p1, p2, p3, p4) == Boundary
  {
  }
}
