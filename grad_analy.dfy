/** Index bookkeeping of the gradient analysis (polygon/src/grad_analy.rs):
    rotating the source points, the closed ring of edges, the bracketing search
    over gradient stops, ordering result points by direction, and selecting the
    points of each gradient band for fan triangulation. Point and stop records are
    fixed-size `f32` arrays, modelled as `real` sequences of the same sizes; only
    the fields these functions read are used. */
module GradAnaly {
  import Polygon

  type U16 = Polygon.U16

  const POINT_DIRECT_INDEX: nat := 10
  const POINT_ISSRC_INDEX: nat := 13
  const POINT_DATA_SIZE: nat := 14
  const GRAD_DIRECT_INDEX: nat := 0
  const GRAD_DATA_SIZE: nat := 9

  /** A point record `[f32; 14]`. */
  type PointData = p: seq<real> | |p| == POINT_DATA_SIZE witness seq(POINT_DATA_SIZE, _ => 0.0)

  /** A gradient stop record `[f32; 9]`. */
  type GradData = g: seq<real> | |g| == GRAD_DATA_SIZE witness seq(GRAD_DATA_SIZE, _ => 0.0)

  function Direct(p: PointData): real { p[POINT_DIRECT_INDEX] }

  function IsSrc(p: PointData): bool { p[POINT_ISSRC_INDEX] == 1.0 }

  /** The direction keys of the stops, in order. */
  function GradKeys(grads: seq<GradData>): (keys: seq<real>)
    ensures |keys| == |grads|
    ensures forall i :: 0 <= i < |grads| ==> keys[i] == grads[i][GRAD_DIRECT_INDEX]
  {
    seq(|grads|, i requires 0 <= i < |grads| => grads[i][GRAD_DIRECT_INDEX])
  }

  // ---------------------------------------------------------------------------
  // Rotation and edges

  /** A value cast `as i16`: the low 16 bits, read as two's complement. */
  function AsI16(x: int): (r: int)
    ensures -0x8000 <= r < 0x8000 && (r - x) % 0x1_0000 == 0
    ensures -0x8000 <= x < 0x8000 ==> r == x
  {
    var m := x % 0x1_0000;
    if m >= 0x8000 then m - 0x1_0000 else m
  }

  /** `resort_src_point`: the points from `k` up to the last one, then the
      points before `k`. The first loop stops at `(count - 1) as i16`, so with
      32769 points or more it stops at the wrapped value, and is skipped when
      that value is negative. `count - 1` underflows without points, the `i16`
      counter overflows when its bound is 32767, and an index outside the list
      panics; those inputs are excluded. */
  method ResortSrcPoint<T>(list: seq<T>, k: int) returns (r: seq<T>)
    requires 1 <= |list| && AsI16(|list| - 1) < 0x7FFF
    requires 0 <= k <= |list| && k < 0x8000
    ensures var last := AsI16(|list| - 1);
            r == (if k <= last then list[k..last + 1] else []) + list[..k]
    ensures |list| <= 0x7FFF ==> r == list[k..] + list[..k]
  {
    var count := |list|;
    var last := AsI16(count - 1);
    var index := k;
    r := [];
    while index <= last
      invariant k <= index && (k <= last ==> index <= last + 1 <= count)
      invariant k > last ==> index == k
      invariant r == list[k..index]
    {
      r := r + [list[index]];
      index := index + 1;
    }
    ghost var first := r;
    index := 0;
    while index <= k - 1
      invariant 0 <= index <= k
      invariant r == first + list[..index]
    {
      r := r + [list[index]];
      index := index + 1;
    }
  }

  /** A rotation is a permutation of the points, and rotating by the remaining
      amount restores the original order. */
  lemma RotationInverse<T>(list: seq<T>, k: nat)
    requires k <= |list|
    ensures multiset(list[k..] + list[..k]) == multiset(list)
    ensures var r := list[k..] + list[..k]; r[|list| - k..] + r[..|list| - k] == list
  {
    assert list == list[..k] + list[k..];
    var r := list[k..] + list[..k];
    assert r[|list| - k..] == list[..k];
    assert r[..|list| - k] == list[k..];
  }

  /** The index pairs `analy_resort_src_point_line` builds: the edge from each
      point to the next, and the closing edge from the last point to the first.
      `count - 1` underflows without points. It is cast `as u16`, so with more
      than 65536 points the ring closes at the wrapped index. */
  method LineIndexPairs(list: seq<PointData>) returns (pairs: seq<(U16, U16)>)
    requires 1 <= |list|
    ensures var last := Polygon.AsU16(|list| - 1);
            |pairs| == last + 1 && pairs[last] == (last, 0) &&
            forall i :: 0 <= i < last ==> pairs[i] == (i, i + 1)
    ensures |list| <= 0x1_0000 ==>
              |pairs| == |list| &&
              forall i :: 0 <= i < |list| ==> pairs[i] == (i, if i + 1 == |list| then 0 else i + 1)
  {
    var count := |list|;
    var last := Polygon.AsU16(count - 1);
    pairs := [];
    var index := 0;
    while index < last
      invariant 0 <= index <= last && |pairs| == index
      invariant forall i :: 0 <= i < index ==> pairs[i] == (i, i + 1)
    {
      pairs := pairs + [(index, index + 1)];
      index := index + 1;
    }
    pairs := pairs + [(last, 0)];
  }

  /** The edges form one closed ring: every point starts exactly one edge and
      ends exactly one edge, the one from its predecessor around the ring. */
  lemma LinePairsRing(n: nat, pairs: seq<(U16, U16)>, v: nat)
    requires 1 <= n <= 0x1_0000 && |pairs| == n
    requires forall i :: 0 <= i < n ==> pairs[i] == (i, if i + 1 == n then 0 else i + 1)
    requires v < n
    ensures pairs[v].0 == v
    ensures var u := if v == 0 then n - 1 else v - 1; pairs[u].1 == v
    ensures forall i :: 0 <= i < n && pairs[i].1 == v ==> i == if v == 0 then n - 1 else v - 1
  {
  }

  // ---------------------------------------------------------------------------
  // Gradient stops

  /** `find_pre_next_grad_direct` over the stops' `GRAD_DIRECT` field. The
      count is cast `as u16`, so only the first `|grads| % 65536` stops are
      searched, and `(count as u16) - 1` underflows when that is 0. */
  method FindPreNextGradDirect(grads: seq<GradData>, targ: real) returns (r: Polygon.Bracket)
    ensures Polygon.BracketOk(Polygon.CutU16(GradKeys(grads)), targ, r)
    ensures |grads| < 0x1_0000 ==> Polygon.BracketOk(GradKeys(grads), targ, r)
  {
    ghost var keys := Polygon.CutU16(GradKeys(grads));
    var count := Polygon.AsU16(|grads|);
    if count == 0 {
      // `(count as u16) - 1` underflows
      return Polygon.Underflow;
    }
    var pre := 0;
    var nxt := 0;
    var index := 0;
    while index <= count - 1
      invariant 0 <= index <= count
      invariant forall j :: 0 <= j < index ==> keys[j] <= targ
      invariant index == 0 ==> pre == 0 && nxt == 0
      invariant index > 0 ==> pre == index - 1 && nxt == index - 1
    {
      assert keys[index] == grads[index][GRAD_DIRECT_INDEX];
      if grads[index][GRAD_DIRECT_INDEX] <= targ {
        pre := index;
      } else {
        nxt := index;
        break;
      }
      nxt := index;
      index := index + 1;
    }
    if pre == nxt {
      if nxt == 0 {
        return Polygon.Underflow;
      }
      pre := nxt - 1;
    }
    r := Polygon.Pair(pre, nxt);
  }

  // ---------------------------------------------------------------------------
  // Ordering result points by direction

  /** The direction of every point, in order. */
  function Directs(points: seq<PointData>): (keys: seq<real>)
    ensures |keys| == |points|
    ensures forall i :: 0 <= i < |points| ==> keys[i] == Direct(points[i])
  {
    seq(|points|, i requires 0 <= i < |points| => Direct(points[i]))
  }

  /** Every entry of `list` indexes a key. */
  predicate IndexesInto(list: seq<nat>, n: nat) {
    forall i :: 0 <= i < |list| ==> list[i] < n
  }

  /** The position `resort_result_points` searches for: the first entry of `list`
      whose key is at least `key`, or -1 when there is none. */
  function FirstAtLeast(keys: seq<real>, list: seq<nat>, key: real, from: nat): (r: int)
    requires from <= |list| && IndexesInto(list, |keys|)
    ensures r == -1 || from <= r < |list|
    ensures r == -1 <==> forall i :: from <= i < |list| ==> keys[list[i]] < key
    ensures r >= 0 ==> key <= keys[list[r]] && forall i :: from <= i < r ==> keys[list[i]] < key
    decreases |list| - from
  {
    if from == |list| then -1
    else if key <= keys[list[from]] then from
    else FirstAtLeast(keys, list, key, from + 1)
  }

  /** One step of `resort_result_points` as written: the test `result_index <= 0`
      appends the new index when the search lands on position 0. */
  function ResortStepAsWritten(keys: seq<real>, list: seq<nat>, x: nat): (r: seq<nat>)
    requires x < |keys| && IndexesInto(list, |keys|)
    ensures IndexesInto(r, |keys|)
  {
    var ri := FirstAtLeast(keys, list, keys[x], 0);
    if ri <= 0 then list + [x] else InsertAt(list, ri, x)
  }

  /** `list` with `x` inserted at position `p`. */
  function InsertAt(list: seq<nat>, p: nat, x: nat): (r: seq<nat>)
    requires p <= |list|
    ensures |r| == |list| + 1 && r[p] == x
    ensures forall i :: 0 <= i < p ==> r[i] == list[i]
    ensures forall i :: p < i < |r| ==> r[i] == list[i - 1]
    ensures multiset(r) == multiset(list) + multiset{x}
  {
    assert list == list[..p] + list[p..];
    list[..p] + [x] + list[p..]
  }

  /** `resort_result_points` as written, over the first `n` points. */
  function ResortResultPointsAsWritten(keys: seq<real>, n: nat): (r: seq<nat>)
    requires n <= |keys|
    ensures IndexesInto(r, |keys|)
  {
    if n == 0 then [] else ResortStepAsWritten(keys, ResortResultPointsAsWritten(keys, n - 1), n - 1)
  }

  /** Sorted by key, as the order the function's name promises. */
  predicate SortedByKey(keys: seq<real>, list: seq<nat>)
    requires IndexesInto(list, |keys|)
  {
    forall i, j :: 0 <= i < j < |list| ==> keys[list[i]] <= keys[list[j]]
  }

  /** Two points whose directions are 1 and 0 come out as `[0, 1]`: the second
      point belongs before the first, but position 0 is treated like "not found". */
  lemma ResortAsWrittenUnsorted(keys: seq<real>)
    requires keys == [1.0, 0.0]
    ensures ResortResultPointsAsWritten(keys, 2) == [0, 1]
    ensures !SortedByKey(keys, ResortResultPointsAsWritten(keys, 2))
  {
    assert ResortResultPointsAsWritten(keys, 1) == [0];
    assert FirstAtLeast(keys, [0], keys[1], 0) == 0;
    assert ResortResultPointsAsWritten(keys, 2) == ResortStepAsWritten(keys, [0], 1) == [0, 1];
    var r := [0, 1];
    assert keys[r[0]] > keys[r[1]];
  }

  /** One step with the evidently intended test `result_index < 0`: insert the
      new index before the first entry whose key is at least its own. */
  function ResortStep(keys: seq<real>, list: seq<nat>, x: nat): (r: seq<nat>)
    requires x < |keys| && IndexesInto(list, |keys|)
    ensures multiset(r) == multiset(list) + multiset{x}
    ensures IndexesInto(r, |keys|)
  {
    var ri := FirstAtLeast(keys, list, keys[x], 0);
    if ri < 0 then list + [x] else InsertAt(list, ri, x)
  }

  /** The order of the first `n` points with the corrected test. */
  function ResortSpec(keys: seq<real>, n: nat): (r: seq<nat>)
    requires n <= |keys|
    ensures IndexesInto(r, |keys|)
  {
    if n == 0 then [] else ResortStep(keys, ResortSpec(keys, n - 1), n - 1)
  }

  /** Inserting at the searched position keeps the list sorted by key. */
  lemma ResortStepSorted(keys: seq<real>, list: seq<nat>, x: nat)
    requires x < |keys| && IndexesInto(list, |keys|)
    requires SortedByKey(keys, list)
    ensures SortedByKey(keys, ResortStep(keys, list, x))
  {
    var ri := FirstAtLeast(keys, list, keys[x], 0);
    var r := ResortStep(keys, list, x);
    if ri >= 0 {
      assert r == list[..ri] + [x] + list[ri..];
      forall i, j | 0 <= i < j < |r|
        ensures keys[r[i]] <= keys[r[j]]
      {
        if j < ri {
          assert r[i] == list[i] && r[j] == list[j];
        } else if j == ri {
          assert r[j] == x && r[i] == list[i];
        } else if i < ri {
          assert r[i] == list[i] && r[j] == list[j - 1];
        } else if i == ri {
          assert r[i] == x && r[j] == list[j - 1];
          assert keys[list[ri]] <= keys[list[j - 1]];
        } else {
          assert r[i] == list[i - 1] && r[j] == list[j - 1];
        }
      }
    }
  }

  /** The corrected order is sorted by direction and is a permutation of the
      point indices `0 .. n - 1`. */
  lemma {:induction false} ResortSortedPermutation(keys: seq<real>, n: nat)
    requires n <= |keys|
    ensures SortedByKey(keys, ResortSpec(keys, n))
    ensures multiset(ResortSpec(keys, n)) == multiset(Range(n))
  {
    if n > 0 {
      ResortSortedPermutation(keys, n - 1);
      ResortStepSorted(keys, ResortSpec(keys, n - 1), n - 1);
      assert Range(n) == Range(n - 1) + [n - 1];
    }
  }

  /** The indices `0 .. n - 1` in order. */
  function Range(n: nat): (r: seq<nat>)
    ensures |r| == n && forall i :: 0 <= i < n ==> r[i] == i
  {
    if n == 0 then [] else Range(n - 1) + [n - 1]
  }

  /** The position the search loop stops at is the one `FirstAtLeast` names. */
  lemma FirstAtLeastIs(keys: seq<real>, list: seq<nat>, key: real, k: int)
    requires IndexesInto(list, |keys|)
    requires k == -1 || 0 <= k < |list|
    requires k == -1 ==> forall i :: 0 <= i < |list| ==> keys[list[i]] < key
    requires k >= 0 ==> key <= keys[list[k]] && forall i :: 0 <= i < k ==> keys[list[i]] < key
    ensures FirstAtLeast(keys, list, key, 0) == k
  {
    FirstAtLeastFrom(keys, list, key, 0, k);
  }

  lemma {:induction false} FirstAtLeastFrom(keys: seq<real>, list: seq<nat>, key: real, from: nat, k: int)
    requires from <= |list| && IndexesInto(list, |keys|)
    requires k == -1 || from <= k < |list|
    requires k == -1 ==> forall i :: from <= i < |list| ==> keys[list[i]] < key
    requires k >= 0 ==> key <= keys[list[k]] && forall i :: from <= i < k ==> keys[list[i]] < key
    ensures FirstAtLeast(keys, list, key, from) == k
    decreases |list| - from
  {
    if from < |list| && from != k {
      FirstAtLeastFrom(keys, list, key, from + 1, k);
    }
  }

  /** One more point: the corrected order grows by the step at the position
      the search found. */
  lemma ResortSpecStep(keys: seq<real>, n: nat, k: int)
    requires n < |keys|
    requires k == -1 || 0 <= k < |ResortSpec(keys, n)|
    requires k == -1 ==> forall i :: 0 <= i < |ResortSpec(keys, n)| ==> keys[ResortSpec(keys, n)[i]] < keys[n]
    requires k >= 0 ==> keys[n] <= keys[ResortSpec(keys, n)[k]]
    requires forall i :: 0 <= i < k ==> keys[ResortSpec(keys, n)[i]] < keys[n]
    ensures ResortSpec(keys, n + 1) ==
      if k < 0 then ResortSpec(keys, n) + [n] else InsertAt(ResortSpec(keys, n), k, n)
  {
    FirstAtLeastIs(keys, ResortSpec(keys, n), keys[n], k);
  }

  /** `resort_result_points` with the corrected test, ordering the points by their
      `POINT_DIRECT` field. The counters are `u16` and the found position is an
      `i16`, so there are at most 32768 points. */
  method ResortResultPoints(points: seq<PointData>) returns (r: seq<nat>)
    requires |points| <= 0x8000
    ensures r == ResortSpec(Directs(points), |points|)
  {
    ghost var keys := Directs(points);
    var count := |points|;
    r := [];
    var index := 0;
    while index < count
      invariant 0 <= index <= count
      invariant r == ResortSpec(keys, index)
    {
      var key := points[index][POINT_DIRECT_INDEX];
      assert key == keys[index];
      var count0 := |r|;
      var index0 := 0;
      var resultIndex := -1;
      while index0 < count0
        invariant 0 <= index0 <= count0
        invariant resultIndex == -1
        invariant forall i :: 0 <= i < index0 ==> keys[r[i]] < key
      {
        var compIndex := r[index0];
        if key <= points[compIndex][POINT_DIRECT_INDEX] {
          resultIndex := index0;
          break;
        }
        index0 := index0 + 1;
      }
      ResortSpecStep(keys, index, resultIndex);
      if resultIndex < 0 {
        r := r + [index];
      } else {
        r := InsertAt(r, resultIndex, index);
      }
      index := index + 1;
    }
  }

  // ---------------------------------------------------------------------------
  // Band selection and triangulation

  /** `sort()` on a `Vec<u16>`: the ascending permutation, by insertion. */
  function SortAsc(s: seq<U16>): (r: seq<U16>)
    ensures |r| == |s| && multiset(r) == multiset(s)
    ensures Ascending(r)
  {
    if s == [] then [] else
      assert s == [s[0]] + s[1..];
      InsertAsc(s[0], SortAsc(s[1..]))
  }

  function InsertAsc(x: U16, s: seq<U16>): (r: seq<U16>)
    requires Ascending(s)
    ensures |r| == |s| + 1 && multiset(r) == multiset(s) + multiset{x}
    ensures Ascending(r)
  {
    if s == [] || x <= s[0] then [x] + s
    else
      var t := InsertAsc(x, s[1..]);
      InsertAscCons(x, s, t);
      [s[0]] + t
  }

  /** The head of `s` stays in front when `x` goes into the tail. */
  lemma InsertAscCons(x: U16, s: seq<U16>, t: seq<U16>)
    requires s != [] && s[0] < x && Ascending(s)
    requires multiset(t) == multiset(s[1..]) + multiset{x} && Ascending(t)
    ensures multiset([s[0]] + t) == multiset(s) + multiset{x}
    ensures Ascending([s[0]] + t)
  {
    assert s == [s[0]] + s[1..];
    forall i | 0 <= i < |t|
      ensures s[0] <= t[i]
    {
      assert t[i] in multiset(t);
      if t[i] != x {
        assert t[i] in multiset(s[1..]);
        var j :| 0 <= j < |s[1..]| && s[1..][j] == t[i];
        assert s[0] <= s[j + 1];
      }
    }
    var r := [s[0]] + t;
    forall i, j | 0 <= i < j < |r|
      ensures r[i] <= r[j]
    {
      if i > 0 {
        assert r[i] == t[i - 1] && r[j] == t[j - 1];
      }
    }
  }

  /** The three direction bands of the selectors: below the lowest stop, from a
      stop up to (not including) the next, and above the highest stop. */
  datatype Band = Below(lo: real) | Within(lo: real, hi: real) | Above(hi: real)

  predicate InBand(b: Band, d: real) {
    match b
    case Below(lo) => d < lo
    case Within(lo, hi) => lo <= d < hi
    case Above(hi) => hi < d
  }

  /** Between two stops `lo < hi`, the three bands are disjoint, and every
      direction except the upper stop itself falls in one of them. */
  lemma BandsPartition(lo: real, hi: real, d: real)
    requires lo < hi
    ensures !(InBand(Below(lo), d) && InBand(Within(lo, hi), d))
    ensures !(InBand(Within(lo, hi), d) && InBand(Above(hi), d))
    ensures !(InBand(Below(lo), d) && InBand(Above(hi), d))
    ensures InBand(Below(lo), d) || InBand(Within(lo, hi), d) || InBand(Above(hi), d) <==> d != hi
  {
  }

  /** The source points of `order` whose direction is in the band, in that order. */
  function Select(points: seq<PointData>, order: seq<U16>, b: Band): (r: seq<U16>)
    requires forall i :: 0 <= i < |order| ==> order[i] < |points|
    ensures forall i :: 0 <= i < |r| ==> r[i] in order && IsSrc(points[r[i]]) && InBand(b, Direct(points[r[i]]))
    ensures forall i :: 0 <= i < |order| && IsSrc(points[order[i]]) && InBand(b, Direct(points[order[i]])) ==>
              order[i] in r
  {
    if order == [] then []
    else
      var last := order[|order| - 1];
      var rest := Select(points, order[..|order| - 1], b);
      assert forall i :: 0 <= i < |order| - 1 ==> order[i] == order[..|order| - 1][i];
      if IsSrc(points[last]) && InBand(b, Direct(points[last])) then rest + [last] else rest
  }

  /** The outcome of `analy_triangles_points`: the output with the fan
      appended, or the `u16` underflow of `count - 1` (a panic in the source). */
  datatype Appended = Appended(out: seq<U16>) | CountUnderflow

  /** `analy_triangles_points`: appends the fan over `indexList`. The count is
      read `as u16`, so only the first `|indexList| % 65536` indices are fanned,
      and `count - 1` underflows when that is 0. */
  method AnalyTrianglesPoints(indexList: seq<U16>, tri: seq<U16>) returns (r: Appended)
    ensures r.CountUnderflow? <==> Polygon.AsU16(|indexList|) == 0
    ensures r.Appended? ==> r.out == tri + Polygon.Fan(Polygon.CutU16(indexList))
  {
    var count := Polygon.AsU16(|indexList|);
    if count == 0 {
      // `count - 1` underflows
      return CountUnderflow;
    }
    ghost var l := Polygon.CutU16(indexList);
    var out := tri;
    var index := 1;
    while index < count - 1
      invariant 1 <= index && (count >= 2 ==> index <= count - 1)
      invariant count >= 2 ==> out == tri + Polygon.Fan(l[..index + 1])
      invariant count < 2 ==> out == tri
    {
      assert l[..index + 2][..index + 1] == l[..index + 1];
      assert l[index] == indexList[index] && l[index + 1] == indexList[index + 1] && l[0] == indexList[0];
      out := out + [indexList[0], indexList[index], indexList[index + 1]];
      index := index + 1;
    }
    if count >= 2 {
      assert l[..count] == l;
    }
    r := Appended(out);
  }

  /** The scan the three band selectors share: walks the first
      `|order| % 65536` entries of `order` (the count is read `as u16`) and
      keeps the source points in the band. */
  method SelectLoop(points: seq<PointData>, order: seq<U16>, b: Band) returns (list: seq<U16>)
    requires IndexesInto(Polygon.CutU16(order), |points|)
    ensures list == Select(points, Polygon.CutU16(order), b)
  {
    ghost var scanned := Polygon.CutU16(order);
    list := [];
    var count := Polygon.AsU16(|order|);
    var index := 0;
    while index < count
      invariant 0 <= index <= count
      invariant list == Select(points, scanned[..index], b)
    {
      assert scanned[..index + 1][..index] == scanned[..index];
      assert scanned[index] == order[index];
      var resultIndex := order[index];
      var p := points[resultIndex];
      if IsSrc(p) && InBand(b, Direct(p)) {
        list := list + [resultIndex];
      }
      index := index + 1;
    }
    assert scanned[..count] == scanned;
  }

  /** The sorted list a band selector fans: the source points of the scanned
      part of `order` in band `b`, then the scanned part of each stop's result
      points. */
  function Gathered(points: seq<PointData>, order: seq<U16>, b: Band, stopPoints: seq<U16>): seq<U16>
    requires IndexesInto(Polygon.CutU16(order), |points|)
  {
    SortAsc(Select(points, Polygon.CutU16(order), b) + stopPoints)
  }

  /** `analy_triangles_lower_min`: the source points below the lowest stop plus the
      points found on that stop's line, sorted, then fan-triangulated. */
  method AnalyTrianglesLowerMin(minGrad: GradData, gradResult: seq<U16>, points: seq<PointData>,
                                order: seq<U16>, tri: seq<U16>) returns (r: Appended)
    requires IndexesInto(Polygon.CutU16(order), |points|)
    ensures var l := Gathered(points, order, Below(minGrad[GRAD_DIRECT_INDEX]), Polygon.CutU16(gradResult));
            (r.CountUnderflow? <==> Polygon.AsU16(|l|) == 0) &&
            (r.Appended? ==> r.out == tri + Polygon.Fan(Polygon.CutU16(l)))
  {
    var indexList := SelectLoop(points, order, Below(minGrad[GRAD_DIRECT_INDEX]));
    indexList := indexList + Polygon.CutU16(gradResult);
    indexList := SortAsc(indexList);
    r := AnalyTrianglesPoints(indexList, tri);
  }

  /** `analy_triangles_between_min_max`: the source points from one stop up to the
      next plus the points on both stops' lines, sorted, then fan-triangulated. */
  method AnalyTrianglesBetweenMinMax(minGrad: GradData, minResult: seq<U16>, maxGrad: GradData,
                                     maxResult: seq<U16>, points: seq<PointData>, order: seq<U16>,
                                     tri: seq<U16>) returns (r: Appended)
    requires IndexesInto(Polygon.CutU16(order), |points|)
    ensures var l := Gathered(points, order, Within(minGrad[GRAD_DIRECT_INDEX], maxGrad[GRAD_DIRECT_INDEX]),
                              Polygon.CutU16(minResult) + Polygon.CutU16(maxResult));
            (r.CountUnderflow? <==> Polygon.AsU16(|l|) == 0) &&
            (r.Appended? ==> r.out == tri + Polygon.Fan(Polygon.CutU16(l)))
  {
    var indexList := SelectLoop(points, order, Within(minGrad[GRAD_DIRECT_INDEX], maxGrad[GRAD_DIRECT_INDEX]));
    indexList := indexList + Polygon.CutU16(minResult);
    indexList := indexList + Polygon.CutU16(maxResult);
    assert indexList == Select(points, Polygon.CutU16(order), Within(minGrad[GRAD_DIRECT_INDEX], maxGrad[GRAD_DIRECT_INDEX]))
                        + (Polygon.CutU16(minResult) + Polygon.CutU16(maxResult));
    indexList := SortAsc(indexList);
    r := AnalyTrianglesPoints(indexList, tri);
  }

  /** `analy_triangles_big_max`: the source points above the highest stop plus the
      points on that stop's line, sorted, then fan-triangulated. */
  method AnalyTrianglesBigMax(maxGrad: GradData, gradResult: seq<U16>, points: seq<PointData>,
                              order: seq<U16>, tri: seq<U16>) returns (r: Appended)
    requires IndexesInto(Polygon.CutU16(order), |points|)
    ensures var l := Gathered(points, order, Above(maxGrad[GRAD_DIRECT_INDEX]), Polygon.CutU16(gradResult));
            (r.CountUnderflow? <==> Polygon.AsU16(|l|) == 0) &&
            (r.Appended? ==> r.out == tri + Polygon.Fan(Polygon.CutU16(l)))
  {
    var indexList := SelectLoop(points, order, Above(maxGrad[GRAD_DIRECT_INDEX]));
    indexList := indexList + Polygon.CutU16(gradResult);
    indexList := SortAsc(indexList);
    r := AnalyTrianglesPoints(indexList, tri);
  }

  /** The selectors sort what they gather, so the order of `order` does not matter:
      any permutation of it gives the same triangles. */
  lemma SelectionOrderIrrelevant(points: seq<PointData>, o1: seq<U16>, o2: seq<U16>, b: Band, extra: seq<U16>)
    requires forall i :: 0 <= i < |o1| ==> o1[i] < |points|
    requires forall i :: 0 <= i < |o2| ==> o2[i] < |points|
    requires multiset(o1) == multiset(o2)
    ensures SortAsc(Select(points, o1, b) + extra) == SortAsc(Select(points, o2, b) + extra)
  {
    SelectMultiset(points, o1, b);
    SelectMultiset(points, o2, b);
    var s1, s2 := Select(points, o1, b), Select(points, o2, b);
    assert multiset(s1) == multiset(s2) by {
      forall x ensures multiset(s1)[x] == multiset(s2)[x] {
      }
    }
    assert multiset(s1 + extra) == multiset(s2 + extra);
    SortedUnique(SortAsc(s1 + extra), SortAsc(s2 + extra));
  }

  /** A selection keeps every occurrence of a kept point and none of the others,
      so its multiset depends only on the multiset of `order`. */
  lemma {:induction false} SelectMultiset(points: seq<PointData>, order: seq<U16>, b: Band)
    requires forall i :: 0 <= i < |order| ==> order[i] < |points|
    ensures forall x: int :: multiset(Select(points, order, b))[x] ==
              if 0 <= x < |points| && IsSrc(points[x]) && InBand(b, Direct(points[x])) then multiset(order)[x] else 0
  {
    if order != [] {
      var init := order[..|order| - 1];
      SelectMultiset(points, init, b);
      assert order == init + [order[|order| - 1]];
    }
  }

  predicate Ascending(s: seq<U16>) {
    forall i, j :: 0 <= i < j < |s| ==> s[i] <= s[j]
  }

  /** The head of an ascending sequence is at most each of its elements. */
  lemma HeadIsLeast(a: seq<U16>, x: U16)
    requires Ascending(a) && a != [] && x in multiset(a)
    ensures a[0] <= x
  {
    assert x in a;
    var m :| 0 <= m < |a| && a[m] == x;
  }

  /** Dropping the head keeps a sequence ascending. */
  lemma AscendingTail(a: seq<U16>)
    requires Ascending(a) && a != []
    ensures Ascending(a[1..])
  {
    forall i, j | 0 <= i < j < |a| - 1
      ensures a[1..][i] <= a[1..][j]
    {
      assert a[1..][i] == a[i + 1] && a[1..][j] == a[j + 1];
    }
  }

  /** Two ascending sequences with the same elements are equal. */
  lemma {:induction false} SortedUnique(a: seq<U16>, b: seq<U16>)
    requires multiset(a) == multiset(b)
    requires Ascending(a) && Ascending(b)
    ensures a == b
  {
    assert |a| == |multiset(a)| == |multiset(b)| == |b|;
    if a != [] {
      assert b[0] in multiset(b);
      HeadIsLeast(a, b[0]);
      assert a[0] in multiset(a);
      HeadIsLeast(b, a[0]);
      var x := a[0];
      assert b[0] == x;
      assert a == [x] + a[1..] && b == [x] + b[1..];
      var ta, tb := a[1..], b[1..];
      assert multiset(ta) == multiset(a) - multiset{x};
      assert multiset(tb) == multiset(b) - multiset{x};
      assert multiset(ta) == multiset(tb);
      AscendingTail(a);
      AscendingTail(b);
      SortedUnique(ta, tb);
    }
  }
}
