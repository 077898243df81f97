/** Index and list helpers of the polygon crate (polygon/src/lib.rs): fan
    triangulation of index lists, arc segment tables, attribute-vector padding,
    and the bracketing search over gradient stops. `f32` values are modelled as
    `real`; only comparisons and copies are made on them here. */
module Polygon {

  type U16 = x: int | 0 <= x < 0x1_0000

  // ---------------------------------------------------------------------------
  // Fan triangulation

  /** Reference fan triangulation of a convex polygon's index list: the triangles
      `(ix[0], ix[k], ix[k+1])` for `k` from 1 to `|ix| - 2`, in that order. */
  function Fan(ix: seq<U16>): seq<U16>
  {
    if |ix| < 3 then [] else Fan(ix[..|ix| - 1]) + [ix[0], ix[|ix| - 2], ix[|ix| - 1]]
  }

  /** The fan has `|ix| - 2` triangles and triangle `k` is `(ix[0], ix[k+1], ix[k+2])`. */
  lemma {:induction false} FanTriangles(ix: seq<U16>)
    requires |ix| >= 2
    ensures |Fan(ix)| == 3 * (|ix| - 2)
    ensures forall k :: 0 <= k < |ix| - 2 ==>
              Fan(ix)[3 * k] == ix[0] && Fan(ix)[3 * k + 1] == ix[k + 1] && Fan(ix)[3 * k + 2] == ix[k + 2]
  {
    if |ix| > 2 {
      var p := ix[..|ix| - 1];
      FanTriangles(p);
      assert Fan(ix) == Fan(p) + [ix[0], ix[|ix| - 2], ix[|ix| - 1]];
      forall k | 0 <= k < |ix| - 2
        ensures Fan(ix)[3 * k] == ix[0] && Fan(ix)[3 * k + 1] == ix[k + 1] && Fan(ix)[3 * k + 2] == ix[k + 2]
      {
        if k < |ix| - 3 {
          assert Fan(ix)[3 * k] == Fan(p)[3 * k];
          assert Fan(ix)[3 * k + 1] == Fan(p)[3 * k + 1];
          assert Fan(ix)[3 * k + 2] == Fan(p)[3 * k + 2];
        }
      }
    }
  }

  /** Every index the fan emits is one of the polygon's indices. */
  lemma {:induction false} FanUsesInputIndices(ix: seq<U16>)
    ensures forall j :: 0 <= j < |Fan(ix)| ==> Fan(ix)[j] in ix
  {
    if |ix| >= 3 {
      var p := ix[..|ix| - 1];
      FanUsesInputIndices(p);
      forall j | 0 <= j < |Fan(ix)|
        ensures Fan(ix)[j] in ix
      {
        if j < |Fan(p)| {
          assert Fan(ix)[j] == Fan(p)[j];
          assert Fan(p)[j] in p;
        }
      }
    }
  }

  /** `to_triangle_0`: fan-triangulates one polygon. With fewer than two indices
      `count - 2` underflows and the source panics, so that case is excluded. */
  method ToTriangle0(indices: seq<U16>) returns (res: seq<U16>)
    requires |indices| >= 2
    ensures res == Fan(indices)
  {
    res := [];
    var index := 1;
    var count := |indices|;
    while index <= count - 2
      invariant 1 <= index <= count - 1
      invariant res == Fan(indices[..index + 1])
    {
      assert indices[..index + 2][..index + 1] == indices[..index + 1];
      res := res + [indices[0], indices[index], indices[index + 1]];
      index := index + 1;
    }
    assert indices[..count] == indices;
  }

  /** `to_triangle`: appends one polygon's fan to `out`. */
  method ToTriangle(indices: seq<U16>, out: seq<U16>) returns (r: seq<U16>)
    requires |indices| >= 2
    ensures r == out + Fan(indices)
  {
    var fan := ToTriangle0(indices);
    r := out + fan;
  }

  /** The fans of several polygons, one after the other. */
  function Fans(polys: seq<seq<U16>>): seq<U16>
  {
    if polys == [] then [] else Fans(polys[..|polys| - 1]) + Fan(polys[|polys| - 1])
  }

  /** `mult_to_triangle`: appends the fan of every polygon, in order. */
  method MultToTriangle(polys: seq<seq<U16>>, out: seq<U16>) returns (r: seq<U16>)
    requires forall i :: 0 <= i < |polys| ==> |polys[i]| >= 2
    ensures r == out + Fans(polys)
  {
    r := out;
    var i := 0;
    while i < |polys|
      invariant 0 <= i <= |polys|
      invariant r == out + Fans(polys[..i])
    {
      assert polys[..i + 1][..i] == polys[..i];
      r := ToTriangle(polys[i], r);
      i := i + 1;
    }
    assert polys[..|polys|] == polys;
  }

  /** Total vertex count of several polygons. */
  function Vertices(polys: seq<seq<U16>>): nat
  {
    if polys == [] then 0 else Vertices(polys[..|polys| - 1]) + |polys[|polys| - 1]|
  }

  /** `mult_to_triangle` emits `n - 2` triangles for each polygon of `n` indices. */
  lemma {:induction false} FansLength(polys: seq<seq<U16>>)
    requires forall i :: 0 <= i < |polys| ==> |polys[i]| >= 2
    ensures |Fans(polys)| == 3 * (Vertices(polys) - 2 * |polys|)
  {
    if polys != [] {
      FansLength(polys[..|polys| - 1]);
      FanTriangles(polys[|polys| - 1]);
    }
  }

  // ---------------------------------------------------------------------------
  // Rounded-corner arc levels

  /** `scale_level`: rounds a level up to 4, 8 or 16 (16 for anything above 8). */
  function ScaleLevel(lv: U16): (r: U16)
    ensures r == 4 || r == 8 || r == 16
    ensures lv <= 16 ==> lv <= r
    ensures r == 4 || r / 2 < lv
    ensures lv <= 4 ==> r == 4
    ensures lv > 8 ==> r == 16
  {
    if lv <= 4 then 4 else if lv <= 8 then 8 else 16
  }

  /** The segment table `get_one_quarter_arc_with_level` picks for a level:
      `copy_level4` for 4, `copy_level8` for 8, `copy_level16` otherwise. */
  function ArcSegments(level: U16): seq<U16>
  {
    if level == 4 then [0, 4, 8, 12, 16]
    else if level == 8 then [0, 2, 4, 6, 8, 10, 12, 14, 16]
    else [0, 1, 2, 3, 4, 5, 6, 7, 8, 9, 10, 11, 12, 13, 14, 15, 16]
  }

  /** Number of entries of `VEC_ARR`, the 17 unit vectors of a quarter circle. */
  const VecArrLen: nat := 34

  /** For a scaled level `l`, the table has `l + 1` evenly spaced steps from 0 to
      16 (the whole quarter circle), and every lookup `VEC_ARR[2s]`, `VEC_ARR[2s+1]`
      the arc makes is in bounds. */
  lemma ArcSegmentsSpanQuarter(lv: U16)
    ensures var l := ScaleLevel(lv); var s := ArcSegments(l);
            |s| == l + 1 && s[0] == 0 && s[l] == 16 &&
            (forall i :: 0 <= i < |s| ==> s[i] == i * (16 / l) && s[i] * 2 + 1 < VecArrLen)
  {
  }

  // ---------------------------------------------------------------------------
  // Attribute vectors

  /** A length read `as u16`: the cast keeps the low 16 bits. */
  function AsU16(n: nat): U16 { n % 0x1_0000 }

  /** The prefix a loop bounded by `len() as u16` walks over. */
  function CutU16<T>(s: seq<T>): (r: seq<T>)
    ensures |r| == AsU16(|s|) && |r| <= |s|
    ensures forall i :: 0 <= i < |r| ==> r[i] == s[i]
    ensures |s| < 0x1_0000 ==> r == s
  {
    s[..AsU16(|s|)]
  }

  /** How many values `fill_vec` appends: up to `size`, counted from the length
      read as a `u16`. */
  function PadCount(len: nat, size: nat): nat
  {
    if AsU16(len) < size then size - AsU16(len) else 0
  }

  /** `fill_vec`: pads with `value` up to `size` entries and never shortens.
      The length is read `as u16`, so a list of 65536 entries or more is padded
      as if it were only its length modulo 65536 long. */
  method FillVec(data: seq<real>, size: U16, value: real) returns (r: seq<real>)
    ensures |r| == |data| + PadCount(|data|, size)
    ensures r[..|data|] == data
    ensures forall j :: |data| <= j < |r| ==> r[j] == value
    ensures |data| < 0x1_0000 && |data| >= size ==> r == data
    ensures |data| < 0x1_0000 && |data| < size ==> |r| == size
  {
    r := data;
    var i := AsU16(|data|);
    while i < size
      invariant AsU16(|data|) <= i && (AsU16(|data|) < size ==> i <= size)
      invariant AsU16(|data|) >= size ==> i == AsU16(|data|)
      invariant |r| == |data| + (i - AsU16(|data|)) && r[..|data|] == data
      invariant forall j :: |data| <= j < |r| ==> r[j] == value
    {
      r := r + [value];
      i := i + 1;
    }
  }

  lemma MulSucc(a: int, b: int)
    ensures a * (b + 1) == a * b + a
  {
  }

  /** The copy loop of `insert_vec`: writes `item[..size]` at positions
      `lo .. lo + size - 1` and leaves every other position alone. */
  method CopyBlock(padded: seq<real>, item: seq<real>, lo: nat, size: nat) returns (r: seq<real>)
    requires lo + size <= |padded| && size <= |item|
    ensures |r| == |padded|
    ensures forall j :: lo <= j < lo + size ==> r[j] == item[j - lo]
    ensures forall j :: 0 <= j < |r| && !(lo <= j < lo + size) ==> r[j] == padded[j]
  {
    r := padded;
    var i := 0;
    while i < size
      invariant 0 <= i <= size && |r| == |padded|
      invariant forall j :: lo <= j < lo + i ==> r[j] == item[j - lo]
      invariant forall j :: 0 <= j < |r| && !(lo <= j < lo + i) ==> r[j] == padded[j]
    {
      r := r[lo + i := item[i]];
      i := i + 1;
    }
  }

  /** What `insert_vec` leaves for the block at `lo .. lo + size - 1`: `data`
      padded as `fill_vec` pads it to `lo + size` values, with `item[..size]`
      written over the block and every other position kept. */
  predicate BlockWritten(data: seq<real>, item: seq<real>, lo: int, size: nat, r: seq<real>)
  {
    0 <= lo && lo + size <= |r| && size <= |item| && |r| == |data| + PadCount(|data|, lo + size) &&
    (forall j :: lo <= j < lo + size ==> r[j] == item[j - lo]) &&
    (forall j :: 0 <= j < |r| && !(lo <= j < lo + size) ==> r[j] == if j < |data| then data[j] else 0.0)
  }

  /** `insert_vec`: makes room for block `index` of `size` values (padding with
      zeros) and copies `item[..size]` into it. The length is read `as u16`, as
      in `fill_vec`. `index + 1` and the products are `u16` arithmetic, which panics
      on overflow; the bound `size * index + size` is `size * (index + 1)`,
      and `item` must hold `size` values. */
  method InsertVec(data: seq<real>, item: seq<real>, size: U16, index: U16) returns (r: seq<real>)
    requires index < 0xFFFF && size * index + size < 0x1_0000
    requires |item| >= size
    ensures BlockWritten(data, item, size * index, size, r)
    ensures var hi := size * index + size;
            |data| < 0x1_0000 ==> |r| == if |data| < hi then hi else |data|
  {
    var iIndex := size * index;
    var tragLen := size * (index + 1);
    MulSucc(size, index);
    assert tragLen == iIndex + size;
    r := PadCopy(data, item, iIndex, size);
  }

  /** The body of `insert_vec` once the block's offset `lo` is known: pad with
      zeros up to `lo + size`, then copy the block. */
  method PadCopy(data: seq<real>, item: seq<real>, lo: nat, size: nat) returns (r: seq<real>)
    requires lo + size < 0x1_0000 && |item| >= size
    ensures BlockWritten(data, item, lo, size, r)
    ensures |data| < 0x1_0000 ==> |r| == if |data| < lo + size then lo + size else |data|
  {
    // the padding loop is `fill_vec` with the value 0.0
    var padded := FillVec(data, lo + size, 0.0);
    assert lo + size <= |padded| by {
      assert AsU16(|data|) <= |data|;
    }
    r := CopyBlock(padded, item, lo, size);
    assert forall j :: 0 <= j < |data| ==> padded[j] == data[j] by {
      assert padded[..|data|] == data;
    }
  }

  // ---------------------------------------------------------------------------
  // Gradient stops

  /** `is_between`: a half-open test that includes the start `a` and excludes the
      end `b`, in whichever direction the segment runs; when `a == b` only `a` itself.
      Read as a span: for distinct ends, `v` is in the closed span between them and
      is not the end `b`. */
  function IsBetween(a: real, b: real, v: real): (r: bool)
    ensures a != b ==> (r <==> (if a < b then a else b) <= v <= (if a < b then b else a) && v != b)
    ensures a == b ==> (r <==> v == a)
  {
    if b < a then b < v && v <= a
    else if a < b then a <= v && v < b
    else a == v
  }

  /** Read in both directions, the test covers exactly the closed span, and both
      directions hold exactly strictly inside it. */
  lemma IsBetweenBothWays(a: real, b: real, v: real)
    requires a != b
    ensures IsBetween(a, b, v) || IsBetween(b, a, v) <==>
              (if a < b then a else b) <= v <= (if a < b then b else a)
    ensures IsBetween(a, b, v) && IsBetween(b, a, v) <==>
              (if a < b then a else b) < v < (if a < b then b else a)
  {
  }

  /** The outcome of `find_pre_next_grad_direct`: the two neighbouring stops, or
      an unsigned underflow (a panic in the source). */
  datatype Bracket = Pair(pre: nat, nxt: nat) | Underflow

  /** The contract of the bracketing search over stop keys `keys` for `value`:
      it underflows exactly when there are fewer than two stops or the first
      key is already above `value`. Otherwise `nxt` is the first stop above
      `value`, or the last stop when none is, and `pre` is the stop just before. */
  predicate BracketOk(keys: seq<real>, value: real, r: Bracket)
  {
    (r.Underflow? <==> |keys| <= 1 || keys[0] > value) &&
    (r.Pair? ==>
       r.nxt < |keys| && r.pre + 1 == r.nxt &&
       (forall j :: 0 <= j < r.nxt ==> keys[j] <= value) &&
       (keys[r.nxt] > value || (r.nxt == |keys| - 1 && keys[r.nxt] <= value)))
  }

  /** `find_pre_next_grad_direct` over `f32` stops. */
  method FindPreNextGradDirect(keys: seq<real>, value: real) returns (r: Bracket)
    ensures BracketOk(keys, value, r)
  {
    var count := |keys|;
    if count == 0 {
      // `count - 1` underflows before the loop starts
      return Underflow;
    }
    var pre := 0;
    var nxt := 0;
    var index := 0;
    while index <= count - 1
      invariant 0 <= index <= count
      invariant forall j :: 0 <= j < index ==> keys[j] <= value
      invariant index == 0 ==> pre == 0 && nxt == 0
      invariant index > 0 ==> pre == index - 1 && nxt == index - 1
    {
      if keys[index] <= value {
        pre := index;
      } else {
        nxt := index;
        break;
      }
      nxt := index;
      index := index + 1;
    }
    if pre == nxt {
      if nxt == 0 {
        return Underflow;
      }
      pre := nxt - 1;
    }
    r := Pair(pre, nxt);
  }

  /** The bracketing contract determines the outcome: there is one answer per
      input, so any two searches meeting it agree. */
  lemma BracketUnique(keys: seq<real>, value: real, r1: Bracket, r2: Bracket)
    requires BracketOk(keys, value, r1) && BracketOk(keys, value, r2)
    ensures r1 == r2
  {
  }

  /** On sorted stops, a pair brackets `value`: `keys[pre] <= value`, and
      `value < keys[nxt]` unless `value` is past the last stop. */
  lemma BracketEnclosesValue(keys: seq<real>, value: real, r: Bracket)
    requires BracketOk(keys, value, r) && r.Pair?
    ensures keys[r.pre] <= value
    ensures value < keys[r.nxt] || forall j :: 0 <= j < |keys| ==> keys[j] <= value
  {
  }

  // ---------------------------------------------------------------------------
  // Indices of a rounded rectangle

  /** The index loop of `split_by_radius`: indices `0 .. count - 1`, each cast to
      `u16` (so they wrap past 65535). */
  method SplitIndices(count: nat) returns (indices: seq<U16>)
    ensures |indices| == count
    ensures forall i :: 0 <= i < count ==> indices[i] == i % 0x1_0000
  {
    indices := [];
    var index := 0;
    while index < count
      invariant 0 <= index <= count && |indices| == index
      invariant forall i :: 0 <= i < index ==> indices[i] == i % 0x1_0000
    {
      indices := indices + [index % 0x1_0000];
      index := index + 1;
    }
  }
}
