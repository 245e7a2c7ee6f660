/**
 Row-major enumeration of a box of any number of axes: the last coordinate
 varies fastest. This is the layout numpy gives `np.arange(n).reshape(...)`,
 and it is also the order in which nested `for` loops visit their indices,
 so both the index mapping and the order of resolved groups are instances of
 it. A point and the box's extents are sequences, outermost axis first.
 */
module RowMajor {

  /** Everything but the last element. */
  function Init(s: seq<int>): seq<int>
    requires |s| > 0
  {
    s[..|s| - 1]
  }

  function Last(s: seq<int>): int
    requires |s| > 0
  {
    s[|s| - 1]
  }

  /** At least one axis; the outermost extent may be zero, every inner one is positive. */
  predicate ValidExtents(e: seq<int>) {
    |e| > 0 && e[0] >= 0 && forall k :: 0 < k < |e| ==> e[k] > 0
  }

  /** Number of points of the box. */
  function Size(e: seq<int>): int
    decreases |e|
  {
    if |e| == 0 then 1 else Size(Init(e)) * Last(e)
  }

  predicate InBox(p: seq<int>, e: seq<int>) {
    |p| == |e| && forall k :: 0 <= k < |p| ==> 0 <= p[k] < e[k]
  }

  /** Position of `p` in the row-major enumeration of the box with extents `e`. */
  function Flat(p: seq<int>, e: seq<int>): int
    requires |p| == |e|
    decreases |p|
  {
    if |p| == 0 then 0 else Flat(Init(p), Init(e)) * Last(e) + Last(p)
  }

  /** Inverse of `Flat`: peel off the fastest coordinate first. */
  function Split(k: int, e: seq<int>): (p: seq<int>)
    requires ValidExtents(e) && 0 <= k
    ensures |p| == |e| && Flat(p, e) == k
    ensures p[0] >= 0 && forall j :: 0 < j < |p| ==> 0 <= p[j] < e[j]
    decreases |e|
  {
    if |e| == 1 then
      assert Init([k]) == [];
      [k]
    else
      var m := Last(e);
      var e' := Init(e);
      assert forall j :: 0 <= j < |e'| ==> e'[j] == e[j];
      var q := Split(k / m, e');
      var p := q + [k % m];
      assert Init(p) == q && Last(p) == k % m;
      p
  }

  lemma MulMonotone(a: int, b: int, m: int)
    requires a <= b && m >= 0
    ensures a * m <= b * m
  {
    assert b * m - a * m == (b - a) * m;
  }

  /** Euclidean division of `q * m + r` recovers `q` and `r` when `r` is a valid remainder. */
  lemma DivModOf(q: int, r: int, m: int)
    requires m > 0 && 0 <= r < m
    ensures (q * m + r) / m == q
    ensures (q * m + r) % m == r
  {
    var k := q * m + r;
    var d := q - k / m;
    assert d * m == k % m - r;
    if d >= 1 { MulMonotone(1, d, m); }
    if d <= -1 { MulMonotone(d, -1, m); }
  }

  /** Appending a valid remainder never overtakes the next multiple. */
  lemma MulAddStrict(x: int, r: int, y: int, s: int, m: int)
    requires m > 0 && 0 <= r < m && 0 <= s < m && x < y
    ensures x * m + r < y * m + s
  {
    MulMonotone(x + 1, y, m);
    assert (x + 1) * m == x * m + m;
  }

  lemma MulAddBound(x: int, r: int, n: int, m: int)
    requires m > 0 && 0 <= r < m && 0 <= x < n
    ensures 0 <= x * m + r < n * m
  {
    MulAddStrict(x, r, n, 0, m);
  }

  /** Below `n * m`, the quotient by `m` stays below `n`. */
  lemma DivBound(k: int, n: int, m: int)
    requires m > 0 && 0 <= k < n * m
    ensures k / m < n
  {
    if k / m >= n {
      MulMonotone(n, k / m, m);
    }
  }

  lemma InBoxInit(p: seq<int>, e: seq<int>)
    requires InBox(p, e) && |p| > 0
    ensures InBox(Init(p), Init(e))
  {
    assert forall k :: 0 <= k < |p| - 1 ==> Init(p)[k] == p[k] && Init(e)[k] == e[k];
  }

  /** Every point of the box lands inside `[0, Size)`. */
  lemma {:induction false} FlatBounds(p: seq<int>, e: seq<int>)
    requires InBox(p, e)
    ensures 0 <= Flat(p, e) < Size(e)
    decreases |p|
  {
    if |p| > 0 {
      InBoxInit(p, e);
      FlatBounds(Init(p), Init(e));
      MulAddBound(Flat(Init(p), Init(e)), Last(p), Size(Init(e)), Last(e));
    }
  }

  /** `Split` undoes `Flat` on the box. */
  lemma {:induction false} SplitFlat(p: seq<int>, e: seq<int>)
    requires InBox(p, e) && |p| > 0
    ensures ValidExtents(e) && Flat(p, e) >= 0
    ensures Split(Flat(p, e), e) == p
    decreases |p|
  {
    assert forall k :: 0 <= k < |e| ==> e[k] > p[k] >= 0;
    var m, x := Last(e), Flat(Init(p), Init(e));
    InBoxInit(p, e);
    FlatBounds(Init(p), Init(e));
    DivModOf(x, Last(p), m);
    if |p| == 1 {
      assert Init(p) == [] && x == 0;
      assert p == [Last(p)];
    } else {
      SplitFlat(Init(p), Init(e));
      assert p == Init(p) + [Last(p)];
    }
  }

  /** Every position of `[0, Size)` is the image of a point of the box. */
  lemma {:induction false} SplitBounds(k: int, e: seq<int>)
    requires ValidExtents(e) && 0 <= k < Size(e)
    ensures InBox(Split(k, e), e)
    decreases |e|
  {
    var p := Split(k, e);
    if |e| == 1 {
      assert Size(e) == Size([]) * e[0];
    } else {
      var m, e' := Last(e), Init(e);
      assert forall j :: 0 <= j < |e'| ==> e'[j] == e[j];
      DivBound(k, Size(e'), m);
      SplitBounds(k / m, e');
      assert p[0] == Split(k / m, e')[0];
    }
  }

  /** `p` comes before `q` in lexicographic order, first differing at axis `j`. */
  predicate LexLessAt(p: seq<int>, q: seq<int>, j: int) {
    |p| == |q| && 0 <= j < |p| && p[..j] == q[..j] && p[j] < q[j]
  }

  /** Strict lexicographic order, outermost axis first. */
  predicate LexLess(p: seq<int>, q: seq<int>) {
    exists j :: 0 <= j < |p| && LexLessAt(p, q, j)
  }

  /** The enumeration visits points in lexicographic order (last coordinate fastest). */
  lemma {:induction false} FlatLexMonotone(p: seq<int>, q: seq<int>, e: seq<int>, j: int)
    requires InBox(p, e) && InBox(q, e) && LexLessAt(p, q, j)
    ensures Flat(p, e) < Flat(q, e)
    decreases |p|
  {
    var n, m := |p|, Last(e);
    InBoxInit(p, e);
    InBoxInit(q, e);
    if j == n - 1 {
      assert Init(p) == p[..j] == q[..j] == Init(q);
    } else {
      assert Init(p)[..j] == p[..j] && Init(q)[..j] == q[..j];
      assert Init(p)[j] == p[j] && Init(q)[j] == q[j];
      FlatLexMonotone(Init(p), Init(q), Init(e), j);
      MulAddStrict(Flat(Init(p), Init(e)), Last(p), Flat(Init(q), Init(e)), Last(q), m);
    }
  }

  /** The closed form of a four-axis position: `((i0*n1 + i1)*n2 + i2)*n3 + i3`. */
  lemma Flat4(i0: int, i1: int, i2: int, i3: int, n0: int, n1: int, n2: int, n3: int)
    ensures Flat([i0, i1, i2, i3], [n0, n1, n2, n3]) == ((i0 * n1 + i1) * n2 + i2) * n3 + i3
  {
    assert Init([i0]) == [] && Init([n0]) == [];
    assert Flat([i0], [n0]) == i0;
    assert Init([i0, i1]) == [i0] && Init([n0, n1]) == [n0];
    assert Flat([i0, i1], [n0, n1]) == i0 * n1 + i1;
    assert Init([i0, i1, i2]) == [i0, i1] && Init([n0, n1, n2]) == [n0, n1];
    assert Flat([i0, i1, i2], [n0, n1, n2]) == (i0 * n1 + i1) * n2 + i2;
    assert Init([i0, i1, i2, i3]) == [i0, i1, i2] && Init([n0, n1, n2, n3]) == [n0, n1, n2];
  }

  /** The size of a four-axis box is the product of its extents. */
  lemma Size4(n0: int, n1: int, n2: int, n3: int)
    ensures Size([n0, n1, n2, n3]) == n0 * n1 * n2 * n3
  {
    assert Init([n0]) == [];
    assert Size([n0]) == n0;
    assert Init([n0, n1]) == [n0];
    assert Size([n0, n1]) == n0 * n1;
    assert Init([n0, n1, n2]) == [n0, n1];
    assert Size([n0, n1, n2]) == n0 * n1 * n2;
    assert Init([n0, n1, n2, n3]) == [n0, n1, n2];
  }
}
