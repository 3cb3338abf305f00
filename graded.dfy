/** The dense graded draft: a graded vector space is recorded by its graded
    dimensions `{n: dim V^n}`, a graded map of degree d by one matrix
    `F^n: V^n -> W^{n+d}` per degree, and a cochain complex by its cochains
    and differential.

    Each operation fills a fresh `graded_dim` or `graded_map` dict in a loop;
    here the loop is a method and what it leaves is a predicate (`OplusOf`,
    `ShiftOf`, ...) that the lemmas reason about. Dict iteration is either
    over the key set in any order (where the result does not depend on it) or
    in increasing key order.
 */
module Graded {
  import opened Wrappers
  import opened Keys
  import opened Fields
  import opened Dense

  // ----- graded vector spaces -----

  /** `GradedVectorSpace(base)` with its `graded_dim`. */
  datatype GVS = GVS(base: Field, dims: map<int, int>)

  /** `V.gr_dim(n)`: the stored dimension, or zero. */
  function GrDim(V: GVS, n: int): int {
    if n in V.dims then V.dims[n] else 0
  }

  /** `V == W`: no degree of either space has different graded dimensions,
      so a missing degree and a degree stored as zero are the same; the
      fields are not compared. */
  function SpaceEq(V: GVS, W: GVS): (b: bool)
    ensures b <==> forall n :: GrDim(V, n) == GrDim(W, n)
  {
    forall n | n in V.dims.Keys + W.dims.Keys :: GrDim(V, n) == GrDim(W, n)
  }

  /** `D.graded_dim[n] += v` when n is stored, `D.graded_dim[n] = v`
      otherwise: either way v is added in degree n. */
  function AddDim(D: GVS, n: int, v: int): (r: GVS)
    ensures r.base == D.base && r.dims.Keys == D.dims.Keys + {n}
    ensures forall k :: GrDim(r, k) == GrDim(D, k) + if k == n then v else 0
  {
    if n in D.dims then D.(dims := D.dims[n := D.dims[n] + v]) else D.(dims := D.dims[n := v])
  }

  /** What `V.oplus(W)` returns: V's field, the degrees of either space, and
      the graded dimensions added degree by degree. */
  ghost predicate OplusOf(V: GVS, W: GVS, D: GVS) {
    D.base == V.base && D.dims.Keys == V.dims.Keys + W.dims.Keys
    && forall n :: GrDim(D, n) == GrDim(V, n) + GrDim(W, n)
  }

  /** `V.oplus(W)`: a copy of V's dims, to which each degree of W is added. */
  method Oplus(V: GVS, W: GVS) returns (D: GVS)
    ensures OplusOf(V, W, D)
  {
    D := GVS(V.base, V.dims);
    var ns := IntList(W.dims.Keys);
    IntListHas(W.dims.Keys);
    for i := 0 to |ns|
      invariant D.base == V.base
      invariant forall n :: n in D.dims <==> n in V.dims || n in ns[..i]
      invariant forall n :: GrDim(D, n) == GrDim(V, n) + if n in ns[..i] then GrDim(W, n) else 0
    {
      IntListStep(W.dims.Keys, i);
      D := AddDim(D, ns[i], GrDim(W, ns[i]));
    }
    assert ns[..|ns|] == ns;
    assert forall n :: GrDim(D, n) == GrDim(V, n) + GrDim(W, n);
    assert forall n :: n in D.dims.Keys <==> n in V.dims.Keys + W.dims.Keys;
  }

  /** The sum of dim V^p dim W^{n-p} over the first i degrees p of ps. */
  function ConvSum(V: GVS, ps: seq<int>, i: int, W: GVS, n: int): int
    requires 0 <= i <= |ps|
  {
    if i == 0 then 0 else ConvSum(V, ps, i - 1, W, n) + GrDim(V, ps[i - 1]) * GrDim(W, n - ps[i - 1])
  }

  lemma ConvStep(V: GVS, ps: seq<int>, i: int, W: GVS, n: int)
    requires 0 <= i < |ps|
    ensures ConvSum(V, ps, i + 1, W, n) == ConvSum(V, ps, i, W, n) + GrDim(V, ps[i]) * GrDim(W, n - ps[i])
  {
  }

  /** One more term of the sum, with its factors known. */
  lemma ConvValue(V: GVS, ps: seq<int>, i: int, W: GVS, n: int, c: int, a: int, b: int)
    requires 0 <= i < |ps|
    requires ConvSum(V, ps, i, W, n) == c && GrDim(V, ps[i]) == a && GrDim(W, n - ps[i]) == b
    ensures ConvSum(V, ps, i + 1, W, n) == c + a * b
  {
  }

  /** n is p + q for one of the first i degrees p of ps and a degree q of W. */
  ghost predicate Hit(n: int, ps: seq<int>, i: int, W: GVS) {
    exists a | 0 <= a < i && a < |ps| :: HitAt(n, ps, a, W)
  }

  /** n is ps[a] + q for a degree q of W. */
  ghost predicate HitAt(n: int, ps: seq<int>, a: int, W: GVS) {
    0 <= a < |ps| && n - ps[a] in W.dims
  }

  /** x is one of the first j entries of qs. */
  ghost predicate Listed(x: int, qs: seq<int>, j: int) {
    exists b | 0 <= b < j && b < |qs| :: qs[b] == x
  }

  /** What `V.otimes(W)` returns: V's field, the degrees p + q of a degree p
      of V and a degree q of W, and in degree n the sum of dim V^p dim W^q
      over p + q == n. */
  ghost predicate OtimesOf(V: GVS, W: GVS, T: GVS) {
    var ps := IntList(V.dims.Keys);
    T.base == V.base
    && (forall n :: n in T.dims <==> Hit(n, ps, |ps|, W))
    && forall n :: GrDim(T, n) == ConvSum(V, ps, |ps|, W, n)
  }

  /** Within row i of the double loop, after the first j degrees of W: the
      degrees and dimensions of rows before i, and ps[i] + q for those q. */
  ghost predicate RowDone(T: GVS, V: GVS, ps: seq<int>, i: int, W: GVS, qs: seq<int>, j: int)
    requires 0 <= i < |ps|
  {
    (forall n :: n in T.dims <==> Hit(n, ps, i, W) || Listed(n - ps[i], qs, j))
    && forall n :: GrDim(T, n) == ConvSum(V, ps, i, W, n) + if Listed(n - ps[i], qs, j) then GrDim(V, ps[i]) * GrDim(W, n - ps[i]) else 0
  }

  /** One pass of the inner loop keeps its invariant. */
  lemma OtimesInnerStep(V: GVS, W: GVS, ps: seq<int>, i: int, qs: seq<int>, j: int, T: GVS, T': GVS)
    requires 0 <= i < |ps| && 0 <= j < |qs|
    requires !Listed(qs[j], qs, j)
    requires RowDone(T, V, ps, i, W, qs, j)
    requires T' == AddDim(T, ps[i] + qs[j], GrDim(V, ps[i]) * GrDim(W, qs[j]))
    ensures RowDone(T', V, ps, i, W, qs, j + 1)
  {
    forall x ensures Listed(x, qs, j + 1) <==> Listed(x, qs, j) || x == qs[j] {
      if Listed(x, qs, j + 1) && x != qs[j] {
        var b :| 0 <= b < j + 1 && b < |qs| && qs[b] == x;
        assert b < j;
      }
    }
  }

  /** The start of row i: nothing of it is added yet. */
  lemma OtimesRowStart(V: GVS, W: GVS, ps: seq<int>, i: int, qs: seq<int>, T: GVS)
    requires 0 <= i < |ps|
    requires forall n :: n in T.dims <==> Hit(n, ps, i, W)
    requires forall n :: GrDim(T, n) == ConvSum(V, ps, i, W, n)
    ensures RowDone(T, V, ps, i, W, qs, 0)
  {
    forall x ensures !Listed(x, qs, 0) {
    }
  }

  /** A degree of W, listed in qs, is among its first |qs| entries. */
  lemma ListedAt(s: set<int>, qs: seq<int>, x: int)
    requires forall q :: q in qs <==> q in s
    ensures Listed(x, qs, |qs|) <==> x in s
  {
    if x in s {
      assert x in qs;
      var b :| 0 <= b < |qs| && qs[b] == x;
    }
  }

  /** In an increasing list, entry j is none of the entries before it. */
  lemma IncreasingNotListed(qs: seq<int>, j: int)
    requires 0 <= j < |qs| && forall a, b | 0 <= a < b < |qs| :: qs[a] < qs[b]
    ensures !Listed(qs[j], qs, j)
  {
  }

  /** Entry j joins the degrees done. */
  lemma ListedStep(qs: seq<int>, j: int)
    requires 0 <= j < |qs|
    ensures forall x :: Listed(x, qs, j + 1) <==> Listed(x, qs, j) || x == qs[j]
  {
    forall x ensures Listed(x, qs, j + 1) <==> Listed(x, qs, j) || x == qs[j] {
      if Listed(x, qs, j + 1) && x != qs[j] {
        var b :| 0 <= b < j + 1 && b < |qs| && qs[b] == x;
        assert b < j;
      }
    }
  }

  /** Once the whole list is done, the degrees done are its members. */
  lemma ListedAll(s: set<int>, qs: seq<int>)
    requires forall q :: q in qs <==> q in s
    ensures forall x :: Listed(x, qs, |qs|) <==> x in s
  {
    forall x ensures Listed(x, qs, |qs|) <==> x in s {
      if x in s {
        assert x in qs;
        var b :| 0 <= b < |qs| && qs[b] == x;
      }
    }
  }

  /** The end of row i: the degrees ps[i] + q for every degree q of W. */
  lemma OtimesOuterStep(V: GVS, W: GVS, ps: seq<int>, i: int, qs: seq<int>, T: GVS)
    requires 0 <= i < |ps| && forall q :: q in qs <==> q in W.dims
    requires RowDone(T, V, ps, i, W, qs, |qs|)
    ensures forall n :: n in T.dims <==> Hit(n, ps, i + 1, W)
    ensures forall n :: GrDim(T, n) == ConvSum(V, ps, i + 1, W, n)
  {
    OuterKeys(V, W, ps, i, qs, T);
    OuterDims(V, W, ps, i, qs, T);
  }

  lemma OuterKeys(V: GVS, W: GVS, ps: seq<int>, i: int, qs: seq<int>, T: GVS)
    requires 0 <= i < |ps| && forall q :: q in qs <==> q in W.dims
    requires forall n :: n in T.dims <==> Hit(n, ps, i, W) || Listed(n - ps[i], qs, |qs|)
    ensures forall n :: n in T.dims <==> Hit(n, ps, i + 1, W)
  {
    forall n ensures n in T.dims <==> Hit(n, ps, i + 1, W) {
      ListedAt(W.dims.Keys, qs, n - ps[i]);
      if Hit(n, ps, i + 1, W) && !Hit(n, ps, i, W) {
        var a :| 0 <= a < i + 1 && a < |ps| && HitAt(n, ps, a, W);
        assert a == i;
      }
      if Hit(n, ps, i, W) {
        var a :| 0 <= a < i && a < |ps| && HitAt(n, ps, a, W);
        assert Hit(n, ps, i + 1, W);
      }
      if HitAt(n, ps, i, W) {
        assert Hit(n, ps, i + 1, W);
      }
    }
  }

  lemma OuterDims(V: GVS, W: GVS, ps: seq<int>, i: int, qs: seq<int>, T: GVS)
    requires 0 <= i < |ps| && forall q :: q in qs <==> q in W.dims
    requires forall n :: GrDim(T, n) == ConvSum(V, ps, i, W, n) + if Listed(n - ps[i], qs, |qs|) then GrDim(V, ps[i]) * GrDim(W, n - ps[i]) else 0
    ensures forall n :: GrDim(T, n) == ConvSum(V, ps, i + 1, W, n)
  {
    forall n ensures GrDim(T, n) == ConvSum(V, ps, i + 1, W, n) {
      ConvStep(V, ps, i, W, n);
      var x := n - ps[i];
      ListedAt(W.dims.Keys, qs, x);
      if x !in W.dims {
        assert GrDim(W, x) == 0;
      }
    }
  }

  /** `V.otimes(W)`: for each p of V and q of W, dim V^p dim W^q is added
      into degree p + q. */
  method Otimes(V: GVS, W: GVS) returns (T: GVS)
    ensures OtimesOf(V, W, T)
  {
    var ps := IntList(V.dims.Keys);
    var qs := IntList(W.dims.Keys);
    IntListHas(W.dims.Keys);
    IntListSorted(W.dims.Keys);
    T := GVS(V.base, map[]);
    for i := 0 to |ps|
      invariant T.base == V.base
      invariant forall n :: n in T.dims <==> Hit(n, ps, i, W)
      invariant forall n :: GrDim(T, n) == ConvSum(V, ps, i, W, n)
    {
      OtimesRowStart(V, W, ps, i, qs, T);
      T := OtimesRow(V, W, ps, i, qs, T);
      OtimesOuterStep(V, W, ps, i, qs, T);
    }
  }

  /** The inner loop of `V.otimes(W)`: degree p = ps[i] of V against every
      degree of W. */
  method OtimesRow(V: GVS, W: GVS, ps: seq<int>, i: int, qs: seq<int>, T: GVS) returns (T': GVS)
    requires 0 <= i < |ps| && forall a, b | 0 <= a < b < |qs| :: qs[a] < qs[b]
    requires RowDone(T, V, ps, i, W, qs, 0)
    ensures T'.base == T.base && RowDone(T', V, ps, i, W, qs, |qs|)
  {
    T' := T;
    for j := 0 to |qs|
      invariant T'.base == T.base
      invariant RowDone(T', V, ps, i, W, qs, j)
    {
      IncreasingNotListed(qs, j);
      var T0 := AddDim(T', ps[i] + qs[j], GrDim(V, ps[i]) * GrDim(W, qs[j]));
      OtimesInnerStep(V, W, ps, i, qs, j, T', T0);
      T' := T0;
    }
  }

  /** What `V.shift(m)` returns: the piece of V in degree n moved to n - m. */
  ghost predicate ShiftOf(V: GVS, m: int, S: GVS) {
    S.base == V.base &&
    forall k, n | n == k + m :: (k in S.dims <==> n in V.dims) && (k in S.dims ==> S.dims[k] == V.dims[n])
  }

  /** `V.shift(m)` (m = 1 by default): `shifted_space.graded_dim[n-m]` is
      set from each degree n of V. */
  method Shift(V: GVS, m: int) returns (S: GVS)
    ensures ShiftOf(V, m, S)
  {
    S := GVS(V.base, map[]);
    var ns := IntList(V.dims.Keys);
    IntListHas(V.dims.Keys);
    for i := 0 to |ns|
      invariant ShiftedUpTo(V, m, ns, i, S)
    {
      ghost var S0 := S;
      S := S.(dims := S.dims[ns[i] - m := V.dims[ns[i]]]);
      ShiftStep(V, m, ns, i, S0, S);
    }
    ShiftDone(V, m, ns, S);
  }

  /** The loop of `Shift` after the first i degrees of ns. */
  ghost predicate ShiftedUpTo(V: GVS, m: int, ns: seq<int>, i: int, S: GVS) {
    S.base == V.base &&
    forall k ::
      (k in S.dims <==> Listed(k + m, ns, i)) && (k in S.dims ==> k + m in V.dims && S.dims[k] == V.dims[k + m])
  }

  /** One pass of the loop of `Shift`. */
  lemma ShiftStep(V: GVS, m: int, ns: seq<int>, i: int, S0: GVS, S: GVS)
    requires 0 <= i < |ns| && ns[i] in V.dims && ShiftedUpTo(V, m, ns, i, S0)
    requires S == S0.(dims := S0.dims[ns[i] - m := V.dims[ns[i]]])
    ensures ShiftedUpTo(V, m, ns, i + 1, S)
  {
    ListedStep(ns, i);
    forall k
      ensures (k in S.dims <==> Listed(k + m, ns, i + 1)) && (k in S.dims ==> k + m in V.dims && S.dims[k] == V.dims[k + m])
    {
      assert k in S0.dims <==> Listed(k + m, ns, i);
    }
  }

  /** The end of the loop of `Shift`. */
  lemma ShiftDone(V: GVS, m: int, ns: seq<int>, S: GVS)
    requires (forall q :: q in ns <==> q in V.dims) && ShiftedUpTo(V, m, ns, |ns|, S)
    ensures ShiftOf(V, m, S)
  {
    forall k, n | n == k + m
      ensures (k in S.dims <==> n in V.dims) && (k in S.dims ==> S.dims[k] == V.dims[n])
    {
      ListedAt(V.dims.Keys, ns, n);
    }
  }

  /** `V[m]^d = V^{m+d}`, with zeros where nothing is stored. */
  lemma ShiftGrDim(V: GVS, m: int, S: GVS)
    requires ShiftOf(V, m, S)
    ensures forall d :: GrDim(S, d) == GrDim(V, d + m)
  {
  }

  /** Shifting by m and then by -m gives back the same space. */
  lemma ShiftRoundTrip(V: GVS, m: int, S: GVS, T: GVS)
    requires ShiftOf(V, m, S) && ShiftOf(S, -m, T)
    ensures T == V
  {
    forall k | k in T.dims ensures k in V.dims && T.dims[k] == V.dims[k] {
      assert k - m in S.dims;
    }
    forall k | k in V.dims ensures k in T.dims {
      assert k - m in S.dims;
    }
    assert T.dims == V.dims;
  }

  // ----- the examples of the draft's own test script -----

  /** The degrees of a two-element set, in order. */
  lemma IntListPair(a: int, b: int)
    requires a < b
    ensures IntList({a, b}) == [a, b]
  {
    var l := IntList({a, b});
    IntListHas({a, b});
    IntListSorted({a, b});
    assert forall k | 0 <= k < |l| :: l[k] == a || l[k] == b by {
      forall k | 0 <= k < |l| ensures l[k] == a || l[k] == b {
        assert l[k] in l;
      }
    }
    assert a in l && b in l;
    IntListCard({a, b});
    assert |l| == 2;
    var i :| 0 <= i < |l| && l[i] == a;
    assert l[0] <= l[i];
  }

  /** The degrees of a space with two degrees a < b are listed as [a, b]. */
  lemma KeysPair(a: int, b: int, x: int, y: int)
    requires a < b
    ensures IntList(map[a := x, b := y].Keys) == [a, b]
  {
    assert map[a := x, b := y].Keys == {a, b};
    IntListPair(a, b);
  }

  /** The graded dims of a space with the degrees and dimensions listed. */
  lemma DimsAre(V: GVS, m: map<int, int>)
    requires forall n :: n in V.dims <==> n in m
    requires forall n | n in m :: GrDim(V, n) == m[n]
    ensures V.dims == m
  {
    forall n ensures n in V.dims.Keys <==> n in m.Keys {
    }
    assert V.dims.Keys == m.Keys;
    forall n | n in m ensures V.dims[n] == m[n] {
      assert GrDim(V, n) == m[n];
    }
  }

  /** `X = V.oplus(W)` of the draft's test script, with V = {0:1, 2:1} and
      W = {0:1}, is {0:2, 2:1}. */
  lemma TestOplus(X: GVS)
    requires OplusOf(GVS(Rationals, map[0 := 1, 2 := 1]), GVS(Rationals, map[0 := 1]), X)
    ensures X.dims == map[0 := 2, 2 := 1]
  {
    DimsAre(X, map[0 := 2, 2 := 1]);
  }

  /** `Y = V.otimes(X)` of the test script is {0:2, 2:3, 4:1}. */
  lemma TestOtimes(V: GVS, X: GVS, Y: GVS)
    requires V.dims == map[0 := 1, 2 := 1] && X.dims == map[0 := 2, 2 := 1]
    requires OtimesOf(V, X, Y)
    ensures Y.dims == map[0 := 2, 2 := 3, 4 := 1]
  {
    TestOtimesSums(V, X);
    assert forall n :: n in Y.dims <==> n == 0 || n == 2 || n == 4;
    assert GrDim(Y, 0) == 2 && GrDim(Y, 2) == 3 && GrDim(Y, 4) == 1;
    DimsAre(Y, map[0 := 2, 2 := 3, 4 := 1]);
  }

  /** The sums behind TestOtimes. */
  lemma TestOtimesSums(V: GVS, X: GVS)
    requires V.dims == map[0 := 1, 2 := 1] && X.dims == map[0 := 2, 2 := 1]
    ensures IntList(V.dims.Keys) == [0, 2]
    ensures forall n :: Hit(n, [0, 2], 2, X) <==> n == 0 || n == 2 || n == 4
    ensures ConvSum(V, [0, 2], 2, X, 0) == 2
    ensures ConvSum(V, [0, 2], 2, X, 2) == 3
    ensures ConvSum(V, [0, 2], 2, X, 4) == 1
  {
    KeysPair(0, 2, 1, 1);
    var ps := [0, 2];
    forall n ensures Hit(n, ps, 2, X) <==> n == 0 || n == 2 || n == 4 {
      if n == 0 || n == 2 {
        assert HitAt(n, ps, 0, X);
      } else if n == 4 {
        assert HitAt(n, ps, 1, X);
      }
    }
    ConvValue(V, ps, 0, X, 0, 0, 1, 2);
    ConvValue(V, ps, 1, X, 0, 2, 1, 0);
    ConvValue(V, ps, 0, X, 2, 0, 1, 1);
    ConvValue(V, ps, 1, X, 2, 1, 1, 2);
    ConvValue(V, ps, 0, X, 4, 0, 1, 0);
    ConvValue(V, ps, 1, X, 4, 0, 1, 1);
  }

  /** `X.oplus(Y)` of the test script is {0:4, 2:4, 4:1}. */
  lemma TestOplusAgain(Z: GVS)
    requires OplusOf(GVS(Rationals, map[0 := 2, 2 := 1]), GVS(Rationals, map[0 := 2, 2 := 3, 4 := 1]), Z)
    ensures Z.dims == map[0 := 4, 2 := 4, 4 := 1]
  {
    DimsAre(Z, map[0 := 4, 2 := 4, 4 := 1]);
  }

  /** `W.shift()` of W = {0:1} is {-1:1}. */
  lemma TestShift(S: GVS)
    requires ShiftOf(GVS(Rationals, map[0 := 1]), 1, S)
    ensures S.dims == map[-1 := 1]
  {
    assert 0 in GVS(Rationals, map[0 := 1]).dims;
    assert -1 in S.dims;
    forall k | k in S.dims ensures k == -1 {
      assert k + 1 in GVS(Rationals, map[0 := 1]).dims;
    }
    assert S.dims.Keys == {-1};
    DimsAre(S, map[-1 := 1]);
  }

  /** K in degree 0 is a unit for the tensor product. */
  lemma OtimesUnit(V: GVS, T: GVS)
    requires OtimesOf(V, GVS(V.base, map[0 := 1]), T)
    ensures T.dims.Keys == V.dims.Keys
    ensures forall n :: GrDim(T, n) == GrDim(V, n)
  {
    OtimesUnitKeys(V, T);
    OtimesUnitDims(V, T);
  }

  lemma OtimesUnitKeys(V: GVS, T: GVS)
    requires OtimesOf(V, GVS(V.base, map[0 := 1]), T)
    ensures T.dims.Keys == V.dims.Keys
  {
    var U := GVS(V.base, map[0 := 1]);
    var ps := IntList(V.dims.Keys);
    IntListHas(V.dims.Keys);
    forall n | n in T.dims ensures n in V.dims {
      var a :| 0 <= a < |ps| && HitAt(n, ps, a, U);
      assert ps[a] in ps;
    }
    forall n | n in V.dims ensures n in T.dims {
      var a :| 0 <= a < |ps| && ps[a] == n;
      assert HitAt(n, ps, a, U);
    }
  }

  lemma OtimesUnitDims(V: GVS, T: GVS)
    requires OtimesOf(V, GVS(V.base, map[0 := 1]), T)
    ensures forall n :: GrDim(T, n) == GrDim(V, n)
  {
    var ps := IntList(V.dims.Keys);
    IntListHas(V.dims.Keys);
    IntListSorted(V.dims.Keys);
    forall n ensures GrDim(T, n) == GrDim(V, n) {
      ConvUnit(V, ps, |ps|, n);
      ListedAt(V.dims.Keys, ps, n);
    }
  }

  /** Summing dim V^p dim K^{n-p} over the first i of a list of distinct
      degrees ps picks out dim V^n when n is among them. */
  lemma {:induction false} ConvUnit(V: GVS, ps: seq<int>, i: int, n: int)
    requires 0 <= i <= |ps|
    requires forall a, b | 0 <= a < b < |ps| :: ps[a] < ps[b]
    ensures ConvSum(V, ps, i, GVS(V.base, map[0 := 1]), n) == if Listed(n, ps, i) then GrDim(V, n) else 0
  {
    if i > 0 {
      ConvUnit(V, ps, i - 1, n);
      if Listed(n, ps, i) && ps[i - 1] != n {
        var b :| 0 <= b < i && b < |ps| && ps[b] == n;
        assert Listed(n, ps, i - 1);
      }
      if ps[i - 1] == n {
        forall b | 0 <= b < i - 1 ensures ps[b] != n {
        }
      }
    }
  }
}
