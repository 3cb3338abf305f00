/** Graded linear maps of the dense draft: `GradedLinearMap(degree, source,
    target)` holds one matrix `F^n: V^n -> W^{n+d}` per stored degree n, with
    the zero matrix of the right shape wherever nothing is stored.

    The sign rules (koszulify, rejig_2), the re-gradings (rejig_1, rejig_2,
    rejig_3) and the kernel, image and cohomology counts each fill a fresh
    `graded_map` or `graded_dim` dict in a loop over the stored degrees; the
    loops run over the degrees in increasing order.
 */
module GradedMaps {
  import opened Wrappers
  import opened Keys
  import opened Fields
  import opened Dense
  import opened Graded

  /** `GradedLinearMap(degree, source, target)` with its `graded_map`. */
  datatype GLM = GLM(degree: int, source: GVS, target: GVS, maps: map<int, Matrix>)

  /** Every stored map is a two-dimensional array, as NumPy's are. */
  predicate ArraysShaped(F: GLM) {
    forall n | n in F.maps :: Shaped(F.maps[n])
  }

  /** The entries of every stored map are numbers of the source's field. */
  ghost predicate MapsIn(F: GLM) {
    forall n | n in F.maps :: MatrixIn(F.maps[n], F.source.base)
  }

  /** What `verify` prints to be compared: each stored F^n has as many
      columns as dim V^n and as many rows as dim W^{n+d}. */
  ghost predicate Consistent(F: GLM) {
    forall n | n in F.maps :: Shaped(F.maps[n])
      && F.maps[n].rows == GrDim(F.target, n + F.degree) && F.maps[n].cols == GrDim(F.source, n)
  }

  /** `K.num(np.zeros(shape=(r, c)))`: r rows of c zeros of K. */
  function Zeros(K: Field, r: nat, c: nat): (M: Matrix)
    ensures Shaped(M) && M.rows == r && M.cols == c && MatrixIn(M, K)
    ensures forall i, j | 0 <= i < r && 0 <= j < c :: IsZero(M.entries[i][j])
  {
    FromIntInField(K, 0);
    IsZeroMeaning(FromInt(K, 0));
    Matrix(r, c, seq(r, i => seq(c, j => FromInt(K, 0))))
  }

  /** `F.gr_map(n)`: (a copy of) the stored matrix, or else the zero matrix
      from V^n to W^{n+d}; NumPy refuses a negative dimension. */
  function GrMap(F: GLM, n: int): (r: Result<Matrix>)
    ensures n in F.maps ==> r == Ok(F.maps[n])
    ensures n !in F.maps ==> (r.Ok? <==> GrDim(F.source, n) >= 0 && GrDim(F.target, n + F.degree) >= 0)
    ensures n !in F.maps && r.Ok? ==>
      r.value.rows == GrDim(F.target, n + F.degree) && r.value.cols == GrDim(F.source, n)
      && Shaped(r.value) && MatrixIn(r.value, F.source.base)
      && forall i, j | 0 <= i < r.value.rows && 0 <= j < r.value.cols :: IsZero(r.value.entries[i][j])
  {
    if n in F.maps then Ok(F.maps[n])
    else
      var rows, cols := GrDim(F.target, n + F.degree), GrDim(F.source, n);
      if rows < 0 || cols < 0 then Err(ValueError) else Ok(Zeros(F.source.base, rows, cols))
  }

  /** A consistent map is, in each degree, a matrix from V^n to W^{n+d}. */
  lemma GrMapShape(F: GLM, n: int)
    requires Consistent(F) && GrDim(F.source, n) >= 0 && GrDim(F.target, n + F.degree) >= 0
    ensures GrMap(F, n).Ok? && Shaped(GrMap(F, n).value)
    ensures GrMap(F, n).value.rows == GrDim(F.target, n + F.degree)
    ensures GrMap(F, n).value.cols == GrDim(F.source, n)
  {
  }

  // ----- scalar multiples -----

  /** `c * row`: each entry multiplied by c; the first failing product raises. */
  function ScaleRow(c: Number, row: seq<Number>): (r: Result<seq<Number>>)
    ensures r.Ok? <==> forall j | 0 <= j < |row| :: MulNumbers(c, row[j]).Ok?
    ensures r.Ok? ==> |r.value| == |row| && forall j | 0 <= j < |row| :: MulNumbers(c, row[j]) == Ok(r.value[j])
  {
    if row == [] then Ok([])
    else
      var x := MulNumbers(c, row[0]);
      var rest := ScaleRow(c, row[1..]);
      if x.Err? then Err(x.error)
      else if rest.Err? then
        assert !MulNumbers(c, row[1..][0]).Ok? || exists j | 0 <= j < |row[1..]| :: !MulNumbers(c, row[1..][j]).Ok?;
        Err(rest.error)
      else Ok([x.value] + rest.value)
  }

  /** `c * M` for an array of rows. */
  function ScaleRows(c: Number, rows: seq<seq<Number>>): (r: Result<seq<seq<Number>>>)
    ensures r.Ok? <==> forall i | 0 <= i < |rows| :: ScaleRow(c, rows[i]).Ok?
    ensures r.Ok? ==> |r.value| == |rows| && forall i | 0 <= i < |rows| :: ScaleRow(c, rows[i]) == Ok(r.value[i])
  {
    if rows == [] then Ok([])
    else
      var x := ScaleRow(c, rows[0]);
      var rest := ScaleRows(c, rows[1..]);
      if x.Err? then Err(x.error)
      else if rest.Err? then
        assert exists i | 0 <= i < |rows[1..]| :: !ScaleRow(c, rows[1..][i]).Ok?;
        Err(rest.error)
      else Ok([x.value] + rest.value)
  }

  /** `K.num(sigma) * M`: NumPy multiplies every entry of M by the number
      sigma of K, keeping the shape. */
  function Scale(c: Number, M: Matrix): (r: Result<Matrix>)
    ensures r.Ok? <==> forall i, j | 0 <= i < |M.entries| && 0 <= j < |M.entries[i]| :: MulNumbers(c, M.entries[i][j]).Ok?
    ensures r.Ok? ==> r.value.rows == M.rows && r.value.cols == M.cols && |r.value.entries| == |M.entries|
    ensures r.Ok? ==> forall i | 0 <= i < |M.entries| ::
      |r.value.entries[i]| == |M.entries[i]|
      && forall j | 0 <= j < |M.entries[i]| :: MulNumbers(c, M.entries[i][j]) == Ok(r.value.entries[i][j])
  {
    var rows := ScaleRows(c, M.entries);
    if rows.Err? then
      assert exists i | 0 <= i < |M.entries| :: !ScaleRow(c, M.entries[i]).Ok?;
      Err(rows.error)
    else Ok(Matrix(M.rows, M.cols, rows.value))
  }

  /** Entries of K multiplied by K(1) or K(-1) are entries of K again. */
  lemma ScaleSign(K: Field, s: int, M: Matrix)
    requires s == 1 || s == -1
    requires MatrixIn(M, K)
    ensures Scale(FromInt(K, s), M).Ok?
    ensures MatrixIn(Scale(FromInt(K, s), M).value, K)
    ensures Shaped(M) ==> Shaped(Scale(FromInt(K, s), M).value)
  {
    FromIntInField(K, s);
  }

  /** Multiplying twice by K(1), or twice by K(-1), gives back M. */
  lemma ScaleTwice(K: Field, s: int, M: Matrix)
    requires s == 1 || s == -1
    requires MatrixIn(M, K)
    ensures Scale(FromInt(K, s), M).Ok?
    ensures Scale(FromInt(K, s), Scale(FromInt(K, s), M).value) == Ok(M)
  {
    ScaleSign(K, s, M);
    var N := Scale(FromInt(K, s), M).value;
    var c := FromInt(K, s);
    forall i, j | 0 <= i < |M.entries| && 0 <= j < |M.entries[i]|
      ensures MulNumbers(c, N.entries[i][j]) == Ok(M.entries[i][j])
    {
      var x := M.entries[i][j];
      assert InField(K, x);
      if s == 1 {
        OneMul(x);
        OneMul(N.entries[i][j]);
      } else {
        MinusOneMul(x);
        NegNeg(x);
        MinusOneMul(N.entries[i][j]);
      }
    }
    var R := Scale(c, N);
    assert R.Ok?;
    assert R.value.entries == M.entries by {
      forall i | 0 <= i < |M.entries| ensures R.value.entries[i] == M.entries[i] {
        forall j | 0 <= j < |M.entries[i]| ensures R.value.entries[i][j] == M.entries[i][j] {
          assert MulNumbers(c, N.entries[i][j]) == Ok(R.value.entries[i][j]);
        }
      }
    }
  }

  // ----- signs -----

  /** sigma of `koszulify(m)` in degree n, and of `rejig_2(m)` for a map of
      degree n: -1 exactly when m(n-1) is odd, that is when m is odd and n
      is even. The expression is the same under Python's floor `%`, whose
      remainder mod 2 is never negative either. */
  function KoszulSign(m: int, n: int): (s: int)
    ensures s == 1 || s == -1
  {
    if m % 2 == 1 && n % 2 == 0 then -1 else 1
  }

  /** KoszulSign is the source's `-1 if (m*(n-1)) % 2 == 1 else 1`. */
  lemma KoszulSignIsSource(m: int, n: int)
    ensures KoszulSign(m, n) == if (m * (n - 1)) % 2 == 1 then -1 else 1
  {
    OddProduct(m, n - 1);
  }

  lemma OddProduct(a: int, b: int)
    ensures (a * b) % 2 == 1 <==> a % 2 == 1 && b % 2 == 1
  {
    var qa, qb := a / 2, b / 2;
    var ra, rb := a % 2, b % 2;
    assert a == 2 * qa + ra && b == 2 * qb + rb;
    assert a * b == 2 * (2 * qa * qb + qa * rb + qb * ra) + ra * rb;
    assert ra * rb == 0 || ra * rb == 1;
  }

  /** The sign does not see the direction of the shift. */
  lemma KoszulSignNeg(m: int, n: int)
    ensures KoszulSign(-m, n) == KoszulSign(m, n)
  {
  }

  // ----- koszulify -----

  /** What `F.koszulify(m)` returns: the same degree and spaces, the same
      stored degrees, and in degree n the stored matrix times sigma(m, n). */
  ghost predicate KoszulOf(F: GLM, m: int, G: GLM) {
    G.degree == F.degree && G.source == F.source && G.target == F.target
    && (forall n :: n in G.maps <==> n in F.maps)
    && forall n | n in F.maps :: Scale(FromInt(F.source.base, KoszulSign(m, n)), F.maps[n]) == Ok(G.maps[n])
  }

  /** Some stored matrix cannot be multiplied by its sign. */
  ghost predicate KoszulFails(F: GLM, m: int) {
    exists n | n in F.maps :: Scale(FromInt(F.source.base, KoszulSign(m, n)), F.maps[n]).Err?
  }

  /** `F.koszulify(m)` (m = 1 by default). */
  method Koszulify(F: GLM, m: int) returns (r: Result<GLM>)
    ensures r.Ok? <==> !KoszulFails(F, m)
    ensures r.Ok? ==> KoszulOf(F, m, r.value)
    ensures MapsIn(F) ==> r.Ok?
  {
    var K := F.source.base;
    var maps: map<int, Matrix> := map[];
    var ns := IntList(F.maps.Keys);
    IntListHas(F.maps.Keys);
    for i := 0 to |ns|
      invariant KoszulUpTo(F, m, ns, i, maps)
    {
      var n := ns[i];
      var sigma := KoszulSign(m, n);
      var M := Scale(FromInt(K, sigma), F.maps[n]);
      if M.Err? {
        assert n in F.maps;
        if MapsIn(F) {
          ScaleSign(K, sigma, F.maps[n]);
        }
        return Err(M.error);
      }
      KoszulStep(F, m, ns, i, n, maps);
      maps := maps[n := M.value];
    }
    KoszulDone(F, m, ns, maps);
    if MapsIn(F) {
      forall n | n in F.maps ensures Scale(FromInt(K, KoszulSign(m, n)), F.maps[n]).Ok? {
        ScaleSign(K, KoszulSign(m, n), F.maps[n]);
      }
    }
    return Ok(GLM(F.degree, F.source, F.target, maps));
  }

  /** The loop of `Koszulify` after the first i degrees of ns. */
  ghost predicate KoszulUpTo(F: GLM, m: int, ns: seq<int>, i: int, maps: map<int, Matrix>) {
    forall n ::
      (n in maps <==> Listed(n, ns, i))
      && (n in maps ==> n in F.maps && Scale(FromInt(F.source.base, KoszulSign(m, n)), F.maps[n]) == Ok(maps[n]))
  }

  /** One pass of the loop of `Koszulify`. */
  lemma KoszulStep(F: GLM, m: int, ns: seq<int>, i: int, n: int, maps: map<int, Matrix>)
    requires 0 <= i < |ns| && n == ns[i] && n in F.maps && KoszulUpTo(F, m, ns, i, maps)
    requires Scale(FromInt(F.source.base, KoszulSign(m, n)), F.maps[n]).Ok?
    ensures KoszulUpTo(F, m, ns, i + 1, maps[n := Scale(FromInt(F.source.base, KoszulSign(m, n)), F.maps[n]).value])
  {
    ListedStep(ns, i);
    var maps' := maps[n := Scale(FromInt(F.source.base, KoszulSign(m, n)), F.maps[n]).value];
    forall p
      ensures (p in maps' <==> Listed(p, ns, i + 1))
        && (p in maps' ==> p in F.maps && Scale(FromInt(F.source.base, KoszulSign(m, p)), F.maps[p]) == Ok(maps'[p]))
    {
      assert p in maps <==> Listed(p, ns, i);
    }
  }

  /** The end of the loop of `Koszulify`. */
  lemma KoszulDone(F: GLM, m: int, ns: seq<int>, maps: map<int, Matrix>)
    requires (forall q :: q in ns <==> q in F.maps) && KoszulUpTo(F, m, ns, |ns|, maps)
    ensures KoszulOf(F, m, GLM(F.degree, F.source, F.target, maps))
    ensures !KoszulFails(F, m)
  {
    forall n ensures n in maps <==> n in F.maps {
      ListedAt(F.maps.Keys, ns, n);
    }
  }

  /** Koszulifying twice with the same m gives back the map. */
  lemma KoszulInvolution(F: GLM, m: int, G: GLM, H: GLM)
    requires MapsIn(F)
    requires KoszulOf(F, m, G) && KoszulOf(G, m, H)
    ensures H == F
  {
    var K := F.source.base;
    forall n | n in F.maps ensures n in H.maps && H.maps[n] == F.maps[n] {
      assert n in G.maps;
      ScaleTwice(K, KoszulSign(m, n), F.maps[n]);
    }
    forall n ensures n in H.maps <==> n in F.maps {
      assert n in H.maps <==> n in G.maps;
    }
    assert H.maps == F.maps;
  }

  /** Koszulifying keeps the entries in the field and the shapes. */
  lemma KoszulKeeps(F: GLM, m: int, G: GLM)
    requires MapsIn(F) && KoszulOf(F, m, G)
    ensures MapsIn(G)
    ensures Consistent(F) ==> Consistent(G)
  {
    forall n | n in G.maps ensures MatrixIn(G.maps[n], G.source.base) && (Consistent(F) ==> Shaped(G.maps[n])) {
      ScaleSign(F.source.base, KoszulSign(m, n), F.maps[n]);
    }
  }

  // ----- rejig_1 -----

  /** What `F.rejig_1(m)` returns, the isomorphism hom(M, N)[m] -> hom(M, N[m]):
      degree d - m, the same source, the target shifted by m, and the same
      matrices in the same degrees. */
  ghost predicate Rejig1Of(F: GLM, m: int, G: GLM) {
    G.degree == F.degree - m && G.source == F.source && ShiftOf(F.target, m, G.target)
    && G.maps == F.maps
  }

  /** `F.rejig_1(m)` (m = 1 by default); `gr_map(n)` of a stored degree n is
      the stored matrix. */
  method Rejig1(F: GLM, m: int) returns (G: GLM)
    ensures Rejig1Of(F, m, G)
  {
    var N := Shift(F.target, m);
    var maps: map<int, Matrix> := map[];
    var ns := IntList(F.maps.Keys);
    IntListHas(F.maps.Keys);
    for i := 0 to |ns|
      invariant CopiedUpTo(F, ns, i, maps)
    {
      var n := ns[i];
      var M := GrMap(F, n);
      CopiedStep(F, ns, i, n, maps);
      maps := maps[n := M.value];
    }
    CopiedDone(F, ns, maps);
    G := GLM(F.degree - m, F.source, N, maps);
  }

  /** The loop of `Rejig1` after the first i degrees of ns. */
  ghost predicate CopiedUpTo(F: GLM, ns: seq<int>, i: int, maps: map<int, Matrix>) {
    forall n :: (n in maps <==> Listed(n, ns, i)) && (n in maps ==> n in F.maps && maps[n] == F.maps[n])
  }

  /** One pass of the loop of `Rejig1`. */
  lemma CopiedStep(F: GLM, ns: seq<int>, i: int, n: int, maps: map<int, Matrix>)
    requires 0 <= i < |ns| && n == ns[i] && n in F.maps && CopiedUpTo(F, ns, i, maps)
    ensures CopiedUpTo(F, ns, i + 1, maps[n := F.maps[n]])
  {
    ListedStep(ns, i);
    var maps' := maps[n := F.maps[n]];
    forall p ensures (p in maps' <==> Listed(p, ns, i + 1)) && (p in maps' ==> p in F.maps && maps'[p] == F.maps[p]) {
      assert p in maps <==> Listed(p, ns, i);
    }
  }

  /** The end of the loop of `Rejig1`: every stored matrix is copied. */
  lemma CopiedDone(F: GLM, ns: seq<int>, maps: map<int, Matrix>)
    requires (forall q :: q in ns <==> q in F.maps) && CopiedUpTo(F, ns, |ns|, maps)
    ensures maps == F.maps
  {
    forall n ensures n in maps <==> n in F.maps {
      ListedAt(F.maps.Keys, ns, n);
    }
    forall n | n in maps ensures maps[n] == F.maps[n] {
    }
  }

  /** rejig_1 changes nothing that `gr_map` hands out: W[m]^{n+d-m} is W^{n+d}. */
  lemma Rejig1GrMap(F: GLM, m: int, G: GLM, n: int)
    requires Rejig1Of(F, m, G)
    ensures GrMap(G, n) == GrMap(F, n)
  {
    Rejig1Dims(F, m, G, n);
    SameGrMap(F, G, n);
  }

  lemma Rejig1Dims(F: GLM, m: int, G: GLM, n: int)
    requires Rejig1Of(F, m, G)
    ensures GrDim(G.target, n + G.degree) == GrDim(F.target, n + F.degree)
  {
    ShiftGrDim(F.target, m, G.target);
    assert n + G.degree + m == n + F.degree;
  }

  /** Two maps with the same stored matrices and the same source and target
      dimensions in the degrees concerned hand out the same matrix. */
  lemma SameGrMap(F: GLM, G: GLM, n: int)
    requires G.maps == F.maps && G.source == F.source
    requires GrDim(G.target, n + G.degree) == GrDim(F.target, n + F.degree)
    ensures GrMap(G, n) == GrMap(F, n)
  {
  }

  /** rejig_1(m) followed by rejig_1(-m) gives back the map. */
  lemma Rejig1RoundTrip(F: GLM, m: int, G: GLM, H: GLM)
    requires Rejig1Of(F, m, G) && Rejig1Of(G, -m, H)
    ensures H == F
  {
    ShiftRoundTrip(F.target, m, G.target, H.target);
  }

  // ----- rejig_2 -----

  /** G stores, in each degree k, c times the matrix F stores in degree k + m,
      and nothing else. */
  ghost predicate ShiftedMaps(F: GLM, m: int, c: Number, maps: map<int, Matrix>) {
    forall k, n | n == k + m :: (k in maps <==> n in F.maps) && (k in maps ==> Scale(c, F.maps[n]) == Ok(maps[k]))
  }

  /** What `F.rejig_2(m)` returns, the isomorphism hom(M, N) -> hom(M[m], N[m]):
      the same degree d, both spaces shifted by m, and the matrix of degree
      n + m stored in degree n, times (-1)^{m(d-1)}. */
  ghost predicate Rejig2Of(F: GLM, m: int, G: GLM) {
    G.degree == F.degree && ShiftOf(F.source, m, G.source) && ShiftOf(F.target, m, G.target)
    && ShiftedMaps(F, m, FromInt(F.source.base, KoszulSign(m, F.degree)), G.maps)
  }

  /** Some stored matrix cannot be multiplied by the sign. */
  ghost predicate Rejig2Fails(F: GLM, m: int) {
    exists n | n in F.maps :: Scale(FromInt(F.source.base, KoszulSign(m, F.degree)), F.maps[n]).Err?
  }

  /** `F.rejig_2(m)` (m = 1 by default). */
  method Rejig2(F: GLM, m: int) returns (r: Result<GLM>)
    ensures r.Ok? <==> !Rejig2Fails(F, m)
    ensures r.Ok? ==> Rejig2Of(F, m, r.value)
    ensures MapsIn(F) ==> r.Ok?
  {
    var K := F.source.base;
    var sigma := KoszulSign(m, F.degree);
    var c := FromInt(K, sigma);
    var M := Shift(F.source, m);
    var N := Shift(F.target, m);
    var maps: map<int, Matrix> := map[];
    var ns := IntList(F.maps.Keys);
    IntListHas(F.maps.Keys);
    for i := 0 to |ns|
      invariant ScaledUpTo(F, m, c, ns, i, maps)
    {
      var n := ns[i];
      var A := Scale(c, F.maps[n]);
      if A.Err? {
        assert n in F.maps;
        if MapsIn(F) {
          ScaleSign(K, sigma, F.maps[n]);
        }
        return Err(A.error);
      }
      ScaledStep(F, m, c, ns, i, n, maps);
      maps := maps[n - m := A.value];
    }
    ScaledDone(F, m, c, ns, maps);
    if MapsIn(F) {
      forall n | n in F.maps ensures Scale(c, F.maps[n]).Ok? {
        ScaleSign(K, sigma, F.maps[n]);
      }
    }
    return Ok(GLM(F.degree, M, N, maps));
  }

  /** The loop of `Rejig2` after the first i degrees of ns. */
  ghost predicate ScaledUpTo(F: GLM, m: int, c: Number, ns: seq<int>, i: int, maps: map<int, Matrix>) {
    forall k ::
      (k in maps <==> Listed(k + m, ns, i))
      && (k in maps ==> k + m in F.maps && Scale(c, F.maps[k + m]) == Ok(maps[k]))
  }

  /** One pass of the loop of `Rejig2`. */
  lemma ScaledStep(F: GLM, m: int, c: Number, ns: seq<int>, i: int, n: int, maps: map<int, Matrix>)
    requires 0 <= i < |ns| && n == ns[i] && n in F.maps && Scale(c, F.maps[n]).Ok?
    requires ScaledUpTo(F, m, c, ns, i, maps)
    ensures ScaledUpTo(F, m, c, ns, i + 1, maps[n - m := Scale(c, F.maps[n]).value])
  {
    ListedStep(ns, i);
    var maps' := maps[n - m := Scale(c, F.maps[n]).value];
    forall k
      ensures (k in maps' <==> Listed(k + m, ns, i + 1))
        && (k in maps' ==> k + m in F.maps && Scale(c, F.maps[k + m]) == Ok(maps'[k]))
    {
      assert k in maps <==> Listed(k + m, ns, i);
    }
  }

  /** The end of the loop of `Rejig2`. */
  lemma ScaledDone(F: GLM, m: int, c: Number, ns: seq<int>, maps: map<int, Matrix>)
    requires (forall q :: q in ns <==> q in F.maps) && ScaledUpTo(F, m, c, ns, |ns|, maps)
    ensures ShiftedMaps(F, m, c, maps)
    ensures forall n | n in F.maps :: Scale(c, F.maps[n]).Ok?
  {
    forall k, n | n == k + m
      ensures (k in maps <==> n in F.maps) && (k in maps ==> Scale(c, F.maps[n]) == Ok(maps[k]))
    {
      ListedAt(F.maps.Keys, ns, n);
    }
    forall n | n in F.maps ensures Scale(c, F.maps[n]).Ok? {
      ListedAt(F.maps.Keys, ns, n);
      assert n - m in maps;
    }
  }

  /** rejig_2(m) followed by rejig_2(-m) gives back the map: the degree d is
      kept, so the two signs agree and cancel. */
  lemma Rejig2RoundTrip(F: GLM, m: int, G: GLM, H: GLM)
    requires MapsIn(F)
    requires Rejig2Of(F, m, G) && Rejig2Of(G, -m, H)
    ensures H == F
  {
    ShiftRoundTrip(F.source, m, G.source, H.source);
    ShiftRoundTrip(F.target, m, G.target, H.target);
    KoszulSignNeg(m, F.degree);
    var K := F.source.base;
    var s := KoszulSign(m, F.degree);
    forall n | n in H.maps ensures n in F.maps && H.maps[n] == F.maps[n] {
      assert n - m in G.maps;
      ScaleTwice(K, s, F.maps[n]);
    }
    forall n | n in F.maps ensures n in H.maps {
      assert n - m in G.maps;
    }
    assert H.maps == F.maps;
  }

  // ----- rejig_3 -----

  /** What `F.rejig_3(m) = F.rejig_2(m).rejig_1(-m)` returns, the isomorphism
      hom(M, N) -> hom(M[m], N)[m]: degree d + m, the source shifted by m,
      the target N itself, and the matrix of degree n + m stored in degree n
      times (-1)^{m(d-1)}. */
  ghost predicate Rejig3Of(F: GLM, m: int, H: GLM) {
    H.degree == F.degree + m && ShiftOf(F.source, m, H.source) && H.target == F.target
    && ShiftedMaps(F, m, FromInt(F.source.base, KoszulSign(m, F.degree)), H.maps)
  }

  /** `F.rejig_3(m)` (m = 1 by default). */
  method Rejig3(F: GLM, m: int) returns (r: Result<GLM>)
    ensures r.Ok? <==> !Rejig2Fails(F, m)
    ensures r.Ok? ==> Rejig3Of(F, m, r.value)
    ensures MapsIn(F) ==> r.Ok?
  {
    var g := Rejig2(F, m);
    if g.Err? {
      return Err(g.error);
    }
    var h := Rejig1(g.value, -m);
    Rejig3Shape(F, m, g.value, h);
    return Ok(h);
  }

  /** rejig_2(m) then rejig_1(-m) is the rejig_3 of the docstring. */
  lemma Rejig3Shape(F: GLM, m: int, G: GLM, H: GLM)
    requires Rejig2Of(F, m, G) && Rejig1Of(G, -m, H)
    ensures Rejig3Of(F, m, H)
  {
    ShiftRoundTrip(F.target, m, G.target, H.target);
  }

  // ----- kernel, image and cohomology -----

  /** The two counts rank_nullity reports for a matrix M. */
  predicate RankNullityOf(M: Matrix, rank: int, nullity: int) {
    rank + nullity == M.cols && 0 <= rank <= M.rows
  }

  /** Degree n of the source is recorded: the kernel count in degree n and
      the image count in degree n + d are the nullity and the rank of
      `gr_map(n)`. */
  ghost predicate RecordedAt(F: GLM, n: int, kd: map<int, int>, id: map<int, int>) {
    n in kd && n + F.degree in id && GrMap(F, n).Ok?
    && RankNullityOf(GrMap(F, n).value, id[n + F.degree], kd[n])
  }

  /** What `F.ker_im()` returns: a kernel count in each degree n of the
      source, and the image count of F^n recorded in degree n + d, both from
      rank_nullity of `gr_map(n)`. */
  ghost predicate KerImOf(F: GLM, kernel: GVS, image: GVS) {
    kernel.base == F.source.base && image.base == F.source.base
    && (forall n :: n in kernel.dims <==> n in F.source.dims)
    && (forall k, n | k == n + F.degree :: k in image.dims <==> n in F.source.dims)
    && forall n | n in F.source.dims :: RecordedAt(F, n, kernel.dims, image.dims)
  }

  /** Every degree of the source has a matrix `gr_map` can hand out. */
  ghost predicate GrMapsOk(F: GLM) {
    forall n | n in F.source.dims :: GrMap(F, n).Ok?
  }

  /** `F.ker_im()`. */
  method KerIm(F: GLM) returns (r: Result<(GVS, GVS)>)
    requires ArraysShaped(F)
    ensures r.Ok? ==> KerImOf(F, r.value.0, r.value.1)
    ensures MapsIn(F) && PrimeField(F.source.base) && GrMapsOk(F) ==>
      r.Ok? && forall n | n in r.value.0.dims :: r.value.0.dims[n] >= 0
  {
    var K := F.source.base;
    var ns := IntList(F.source.dims.Keys);
    IntListHas(F.source.dims.Keys);
    IntListSorted(F.source.dims.Keys);
    var counts := KerImLoop(F, ns);
    if counts.Err? {
      return Err(counts.error);
    }
    var kd, id := counts.value.0, counts.value.1;
    KerImDone(F, ns, kd, id);
    return Ok((GVS(K, kd), GVS(K, id)));
  }

  /** The loop of `F.ker_im()` over the degrees ns of the source. */
  method KerImLoop(F: GLM, ns: seq<int>) returns (r: Result<(map<int, int>, map<int, int>)>)
    requires ArraysShaped(F)
    requires (forall q :: q in ns <==> q in F.source.dims) && forall a, b | 0 <= a < b < |ns| :: ns[a] < ns[b]
    ensures r.Ok? ==> KerImUpTo(F, ns, |ns|, r.value.0, r.value.1)
    ensures MapsIn(F) && PrimeField(F.source.base) && GrMapsOk(F) ==>
      r.Ok? && forall n | n in r.value.0 :: r.value.0[n] >= 0
  {
    var kd: map<int, int> := map[];
    var id: map<int, int> := map[];
    ghost var good := MapsIn(F) && PrimeField(F.source.base) && GrMapsOk(F);
    for i := 0 to |ns|
      invariant KerImUpTo(F, ns, i, kd, id)
      invariant good ==> forall n | n in kd :: kd[n] >= 0
    {
      var n := ns[i];
      var rn := DegreeCounts(F, n);
      if rn.Err? {
        return Err(rn.error);
      }
      IncreasingNotListed(ns, i);
      KerImStep(F, ns, i, n, kd, id, rn.value.0, rn.value.1);
      kd := kd[n := rn.value.1];
      id := id[n + F.degree := rn.value.0];
    }
    return Ok((kd, id));
  }

  /** `rank_nullity(F.gr_map(n))`: the rank and the nullity of F in degree n. */
  method DegreeCounts(F: GLM, n: int) returns (r: Result<(int, int)>)
    requires ArraysShaped(F)
    ensures r.Ok? ==> GrMap(F, n).Ok? && RankNullityOf(GrMap(F, n).value, r.value.0, r.value.1)
    ensures MapsIn(F) && PrimeField(F.source.base) && GrMap(F, n).Ok? ==> r.Ok? && r.value.1 >= 0
  {
    var M := GrMap(F, n);
    if M.Err? {
      return Err(M.error);
    }
    r := RankNullity(M.value, F.source.base);
  }

  /** The loop of `KerIm` after the first i degrees of ns: the kernel and image
      counts kd and id. */
  ghost predicate KerImUpTo(F: GLM, ns: seq<int>, i: int, kd: map<int, int>, id: map<int, int>) {
    (forall n :: n in kd <==> Listed(n, ns, i))
    && (forall k, n | k == n + F.degree :: k in id <==> Listed(n, ns, i))
    && forall n | n in kd :: RecordedAt(F, n, kd, id)
  }

  /** One pass of the loop of `KerIm`: degree ns[i], not done before, is
      recorded. */
  lemma KerImStep(F: GLM, ns: seq<int>, i: int, n: int, kd: map<int, int>, id: map<int, int>, rank: int, nullity: int)
    requires 0 <= i < |ns| && n == ns[i] && !Listed(n, ns, i) && KerImUpTo(F, ns, i, kd, id)
    requires GrMap(F, n).Ok?
    requires RankNullityOf(GrMap(F, n).value, rank, nullity)
    ensures KerImUpTo(F, ns, i + 1, kd[n := nullity], id[n + F.degree := rank])
  {
    var kd', id' := kd[n := nullity], id[n + F.degree := rank];
    ListedStep(ns, i);
    var d := F.degree;
    forall k ensures k in id' <==> Listed(k - d, ns, i + 1) {
      assert k in id <==> Listed(k - d, ns, i);
    }
    forall p | p in kd' ensures RecordedAt(F, p, kd', id') {
      if p != n {
        assert p + d in id;
        assert p + d != n + d;
      }
    }
  }

  /** The end of the loop of `KerIm`. */
  lemma KerImDone(F: GLM, ns: seq<int>, kd: map<int, int>, id: map<int, int>)
    requires (forall q :: q in ns <==> q in F.source.dims) && KerImUpTo(F, ns, |ns|, kd, id)
    ensures KerImOf(F, GVS(F.source.base, kd), GVS(F.source.base, id))
  {
    ListedAll(F.source.dims.Keys, ns);
  }

  /** Rank and nullity in each degree add up to the dimension of the source
      there, when the map is consistent. */
  lemma GradedRankNullity(F: GLM, kernel: GVS, image: GVS, n: int)
    requires Consistent(F) && KerImOf(F, kernel, image) && n in F.source.dims
    ensures kernel.dims[n] + GrDim(image, n + F.degree) == GrDim(F.source, n)
    ensures 0 <= GrDim(image, n + F.degree) <= GrDim(F.target, n + F.degree)
  {
  }

  /** `CochainComplex(cochains, differential)`. */
  datatype Complex = Complex(cochains: GVS, differential: GLM)

  /** What `Z.cohomology()` returns: in each degree of the kernel, the
      kernel count minus the image count recorded there. */
  ghost predicate CohomOf(Z: Complex, kernel: GVS, image: GVS, coh: GVS) {
    coh.base == Z.cochains.base
    && (forall n :: n in coh.dims <==> n in kernel.dims)
    && forall n | n in coh.dims :: coh.dims[n] == kernel.dims[n] - GrDim(image, n)
  }

  /** `Z.cohomology()`; the printed complaint about a negative dimension
      changes nothing. The kernel and image it uses are returned as ghosts. */
  method Cohomology(Z: Complex) returns (r: Result<GVS>, ghost kernel: GVS, ghost image: GVS)
    requires ArraysShaped(Z.differential)
    ensures r.Ok? ==> KerImOf(Z.differential, kernel, image) && CohomOf(Z, kernel, image, r.value)
    ensures MapsIn(Z.differential) && PrimeField(Z.differential.source.base) && GrMapsOk(Z.differential) ==> r.Ok?
  {
    var ki := KerIm(Z.differential);
    if ki.Err? {
      return Err(ki.error), GVS(Z.cochains.base, map[]), GVS(Z.cochains.base, map[]);
    }
    var ker, im := ki.value.0, ki.value.1;
    var coh := GVS(Z.cochains.base, map[]);
    var ns := IntList(ker.dims.Keys);
    IntListHas(ker.dims.Keys);
    for i := 0 to |ns|
      invariant coh.base == Z.cochains.base
      invariant forall n :: n in coh.dims <==> Listed(n, ns, i)
      invariant forall n | n in coh.dims :: n in ker.dims && coh.dims[n] == ker.dims[n] - GrDim(im, n)
    {
      ListedStep(ns, i);
      coh := coh.(dims := coh.dims[ns[i] := GrDim(ker, ns[i]) - GrDim(im, ns[i])]);
    }
    ListedAll(ker.dims.Keys, ns);
    return Ok(coh), ker, im;
  }

  /** For a differential of degree 1 on the cochains, H^n is the nullity of
      d^n minus the rank of d^{n-1} when n - 1 is a degree of the cochains,
      and the nullity of d^n alone otherwise. */
  lemma CohomologyCases(Z: Complex, kernel: GVS, image: GVS, coh: GVS, n: int)
    requires Z.differential.degree == 1 && Z.differential.source == Z.cochains
    requires KerImOf(Z.differential, kernel, image) && CohomOf(Z, kernel, image, coh)
    requires n in Z.cochains.dims
    ensures n - 1 in Z.cochains.dims ==>
      coh.dims[n] == kernel.dims[n] - image.dims[n]
      && RankNullityOf(GrMap(Z.differential, n - 1).value, image.dims[n], kernel.dims[n - 1])
    ensures n - 1 !in Z.cochains.dims ==> coh.dims[n] == kernel.dims[n]
  {
    if n - 1 in Z.cochains.dims {
      assert n - 1 + Z.differential.degree == n;
    }
  }

  /** For a consistent differential of degree 1, H^n is at most dim C^n. */
  lemma CohomologyBound(Z: Complex, kernel: GVS, image: GVS, coh: GVS, n: int)
    requires Z.differential.degree == 1 && Z.differential.source == Z.cochains
    requires Consistent(Z.differential)
    requires KerImOf(Z.differential, kernel, image) && CohomOf(Z, kernel, image, coh)
    requires n in Z.cochains.dims
    ensures coh.dims[n] <= GrDim(Z.cochains, n)
  {
    GradedRankNullity(Z.differential, kernel, image, n);
    CohomologyCases(Z, kernel, image, coh, n);
  }
}
