/** The dense-matrix drafts: `find_nonzero`, the row-echelon `rank_nullity`,
    and the ungraded spaces `vs` and maps `homo` of the vector-space draft.

    Entries are numbers of `Fields`; a matrix handed to `rank_nullity` is an
    `array2`, which the elimination rewrites row by row.
 */
module Dense {
  import opened Wrappers
  import opened Fields
  import FF = FiniteFields

  // ----- find_nonzero -----

  /** The result of `find_nonzero`: `(True, x, n[x])`, or `(False, 0, 0)`. */
  datatype Search = Found(index: nat, entry: Number) | NotFound

  /** r is the first entry of row that is not `== 0`, with its index, or
      NotFound when every entry is `== 0`. */
  predicate FirstNonzero(row: seq<Number>, r: Search) {
    match r
    case Found(x, t) => x < |row| && row[x] == t && !IsZero(t) && forall j | 0 <= j < x :: IsZero(row[j])
    case NotFound => forall j | 0 <= j < |row| :: IsZero(row[j])
  }

  /** The search has one possible outcome. */
  lemma FirstNonzeroUnique(row: seq<Number>, r1: Search, r2: Search)
    requires FirstNonzero(row, r1) && FirstNonzero(row, r2)
    ensures r1 == r2
  {
    if r1.Found? && r2.Found? {
      assert !(r1.index < r2.index) && !(r2.index < r1.index);
    }
  }

  /** `find_nonzero(n)`: walks a counter up the array until an entry is not
      `== 0`. */
  method FindNonzero(a: array<Number>) returns (r: Search)
    ensures FirstNonzero(a[..], r)
  {
    var ctr := 0;
    while ctr < a.Length
      invariant 0 <= ctr <= a.Length
      invariant forall j | 0 <= j < ctr :: IsZero(a[j])
    {
      if !IsZero(a[ctr]) {
        return Found(ctr, a[ctr]);
      }
      ctr := ctr + 1;
    }
    return NotFound;
  }

  // ----- rank_nullity -----

  /** Every entry of A is a number of the field K. */
  ghost predicate EntriesIn(A: array2<Number>, K: Field)
    reads A
  {
    forall i, j | 0 <= i < A.Length0 && 0 <= j < A.Length1 :: InField(K, A[i, j])
  }

  /** Q, or Z/p for a prime p: the fields in which every nonzero number can
      be divided by. */
  ghost predicate PrimeField(K: Field) {
    K.FiniteField? ==> FF.IsPrime(K.p)
  }

  /** The columns of earlier pivots, all distinct and inside the matrix. */
  ghost predicate Pivots(ps: seq<int>, cols: int) {
    (forall k | 0 <= k < |ps| :: 0 <= ps[k] < cols) && forall a, b | 0 <= a < b < |ps| :: ps[a] != ps[b]
  }

  /** Every row from lo on is zero in every pivot column. */
  ghost predicate ZeroBelow(A: array2<Number>, lo: int, ps: seq<int>, K: Field)
    reads A
  {
    forall x, k | 0 <= lo <= x < A.Length0 && 0 <= k < |ps| :: 0 <= ps[k] < A.Length1 && A[x, ps[k]] == FromInt(K, 0)
  }

  /** The body of the innermost loop, `A[x,y] -= c*A[n,y]`, on the numbers
      involved: the result stays in K, a zero stays zero when the pivot row
      is zero there, and the pivot column is cleared. */
  lemma ClearStep(K: Field, a: Number, c: Number, b: Number)
    requires InField(K, a) && InField(K, c) && InField(K, b)
    ensures MulNumbers(c, b).Ok? && Sub(a, MulNumbers(c, b).value).Ok?
    ensures InField(K, Sub(a, MulNumbers(c, b).value).value)
    ensures a == FromInt(K, 0) && b == FromInt(K, 0) ==> Sub(a, MulNumbers(c, b).value).value == FromInt(K, 0)
    ensures MulNumbers(c, b) == Ok(a) ==> Sub(a, MulNumbers(c, b).value).value == FromInt(K, 0)
  {
    var cb := MulNumbers(c, b).value;
    if b == FromInt(K, 0) {
      MulZero(c);
      if a == FromInt(K, 0) {
        SubSelfZero(K);
      }
    }
    if cb == a {
      SubZeroIff(a, a);
      IsZeroMeaning(Sub(a, a).value);
    }
  }

  /** At most `cols` distinct pivot columns below `cols` (pigeonhole: the
      last pivot trades places with the column `cols - 1`). */
  lemma {:induction false} PivotBound(ps: seq<int>, cols: int)
    requires 0 <= cols && Pivots(ps, cols)
    ensures |ps| <= cols
    decreases |ps|
  {
    if ps != [] {
      var n := |ps| - 1;
      var v := ps[n];
      assert 0 <= v < cols;
      var top := cols - 1;
      var ys := seq(n, i requires 0 <= i < n => if ps[i] == top then v else ps[i]);
      forall a, b | 0 <= a < b < n ensures ys[a] != ys[b] {
        assert ps[a] != ps[b] && ps[a] != v && ps[b] != v;
      }
      forall k | 0 <= k < n ensures 0 <= ys[k] < top {
        assert ps[k] != v;
      }
      PivotBound(ys, top);
    }
  }

  /** The elimination of `rank_nullity`, in place on A: each row that still
      has a nonzero entry is a pivot row, counted off the nullity, and its
      pivot column is cleared from every later row by subtracting the
      multiple `A[x,s]/t` of it; each row found zero is counted off the rank.
      The counts always add up to the number of columns, and the rank lies
      between 0 and the number of rows. When the entries are numbers of Q
      or of Z/p for prime p, no step fails and the pivot columns are distinct,
      so the nullity is not negative either. */
  method Eliminate(A: array2<Number>, ghost K: Field) returns (r: Result<(int, int)>)
    modifies A
    ensures r.Ok? ==> r.value.0 + r.value.1 == A.Length1 && 0 <= r.value.0 <= A.Length0
    ensures old(EntriesIn(A, K)) && PrimeField(K) ==> r.Ok? && 0 <= r.value.1
  {
    var rows, cols := A.Length0, A.Length1;
    var rank, nullity := rows, cols;
    ghost var good := EntriesIn(A, K) && PrimeField(K);
    ghost var ps: seq<int> := [];
    for n := 0 to rows
      invariant |ps| <= n && nullity == cols - |ps| && rank == rows - (n - |ps|)
      invariant good ==> PrimeField(K) && EntriesIn(A, K) && Pivots(ps, cols) && ZeroBelow(A, n, ps, K)
    {
      var row := new Number[cols](j requires 0 <= j < cols reads A => A[n, j]);
      var found := FindNonzero(row);
      if found.Found? {
        var s, t := found.index, found.entry;
        nullity := nullity - 1;
        if good {
          NewPivot(A, n, ps, K, row[..], s);
        }
        var ok := ClearBelow(A, n, s, t, K, ps, good);
        if ok.Err? {
          return Err(ok.error);
        }
        ps := ps + [s];
      } else {
        rank := rank - 1;
      }
    }
    if good {
      PivotBound(ps, cols);
    }
    return Ok((rank, nullity));
  }

  /** The first nonzero entry of a row that is zero in every pivot column
      lies in a new column. */
  lemma NewPivot(A: array2<Number>, n: int, ps: seq<int>, K: Field, row: seq<Number>, s: nat)
    requires 0 <= n < A.Length0 && Pivots(ps, A.Length1) && ZeroBelow(A, n, ps, K)
    requires |row| == A.Length1 && forall j | 0 <= j < |row| :: row[j] == A[n, j]
    requires s < |row| && !IsZero(row[s])
    ensures Pivots(ps + [s], A.Length1)
  {
    forall k | 0 <= k < |ps| ensures ps[k] != s {
      assert A[n, ps[k]] == FromInt(K, 0);
      FromIntInField(K, 0);
      IsZeroMeaning(A[n, ps[k]]);
    }
  }

  /** The loop over the later rows: each loses its entry in the pivot
      column s. */
  method ClearBelow(A: array2<Number>, n: int, s: nat, t: Number, ghost K: Field, ghost ps: seq<int>, ghost good: bool)
      returns (r: Result<()>)
    requires 0 <= n < A.Length0 && s < A.Length1
    requires good ==> PrimeField(K) && EntriesIn(A, K) && Pivots(ps + [s], A.Length1)
    requires good ==> ZeroBelow(A, n, ps, K) && A[n, s] == t && !IsZero(t)
    modifies A
    ensures good ==> r.Ok? && EntriesIn(A, K) && ZeroBelow(A, n + 1, ps + [s], K)
  {
    for x := n + 1 to A.Length0
      invariant forall j | 0 <= j < A.Length1 :: A[n, j] == old(A[n, j])
      invariant good ==> EntriesIn(A, K)
      invariant good ==> forall x', k | n <= x' < A.Length0 && 0 <= k < |ps| && 0 <= ps[k] < A.Length1 :: A[x', ps[k]] == FromInt(K, 0)
      invariant good ==> forall x' | n < x' < x :: A[x', s] == FromInt(K, 0)
    {
      var c := Div(A[x, s], t);
      if good {
        DivThenMul(A[x, s], t);
      }
      if c.Err? {
        return Err(c.error);
      }
      var ok := ClearRow(A, n, x, c.value, s, K, ps, good);
      if ok.Err? {
        return ok;
      }
    }
    return Ok(());
  }

  /** `for y in range(0, cols): A[x,y] -= c*A[n,y]`: only row x changes; it
      keeps its zeros in the pivot columns and loses its entry in column s,
      which c times the pivot entry matches. */
  method ClearRow(A: array2<Number>, n: int, x: int, c: Number, ghost s: nat, ghost K: Field, ghost ps: seq<int>, ghost good: bool)
      returns (r: Result<()>)
    requires 0 <= n < x < A.Length0 && s < A.Length1
    requires good ==> EntriesIn(A, K) && InField(K, c) && Pivots(ps + [s], A.Length1)
    requires good ==> forall k | 0 <= k < |ps| && 0 <= ps[k] < A.Length1 :: A[n, ps[k]] == FromInt(K, 0) && A[x, ps[k]] == FromInt(K, 0)
    requires good ==> MulNumbers(c, A[n, s]) == Ok(A[x, s])
    modifies A
    ensures forall i, j | 0 <= i < A.Length0 && 0 <= j < A.Length1 && i != x :: A[i, j] == old(A[i, j])
    ensures good ==> r.Ok? && EntriesIn(A, K) && A[x, s] == FromInt(K, 0)
    ensures good ==> forall k | 0 <= k < |ps| && 0 <= ps[k] < A.Length1 :: A[x, ps[k]] == FromInt(K, 0)
  {
    for y := 0 to A.Length1
      invariant forall i, j | 0 <= i < A.Length0 && 0 <= j < A.Length1 && i != x :: A[i, j] == old(A[i, j])
      invariant forall j | y <= j < A.Length1 :: A[x, j] == old(A[x, j])
      invariant good ==> EntriesIn(A, K)
      invariant good ==> forall k | 0 <= k < |ps| && 0 <= ps[k] < y :: A[x, ps[k]] == FromInt(K, 0)
      invariant good && s < y ==> A[x, s] == FromInt(K, 0)
    {
      var cb := MulNumbers(c, A[n, y]);
      if good {
        ClearStep(K, A[x, y], c, A[n, y]);
      }
      if cb.Err? {
        return Err(cb.error);
      }
      var d := Sub(A[x, y], cb.value);
      if d.Err? {
        return Err(d.error);
      }
      A[x, y] := d.value;
    }
    return Ok(());
  }

  /** A dense matrix: its shape and its rows. */
  datatype Matrix = Matrix(rows: nat, cols: nat, entries: seq<seq<Number>>)

  /** The rows have the stated number and length, as a NumPy array's do. */
  predicate Shaped(M: Matrix) {
    |M.entries| == M.rows && forall i | 0 <= i < M.rows :: |M.entries[i]| == M.cols
  }

  ghost predicate MatrixIn(M: Matrix, K: Field) {
    forall i, j | 0 <= i < |M.entries| && 0 <= j < |M.entries[i]| :: InField(K, M.entries[i][j])
  }

  /** `rank_nullity(A)` of the graded draft: the elimination runs on a copy
      `B = A.copy()`, so A itself is a value that nothing changes. */
  method RankNullity(M: Matrix, ghost K: Field) returns (r: Result<(int, int)>)
    requires Shaped(M)
    ensures r.Ok? ==> r.value.0 + r.value.1 == M.cols && 0 <= r.value.0 <= M.rows
    ensures MatrixIn(M, K) && PrimeField(K) ==> r.Ok? && 0 <= r.value.1
  {
    var B := new Number[M.rows, M.cols]((i, j) requires 0 <= i < M.rows && 0 <= j < M.cols => M.entries[i][j]);
    r := Eliminate(B, K);
  }

  // ----- vs and homo -----

  /** `vs(k, d)`: a field and a dimension. */
  datatype VS = VS(base: Field, dim: int)

  /** `V.otimes(W)`: dimensions multiply; different fields print and give None. */
  function VsOtimes(V: VS, W: VS): (r: Option<VS>)
    ensures r.Some? <==> V.base == W.base
    ensures r.Some? ==> r.value.base == V.base && r.value.dim == V.dim * W.dim
  {
    if V.base == W.base then Some(VS(V.base, V.dim * W.dim)) else None
  }

  /** `V.oplus(W)`: dimensions add; different fields print and give None. */
  function VsOplus(V: VS, W: VS): (r: Option<VS>)
    ensures r.Some? <==> V.base == W.base
    ensures r.Some? ==> r.value.base == V.base && r.value.dim == V.dim + W.dim
  {
    if V.base == W.base then Some(VS(V.base, V.dim + W.dim)) else None
  }

  /** `V / W`: dimension `V.dim - W.dim` when that is not negative, otherwise
      a printed complaint and None; the fields are not compared. */
  function VsQuotient(V: VS, W: VS): (r: Option<VS>)
    ensures r.Some? <==> V.dim >= W.dim
    ensures r.Some? ==> r.value.base == V.base && r.value.dim >= 0 && r.value.dim + W.dim == V.dim
  {
    if V.dim >= W.dim then Some(VS(V.base, V.dim - W.dim)) else None
  }

  /** The quotient undoes the direct sum. */
  lemma QuotientOfSum(V: VS, W: VS)
    requires V.base == W.base && V.dim >= 0
    ensures VsOplus(V, W).Some? && VsQuotient(VsOplus(V, W).value, W) == Some(V)
  {
  }

  /** `homo(V, W, M)`: a map with its matrix, whose contents `ker` and
      `image` row-reduce in place. */
  datatype Homo = Homo(source: VS, target: VS, matrix: array2<Number>)

  /** `F.ker()`: `vs(base, nullity)`, after row-reducing F's own matrix. */
  method Ker(F: Homo, ghost K: Field) returns (r: Result<VS>)
    modifies F.matrix
    ensures r.Ok? ==> r.value.base == F.source.base
    ensures r.Ok? ==> F.matrix.Length1 - F.matrix.Length0 <= r.value.dim <= F.matrix.Length1
    ensures old(EntriesIn(F.matrix, K)) && PrimeField(K) ==> r.Ok? && r.value.dim >= 0
  {
    var rn := Eliminate(F.matrix, K);
    if rn.Err? {
      return Err(rn.error);
    }
    return Ok(VS(F.source.base, rn.value.1));
  }

  /** `F.image()`: `vs(base, rank)`, after row-reducing F's own matrix. */
  method Image(F: Homo, ghost K: Field) returns (r: Result<VS>)
    modifies F.matrix
    ensures r.Ok? ==> r.value.base == F.source.base && 0 <= r.value.dim <= F.matrix.Length0
    ensures old(EntriesIn(F.matrix, K)) && PrimeField(K) ==> r.Ok? && r.value.dim <= F.matrix.Length1
  {
    var rn := Eliminate(F.matrix, K);
    if rn.Err? {
      return Err(rn.error);
    }
    return Ok(VS(F.source.base, rn.value.0));
  }
}
