/** `LinearMap`: a source, a target, a degree and a dict sending a basis key
    of the source to its image vector. Keys missing from the dict are sent
    to zero.
 */
module LinearMaps {
  import opened Wrappers
  import opened Keys
  import opened Fields
  import opened Spaces
  import opened Vectors

  datatype LinearMap = LinearMap(source: VectorSpace, target: VectorSpace, deg: int, maps: map<Key, Vector>)

  /** `F[i]`: the stored image of e_i, or the zero vector of the target. */
  function Column(F: LinearMap, i: Key): Vector {
    if i in F.maps then F.maps[i] else ZeroVector(F.target)
  }

  /** One field throughout, and every stored image a chomped vector of the
      target over that field. */
  ghost predicate WellFormed(F: LinearMap) {
    && F.source.field == F.target.field
    && forall i | i in F.maps :: F.maps[i].space == F.target && ValidVector(F.maps[i]) && NoZeros(F.maps[i].components)
  }

  /** A vector F can be applied to without a type error. */
  ghost predicate Applicable(F: LinearMap, v: Vector) {
    WellFormed(F) && ValidVector(v) && SameSpace(v.space, F.source) && v.space.field == F.source.field
  }

  lemma ColumnFacts(F: LinearMap, i: Key)
    requires WellFormed(F)
    ensures Column(F, i).space == F.target && ValidVector(Column(F, i)) && NoZeros(Column(F, i).components)
  {
  }

  // ----- evaluation -----

  /** The loop of `F(v)` after its first k steps: w += v[i] * F[i] for the
      first k keys. */
  function EvalFold(F: LinearMap, v: Vector, ks: seq<Key>): Result<Vector>
    decreases |ks|
  {
    if ks == [] then Ok(ZeroVector(F.target))
    else
      var w :- EvalFold(F, v, ks[..|ks| - 1]);
      EvalStep(F, v, w, ks[|ks| - 1])
  }

  /** `w + v[k] * F[k]` */
  function EvalStep(F: LinearMap, v: Vector, w: Vector, k: Key): Result<Vector> {
    var s :- Scale(Column(F, k), Num(Vectors.Get(v, k)));
    Vectors.Add(w, s)
  }

  /** `F(v)`: TypeError unless v lies in the source. */
  function EvalSpec(F: LinearMap, v: Vector): Result<Vector> {
    if !SameSpace(v.space, F.source) then Err(TypeError)
    else
      var w :- EvalFold(F, v, SortedKeys(v.components.Keys));
      Ok(Vector(w.space, Chomp(w.components)))
  }

  lemma {:induction false} EvalFoldErr(F: LinearMap, v: Vector, ks: seq<Key>, i: nat)
    requires i <= |ks| && EvalFold(F, v, ks[..i]).Err?
    decreases |ks| - i
    ensures EvalFold(F, v, ks) == EvalFold(F, v, ks[..i])
  {
    if i < |ks| {
      assert ks[..i + 1][..i] == ks[..i];
      assert EvalFold(F, v, ks[..i + 1]) == EvalFold(F, v, ks[..i]);
      EvalFoldErr(F, v, ks, i + 1);
    } else {
      assert ks[..i] == ks;
    }
  }

  lemma EvalFoldStep(F: LinearMap, v: Vector, ks: seq<Key>, i: nat, w: Vector)
    requires i < |ks| && EvalFold(F, v, ks[..i]) == Ok(w)
    ensures EvalFold(F, v, ks[..i + 1]) == EvalStep(F, v, w, ks[i])
  {
    assert ks[..i + 1][..i] == ks[..i];
  }

  /** The result of `F(v)` once the loop has run over every key. */
  lemma EvalSpecFold(F: LinearMap, v: Vector, w: Result<Vector>)
    requires SameSpace(v.space, F.source) && w == EvalFold(F, v, SortedKeys(v.components.Keys))
    ensures EvalSpec(F, v) == if w.Err? then Err(w.error) else Ok(Vector(w.value.space, Chomp(w.value.components)))
  {
  }

  /** `F(v)`, accumulating w over the components of v. */
  method Eval(F: LinearMap, v: Vector) returns (r: Result<Vector>)
    ensures r == EvalSpec(F, v)
  {
    if !SameSpace(v.space, F.source) {
      return Err(TypeError);
    }
    var ks := SortedKeys(v.components.Keys);
    var w := ZeroVector(F.target);
    var i := 0;
    while i < |ks|
      invariant 0 <= i <= |ks|
      invariant EvalFold(F, v, ks[..i]) == Ok(w)
    {
      var next := EvalStep(F, v, w, ks[i]);
      EvalFoldStep(F, v, ks, i, w);
      if next.Err? {
        EvalFoldErr(F, v, ks, i + 1);
        EvalSpecFold(F, v, next);
        return Err(next.error);
      }
      w := next.value;
      i := i + 1;
    }
    assert ks[..|ks|] == ks;
    EvalSpecFold(F, v, Ok(w));
    var c := ChompVector(w);
    return Ok(c);
  }

  /** The j-th coordinate of v[k1] F(e_k1) + ... + v[kn] F(e_kn), summed in
      that order: what linearity says F(v) is. */
  function Combination(F: LinearMap, v: Vector, ks: seq<Key>, j: Key): Result<Number>
    decreases |ks|
  {
    if ks == [] then Ok(FromInt(F.target.field, 0))
    else
      var k := ks[|ks| - 1];
      var c :- Combination(F, v, ks[..|ks| - 1], j);
      var t :- MulNumbers(Vectors.Get(v, k), Vectors.Get(Column(F, k), j));
      Fields.Add(c, t)
  }

  lemma {:induction false} EvalFoldComponents(F: LinearMap, v: Vector, ks: seq<Key>, j: Key)
    requires Applicable(F, v)
    decreases |ks|
    ensures EvalFold(F, v, ks).Ok? && Combination(F, v, ks, j).Ok?
    ensures EvalFold(F, v, ks).value.space == F.target && ValidVector(EvalFold(F, v, ks).value)
    ensures Vectors.Get(EvalFold(F, v, ks).value, j) == Combination(F, v, ks, j).value
  {
    if ks == [] {
      FromIntInField(F.target.field, 0);
    } else {
      var k := ks[|ks| - 1];
      var pre := ks[..|ks| - 1];
      EvalFoldComponents(F, v, pre, j);
      var w := EvalFold(F, v, pre).value;
      EvalStepComponents(F, v, w, k, j);
      assert EvalFold(F, v, ks) == EvalStep(F, v, w, k);
    }
  }

  /** One step of the fold adds v[k] F[k][j] at every key j. */
  lemma EvalStepComponents(F: LinearMap, v: Vector, w: Vector, k: Key, j: Key)
    requires Applicable(F, v) && w.space == F.target && ValidVector(w)
    ensures MulNumbers(Vectors.Get(v, k), Vectors.Get(Column(F, k), j)).Ok?
    ensures Fields.Add(Vectors.Get(w, j), MulNumbers(Vectors.Get(v, k), Vectors.Get(Column(F, k), j)).value).Ok?
    ensures EvalStep(F, v, w, k).Ok? && EvalStep(F, v, w, k).value.space == F.target && ValidVector(EvalStep(F, v, w, k).value)
    ensures Vectors.Get(EvalStep(F, v, w, k).value, j) ==
      Fields.Add(Vectors.Get(w, j), MulNumbers(Vectors.Get(v, k), Vectors.Get(Column(F, k), j)).value).value
  {
    ColumnFacts(F, k);
    GetInField(v, k);
    ScaleComponents(Column(F, k), Num(Vectors.Get(v, k)), j);
    AddComponents(w, Scale(Column(F, k), Num(Vectors.Get(v, k))).value, j);
  }

  /** F(v) has, at every key j, the linear combination of the columns of F
      with the coordinates of v. */
  lemma EvalComponents(F: LinearMap, v: Vector, j: Key)
    requires Applicable(F, v)
    ensures EvalSpec(F, v).Ok?
    ensures EvalSpec(F, v).value.space == F.target && ValidVector(EvalSpec(F, v).value)
    ensures NoZeros(EvalSpec(F, v).value.components)
    ensures Combination(F, v, SortedKeys(v.components.Keys), j).Ok?
    ensures Vectors.Get(EvalSpec(F, v).value, j) == Combination(F, v, SortedKeys(v.components.Keys), j).value
  {
    var ks := SortedKeys(v.components.Keys);
    EvalFoldComponents(F, v, ks, j);
    ChompKeepsValue(EvalFold(F, v, ks).value, j);
  }

  /** F(e_i) == F[i]. */
  lemma EvalBasis(F: LinearMap, i: Key)
    requires WellFormed(F)
    ensures EvalSpec(F, BasisVector(F.source, i)) == Ok(Column(F, i))
  {
    var e := BasisVector(F.source, i);
    var K := F.target.field;
    FromIntInField(K, 1);
    assert SortedKeys(e.components.Keys) == [i];
    EvalComponents(F, e, i);
    var r := EvalSpec(F, e).value;
    ColumnFacts(F, i);
    forall j ensures Vectors.Get(r, j) == Vectors.Get(Column(F, i), j) {
      EvalComponents(F, e, j);
      assert [i][..0] == [];
      GetInField(Column(F, i), j);
      OneMul(Vectors.Get(Column(F, i), j));
      ZeroAdd(Vectors.Get(Column(F, i), j));
    }
    SameComponents(r, Column(F, i));
  }

  /** A map with no stored images sends every vector to zero: the zero map
      `LinearMap(V, W, d)`. */
  lemma ZeroMapEval(F: LinearMap, v: Vector)
    requires Applicable(F, v) && F.maps == map[]
    ensures EvalSpec(F, v) == Ok(ZeroVector(F.target))
  {
    var K := F.target.field;
    EvalComponents(F, v, KInt(0));
    var r := EvalSpec(F, v).value;
    forall j ensures Vectors.Get(r, j) == Vectors.Get(ZeroVector(F.target), j) {
      EvalComponents(F, v, j);
      ZeroCombination(F, v, SortedKeys(v.components.Keys), j);
    }
    SameComponents(r, ZeroVector(F.target));
  }

  lemma {:induction false} ZeroCombination(F: LinearMap, v: Vector, ks: seq<Key>, j: Key)
    requires Applicable(F, v) && F.maps == map[]
    decreases |ks|
    ensures Combination(F, v, ks, j) == Ok(FromInt(F.target.field, 0))
  {
    if ks != [] {
      var k := ks[|ks| - 1];
      ZeroCombination(F, v, ks[..|ks| - 1], j);
      GetInField(v, k);
      MulZero(Vectors.Get(v, k));
      FromIntInField(F.target.field, 0);
      AddZero(FromInt(F.target.field, 0));
    }
  }

  // ----- chomp, sums and equality -----

  /** What `LinearMap.chomp` leaves: the images that are not `== 0`. */
  function MapChomp(m: map<Key, Vector>): (r: map<Key, Vector>)
    ensures forall i :: i in r <==> i in m && !IsZeroVector(m[i])
    ensures forall i | i in r :: r[i] == m[i]
  {
    map i | i in m && !IsZeroVector(m[i]) :: m[i]
  }

  /** `F.chomp()`: collects the zero images, then deletes them one at a time. */
  method ChompMap(F: LinearMap) returns (G: LinearMap)
    ensures G == F.(maps := MapChomp(F.maps))
  {
    var zeros := set x | x in F.maps && IsZeroVector(F.maps[x]);
    var maps := DeleteKeys(F.maps, SortedKeys(zeros));
    return F.(maps := maps);
  }

  /** A chomped dict comprehension of target vectors has the comprehension's
      vector at each of its keys and zero elsewhere. */
  lemma TabulatedColumn(S: VectorSpace, T: VectorSpace, d: int, ks: set<Key>, f: Key -> Result<Vector>, i: Key)
    requires forall k | k in ks :: f(k).Ok? && f(k).value.space == T
    ensures TabulateKeys(ks, f).Ok?
    ensures Column(LinearMap(S, T, d, MapChomp(TabulateKeys(ks, f).value)), i) == if i in ks then f(i).value else ZeroVector(T)
  {
  }

  /** `compat((F, G), 'source', 'target', 'deg')` */
  predicate Compat(F: LinearMap, G: LinearMap) {
    SameSpace(F.source, G.source) && SameSpace(F.target, G.target) && F.deg == G.deg
  }

  /** i |-> F[i] + G[i] */
  function SumColumns(F: LinearMap, G: LinearMap): Key -> Result<Vector> {
    i => Vectors.Add(Column(F, i), Column(G, i))
  }

  /** i |-> F[i] - G[i] */
  function DiffColumns(F: LinearMap, G: LinearMap): Key -> Result<Vector> {
    i => Vectors.Sub(Column(F, i), Column(G, i))
  }

  /** `F + G` */
  function Add(F: LinearMap, G: LinearMap): (r: Result<LinearMap>)
    ensures !Compat(F, G) ==> r == Err(TypeError)
    ensures r.Ok? ==> r.value.source == F.source && r.value.target == F.target && r.value.deg == F.deg
    ensures r.Ok? ==> forall i | i in r.value.maps :: !IsZeroVector(r.value.maps[i])
  {
    if !Compat(F, G) then Err(TypeError) else Pointwise(F, G, F.deg, SumColumns(F, G))
  }

  /** `F - G`, with the degree `F.deg + G.deg` the source gives it. */
  function Sub(F: LinearMap, G: LinearMap): (r: Result<LinearMap>)
    ensures !Compat(F, G) ==> r == Err(TypeError)
    ensures r.Ok? ==> r.value.source == F.source && r.value.target == F.target && r.value.deg == F.deg + G.deg
    ensures r.Ok? ==> forall i | i in r.value.maps :: !IsZeroVector(r.value.maps[i])
  {
    if !Compat(F, G) then Err(TypeError) else Pointwise(F, G, F.deg + G.deg, DiffColumns(F, G))
  }

  /** The map from F's source to F's target of degree deg whose column at
      every key stored in F or G is f of that key, chomped. */
  function Pointwise(F: LinearMap, G: LinearMap, deg: int, f: Key -> Result<Vector>): (r: Result<LinearMap>)
    ensures r.Ok? ==> r.value.source == F.source && r.value.target == F.target && r.value.deg == deg
    ensures r.Ok? ==> forall i | i in r.value.maps :: !IsZeroVector(r.value.maps[i])
  {
    var m :- TabulateKeys(F.maps.Keys + G.maps.Keys, f);
    Ok(LinearMap(F.source, F.target, deg, MapChomp(m)))
  }

  /** The columns of a pointwise map: f at the stored keys, zero elsewhere. */
  lemma PointwiseColumn(F: LinearMap, G: LinearMap, deg: int, f: Key -> Result<Vector>, i: Key)
    requires forall k :: f(k).Ok? && f(k).value.space == F.target
    ensures Pointwise(F, G, deg, f).Ok?
    ensures Column(Pointwise(F, G, deg, f).value, i) ==
      if i in F.maps || i in G.maps then f(i).value else ZeroVector(F.target)
  {
    TabulatedColumn(F.source, F.target, deg, F.maps.Keys + G.maps.Keys, f, i);
  }

  /** `F == G` for two maps: nothing is left of `F - G`. */
  function Eq(F: LinearMap, G: LinearMap): (r: Result<bool>)
    ensures r.Err? <==> Sub(F, G).Err?
  {
    var H :- Sub(F, G);
    Ok(|H.maps| == 0)
  }

  /** `F == 0` */
  predicate IsZeroMap(F: LinearMap) {
    |F.maps| == 0
  }

  /** Two well-formed maps that `compat` accepts, over one field. */
  ghost predicate Summable(F: LinearMap, G: LinearMap) {
    WellFormed(F) && WellFormed(G) && Compat(F, G) && F.target.field == G.target.field
  }

  lemma ColumnsCompatible(F: LinearMap, G: LinearMap, i: Key)
    requires Summable(F, G)
    ensures Compatible(Column(F, i), Column(G, i))
    ensures NoZeros(Column(F, i).components) && NoZeros(Column(G, i).components)
  {
    ColumnFacts(F, i);
    ColumnFacts(G, i);
  }

  lemma SumColumnsOk(F: LinearMap, G: LinearMap)
    requires Summable(F, G)
    ensures forall k :: SumColumns(F, G)(k).Ok? && SumColumns(F, G)(k).value.space == F.target
    ensures forall k :: DiffColumns(F, G)(k).Ok? && DiffColumns(F, G)(k).value.space == F.target
  {
    forall k ensures SumColumns(F, G)(k).Ok? && SumColumns(F, G)(k).value.space == F.target {
      ColumnsCompatible(F, G, k);
      AddComponents(Column(F, k), Column(G, k), k);
    }
    forall k ensures DiffColumns(F, G)(k).Ok? && DiffColumns(F, G)(k).value.space == F.target {
      ColumnsCompatible(F, G, k);
      SubComponents(Column(F, k), Column(G, k), k);
    }
  }

  /** The columns of F + G are the sums of the columns. */
  lemma AddColumns(F: LinearMap, G: LinearMap, i: Key)
    requires Summable(F, G)
    ensures Add(F, G).Ok? && Vectors.Add(Column(F, i), Column(G, i)).Ok?
    ensures Column(Add(F, G).value, i) == Vectors.Add(Column(F, i), Column(G, i)).value
  {
    SumColumnsOk(F, G);
    PointwiseColumn(F, G, F.deg, SumColumns(F, G), i);
    if i !in F.maps && i !in G.maps {
      assert Column(F, i) == ZeroVector(F.target) && Column(G, i) == ZeroVector(G.target);
      AddZeroVectors(F.target, G.target);
    }
  }

  /** F + G is well formed when F and G are summable. */
  lemma AddWellFormed(F: LinearMap, G: LinearMap)
    requires Summable(F, G)
    ensures Add(F, G).Ok? && WellFormed(Add(F, G).value)
  {
    AddColumns(F, G, KInt(0));
    var H := Add(F, G).value;
    forall i | i in H.maps ensures H.maps[i].space == H.target && ValidVector(H.maps[i]) && NoZeros(H.maps[i].components) {
      AddColumns(F, G, i);
      ColumnsCompatible(F, G, i);
      AddComponents(Column(F, i), Column(G, i), i);
      ColumnFacts(F, i);
    }
  }

  /** The columns of F - G are the differences of the columns. */
  lemma SubColumns(F: LinearMap, G: LinearMap, i: Key)
    requires Summable(F, G)
    ensures Sub(F, G).Ok? && Vectors.Sub(Column(F, i), Column(G, i)).Ok?
    ensures Column(Sub(F, G).value, i) == Vectors.Sub(Column(F, i), Column(G, i)).value
  {
    SumColumnsOk(F, G);
    PointwiseColumn(F, G, F.deg + G.deg, DiffColumns(F, G), i);
    if i !in F.maps && i !in G.maps {
      assert Column(F, i) == ZeroVector(F.target) && Column(G, i) == ZeroVector(G.target);
      AddZeroVectors(F.target, G.target);
    }
  }

  /** A column of F - G is zero exactly when the columns of F and G agree. */
  lemma SubColumnZero(F: LinearMap, G: LinearMap, i: Key)
    requires Summable(F, G)
    ensures Sub(F, G).Ok?
    ensures IsZeroVector(Column(Sub(F, G).value, i)) <==> Column(F, i) == Column(G, i)
  {
    SubColumns(F, G, i);
    ColumnsCompatible(F, G, i);
    Vectors.EqMeaning(Column(F, i), Column(G, i));
  }

  /** Two well-formed maps `compat` accepts are `==` exactly when all their
      columns agree. */
  lemma EqMeaning(F: LinearMap, G: LinearMap)
    requires Summable(F, G)
    ensures Eq(F, G) == Ok(forall i :: Column(F, i) == Column(G, i))
  {
    SubColumnZero(F, G, KInt(0));
    var H := Sub(F, G).value;
    EqSub(F, G, H);
    SubZeroIff(F, G, H);
  }

  lemma EqSub(F: LinearMap, G: LinearMap, H: LinearMap)
    requires Sub(F, G) == Ok(H)
    ensures Eq(F, G) == Ok(IsZeroMap(H))
  {
  }

  /** F - G is zero exactly when all the columns of F and G agree. */
  lemma SubZeroIff(F: LinearMap, G: LinearMap, H: LinearMap)
    requires Summable(F, G) && Sub(F, G) == Ok(H)
    ensures IsZeroMap(H) <==> forall i :: Column(F, i) == Column(G, i)
  {
    if IsZeroMap(H) {
      ColumnsAgree(F, G);
    } else {
      ColumnDiffers(F, G);
    }
  }

  /** When nothing is left of F - G, every column of F is that of G. */
  lemma ColumnsAgree(F: LinearMap, G: LinearMap)
    requires Summable(F, G) && Sub(F, G).Ok? && IsZeroMap(Sub(F, G).value)
    ensures forall i :: Column(F, i) == Column(G, i)
  {
    forall i ensures Column(F, i) == Column(G, i) {
      SubColumnZero(F, G, i);
    }
  }

  /** A key left in F - G is one where the columns of F and G differ. */
  lemma ColumnDiffers(F: LinearMap, G: LinearMap)
    requires Summable(F, G) && Sub(F, G).Ok? && !IsZeroMap(Sub(F, G).value)
    ensures exists i :: Column(F, i) != Column(G, i)
  {
    var i :| i in Sub(F, G).value.maps;
    SubColumnZero(F, G, i);
  }

  // ----- verify -----

  /** The check `verify` makes at one key of the dict. */
  predicate KeyVerified(F: LinearMap, i: Key) {
    i in F.source.basis && SameSpace(Column(F, i).space, F.target)
  }

  /** What `F.verify()` checks: the dict is indexed by source keys and its
      values lie in the target. */
  predicate Verified(F: LinearMap) {
    forall i | i in F.maps :: KeyVerified(F, i)
  }

  /** `F.verify()`: True, or TypeError at the first offending key. Which key
      is met first does not change the result, so the keys are taken in any
      order. */
  method Verify(F: LinearMap) returns (r: Result<bool>)
    ensures r == if Verified(F) then Ok(true) else Err(TypeError)
  {
    var rest := F.maps.Keys;
    while rest != {}
      invariant rest <= F.maps.Keys
      invariant forall i | i in F.maps && i !in rest :: KeyVerified(F, i)
      decreases |rest|
    {
      var i :| i in rest;
      if i !in F.source.basis || !SameSpace(F.maps[i].space, F.target) {
        assert !KeyVerified(F, i);
        return Err(TypeError);
      }
      rest := rest - {i};
    }
    return Ok(true);
  }

  // ----- identity, sigma, restriction and composition -----

  /** `V.Id()` */
  function Id(V: VectorSpace): (F: LinearMap)
    ensures F.source == V && F.target == V && F.deg == 0
  {
    LinearMap(V, V, 0, map i | i in V.basis :: BasisVector(V, i))
  }

  /** A field in which 1 is not 0 (every field but the one `FF(1)` makes). */
  predicate NonTrivial(K: Field) {
    K.FiniteField? ==> K.p > 1
  }

  lemma OneNonzero(K: Field)
    requires NonTrivial(K)
    ensures !IsZero(FromInt(K, 1))
  {
    if K.FiniteField? {
      var p := K.p;
      var q: int := p;
      assert FF.Init(p, 1) == 1 by {
        assert 1 == q * 0 + 1;
      }
      assert FF.Init(p, FF.Init(p, 1)) == 1;
      assert FromInt(K, 1) == FFNumber(p, 1);
      assert 0 % q == 0;
    } else {
      Q.OneCoprime(1);
      Q.NormalFormOfNormal((1, 1));
    }
  }

  lemma IdWellFormed(V: VectorSpace)
    requires NonTrivial(V.field)
    ensures WellFormed(Id(V))
  {
    FromIntInField(V.field, 1);
    OneNonzero(V.field);
  }

  /** The identity sends every vector of V with keys in the basis to itself. */
  lemma IdEval(V: VectorSpace, v: Vector)
    requires NonTrivial(V.field)
    requires v.space == V && ValidVector(v) && NoZeros(v.components) && v.components.Keys <= V.basis.Keys
    ensures EvalSpec(Id(V), v) == Ok(v)
  {
    var F := Id(V);
    IdWellFormed(V);
    var ks := SortedKeys(v.components.Keys);
    SortedKeysSorted(v.components.Keys);
    SortedDistinct(ks);
    EvalComponents(F, v, KInt(0));
    var r := EvalSpec(F, v).value;
    forall j ensures Vectors.Get(r, j) == Vectors.Get(v, j) {
      EvalComponents(F, v, j);
      IdCombination(V, v, ks, j);
      if j !in ks {
        assert j !in v.components;
      }
    }
    SameComponents(r, v);
  }

  /** Distinct keys of V's basis, and a vector of V to combine them with. */
  ghost predicate IdArgs(V: VectorSpace, v: Vector, ks: seq<Key>) {
    && v.space == V && ValidVector(v) && (forall k | k in ks :: k in V.basis)
    && (forall a, b :: 0 <= a < |ks| && 0 <= b < |ks| && ks[a] == ks[b] ==> a == b)
  }

  /** Every term but the one at j vanishes in the identity's combination. */
  lemma {:induction false} IdCombination(V: VectorSpace, v: Vector, ks: seq<Key>, j: Key)
    requires IdArgs(V, v, ks)
    decreases |ks|
    ensures Combination(Id(V), v, ks, j) == Ok(if j in ks then Vectors.Get(v, j) else FromInt(V.field, 0))
  {
    if ks != [] {
      var k := ks[|ks| - 1];
      var pre := ks[..|ks| - 1];
      IdArgsPrefix(V, v, ks);
      IdCombination(V, v, pre, j);
      IdTerm(V, v, k, j, j in pre);
    }
  }

  /** Dropping the last key keeps the arguments distinct, and the last key
      is not among the others. */
  lemma IdArgsPrefix(V: VectorSpace, v: Vector, ks: seq<Key>)
    requires IdArgs(V, v, ks) && ks != []
    ensures IdArgs(V, v, ks[..|ks| - 1]) && ks[|ks| - 1] !in ks[..|ks| - 1]
    ensures forall j :: j in ks <==> j in ks[..|ks| - 1] || j == ks[|ks| - 1]
  {
    var pre := ks[..|ks| - 1];
    assert forall a | 0 <= a < |pre| :: pre[a] == ks[a] && pre[a] != ks[|ks| - 1];
    assert ks == pre + [ks[|ks| - 1]];
  }

  /** The term v[k] e_k[j] adds v[k] to the partial sum at j == k and nothing
      at any other key. */
  lemma IdTerm(V: VectorSpace, v: Vector, k: Key, j: Key, seen: bool)
    requires v.space == V && ValidVector(v) && k in V.basis && (k == j ==> !seen)
    ensures MulNumbers(Vectors.Get(v, k), Vectors.Get(Column(Id(V), k), j)).Ok?
    ensures Fields.Add(if seen then Vectors.Get(v, j) else FromInt(V.field, 0),
                       MulNumbers(Vectors.Get(v, k), Vectors.Get(Column(Id(V), k), j)).value) ==
      Ok(if seen || k == j then Vectors.Get(v, j) else FromInt(V.field, 0))
  {
    var vk := Vectors.Get(v, k);
    var c := if seen then Vectors.Get(v, j) else FromInt(V.field, 0);
    GetInField(v, k);
    GetInField(v, j);
    FromIntInField(V.field, 0);
    if k == j {
      MulOne(vk);
      ZeroAdd(vk);
    } else {
      MulZero(vk);
      AddZero(c);
    }
  }

  /** The keys `sigma` negates: those of even degree. */
  function EvenKeys(V: VectorSpace): set<Key> {
    set i | i in V.basis && V.basis[i] % 2 == 0
  }

  /** k |-> -V[k] */
  function NegColumns(V: VectorSpace): Key -> Result<Vector> {
    k => Vectors.Neg(BasisVector(V, k))
  }

  /** `V.sigma()`: the identity with `-V[i]` at every key of even degree. */
  function Sigma(V: VectorSpace): (r: Result<LinearMap>)
    ensures r.Ok? ==> r.value.source == V && r.value.target == V && r.value.deg == 0
  {
    var negs := TabulateKeys(EvenKeys(V), NegColumns(V));
    if negs.Err? then Err(negs.error) else Ok(LinearMap(V, V, 0, Id(V).maps + negs.value))
  }

  /** -e_k has -1 at k. */
  lemma NegBasis(V: VectorSpace, k: Key)
    ensures NegColumns(V)(k) == Ok(Vector(V, map[k := FromInt(V.field, -1)]))
  {
    NegOne(V.field);
    assert SortedKeys({k}) == [k];
  }

  lemma SigmaNegs(V: VectorSpace)
    ensures TabulateKeys(EvenKeys(V), NegColumns(V)).Ok?
    ensures forall k | k in EvenKeys(V) ::
      TabulateKeys(EvenKeys(V), NegColumns(V)).value[k] == Vector(V, map[k := FromInt(V.field, -1)])
  {
    forall k | k in EvenKeys(V) ensures NegColumns(V)(k).Ok? {
      NegBasis(V, k);
    }
    var negs := TabulateKeys(EvenKeys(V), NegColumns(V));
    forall k | k in EvenKeys(V) ensures negs.value[k] == Vector(V, map[k := FromInt(V.field, -1)]) {
      NegBasis(V, k);
    }
  }

  lemma SigmaShape(V: VectorSpace)
    requires TabulateKeys(EvenKeys(V), NegColumns(V)).Ok?
    ensures Sigma(V) == Ok(LinearMap(V, V, 0, Id(V).maps + TabulateKeys(EvenKeys(V), NegColumns(V)).value))
  {
  }

  /** sigma sends b to (-1)^(|b| - 1) b. */
  lemma SigmaColumns(V: VectorSpace, i: Key)
    requires i in V.basis
    ensures Sigma(V).Ok?
    ensures Column(Sigma(V).value, i) ==
      Vector(V, map[i := FromInt(V.field, if V.basis[i] % 2 == 0 then -1 else 1)])
  {
    SigmaNegs(V);
    var negs := TabulateKeys(EvenKeys(V), NegColumns(V)).value;
    SigmaShape(V);
    OverrideColumn(V, negs, i);
    if V.basis[i] % 2 == 0 {
      assert i in EvenKeys(V);
    } else {
      assert i !in EvenKeys(V);
    }
  }

  /** A column of the identity overridden by the columns in negs. */
  lemma OverrideColumn(V: VectorSpace, negs: map<Key, Vector>, i: Key)
    requires i in V.basis
    ensures Column(LinearMap(V, V, 0, Id(V).maps + negs), i) ==
      if i in negs then negs[i] else BasisVector(V, i)
  {
  }

  /** `F.restrict(V)`: TypeError unless V's keys are a strict subset of the
      source keys; the restriction keeps target and degree. */
  function Restrict(F: LinearMap, V: VectorSpace): (r: Result<LinearMap>)
    ensures r.Ok? <==> V.basis.Keys < F.source.basis.Keys
    ensures r.Ok? ==> r.value.source == V && r.value.target == F.target && r.value.deg == F.deg
    ensures r.Ok? ==> forall i | i in V.basis :: Column(r.value, i) == Column(F, i)
  {
    if V.basis.Keys < F.source.basis.Keys then
      Ok(LinearMap(V, F.target, F.deg, map i | i in V.basis :: Column(F, i)))
    else
      Err(TypeError)
  }

  /** Restricting to the whole source fails. */
  lemma RestrictWhole(F: LinearMap)
    ensures Restrict(F, F.source) == Err(TypeError)
  {
  }

  /** i |-> F(G[i]) */
  function Images(F: LinearMap, G: LinearMap): Key -> Result<Vector> {
    i => EvalSpec(F, Column(G, i))
  }

  /** `F.circ(G)`: TypeError unless G's target has F's source basis; the
      degrees add and the columns are F applied to those of G. */
  function Circ(F: LinearMap, G: LinearMap): (r: Result<LinearMap>)
    ensures !SameSpace(G.target, F.source) ==> r == Err(TypeError)
    ensures r.Ok? ==> r.value.source == G.source && r.value.target == F.target && r.value.deg == F.deg + G.deg
  {
    if !SameSpace(G.target, F.source) then Err(TypeError)
    else
      var m := TabulateKeys(G.maps.Keys, Images(F, G));
      if m.Err? then Err(m.error) else Ok(LinearMap(G.source, F.target, F.deg + G.deg, MapChomp(m.value)))
  }

  lemma CircShape(F: LinearMap, G: LinearMap)
    requires SameSpace(G.target, F.source) && TabulateKeys(G.maps.Keys, Images(F, G)).Ok?
    ensures Circ(F, G) == Ok(LinearMap(G.source, F.target, F.deg + G.deg, MapChomp(TabulateKeys(G.maps.Keys, Images(F, G)).value)))
  {
  }

  /** Two maps that compose: G lands in F's source, over one field. */
  ghost predicate Composable(F: LinearMap, G: LinearMap) {
    WellFormed(F) && WellFormed(G) && SameSpace(G.target, F.source) && G.target.field == F.source.field
  }

  lemma ColumnApplicable(F: LinearMap, G: LinearMap, i: Key)
    requires Composable(F, G)
    ensures Applicable(F, Column(G, i))
  {
    ColumnFacts(G, i);
  }

  lemma ImagesOk(F: LinearMap, G: LinearMap)
    requires Composable(F, G)
    ensures forall k :: Images(F, G)(k).Ok? && Images(F, G)(k).value.space == F.target
    ensures forall k :: ValidVector(Images(F, G)(k).value) && NoZeros(Images(F, G)(k).value.components)
  {
    forall k ensures Images(F, G)(k).Ok? && Images(F, G)(k).value.space == F.target && ValidVector(Images(F, G)(k).value) && NoZeros(Images(F, G)(k).value.components) {
      ColumnApplicable(F, G, k);
      EvalComponents(F, Column(G, k), k);
    }
  }

  /** The column of F o G at i is F(G[i]). */
  lemma CircColumns(F: LinearMap, G: LinearMap, i: Key)
    requires Composable(F, G)
    ensures Circ(F, G).Ok? && WellFormed(Circ(F, G).value)
    ensures Column(Circ(F, G).value, i) == EvalSpec(F, Column(G, i)).value
  {
    var ks := G.maps.Keys;
    var f := Images(F, G);
    ImagesOk(F, G);
    CircShape(F, G);
    CircWellFormed(F, G);
    TabulatedColumn(G.source, F.target, F.deg + G.deg, ks, f, i);
    if i !in ks {
      EvalZero(F, G.target);
    }
  }

  /** F(0) == 0 */
  lemma EvalZero(F: LinearMap, V: VectorSpace)
    requires SameSpace(V, F.source)
    ensures EvalSpec(F, ZeroVector(V)) == Ok(ZeroVector(F.target))
  {
    assert SortedKeys(ZeroVector(V).components.Keys) == [];
  }

  lemma CircWellFormed(F: LinearMap, G: LinearMap)
    requires Composable(F, G)
    ensures Circ(F, G).Ok? && WellFormed(Circ(F, G).value)
  {
    ImagesOk(F, G);
    CircShape(F, G);
    var m := TabulateKeys(G.maps.Keys, Images(F, G)).value;
    assert forall k | k in MapChomp(m) :: MapChomp(m)[k] == Images(F, G)(k).value;
  }

  /** (F o G)(e_i) == F(G(e_i)). */
  lemma CircEval(F: LinearMap, G: LinearMap, i: Key)
    requires Composable(F, G)
    ensures Circ(F, G).Ok? && EvalSpec(G, BasisVector(G.source, i)).Ok?
    ensures EvalSpec(Circ(F, G).value, BasisVector(G.source, i)) == EvalSpec(F, EvalSpec(G, BasisVector(G.source, i)).value)
  {
    CircColumns(F, G, i);
    EvalBasis(G, i);
    EvalBasis(Circ(F, G).value, i);
  }

  // ----- rejig -----

  /** hom(M, N)[m] -> hom(M, N[m]): the same images, shifted. */
  function Rejig1Spec(F: LinearMap, m: int): LinearMap {
    LinearMap(F.source, Spaces.Shift(F.target, m), F.deg - m, map i | i in F.maps :: Vectors.Shift(F.maps[i], m))
  }

  /** `F.rejig_1(m)`: fills the new dict one stored key at a time. */
  method Rejig1(F: LinearMap, m: int) returns (R: LinearMap)
    ensures R == Rejig1Spec(F, m)
  {
    var maps := MapValues(F.maps, v => Vectors.Shift(v, m));
    R := LinearMap(F.source, Spaces.Shift(F.target, m), F.deg - m, maps);
  }

  /** rejig_1 keeps a map well formed. */
  lemma Rejig1WellFormed(F: LinearMap, m: int)
    requires WellFormed(F)
    ensures WellFormed(Rejig1Spec(F, m))
    ensures forall i :: Column(Rejig1Spec(F, m), i) == Vectors.Shift(Column(F, i), m)
  {
  }

  /** Two maps into targets over one field whose columns have the same
      components give the same combinations. */
  lemma {:induction false} CombinationCongruent(F: LinearMap, G: LinearMap, v: Vector, ks: seq<Key>, j: Key)
    requires F.target.field == G.target.field
    requires forall k :: Vectors.Get(Column(F, k), j) == Vectors.Get(Column(G, k), j)
    decreases |ks|
    ensures Combination(F, v, ks, j) == Combination(G, v, ks, j)
  {
    if ks != [] {
      CombinationCongruent(F, G, v, ks[..|ks| - 1], j);
    }
  }

  /** F.rejig_1(m)(v) is F(v) shifted. */
  lemma Rejig1Eval(F: LinearMap, m: int, v: Vector)
    requires Applicable(F, v)
    ensures EvalSpec(F, v).Ok?
    ensures EvalSpec(Rejig1Spec(F, m), v) == Ok(Vectors.Shift(EvalSpec(F, v).value, m))
  {
    var R := Rejig1Spec(F, m);
    Rejig1WellFormed(F, m);
    EvalComponents(F, v, KInt(0));
    EvalComponents(R, v, KInt(0));
    var w := Vectors.Shift(EvalSpec(F, v).value, m);
    var r := EvalSpec(R, v).value;
    var ks := SortedKeys(v.components.Keys);
    forall j ensures Vectors.Get(r, j) == Vectors.Get(w, j) {
      EvalComponents(F, v, j);
      EvalComponents(R, v, j);
      CombinationCongruent(R, F, v, ks, j);
    }
    SameComponents(r, w);
  }

  /** rejig_1(-m) undoes rejig_1(m). */
  lemma Rejig1Inverse(F: LinearMap, m: int)
    ensures Rejig1Spec(Rejig1Spec(F, m), -m) == F
  {
    ShiftCompose(F.target, m, -m);
    ShiftZero(F.target);
    forall i | i in F.maps ensures Vectors.Shift(Vectors.Shift(F.maps[i], m), -m) == F.maps[i] {
      ShiftCompose(F.maps[i].space, m, -m);
      ShiftZero(F.maps[i].space);
    }
  }

  /** i |-> F[i].shift(m) * K(-1) */
  function NegShifted(F: LinearMap, m: int): Key -> Result<Vector> {
    i => Scale(Vectors.Shift(Column(F, i), m), Num(FromInt(F.source.field, -1)))
  }

  /** `F.rejig_2(m)`: both spaces shifted by m and the degree kept; every
      stored image is shifted, and multiplied by K(-1) when m is even,
      whatever the degree. */
  function Rejig2(F: LinearMap, m: int): (r: Result<LinearMap>)
    ensures r.Ok? ==> r.value.source == Spaces.Shift(F.source, m) && r.value.target == Spaces.Shift(F.target, m)
    ensures r.Ok? ==> r.value.deg == F.deg
    ensures m % 2 != 0 ==> r.Ok?
  {
    var S, T := Spaces.Shift(F.source, m), Spaces.Shift(F.target, m);
    if m % 2 == 0 then
      var c := TabulateKeys(F.maps.Keys, NegShifted(F, m));
      if c.Err? then Err(c.error) else Ok(LinearMap(S, T, F.deg, c.value))
    else
      Ok(ShiftedMap(F, m))
  }

  /** rejig_2 for odd m: both spaces and every stored image shifted by m. */
  function ShiftedMap(F: LinearMap, m: int): (G: LinearMap)
    ensures G.source == Spaces.Shift(F.source, m) && G.target == Spaces.Shift(F.target, m) && G.deg == F.deg
    ensures G.maps.Keys == F.maps.Keys && forall i | i in F.maps :: G.maps[i] == Vectors.Shift(F.maps[i], m)
  {
    LinearMap(Spaces.Shift(F.source, m), Spaces.Shift(F.target, m), F.deg, map i | i in F.maps :: Vectors.Shift(F.maps[i], m))
  }

  /** The sign rejig_2 applies: -1 for even m, 1 for odd m. */
  function Rejig2Sign(K: Field, m: int, x: Number): Number
    requires Fields.InField(K, x)
  {
    if m % 2 == 0 then Fields.Neg(x).value else x
  }

  /** A negated shifted column is a chomped vector of the shifted target. */
  lemma NegShiftedShape(F: LinearMap, m: int, k: Key)
    requires WellFormed(F)
    ensures NegShifted(F, m)(k).Ok?
    ensures NegShifted(F, m)(k).value.space == Spaces.Shift(F.target, m)
    ensures ValidVector(NegShifted(F, m)(k).value) && NoZeros(NegShifted(F, m)(k).value.components)
  {
    NegShiftedAt(F, m, k, k);
  }

  /** A negated shifted column: -1 times each component. */
  lemma NegShiftedAt(F: LinearMap, m: int, k: Key, j: Key)
    requires WellFormed(F)
    ensures NegShifted(F, m)(k).Ok?
    ensures NegShifted(F, m)(k).value.space == Spaces.Shift(F.target, m)
    ensures ValidVector(NegShifted(F, m)(k).value) && NoZeros(NegShifted(F, m)(k).value.components)
    ensures Vectors.Get(NegShifted(F, m)(k).value, j) == Fields.Neg(Vectors.Get(Column(F, k), j)).value
  {
    var K := F.source.field;
    ColumnFacts(F, k);
    var v := Vectors.Shift(Column(F, k), m);
    FromIntInField(K, -1);
    ScaleComponents(v, Num(FromInt(K, -1)), j);
    GetInField(v, j);
    MinusOneMul(Vectors.Get(v, j));
  }

  /** For even m, rejig_2 stores the negated shifted columns of F. */
  lemma Rejig2Even(F: LinearMap, m: int)
    requires WellFormed(F) && m % 2 == 0
    ensures Rejig2(F, m).Ok? && WellFormed(Rejig2(F, m).value)
    ensures Rejig2(F, m).value.maps.Keys == F.maps.Keys
    ensures forall k | k in F.maps :: NegShifted(F, m)(k).Ok? && Rejig2(F, m).value.maps[k] == NegShifted(F, m)(k).value
  {
    var f := NegShifted(F, m);
    forall k ensures f(k).Ok? && f(k).value.space == Spaces.Shift(F.target, m)
      && ValidVector(f(k).value) && NoZeros(f(k).value.components) {
      NegShiftedShape(F, m, k);
    }
  }

  /** For odd m, rejig_2 shifts the spaces and the stored images and
      changes no sign. */
  lemma Rejig2Odd(F: LinearMap, m: int)
    requires m % 2 != 0
    ensures Rejig2(F, m) == Ok(ShiftedMap(F, m))
    ensures WellFormed(F) ==> WellFormed(ShiftedMap(F, m))
  {
  }

  /** rejig_2 keeps a map well formed. */
  lemma Rejig2WellFormed(F: LinearMap, m: int)
    requires WellFormed(F)
    ensures Rejig2(F, m).Ok? && WellFormed(Rejig2(F, m).value)
  {
    if m % 2 == 0 {
      Rejig2Even(F, m);
    } else {
      Rejig2Odd(F, m);
    }
  }

  /** rejig_2 keeps a map well formed and multiplies every entry by the
      sign of m. */
  lemma Rejig2Columns(F: LinearMap, m: int, i: Key, j: Key)
    requires WellFormed(F)
    ensures Rejig2(F, m).Ok? && WellFormed(Rejig2(F, m).value)
    ensures Fields.InField(F.target.field, Vectors.Get(Column(F, i), j))
    ensures Vectors.Get(Column(Rejig2(F, m).value, i), j) ==
      Rejig2Sign(F.target.field, m, Vectors.Get(Column(F, i), j))
  {
    ColumnFacts(F, i);
    GetInField(Column(F, i), j);
    if m % 2 == 0 {
      Rejig2Even(F, m);
      NegShiftedAt(F, m, i, j);
      if i !in F.maps {
        NegZero(F.target.field);
      }
    } else {
      Rejig2Odd(F, m);
    }
  }

  /** `F.rejig_3(m)`: hom(M, N) -> hom(M[m], N)[m], as rejig_1(-m) after
      rejig_2(m). */
  function Rejig3(F: LinearMap, m: int): Result<LinearMap> {
    var G :- Rejig2(F, m);
    Ok(Rejig1Spec(G, -m))
  }

  /** rejig_3(m) has source M[m], target N, degree d + m and the entries of
      rejig_2(m). */
  lemma Rejig3Columns(F: LinearMap, m: int, i: Key, j: Key)
    requires WellFormed(F)
    ensures Rejig3(F, m).Ok? && WellFormed(Rejig3(F, m).value)
    ensures Rejig3(F, m).value.source == Spaces.Shift(F.source, m)
    ensures Rejig3(F, m).value.target == F.target && Rejig3(F, m).value.deg == F.deg + m
    ensures Fields.InField(F.target.field, Vectors.Get(Column(F, i), j))
    ensures Vectors.Get(Column(Rejig3(F, m).value, i), j) ==
      Rejig2Sign(F.target.field, m, Vectors.Get(Column(F, i), j))
  {
    Rejig3Shape(F, m);
    Rejig2Columns(F, m, i, j);
    Rejig3Entry(F, m, i, j);
  }

  /** rejig_3(m) is rejig_2(m) with its target shifted back. */
  lemma Rejig3Shape(F: LinearMap, m: int)
    requires WellFormed(F)
    ensures Rejig3(F, m).Ok? && WellFormed(Rejig3(F, m).value)
    ensures Rejig3(F, m).value.source == Spaces.Shift(F.source, m)
    ensures Rejig3(F, m).value.target == F.target && Rejig3(F, m).value.deg == F.deg + m
  {
    Rejig2WellFormed(F, m);
    ShiftBack(F, Rejig2(F, m).value, m);
  }

  /** Shifting back the target of a map whose spaces F's were shifted by m. */
  lemma ShiftBack(F: LinearMap, G: LinearMap, m: int)
    requires WellFormed(G) && G.source == Spaces.Shift(F.source, m) && G.target == Spaces.Shift(F.target, m) && G.deg == F.deg
    ensures WellFormed(Rejig1Spec(G, -m)) && Rejig1Spec(G, -m).source == Spaces.Shift(F.source, m)
    ensures Rejig1Spec(G, -m).target == F.target && Rejig1Spec(G, -m).deg == F.deg + m
  {
    Rejig1WellFormed(G, -m);
    ShiftCompose(F.target, m, -m);
    ShiftZero(F.target);
  }

  /** Shifting the target back keeps every entry of rejig_2(m). */
  lemma Rejig3Entry(F: LinearMap, m: int, i: Key, j: Key)
    requires WellFormed(F) && Rejig2(F, m).Ok? && WellFormed(Rejig2(F, m).value)
    ensures Rejig3(F, m).Ok?
    ensures Vectors.Get(Column(Rejig3(F, m).value, i), j) == Vectors.Get(Column(Rejig2(F, m).value, i), j)
  {
    Rejig1WellFormed(Rejig2(F, m).value, -m);
  }

  // ----- tensor product and block matrices -----

  function SourcesOf(fs: seq<LinearMap>): (spaces: seq<VectorSpace>)
    ensures |spaces| == |fs| && forall n | 0 <= n < |fs| :: spaces[n] == fs[n].source
  {
    seq(|fs|, n requires 0 <= n < |fs| => fs[n].source)
  }

  function TargetsOf(fs: seq<LinearMap>): (spaces: seq<VectorSpace>)
    ensures |spaces| == |fs| && forall n | 0 <= n < |fs| :: spaces[n] == fs[n].target
  {
    seq(|fs|, n requires 0 <= n < |fs| => fs[n].target)
  }

  /** `sum(f.deg for f in fs)` */
  function DegSum(fs: seq<LinearMap>): int
    decreases |fs|
  {
    if fs == [] then 0 else DegSum(fs[..|fs| - 1]) + fs[|fs| - 1].deg
  }

  function StoredKeySets(fs: seq<LinearMap>): (sets: seq<set<Key>>)
    ensures |sets| == |fs| && forall n | 0 <= n < |fs| :: sets[n] == fs[n].maps.Keys
  {
    seq(|fs|, n requires 0 <= n < |fs| => fs[n].maps.Keys)
  }

  /** `new_maps`: the tuples of stored keys, one from each map. */
  function TensorKeys(fs: seq<LinearMap>): set<Key> {
    set t | t in Tuples(StoredKeySets(fs)) :: KTup(t)
  }

  /** `vec_tup`: the images of a tuple's keys, one under each map. */
  function ColumnsAt(fs: seq<LinearMap>, t: seq<Key>): (vs: seq<Vector>)
    ensures |vs| == |fs|
  {
    seq(|fs|, n requires 0 <= n < |fs| => if n < |t| then Column(fs[n], t[n]) else ZeroVector(fs[n].target))
  }

  function TensorColumn(fs: seq<LinearMap>): Key -> Result<Vector> {
    k => Vectors.Tensor(ColumnsAt(fs, ElemsOf(k)))
  }

  /** `LinearMap.tensor(*fs)`: IndexError for no map, the map itself for
      one; otherwise the tensor spaces and the sum of the degrees, with the
      tensor product of the images at every tuple of stored keys, chomped. */
  function Tensor(fs: seq<LinearMap>): (r: Result<LinearMap>)
    ensures |fs| == 0 ==> r == Err(IndexError)
    ensures |fs| == 1 ==> r == Ok(fs[0])
    ensures |fs| > 1 && r.Ok? ==> Spaces.Tensor(SourcesOf(fs)) == Ok(r.value.source)
    ensures |fs| > 1 && r.Ok? ==> Spaces.Tensor(TargetsOf(fs)) == Ok(r.value.target) && r.value.deg == DegSum(fs)
  {
    if |fs| == 0 then Err(IndexError)
    else if |fs| == 1 then Ok(fs[0])
    else TensorOfMany(fs)
  }

  /** The branch of `LinearMap.tensor` for two or more maps. */
  function TensorOfMany(fs: seq<LinearMap>): (r: Result<LinearMap>)
    ensures r.Ok? ==> Spaces.Tensor(SourcesOf(fs)) == Ok(r.value.source)
    ensures r.Ok? ==> Spaces.Tensor(TargetsOf(fs)) == Ok(r.value.target) && r.value.deg == DegSum(fs)
  {
    var S, T := Spaces.Tensor(SourcesOf(fs)), Spaces.Tensor(TargetsOf(fs));
    var c := TabulateKeys(TensorKeys(fs), TensorColumn(fs));
    if S.Err? then Err(S.error)
    else if T.Err? then Err(T.error)
    else if c.Err? then Err(c.error)
    else Ok(LinearMap(S.value, T.value, DegSum(fs), MapChomp(c.value)))
  }

  /** All maps well formed over the field K. */
  ghost predicate AllMapsOver(K: Field, fs: seq<LinearMap>) {
    forall n | 0 <= n < |fs| :: WellFormed(fs[n]) && fs[n].source.field == K
  }

  /** Every column of the tensor product over a tuple is a vector of the
      target tensor space. */
  lemma TensorColumnOk(K: Field, fs: seq<LinearMap>, k: Key)
    requires |fs| > 1 && AllMapsOver(K, fs)
    ensures Spaces.Tensor(TargetsOf(fs)).Ok?
    ensures TensorColumn(fs)(k).Ok? && TensorColumn(fs)(k).value.space == Spaces.Tensor(TargetsOf(fs)).value
  {
    var vs := ColumnsAt(fs, ElemsOf(k));
    forall n | 0 <= n < |fs| ensures vs[n].space == fs[n].target && ValidVector(vs[n]) && vs[n].space.field == K {
      if n < |ElemsOf(k)| {
        ColumnFacts(fs[n], ElemsOf(k)[n]);
      }
    }
    assert SpacesOf(vs) == TargetsOf(fs);
    TensorComponents(K, vs, k);
  }

  /** The tensor map's dict when nothing fails. */
  lemma TensorShape(fs: seq<LinearMap>, c: map<Key, Vector>)
    requires Spaces.Tensor(SourcesOf(fs)).Ok? && Spaces.Tensor(TargetsOf(fs)).Ok?
    requires TabulateKeys(TensorKeys(fs), TensorColumn(fs)) == Ok(c)
    ensures TensorOfMany(fs) == Ok(LinearMap(Spaces.Tensor(SourcesOf(fs)).value, Spaces.Tensor(TargetsOf(fs)).value, DegSum(fs), MapChomp(c)))
  {
  }

  /** The tensor of two maps sends e_i (x) e_j to F(e_i) (x) G(e_j). */
  lemma TensorColumns(F: LinearMap, G: LinearMap, i: Key, j: Key)
    requires WellFormed(F) && WellFormed(G) && F.source.field == G.source.field
    ensures Tensor([F, G]).Ok? && Vectors.Tensor([Column(F, i), Column(G, j)]).Ok?
    ensures Column(Tensor([F, G]).value, KTup([i, j])) == Vectors.Tensor([Column(F, i), Column(G, j)]).value
  {
    var K := F.source.field;
    var fs := [F, G];
    assert AllMapsOver(K, fs);
    forall k ensures TensorColumn(fs)(k).Ok? && TensorColumn(fs)(k).value.space == Spaces.Tensor(TargetsOf(fs)).value {
      TensorColumnOk(K, fs, k);
    }
    assert Spaces.Tensor(SourcesOf(fs)).Ok?;
    var T := Spaces.Tensor(TargetsOf(fs)).value;
    var ks := TensorKeys(fs);
    TabulatedColumn(Spaces.Tensor(SourcesOf(fs)).value, T, DegSum(fs), ks, TensorColumn(fs), KTup([i, j]));
    TensorShape(fs, TabulateKeys(ks, TensorColumn(fs)).value);
    TensorPairColumn(F, G, i, j);
  }

  /** At a pair key, the tabulated column is the tensor of the two columns,
      and it is the zero vector when either key is not stored. */
  lemma TensorPairColumn(F: LinearMap, G: LinearMap, i: Key, j: Key)
    requires WellFormed(F) && WellFormed(G) && F.source.field == G.source.field
    ensures Spaces.Tensor(TargetsOf([F, G])).Ok?
    ensures TensorColumn([F, G])(KTup([i, j])) == Vectors.Tensor([Column(F, i), Column(G, j)])
    ensures Vectors.Tensor([Column(F, i), Column(G, j)]).Ok?
    ensures Vectors.Tensor([Column(F, i), Column(G, j)]).value.space == Spaces.Tensor(TargetsOf([F, G])).value
    ensures KTup([i, j]) !in TensorKeys([F, G]) ==>
      Vectors.Tensor([Column(F, i), Column(G, j)]).value == ZeroVector(Spaces.Tensor(TargetsOf([F, G])).value)
  {
    var K := F.source.field;
    var fs := [F, G];
    assert AllMapsOver(K, fs);
    assert ColumnsAt(fs, [i, j]) == [Column(F, i), Column(G, j)];
    TensorColumnOk(K, fs, KTup([i, j]));
    if KTup([i, j]) !in TensorKeys(fs) {
      TensorPairOutside(F, G, i, j);
    }
  }

  /** At a pair key not stored in the tensor map one of the two columns is
      zero, and so is their tensor product. */
  lemma TensorPairOutside(F: LinearMap, G: LinearMap, i: Key, j: Key)
    requires WellFormed(F) && WellFormed(G) && F.source.field == G.source.field
    requires KTup([i, j]) !in TensorKeys([F, G])
    ensures Vectors.Tensor([Column(F, i), Column(G, j)]).Ok? ==>
      Vectors.Tensor([Column(F, i), Column(G, j)]).value.components == map[]
  {
    var fs := [F, G];
    TuplesChar(StoredKeySets(fs), [i, j]);
    assert [i, j] !in Tuples(StoredKeySets(fs));
    ColumnFacts(F, i);
    ColumnFacts(G, j);
    TensorOfZero(Column(F, i), Column(G, j));
  }

  /** A tensor of two vectors one of which is zero has no components. */
  lemma TensorOfZero(v: Vector, w: Vector)
    requires v.components == map[] || w.components == map[]
    requires v.space.field == w.space.field
    ensures Vectors.Tensor([v, w]).Ok? ==> Vectors.Tensor([v, w]).value.components == map[]
  {
    var vs := [v, w];
    forall t ensures t !in Tuples(ComponentSets(vs)) {
      TuplesChar(ComponentSets(vs), t);
    }
    assert TensorComponentKeys(vs) == {};
  }

  /** The entries of F (x) G are the products of the entries of F and G. */
  lemma TensorEntries(F: LinearMap, G: LinearMap, i: Key, j: Key, k: Key, l: Key)
    requires WellFormed(F) && WellFormed(G) && F.source.field == G.source.field
    ensures Tensor([F, G]).Ok?
    ensures MulNumbers(Vectors.Get(Column(F, i), k), Vectors.Get(Column(G, j), l)).Ok?
    ensures Vectors.Get(Column(Tensor([F, G]).value, KTup([i, j])), KTup([k, l])) ==
      MulNumbers(Vectors.Get(Column(F, i), k), Vectors.Get(Column(G, j), l)).value
  {
    TensorColumns(F, G, i, j);
    ColumnFacts(F, i);
    ColumnFacts(G, j);
    OtimesComponents(Column(F, i), Column(G, j), k, l);
    GetInField(Column(F, i), k);
    GetInField(Column(G, j), l);
  }

  /** i |-> F[i] (+) G[i] */
  function Stacked(F: LinearMap, G: LinearMap): Key -> Result<Vector> {
    i => Vectors.Oplus(Column(F, i), Column(G, i))
  }

  /** `LinearMap.block(A, B, C, D)`: a map from A.source (+) D.source to
      A.target (+) D.target of degree A.deg, sending ('a', i) to A[i] (+) C[i]
      for every i stored in A or C and ('b', j) to B[j] (+) D[j] for every j
      stored in B or D. Nothing is checked and nothing is chomped. */
  function Block(A: LinearMap, B: LinearMap, C: LinearMap, D: LinearMap): (r: Result<LinearMap>)
    ensures r.Ok? ==> Spaces.Oplus(A.source, D.source) == Ok(r.value.source)
    ensures r.Ok? ==> Spaces.Oplus(A.target, D.target) == Ok(r.value.target) && r.value.deg == A.deg
  {
    Assembled(Spaces.Oplus(A.source, D.source), Spaces.Oplus(A.target, D.target), A.deg,
      TabulateKeys(A.maps.Keys + C.maps.Keys, Stacked(A, C)), TabulateKeys(B.maps.Keys + D.maps.Keys, Stacked(B, D)))
  }

  /** The first error among the two spaces and the two halves, or the map
      with the tagged union of the halves. */
  function Assembled(S: Result<VectorSpace>, T: Result<VectorSpace>, deg: int,
                     first: Result<map<Key, Vector>>, second: Result<map<Key, Vector>>): (r: Result<LinearMap>)
    ensures r.Ok? <==> S.Ok? && T.Ok? && first.Ok? && second.Ok?
    ensures r.Ok? ==> r.value == LinearMap(S.value, T.value, deg, TagUnion(first.value, second.value))
  {
    if S.Err? then Err(S.error)
    else if T.Err? then Err(T.error)
    else if first.Err? then Err(first.error)
    else if second.Err? then Err(second.error)
    else Ok(LinearMap(S.value, T.value, deg, TagUnion(first.value, second.value)))
  }

  /** Four well-formed maps over K. */
  ghost predicate BlockOver(K: Field, A: LinearMap, B: LinearMap, C: LinearMap, D: LinearMap) {
    && WellFormed(A) && WellFormed(B) && WellFormed(C) && WellFormed(D)
    && A.source.field == K && B.source.field == K && C.source.field == K && D.source.field == K
  }

  /** The block map's dict when nothing fails. */
  lemma BlockShape(A: LinearMap, B: LinearMap, C: LinearMap, D: LinearMap,
                   first: map<Key, Vector>, second: map<Key, Vector>)
    requires A.source.field == D.source.field && A.target.field == D.target.field
    requires TabulateKeys(A.maps.Keys + C.maps.Keys, Stacked(A, C)) == Ok(first)
    requires TabulateKeys(B.maps.Keys + D.maps.Keys, Stacked(B, D)) == Ok(second)
    ensures Block(A, B, C, D).Ok? && Block(A, B, C, D).value.maps == TagUnion(first, second)
  {
    assert Spaces.Oplus(A.source, D.source).Ok? && Spaces.Oplus(A.target, D.target).Ok?;
  }

  lemma BlockOk(K: Field, A: LinearMap, B: LinearMap, C: LinearMap, D: LinearMap)
    requires BlockOver(K, A, B, C, D)
    ensures TabulateKeys(A.maps.Keys + C.maps.Keys, Stacked(A, C)).Ok?
    ensures TabulateKeys(B.maps.Keys + D.maps.Keys, Stacked(B, D)).Ok?
    ensures Block(A, B, C, D).Ok?
    ensures Block(A, B, C, D).value.maps ==
      TagUnion(TabulateKeys(A.maps.Keys + C.maps.Keys, Stacked(A, C)).value,
               TabulateKeys(B.maps.Keys + D.maps.Keys, Stacked(B, D)).value)
  {
    forall i ensures Stacked(A, C)(i).Ok? && Stacked(B, D)(i).Ok? {
      ColumnFacts(A, i);
      ColumnFacts(B, i);
      ColumnFacts(C, i);
      ColumnFacts(D, i);
    }
    BlockShape(A, B, C, D, TabulateKeys(A.maps.Keys + C.maps.Keys, Stacked(A, C)).value,
      TabulateKeys(B.maps.Keys + D.maps.Keys, Stacked(B, D)).value);
  }

  /** Column ('a', i) of the block map holds A[i] on the first summand and
      C[i] on the second. */
  lemma BlockFirst(K: Field, A: LinearMap, B: LinearMap, C: LinearMap, D: LinearMap, i: Key, k: Key)
    requires BlockOver(K, A, B, C, D)
    ensures Block(A, B, C, D).Ok?
    ensures Vectors.Get(Column(Block(A, B, C, D).value, TagA(i)), TagA(k)) == Vectors.Get(Column(A, i), k)
    ensures Vectors.Get(Column(Block(A, B, C, D).value, TagA(i)), TagB(k)) == Vectors.Get(Column(C, i), k)
  {
    BlockOk(K, A, B, C, D);
    var first := TabulateKeys(A.maps.Keys + C.maps.Keys, Stacked(A, C)).value;
    var second := TabulateKeys(B.maps.Keys + D.maps.Keys, Stacked(B, D)).value;
    TagUnionAt(first, second, i);
    ColumnFacts(A, i);
    ColumnFacts(C, i);
    OplusComponents(Column(A, i), Column(C, i), k);
  }

  /** Column ('b', j) of the block map holds B[j] on the first summand and
      D[j] on the second. */
  lemma BlockSecond(K: Field, A: LinearMap, B: LinearMap, C: LinearMap, D: LinearMap, j: Key, k: Key)
    requires BlockOver(K, A, B, C, D)
    ensures Block(A, B, C, D).Ok?
    ensures Vectors.Get(Column(Block(A, B, C, D).value, TagB(j)), TagA(k)) == Vectors.Get(Column(B, j), k)
    ensures Vectors.Get(Column(Block(A, B, C, D).value, TagB(j)), TagB(k)) == Vectors.Get(Column(D, j), k)
  {
    BlockOk(K, A, B, C, D);
    var first := TabulateKeys(A.maps.Keys + C.maps.Keys, Stacked(A, C)).value;
    var second := TabulateKeys(B.maps.Keys + D.maps.Keys, Stacked(B, D)).value;
    TagUnionAt(first, second, j);
    ColumnFacts(B, j);
    ColumnFacts(D, j);
    OplusComponents(Column(B, j), Column(D, j), k);
  }

  // ----- flatten and unflatten -----

  function FlattenSpec(F: LinearMap, k: nat): Result<LinearMap> {
    var S :- Spaces.FlattenSpec(F.source, k);
    var m :- Rekey(F.maps, x => FlattenKey(x, k));
    Ok(LinearMap(S, F.target, F.deg, m))
  }

  function UnflattenSpec(F: LinearMap, m: nat, n: nat): Result<LinearMap> {
    var S :- Spaces.UnflattenSpec(F.source, m, n);
    var c :- Rekey(F.maps, x => UnflattenKey(x, m, n));
    Ok(LinearMap(S, F.target, F.deg, c))
  }

  /** `F.flatten(k)`: the source flattened, the dict re-keyed in a loop. */
  method Flatten(F: LinearMap, k: nat) returns (r: Result<LinearMap>)
    ensures r == FlattenSpec(F, k)
  {
    var S := Spaces.Flatten(F.source, k);
    if S.Err? {
      return Err(S.error);
    }
    var m := RekeyLoop(F.maps, x => FlattenKey(x, k));
    if m.Err? {
      return Err(m.error);
    }
    return Ok(LinearMap(S.value, F.target, F.deg, m.value));
  }

  /** `F.unflatten(m, n)` */
  method Unflatten(F: LinearMap, m: nat, n: nat) returns (r: Result<LinearMap>)
    ensures r == UnflattenSpec(F, m, n)
  {
    var S := Spaces.Unflatten(F.source, m, n);
    if S.Err? {
      return Err(S.error);
    }
    var c := RekeyLoop(F.maps, x => UnflattenKey(x, m, n));
    if c.Err? {
      return Err(c.error);
    }
    return Ok(LinearMap(S.value, F.target, F.deg, c.value));
  }

  /** `F.unflatten(m, n).flatten(m)` gives back F. */
  lemma MapRoundTrip(F: LinearMap, m: nat, n: nat)
    requires forall x | x in F.source.basis :: Regroupable(x, m, n)
    requires forall x | x in F.maps :: Regroupable(x, m, n)
    ensures UnflattenSpec(F, m, n).Ok?
    ensures FlattenSpec(UnflattenSpec(F, m, n).value, m) == Ok(F)
  {
    SpaceRoundTrip(F.source, m, n);
    var f := x => UnflattenKey(x, m, n);
    var g := x => FlattenKey(x, m);
    forall x | x in F.maps ensures f(x).Ok? && g(f(x).value) == Ok(x) {
      KeyRoundTrip(x, m, n);
    }
    RekeyRoundTrip(F.maps, f, g);
  }
}
