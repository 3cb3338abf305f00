/** A∞-modules over an A∞-category and pre-module maps between them
    (`A8Module` and `A8ModuleMap` of `a_infinity.py`): lookups with zero
    defaults, the cochain complexes M(X), their total cohomology and width,
    shifts, direct sums, cones and the tensor product with a cochain
    complex.
 */
module A8Modules {
  import opened Wrappers
  import opened Keys
  import opened Fields
  import opened Spaces
  import opened Vectors
  import opened LinearMaps
  import opened AInfinity

  /** The default m = 1 of `shift`, `rejig_2` and `rejig_3`. */
  const DefaultShift: int := 1

  datatype A8ModuleMap = A8ModuleMap(source: A8Module, target: A8Module, deg: int, components: map<Word, LinearMap>)

  // ----- lookups -----

  /** `M[X]`: the stored space, or an empty space over the category's field. */
  function ModGet(M: A8Module, X: Key): (V: VectorSpace)
    ensures X in M.modules ==> V == M.modules[X]
    ensures X !in M.modules ==> V == EmptySpace(M.cat.field) && Dim(V) == 0
  {
    if X in M.modules then M.modules[X] else EmptySpace(M.cat.field)
  }

  /** `{w: f(w) for w in ws}` over a set of words, taken in order. */
  function TabulateWords<V>(ws: set<Word>, f: Word -> Result<V>): (r: Result<map<Word, V>>)
    ensures r.Ok? <==> forall w | w in ws :: f(w).Ok?
    ensures r.Ok? ==> r.value.Keys == ws && forall w | w in ws :: f(w) == Ok(r.value[w])
  {
    var l := WordList(ws);
    assert forall w :: w in ws <==> w in l by {
      forall w ensures w in ws <==> w in l {
        assert w in ws <==> w in (set w | w in l);
      }
    }
    Tabulate(l, f)
  }

  lemma TabulateWordsList<V>(ws: set<Word>, f: Word -> Result<V>)
    ensures TabulateWords(ws, f) == Tabulate(WordList(ws), f)
  {
  }

  /** The source of the zero operation on (X_0, ..., X_{d-1}):
      M[X_{d-1}] (x) hom(word), flattened once when d > 2, and M[X_0] itself
      when d == 1. */
  function ModDomain(M: A8Module, word: Word): (r: Result<VectorSpace>)
    requires |word| > 0
    ensures |word| == 1 ==> r == Ok(ModGet(M, word[0]))
    ensures |word| == 2 ==> r == Spaces.Tensor([ModGet(M, word[1]), Morphisms(M.cat, word[0], word[1])])
  {
    var X := word[|word| - 1];
    if |word| == 1 then Ok(ModGet(M, X))
    else
      var H := HomSpec(M.cat, word);
      if H.Err? then Err(H.error)
      else
        var S := Spaces.Tensor([ModGet(M, X), H.value]);
        if |word| == 2 then S
        else if S.Err? then Err(S.error)
        else Spaces.FlattenSpec(S.value, 1)
  }

  /** On a pair of objects over one field the domain has dimension
      dim M[X_1] * dim A[(X_0, X_1)]. */
  lemma ModDomainPair(M: A8Module, X: Key, Y: Key)
    requires ModGet(M, Y).field == Morphisms(M.cat, X, Y).field
    ensures ModDomain(M, [X, Y]).Ok?
    ensures Dim(ModDomain(M, [X, Y]).value) == Dim(ModGet(M, Y)) * Dim(Morphisms(M.cat, X, Y))
  {
    DimOtimes(ModGet(M, Y), Morphisms(M.cat, X, Y));
  }

  /** `M.mu(*word)`: the stored operation, or the zero map from the domain
      above to M[X_0] of degree 2 - d; the empty word raises IndexError at
      `word[d-1]`. A single object always has an operation. */
  function ModMu(M: A8Module, word: Word): (r: Result<LinearMap>)
    ensures word in M.operations ==> r == Ok(M.operations[word])
    ensures word !in M.operations && word == [] ==> r == Err(IndexError)
    ensures word !in M.operations && |word| == 1 ==> r == Ok(LinearMap(ModGet(M, word[0]), ModGet(M, word[0]), 1, map[]))
    ensures word !in M.operations && r.Ok? ==> |word| > 0 && ModDomain(M, word) == Ok(r.value.source)
    ensures word !in M.operations && r.Ok? ==> r.value.target == ModGet(M, word[0]) && r.value.deg == 2 - |word| && IsZeroMap(r.value)
    ensures |word| == 1 ==> r.Ok?
  {
    if word in M.operations then Ok(M.operations[word])
    else if word == [] then Err(IndexError)
    else
      var S := ModDomain(M, word);
      if S.Err? then Err(S.error) else Ok(LinearMap(S.value, ModGet(M, word[0]), 2 - |word|, map[]))
  }

  /** `e.cpt(*word)`: the stored component, or the zero map from the source
      of `source.mu(*word)` to target[X_0] of degree 1 + deg - d. */
  function Cpt(e: A8ModuleMap, word: Word): (r: Result<LinearMap>)
    ensures word in e.components ==> r == Ok(e.components[word])
    ensures word !in e.components && word == [] ==> r == Err(IndexError)
    ensures word !in e.components && word != [] ==> (r.Ok? <==> ModMu(e.source, word).Ok?)
    ensures word !in e.components && r.Ok? ==> |word| > 0 && r.value.source == ModMu(e.source, word).value.source
    ensures word !in e.components && r.Ok? ==>
      r.value.target == ModGet(e.target, word[0]) && r.value.deg == 1 + e.deg - |word| && IsZeroMap(r.value)
  {
    if word in e.components then Ok(e.components[word])
    else
      var S := ModMu(e.source, word);
      if S.Err? then Err(S.error)
      else if word == [] then Err(IndexError)
      else Ok(LinearMap(S.value.source, ModGet(e.target, word[0]), 1 + e.deg - |word|, map[]))
  }

  /** An unset component sends everything it accepts to zero. */
  lemma CptUnsetIsZero(e: A8ModuleMap, word: Word, v: Vector)
    requires word !in e.components && Cpt(e, word).Ok? && Applicable(Cpt(e, word).value, v)
    ensures EvalSpec(Cpt(e, word).value, v) == Ok(ZeroVector(ModGet(e.target, word[0])))
  {
    ZeroMapEval(Cpt(e, word).value, v);
  }

  // ----- the complexes M(X) and the total cohomology -----

  /** `M.cpx(X)`: M[X] with the differential mu(X). */
  function Cpx(M: A8Module, X: Key): (Z: CochainComplex)
    ensures Z.cochains == ModGet(M, X)
    ensures [X] in M.operations ==> Z.differential == M.operations[[X]]
    ensures [X] !in M.operations ==> Z.differential == LinearMap(ModGet(M, X), ModGet(M, X), 1, map[])
  {
    CochainComplex(ModGet(M, X), ModMu(M, [X]).value)
  }

  /** `sum(coh_gps[X].get(i, 0) for X in xs)` */
  function SumOver(cohs: map<Key, map<int, int>>, xs: seq<Key>, i: int): int
    decreases |xs|
  {
    if xs == [] then 0
    else
      var X := xs[|xs| - 1];
      SumOver(cohs, xs[..|xs| - 1], i) + (if X in cohs && i in cohs[X] then cohs[X][i] else 0)
  }

  /** The total rank in degree i, over all objects. */
  function SumAt(cohs: map<Key, map<int, int>>, i: int): int {
    SumOver(cohs, SortedKeys(cohs.Keys), i)
  }

  /** The keys of `ChainMap(*coh_gps.values())`: every degree some object has. */
  function AllDegrees(cohs: map<Key, map<int, int>>): set<int> {
    set X, i | X in cohs && i in cohs[X] :: i
  }

  /** `total_coh` with its zero entries dropped. */
  function TotalSpec(cohs: map<Key, map<int, int>>): map<int, int> {
    map i | i in AllDegrees(cohs) && SumAt(cohs, i) != 0 :: SumAt(cohs, i)
  }

  lemma {:induction false} SumOverOutside(cohs: map<Key, map<int, int>>, xs: seq<Key>, i: int)
    requires i !in AllDegrees(cohs)
    decreases |xs|
    ensures SumOver(cohs, xs, i) == 0
  {
    if xs != [] {
      SumOverOutside(cohs, xs[..|xs| - 1], i);
      var X := xs[|xs| - 1];
      assert X !in cohs || i !in cohs[X];
    }
  }

  /** Dropping the zero entries loses nothing: read with a default of zero,
      the total is the sum over the objects in every degree, and it holds
      no zero entry. */
  lemma TotalMeaning(cohs: map<Key, map<int, int>>, i: int)
    ensures (if i in TotalSpec(cohs) then TotalSpec(cohs)[i] else 0) == SumAt(cohs, i)
    ensures i in TotalSpec(cohs) ==> TotalSpec(cohs)[i] != 0
  {
    if i !in AllDegrees(cohs) {
      SumOverOutside(cohs, SortedKeys(cohs.Keys), i);
    }
  }

  /** The degrees in which M[X] has basis vectors. */
  function Degrees(M: A8Module, X: Key): set<int> {
    GrDim(ModGet(M, X)).Keys
  }

  /** `M.cpx(X).cohomology()`: the cohomology of the complex of M at X, one
      entry per degree of M[X]. */
  method ObjectCohomology(M: A8Module, X: Key) returns (r: Result<map<int, int>>)
    ensures r.Ok? ==> r.value.Keys == Degrees(M, X)
    ensures r.Ok? ==> IsCohomology(Cpx(M, X), r.value)
  {
    var Z := Cpx(M, X);
    var graded, kernels, images, kvecs, ivecs;
    r, graded, kernels, images, kvecs, ivecs := Cohomology(Z);
  }

  /** Each entry of cohs is the cohomology of the complex of M at its object. */
  ghost predicate CohomologiesOf(M: A8Module, cohs: map<Key, map<int, int>>) {
    forall X | X in cohs :: IsCohomology(Cpx(M, X), cohs[X])
  }

  /** Recording one more object's cohomology. */
  lemma CohomologiesStep(M: A8Module, cohs: map<Key, map<int, int>>, X: Key, c: map<int, int>)
    requires CohomologiesOf(M, cohs) && IsCohomology(Cpx(M, X), c)
    ensures CohomologiesOf(M, cohs[X := c])
  {
  }

  /** Recording the cohomology of the next object xs[n], with its degrees. */
  lemma DegreesStep(M: A8Module, cohs: map<Key, map<int, int>>, xs: seq<Key>, n: nat, c: map<int, int>,
                    next: map<Key, map<int, int>>)
    requires n < |xs| && c.Keys == Degrees(M, xs[n]) && next == cohs[xs[n] := c]
    requires forall X :: X in cohs <==> X in xs[..n]
    requires forall X | X in cohs :: cohs[X].Keys == Degrees(M, X)
    ensures forall X :: X in next <==> X in xs[..n + 1]
    ensures forall X | X in next :: next[X].Keys == Degrees(M, X)
  {
    assert xs[..n + 1] == xs[..n] + [xs[n]];
  }

  /** The comprehension `{X: M.cpx(X).cohomology() for X in xs}`. */
  method CohomologiesOver(M: A8Module, xs: seq<Key>) returns (r: Result<map<Key, map<int, int>>>)
    ensures r.Ok? ==> r.value.Keys == (set X | X in xs)
    ensures r.Ok? ==> forall X | X in r.value :: r.value[X].Keys == Degrees(M, X)
    ensures r.Ok? ==> CohomologiesOf(M, r.value)
  {
    var cohs: map<Key, map<int, int>> := map[];
    var n := 0;
    while n < |xs|
      invariant 0 <= n <= |xs|
      invariant forall X :: X in cohs <==> X in xs[..n]
      invariant forall X | X in cohs :: cohs[X].Keys == Degrees(M, X)
      invariant CohomologiesOf(M, cohs)
    {
      var c := ObjectCohomology(M, xs[n]);
      if c.Err? {
        return Err(c.error);
      }
      CohomologiesStep(M, cohs, xs[n], c.value);
      DegreesStep(M, cohs, xs, n, c.value, cohs[xs[n] := c.value]);
      cohs := cohs[xs[n] := c.value];
      n := n + 1;
    }
    assert xs[..n] == xs;
    return Ok(cohs);
  }

  /** `M.total()`: the cohomology of M(X) for every object X in key order,
      added degree by degree. The per-object cohomologies are returned
      beside the total. */
  method Total(M: A8Module) returns (r: Result<map<int, int>>, cohs: map<Key, map<int, int>>)
    ensures r.Ok? ==> cohs.Keys == M.cat.objects && r.value == TotalSpec(cohs)
    ensures r.Ok? ==> forall X | X in cohs :: cohs[X].Keys == Degrees(M, X)
    ensures r.Ok? ==> CohomologiesOf(M, cohs)
  {
    var xs := SortedKeys(M.cat.objects);
    var c := CohomologiesOver(M, xs);
    if c.Err? {
      return Err(c.error), map[];
    }
    cohs := c.value;
    assert (set X | X in xs) == M.cat.objects;
    return Ok(TotalSpec(cohs)), cohs;
  }

  function MinOf(s: seq<int>): (m: int)
    requires s != []
    ensures m in s && forall x | x in s :: m <= x
  {
    if |s| == 1 then s[0]
    else
      var m := MinOf(s[..|s| - 1]);
      assert forall x | x in s :: x in s[..|s| - 1] || x == s[|s| - 1];
      if s[|s| - 1] < m then s[|s| - 1] else m
  }

  function MaxOf(s: seq<int>): (m: int)
    requires s != []
    ensures m in s && forall x | x in s :: x <= m
  {
    if |s| == 1 then s[0]
    else
      var m := MaxOf(s[..|s| - 1]);
      assert forall x | x in s :: x in s[..|s| - 1] || x == s[|s| - 1];
      if s[|s| - 1] > m then s[|s| - 1] else m
  }

  /** `min(keys), max(keys)`: ValueError for an empty total, and otherwise
      the extreme degrees present. */
  function WidthOf(t: map<int, int>): (r: Result<(int, int)>)
    ensures r.Err? <==> t == map[]
    ensures r.Err? ==> r.error == ValueError
    ensures r.Ok? ==> r.value.0 in t && r.value.1 in t && forall i | i in t :: r.value.0 <= i <= r.value.1
  {
    var ds := IntList(t.Keys);
    if ds == [] then
      assert t.Keys == {};
      Err(ValueError)
    else
      var lo, hi := MinOf(ds), MaxOf(ds);
      assert lo in (set n | n in ds) && hi in (set n | n in ds);
      assert forall i | i in t :: i in ds by {
        forall i | i in t ensures i in ds {
          assert i in (set n | n in ds);
        }
      }
      Ok((lo, hi))
  }

  /** `M.width()` */
  method Width(M: A8Module) returns (r: Result<(int, int)>, cohs: map<Key, map<int, int>>)
    ensures r.Ok? ==> cohs.Keys == M.cat.objects && r == WidthOf(TotalSpec(cohs))
    ensures r.Ok? ==> CohomologiesOf(M, cohs)
  {
    var t;
    t, cohs := Total(M);
    if t.Err? {
      return Err(t.error), cohs;
    }
    r := WidthOf(t.value);
  }

  // ----- shift -----

  /** The words of the operations other than the single objects. */
  function OtherSet(M: A8Module): set<Word> {
    set w | w in M.operations && |w| != 1
  }

  /** The new operation on a word of length other than one: the same
      images shifted by m, from M[X_{d-1}][m] (x) hom(word) (flattened once
      when d > 2) to M[X_0][m], keeping the degree. */
  function ShiftedOp(M: A8Module, m: int, word: Word): (r: Result<LinearMap>)
    ensures r.Ok? ==> |word| > 0 && ModMu(M, word).Ok?
    ensures r.Ok? ==> r.value.deg == ModMu(M, word).value.deg && r.value.target == Spaces.Shift(ModGet(M, word[0]), m)
    ensures r.Ok? ==> r.value.maps.Keys == ModMu(M, word).value.maps.Keys
    ensures r.Ok? ==> forall i | i in r.value.maps :: r.value.maps[i] == Vectors.Shift(ModMu(M, word).value.maps[i], m)
  {
    if |word| == 0 then Err(IndexError)
    else
      var F := ModMu(M, word);
      var H := HomSpec(M.cat, word);
      if F.Err? then Err(F.error)
      else if H.Err? then Err(H.error)
      else
        var S0 := Spaces.Tensor([Spaces.Shift(ModGet(M, word[|word| - 1]), m), H.value]);
        var S := if |word| == 2 || S0.Err? then S0 else Spaces.FlattenSpec(S0.value, 1);
        if S.Err? then Err(S.error)
        else Ok(LinearMap(S.value, Spaces.Shift(ModGet(M, word[0]), m), F.value.deg,
                          map i | i in F.value.maps :: Vectors.Shift(F.value.maps[i], m)))
  }

  function ShiftedOps(M: A8Module, m: int): Word -> Result<LinearMap> {
    w => ShiftedOp(M, m, w)
  }

  /** `{(X,): M.mu(X).rejig_2() for X in A.objects if (X,) in M.operations}`:
      rejig_2 runs with its default 1, whatever the shift. */
  function ShiftedUnits(M: A8Module): map<Word, LinearMap> {
    map w | w in M.operations && |w| == 1 && w[0] in M.cat.objects :: Rejig2Unit(M.operations[w])
  }

  /** The words M.shift keeps: all but the single objects outside the
      category. */
  function ShiftedWords(M: A8Module): set<Word> {
    set w | w in M.operations && (|w| != 1 || w[0] in M.cat.objects)
  }

  /** `M.shift(m)` */
  function ModShiftSpec(M: A8Module, m: int): (r: Result<A8Module>)
    ensures r.Ok? <==> forall w | w in OtherSet(M) :: ShiftedOp(M, m, w).Ok?
    ensures r.Ok? ==> r.value.cat == M.cat && r.value.modules.Keys == M.modules.Keys
    ensures r.Ok? ==> r.value.operations.Keys == ShiftedWords(M)
    ensures r.Ok? ==> forall X | X in M.modules :: r.value.modules[X] == Spaces.Shift(M.modules[X], m)
  {
    var rest := TabulateWords(OtherSet(M), ShiftedOps(M, m));
    if rest.Err? then Err(rest.error)
    else
      ModShiftKeys(M, rest.value);
      Ok(A8Module(M.cat, map X | X in M.modules :: Spaces.Shift(M.modules[X], m), ShiftedUnits(M) + rest.value))
  }

  lemma ModShiftKeys(M: A8Module, rest: map<Word, LinearMap>)
    requires rest.Keys == OtherSet(M)
    ensures (ShiftedUnits(M) + rest).Keys == ShiftedWords(M)
  {
  }

  /** `M.shift(m)`: the comprehensions, then the loop over the words of the
      other lengths. */
  method ModShift(M: A8Module, m: int) returns (r: Result<A8Module>)
    ensures r == ModShiftSpec(M, m)
  {
    var modules := map X | X in M.modules :: Spaces.Shift(M.modules[X], m);
    var rest := TabulateLoop(WordList(OtherSet(M)), ShiftedOps(M, m));
    if rest.Err? {
      return Err(rest.error);
    }
    return Ok(A8Module(M.cat, modules, ShiftedUnits(M) + rest.value));
  }

  /** The fibres of M.shift(m) are those of M with every degree lowered by m,
      and shifting back by -m restores them. */
  lemma ModShiftFibres(M: A8Module, m: int, X: Key, d: int)
    requires ModShiftSpec(M, m).Ok? && X in M.modules
    ensures GrDimAt(ModGet(ModShiftSpec(M, m).value, X), d) == GrDimAt(ModGet(M, X), d + m)
    ensures Spaces.Shift(ModGet(ModShiftSpec(M, m).value, X), -m) == ModGet(M, X)
  {
    assert ModGet(ModShiftSpec(M, m).value, X) == Spaces.Shift(M.modules[X], m);
    ShiftedSpace(M.modules[X], m, d);
  }

  lemma ShiftedSpace(V: VectorSpace, m: int, d: int)
    ensures GrDimAt(Spaces.Shift(V, m), d) == GrDimAt(V, d + m)
    ensures Spaces.Shift(Spaces.Shift(V, m), -m) == V
  {
    GrDimShift(V, m, d + m);
    ShiftCompose(V, m, -m);
    ShiftZero(V);
  }

  /** On the single objects that are objects of the category, the shifted
      module carries mu(X) re-graded by one, whatever m is: its spaces are
      shifted by 1 and its degree is kept. */
  lemma ModShiftUnits(M: A8Module, m: int, X: Key)
    requires ModShiftSpec(M, m).Ok? && [X] in M.operations && X in M.cat.objects
    ensures var G := ModShiftSpec(M, m).value.operations[[X]];
      && G.source == Spaces.Shift(M.operations[[X]].source, 1)
      && G.target == Spaces.Shift(M.operations[[X]].target, 1)
      && G.deg == M.operations[[X]].deg
      && G.maps.Keys == M.operations[[X]].maps.Keys
      && forall i | i in G.maps :: G.maps[i] == Vectors.Shift(M.operations[[X]].maps[i], 1)
  {
    var rest := TabulateWords(OtherSet(M), ShiftedOps(M, m)).value;
    assert [X] !in rest;
  }

  /** On the longer words the images are those of M, each shifted by m. */
  lemma ModShiftColumns(M: A8Module, m: int, w: Word, i: Key)
    requires ModShiftSpec(M, m).Ok? && w in M.operations && |w| != 1 && i in M.operations[w].maps
    ensures w in ModShiftSpec(M, m).value.operations
    ensures var G := ModShiftSpec(M, m).value.operations[w];
      G.deg == M.operations[w].deg && G.target == Spaces.Shift(ModGet(M, w[0]), m) &&
      Column(G, i) == Vectors.Shift(M.operations[w].maps[i], m)
  {
    var rest := TabulateWords(OtherSet(M), ShiftedOps(M, m)).value;
    assert w in rest && w !in ShiftedUnits(M);
    assert ModShiftSpec(M, m).value.operations[w] == ShiftedOp(M, m, w).value;
  }

  // ----- direct sums -----

  function OplusFibre(M: A8Module, N: A8Module): Key -> Result<VectorSpace> {
    X => Spaces.Oplus(ModGet(M, X), ModGet(N, X))
  }

  /** flatten(1).unflatten(0, 2) on the words longer than one. */
  function Regrouped(w: Word, B: LinearMap): Result<LinearMap> {
    if |w| > 1 then
      var F :- LinearMaps.FlattenSpec(B, 1);
      LinearMaps.UnflattenSpec(F, 0, 2)
    else Ok(B)
  }

  /** The block operation of M (+) N on one word: mu_M and mu_N on the
      diagonal and zero components off it. Once mu_M and the first zero
      component exist, the word is not empty and neither of the other two
      can fail. */
  function OplusOp(M: A8Module, N: A8Module): Word -> Result<LinearMap> {
    w =>
      var a := ModMu(M, w);
      var b := Cpt(A8ModuleMap(N, M, 0, map[]), w);
      if a.Err? then Err(a.error)
      else if b.Err? then Err(b.error)
      else
        var c := Cpt(A8ModuleMap(M, N, 0, map[]), w).value;
        var B := LinearMaps.Block(a.value, b.value, c, ModMu(N, w).value);
        if B.Err? then Err(B.error) else Regrouped(w, B.value)
  }

  /** The operation words of length one, and longer. */
  function UnitSet(ws: set<Word>): set<Word> {
    set w | w in ws && |w| == 1
  }

  function LongSet(ws: set<Word>): set<Word> {
    set w | w in ws && |w| > 1
  }

  /** The words of length at least one. */
  function NonEmptyWords(ws: set<Word>): set<Word> {
    set w | w in ws && |w| >= 1
  }

  lemma SplitWords<V>(ws: set<Word>, ones: map<Word, V>, more: map<Word, V>)
    requires ones.Keys == UnitSet(ws) && more.Keys == LongSet(ws)
    ensures (ones + more).Keys == NonEmptyWords(ws)
  {
  }

  /** `M.oplus(N)`: fibres M[X] (+) N[X] over the keys of both, and block
      operations on every word of either of length at least one. */
  function ModOplus(M: A8Module, N: A8Module): (r: Result<A8Module>)
    ensures r.Ok? ==> r.value.cat == M.cat && r.value.modules.Keys == M.modules.Keys + N.modules.Keys
    ensures r.Ok? ==> forall X | X in r.value.modules :: Spaces.Oplus(ModGet(M, X), ModGet(N, X)) == Ok(r.value.modules[X])
    ensures r.Ok? ==> r.value.operations.Keys == NonEmptyWords(M.operations.Keys + N.operations.Keys)
  {
    var ks := M.operations.Keys + N.operations.Keys;
    var modules := TabulateKeys(M.modules.Keys + N.modules.Keys, OplusFibre(M, N));
    var ones := TabulateWords(UnitSet(ks), OplusOp(M, N));
    var more := TabulateWords(LongSet(ks), OplusOp(M, N));
    if modules.Err? then Err(modules.error)
    else if ones.Err? then Err(ones.error)
    else if more.Err? then Err(more.error)
    else
      SplitWords(ks, ones.value, more.value);
      Ok(A8Module(M.cat, modules.value, ones.value + more.value))
  }

  /** Over one field the fibre dimensions of a direct sum add, degree by
      degree. */
  lemma ModOplusFibres(M: A8Module, N: A8Module, X: Key, d: int)
    requires ModOplus(M, N).Ok? && X in ModOplus(M, N).value.modules
    ensures ModGet(M, X).field == ModGet(N, X).field
    ensures Dim(ModGet(ModOplus(M, N).value, X)) == Dim(ModGet(M, X)) + Dim(ModGet(N, X))
    ensures GrDimAt(ModGet(ModOplus(M, N).value, X), d) == GrDimAt(ModGet(M, X), d) + GrDimAt(ModGet(N, X), d)
  {
    DimOplus(ModGet(M, X), ModGet(N, X));
    GrDimOplus(ModGet(M, X), ModGet(N, X), d);
  }

  // ----- cones -----

  function ConeFibre(M: A8Module, N: A8Module): Key -> Result<VectorSpace> {
    X => Spaces.Oplus(Spaces.Shift(ModGet(M, X), DefaultShift), ModGet(N, X))
  }

  /** The block [[A, B], [C, D]] of the cone on the word w, regrouped. */
  function ConeBlock(w: Word, A: LinearMap, B: LinearMap, C: LinearMap, D: LinearMap): Result<LinearMap> {
    var X := LinearMaps.Block(A, B, C, D);
    if X.Err? then Err(X.error) else Regrouped(w, X.value)
  }

  /** `F.rejig_2(1)` and `F.rejig_3(1)`, which cannot fail (1 is odd, so
      rejig_2 is ShiftedMap; see LinearMaps.Rejig2Odd). */
  function Rejig2Unit(F: LinearMap): LinearMap {
    ShiftedMap(F, DefaultShift)
  }

  function Rejig3Unit(F: LinearMap): LinearMap {
    Rejig1Spec(ShiftedMap(F, DefaultShift), -DefaultShift)
  }

  /** The block operation of the cone on one word: mu_M re-graded by
      rejig_2, a zero block, the component of e re-graded by rejig_3, and
      mu_N; MS is M.shift(). Neither re-grading can fail, and once the zero
      block exists the word is not empty and mu_N exists. */
  function ConeOp(e: A8ModuleMap, MS: A8Module): Word -> Result<LinearMap> {
    w =>
      var a := ModMu(e.source, w);
      var b := Cpt(A8ModuleMap(e.target, MS, DefaultShift, map[]), w);
      var c := Cpt(e, w);
      if a.Err? then Err(a.error)
      else if b.Err? then Err(b.error)
      else if c.Err? then Err(c.error)
      else ConeBlock(w, Rejig2Unit(a.value), b.value, Rejig3Unit(c.value), ModMu(e.target, w).value)
  }

  /** The words of a cone: those of the components of e and of the
      operations of both modules. */
  function ConeWords(e: A8ModuleMap): set<Word> {
    e.components.Keys + e.source.operations.Keys + e.target.operations.Keys
  }

  /** `e.cone()`: fibres M[X][1] (+) N[X] over the keys of both modules,
      and block operations on every word of length at least one among the
      components of e and the operations of M and N. */
  function Cone(e: A8ModuleMap): (r: Result<A8Module>)
    ensures r.Ok? ==> r.value.cat == e.source.cat
    ensures r.Ok? ==> r.value.modules.Keys == e.source.modules.Keys + e.target.modules.Keys
    ensures r.Ok? ==> forall X | X in r.value.modules ::
      Spaces.Oplus(Spaces.Shift(ModGet(e.source, X), 1), ModGet(e.target, X)) == Ok(r.value.modules[X])
    ensures r.Ok? ==> r.value.operations.Keys == NonEmptyWords(ConeWords(e))
  {
    var M, N := e.source, e.target;
    var ks := ConeWords(e);
    var modules := TabulateKeys(M.modules.Keys + N.modules.Keys, ConeFibre(M, N));
    var MS := ModShiftSpec(M, DefaultShift);
    if modules.Err? then Err(modules.error)
    else if MS.Err? then Err(MS.error)
    else
      var ones := TabulateWords(UnitSet(ks), ConeOp(e, MS.value));
      var more := TabulateWords(LongSet(ks), ConeOp(e, MS.value));
      if ones.Err? then Err(ones.error)
      else if more.Err? then Err(more.error)
      else
        SplitWords(ks, ones.value, more.value);
        Ok(A8Module(M.cat, modules.value, ones.value + more.value))
  }

  /** The fibre of the cone at X is M[X][1] (+) N[X]: over one field its
      dimension is the sum and its degree-d part has the degree-(d + 1) part
      of M[X] next to the degree-d part of N[X]. */
  lemma ConeFibres(e: A8ModuleMap, X: Key, d: int)
    requires Cone(e).Ok? && X in Cone(e).value.modules
    ensures ModGet(e.source, X).field == ModGet(e.target, X).field
    ensures Dim(ModGet(Cone(e).value, X)) == Dim(ModGet(e.source, X)) + Dim(ModGet(e.target, X))
    ensures GrDimAt(ModGet(Cone(e).value, X), d) == GrDimAt(ModGet(e.source, X), d + 1) + GrDimAt(ModGet(e.target, X), d)
  {
    var S := Spaces.Shift(ModGet(e.source, X), 1);
    DimOplus(S, ModGet(e.target, X));
    GrDimOplus(S, ModGet(e.target, X), d);
    GrDimShift(ModGet(e.source, X), 1, d + 1);
  }

  // ----- tensor product with a cochain complex -----

  function OtimesFibre(Z: CochainComplex, M: A8Module): Key -> Result<VectorSpace> {
    X => Spaces.Tensor([Z.cochains, ModGet(M, X)])
  }

  /** The new mu(X): Id (x) mu_M(X) + d (x) sigma(M[X]). */
  function OtimesUnit(Z: CochainComplex, M: A8Module): Key -> Result<LinearMap> {
    X =>
      var P :- LinearMaps.Tensor([Id(Z.cochains), ModMu(M, [X]).value]);
      var s :- Sigma(ModGet(M, X));
      var Q :- LinearMaps.Tensor([Z.differential, s]);
      LinearMaps.Add(P, Q)
  }

  /** The new operation on a longer word: Id (x) mu_M(word), regrouped. */
  function OtimesOp(Z: CochainComplex, M: A8Module, w: Word): Result<LinearMap> {
    var mu :- ModMu(M, w);
    var P :- LinearMaps.Tensor([Id(Z.cochains), mu]);
    var F :- LinearMaps.FlattenSpec(P, 1);
    LinearMaps.UnflattenSpec(F, 0, 2)
  }

  function OtimesOps(Z: CochainComplex, M: A8Module): Word -> Result<LinearMap> {
    w => OtimesOp(Z, M, w)
  }

  /** The one-object words `(X,)` of a map keyed by objects. */
  function AsUnitWords(m: map<Key, LinearMap>): (r: map<Word, LinearMap>)
    ensures r.Keys == set X | X in m :: [X]
    ensures forall X | X in m :: r[[X]] == m[X]
  {
    map X | X in m :: [X] := m[X]
  }

  /** The words of Z (x) M: (X,) for every key X of M and the longer words
      of M's operations. */
  function OtimesWords(M: A8Module): set<Word> {
    (set X | X in M.modules :: [X]) + LongSet(M.operations.Keys)
  }

  /** The fibres Z (x) M[X]. */
  function OtimesModules(Z: CochainComplex, M: A8Module): (r: Result<map<Key, VectorSpace>>)
    ensures r.Ok? ==> r.value.Keys == M.modules.Keys
    ensures r.Ok? ==> forall X | X in r.value :: Spaces.Tensor([Z.cochains, M.modules[X]]) == Ok(r.value[X])
  {
    TabulateKeys(M.modules.Keys, OtimesFibre(Z, M))
  }

  /** `{(X,): ... for X in M.modules}` */
  function OtimesUnits(Z: CochainComplex, M: A8Module): (r: Result<map<Word, LinearMap>>)
    ensures r.Ok? ==> r.value.Keys == set X | X in M.modules :: [X]
  {
    var units := TabulateKeys(M.modules.Keys, OtimesUnit(Z, M));
    if units.Err? then Err(units.error) else Ok(AsUnitWords(units.value))
  }

  /** `Z.otimes(M)` */
  function ComplexOtimesSpec(Z: CochainComplex, M: A8Module): (r: Result<A8Module>)
    ensures r.Ok? ==> r.value.cat == M.cat && r.value.modules.Keys == M.modules.Keys
    ensures r.Ok? ==> forall X | X in r.value.modules :: Spaces.Tensor([Z.cochains, M.modules[X]]) == Ok(r.value.modules[X])
    ensures r.Ok? ==> r.value.operations.Keys == OtimesWords(M)
  {
    var modules := OtimesModules(Z, M);
    var units := OtimesUnits(Z, M);
    var more := TabulateWords(LongSet(M.operations.Keys), OtimesOps(Z, M));
    if modules.Err? then Err(modules.error)
    else if units.Err? then Err(units.error)
    else if more.Err? then Err(more.error)
    else
      OtimesKeys(M, units.value, more.value);
      Ok(A8Module(M.cat, modules.value, units.value + more.value))
  }

  lemma OtimesKeys(M: A8Module, units: map<Word, LinearMap>, more: map<Word, LinearMap>)
    requires units.Keys == (set X | X in M.modules :: [X]) && more.Keys == LongSet(M.operations.Keys)
    ensures (units + more).Keys == OtimesWords(M)
  {
  }

  /** `Z.otimes(M)`: the comprehensions, then the loop over the longer words. */
  method ComplexOtimes(Z: CochainComplex, M: A8Module) returns (r: Result<A8Module>)
    ensures r == ComplexOtimesSpec(Z, M)
  {
    var modules := OtimesModules(Z, M);
    if modules.Err? {
      return Err(modules.error);
    }
    var units := OtimesUnits(Z, M);
    if units.Err? {
      return Err(units.error);
    }
    var more := TabulateLoop(WordList(LongSet(M.operations.Keys)), OtimesOps(Z, M));
    if more.Err? {
      return Err(more.error);
    }
    return Ok(A8Module(M.cat, modules.value, units.value + more.value));
  }

  /** Over one field the fibre of Z (x) M at X has dimension dim Z * dim M[X]. */
  lemma ComplexOtimesField(Z: CochainComplex, M: A8Module, X: Key)
    requires ComplexOtimesSpec(Z, M).Ok? && X in M.modules
    ensures Z.cochains.field == M.modules[X].field
  {
    OtimesField(Z.cochains, M.modules[X]);
  }

  lemma ComplexOtimesFibres(Z: CochainComplex, M: A8Module, X: Key)
    requires ComplexOtimesSpec(Z, M).Ok?
    ensures X in M.modules ==> Z.cochains.field == M.modules[X].field
    ensures Dim(ModGet(ComplexOtimesSpec(Z, M).value, X)) == Dim(Z.cochains) * Dim(ModGet(M, X))
  {
    var T := ComplexOtimesSpec(Z, M).value;
    if X in M.modules {
      ComplexOtimesField(Z, M, X);
      ComplexOtimesFibreIn(Z, M, X);
    } else {
      assert X !in T.modules && Dim(ModGet(T, X)) == 0 && Dim(ModGet(M, X)) == 0;
      assert Dim(Z.cochains) * 0 == 0;
    }
  }

  lemma ComplexOtimesFibreIn(Z: CochainComplex, M: A8Module, X: Key)
    requires ComplexOtimesSpec(Z, M).Ok? && X in M.modules
    ensures Dim(ComplexOtimesSpec(Z, M).value.modules[X]) == Dim(Z.cochains) * Dim(M.modules[X])
  {
    ComplexOtimesField(Z, M, X);
    DimOtimes(Z.cochains, M.modules[X]);
  }
}
