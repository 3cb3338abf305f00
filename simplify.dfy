/** `A8Module.simplify` (every fibre re-indexed by 0, 1, 2, ... and
    every operation translated to the new indices) and `A8Module.twist`
    (the cone on the evaluation map from M(X) (x) yoneda(X) to M, then
    simplified).
 */
module Simplification {
  import opened Wrappers
  import opened Keys
  import opened Fields
  import opened Spaces
  import opened Vectors
  import opened LinearMaps
  import opened AInfinity
  import opened A8Modules

  // ----- the translator -----

  /** The position of k in ks. */
  function IndexOf(ks: seq<Key>, k: Key): (n: nat)
    requires k in ks
    ensures n < |ks| && ks[n] == k
  {
    if ks[0] == k then 0 else 1 + IndexOf(ks[1..], k)
  }

  /** The basis keys of V in the order `enumerate(list(V.basis.keys()))`
      meets them. */
  function BasisOrder(V: VectorSpace): (ks: seq<Key>)
    ensures |ks| == Dim(V) && (forall k :: k in ks <==> k in V.basis)
  {
    SortedKeys(V.basis.Keys)
  }

  /** `translator[X][i]`: the position of i among the basis keys of M[X];
      KeyError when X is not a key of M or i is not a basis key of M[X]. */
  function TranslateKey(M: A8Module, X: Key, i: Key): (r: Result<Key>)
    ensures r.Ok? <==> X in M.modules && i in M.modules[X].basis
    ensures r.Err? ==> r.error == KeyError
    ensures r.Ok? ==> r.value.KInt? && 0 <= r.value.i < Dim(M.modules[X]) && BasisOrder(M.modules[X])[r.value.i] == i
  {
    if X !in M.modules || i !in M.modules[X].basis then Err(KeyError)
    else Ok(KInt(IndexOf(BasisOrder(M.modules[X]), i)))
  }

  /** `N.modules[X]`: a space over the field K whose basis keys are
      0, ..., n - 1, key n carrying the degree of the n-th old key. */
  function Renumbered(K: Field, V: VectorSpace): (W: VectorSpace)
    ensures W.field == K && W.basis.Keys == IntKeys(0, Dim(V))
    ensures forall n | 0 <= n < Dim(V) :: W.basis[KInt(n)] == V.basis[BasisOrder(V)[n]]
  {
    var ks := BasisOrder(V);
    VectorSpace(K, map n | 0 <= n < |ks| :: KInt(n) := V.basis[ks[n]])
  }

  /** The fibres of `simplify`, over the category's field. */
  function SimplifiedModules(M: A8Module): (m: map<Key, VectorSpace>)
    ensures m.Keys == M.modules.Keys
  {
    map X | X in M.modules :: Renumbered(M.cat.field, M.modules[X])
  }

  /** A translated key has the degree of the key it replaces. */
  lemma TranslateKeyDegree(M: A8Module, X: Key, i: Key)
    requires TranslateKey(M, X, i).Ok?
    ensures TranslateKey(M, X, i).value in SimplifiedModules(M)[X].basis
    ensures SimplifiedModules(M)[X].basis[TranslateKey(M, X, i).value] == M.modules[X].basis[i]
  {
    IntKeysCard(0, Dim(M.modules[X]));
  }

  /** The positions of the basis keys of V of degree d. */
  function DegreePositions(V: VectorSpace, d: int): set<int> {
    var ks := BasisOrder(V);
    set n | 0 <= n < |ks| && V.basis[ks[n]] == d
  }

  function AtPosition(ks: seq<Key>): int -> Key {
    n => if 0 <= n < |ks| then ks[n] else KInt(0)
  }

  function AsKInt(): int -> Key {
    n => KInt(n)
  }

  lemma RenumberedPiece(K: Field, V: VectorSpace, d: int)
    ensures forall n | n in DegreePositions(V, d) :: AsKInt()(n) in Piece(Renumbered(K, V).basis, d)
    ensures forall k | k in Piece(Renumbered(K, V).basis, d) :: exists n | n in DegreePositions(V, d) :: AsKInt()(n) == k
  {
    var W := Renumbered(K, V);
    forall k | k in Piece(W.basis, d) ensures exists n | n in DegreePositions(V, d) :: AsKInt()(n) == k {
      assert k in IntKeys(0, Dim(V));
      var n :| 0 <= n < Dim(V) && k == KInt(n);
      assert n in DegreePositions(V, d);
    }
  }

  lemma OrderedPiece(V: VectorSpace, d: int)
    ensures forall n | n in DegreePositions(V, d) :: AtPosition(BasisOrder(V))(n) in Piece(V.basis, d)
    ensures forall k | k in Piece(V.basis, d) :: exists n | n in DegreePositions(V, d) :: AtPosition(BasisOrder(V))(n) == k
    ensures forall m, n | m in DegreePositions(V, d) && n in DegreePositions(V, d) &&
      AtPosition(BasisOrder(V))(m) == AtPosition(BasisOrder(V))(n) :: m == n
  {
    var ks := BasisOrder(V);
    SortedKeysSorted(V.basis.Keys);
    SortedDistinct(ks);
    forall k | k in Piece(V.basis, d) ensures exists n | n in DegreePositions(V, d) :: AtPosition(ks)(n) == k {
      var n :| 0 <= n < |ks| && ks[n] == k;
      assert n in DegreePositions(V, d);
    }
  }

  /** Renumbering keeps the dimension of every degree. */
  lemma RenumberedGrDim(K: Field, V: VectorSpace, d: int)
    ensures Dim(Renumbered(K, V)) == Dim(V)
    ensures GrDimAt(Renumbered(K, V), d) == GrDimAt(V, d)
  {
    var W := Renumbered(K, V);
    IntKeysCard(0, Dim(V));
    assert |W.basis| == |W.basis.Keys|;
    var P := DegreePositions(V, d);
    RenumberedPiece(K, V, d);
    OrderedPiece(V, d);
    BijectionCard(P, Piece(W.basis, d), AsKInt());
    BijectionCard(P, Piece(V.basis, d), AtPosition(BasisOrder(V)));
  }

  /** The fibres of `simplify` have the old graded dimensions and the keys
      0, ..., dim - 1. */
  lemma SimplifiedFibres(M: A8Module, X: Key, d: int)
    requires X in M.modules
    ensures SimplifiedModules(M)[X].field == M.cat.field
    ensures SimplifiedModules(M)[X].basis.Keys == IntKeys(0, Dim(M.modules[X]))
    ensures Dim(SimplifiedModules(M)[X]) == Dim(M.modules[X])
    ensures GrDimAt(SimplifiedModules(M)[X], d) == GrDimAt(M.modules[X], d)
  {
    RenumberedGrDim(M.cat.field, M.modules[X], d);
  }

  // ----- translating one operation -----

  /** The parts `*i` unpacks i into: the one-character strings of a string,
      the entries of a tuple; an integer is not iterable. */
  function Unpacked(i: Key): (r: Result<seq<Key>>)
    ensures r.Err? <==> i.KInt?
    ensures r.Err? ==> r.error == TypeError
    ensures i.KTup? ==> r == Ok(i.elems)
    ensures i.KStr? ==> r.Ok? && |r.value| == |i.s| && forall n | 0 <= n < |i.s| :: r.value[n] == KStr([i.s[n]])
  {
    match i
    case KInt(_) => Err(TypeError)
    case KStr(s) => Ok(seq(|s|, n requires 0 <= n < |s| => KStr([s[n]])))
    case KTup(e) => Ok(e)
  }

  /** `new_idx` in `tr_fun`: for a word of length one the translated key,
      otherwise `tr_bas(X, *i)`, the tuple i with its first entry
      translated. */
  function TranslateIndex(M: A8Module, X: Key, d: nat, i: Key): (r: Result<Key>)
    ensures d == 1 ==> r == TranslateKey(M, X, i)
    ensures d != 1 && i.KInt? ==> r == Err(TypeError)
    ensures d != 1 && i.KTup? && r.Ok? ==>
      |i.elems| > 0 && r.value.KTup? && |r.value.elems| == |i.elems| && r.value.elems[1..] == i.elems[1..] &&
      TranslateKey(M, X, i.elems[0]) == Ok(r.value.elems[0])
  {
    if d == 1 then TranslateKey(M, X, i)
    else
      var e := Unpacked(i);
      if e.Err? then Err(e.error)
      else if X !in M.modules then Err(KeyError)
      else if |e.value| == 0 then Err(IndexError)
      else
        var j := TranslateKey(M, X, e.value[0]);
        if j.Err? then Err(j.error) else Ok(KTup([j.value] + e.value[1..]))
  }

  /** The old basis key at the position a translated key names. */
  function RestoreKey(M: A8Module, X: Key, k: Key): Key
    requires X in M.modules
  {
    var ks := BasisOrder(M.modules[X]);
    if k.KInt? && 0 <= k.i < |ks| then ks[k.i] else k
  }

  /** Undoing `new_idx`: the first entry of a tuple restored. */
  function RestoreIndex(M: A8Module, X: Key, d: nat, k: Key): Key
    requires X in M.modules
  {
    if d == 1 then RestoreKey(M, X, k)
    else if k.KTup? && |k.elems| > 0 then KTup([RestoreKey(M, X, k.elems[0])] + k.elems[1..])
    else k
  }

  /** Translation loses nothing on integer-free tuple indices and on the
      keys of words of length one: the old index comes back. */
  lemma TranslateIndexRoundTrip(M: A8Module, X: Key, d: nat, i: Key)
    requires TranslateIndex(M, X, d, i).Ok? && (d == 1 || i.KTup?)
    ensures X in M.modules && RestoreIndex(M, X, d, TranslateIndex(M, X, d, i).value) == i
  {
    if d != 1 {
      TupleIndexRoundTrip(M, X, d, i);
    }
  }

  lemma TupleIndexRoundTrip(M: A8Module, X: Key, d: nat, i: Key)
    requires TranslateIndex(M, X, d, i).Ok? && d != 1 && i.KTup?
    ensures X in M.modules && RestoreIndex(M, X, d, TranslateIndex(M, X, d, i).value) == i
  {
    var k := TranslateIndex(M, X, d, i).value;
    assert RestoreKey(M, X, k.elems[0]) == i.elems[0];
    assert [i.elems[0]] + k.elems[1..] == i.elems;
  }

  /** `{translator[Z][j]: c[j] for j in c}`: KeyError once a key of c (or
      Z itself, when c is not empty) is unknown. */
  function TranslateComponents(M: A8Module, Z: Key, c: map<Key, Number>): (r: Result<map<Key, Number>>)
    ensures r.Ok? <==> c == map[] || (Z in M.modules && c.Keys <= M.modules[Z].basis.Keys)
    ensures r.Err? ==> r.error == KeyError
  {
    if c == map[] then Ok(map[])
    else if Z !in M.modules || !(c.Keys <= M.modules[Z].basis.Keys) then Err(KeyError)
    else
      var ks := BasisOrder(M.modules[Z]);
      Ok(map n | 0 <= n < |ks| && ks[n] in c :: KInt(n) := c[ks[n]])
  }

  /** Every component of c reappears under its translated key. */
  lemma TranslateComponentsForward(M: A8Module, Z: Key, c: map<Key, Number>, j: Key)
    requires TranslateComponents(M, Z, c).Ok? && j in c
    ensures TranslateKey(M, Z, j).Ok?
    ensures TranslateKey(M, Z, j).value in TranslateComponents(M, Z, c).value
    ensures TranslateComponents(M, Z, c).value[TranslateKey(M, Z, j).value] == c[j]
  {
  }

  /** Every translated component comes from the key it restores to. */
  lemma TranslateComponentsBackward(M: A8Module, Z: Key, c: map<Key, Number>, k: Key)
    requires TranslateComponents(M, Z, c).Ok? && k in TranslateComponents(M, Z, c).value
    ensures Z in M.modules && RestoreKey(M, Z, k) in c
    ensures TranslateComponents(M, Z, c).value[k] == c[RestoreKey(M, Z, k)]
  {
  }

  /** The loop of `tr_fun` over the first keys ks of F.maps: the images in
      the space T, under their translated indices and with translated
      components; a later index overwrites an earlier equal one. */
  function TrFold(M: A8Module, F: LinearMap, w: Word, T: VectorSpace, ks: seq<Key>): (r: Result<map<Key, Vector>>)
    requires |w| > 0
    decreases |ks|
    ensures r.Ok? ==> forall i | i in ks :: TranslateIndex(M, w[|w| - 1], |w|, i).Ok? && TranslateIndex(M, w[|w| - 1], |w|, i).value in r.value
    ensures r.Ok? ==> forall i | i in ks :: TranslateComponents(M, w[0], Column(F, i).components).Ok?
    ensures r.Ok? ==> forall k | k in r.value :: r.value[k].space == T
  {
    if ks == [] then Ok(map[])
    else
      var acc := TrFold(M, F, w, T, ks[..|ks| - 1]);
      var i := ks[|ks| - 1];
      var idx := TranslateIndex(M, w[|w| - 1], |w|, i);
      var c := TranslateComponents(M, w[0], Column(F, i).components);
      if acc.Err? then Err(acc.error)
      else if idx.Err? then Err(idx.error)
      else if c.Err? then Err(c.error)
      else
        assert forall j | j in ks :: j in ks[..|ks| - 1] || j == i;
        Ok(acc.value[idx.value := Vector(T, c.value)])
  }

  lemma {:induction false} TrFoldPrefixErr(M: A8Module, F: LinearMap, w: Word, T: VectorSpace, ks: seq<Key>, n: nat)
    requires |w| > 0 && n <= |ks| && TrFold(M, F, w, T, ks[..n]).Err?
    decreases |ks| - n
    ensures TrFold(M, F, w, T, ks) == TrFold(M, F, w, T, ks[..n])
  {
    if n < |ks| {
      assert ks[..n + 1][..n] == ks[..n];
      TrFoldPrefixErr(M, F, w, T, ks, n + 1);
    } else {
      assert ks[..n] == ks;
    }
  }

  /** `tr_fun(F, *word)` for the keys ks of F.maps, in order. */
  method TrFun(M: A8Module, F: LinearMap, w: Word, T: VectorSpace, ks: seq<Key>) returns (r: Result<map<Key, Vector>>)
    requires |w| > 0
    ensures r == TrFold(M, F, w, T, ks)
  {
    var X, d, Z := w[|w| - 1], |w|, w[0];
    var newMaps := map[];
    var n := 0;
    while n < |ks|
      invariant 0 <= n <= |ks|
      invariant TrFold(M, F, w, T, ks[..n]) == Ok(newMaps)
    {
      var i := ks[n];
      assert ks[..n + 1][..n] == ks[..n];
      var newIdx := TranslateIndex(M, X, d, i);
      if newIdx.Err? {
        TrFoldPrefixErr(M, F, w, T, ks, n + 1);
        return Err(newIdx.error);
      }
      var newCpts := TranslateComponents(M, Z, Column(F, i).components);
      if newCpts.Err? {
        TrFoldPrefixErr(M, F, w, T, ks, n + 1);
        return Err(newCpts.error);
      }
      newMaps := newMaps[newIdx.value := Vector(T, newCpts.value)];
      n := n + 1;
    }
    assert ks[..n] == ks;
    return Ok(newMaps);
  }

  /** The module whose zero operations give the new sources and targets:
      the new fibres under the same category and no operation yet. */
  function Skeleton(M: A8Module): A8Module {
    A8Module(M.cat, SimplifiedModules(M), map[])
  }

  /** `N.operations[word]` for the operation F of M on word: the source and
      target of N's zero operation on the word, degree 2 - d whatever F's
      degree, and the translated images. */
  function SimplifiedOp(M: A8Module, w: Word, F: LinearMap): (r: Result<LinearMap>)
    ensures r.Ok? ==> |w| > 0 && ModMu(Skeleton(M), w) == Ok(LinearMap(r.value.source, r.value.target, 2 - |w|, map[]))
    ensures r.Ok? ==> r.value.deg == 2 - |w| && r.value.target == ModGet(Skeleton(M), w[0])
    ensures r.Ok? ==> forall k | k in r.value.maps :: r.value.maps[k].space == r.value.target
  {
    var D := ModMu(Skeleton(M), w);
    if D.Err? then Err(D.error)
    else
      var maps := TrFold(M, F, w, D.value.target, SortedKeys(F.maps.Keys));
      if maps.Err? then Err(maps.error) else Ok(LinearMap(D.value.source, D.value.target, 2 - |w|, maps.value))
  }

  function SimplifiedOps(M: A8Module): Word -> Result<LinearMap> {
    w => if w in M.operations then SimplifiedOp(M, w, M.operations[w]) else Err(KeyError)
  }

  /** `M.simplify()` */
  function SimplifySpec(M: A8Module): (r: Result<A8Module>)
    ensures r.Ok? <==> forall w | w in M.operations :: SimplifiedOp(M, w, M.operations[w]).Ok?
    ensures r.Ok? ==> r.value.cat == M.cat && r.value.modules == SimplifiedModules(M)
    ensures r.Ok? ==> r.value.operations.Keys == M.operations.Keys
    ensures r.Ok? ==> forall w | w in M.operations :: SimplifiedOp(M, w, M.operations[w]) == Ok(r.value.operations[w])
  {
    var ops := TabulateWords(M.operations.Keys, SimplifiedOps(M));
    if ops.Err? then Err(ops.error) else Ok(A8Module(M.cat, SimplifiedModules(M), ops.value))
  }

  /** One pass of the loop over M's words. */
  method SimplifyOperation(M: A8Module, w: Word, F: LinearMap) returns (r: Result<LinearMap>)
    ensures r == SimplifiedOp(M, w, F)
  {
    var D := ModMu(Skeleton(M), w);
    if D.Err? {
      return Err(D.error);
    }
    var maps := TrFun(M, F, w, D.value.target, SortedKeys(F.maps.Keys));
    if maps.Err? {
      return Err(maps.error);
    }
    return Ok(LinearMap(D.value.source, D.value.target, 2 - |w|, maps.value));
  }

  /** `M.simplify()`: the new fibres, then the loop over M's words. */
  method Simplify(M: A8Module) returns (r: Result<A8Module>)
    ensures r == SimplifySpec(M)
  {
    var modules := MapValues(M.modules, V => Renumbered(M.cat.field, V));
    var ops := SimplifyOperations(M, WordList(M.operations.Keys));
    TabulateWordsList(M.operations.Keys, SimplifiedOps(M));
    assert modules == SimplifiedModules(M);
    if ops.Err? {
      return Err(ops.error);
    }
    return Ok(A8Module(M.cat, modules, ops.value));
  }

  method SimplifyOperations(M: A8Module, ws: seq<Word>) returns (r: Result<map<Word, LinearMap>>)
    ensures r == Tabulate(ws, SimplifiedOps(M))
  {
    var acc: map<Word, LinearMap> := map[];
    var n := 0;
    while n < |ws|
      invariant TabulatedUpTo(ws, SimplifiedOps(M), n, acc)
    {
      var w := ws[n];
      if w !in M.operations {
        TabulatedErr(ws, SimplifiedOps(M), n, acc);
        return Err(KeyError);
      }
      var op := SimplifyOperation(M, w, M.operations[w]);
      if op.Err? {
        TabulatedErr(ws, SimplifiedOps(M), n, acc);
        return Err(op.error);
      }
      TabulatedStep(ws, SimplifiedOps(M), n, acc, op.value);
      acc := acc[w := op.value];
      n := n + 1;
    }
    TabulatedDone(ws, SimplifiedOps(M), acc);
    return Ok(acc);
  }

  // ----- twist -----

  /** p |-> `mu(*p, X).unflatten(0, 2)` */
  function UnflattenedMu(M: A8Module, X: Key): Word -> Result<LinearMap> {
    p => var F :- ModMu(M, p + [X]); LinearMaps.UnflattenSpec(F, 0, 2)
  }

  /** The prefixes of M's words that end in X, of length n or more. */
  function PrefixesOfX(M: A8Module, X: Key, n: nat): set<Word> {
    set p | p in Prefixes(M.operations.Keys, X) && |p| >= n
  }

  /** `new_cpts` of `twist`: `word[:-1] |-> mu(*word)` for the words of
      length two ending in X and `mu(*word).unflatten(0, 2)` for the longer
      ones; the empty word raises IndexError at `word[-1]`. */
  function EvComponents(M: A8Module, X: Key): (r: Result<map<Word, LinearMap>>)
    ensures [] in M.operations ==> r == Err(IndexError)
    ensures r.Ok? ==> r.value.Keys == PrefixesOfX(M, X, 1)
  {
    if [] in M.operations then Err(IndexError)
    else
      var pairs := PairComponents(M, X);
      var longer := TabulateWords(PrefixesOfX(M, X, 2), UnflattenedMu(M, X));
      if longer.Err? then Err(longer.error)
      else
        EvKeys(M, X, pairs, longer.value);
        Ok(pairs + longer.value)
  }

  /** `word[:-1] |-> mu(*word)` for the words of length two ending in X. */
  function PairComponents(M: A8Module, X: Key): (m: map<Word, LinearMap>)
    ensures m.Keys == set p | p in PrefixesOfX(M, X, 1) && |p| == 1
  {
    map p | p in PrefixesOfX(M, X, 1) && |p| == 1 :: M.operations[p + [X]]
  }

  /** The components of the evaluation map are M's own operations, the
      longer ones unflattened at the first tensor factor. */
  lemma EvComponentsValues(M: A8Module, X: Key, p: Word)
    requires EvComponents(M, X).Ok? && p in EvComponents(M, X).value
    ensures p + [X] in M.operations
    ensures |p| == 1 ==> EvComponents(M, X).value[p] == M.operations[p + [X]]
    ensures |p| > 1 ==> LinearMaps.UnflattenSpec(M.operations[p + [X]], 0, 2) == Ok(EvComponents(M, X).value[p])
  {
    if |p| == 1 {
      EvPairValue(M, X, p);
    } else {
      EvLongValue(M, X, p);
    }
  }

  lemma EvPairValue(M: A8Module, X: Key, p: Word)
    requires EvComponents(M, X).Ok? && p in EvComponents(M, X).value && |p| == 1
    ensures p + [X] in M.operations && EvComponents(M, X).value[p] == M.operations[p + [X]]
  {
    EvUnfold(M, X);
    var longer := TabulateWords(PrefixesOfX(M, X, 2), UnflattenedMu(M, X)).value;
    assert p !in longer;
    UnionLeft(PairComponents(M, X), longer, p);
  }

  lemma EvLongValue(M: A8Module, X: Key, p: Word)
    requires EvComponents(M, X).Ok? && p in EvComponents(M, X).value && |p| > 1
    ensures p + [X] in M.operations
    ensures LinearMaps.UnflattenSpec(M.operations[p + [X]], 0, 2) == Ok(EvComponents(M, X).value[p])
  {
    EvUnfold(M, X);
    var longer := TabulateWords(PrefixesOfX(M, X, 2), UnflattenedMu(M, X)).value;
    assert p in PrefixesOfX(M, X, 1);
    assert p in PrefixesOfX(M, X, 2);
    UnionRight(PairComponents(M, X), longer, p);
    assert ModMu(M, p + [X]) == Ok(M.operations[p + [X]]);
    assert UnflattenedMu(M, X)(p) == Ok(longer[p]);
  }

  /** The evaluation map's components are the pair components together with
      the tabulated longer ones. */
  lemma EvUnfold(M: A8Module, X: Key)
    requires EvComponents(M, X).Ok?
    ensures TabulateWords(PrefixesOfX(M, X, 2), UnflattenedMu(M, X)).Ok?
    ensures EvComponents(M, X).value == PairComponents(M, X) + TabulateWords(PrefixesOfX(M, X, 2), UnflattenedMu(M, X)).value
  {
    assert [] !in M.operations;
  }

  lemma UnionLeft(a: map<Word, LinearMap>, b: map<Word, LinearMap>, p: Word)
    requires p in a + b && p !in b
    ensures p in a && (a + b)[p] == a[p]
  {
  }

  lemma UnionRight(a: map<Word, LinearMap>, b: map<Word, LinearMap>, p: Word)
    requires p in b
    ensures (a + b)[p] == b[p]
  {
  }

  lemma EvKeys(M: A8Module, X: Key, pairs: map<Word, LinearMap>, longer: map<Word, LinearMap>)
    requires pairs.Keys == (set p | p in PrefixesOfX(M, X, 1) && |p| == 1) && longer.Keys == PrefixesOfX(M, X, 2)
    ensures (pairs + longer).Keys == PrefixesOfX(M, X, 1)
    ensures forall p | p in pairs :: p !in longer
  {
  }

  /** The tensor product M(X) (x) yoneda(X) the twist starts from. */
  function TwistSource(M: A8Module, X: Key): (r: Result<A8Module>)
    ensures X !in M.cat.objects ==> r == Err(ValueError)
  {
    var Y := Yoneda(M.cat, X);
    if Y.Err? then Err(Y.error) else ComplexOtimesSpec(Cpx(M, X), Y.value)
  }

  /** The cone on ev: M(X) (x) yoneda(X) -> M, of degree 0. */
  function TwistCone(M: A8Module, X: Key): (r: Result<A8Module>)
    ensures X !in M.cat.objects ==> r == Err(ValueError)
  {
    var T := TwistSource(M, X);
    if T.Err? then Err(T.error)
    else
      var cpts := EvComponents(M, X);
      if cpts.Err? then Err(cpts.error)
      else Cone(A8ModuleMap(T.value, M, 0, cpts.value))
  }

  /** `M.twist(X)`: the cone on ev, simplified. */
  function Twist(M: A8Module, X: Key): (r: Result<A8Module>)
    ensures X !in M.cat.objects ==> r == Err(ValueError)
  {
    var C := TwistCone(M, X);
    if C.Err? then Err(C.error) else SimplifySpec(C.value)
  }

  /** The fibre of M(X) (x) yoneda(X) at Y has dimension
      dim M[X] * dim A[(Y, X)], the second factor counted only for objects. */
  lemma TwistSourceFibre(M: A8Module, X: Key, Y: Key)
    requires TwistSource(M, X).Ok?
    ensures Dim(ModGet(TwistSource(M, X).value, Y)) ==
      Dim(ModGet(M, X)) * (if Y in M.cat.objects then Dim(Morphisms(M.cat, Y, X)) else 0)
  {
    var Yon := Yoneda(M.cat, X).value;
    ComplexOtimesFibres(Cpx(M, X), Yon, Y);
    YonedaFibre(M.cat, X, Y);
  }

  lemma YonedaFibre(A: A8Category, Q: Key, Y: Key)
    requires Yoneda(A, Q).Ok?
    ensures Dim(ModGet(Yoneda(A, Q).value, Y)) == if Y in A.objects then Dim(Morphisms(A, Y, Q)) else 0
  {
  }

  /** The fibres of the cone: M(X) (x) yoneda(X) shifted down by one, plus M. */
  lemma TwistConeFibre(M: A8Module, X: Key, Y: Key, d: int)
    requires TwistCone(M, X).Ok? && Y in TwistCone(M, X).value.modules
    ensures Dim(ModGet(TwistCone(M, X).value, Y)) == Dim(ModGet(TwistSource(M, X).value, Y)) + Dim(ModGet(M, Y))
    ensures GrDimAt(ModGet(TwistCone(M, X).value, Y), d) ==
      GrDimAt(ModGet(TwistSource(M, X).value, Y), d + 1) + GrDimAt(ModGet(M, Y), d)
  {
    TwistConeUnfold(M, X);
    ConeFibres(A8ModuleMap(TwistSource(M, X).value, M, 0, EvComponents(M, X).value), Y, d);
  }

  lemma TwistConeUnfold(M: A8Module, X: Key)
    requires TwistCone(M, X).Ok?
    ensures TwistSource(M, X).Ok? && EvComponents(M, X).Ok?
    ensures TwistCone(M, X) == Cone(A8ModuleMap(TwistSource(M, X).value, M, 0, EvComponents(M, X).value))
  {
  }

  /** The dimension count of the exact triangle M(X) (x) yoneda(X) -> M ->
      twist: over every key Y of the twist, dim twist[Y] is
      dim M[X] * dim A[(Y, X)] + dim M[Y], and in each degree d the twist
      has the degree d + 1 part of M(X) (x) yoneda(X) plus that of M. */
  lemma TwistFibres(M: A8Module, X: Key, Y: Key, d: int)
    requires Twist(M, X).Ok? && Y in Twist(M, X).value.modules
    ensures Dim(Twist(M, X).value.modules[Y]) ==
      Dim(ModGet(M, X)) * (if Y in M.cat.objects then Dim(Morphisms(M.cat, Y, X)) else 0) + Dim(ModGet(M, Y))
    ensures GrDimAt(Twist(M, X).value.modules[Y], d) ==
      GrDimAt(ModGet(TwistSource(M, X).value, Y), d + 1) + GrDimAt(ModGet(M, Y), d)
  {
    SimplifiedFibres(TwistCone(M, X).value, Y, d);
    TwistConeFibre(M, X, Y, d);
    TwistSourceFibre(M, X, Y);
  }
}
