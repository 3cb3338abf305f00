/** The A∞ layer of `a_infinity.py`: categories whose operations are linear
    maps indexed by words of objects, and the cochain complexes whose
    cohomology the modules are measured by. A word `(X_0, ..., X_d)` is a
    sequence of keys; dicts keyed by words are walked in the order of the
    words as tuple keys.
 */
module AInfinity {
  import opened Wrappers
  import opened Keys
  import opened Fields
  import opened Spaces
  import opened Vectors
  import opened LinearMaps
  import opened Elimination

  type Word = seq<Key>

  datatype A8Category = A8Category(
    field: Field,
    objects: set<Key>,
    morphisms: map<(Key, Key), VectorSpace>,
    operations: map<Word, LinearMap>)

  datatype CochainComplex = CochainComplex(cochains: VectorSpace, differential: LinearMap)

  // ----- walking sets of words and degrees in order -----

  /** The words of a set, ordered as the tuple keys they are in Python. */
  function WordList(ws: set<Word>): (l: seq<Word>)
    ensures (set w | w in l) == ws
  {
    var ks := SortedKeys(set w | w in ws :: KTup(w));
    var l := seq(|ks|, n requires 0 <= n < |ks| => ElemsOf(ks[n]));
    WordListMembers(ws, ks, l);
    l
  }

  lemma WordListMembers(ws: set<Word>, ks: seq<Key>, l: seq<Word>)
    requires forall k :: k in ks <==> k in (set w | w in ws :: KTup(w))
    requires |l| == |ks| && forall n | 0 <= n < |ks| :: l[n] == ElemsOf(ks[n])
    ensures (set w | w in l) == ws
  {
    forall w | w in ws ensures w in l {
      assert KTup(w) in ks;
      var n :| 0 <= n < |ks| && ks[n] == KTup(w);
      assert l[n] == w;
    }
    forall w | w in l ensures w in ws {
      var n :| 0 <= n < |l| && l[n] == w;
      assert ks[n] in ks;
    }
  }

  /** The words of ws that end in Q, with Q dropped: `word[:-1]` over the
      words with `word[-1] == Q`. */
  function Prefixes(ws: set<Word>, Q: Key): (ps: set<Word>)
    ensures forall p :: p in ps <==> p + [Q] in ws
  {
    var ps := set w | w in ws && |w| > 0 && w[|w| - 1] == Q :: w[..|w| - 1];
    PrefixesMembers(ws, Q, ps);
    ps
  }

  lemma PrefixesMembers(ws: set<Word>, Q: Key, ps: set<Word>)
    requires ps == set w | w in ws && |w| > 0 && w[|w| - 1] == Q :: w[..|w| - 1]
    ensures forall p :: p in ps <==> p + [Q] in ws
  {
    forall p | p in ps ensures p + [Q] in ws {
      var w :| w in ws && |w| > 0 && w[|w| - 1] == Q && p == w[..|w| - 1];
      assert w == p + [Q];
    }
    forall p | p + [Q] in ws ensures p in ps {
      var w := p + [Q];
      assert w[..|w| - 1] == p;
    }
  }

  // ----- A8Category: lookups, hom and mu -----

  /** `A[(X, Y)]`: the stored space, or an empty space over A's field. */
  function Morphisms(A: A8Category, X: Key, Y: Key): (V: VectorSpace)
    ensures (X, Y) in A.morphisms ==> V == A.morphisms[(X, Y)]
    ensures (X, Y) !in A.morphisms ==> V == EmptySpace(A.field) && Dim(V) == 0
  {
    if (X, Y) in A.morphisms then A.morphisms[(X, Y)] else EmptySpace(A.field)
  }

  /** The factors `hom` tensors, in the order its loop leaves them. */
  function HomFactors(A: A8Category, word: Word): (fs: seq<VectorSpace>)
    ensures |fs| == if |word| == 0 then 0 else |word| - 1
  {
    if |word| <= 1 then [] else FirstFactors(A, word, |word| - 1)
  }

  /** The factors the loop of `hom` has prepended after its first i steps:
      A[(X_{i-1}, X_i)], ..., A[(X_0, X_1)]. */
  function FirstFactors(A: A8Category, word: Word, i: nat): (fs: seq<VectorSpace>)
    requires i < |word| || i == 0
    ensures |fs| == i
  {
    seq(i, n requires 0 <= n < i => Morphisms(A, word[i - 1 - n], word[i - n]))
  }

  /** One more step of the loop prepends the next morphism space. */
  lemma FirstFactorsStep(A: A8Category, word: Word, i: nat)
    requires i + 1 < |word|
    ensures FirstFactors(A, word, i + 1) == [Morphisms(A, word[i], word[i + 1])] + FirstFactors(A, word, i)
  {
    var fs, gs := FirstFactors(A, word, i + 1), [Morphisms(A, word[i], word[i + 1])] + FirstFactors(A, word, i);
    forall n | 0 <= n < i + 1 ensures fs[n] == gs[n] {
      if n > 0 {
        assert gs[n] == FirstFactors(A, word, i)[n - 1];
      }
    }
  }

  /** `A.hom(X_0, ..., X_d)` = A[(X_{d-1}, X_d)] (x) ... (x) A[(X_0, X_1)]:
      a word of fewer than two objects has no factor, so `tensor()` raises
      IndexError; two objects give their morphism space itself. */
  function HomSpec(A: A8Category, word: Word): (r: Result<VectorSpace>)
    ensures |word| <= 1 ==> r == Err(IndexError)
    ensures |word| == 2 ==> r == Ok(Morphisms(A, word[0], word[1]))
    ensures |word| > 2 ==> (r.Ok? <==> forall n | 0 <= n < |word| - 1 :: HomFactors(A, word)[n].field == HomFactors(A, word)[0].field)
  {
    Spaces.Tensor(HomFactors(A, word))
  }

  /** The factor list is reversed: its first factor is the last morphism
      space of the word and its last is the first. */
  lemma HomReversed(A: A8Category, word: Word)
    requires |word| >= 2
    ensures HomFactors(A, word)[0] == Morphisms(A, word[|word| - 2], word[|word| - 1])
    ensures HomFactors(A, word)[|word| - 2] == Morphisms(A, word[0], word[1])
  {
  }

  /** For three objects X, Y, Z the space is A[(Y, Z)] (x) A[(X, Y)], whose
      dimension is the product. */
  lemma HomOfThree(A: A8Category, X: Key, Y: Key, Z: Key)
    requires Morphisms(A, Y, Z).field == Morphisms(A, X, Y).field
    ensures HomSpec(A, [X, Y, Z]) == Spaces.Tensor([Morphisms(A, Y, Z), Morphisms(A, X, Y)])
    ensures Dim(HomSpec(A, [X, Y, Z]).value) == Dim(Morphisms(A, Y, Z)) * Dim(Morphisms(A, X, Y))
  {
    assert HomFactors(A, [X, Y, Z]) == [Morphisms(A, Y, Z), Morphisms(A, X, Y)];
    DimOtimes(Morphisms(A, Y, Z), Morphisms(A, X, Y));
  }

  /** `A.hom(*word)`: the loop prepends A[(X_i, X_{i+1})] for i = 0 .. d-1. */
  method Hom(A: A8Category, word: Word) returns (r: Result<VectorSpace>)
    ensures r == HomSpec(A, word)
  {
    var d := |word| - 1;
    var factors: seq<VectorSpace> := [];
    var i := 0;
    while i < d
      invariant 0 <= i && (i <= d || i == 0)
      invariant factors == FirstFactors(A, word, i)
    {
      FirstFactorsStep(A, word, i);
      factors := [Morphisms(A, word[i], word[i + 1])] + factors;
      i := i + 1;
    }
    assert factors == HomFactors(A, word);
    r := Spaces.Tensor(factors);
  }

  /** `A.mu(*word)`: the stored operation, or else the zero map from
      `hom(word)` to A[(X_0, X_d)] of degree 2 - d, d = len(word) - 1. */
  function Mu(A: A8Category, word: Word): (r: Result<LinearMap>)
    ensures word in A.operations ==> r == Ok(A.operations[word])
    ensures word !in A.operations ==> (r.Ok? <==> HomSpec(A, word).Ok?)
    ensures word !in A.operations && r.Ok? ==> |word| >= 2 && r.value.source == HomSpec(A, word).value
    ensures word !in A.operations && r.Ok? ==> r.value.target == Morphisms(A, word[0], word[|word| - 1])
    ensures word !in A.operations && r.Ok? ==> r.value.deg == 3 - |word| && IsZeroMap(r.value)
  {
    if word in A.operations then Ok(A.operations[word])
    else
      var H := HomSpec(A, word);
      if H.Err? then Err(H.error)
      else Ok(LinearMap(H.value, Morphisms(A, word[0], word[|word| - 1]), 3 - |word|, map[]))
  }

  /** An operation that is not stored sends every vector it accepts to zero. */
  lemma MuUnstoredIsZero(A: A8Category, word: Word, v: Vector)
    requires word !in A.operations && Mu(A, word).Ok? && Applicable(Mu(A, word).value, v)
    ensures EvalSpec(Mu(A, word).value, v) == Ok(ZeroVector(Morphisms(A, word[0], word[|word| - 1])))
  {
    ZeroMapEval(Mu(A, word).value, v);
  }

  // ----- A8Category.verify: the degree check and the super-words -----

  /** Every stored operation on a word of length L has degree 3 - L. */
  predicate DegreesRight(A: A8Category) {
    forall w | w in A.operations :: A.operations[w].deg == 3 - |w|
  }

  /** `(outer[k], outer[k+1])` is the pair of endpoints of inner. */
  predicate Fits(inner: Word, outer: Word, k: nat) {
    |inner| > 0 && k + 1 < |outer| && outer[k] == inner[0] && outer[k + 1] == inner[|inner| - 1]
  }

  /** `outer[:k] + inner + outer[k+2:]` */
  function Splice(inner: Word, outer: Word, k: nat): Word
    requires k + 1 < |outer|
  {
    outer[..k] + inner + outer[k + 2..]
  }

  /** The splices of inner into outer at the positions below k. */
  function SplicesBelow(inner: Word, outer: Word, k: nat): set<Word> {
    set j: nat | j < k && j + 1 < |outer| && Fits(inner, outer, j) :: Splice(inner, outer, j)
  }

  /** The super-words of inner inside one outer word. */
  function Splices(inner: Word, outer: Word): set<Word> {
    SplicesBelow(inner, outer, |outer|)
  }

  function OuterSplices(inner: Word, outers: seq<Word>): set<Word>
    decreases |outers|
  {
    if outers == [] then {}
    else OuterSplices(inner, outers[..|outers| - 1]) + Splices(inner, outers[|outers| - 1])
  }

  function AllSplices(inners: seq<Word>, outers: seq<Word>): set<Word>
    decreases |inners|
  {
    if inners == [] then {}
    else AllSplices(inners[..|inners| - 1], outers) + OuterSplices(inners[|inners| - 1], outers)
  }

  /** The set `verify` collects in `super_words`. */
  function SuperWords(A: A8Category): set<Word> {
    var ws := WordList(A.operations.Keys);
    AllSplices(ws, ws)
  }

  lemma {:induction false} OuterSplicesMembers(inner: Word, outers: seq<Word>, w: Word)
    decreases |outers|
    ensures w in OuterSplices(inner, outers) <==>
      exists outer, k: nat | outer in outers && k + 1 < |outer| :: Fits(inner, outer, k) && w == Splice(inner, outer, k)
  {
    if outers != [] {
      var pre := outers[..|outers| - 1];
      var last := outers[|outers| - 1];
      OuterSplicesMembers(inner, pre, w);
      assert outers == pre + [last];
      if exists outer, k: nat | outer in outers && k + 1 < |outer| :: Fits(inner, outer, k) && w == Splice(inner, outer, k) {
        var outer, k: nat :| outer in outers && k + 1 < |outer| && Fits(inner, outer, k) && w == Splice(inner, outer, k);
        if outer != last {
          assert outer in pre;
        }
      }
    }
  }

  lemma {:induction false} AllSplicesMembers(inners: seq<Word>, outers: seq<Word>, w: Word)
    decreases |inners|
    ensures w in AllSplices(inners, outers) <==>
      exists inner, outer, k: nat | inner in inners && outer in outers && k + 1 < |outer| :: Fits(inner, outer, k) && w == Splice(inner, outer, k)
  {
    if inners != [] {
      var pre := inners[..|inners| - 1];
      var last := inners[|inners| - 1];
      AllSplicesMembers(pre, outers, w);
      OuterSplicesMembers(last, outers, w);
      assert inners == pre + [last];
      if exists inner, outer, k: nat | inner in inners && outer in outers && k + 1 < |outer| :: Fits(inner, outer, k) && w == Splice(inner, outer, k) {
        var inner, outer, k: nat :| inner in inners && outer in outers && k + 1 < |outer| && Fits(inner, outer, k) && w == Splice(inner, outer, k);
        if inner != last {
          assert inner in pre;
        }
      }
    }
  }

  /** A super-word is exactly a splice of one stored word into another, at a
      position where the outer word passes through the inner one's
      endpoints. */
  lemma SuperWordsMembers(A: A8Category, w: Word)
    ensures w in SuperWords(A) <==>
      exists inner, outer, k: nat | inner in A.operations && outer in A.operations && k + 1 < |outer| ::
        Fits(inner, outer, k) && w == Splice(inner, outer, k)
  {
    var ws := WordList(A.operations.Keys);
    AllSplicesMembers(ws, ws, w);
    assert forall u :: u in ws <==> u in A.operations by {
      forall u ensures u in ws <==> u in A.operations {
        assert u in ws <==> u in (set u | u in ws);
      }
    }
  }

  /** A splice is `len(outer) + len(inner) - 2` long and has outer's first
      and last objects. */
  lemma SpliceShape(inner: Word, outer: Word, k: nat)
    requires k + 1 < |outer| && Fits(inner, outer, k)
    ensures |Splice(inner, outer, k)| == |outer| + |inner| - 2
    ensures Splice(inner, outer, k)[0] == outer[0]
    ensures Splice(inner, outer, k)[|Splice(inner, outer, k)| - 1] == outer[|outer| - 1]
  {
  }

  /** Every super-word has the length and the ends that make it a word the
      A∞ equation for outer can be checked on; in particular it is never
      the empty tuple. */
  lemma SuperWordShape(A: A8Category, w: Word)
    requires w in SuperWords(A)
    ensures exists inner, outer | inner in A.operations && outer in A.operations ::
      && |outer| >= 2 && |inner| >= 1
      && |w| == |outer| + |inner| - 2 && |w| > 0 && w[0] == outer[0] && w[|w| - 1] == outer[|outer| - 1]
  {
    SuperWordsMembers(A, w);
    var inner, outer, k: nat :| inner in A.operations && outer in A.operations && k + 1 < |outer| &&
      Fits(inner, outer, k) && w == Splice(inner, outer, k);
    SpliceShape(inner, outer, k);
  }

  lemma SplicesBelowStep(inner: Word, outer: Word, k: nat)
    ensures SplicesBelow(inner, outer, k + 1) ==
      SplicesBelow(inner, outer, k) + (if k + 1 < |outer| && Fits(inner, outer, k) then {Splice(inner, outer, k)} else {})
  {
  }

  /** The loop over `enumerate(outer_op)`; the last pair's splice has no tail. */
  method SplicesOf(inner: Word, outer: Word) returns (s: set<Word>)
    requires inner != []
    ensures s == Splices(inner, outer)
  {
    s := {};
    var k := 0;
    while k < |outer|
      invariant 0 <= k <= |outer|
      invariant s == SplicesBelow(inner, outer, k)
    {
      SplicesBelowStep(inner, outer, k);
      if k < |outer| - 1 && outer[k] == inner[0] && outer[k + 1] == inner[|inner| - 1] {
        if k + 2 < |outer| {
          s := s + {outer[..k] + inner + outer[k + 2..]};
        } else {
          assert outer[k + 2..] == [];
          assert Splice(inner, outer, k) == outer[..k] + inner;
          s := s + {outer[..k] + inner};
        }
      }
      k := k + 1;
    }
  }

  /** The loop over `outer_op` for one inner word. */
  method OuterLoop(inner: Word, outers: seq<Word>) returns (s: set<Word>)
    requires inner != []
    ensures s == OuterSplices(inner, outers)
  {
    s := {};
    var b := 0;
    while b < |outers|
      invariant 0 <= b <= |outers|
      invariant s == OuterSplices(inner, outers[..b])
    {
      var t := SplicesOf(inner, outers[b]);
      assert outers[..b + 1][..b] == outers[..b];
      s := s + t;
      b := b + 1;
    }
    assert outers[..b] == outers;
  }

  /** The first loop of `verify`: False at the first wrong degree. */
  method DegreesCheck(A: A8Category, ws: seq<Word>) returns (ok: bool)
    requires (set w | w in ws) == A.operations.Keys
    ensures ok == DegreesRight(A)
  {
    var i := 0;
    while i < |ws|
      invariant 0 <= i <= |ws|
      invariant forall j | 0 <= j < i :: A.operations[ws[j]].deg == 3 - |ws[j]|
    {
      if A.operations[ws[i]].deg != 3 - |ws[i]| {
        return false;
      }
      i := i + 1;
    }
    forall w | w in A.operations ensures A.operations[w].deg == 3 - |w| {
      assert w in (set w | w in ws);
      var j :| 0 <= j < |ws| && ws[j] == w;
    }
    return true;
  }

  /** The nested loops over `inner_op` and `outer_op`; an empty inner
      word raises IndexError at `inner_op[0]`. */
  method SpliceAll(ws: seq<Word>) returns (r: Result<set<Word>>)
    ensures [] in ws ==> r == Err(IndexError)
    ensures [] !in ws ==> r == Ok(AllSplices(ws, ws))
  {
    var superWords := {};
    var a := 0;
    while a < |ws|
      invariant 0 <= a <= |ws|
      invariant superWords == AllSplices(ws[..a], ws)
      invariant [] !in ws[..a]
    {
      if ws[a] == [] {
        return Err(IndexError);
      }
      var s := OuterLoop(ws[a], ws);
      assert ws[..a + 1] == ws[..a] + [ws[a]];
      superWords := superWords + s;
      a := a + 1;
    }
    assert ws[..a] == ws;
    return Ok(superWords);
  }

  /** `verify` up to the checks of the A∞ equations: ValueError for a
      stored operation of the wrong degree; then the nested loops collect
      the super-words, and an empty word among the operations raises
      IndexError. */
  method CollectSuperWords(A: A8Category) returns (r: Result<set<Word>>)
    ensures !DegreesRight(A) ==> r == Err(ValueError)
    ensures DegreesRight(A) && [] in A.operations ==> r == Err(IndexError)
    ensures DegreesRight(A) && [] !in A.operations ==> r == Ok(SuperWords(A))
  {
    var ws := WordList(A.operations.Keys);
    var ok := DegreesCheck(A, ws);
    if !ok {
      return Err(ValueError);
    }
    assert [] in ws <==> [] in A.operations by {
      assert [] in ws <==> [] in (set w | w in ws);
    }
    r := SpliceAll(ws);
  }

  /** `all(truth_dictionary)` as written: `all` of a dict walks its keys,
      and a tuple is true when it is not empty. */
  predicate AllKeysTruthy(truth: map<Word, bool>) {
    forall w | w in truth :: w != []
  }

  /** What the final test evidently means: every check came out true. */
  predicate AllChecksPass(truth: map<Word, bool>) {
    forall w | w in truth :: truth[w]
  }

  /** `A.verify()` as written. `check_word` is the parameter check; every
      super-word is non-empty, so the final test passes whatever the
      checks say. */
  method CategoryVerify(A: A8Category, check: Word -> bool) returns (r: Result<bool>)
    ensures !DegreesRight(A) ==> r == Err(ValueError)
    ensures DegreesRight(A) && [] in A.operations ==> r == Err(IndexError)
    ensures DegreesRight(A) && [] !in A.operations ==> r == Ok(true)
  {
    var s := CollectSuperWords(A);
    if s.Err? {
      return Err(s.error);
    }
    var truth := map w | w in s.value :: check(w);
    forall w | w in truth ensures w != [] {
      SuperWordShape(A, w);
    }
    if !AllKeysTruthy(truth) {
      return Err(ValueError);
    }
    return Ok(true);
  }

  /** One basis key 0 in degree 0 over a field K. */
  function LineSpace(K: Field): VectorSpace {
    VectorSpace(K, map[KInt(0) := 0])
  }

  /** The category with the single object X, hom(X, X) the line over K and
      one operation on (X, X): the identity of the line, given degree 1. */
  function LineCategory(K: Field, X: Key): A8Category {
    A8Category(K, {X}, map[(X, X) := LineSpace(K)], map[[X, X] := Id(LineSpace(K)).(deg := 1)])
  }

  /** For the word (X, X) of `LineCategory`, `check_word` adds the one term
      mu(X, X) o mu(X, X) to the zero map `LinearMap(hom(X, X), A[(X, X)], 2)`
      and compares the sum with that zero map (`LineSquareNonzero`). */
  lemma LineCheckWord(K: Field, X: Key)
    ensures var A := LineCategory(K, X);
      HomSpec(A, [X, X]) == Ok(LineSpace(K)) && Morphisms(A, X, X) == LineSpace(K) && Mu(A, [X, X]) == Ok(Id(LineSpace(K)).(deg := 1))
  {
  }

  /** On the line, m = id of degree 1 has m o m sending e_0 to e_0, so the
      sum `check_word` forms is not the zero map and the check is False. */
  lemma LineSquareNonzero(K: Field)
    requires NonTrivial(K)
    ensures var V := LineSpace(K);
      var m := Id(V).(deg := 1);
      var zero := LinearMap(V, V, 2, map[]);
      && Circ(m, m).Ok? && LinearMaps.Add(zero, Circ(m, m).value).Ok?
      && LinearMaps.Eq(LinearMaps.Add(zero, Circ(m, m).value).value, zero) == Ok(false)
  {
    var V := LineSpace(K);
    var m := Id(V).(deg := 1);
    var zero := LinearMap(V, V, 2, map[]);
    var e := BasisVector(V, KInt(0));
    IdWellFormed(V);
    assert WellFormed(m);
    CircColumns(m, m, KInt(0));
    EvalBasis(m, KInt(0));
    var mm := Circ(m, m).value;
    assert Column(mm, KInt(0)) == e;
    SumWithZero(V, mm, e);
  }

  /** The zero map of degree 2 plus a well-formed map whose column at 0 is
      e_0 is not the zero map. */
  lemma SumWithZero(V: VectorSpace, mm: LinearMap, e: Vector)
    requires V == LineSpace(V.field) && NonTrivial(V.field) && e == BasisVector(V, KInt(0))
    requires WellFormed(mm) && mm.source == V && mm.target == V && mm.deg == 2 && Column(mm, KInt(0)) == e
    ensures var zero := LinearMap(V, V, 2, map[]);
      LinearMaps.Add(zero, mm).Ok? && LinearMaps.Eq(LinearMaps.Add(zero, mm).value, zero) == Ok(false)
  {
    var K := V.field;
    var zero := LinearMap(V, V, 2, map[]);
    assert Summable(zero, mm);
    AddColumns(zero, mm, KInt(0));
    AddWellFormed(zero, mm);
    var s := LinearMaps.Add(zero, mm).value;
    FromIntInField(K, 1);
    Vectors.AddComponents(ZeroVector(V), e, KInt(0));
    Fields.ZeroAdd(FromInt(K, 1));
    OneIsNotZero(K);
    assert Get(Column(s, KInt(0)), KInt(0)) == FromInt(K, 1);
    assert Get(Column(zero, KInt(0)), KInt(0)) == FromInt(K, 0);
    LinearMaps.EqMeaning(s, zero);
  }

  /** 1 and 0 are different numbers of a field in which 1 is not 0. */
  lemma OneIsNotZero(K: Field)
    requires NonTrivial(K)
    ensures FromInt(K, 1) != FromInt(K, 0)
  {
    OneNonzero(K);
    FromIntInField(K, 1);
    IsZeroMeaning(FromInt(K, 1));
  }

  /** A check that fails on a super-word does not make `verify` fail: in
      `LineCategory`, (X, X) is a super-word whose `check_word` is False
      (`LineCheckWord`, `LineSquareNonzero`), and still every key of the truth dictionary is
      truthy, so `verify` returns True, while not every check passes. */
  lemma VerifyIgnoresChecks(K: Field, X: Key)
    requires NonTrivial(K)
    ensures var A := LineCategory(K, X);
      var truth := map w | w in SuperWords(A) :: w != [X, X];
      && [X, X] in SuperWords(A)
      && DegreesRight(A) && [] !in A.operations
      && !AllChecksPass(truth)
      && AllKeysTruthy(truth)
  {
    var A := LineCategory(K, X);
    var truth := map w | w in SuperWords(A) :: w != [X, X];
    assert Splice([X, X], [X, X], 0) == [X, X];
    SuperWordsMembers(A, [X, X]);
    assert A.operations[[X, X]].deg == 1;
    assert DegreesRight(A);
    assert truth[[X, X]] == false;
    forall w | w in SuperWords(A) ensures w != [] {
      SuperWordShape(A, w);
    }
  }

  /** `A.verify()` with the final test on the results of the checks, as
      the error message says: True exactly when every super-word passes
      its check. */
  method CategoryVerifyIntended(A: A8Category, check: Word -> bool) returns (r: Result<bool>)
    ensures !DegreesRight(A) ==> r == Err(ValueError)
    ensures DegreesRight(A) && [] in A.operations ==> r == Err(IndexError)
    ensures DegreesRight(A) && [] !in A.operations ==>
      r == if forall w | w in SuperWords(A) :: check(w) then Ok(true) else Err(ValueError)
  {
    var s := CollectSuperWords(A);
    if s.Err? {
      return Err(s.error);
    }
    var words := s.value;
    var truth := map w | w in words :: check(w);
    assert AllChecksPass(truth) <==> forall w | w in words :: check(w) by {
      assert forall w | w in words :: truth[w] == check(w);
    }
    if !AllChecksPass(truth) {
      return Err(ValueError);
    }
    return Ok(true);
  }

  // ----- Yoneda modules -----

  datatype A8Module = A8Module(cat: A8Category, modules: map<Key, VectorSpace>, operations: map<Word, LinearMap>)

  /** `A.yoneda(Q)`: ValueError unless Q is an object; the fibre over X is
      A[(X, Q)] where that is stored, and the operation on a word is the
      category's operation on the word followed by Q. */
  function Yoneda(A: A8Category, Q: Key): (r: Result<A8Module>)
    ensures Q !in A.objects ==> r == Err(ValueError)
    ensures Q in A.objects && [] in A.operations ==> r == Err(IndexError)
    ensures r.Ok? ==> r.value.cat == A
    ensures r.Ok? ==> forall X :: X in r.value.modules <==> X in A.objects && (X, Q) in A.morphisms
    ensures r.Ok? ==> forall X | X in r.value.modules :: r.value.modules[X] == A.morphisms[(X, Q)]
    ensures r.Ok? ==> forall p :: p in r.value.operations <==> p + [Q] in A.operations
    ensures r.Ok? ==> forall p | p in r.value.operations :: r.value.operations[p] == A.operations[p + [Q]]
  {
    if Q !in A.objects then Err(ValueError)
    else if [] in A.operations then Err(IndexError)
    else
      var ps := Prefixes(A.operations.Keys, Q);
      Ok(A8Module(A,
        map X | X in A.objects && (X, Q) in A.morphisms :: A.morphisms[(X, Q)],
        map p | p in ps :: A.operations[p + [Q]]))
  }

  // ----- CochainComplex -----

  /** Two members of a one-element set are equal. */
  lemma OnlyMember(s: set<int>, n: int, d: int)
    requires |s| == 1 && n in s && d in s
    ensures d == n
  {
    assert |s - {n}| == 0;
    assert s - {n} == {};
  }

  /** A space concentrated in one degree is its own graded piece. */
  lemma SinglePiece(V: VectorSpace, n: int)
    requires n in GrDim(V) && |GrDim(V).Keys| == 1
    ensures GradedPieces(V)[n].basis.Keys == V.basis.Keys
  {
    var g := GrDim(V);
    forall i | i in V.basis ensures i in GradedPieces(V)[n].basis {
      assert V.basis[i] in g;
      OnlyMember(g.Keys, n, V.basis[i]);
    }
  }

  /** n |-> d.restrict(G[n]) */
  function RestrictTo(d: LinearMap, G: map<int, VectorSpace>): int -> Result<LinearMap> {
    n => if n in G then Restrict(d, G[n]) else Err(KeyError)
  }

  /** For every degree n recorded, the nullity, rank, kernel list and
      image list are what `ker_im` gives for d_n (`KerImOf`). */
  ghost predicate KerImsOf(graded: map<int, LinearMap>, kernels: map<int, nat>, images: map<int, nat>, kvecs: map<int, seq<Vector>>, ivecs: map<int, seq<Vector>>) {
    && kernels.Keys <= graded.Keys && images.Keys == kernels.Keys && kvecs.Keys == kernels.Keys && ivecs.Keys == kernels.Keys
    && forall n | n in kernels :: KerImOf(graded[n], kernels[n], images[n], kvecs[n], ivecs[n])
  }

  /** Recording `ker_im`'s results for one more degree. */
  lemma KerImsStep(graded: map<int, LinearMap>, kernels: map<int, nat>, images: map<int, nat>, kvecs: map<int, seq<Vector>>, ivecs: map<int, seq<Vector>>,
                   n: int, nullity: nat, rank: nat, ker: seq<Vector>, im: seq<Vector>)
    requires KerImsOf(graded, kernels, images, kvecs, ivecs)
    requires n in graded && KerImOf(graded[n], nullity, rank, ker, im)
    ensures KerImsOf(graded, kernels[n := nullity], images[n := rank], kvecs[n := ker], ivecs[n := im])
  {
    var k', i', kv', iv' := kernels[n := nullity], images[n := rank], kvecs[n := ker], ivecs[n := im];
    KerImsStepAt(graded, kernels, images, kvecs, ivecs, n, nullity, rank, ker, im, k', i', kv', iv');
  }

  /** The four maps of `KerIms` keep one key set when a degree is added. */
  lemma KeysStep(graded: map<int, LinearMap>, kernels: map<int, nat>, images: map<int, nat>, kvecs: map<int, seq<Vector>>, ivecs: map<int, seq<Vector>>,
                 n: int, nullity: nat, rank: nat, ker: seq<Vector>, im: seq<Vector>)
    requires kernels.Keys <= graded.Keys && images.Keys == kernels.Keys && kvecs.Keys == kernels.Keys && ivecs.Keys == kernels.Keys
    requires n in graded
    ensures kernels[n := nullity].Keys == kernels.Keys + {n} <= graded.Keys
    ensures images[n := rank].Keys == kvecs[n := ker].Keys == ivecs[n := im].Keys == kernels[n := nullity].Keys
  {
  }

  /** The degrees of `KerImsStep` one by one: n has the new results, every
      other degree keeps its old ones. */
  lemma KerImsStepAt(graded: map<int, LinearMap>, kernels: map<int, nat>, images: map<int, nat>, kvecs: map<int, seq<Vector>>, ivecs: map<int, seq<Vector>>,
                     n: int, nullity: nat, rank: nat, ker: seq<Vector>, im: seq<Vector>,
                     k': map<int, nat>, i': map<int, nat>, kv': map<int, seq<Vector>>, iv': map<int, seq<Vector>>)
    requires KerImsOf(graded, kernels, images, kvecs, ivecs)
    requires n in graded && KerImOf(graded[n], nullity, rank, ker, im)
    requires k' == kernels[n := nullity] && i' == images[n := rank] && kv' == kvecs[n := ker] && iv' == ivecs[n := im]
    ensures k'.Keys <= graded.Keys && i'.Keys == k'.Keys && kv'.Keys == k'.Keys && iv'.Keys == k'.Keys
    ensures forall m | m in k' :: KerImOf(graded[m], k'[m], i'[m], kv'[m], iv'[m])
  {
    KeysStep(graded, kernels, images, kvecs, ivecs, n, nullity, rank, ker, im);
    forall m | m in k' ensures KerImOf(graded[m], k'[m], i'[m], kv'[m], iv'[m]) {
      if m != n {
        assert k'[m] == kernels[m] && i'[m] == images[m] && kv'[m] == kvecs[m] && iv'[m] == ivecs[m];
      }
    }
  }

  /** The first loop of `cohomology`: nullity and rank of each d_n, with
      the kernel and image lists `ker_im` found for it. */
  method KerIms(graded: map<int, LinearMap>, ds: seq<int>) returns (r: Result<(map<int, nat>, map<int, nat>)>, kvecs: map<int, seq<Vector>>, ivecs: map<int, seq<Vector>>)
    requires forall n | n in ds :: n in graded
    ensures r.Ok? ==> r.value.0.Keys == (set n | n in ds)
    ensures r.Ok? ==> KerImsOf(graded, r.value.0, r.value.1, kvecs, ivecs)
  {
    var kernels: map<int, nat>, images: map<int, nat> := map[], map[];
    kvecs, ivecs := map[], map[];
    var i := 0;
    while i < |ds|
      invariant 0 <= i <= |ds|
      invariant kernels.Keys == (set j | 0 <= j < i :: ds[j])
      invariant KerImsOf(graded, kernels, images, kvecs, ivecs)
    {
      var n := ds[i];
      var k, ker, im := KerIm(graded[n]);
      if k.Err? {
        return Err(k.error), kvecs, ivecs;
      }
      assert (set j | 0 <= j < i + 1 :: ds[j]) == (set j | 0 <= j < i :: ds[j]) + {n};
      KerImsStep(graded, kernels, images, kvecs, ivecs, n, k.value.0, k.value.1, ker, im);
      kernels := kernels[n := k.value.0];
      images := images[n := k.value.1];
      kvecs := kvecs[n := ker];
      ivecs := ivecs[n := im];
      i := i + 1;
    }
    assert (set j | 0 <= j < |ds| :: ds[j]) == set n | n in ds;
    return Ok((kernels, images)), kvecs, ivecs;
  }

  /** `kernels[n] - images[n-1]`, or `kernels[n]` when n - 1 is no degree. */
  function CohomAt(kernels: map<int, nat>, images: map<int, nat>, n: int): int
    requires n in kernels && images.Keys == kernels.Keys
  {
    kernels[n] as int - (if n - 1 in kernels then images[n - 1] else 0)
  }

  /** The second loop of `cohomology`: H^n = nullity(d_n) - rank(d_{n-1}),
      the rank counted only when n - 1 is a degree. */
  method CohomFrom(kernels: map<int, nat>, images: map<int, nat>, ds: seq<int>) returns (cohom: map<int, int>)
    requires kernels.Keys == (set n | n in ds) && images.Keys == kernels.Keys
    ensures cohom.Keys == kernels.Keys
    ensures forall n | n in cohom :: cohom[n] == CohomAt(kernels, images, n)
  {
    cohom := map[];
    var i := 0;
    while i < |ds|
      invariant 0 <= i <= |ds|
      invariant cohom.Keys == set j | 0 <= j < i :: ds[j]
      invariant cohom.Keys <= kernels.Keys
      invariant forall n | n in cohom :: cohom[n] == CohomAt(kernels, images, n)
    {
      var n := ds[i];
      assert (set j | 0 <= j < i + 1 :: ds[j]) == (set j | 0 <= j < i :: ds[j]) + {n};
      var h: int := kernels[n];
      if n - 1 in kernels {
        h := h - images[n - 1];
      }
      cohom := cohom[n := h];
      i := i + 1;
    }
    assert (set j | 0 <= j < |ds| :: ds[j]) == set n | n in ds;
  }

  /** When the differential's source is the cochain space and that space is
      concentrated in one degree, the only restriction asked for is to the
      whole source, which `restrict` refuses. */
  lemma SingleDegreeFails(Z: CochainComplex, ds: seq<int>)
    requires (set n | n in ds) == GradedPieces(Z.cochains).Keys
    requires |GrDim(Z.cochains).Keys| == 1 && Z.differential.source.basis.Keys == Z.cochains.basis.Keys
    ensures Tabulate(ds, RestrictTo(Z.differential, GradedPieces(Z.cochains))) == Err(TypeError)
  {
    var G := GradedPieces(Z.cochains);
    var f := RestrictTo(Z.differential, G);
    SameMembers(ds, G.Keys);
    var n :| n in GrDim(Z.cochains);
    SinglePiece(Z.cochains, n);
    assert n in ds && f(n).Err?;
    RestrictToErrors(Z.differential, G, ds);
    TabulateError(ds, f, TypeError);
  }

  /** The restrictions to the pieces of a list of known degrees raise only
      TypeError. */
  lemma RestrictToErrors(d: LinearMap, G: map<int, VectorSpace>, ds: seq<int>)
    requires forall n | n in ds :: n in G
    ensures forall k | k in ds && RestrictTo(d, G)(k).Err? :: RestrictTo(d, G)(k).error == TypeError
  {
  }

  /** `{n: d.restrict(G[n]) for n in G}`: one restriction of the
      differential per graded piece, each with that piece as its source;
      it fails exactly when some piece is not a strict part of d's source. */
  function GradedMaps(Z: CochainComplex): (r: Result<map<int, LinearMap>>)
    ensures r.Ok? <==> forall n | n in GradedPieces(Z.cochains) :: GradedPieces(Z.cochains)[n].basis.Keys < Z.differential.source.basis.Keys
    ensures r.Ok? ==> r.value.Keys == GrDim(Z.cochains).Keys
    ensures r.Ok? ==> forall n | n in r.value :: r.value[n].source == GradedPieces(Z.cochains)[n] && |r.value[n].source.basis| == GrDim(Z.cochains)[n]
    ensures |GrDim(Z.cochains).Keys| == 1 && Z.differential.source.basis.Keys == Z.cochains.basis.Keys ==> r == Err(TypeError)
  {
    var G := GradedPieces(Z.cochains);
    var ds := IntList(G.Keys);
    var r := Tabulate(ds, RestrictTo(Z.differential, G));
    GradedMapsFacts(Z, ds, r);
    r
  }

  lemma GradedMapsFacts(Z: CochainComplex, ds: seq<int>, r: Result<map<int, LinearMap>>)
    requires (set n | n in ds) == GradedPieces(Z.cochains).Keys
    requires r == Tabulate(ds, RestrictTo(Z.differential, GradedPieces(Z.cochains)))
    ensures r.Ok? <==> forall n | n in GradedPieces(Z.cochains) :: GradedPieces(Z.cochains)[n].basis.Keys < Z.differential.source.basis.Keys
    ensures r.Ok? ==> r.value.Keys == GrDim(Z.cochains).Keys
    ensures r.Ok? ==> forall n | n in r.value :: r.value[n].source == GradedPieces(Z.cochains)[n] && |r.value[n].source.basis| == GrDim(Z.cochains)[n]
    ensures |GrDim(Z.cochains).Keys| == 1 && Z.differential.source.basis.Keys == Z.cochains.basis.Keys ==> r == Err(TypeError)
  {
    var G := GradedPieces(Z.cochains);
    SameMembers(ds, G.Keys);
    if |GrDim(Z.cochains).Keys| == 1 && Z.differential.source.basis.Keys == Z.cochains.basis.Keys {
      SingleDegreeFails(Z, ds);
    }
    if r.Ok? {
      GradedMapsSources(Z, ds, r.value);
    }
  }

  /** A list holds exactly the members of the set it was made from. */
  lemma SameMembers(ds: seq<int>, s: set<int>)
    requires (set n | n in ds) == s
    ensures forall n :: n in ds <==> n in s
  {
    forall n ensures n in ds <==> n in s {
      assert n in ds <==> n in (set m | m in ds);
    }
  }

  /** Each restriction has its graded piece as its source. */
  lemma GradedMapsSources(Z: CochainComplex, ds: seq<int>, m: map<int, LinearMap>)
    requires (set n | n in ds) == GradedPieces(Z.cochains).Keys
    requires Tabulate(ds, RestrictTo(Z.differential, GradedPieces(Z.cochains))) == Ok(m)
    ensures forall n | n in m :: m[n].source == GradedPieces(Z.cochains)[n] && |m[n].source.basis| == GrDim(Z.cochains)[n]
  {
    var G := GradedPieces(Z.cochains);
    var f := RestrictTo(Z.differential, G);
    SameMembers(ds, G.Keys);
    forall n | n in m ensures m[n].source == G[n] {
      assert m[n] == f(n).value;
    }
  }

  /** `Z.cohomology()`: each graded piece Z^n of the cochains gets the
      restriction d_n of the differential and its (nullity, rank); then
      H^n = nullity(d_n) - rank(d_{n-1}) when n - 1 is a degree of Z, and
      nullity(d_n) otherwise. The nullities and ranks are returned beside
      the cohomology, with the kernel and image lists behind them.
      Restricting to a piece that is the whole source raises TypeError, so
      a complex concentrated in a single degree fails. */
  method Cohomology(Z: CochainComplex) returns (r: Result<map<int, int>>, graded: map<int, LinearMap>, kernels: map<int, nat>, images: map<int, nat>, kvecs: map<int, seq<Vector>>, ivecs: map<int, seq<Vector>>)
    ensures r.Ok? ==> GradedMaps(Z) == Ok(graded) && CohomologyOf(Z, graded, r.value, kernels, images, kvecs, ivecs)
    ensures r.Ok? ==> r.value.Keys == GrDim(Z.cochains).Keys && IsCohomology(Z, r.value)
    ensures |GrDim(Z.cochains).Keys| == 1 && Z.differential.source.basis.Keys == Z.cochains.basis.Keys ==> r == Err(TypeError)
  {
    graded, kernels, images, kvecs, ivecs := map[], map[], map[], map[], map[];
    var g := GradedMaps(Z);
    if g.Err? {
      return Err(g.error), graded, kernels, images, kvecs, ivecs;
    }
    graded := g.value;
    var ds := IntList(graded.Keys);
    IntListIn(graded.Keys);
    var k;
    k, kvecs, ivecs := KerIms(graded, ds);
    if k.Err? {
      return Err(k.error), graded, kernels, images, kvecs, ivecs;
    }
    kernels, images := k.value.0, k.value.1;
    var cohom := CohomFrom(kernels, images, ds);
    CohomologyFacts(Z, graded, kernels, images, kvecs, ivecs, cohom);
    CohomologyWitness(Z, graded, cohom, kernels, images, kvecs, ivecs);
    return Ok(cohom), graded, kernels, images, kvecs, ivecs;
  }

  /** What the two loops of `cohomology` leave, in terms of the graded
      dimensions of the cochains and the restrictions d_n. */
  lemma CohomologyFacts(Z: CochainComplex, graded: map<int, LinearMap>, kernels: map<int, nat>, images: map<int, nat>, kvecs: map<int, seq<Vector>>, ivecs: map<int, seq<Vector>>, cohom: map<int, int>)
    requires graded.Keys == GrDim(Z.cochains).Keys
    requires forall n | n in graded :: |graded[n].source.basis| == GrDim(Z.cochains)[n]
    requires kernels.Keys == graded.Keys && KerImsOf(graded, kernels, images, kvecs, ivecs)
    requires cohom.Keys == kernels.Keys && forall n | n in cohom :: cohom[n] == CohomAt(kernels, images, n)
    ensures CohomologyOf(Z, graded, cohom, kernels, images, kvecs, ivecs)
  {
    KerImsSums(graded, kernels, images, kvecs, ivecs, GrDim(Z.cochains));
  }

  /** Nullity plus rank is the dimension of each piece. */
  lemma KerImsSums(graded: map<int, LinearMap>, kernels: map<int, nat>, images: map<int, nat>, kvecs: map<int, seq<Vector>>, ivecs: map<int, seq<Vector>>, dims: map<int, int>)
    requires KerImsOf(graded, kernels, images, kvecs, ivecs)
    requires forall n | n in graded :: n in dims && |graded[n].source.basis| == dims[n]
    ensures forall n | n in kernels :: kernels[n] + images[n] == dims[n]
  {
    forall n | n in kernels ensures kernels[n] + images[n] == dims[n] {
      assert KerImOf(graded[n], kernels[n], images[n], kvecs[n], ivecs[n]);
    }
  }

  /** The cohomology, nullities and ranks of Z, given the restrictions
      d_n of its differential to the graded pieces: one entry per degree of
      the cochains; the nullity and rank of each degree are what `ker_im`
      finds for d_n (`KerImsOf`), and they add up to the dimension of the
      piece; and H^n = nullity(d_n) - rank(d_{n-1}), the rank counted only
      when n - 1 is a degree. */
  ghost predicate CohomologyOf(Z: CochainComplex, graded: map<int, LinearMap>, cohom: map<int, int>, kernels: map<int, nat>, images: map<int, nat>, kvecs: map<int, seq<Vector>>, ivecs: map<int, seq<Vector>>) {
    && cohom.Keys == GrDim(Z.cochains).Keys && kernels.Keys == cohom.Keys
    && KerImsOf(graded, kernels, images, kvecs, ivecs)
    && (forall n | n in cohom :: kernels[n] + images[n] == GrDim(Z.cochains)[n])
    && (forall n | n in cohom :: cohom[n] == kernels[n] as int - (if n - 1 in cohom then images[n - 1] else 0))
  }

  /** Some run of `cohomology` on Z gives cohom: with the restrictions
      `GradedMaps(Z)` and the lists `ker_im` returns for them. */
  ghost predicate IsCohomology(Z: CochainComplex, cohom: map<int, int>) {
    exists graded, kernels, images, kvecs, ivecs :: GradedMaps(Z) == Ok(graded) && CohomologyOf(Z, graded, cohom, kernels, images, kvecs, ivecs)
  }

  /** The rank recorded for degree n is 0 exactly when d_n is the zero map,
      and then the nullity is dim Z^n: the counts cannot be an arbitrary
      split of the dimension. */
  lemma CohomologyRankZero(Z: CochainComplex, graded: map<int, LinearMap>, cohom: map<int, int>, kernels: map<int, nat>, images: map<int, nat>, kvecs: map<int, seq<Vector>>, ivecs: map<int, seq<Vector>>, n: int)
    requires CohomologyOf(Z, graded, cohom, kernels, images, kvecs, ivecs) && n in cohom && n in graded && WellFormed(graded[n])
    ensures images[n] == 0 <==> forall i | i in graded[n].source.basis :: IsZeroVector(Column(graded[n], i))
    ensures images[n] == 0 ==> kernels[n] == GrDim(Z.cochains)[n]
  {
    assert KerImOf(graded[n], kernels[n], images[n], kvecs[n], ivecs[n]);
    RankZeroIff(graded[n], kernels[n], images[n], kvecs[n], ivecs[n]);
  }

  lemma CohomologyWitness(Z: CochainComplex, graded: map<int, LinearMap>, cohom: map<int, int>, kernels: map<int, nat>, images: map<int, nat>, kvecs: map<int, seq<Vector>>, ivecs: map<int, seq<Vector>>)
    requires GradedMaps(Z) == Ok(graded) && CohomologyOf(Z, graded, cohom, kernels, images, kvecs, ivecs)
    ensures IsCohomology(Z, cohom)
  {
  }

  /** d o d is the zero map `LinearMap(Z, Z, 2)`, as `==` sees it. */
  predicate SquareZero(Z: CochainComplex) {
    var d := Z.differential;
    Circ(d, d).Ok? && LinearMaps.Eq(Circ(d, d).value, LinearMap(Z.cochains, Z.cochains, 2, map[])) == Ok(true)
  }

  /** `Z.verify()`: `d.verify()`, then TypeError unless d o d == 0. */
  method ComplexVerify(Z: CochainComplex) returns (r: Result<bool>)
    ensures r.Ok? ==> r.value
    ensures r.Ok? <==> Verified(Z.differential) && SquareZero(Z)
  {
    var d := Z.differential;
    var v := Verify(d);
    if v.Err? {
      return Err(v.error);
    }
    var dd := Circ(d, d);
    if dd.Err? {
      return Err(dd.error);
    }
    var e := LinearMaps.Eq(dd.value, LinearMap(Z.cochains, Z.cochains, 2, map[]));
    if e.Err? {
      return Err(e.error);
    }
    if !e.value {
      return Err(TypeError);
    }
    return Ok(true);
  }

  /** d(d[i]) is the column of d o d at i. */
  lemma TwiceApplied(d: LinearMap, i: Key)
    requires WellFormed(d) && d.source == d.target
    ensures Circ(d, d).Ok? && EvalSpec(d, Column(d, i)).Ok? && Column(Circ(d, d).value, i) == EvalSpec(d, Column(d, i)).value
  {
    CircColumns(d, d, i);
    ColumnFacts(d, i);
    EvalComponents(d, Column(d, i), i);
  }

  /** For a well-formed differential on the cochains, the check passes
      exactly when d has degree 1 and d(d[i]) == 0 for every key i, where
      d[i] = d(e_i) (`EvalBasis`). */
  lemma SquareZeroMeaning(Z: CochainComplex)
    requires WellFormed(Z.differential) && Z.differential.source == Z.cochains && Z.differential.target == Z.cochains
    ensures SquareZero(Z) <==> (Z.differential.deg == 1 &&
      forall i :: EvalSpec(Z.differential, Column(Z.differential, i)) == Ok(ZeroVector(Z.cochains)))
  {
    var d := Z.differential;
    var zero := LinearMap(Z.cochains, Z.cochains, 2, map[]);
    CircWellFormed(d, d);
    var dd := Circ(d, d).value;
    forall i ensures (Column(dd, i) == Column(zero, i)) <==> EvalSpec(d, Column(d, i)) == Ok(ZeroVector(Z.cochains))
    {
      TwiceApplied(d, i);
    }
    if d.deg == 1 {
      LinearMaps.EqMeaning(dd, zero);
    }
  }
}
