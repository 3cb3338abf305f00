/** `VectorSpace`: a field and a dict from basis key to degree.

    Every dict built by iterating over another dict is built here in the key
    order of `Keys.SortedKeys`, which stands in for Python's insertion order.
 */
module Spaces {
  import opened Wrappers
  import opened Keys
  import opened Fields

  datatype VectorSpace = VectorSpace(field: Field, basis: map<Key, int>)

  /** `VectorSpace(K)`: no basis yet. */
  function EmptySpace(K: Field): VectorSpace {
    VectorSpace(K, map[])
  }

  /** `V == W` compares the basis dicts only; the fields are not compared. */
  predicate SameSpace(V: VectorSpace, W: VectorSpace) {
    V.basis == W.basis
  }

  function Dim(V: VectorSpace): nat {
    |V.basis|
  }

  /** The basis keys of degree d. */
  function Piece(b: map<Key, int>, d: int): set<Key> {
    set i | i in b && b[i] == d
  }

  /** `gr_dim`: a `Counter` of the degrees, so exactly the degrees that occur. */
  function GrDim(V: VectorSpace): (g: map<int, nat>)
    ensures forall d :: d in g <==> exists i :: i in V.basis && V.basis[i] == d
    ensures forall d | d in g :: g[d] > 0
  {
    var g := map d | d in V.basis.Values :: |Piece(V.basis, d)|;
    forall d | d in g ensures g[d] > 0 {
      var i :| i in V.basis && V.basis[i] == d;
      assert i in Piece(V.basis, d);
    }
    g
  }

  /** `gr_dim` read with a default of zero. */
  function GrDimAt(V: VectorSpace, d: int): (n: nat)
    ensures n == |Piece(V.basis, d)|
  {
    if d in GrDim(V) then GrDim(V)[d]
    else
      assert Piece(V.basis, d) == {};
      0
  }

  /** `graded_pieces`: for each degree that occurs, the space spanned by the
      basis keys of that degree. */
  function GradedPieces(V: VectorSpace): (gp: map<int, VectorSpace>)
    ensures gp.Keys == GrDim(V).Keys
    ensures forall d | d in gp :: gp[d].field == V.field && Dim(gp[d]) == GrDim(V)[d]
    ensures forall d | d in gp :: forall i | i in gp[d].basis :: i in V.basis && V.basis[i] == d && gp[d].basis[i] == d
    ensures forall i | i in V.basis :: V.basis[i] in gp && i in gp[V.basis[i]].basis
  {
    var gp := map d | d in GrDim(V) :: VectorSpace(V.field, map i | i in Piece(V.basis, d) :: d);
    forall d | d in gp ensures Dim(gp[d]) == GrDim(V)[d] {
      assert gp[d].basis.Keys == Piece(V.basis, d);
    }
    gp
  }

  // ----- shift -----

  /** `V.shift(n)`: the same keys, every degree lowered by n. */
  function Shift(V: VectorSpace, n: int): (W: VectorSpace)
    ensures W.field == V.field && W.basis.Keys == V.basis.Keys
    ensures forall i | i in V.basis :: W.basis[i] == V.basis[i] - n
  {
    VectorSpace(V.field, map i | i in V.basis :: V.basis[i] - n)
  }

  lemma ShiftCompose(V: VectorSpace, a: int, b: int)
    ensures Shift(Shift(V, a), b) == Shift(V, a + b)
  {
  }

  lemma ShiftZero(V: VectorSpace)
    ensures Shift(V, 0) == V
  {
  }

  /** Shifting by n moves the piece of degree d to degree d - n. */
  lemma GrDimShift(V: VectorSpace, n: int, d: int)
    ensures GrDimAt(Shift(V, n), d - n) == GrDimAt(V, d)
  {
    assert Piece(Shift(V, n).basis, d - n) == Piece(V.basis, d);
  }

  // ----- direct sum -----

  /** The basis of `V.oplus(W)`: the tagged keys of both, degrees copied. */
  function OplusBasis(b: map<Key, int>, c: map<Key, int>): map<Key, int> {
    TagUnion(b, c)
  }

  /** `V.oplus(W)`: TypeError unless both spaces have the same field. */
  function Oplus(V: VectorSpace, W: VectorSpace): (r: Result<VectorSpace>)
    ensures r.Ok? <==> V.field == W.field
    ensures r.Ok? ==> r.value.field == V.field
  {
    if V.field != W.field then Err(TypeError)
    else Ok(VectorSpace(V.field, OplusBasis(V.basis, W.basis)))
  }

  lemma OplusSplit(b: map<Key, int>, c: map<Key, int>, d: int)
    ensures Piece(OplusBasis(b, c), d) == (set i | i in Piece(b, d) :: TagA(i)) + (set j | j in Piece(c, d) :: TagB(j))
  {
    var u := OplusBasis(b, c);
    forall k | k in Piece(u, d)
      ensures k in (set i | i in Piece(b, d) :: TagA(i)) + (set j | j in Piece(c, d) :: TagB(j))
    {
      TagUnionKeys(b, c);
      if k in (set i | i in b :: TagA(i)) {
        var i :| i in b && k == TagA(i);
        TagUnionAt(b, c, i);
        assert i in Piece(b, d);
      } else {
        TagUnionKeys(b, c);
        var j :| j in c && k == TagB(j);
        TagUnionAt(b, c, j);
        assert j in Piece(c, d);
      }
    }
    forall i | i in Piece(b, d) ensures TagA(i) in Piece(u, d) {
      TagUnionAt(b, c, i);
    }
    forall j | j in Piece(c, d) ensures TagB(j) in Piece(u, d) {
      TagUnionAt(b, c, j);
    }
  }

  /** The graded dimensions of a direct sum add degree by degree. */
  lemma GrDimOplus(V: VectorSpace, W: VectorSpace, d: int)
    requires V.field == W.field
    ensures GrDimAt(Oplus(V, W).value, d) == GrDimAt(V, d) + GrDimAt(W, d)
  {
    OplusSplit(V.basis, W.basis, d);
    TagsDisjoint(Piece(V.basis, d), Piece(W.basis, d));
    TagACard(Piece(V.basis, d));
    TagBCard(Piece(W.basis, d));
  }

  /** So do the dimensions. */
  lemma DimOplus(V: VectorSpace, W: VectorSpace)
    requires V.field == W.field
    ensures Dim(Oplus(V, W).value) == Dim(V) + Dim(W)
  {
    TagUnionKeys(V.basis, W.basis);
    TagsDisjoint(V.basis.Keys, W.basis.Keys);
    TagACard(V.basis.Keys);
    TagBCard(W.basis.Keys);
    assert (set i | i in V.basis.Keys :: TagA(i)) == (set i | i in V.basis :: TagA(i));
    assert (set j | j in W.basis.Keys :: TagB(j)) == (set j | j in W.basis :: TagB(j));
  }

  // ----- tensor product -----

  /** The basis key sets of the spaces, in order. */
  function BasisSets(spaces: seq<VectorSpace>): (sets: seq<set<Key>>)
    ensures |sets| == |spaces| && forall i | 0 <= i < |spaces| :: sets[i] == spaces[i].basis.Keys
  {
    seq(|spaces|, i requires 0 <= i < |spaces| => spaces[i].basis.Keys)
  }

  /** `grading`: the sum of the component degrees. */
  function TupleDegree(spaces: seq<VectorSpace>, t: seq<Key>): int
    decreases |spaces|
  {
    if spaces == [] || t == [] then 0
    else
      var n := |spaces| - 1;
      var last := t[|t| - 1];
      TupleDegree(spaces[..n], t[..|t| - 1]) + (if last in spaces[n].basis then spaces[n].basis[last] else 0)
  }

  function ElemsOf(k: Key): seq<Key> {
    if k.KTup? then k.elems else []
  }

  /** `build_basis`, each tuple made a key. */
  function TensorKeySet(spaces: seq<VectorSpace>): set<Key> {
    set t | t in Tuples(BasisSets(spaces)) :: KTup(t)
  }

  function TensorBasis(spaces: seq<VectorSpace>): map<Key, int> {
    map k | k in TensorKeySet(spaces) :: TupleDegree(spaces, ElemsOf(k))
  }

  /** `VectorSpace.tensor(*spaces)`: a single space is returned as it is, no
      space at all raises IndexError (`args[0]`), and two or more must share
      the field of the first. */
  function Tensor(spaces: seq<VectorSpace>): (r: Result<VectorSpace>)
    ensures |spaces| == 0 ==> r == Err(IndexError)
    ensures |spaces| == 1 ==> r == Ok(spaces[0])
    ensures |spaces| > 1 ==> (r.Ok? <==> forall i | 0 <= i < |spaces| :: spaces[i].field == spaces[0].field)
    ensures r.Ok? ==> r.value.field == spaces[0].field
  {
    if |spaces| == 0 then Err(IndexError)
    else if |spaces| == 1 then Ok(spaces[0])
    else if exists i | 0 <= i < |spaces| :: spaces[i].field != spaces[0].field then Err(TypeError)
    else Ok(VectorSpace(spaces[0].field, TensorBasis(spaces)))
  }

  /** `V.otimes(W)` succeeds only over one field. */
  lemma OtimesField(V: VectorSpace, W: VectorSpace)
    requires Tensor([V, W]).Ok?
    ensures V.field == W.field
  {
    assert [V, W][1] == W;
  }

  /** `V.otimes(W)`: basis keys are the pairs and their degrees add. */
  lemma OtimesBasis(V: VectorSpace, W: VectorSpace, i: Key, j: Key)
    requires V.field == W.field
    ensures Tensor([V, W]).Ok?
    ensures KTup([i, j]) in Tensor([V, W]).value.basis <==> i in V.basis && j in W.basis
    ensures i in V.basis && j in W.basis ==> Tensor([V, W]).value.basis[KTup([i, j])] == V.basis[i] + W.basis[j]
  {
    var T := Tensor([V, W]).value;
    TuplesChar(BasisSets([V, W]), [i, j]);
    assert [V, W][..1] == [V];
    assert [i, j][..1] == [i];
    assert [V][..0] == [];
    assert [i][..0] == [];
    if KTup([i, j]) in T.basis {
      var t :| t in Tuples(BasisSets([V, W])) && KTup(t) == KTup([i, j]);
    }
    if i in V.basis && j in W.basis {
      assert KTup([i, j]) in TensorKeySet([V, W]);
      assert ElemsOf(KTup([i, j])) == [i, j];
      assert TupleDegree([V], [i]) == V.basis[i];
      assert TupleDegree([V, W], [i, j]) == TupleDegree([V], [i]) + W.basis[j];
    }
  }

  /** |{x + [y]}| = |A| * |B| for tuples x of one length. */
  function Product(spaces: seq<VectorSpace>): nat {
    SizeProduct(BasisSets(spaces))
  }

  /** The dimension of a tensor product of two or more spaces is the product
      of the dimensions. */
  lemma DimTensor(spaces: seq<VectorSpace>)
    requires |spaces| > 1 && Tensor(spaces).Ok?
    ensures Dim(Tensor(spaces).value) == Product(spaces)
  {
    var V := Tensor(spaces).value;
    assert V.basis == TensorBasis(spaces);
    assert |V.basis| == |TensorBasis(spaces).Keys|;
    assert TensorBasis(spaces).Keys == TensorKeySet(spaces);
    KTupCard(Tuples(BasisSets(spaces)));
    assert |TensorKeySet(spaces)| == |Tuples(BasisSets(spaces))|;
    TuplesCard(BasisSets(spaces));
  }

  lemma DimOtimes(V: VectorSpace, W: VectorSpace)
    requires V.field == W.field
    ensures Dim(Tensor([V, W]).value) == Dim(V) * Dim(W)
  {
    DimTensor([V, W]);
    var sets := BasisSets([V, W]);
    assert sets[..1][..0] == [];
    assert SizeProduct(sets[..1]) == Dim(V);
  }

  // ----- flatten and unflatten -----

  function FlattenSpec(V: VectorSpace, k: nat): Result<VectorSpace> {
    var b :- Rekey(V.basis, x => FlattenKey(x, k));
    Ok(VectorSpace(V.field, b))
  }

  function UnflattenSpec(V: VectorSpace, m: nat, n: nat): Result<VectorSpace> {
    var b :- Rekey(V.basis, x => UnflattenKey(x, m, n));
    Ok(VectorSpace(V.field, b))
  }

  /** `V.flatten(k)`: the loop over the basis that re-keys it. */
  method Flatten(V: VectorSpace, k: nat) returns (r: Result<VectorSpace>)
    ensures r == FlattenSpec(V, k)
  {
    var b := RekeyLoop(V.basis, x => FlattenKey(x, k));
    if b.Err? {
      return Err(b.error);
    }
    return Ok(VectorSpace(V.field, b.value));
  }

  /** `V.unflatten(m, n)` */
  method Unflatten(V: VectorSpace, m: nat, n: nat) returns (r: Result<VectorSpace>)
    ensures r == UnflattenSpec(V, m, n)
  {
    var b := RekeyLoop(V.basis, x => UnflattenKey(x, m, n));
    if b.Err? {
      return Err(b.error);
    }
    return Ok(VectorSpace(V.field, b.value));
  }

  /** The keys `unflatten(m, n)` accepts and `flatten(m)` restores: tuples
      with at least m entries, and strings when the slice takes all of them. */
  predicate Regroupable(x: Key, m: nat, n: nat) {
    m <= n && UnflattenKey(x, m, n).Ok? && (x.KTup? ==> m <= |x.elems|)
  }

  lemma KeyRoundTrip(x: Key, m: nat, n: nat)
    requires Regroupable(x, m, n)
    ensures (x' => FlattenKey(x', m))(UnflattenKey(x, m, n).value) == Ok(x)
  {
    FlattenUnflatten(x, m, n);
  }

  /** `unflatten(m, n)` followed by `flatten(m)` gives back the space. */
  lemma SpaceRoundTrip(V: VectorSpace, m: nat, n: nat)
    requires forall x | x in V.basis :: Regroupable(x, m, n)
    ensures UnflattenSpec(V, m, n).Ok?
    ensures FlattenSpec(UnflattenSpec(V, m, n).value, m) == Ok(V)
  {
    var f := x => UnflattenKey(x, m, n);
    var g := x => FlattenKey(x, m);
    forall x | x in V.basis ensures f(x).Ok? && g(f(x).value) == Ok(x) {
      KeyRoundTrip(x, m, n);
    }
    RekeyRoundTrip(V.basis, f, g);
  }

  /** `unflatten(m, n)` keeps every degree: the new keys are the regrouped
      old keys, each with the degree of its old key. */
  lemma UnflattenDegrees(V: VectorSpace, m: nat, n: nat)
    requires forall x | x in V.basis :: Regroupable(x, m, n)
    ensures UnflattenSpec(V, m, n).Ok?
    ensures forall x | x in V.basis :: UnflattenKey(x, m, n).Ok?
    ensures UnflattenSpec(V, m, n).value.basis.Keys == set x | x in V.basis :: UnflattenKey(x, m, n).value
    ensures forall x | x in V.basis :: UnflattenSpec(V, m, n).value.basis[UnflattenKey(x, m, n).value] == V.basis[x]
  {
    var f := x => UnflattenKey(x, m, n);
    var g := x => FlattenKey(x, m);
    forall x | x in V.basis ensures f(x).Ok? && g(f(x).value) == Ok(x) {
      KeyRoundTrip(x, m, n);
    }
    LeftInverseInjective(V.basis, f, g);
    RekeyInjective(V.basis, f);
  }

  // ----- build -----

  /** The keys ctr, ..., ctr + n - 1 (none when n <= 0), all of degree d. */
  function Block(ctr: int, n: int, d: int): map<Key, int> {
    map k | k in IntKeys(ctr, if n > 0 then n else 0) && k.KInt? :: d
  }

  /** The basis `build` leaves, for the (degree, count) entries of the dict in
      order, starting the counter at ctr. */
  function BuildBasis(b: map<Key, int>, gd: seq<(int, int)>, ctr: int): map<Key, int>
    decreases |gd|
  {
    if gd == [] then b
    else BuildBasis(b + Block(ctr, gd[0].1, gd[0].0), gd[1..], ctr + gd[0].1)
  }

  /** `V.build(graded_dim)`: adds consecutive integer keys, a block per entry;
      the counter moves on by each count. */
  method Build(V: VectorSpace, gd: seq<(int, int)>) returns (W: VectorSpace)
    ensures W == VectorSpace(V.field, BuildBasis(V.basis, gd, 0))
  {
    var basis := V.basis;
    var ctr := 0;
    var e := 0;
    while e < |gd|
      invariant 0 <= e <= |gd|
      invariant BuildBasis(basis, gd[e..], ctr) == BuildBasis(V.basis, gd, 0)
    {
      assert gd[e..][1..] == gd[e + 1..];
      var (d, n) := gd[e];
      basis := basis + Block(ctr, n, d);
      ctr := ctr + n;
      e := e + 1;
    }
    return VectorSpace(V.field, basis);
  }

  /** The number of basis vectors the entries ask for in degree d. */
  function CountOf(gd: seq<(int, int)>, d: int): int
    decreases |gd|
  {
    if gd == [] then 0 else (if gd[0].0 == d then gd[0].1 else 0) + CountOf(gd[1..], d)
  }

  predicate IntKeysBelow(b: map<Key, int>, ctr: int) {
    forall k | k in b :: k.KInt? && k.i < ctr
  }

  lemma PieceAddBlock(b: map<Key, int>, ctr: int, n: nat, d0: int, d: int)
    requires IntKeysBelow(b, ctr)
    ensures IntKeysBelow(b + Block(ctr, n, d0), ctr + n)
    ensures Piece(b + Block(ctr, n, d0), d) == Piece(b, d) + (if d == d0 then IntKeys(ctr, n) else {})
    ensures Piece(b, d) * IntKeys(ctr, n) == {}
  {
  }

  lemma {:induction false} BuildCount(b: map<Key, int>, gd: seq<(int, int)>, ctr: int, d: int)
    requires IntKeysBelow(b, ctr)
    requires forall e | e in gd :: e.1 >= 0
    decreases |gd|
    ensures |Piece(BuildBasis(b, gd, ctr), d)| == |Piece(b, d)| + CountOf(gd, d)
  {
    if gd != [] {
      var (d0, n) := gd[0];
      PieceAddBlock(b, ctr, n, d0, d);
      IntKeysCard(ctr, n);
      assert forall e | e in gd[1..] :: e in gd;
      BuildCount(b + Block(ctr, n, d0), gd[1..], ctr + n, d);
    }
  }

  /** Building an empty space from entries with nonnegative counts gives
      exactly the requested number of basis vectors in each degree. */
  lemma BuildGrDim(K: Field, gd: seq<(int, int)>, d: int)
    requires forall e | e in gd :: e.1 >= 0
    ensures GrDimAt(VectorSpace(K, BuildBasis(map[], gd, 0)), d) == CountOf(gd, d)
  {
    BuildCount(map[], gd, 0, d);
  }
}
