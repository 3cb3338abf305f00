/** `Vector`: a space and a dict from basis key to component.

    The arithmetic builds each result with a dict comprehension over the keys
    involved and then `chomp`s it; a scalar operation that raises aborts the
    comprehension (`Keys.Tabulate`).
 */
module Vectors {
  import opened Wrappers
  import opened Keys
  import opened Fields
  import opened Spaces

  datatype Vector = Vector(space: VectorSpace, components: map<Key, Number>)

  /** `v[i]`: the stored component, or the zero of the space's field. */
  function Get(v: Vector, i: Key): Number {
    if i in v.components then v.components[i] else FromInt(v.space.field, 0)
  }

  /** `V[i]`: the basis vector with component 1 at i (i is not checked). */
  function BasisVector(V: VectorSpace, i: Key): Vector {
    Vector(V, map[i := FromInt(V.field, 1)])
  }

  /** `Vector(V, {})` */
  function ZeroVector(V: VectorSpace): Vector {
    Vector(V, map[])
  }

  /** `v == 0` */
  predicate IsZeroVector(v: Vector) {
    |v.components| == 0
  }

  /** The components are numbers of the space's field. */
  ghost predicate ValidVector(v: Vector) {
    forall i | i in v.components :: Fields.InField(v.space.field, v.components[i])
  }

  predicate NoZeros(c: map<Key, Number>) {
    forall i | i in c :: !IsZero(c[i])
  }

  /** Two vectors the arithmetic accepts: equal bases and one field. */
  ghost predicate Compatible(v: Vector, w: Vector) {
    ValidVector(v) && ValidVector(w) && SameSpace(v.space, w.space) && v.space.field == w.space.field
  }

  // ----- chomp -----

  /** What `chomp` leaves: the components that are not `== 0`. */
  function Chomp(c: map<Key, Number>): (r: map<Key, Number>)
    ensures NoZeros(r)
    ensures forall i :: i in r <==> i in c && !IsZero(c[i])
    ensures forall i | i in r :: r[i] == c[i]
  {
    map i | i in c && !IsZero(c[i]) :: c[i]
  }

  /** `v.chomp()`: collects the zero components, then deletes them one at a
      time. */
  method ChompVector(v: Vector) returns (w: Vector)
    ensures w == Vector(v.space, Chomp(v.components))
  {
    var zeros := set x | x in v.components && IsZero(v.components[x]);
    var comps := DeleteKeys(v.components, SortedKeys(zeros));
    return Vector(v.space, comps);
  }

  /** Chomping twice is chomping once. */
  lemma ChompIdempotent(c: map<Key, Number>)
    ensures Chomp(Chomp(c)) == Chomp(c)
  {
  }

  /** Chomping a vector over its field does not change any component. */
  lemma ChompKeepsValue(v: Vector, i: Key)
    requires ValidVector(v)
    ensures Get(Vector(v.space, Chomp(v.components)), i) == Get(v, i)
  {
    if i in v.components && IsZero(v.components[i]) {
      IsZeroMeaning(v.components[i]);
    }
  }

  lemma ChompInField(V: VectorSpace, c: map<Key, Number>)
    requires ValidVector(Vector(V, c))
    ensures ValidVector(Vector(V, Chomp(c)))
  {
  }

  // ----- arithmetic -----

  /** The keys of `ChainMap(v.components, w.components)`. */
  /** i |-> v[i] + w[i] */
  function SumAt(v: Vector, w: Vector): Key -> Result<Number> {
    i => Fields.Add(Get(v, i), Get(w, i))
  }

  /** i |-> v[i] - w[i] */
  function DiffAt(v: Vector, w: Vector): Key -> Result<Number> {
    i => Fields.Sub(Get(v, i), Get(w, i))
  }

  /** i |-> T * v[i] */
  function ScaledAt(T: Number, v: Vector): Key -> Result<Number> {
    i => MulNumbers(T, Get(v, i))
  }

  /** i |-> -v[i] */
  function NegAt(v: Vector): Key -> Result<Number> {
    i => Fields.Neg(Get(v, i))
  }

  /** `v + w`: TypeError unless the bases agree. */
  function Add(v: Vector, w: Vector): (r: Result<Vector>)
    ensures !SameSpace(v.space, w.space) ==> r == Err(TypeError)
    ensures r.Ok? ==> r.value.space == v.space && NoZeros(r.value.components)
  {
    if !SameSpace(v.space, w.space) then Err(TypeError)
    else
      var c :- TabulateKeys(v.components.Keys + w.components.Keys, SumAt(v, w));
      Ok(Vector(v.space, Chomp(c)))
  }

  /** `v - w` */
  function Sub(v: Vector, w: Vector): (r: Result<Vector>)
    ensures !SameSpace(v.space, w.space) ==> r == Err(TypeError)
    ensures r.Ok? ==> r.value.space == v.space && NoZeros(r.value.components)
  {
    if !SameSpace(v.space, w.space) then Err(TypeError)
    else
      var c :- TabulateKeys(v.components.Keys + w.components.Keys, DiffAt(v, w));
      Ok(Vector(v.space, Chomp(c)))
  }

  /** `v * t` (and `t * v`): t is first made a number of the field by `K(t)`. */
  function Scale(v: Vector, t: Operand): (r: Result<Vector>)
    ensures r.Ok? ==> r.value.space == v.space && NoZeros(r.value.components)
  {
    var T := Call(v.space.field, t).value;
    var c :- TabulateKeys(v.components.Keys, ScaledAt(T, v));
    Ok(Vector(v.space, Chomp(c)))
  }

  /** `-v`: not chomped. */
  function Neg(v: Vector): (r: Result<Vector>)
    ensures r.Ok? ==> r.value.space == v.space && r.value.components.Keys == v.components.Keys
  {
    var c :- TabulateKeys(v.components.Keys, NegAt(v));
    Ok(Vector(v.space, c))
  }

  /** `v == w` for two vectors: nothing is left of `v - w`. */
  function Eq(v: Vector, w: Vector): (r: Result<bool>)
    ensures r.Err? <==> Sub(v, w).Err?
  {
    var d :- Sub(v, w);
    Ok(IsZeroVector(d))
  }

  lemma GetInField(v: Vector, i: Key)
    requires ValidVector(v)
    ensures Fields.InField(v.space.field, Get(v, i))
  {
    FromIntInField(v.space.field, 0);
  }

  /** A chomped comprehension of field numbers over ks has f(i) at every
      key of ks and zero elsewhere. */
  lemma ChompedTable(V: VectorSpace, ks: set<Key>, f: Key -> Result<Number>, i: Key)
    requires forall k | k in ks :: f(k).Ok? && Fields.InField(V.field, f(k).value)
    ensures TabulateKeys(ks, f).Ok? && ValidVector(Vector(V, Chomp(TabulateKeys(ks, f).value)))
    ensures Get(Vector(V, Chomp(TabulateKeys(ks, f).value)), i) == if i in ks then f(i).value else FromInt(V.field, 0)
  {
    var c := TabulateKeys(ks, f).value;
    ChompKeepsValue(Vector(V, c), i);
  }

  lemma AddZeroVectors(V: VectorSpace, W: VectorSpace)
    requires SameSpace(V, W)
    ensures Add(ZeroVector(V), ZeroVector(W)) == Ok(ZeroVector(V))
    ensures Sub(ZeroVector(V), ZeroVector(W)) == Ok(ZeroVector(V))
  {
    assert SortedKeys(ZeroVector(V).components.Keys + ZeroVector(W).components.Keys) == [];
  }

  /** Vector addition is componentwise addition in the field. */
  lemma AddComponents(v: Vector, w: Vector, i: Key)
    requires Compatible(v, w)
    ensures Add(v, w).Ok? && ValidVector(Add(v, w).value)
    ensures Get(Add(v, w).value, i) == Fields.Add(Get(v, i), Get(w, i)).value
  {
    PairwiseInField(v, w);
    ChompedTable(v.space, v.components.Keys + w.components.Keys, SumAt(v, w), i);
    if i !in v.components && i !in w.components {
      AddZero(FromInt(v.space.field, 0));
    }
  }

  lemma SubComponents(v: Vector, w: Vector, i: Key)
    requires Compatible(v, w)
    ensures Sub(v, w).Ok? && ValidVector(Sub(v, w).value)
    ensures Get(Sub(v, w).value, i) == Fields.Sub(Get(v, i), Get(w, i)).value
  {
    PairwiseInField(v, w);
    ChompedTable(v.space, v.components.Keys + w.components.Keys, DiffAt(v, w), i);
    if i !in v.components && i !in w.components {
      SubSelfZero(v.space.field);
    }
  }

  /** Sums and differences of components of two compatible vectors are
      numbers of their field. */
  lemma PairwiseInField(v: Vector, w: Vector)
    requires Compatible(v, w)
    ensures forall k :: SumAt(v, w)(k).Ok? && Fields.InField(v.space.field, SumAt(v, w)(k).value)
    ensures forall k :: DiffAt(v, w)(k).Ok? && Fields.InField(v.space.field, DiffAt(v, w)(k).value)
  {
    forall k ensures SumAt(v, w)(k).Ok? && Fields.InField(v.space.field, SumAt(v, w)(k).value) {
      GetInField(v, k);
      GetInField(w, k);
    }
    forall k ensures DiffAt(v, w)(k).Ok? && Fields.InField(v.space.field, DiffAt(v, w)(k).value) {
      GetInField(v, k);
      GetInField(w, k);
    }
  }

  /** Scaling multiplies every component by `K(t)`. */
  lemma ScaleComponents(v: Vector, t: Operand, i: Key)
    requires ValidVector(v)
    requires t.Num? ==> Fields.InField(v.space.field, t.n)
    ensures Scale(v, t).Ok? && ValidVector(Scale(v, t).value)
    ensures Get(Scale(v, t).value, i) == MulNumbers(Call(v.space.field, t).value, Get(v, i)).value
  {
    var K := v.space.field;
    var T := Call(K, t).value;
    var ks, f := v.components.Keys, ScaledAt(T, v);
    forall k | k in ks ensures f(k).Ok? && Fields.InField(K, f(k).value) {
      GetInField(v, k);
    }
    ChompedTable(v.space, ks, f, i);
    if i !in ks {
      MulZero(T);
    }
  }

  /** Scaling by -1 negates every component. */
  lemma ScaleMinusOne(v: Vector, i: Key)
    requires ValidVector(v)
    ensures Scale(v, Int(-1)).Ok?
    ensures Get(Scale(v, Int(-1)).value, i) == Fields.Neg(Get(v, i)).value
  {
    ScaleComponents(v, Int(-1), i);
    GetInField(v, i);
    MinusOneMul(Get(v, i));
  }

  /** Scaling a chomped vector by 1 gives it back. */
  lemma ScaleOne(v: Vector)
    requires ValidVector(v) && NoZeros(v.components)
    ensures Scale(v, Int(1)) == Ok(v)
  {
    var r := Scale(v, Int(1)).value by {
      ScaleComponents(v, Int(1), KInt(0));
    }
    forall i ensures Get(r, i) == Get(v, i) {
      ScaleComponents(v, Int(1), i);
      GetInField(v, i);
      OneMul(Get(v, i));
    }
    ScaleComponents(v, Int(1), KInt(0));
    SameComponents(r, v);
  }

  /** Two chomped vectors of one space over one field with the same
      components everywhere are the same vector. */
  lemma SameComponents(v: Vector, w: Vector)
    requires v.space == w.space && ValidVector(v) && ValidVector(w)
    requires NoZeros(v.components) && NoZeros(w.components)
    requires forall i :: Get(v, i) == Get(w, i)
    ensures v == w
  {
    forall i | i in v.components ensures i in w.components && v.components[i] == w.components[i] {
      IsZeroMeaning(v.components[i]);
      assert Get(v, i) == Get(w, i);
    }
    forall i | i in w.components ensures i in v.components {
      IsZeroMeaning(w.components[i]);
      assert Get(v, i) == Get(w, i);
    }
  }

  /** Negation negates every component. */
  lemma NegComponents(v: Vector, i: Key)
    requires ValidVector(v)
    ensures Neg(v).Ok?
    ensures Get(Neg(v).value, i) == Fields.Neg(Get(v, i)).value
  {
    if i !in v.components {
      NegZero(v.space.field);
    }
  }

  /** For chomped vectors over one field, `v == w` holds exactly when the
      component dicts agree. */
  lemma EqMeaning(v: Vector, w: Vector)
    requires Compatible(v, w) && NoZeros(v.components) && NoZeros(w.components)
    ensures Eq(v, w) == Ok(v.components == w.components)
  {
    SubComponents(v, w, KInt(0));
    var d := Sub(v, w).value;
    var K := v.space.field;
    if IsZeroVector(d) {
      forall i ensures Get(v, i) == Get(w, i) {
        SubComponents(v, w, i);
        IsZeroMeaning(FromInt(K, 0));
        GetInField(v, i);
        GetInField(w, i);
        SubZeroIff(Get(v, i), Get(w, i));
      }
      SameComponents(v, Vector(v.space, w.components));
    } else {
      var i :| i in d.components;
      SubComponents(v, w, i);
      GetInField(v, i);
      GetInField(w, i);
      SubZeroIff(Get(v, i), Get(w, i));
      assert Get(v, i) != Get(w, i);
    }
  }

  // ----- shift, direct sum, tensor product -----

  /** `v.shift(m)`: the same components in the shifted space. */
  function Shift(v: Vector, m: int): (r: Vector)
    ensures r.space == Spaces.Shift(v.space, m) && r.components == v.components
  {
    Vector(Spaces.Shift(v.space, m), v.components)
  }

  /** Shifting by m and then by -m gives back the vector. */
  lemma ShiftRoundTrip(v: Vector, m: int)
    ensures Shift(Shift(v, m), -m) == v
  {
    ShiftCompose(v.space, m, -m);
    ShiftZero(v.space);
  }

  /** `v.oplus(w)`: TypeError unless the fields agree; not chomped. */
  function Oplus(v: Vector, w: Vector): (r: Result<Vector>)
    ensures r.Ok? <==> v.space.field == w.space.field
    ensures r.Ok? ==> r.value.space == Spaces.Oplus(v.space, w.space).value
  {
    var S :- Spaces.Oplus(v.space, w.space);
    Ok(Vector(S, TagUnion(v.components, w.components)))
  }

  /** The direct sum has v's components at ('a', i) and w's at ('b', j). */
  lemma OplusComponents(v: Vector, w: Vector, i: Key)
    requires v.space.field == w.space.field
    ensures Get(Oplus(v, w).value, TagA(i)) == Get(v, i)
    ensures Get(Oplus(v, w).value, TagB(i)) == Get(w, i)
  {
    TagUnionAt(v.components, w.components, i);
  }

  function SpacesOf(vs: seq<Vector>): (spaces: seq<VectorSpace>)
    ensures |spaces| == |vs| && forall i | 0 <= i < |vs| :: spaces[i] == vs[i].space
  {
    seq(|vs|, i requires 0 <= i < |vs| => vs[i].space)
  }

  function ComponentSets(vs: seq<Vector>): (sets: seq<set<Key>>)
    ensures |sets| == |vs| && forall i | 0 <= i < |vs| :: sets[i] == vs[i].components.Keys
  {
    seq(|vs|, i requires 0 <= i < |vs| => vs[i].components.Keys)
  }

  /** `cpt(x)`: K(1) multiplied in turn by the component of each vector. */
  function TensorComponent(K: Field, vs: seq<Vector>, t: seq<Key>): Result<Number>
    decreases |vs|
  {
    if vs == [] || t == [] then Ok(FromInt(K, 1))
    else
      var a :- TensorComponent(K, vs[..|vs| - 1], t[..|t| - 1]);
      MulNumbers(a, Get(vs[|vs| - 1], t[|t| - 1]))
  }

  function TensorComponentKeys(vs: seq<Vector>): set<Key> {
    set t | t in Tuples(ComponentSets(vs)) :: KTup(t)
  }

  /** `Vector.tensor(*vs)`: IndexError for no vector, the vector itself for
      one; otherwise the tensor space (TypeError for mixed fields) carrying
      the products of components over tuples of component keys, chomped. */
  function Tensor(vs: seq<Vector>): (r: Result<Vector>)
    ensures |vs| == 0 ==> r == Err(IndexError)
    ensures |vs| == 1 ==> r == Ok(vs[0])
    ensures |vs| > 1 && r.Ok? ==> Spaces.Tensor(SpacesOf(vs)) == Ok(r.value.space) && NoZeros(r.value.components)
  {
    if |vs| == 0 then Err(IndexError)
    else if |vs| == 1 then Ok(vs[0])
    else
      var K := vs[0].space.field;
      var T :- Spaces.Tensor(SpacesOf(vs));
      var c :- TabulateKeys(TensorComponentKeys(vs), TensorAt(K, vs));
      Ok(Vector(T, Chomp(c)))
  }

  /** k |-> the product of the components of vs at the entries of k */
  function TensorAt(K: Field, vs: seq<Vector>): Key -> Result<Number> {
    k => TensorComponent(K, vs, ElemsOf(k))
  }

  ghost predicate AllOver(K: Field, vs: seq<Vector>) {
    forall n | 0 <= n < |vs| :: ValidVector(vs[n]) && vs[n].space.field == K
  }

  /** When every vector is over K, each product of components is a number
      of K. */
  lemma {:induction false} TensorComponentOk(K: Field, vs: seq<Vector>, t: seq<Key>)
    requires AllOver(K, vs)
    decreases |vs|
    ensures TensorComponent(K, vs, t).Ok? && Fields.InField(K, TensorComponent(K, vs, t).value)
  {
    if vs == [] || t == [] {
      FromIntInField(K, 1);
    } else {
      TensorComponentOk(K, vs[..|vs| - 1], t[..|t| - 1]);
      GetInField(vs[|vs| - 1], t[|t| - 1]);
    }
  }

  /** For two or more vectors over one field, the tensor product carries
      the product of components at every tuple of component keys and zero
      elsewhere. */
  lemma TensorComponents(K: Field, vs: seq<Vector>, k: Key)
    requires |vs| > 1 && AllOver(K, vs)
    ensures Tensor(vs).Ok? && ValidVector(Tensor(vs).value)
    ensures Get(Tensor(vs).value, k) ==
      if k in TensorComponentKeys(vs) then TensorComponent(K, vs, ElemsOf(k)).value else FromInt(K, 0)
  {
    assert vs[0].space.field == K;
    assert forall n | 0 <= n < |vs| :: SpacesOf(vs)[n].field == K;
    var T := Spaces.Tensor(SpacesOf(vs)).value;
    var ks, f := TensorComponentKeys(vs), TensorAt(K, vs);
    forall k | k in ks ensures f(k).Ok? && Fields.InField(T.field, f(k).value) {
      TensorComponentOk(K, vs, ElemsOf(k));
    }
    ChompedTable(T, ks, f, k);
  }

  /** The component of v (x) w at (i, j) is v[i] * w[j]. */
  lemma OtimesComponents(v: Vector, w: Vector, i: Key, j: Key)
    requires ValidVector(v) && ValidVector(w) && v.space.field == w.space.field
    ensures Tensor([v, w]).Ok? && ValidVector(Tensor([v, w]).value)
    ensures Get(Tensor([v, w]).value, KTup([i, j])) == MulNumbers(Get(v, i), Get(w, j)).value
  {
    var K := v.space.field;
    var vs := [v, w];
    TensorComponents(K, vs, KTup([i, j]));
    PairProduct(v, w, i, j);
    if KTup([i, j]) !in TensorComponentKeys(vs) {
      PairOutside(v, w, i, j);
    }
  }

  /** Off the tuples of component keys, the product of components is zero. */
  lemma PairOutside(v: Vector, w: Vector, i: Key, j: Key)
    requires ValidVector(v) && ValidVector(w) && v.space.field == w.space.field
    requires KTup([i, j]) !in TensorComponentKeys([v, w])
    ensures MulNumbers(Get(v, i), Get(w, j)) == Ok(FromInt(v.space.field, 0))
  {
    TuplesChar(ComponentSets([v, w]), [i, j]);
    PairZero(v, w, i, j);
  }

  /** The product at (i, j) is K(1) * v[i] * w[j]. */
  lemma PairProduct(v: Vector, w: Vector, i: Key, j: Key)
    requires ValidVector(v) && ValidVector(w) && v.space.field == w.space.field
    ensures TensorComponent(v.space.field, [v, w], [i, j]) == MulNumbers(Get(v, i), Get(w, j))
  {
    var K := v.space.field;
    assert [v, w][..1] == [v] && [v][..0] == [];
    assert [i, j][..1] == [i] && [i][..0] == [];
    GetInField(v, i);
    OneMul(Get(v, i));
    assert TensorComponent(K, [], []) == Ok(FromInt(K, 1));
    assert TensorComponent(K, [v], [i]) == Ok(Get(v, i));
  }

  /** A product with a missing component is zero. */
  lemma PairZero(v: Vector, w: Vector, i: Key, j: Key)
    requires ValidVector(v) && ValidVector(w) && v.space.field == w.space.field
    requires i !in v.components || j !in w.components
    ensures MulNumbers(Get(v, i), Get(w, j)) == Ok(FromInt(v.space.field, 0))
  {
    var K := v.space.field;
    GetInField(v, i);
    GetInField(w, j);
    if j !in w.components {
      MulZero(Get(v, i));
    } else {
      ZeroMul(Get(w, j));
    }
  }

  // ----- flatten and unflatten -----

  function FlattenSpec(v: Vector, k: nat): Result<Vector> {
    var S :- Spaces.FlattenSpec(v.space, k);
    var c :- Rekey(v.components, x => FlattenKey(x, k));
    Ok(Vector(S, c))
  }

  function UnflattenSpec(v: Vector, m: nat, n: nat): Result<Vector> {
    var S :- Spaces.UnflattenSpec(v.space, m, n);
    var c :- Rekey(v.components, x => UnflattenKey(x, m, n));
    Ok(Vector(S, c))
  }

  /** `v.flatten(k)`: the space first, then a loop over the components. */
  method Flatten(v: Vector, k: nat) returns (r: Result<Vector>)
    ensures r == FlattenSpec(v, k)
  {
    var S := Spaces.Flatten(v.space, k);
    if S.Err? {
      return Err(S.error);
    }
    var c := RekeyLoop(v.components, x => FlattenKey(x, k));
    if c.Err? {
      return Err(c.error);
    }
    return Ok(Vector(S.value, c.value));
  }

  /** `v.unflatten(m, n)` */
  method Unflatten(v: Vector, m: nat, n: nat) returns (r: Result<Vector>)
    ensures r == UnflattenSpec(v, m, n)
  {
    var S := Spaces.Unflatten(v.space, m, n);
    if S.Err? {
      return Err(S.error);
    }
    var c := RekeyLoop(v.components, x => UnflattenKey(x, m, n));
    if c.Err? {
      return Err(c.error);
    }
    return Ok(Vector(S.value, c.value));
  }

  /** `v.unflatten(m, n).flatten(m)` gives back v. */
  lemma VectorRoundTrip(v: Vector, m: nat, n: nat)
    requires forall x | x in v.space.basis :: Regroupable(x, m, n)
    requires forall x | x in v.components :: Regroupable(x, m, n)
    ensures UnflattenSpec(v, m, n).Ok?
    ensures FlattenSpec(UnflattenSpec(v, m, n).value, m) == Ok(v)
  {
    SpaceRoundTrip(v.space, m, n);
    var f := x => UnflattenKey(x, m, n);
    var g := x => FlattenKey(x, m);
    forall x | x in v.components ensures f(x).Ok? && g(f(x).value) == Ok(x) {
      KeyRoundTrip(x, m, n);
    }
    RekeyRoundTrip(v.components, f, g);
  }
}
