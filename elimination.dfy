/** `LinearMap.ker_im`: nullity and rank by Gaussian elimination on the
    images of the basis vectors.
 */
module Elimination {
  import opened Wrappers
  import opened Keys
  import opened Fields
  import opened Spaces
  import opened Vectors
  import opened LinearMaps
  import opened Lists

  /** `F(v) == 0` */
  predicate Annihilates(F: LinearMap, v: Vector) {
    EvalSpec(F, v).Ok? && IsZeroVector(EvalSpec(F, v).value)
  }

  /** `F(v)` is defined and not zero. */
  predicate Survives(F: LinearMap, v: Vector) {
    EvalSpec(F, v).Ok? && !IsZeroVector(EvalSpec(F, v).value)
  }

  // ----- ker_pop -----

  /** `F(v) == 0`, raising when `F(v)` does. */
  function KilledBy(F: LinearMap): Vector -> Result<bool> {
    v => var w :- EvalSpec(F, v); Ok(IsZeroVector(w))
  }

  /** `ker_pop()`: the candidates F sends to zero and the others, each in
      the order met. */
  function KerPopSpec(F: LinearMap, cands: seq<Vector>): Result<(seq<Vector>, seq<Vector>)> {
    Split(KilledBy(F), cands)
  }

  /** `ker_pop` splits the candidates: the casualties are sent to zero, the
      survivors are not, and together they are the candidates. */
  lemma KerPopPartition(F: LinearMap, cands: seq<Vector>)
    ensures KerPopSpec(F, cands).Ok? <==> forall v | v in cands :: EvalSpec(F, v).Ok?
    ensures KerPopSpec(F, cands).Ok? ==>
      var (dead, alive) := KerPopSpec(F, cands).value;
      && multiset(dead) + multiset(alive) == multiset(cands)
      && |dead| + |alive| == |cands|
      && (forall v | v in dead :: Annihilates(F, v))
      && (forall v | v in alive :: Survives(F, v))
  {
    SplitPartition(KilledBy(F), cands);
  }

  /** `ker_pop()`: one pass over the candidates. */
  method KerPop(F: LinearMap, cands: seq<Vector>) returns (r: Result<(seq<Vector>, seq<Vector>)>)
    ensures r == KerPopSpec(F, cands)
  {
    var casualties, survivors := [], [];
    var i := 0;
    while i < |cands|
      invariant 0 <= i <= |cands|
      invariant Split(KilledBy(F), cands[..i]) == Ok((casualties, survivors))
    {
      var w := Eval(F, cands[i]);
      assert cands[..i + 1][..i] == cands[..i];
      if w.Err? {
        SplitPrefixErr(KilledBy(F), cands, i + 1);
        return Err(w.error);
      }
      if IsZeroVector(w.value) {
        casualties := casualties + [cands[i]];
      } else {
        survivors := survivors + [cands[i]];
      }
      i := i + 1;
    }
    assert cands[..i] == cands;
    return Ok((casualties, survivors));
  }

  // ----- one elimination step -----

  /** `(y - (F(y)[m] / F(x)[m]) * x).chomp()` */
  function ReduceVector(F: LinearMap, x: Vector, fx: Vector, m: Key, y: Vector): Result<Vector> {
    var fy :- EvalSpec(F, y);
    var c :- Div(Vectors.Get(fy, m), Vectors.Get(fx, m));
    var s :- Scale(x, Num(c));
    var d :- Vectors.Sub(y, s);
    Ok(Vector(d.space, Chomp(d.components)))
  }

  function ReduceOne(F: LinearMap, x: Vector, fx: Vector, m: Key): Vector -> Result<Vector> {
    y => ReduceVector(F, x, fx, m, y)
  }

  /** One reduced candidate: evaluate, divide, scale, subtract, chomp. */
  method ReduceStep(F: LinearMap, x: Vector, fx: Vector, m: Key, y: Vector) returns (r: Result<Vector>)
    ensures r == ReduceVector(F, x, fx, m, y)
  {
    var fy := Eval(F, y);
    if fy.Err? {
      return Err(fy.error);
    }
    var c := Div(Vectors.Get(fy.value, m), Vectors.Get(fx, m));
    if c.Err? {
      return Err(c.error);
    }
    var s := Scale(x, Num(c.value));
    if s.Err? {
      return Err(s.error);
    }
    var d := Vectors.Sub(y, s.value);
    if d.Err? {
      return Err(d.error);
    }
    var z := ChompVector(d.value);
    return Ok(z);
  }

  /** The comprehension that builds the new candidates. */
  method Reduce(F: LinearMap, x: Vector, fx: Vector, m: Key, ys: seq<Vector>) returns (r: Result<seq<Vector>>)
    ensures r == MapAll(ReduceOne(F, x, fx, m), ys)
  {
    ghost var f := ReduceOne(F, x, fx, m);
    var out := [];
    var i := 0;
    while i < |ys|
      invariant 0 <= i <= |ys|
      invariant MapAll(f, ys[..i]) == Ok(out)
    {
      MapAllStep(f, ys, i, out);
      var z := ReduceStep(F, x, fx, m, ys[i]);
      assert z == f(ys[i]);
      if z.Err? {
        MapAllPrefixErr(f, ys, i + 1);
        return Err(z.error);
      }
      out := out + [z.value];
      i := i + 1;
    }
    assert ys[..i] == ys;
    return Ok(out);
  }

  // ----- ker_im -----

  /** The basis vectors `[V[i] for i in V.basis]`, in key order. */
  function BasisVectors(V: VectorSpace): (vs: seq<Vector>)
    ensures |vs| == |V.basis|
  {
    var ks := SortedKeys(V.basis.Keys);
    seq(|ks|, n requires 0 <= n < |ks| => BasisVector(V, ks[n]))
  }

  /** After the first `ker_pop`, every candidate F kills is a casualty, and
      there are no survivors exactly when F kills every candidate. */
  lemma FirstPop(F: LinearMap, cands: seq<Vector>, dead: seq<Vector>, alive: seq<Vector>)
    requires KerPopSpec(F, cands) == Ok((dead, alive))
    ensures forall v | v in cands && Annihilates(F, v) :: v in dead
    ensures alive == [] <==> forall v | v in cands :: Annihilates(F, v)
  {
    KerPopPartition(F, cands);
    assert multiset(dead) + multiset(alive) == multiset(cands);
    assert forall v | v in alive :: Survives(F, v);
    forall v | v in cands && Annihilates(F, v) ensures v in dead {
      OneSide(v, dead, alive, cands);
    }
    if alive != [] {
      var x := alive[0];
      OneSide(x, alive, dead, cands);
      assert x in alive && Survives(F, x);
      assert x in cands && !Annihilates(F, x);
    } else {
      forall v | v in cands ensures Annihilates(F, v) {
        OneSide(v, dead, alive, cands);
      }
    }
  }

  /** A member of a sum of multisets is in one of the parts. */
  lemma OneSide(v: Vector, xs: seq<Vector>, ys: seq<Vector>, zs: seq<Vector>)
    requires multiset(xs) + multiset(ys) == multiset(zs) || multiset(ys) + multiset(xs) == multiset(zs)
    ensures v in zs ==> v in xs || v in ys
    ensures v in xs ==> v in zs
  {
    assert v in zs <==> v in multiset(zs);
    assert v in xs <==> v in multiset(xs);
    assert v in ys <==> v in multiset(ys);
  }

  /** What `ker_im` leaves for F: its nullity and rank are the lengths of
      the kernel and image lists and add up to the dimension of the source;
      the kernel vectors are sent to zero and the image vectors are not;
      every basis vector F kills is in the kernel list; and the rank is 0
      exactly when F kills every basis vector. */
  ghost predicate KerImOf(F: LinearMap, nullity: nat, rank: nat, kernel: seq<Vector>, image: seq<Vector>) {
    var G := F.(maps := MapChomp(F.maps));
    && nullity == |kernel| && rank == |image| && nullity + rank == |F.source.basis|
    && (forall v | v in kernel :: Annihilates(G, v))
    && (forall x | x in image :: Survives(G, x))
    && (forall v | v in BasisVectors(F.source) && Annihilates(G, v) :: v in kernel)
    && (rank == 0 <==> forall v | v in BasisVectors(F.source) :: Annihilates(G, v))
  }

  /** The rank `ker_im` reports is 0 exactly when every column of F is
      zero, and then the nullity is the dimension of the source. */
  lemma RankZeroIff(F: LinearMap, nullity: nat, rank: nat, kernel: seq<Vector>, image: seq<Vector>)
    requires WellFormed(F) && KerImOf(F, nullity, rank, kernel, image)
    ensures rank == 0 <==> forall i | i in F.source.basis :: IsZeroVector(Column(F, i))
    ensures rank == 0 ==> nullity == |F.source.basis|
  {
    AllKilledIff(F);
  }

  /** The chomped F kills every basis vector exactly when every column of F
      is zero. */
  lemma AllKilledIff(F: LinearMap)
    requires WellFormed(F)
    ensures (forall v | v in BasisVectors(F.source) :: Annihilates(F.(maps := MapChomp(F.maps)), v))
        <==> (forall i | i in F.source.basis :: IsZeroVector(Column(F, i)))
  {
    var G := F.(maps := MapChomp(F.maps));
    var V := F.source;
    var ks := SortedKeys(V.basis.Keys);
    var vs := BasisVectors(V);
    if forall v | v in vs :: Annihilates(G, v) {
      forall i | i in V.basis ensures IsZeroVector(Column(F, i)) {
        assert i in ks;
        var n :| 0 <= n < |ks| && ks[n] == i;
        assert vs[n] == BasisVector(V, i) && vs[n] in vs;
        KilledBasis(F, i);
      }
    }
    if forall i | i in V.basis :: IsZeroVector(Column(F, i)) {
      forall v | v in vs ensures Annihilates(G, v) {
        var n :| 0 <= n < |vs| && vs[n] == v;
        assert ks[n] in ks && v == BasisVector(V, ks[n]);
        KilledBasis(F, ks[n]);
      }
    }
  }

  /** The chomped F kills e_i exactly when the column of F at i is zero. */
  lemma KilledBasis(F: LinearMap, i: Key)
    requires WellFormed(F)
    ensures Annihilates(F.(maps := MapChomp(F.maps)), BasisVector(F.source, i)) <==> IsZeroVector(Column(F, i))
  {
    EvalBasis(F.(maps := MapChomp(F.maps)), i);
  }

  /** `F.ker_im()`: chomps F, then sorts the basis vectors into those F
      kills and those it does not; each round takes the first survivor x as
      a pivot, eliminates its least key m from the other survivors and sorts
      the results again. The kernel and image lists are returned alongside
      their lengths (nullity, rank): every basis vector ends up counted once,
      the kernel vectors are sent to zero and the pivots are not, every
      basis vector F kills is in the kernel list, and the rank is 0 exactly
      when F kills every basis vector. */
  method KerIm(F: LinearMap) returns (r: Result<(nat, nat)>, kernel: seq<Vector>, image: seq<Vector>)
    ensures r.Ok? ==> r.value == (|kernel|, |image|)
    ensures r.Ok? ==> |kernel| + |image| == |F.source.basis|
    ensures forall v | v in kernel :: Annihilates(F.(maps := MapChomp(F.maps)), v)
    ensures forall x | x in image :: Survives(F.(maps := MapChomp(F.maps)), x)
    ensures r.Ok? ==> forall v | v in BasisVectors(F.source) && Annihilates(F.(maps := MapChomp(F.maps)), v) :: v in kernel
    ensures r.Ok? ==> (image == [] <==> forall v | v in BasisVectors(F.source) :: Annihilates(F.(maps := MapChomp(F.maps)), v))
    ensures r.Ok? ==> KerImOf(F, r.value.0, r.value.1, kernel, image)
  {
    var G := ChompMap(F);
    var V := F.source;
    kernel, image := [], [];
    var cands := BasisVectors(V);
    var p := KerPop(G, cands);
    KerPopPartition(G, cands);
    if p.Err? {
      return Err(p.error), kernel, image;
    }
    kernel, cands := p.value.0, p.value.1;
    FirstPop(G, BasisVectors(V), kernel, cands);
    ghost var started := cands != [];
    while cands != []
      invariant |kernel| + |image| + |cands| == |V.basis|
      invariant forall v | v in BasisVectors(V) && Annihilates(G, v) :: v in kernel
      invariant started <==> (cands != [] || image != [])
      invariant forall v | v in kernel :: Annihilates(G, v)
      invariant forall v | v in image :: Survives(G, v)
      invariant forall v | v in cands :: Survives(G, v)
      decreases |cands|
    {
      var x := cands[0];
      assert Survives(G, x);
      image := image + [x];
      if |cands| != 1 {
        var fx := Eval(G, x);
        assert fx.value.components.Keys != {} by {
          var k :| k in fx.value.components;
        }
        var m := MinKey(fx.value.components.Keys);
        var next := Reduce(G, x, fx.value, m, cands[1..]);
        if next.Err? {
          return Err(next.error), kernel, image;
        }
        var q := KerPop(G, next.value);
        KerPopPartition(G, next.value);
        if q.Err? {
          return Err(q.error), kernel, image;
        }
        kernel, cands := kernel + q.value.0, q.value.1;
      } else {
        cands := [];
      }
    }
    r := Ok((|kernel|, |image|));
  }
}
