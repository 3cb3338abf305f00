# alpy core in Dafny

alpy does exact linear algebra over a field, so that every computation with A∞-categories and A∞-modules is exact. It has four layers, and this project models each of them.

- **Exact scalars.**
  - `arithmetic.py` has the extended Euclidean algorithm and `gcd`.
  - `finite_fields.py` has the callbacks of Z/p.
  - `rationals.py` has Q: a numerator and a denominator in normal form.
  - `fields.py` has the `Field`/`Number` dispatch that selects a field's callbacks.
- **Sparse graded linear algebra** (`linear_algebra.py`).
  - A `VectorSpace` maps basis keys to integer degrees.
  - A `Vector` maps keys to numbers of the field, and `chomp` drops the zeros.
  - A `LinearMap` has a source, a target, a degree and a dict of images of basis keys.
  - The operations are direct sum, tensor, shift, flatten/unflatten (regrouping tuple keys), evaluation, composition, restriction, block maps, the regradings `rejig_1/2/3`, `sigma`, the identity, and the Gaussian elimination `ker_im`.
- **The A∞ engine** (`a_infinity.py`).
  - Categories: zero-default lookups of morphism spaces and operations, `hom` as the reversed tensor product, and the degree check and super-word enumeration of `verify`.
  - The Yoneda module.
  - Cochain complexes and their cohomology.
  - Modules: `total` and `width`, `simplify`, `shift`, `oplus`, `twist`, the tensor product of a complex with a module, and the cone of a module map.
- **The earlier dense drafts.**
  - `graded_linear_algebra.py` has graded dimensions with ⊕, ⊗ and shift, graded matrices with the Koszul sign rules, `rank_nullity` and `find_nonzero`.
  - `vector_spaces.py` has dimension-only spaces, `rank_nullity` in place, and `ker`/`image`.
  - `array_manipulations.py` has `find_nonzero`.
  - `shuffle.py` has the basis permutation between (A⊗B)⊗C and A⊗(B⊗C).

## How the model works

**Values.** Python objects become Dafny values:
- `Number` is a datatype with a Z/p case and a Q case;
- `VectorSpace` is a map from `Key` to `int`;
- `Vector` is a space plus a map from `Key` to `Number`;
- `LinearMap` is a source, a target, a degree and a map from `Key` to `Vector`;
- `A8Category`, `A8Module`, `A8ModuleMap` and `CochainComplex` are records of such values.

**Keys.** `Key` is an integer, a string or a tuple of keys. The direct-sum tags `('a', i)` and `('b', j)` are real two-element tuples, exactly as in Python, so flatten and unflatten act on them the way the source's slicing does.

**Exceptions.** Python exceptions and the "print and return None" paths become a `Result` that carries the exception's kind (`TypeError`, `ValueError`, `IndexError`, `KeyError`, and `AttributeError` for a number handed to the other kind of field's callbacks).

**Loops.** The source fills dicts in loops: `update` inside a loop, `del` inside a loop, counters. These become Dafny methods, each proved equal to a specification function over the keys. The properties are then proved about those functions.

**Iteration order.** Python dicts iterate in insertion order. The model replaces that order with one fixed total order on keys (`Keys.KeyLt`):
- integers come before strings, and strings before tuples;
- strings and tuples compare lexicographically.

Every loop walks the keys in that order. Where the order can change a result — an overwritten key, or which error is raised first — the contract states this.

**The dense drafts.** These work on NumPy arrays. The arrays become sequences of rows of `Number`. `find_nonzero` and the elimination of `rank_nullity` run on a Dafny `array`.

## Where the code and its docstrings disagree

The model follows the code in each of these cases.
- `LinearMap.rejig_2` (linear_algebra.py:801-812) multiplies by -1 when m is even, whatever the degree d. Its docstring (linear_algebra.py:796-798) and the matrix version (graded_linear_algebra.py:345-349) use the sign (-1)^{m(d-1)}. `LinearMaps.Rejig2` follows the code; `GradedMaps.Rejig2` follows the matrix version's code.
- `LinearMap.block(A, B, C, D)` (linear_algebra.py:855-874) builds the column at ('a', i) from A[i] and C[i], and the column at ('b', j) from B[j] and D[j]. The docstring's typing puts B and C the other way round. No compatibility check is made: the comment at line 868 only announces one.
- `restrict` (linear_algebra.py:769) asks for a strict subset of the source keys, so restricting to the whole source raises TypeError.
- `A8Module.shift(m)` (a_infinity.py:688) re-grades the unit operations with `rejig_2()`, that is with m = 1, whatever m is.
- `LinearMap.__sub__` (linear_algebra.py:684-690) gives its result the degree `self.deg + other.deg`. Equality uses only the images, so `==` is unaffected.
- `A8Category.verify` ends with `all(truth_dictionary)` (a_infinity.py:163), which tests the dict's keys. These are never empty, so the checks' results are never looked at. This one is also a finding, below.

## Model

| member | source | states |
|---|---|---|
| Arithmetic.DivMod | arithmetic.py:19 | Python's `divmod`: a == q*b + r, with 0 <= r < b for b > 0 and b < r <= 0 for b < 0 |
| Arithmetic.ExtendedEuclideanAlgorithm | arithmetic.py:6-24 | the recursive swap and the `while` loop with its parallel assignment, run step by step, return exactly the as-written algorithm `ExtendedEuclid` |
| Arithmetic.EuclidDivisors | arithmetic.py:6-24 | the third result of the as-written algorithm divides a and b and is an integer combination of them, so every common divisor of a and b divides it |
| Arithmetic.EuclidCoefficients | arithmetic.py:10-24 | what the as-written algorithm returns: (1, 0, a) for b == 0; otherwise the coefficient of the larger argument is 1, and the coefficient t of the smaller one satisfies t*b ≡ d modulo the larger one |
| Arithmetic.EuclidNotBezout | arithmetic.py:7-24 | the intended Bezout identity fails as written: (5, 3) yields (1, 2, 1), and 1*5 + 2*3 != 1 |
| Arithmetic.Bezout | arithmetic.py:7-24 | with `x1, x2` updated the way `y1, y2` are, the algorithm returns x, y with x*a + y*b == d |
| Arithmetic.EuclidAgree | arithmetic.py:17-24 | the corrected algorithm returns the same third result as the as-written one, and the same coefficient for the smaller argument |
| Arithmetic.Gcd | arithmetic.py:26-29 | `gcd(a, b)` is a nonnegative greatest common divisor of a and b (a common divisor that every common divisor divides), and it is 0 exactly when a == b == 0 |
| Arithmetic.GcdUnique | arithmetic.py:26-29 | two nonnegative greatest common divisors of the same pair are equal |
| Arithmetic.GcdSymmetric | arithmetic.py:10-12 | gcd(a, b) == gcd(b, a) |
| Arithmetic.CorrectedGcd | arithmetic.py:26-29 | the absolute value of the corrected algorithm's third result is `gcd(a, b)` |
| Arithmetic.EuclidLemma | arithmetic.py:26-29 | if gcd(a, b) == 1 and a divides b*c, then a divides c |
| FiniteFields.Init | finite_fields.py:9-11 | `ff_init` stores a value in [0, p) that is congruent to its argument modulo p |
| FiniteFields.Add | finite_fields.py:13-16 | `ff_add` gives a residue in [0, p) congruent to a + b |
| FiniteFields.Sub | finite_fields.py:18-21 | `ff_sub` gives a residue in [0, p) congruent to a - b |
| FiniteFields.Mul | finite_fields.py:23-26 | `ff_mul` gives a residue in [0, p) congruent to a * b |
| FiniteFields.Inv | finite_fields.py:34-42 | `ff_inv` fails exactly when a ≡ 0 (mod p); otherwise, for prime p, a * inv ≡ 1 (mod p) |
| FiniteFields.InvAgreesWithSource | finite_fields.py:37-39 | the inverse is `g*t` from the as-written Euclidean algorithm on (p, a mod p) |
| FiniteFields.InvCorrect | finite_fields.py:34-39 | for prime p and a ≢ 0, g*t is an inverse of a modulo p, even though the algorithm's other coefficient is wrong |
| FiniteFields.Div | finite_fields.py:28-32 | `ff_div` fails exactly when y ≡ 0; otherwise it gives a residue in [0, p), and for prime p, r * y ≡ x |
| FiniteFields.DivCorrect | finite_fields.py:28-32 | the quotient `a * b^-1 % p` lies in 0 .. p-1 and, for prime p, times b is a modulo p |
| FiniteFields.Neg | finite_fields.py:44-47 | `ff_neg` gives p - a: a + r ≡ 0 (mod p), and for a stored a, 0 < r <= p (not reduced) |
| FiniteFields.Eq | finite_fields.py:49-59 | `ff_eq` holds exactly when p divides a - b |
| FiniteFields.EqCorrect | finite_fields.py:49-59 | comparing residues `a % p == b % p` is the same as p dividing a - b |
| Rationals.NormalForm | rationals.py:6-20 | `rat_normal_form` fails for b == 0; otherwise it gives a positive denominator coprime to the numerator and the same value a/b, and (0, 1) when a == 0 |
| Rationals.NormalFormCorrect | rationals.py:6-20 | dividing by the gcd and moving the sign to the numerator gives a normal pair of the same value |
| Rationals.NormalUnique | rationals.py:6-20 | a normal pair is determined by its value |
| Rationals.NormalFormWellDefined | rationals.py:6-20 | the normal form depends only on the value of the fraction |
| Rationals.NormalFormOfNormal | rationals.py:22-25 | re-normalising a stored rational gives it back |
| Rationals.Div | rationals.py:45-52 | `rat_div` returns a result exactly when b*c != 0 |
| Rationals.Inv | rationals.py:54-60 | `rat_inv` returns a result exactly when the numerator is nonzero |
| Rationals.EqMeansSameValue | rationals.py:67-77 | for stored rationals, comparing numerators and denominators is comparing values |
| Rationals.EqIntMeansValue | rationals.py:78-83 | a stored rational equals the integer n exactly when its value is n/1 |
| Fields.MakeFF | finite_fields.py:9-11 | `Number(FF(p), raw)` fails exactly on a missing raw value (`None % p`); otherwise it stores a residue of the field Z/p that is congruent to raw |
| Fields.MakeRat | rationals.py:22-25 | `Number(QQ, raw)` fails exactly on None or a zero denominator; otherwise it stores a normal pair of QQ with raw's value |
| Fields.Call | fields.py:44-51 | `K(n)` returns a number unchanged; for an integer it returns a stored number of K that stands for n |
| Fields.FromInt | fields.py:44-51 | `K(i)` for an integer always succeeds |
| Fields.Add | fields.py:66-68 | `x + y` is a stored number of x's field, and succeeds for two stored numbers of the same kind |
| Fields.Sub | fields.py:70-72 | as for `+`, with `num_sub` |
| Fields.MulNumbers | fields.py:74-77 | `x * y` for two numbers: as for `+`, with `num_mul` |
| Fields.Mul | fields.py:74-79 | `x * y` returns NotImplemented exactly when y is not a number, and otherwise calls `num_mul` |
| Fields.Div | fields.py:81-83 | `x / y`, when it succeeds, is a stored number of x's field |
| Fields.Neg | fields.py:85-87 | `-x` is a stored number of x's field, and succeeds for a stored x |
| Fields.Inv | fields.py:89-91 | `x.I()`, when it succeeds, is a stored number of x's field |
| Fields.IsZero | fields.py:93-95 | the test `x == 0` is `num_eq` against the integer 0 |
| Fields.EqMeaning | fields.py:93-95 | `x == y` for stored numbers of one field never fails, and holds exactly when they are the same number |
| Fields.IsZeroMeaning | fields.py:93-95 | a stored number is `== 0` exactly when it is K(0) |
| Fields.AddZero | fields.py:66-68 | x + K(0) == x |
| Fields.ZeroAdd | fields.py:66-68 | K(0) + x == x |
| Fields.AddNeg | fields.py:85-87 | x + (-x) is zero in Z/p (p - a is reduced by the constructor) and in Q |
| Fields.MulInv | fields.py:74-91 | over Q, and over Z/p with p prime, x * x.I() == K(1) for x != 0 |
| Fields.InvIsDiv | fields.py:81-91 | `x.I()` is `K(1) / x` |
| Fields.DivThenMul | fields.py:74-83 | over Q, and over Z/p with p prime, (x / y) * y == x for y != 0 |
| Fields.MulZero | fields.py:74-77 | t * K(0) == K(0) |
| Fields.ZeroMul | fields.py:74-77 | K(0) * x == K(0) |
| Fields.OneMul | fields.py:74-77 | K(1) * x == x |
| Fields.MulOne | fields.py:74-77 | x * K(1) == x |
| Fields.MinusOneMul | fields.py:74-87 | K(-1) * x == -x |
| Fields.MulCommutes | fields.py:74-77 | x * y == y * x |
| Fields.NegNeg | fields.py:85-87 | -(-x) == x |
| Fields.NegOne | fields.py:85-87 | -K(1) == K(-1) |
| Fields.NegZero | fields.py:85-87 | -K(0) == K(0) |
| Fields.SubZeroIff | fields.py:70-72 | for stored numbers of one field, x - y succeeds, and it is zero exactly when x == y |
| Keys.MinKey | linear_algebra.py:190 | the least key of a nonempty set under the model's key order: it is in the set and below every other member |
| Keys.SortedKeys | linear_algebra.py:190 | the order every loop `for x in d` walks: each key of the set exactly once |
| Keys.SortedKeysSorted | linear_algebra.py:190 | that order is strictly increasing |
| Keys.Slice | linear_algebra.py:193 | Python's `x[i:j]` for nonnegative bounds: the subsequence when i <= j <= len, empty when i >= len |
| Keys.FlattenUnflatten | linear_algebra.py:182-221 | a key that `unflatten(m, n)` accepts, with m <= n and m no larger than the tuple, is restored by `flatten(m)` |
| Keys.RekeyLoop | linear_algebra.py:189-201 | the loop `for x in src: out.update({f(x): src[x]})` computes `Rekey`, stopping at the first key whose new key raises |
| Keys.RekeyOk | linear_algebra.py:189-201 | re-keying fails exactly when some key's new key raises |
| Keys.RekeyInjective | linear_algebra.py:189-201 | for a key map defined and one-to-one on the keys, the new dict has exactly the new keys, and each value sits under the new key of its old key |
| Keys.RekeyRoundTrip | linear_algebra.py:182-221 | re-keying by f and then by a left inverse g of f gives back the dict |
| Keys.Tabulate | linear_algebra.py:279 | `{k: f(k) for k in ks}` succeeds exactly when no value raises; then it has the keys ks and value f(k) at k; otherwise its error is the error of some key |
| Keys.TabulateFirstErr | linear_algebra.py:279 | the comprehension raises the error of its first raising key |
| Keys.TabulateKeys | linear_algebra.py:288 | a comprehension over a set of keys succeeds exactly when no value raises, and then holds f(k) at every key of the set |
| Keys.TabulateLoop | linear_algebra.py:791-792 | `for k in ks: r[k] = f(k)` computes the comprehension, returning the first error raised |
| Keys.MapValues | linear_algebra.py:791-792 | `for i in m: r[i] = f(m[i])` gives f of every value, under the same keys |
| Keys.DeleteKeys | linear_algebra.py:516-518 | `for i in ks: del m[i]` leaves the dict without exactly the keys of ks |
| Keys.TagUnionKeys | linear_algebra.py:247-248 | the keys of the tagged union are ('a', i) for the keys i of the first dict and ('b', j) for those j of the second |
| Keys.TagUnionAt | linear_algebra.py:247-248 | ('a', i) is a key of the tagged union exactly when i is a key of the first dict, ('b', j) exactly when j is a key of the second, and each holds the value it tags |
| Keys.TagACard | linear_algebra.py:247 | tagging with 'a' keeps the number of keys |
| Keys.TagBCard | linear_algebra.py:248 | tagging with 'b' keeps the number of keys |
| Keys.TuplesChar | linear_algebra.py:266-268 | `build_basis` holds exactly the tuples with one entry from each basis, in order |
| Keys.TuplesCard | linear_algebra.py:266-268 | `build_basis` has as many tuples as the product of the basis sizes |
| Keys.IntList | graded_linear_algebra.py:107-108 | the degrees of a set of integers, listed in increasing order: exactly the set |
| Keys.IntListSorted | graded_linear_algebra.py:107-108 | the listed degrees strictly increase |
| Keys.IntListCard | graded_linear_algebra.py:107-108 | each degree is listed once |
| Lists.SplitPartition | linear_algebra.py:885-894 | `ker_pop`'s loop fails exactly when some test raises; otherwise casualties and survivors are the elements on which the test is true and false, each in the order met, and together they are all the candidates |
| Lists.MapAll | linear_algebra.py:903-904 | a list comprehension that succeeds has one value per element |
| Lists.MapAllValues | linear_algebra.py:903-904 | the comprehension succeeds exactly when no value raises, and then holds f(xs[n]) at position n |
| Lists.DistinctCard | shuffle.py:44-47 | a list without repetitions has as many elements as its set |
| Lists.NumberingAt | shuffle.py:26-35 | numbering a list without repetitions by position (`{x: k for k, x in enumerate(s)}`) holds exactly its elements, each under its own position |
| Spaces.GrDim | linear_algebra.py:152-156 | `gr_dim` (a `Counter` of the degrees) has exactly the degrees of basis keys, each with a positive count |
| Spaces.GrDimAt | linear_algebra.py:152-156 | read with a default of zero, `gr_dim` counts the basis keys of degree d |
| Spaces.GradedPieces | linear_algebra.py:158-168 | `graded_pieces` has one space per degree of `gr_dim`, over V's field, holding exactly the basis keys of that degree, so its dimension is the count |
| Spaces.Shift | linear_algebra.py:234-238 | `V.shift(n)` keeps the field and the keys and lowers every degree by n |
| Spaces.ShiftCompose | linear_algebra.py:234-238 | shifting by a and then by b is shifting by a + b |
| Spaces.ShiftZero | linear_algebra.py:234-238 | shifting by 0 changes nothing |
| Spaces.GrDimShift | linear_algebra.py:234-238 | shifting by n moves the piece of degree d to degree d - n |
| Spaces.Oplus | linear_algebra.py:240-249 | `V.oplus(W)` fails with TypeError exactly when the fields differ, and keeps the field otherwise |
| Spaces.OplusSplit | linear_algebra.py:247-248 | the degree-d keys of V ⊕ W are the degree-d keys of V tagged 'a' and those of W tagged 'b' |
| Spaces.GrDimOplus | linear_algebra.py:240-249 | graded dimensions of a direct sum add degree by degree |
| Spaces.DimOplus | linear_algebra.py:240-249 | dimensions of a direct sum add |
| Spaces.Tensor | linear_algebra.py:257-282 | `VectorSpace.tensor()` raises IndexError for no space, returns a single space unchanged, and for two or more succeeds exactly when all fields agree, over that field |
| Spaces.OtimesField | linear_algebra.py:251-254 | `V.otimes(W)` succeeds only over one field |
| Spaces.OtimesBasis | linear_algebra.py:251-282 | the basis of V ⊗ W is the pairs (i, j) of basis keys, and the degree of (i, j) is the sum of the degrees |
| Spaces.DimTensor | linear_algebra.py:263-280 | the dimension of a tensor of two or more spaces is the product of the dimensions |
| Spaces.DimOtimes | linear_algebra.py:251-254 | dim(V ⊗ W) == dim V * dim W |
| Spaces.Flatten | linear_algebra.py:182-201 | the loop of `V.flatten(k)` computes the re-keyed space |
| Spaces.Unflatten | linear_algebra.py:203-221 | the loop of `V.unflatten(m, n)` computes the re-keyed space |
| Spaces.SpaceRoundTrip | linear_algebra.py:182-221 | `unflatten(m, n)` followed by `flatten(m)` gives back the space, when every key is a tuple of at least m entries (or a string the slice takes whole) |
| Spaces.UnflattenDegrees | linear_algebra.py:203-221 | `unflatten(m, n)` keeps degrees: the new keys are exactly the regrouped old keys, each with its old key's degree |
| Spaces.Build | linear_algebra.py:223-232 | `V.build(graded_dim)` adds a block of consecutive integer keys per entry, moving the counter on by each count |
| Spaces.BuildGrDim | linear_algebra.py:223-232 | building from entries with nonnegative counts gives, in each degree, exactly the requested number of basis vectors |
| Vectors.Chomp | linear_algebra.py:513-519 | `chomp` keeps exactly the components that are not `== 0`, with their values, so no zero component is left |
| Vectors.ChompVector | linear_algebra.py:513-519 | the collect-then-delete loop of `v.chomp()` leaves exactly `Chomp` of the components |
| Vectors.ChompIdempotent | linear_algebra.py:513-519 | chomping twice is chomping once |
| Vectors.ChompKeepsValue | linear_algebra.py:392-397 | chomping a vector over its field changes no component `v[i]` |
| Vectors.Add | linear_algebra.py:406-410 | `v + w` raises TypeError unless the spaces agree, and its result lies in v's space and has been chomped |
| Vectors.Sub | linear_algebra.py:412-417 | as for `+`, for `v - w` |
| Vectors.Scale | linear_algebra.py:419-427 | `v * t` lies in v's space and has been chomped |
| Vectors.Neg | linear_algebra.py:438-440 | `-v` lies in v's space and has the same component keys (it is not chomped) |
| Vectors.Eq | linear_algebra.py:429-435 | `v == w` fails exactly when `v - w` does |
| Vectors.AddComponents | linear_algebra.py:406-410 | for compatible vectors `v + w` succeeds, and its component at i is v[i] + w[i] |
| Vectors.SubComponents | linear_algebra.py:412-417 | for compatible vectors `v - w` succeeds, and its component at i is v[i] - w[i] |
| Vectors.ScaleComponents | linear_algebra.py:419-423 | scaling succeeds and multiplies every component by `K(t)` |
| Vectors.ScaleMinusOne | linear_algebra.py:419-423 | scaling by -1 negates every component |
| Vectors.ScaleOne | linear_algebra.py:419-423 | scaling a chomped vector by 1 gives it back |
| Vectors.NegComponents | linear_algebra.py:438-440 | negation succeeds and negates every component |
| Vectors.SameComponents | linear_algebra.py:392-397 | two chomped vectors of one space with the same components everywhere are the same vector |
| Vectors.EqMeaning | linear_algebra.py:429-433 | for chomped compatible vectors, `v == w` holds exactly when the component dicts agree, as the docstring says |
| Vectors.ShiftRoundTrip | linear_algebra.py:478-480 | `v.shift(m).shift(-m) == v`: the components are kept and the space shifted back |
| Vectors.Oplus | linear_algebra.py:506-511 | `v.oplus(w)` fails exactly when the fields differ, and lies in the direct sum of the spaces |
| Vectors.OplusComponents | linear_algebra.py:506-511 | the direct sum has v's components at ('a', i) and w's at ('b', j) |
| Vectors.Tensor | linear_algebra.py:485-504 | `Vector.tensor()` raises IndexError for no vector and returns a single vector unchanged; for two or more its space is the tensor of the spaces and it has been chomped |
| Vectors.TensorComponents | linear_algebra.py:485-504 | for two or more vectors over one field the tensor succeeds and carries, at a tuple of component keys, the product of the components, and zero elsewhere |
| Vectors.OtimesComponents | linear_algebra.py:482-504 | the component of v ⊗ w at (i, j) is v[i] * w[j] |
| Vectors.Flatten | linear_algebra.py:442-458 | the loop of `v.flatten(k)` computes the flattened vector |
| Vectors.Unflatten | linear_algebra.py:460-476 | the loop of `v.unflatten(m, n)` computes the unflattened vector |
| Vectors.VectorRoundTrip | linear_algebra.py:442-476 | `v.unflatten(m, n).flatten(m)` gives back v |
| LinearMaps.ColumnFacts | linear_algebra.py:651-657 | `F[i]` of a well-formed map is a chomped vector of the target, the zero vector when i is not stored |
| LinearMaps.Eval | linear_algebra.py:659-667 | the loop `w += v[i] * F[i]` of `F(v)`, chomped, raising TypeError unless v lies in the source, computes `EvalSpec` |
| LinearMaps.EvalComponents | linear_algebra.py:659-667 | F(v) succeeds on a vector of the source, is chomped, and has at every key j the linear combination of the columns of F with the coordinates of v |
| LinearMaps.EvalBasis | linear_algebra.py:651-667 | F(e_i) == F[i] |
| LinearMaps.EvalZero | linear_algebra.py:659-667 | F(0) == 0 |
| LinearMaps.ZeroMapEval | linear_algebra.py:659-667 | a map with no stored images sends every vector to zero |
| LinearMaps.MapChomp | linear_algebra.py:704-711 | `F.chomp()` keeps exactly the images that are not `== 0`, unchanged |
| LinearMaps.ChompMap | linear_algebra.py:704-711 | the collect-then-delete loop of `F.chomp()` computes `MapChomp` |
| LinearMaps.Add | linear_algebra.py:676-682 | `F + G` raises TypeError unless source, target and degree agree; the sum keeps them and stores no zero image |
| LinearMaps.Sub | linear_algebra.py:684-690 | `F - G` raises TypeError unless source, target and degree agree; the difference has degree `F.deg + G.deg`, as written, and stores no zero image |
| LinearMaps.AddColumns | linear_algebra.py:676-682 | the columns of F + G are the sums of the columns |
| LinearMaps.AddWellFormed | linear_algebra.py:676-682 | F + G of two summable maps is a well-formed map: columns in the target, no stored zeros |
| LinearMaps.SubColumns | linear_algebra.py:684-690 | the columns of F - G are the differences of the columns |
| LinearMaps.SubColumnZero | linear_algebra.py:684-690 | a column of F - G is zero exactly when the columns of F and G agree |
| LinearMaps.Eq | linear_algebra.py:669-674 | `F == G` fails exactly when `F - G` does |
| LinearMaps.EqMeaning | linear_algebra.py:669-674 | two well-formed maps that `compat` accepts are `==` exactly when all their columns agree |
| LinearMaps.Verify | linear_algebra.py:718-727 | `F.verify()` is True when every stored key is a source key and every image lies in the target, and TypeError otherwise |
| LinearMaps.Id | linear_algebra.py:284-289 | `V.Id()` goes from V to V with degree 0 |
| LinearMaps.IdWellFormed | linear_algebra.py:284-289 | in a field where 1 != 0 the identity is the map of basis vectors `V[i]` at every key of V |
| LinearMaps.IdEval | linear_algebra.py:284-289 | the identity sends every chomped vector of V to itself |
| LinearMaps.Sigma | linear_algebra.py:291-298 | `V.sigma()`, when it succeeds, goes from V to V with degree 0 |
| LinearMaps.SigmaColumns | linear_algebra.py:291-298 | sigma succeeds and sends each basis vector b to (-1)^(|b|-1) b: -b for even degree, b for odd |
| LinearMaps.Restrict | linear_algebra.py:765-774 | `F.restrict(V)` succeeds exactly when V's keys are a strict subset of the source keys; the restriction keeps target and degree and the columns at V's keys |
| LinearMaps.RestrictWhole | linear_algebra.py:769 | restricting a map to its whole source raises TypeError |
| LinearMaps.Circ | linear_algebra.py:776-783 | `F.circ(G)` raises TypeError unless G's target is F's source; the result goes from G's source to F's target with degree `F.deg + G.deg` |
| LinearMaps.CircColumns | linear_algebra.py:776-783 | for composable maps the composition succeeds, is well formed, and its column at i is F(G[i]) |
| LinearMaps.CircWellFormed | linear_algebra.py:776-783 | the composition of composable well-formed maps succeeds and is well formed |
| LinearMaps.CircEval | linear_algebra.py:776-783 | (F ∘ G)(e_i) == F(G(e_i)) |
| LinearMaps.Rejig1 | linear_algebra.py:785-793 | the loop of `rejig_1(m)` computes `Rejig1Spec`: degree d - m, the same source, target `N.shift(m)`, each stored image shifted |
| LinearMaps.Rejig1WellFormed | linear_algebra.py:785-793 | rejig_1 keeps a map well formed, and each column is the old column shifted |
| LinearMaps.Rejig1Eval | linear_algebra.py:785-793 | `F.rejig_1(m)(v)` is `F(v)` shifted by m |
| LinearMaps.Rejig1Inverse | linear_algebra.py:785-793 | rejig_1(-m) undoes rejig_1(m) |
| LinearMaps.Rejig2 | linear_algebra.py:795-812 | `rejig_2(m)` shifts both spaces by m and keeps the degree; it always succeeds for odd m |
| LinearMaps.ShiftedMap | linear_algebra.py:807-812 | the odd-m branch: the same stored keys, every image shifted by m |
| LinearMaps.Rejig2Even | linear_algebra.py:801-806 | for even m, rejig_2 stores at each key the shifted image times K(-1), whatever the degree d |
| LinearMaps.Rejig2Odd | linear_algebra.py:807-812 | for odd m, rejig_2 is `ShiftedMap` and changes no sign |
| LinearMaps.Rejig2Columns | linear_algebra.py:795-812 | rejig_2 keeps a map well formed and multiplies every entry by -1 for even m and by 1 for odd m |
| LinearMaps.Rejig2WellFormed | linear_algebra.py:795-812 | rejig_2 of a well-formed map always succeeds and is well formed |
| LinearMaps.Rejig3Columns | linear_algebra.py:814-820 | `rejig_3(m) = rejig_2(m).rejig_1(-m)` has source M[m], target N, degree d + m and the entries of rejig_2(m) |
| LinearMaps.Rejig3Shape | linear_algebra.py:814-820 | rejig_3 of a well-formed map succeeds, is well formed, and goes from `M.shift(m)` to N with degree d + m |
| LinearMaps.Tensor | linear_algebra.py:832-853 | `LinearMap.tensor()` raises IndexError for no map and returns a single map unchanged; for two or more its spaces are the tensors of the sources and of the targets, with the degrees summed |
| LinearMaps.TensorColumns | linear_algebra.py:822-851 | the tensor of two maps sends e_i ⊗ e_j to F(e_i) ⊗ G(e_j) |
| LinearMaps.TensorEntries | linear_algebra.py:822-851 | the entries of F ⊗ G are the products of the entries of F and G |
| LinearMaps.Block | linear_algebra.py:855-874 | `LinearMap.block(A, B, C, D)` goes from A.source ⊕ D.source to A.target ⊕ D.target with degree A.deg |
| LinearMaps.Assembled | linear_algebra.py:869-874 | the block map exists exactly when both spaces and both comprehensions succeed, and then its dict is their tagged union |
| LinearMaps.BlockFirst | linear_algebra.py:872 | column ('a', i) of the block map holds A[i] on the first summand and C[i] on the second |
| LinearMaps.BlockSecond | linear_algebra.py:873 | column ('b', j) holds B[j] on the first summand and D[j] on the second |
| LinearMaps.Flatten | linear_algebra.py:729-745 | the loop of `F.flatten(k)` computes the flattened map |
| LinearMaps.Unflatten | linear_algebra.py:747-763 | the loop of `F.unflatten(m, n)` computes the unflattened map |
| LinearMaps.MapRoundTrip | linear_algebra.py:729-763 | `F.unflatten(m, n).flatten(m)` gives back F |
| Elimination.KerPopPartition | linear_algebra.py:885-894 | `ker_pop` succeeds exactly when F can be applied to every candidate; then the casualties are sent to zero, the survivors are not, and together they are the candidates |
| Elimination.KerPop | linear_algebra.py:885-894 | the loop of `ker_pop` computes `KerPopSpec` |
| Elimination.ReduceStep | linear_algebra.py:903-904 | one reduced candidate `(y - (F(y)[m] / F(x)[m]) * x).chomp()`, step by step |
| Elimination.Reduce | linear_algebra.py:903-904 | the comprehension of reduced candidates, failing at the first failing one |
| Elimination.BasisVectors | linear_algebra.py:881 | `[V[i] for i in V.basis]` has one vector per basis key |
| Elimination.KerIm | linear_algebra.py:876-908 | `ker_im()` returns (len(kernel), len(image)), and nullity + rank == dim of the source; every kernel vector is sent to zero by chomped F, and every image vector is not; every basis vector F kills ends in the kernel list; the image list is empty exactly when F kills every basis vector |
| Elimination.FirstPop | linear_algebra.py:880-896 | the first `ker_pop`, on the basis vectors, puts every vector F kills among the casualties and leaves no survivors exactly when F kills them all |
| Elimination.RankZeroIff | linear_algebra.py:876-908 | the rank `ker_im` reports is 0 exactly when every column of F is zero, and then the nullity is the dimension of the source |
| Elimination.AllKilledIff | linear_algebra.py:880-895 | the chomped F kills every basis vector exactly when every column of F is zero |
| Elimination.KilledBasis | linear_algebra.py:880-889 | the chomped F kills e_i exactly when the column of F at i is zero |
| Dense.FirstNonzeroUnique | array_manipulations.py:5-23 | the answer `find_nonzero` promises is unique: two searches of the same row that both satisfy its description agree |
| Dense.FindNonzero | array_manipulations.py:5-23 | returns `Found(x, n[x])` for the first x with `n[x] != 0` (every earlier entry is zero), or `NotFound` when every entry is zero |
| Dense.Eliminate | vector_spaces.py:9-34 | the in-place elimination returns (rank, nullity) with rank + nullity == number of columns and 0 <= rank <= rows; if every entry lies in Q or Z/p with p prime, no division fails and the nullity is not negative |
| Dense.ClearBelow | vector_spaces.py:26-29 | clearing column s below the pivot row n never fails over Q or a prime field and leaves every row below n zero in every pivot column found so far, s included |
| Dense.ClearRow | vector_spaces.py:27-29 | subtracting `c` times row n from row x changes row x only, and makes its entry in column s zero |
| Dense.RankNullity | graded_linear_algebra.py:560-587 | the graded draft's `rank_nullity`, which eliminates on a copy: the same count and bounds, with the input matrix untouched |
| Dense.VsOtimes | vector_spaces.py:60-66 | `V.otimes(W)` exists exactly when the fields are equal, and then has dimension `V.dim * W.dim` over that field |
| Dense.VsOplus | vector_spaces.py:71-78 | `V.oplus(W)` exists exactly when the fields are equal, and then has dimension `V.dim + W.dim` |
| Dense.VsQuotient | vector_spaces.py:83-93 | `V / W` exists exactly when `V.dim >= W.dim`; its dimension plus W's is V's, over V's field |
| Dense.QuotientOfSum | vector_spaces.py:71-93 | `(V + W) / W == V` over one field |
| Dense.Ker | vector_spaces.py:175-179 | `F.ker()` is a space over F's field whose dimension is the nullity, between `cols - rows` and `cols`; never an error over Q or a prime field |
| Dense.Image | vector_spaces.py:180-183 | `F.image()` is a space over F's field whose dimension is the rank, between 0 and the number of rows (and at most the number of columns over Q or a prime field) |
| Graded.SpaceEq | graded_linear_algebra.py:93-100 | `V == W` holds exactly when the two spaces have the same graded dimension in every degree |
| Graded.AddDim | graded_linear_algebra.py:84-87 | adding v to degree n (and creating the degree when it is missing) changes that degree's dimension by v and no other |
| Graded.Oplus | graded_linear_algebra.py:76-88 | `V.oplus(W)` has V's field, the degrees of V and of W, and `dim V^n + dim W^n` in each degree n |
| Graded.Otimes | graded_linear_algebra.py:102-113 | `V.otimes(W)` has V's field, its degrees are the sums p + q of degrees of V and W, and in degree n its dimension is the sum of `dim V^p * dim W^q` over p + q == n |
| Graded.OtimesRow | graded_linear_algebra.py:108-112 | the inner loop over the degrees q of W adds `dim V^p * dim W^q` to degree p + q for each q in turn |
| Graded.Shift | graded_linear_algebra.py:123-132 | `V.shift(m)` has V's field and puts V's piece of degree n in degree n - m, with no other degrees |
| Graded.ShiftGrDim | graded_linear_algebra.py:123-132 | `V.shift(m).gr_dim(d) == V.gr_dim(d + m)` for every d |
| Graded.ShiftRoundTrip | graded_linear_algebra.py:123-132 | `V.shift(m).shift(-m) == V` |
| Graded.TestOplus | test.py:17-18 | `{0:1,2:1} ⊕ {0:1}` is `{0:2,2:1}` |
| Graded.TestOtimes | test.py:19-20 | `{0:1,2:1} ⊗ {0:2,2:1}` is `{0:2,2:3,4:1}` |
| Graded.TestOplusAgain | test.py:21 | `{0:2,2:1} ⊕ {0:2,2:3,4:1}` is `{0:4,2:4,4:1}` |
| Graded.TestShift | test.py:26-27 | `{0:1}.shift()` is `{-1:1}` |
| Graded.OtimesUnit | graded_linear_algebra.py:102-113 | tensoring with the field in degree 0 changes no degree and no dimension |
| GradedMaps.GrMap | graded_linear_algebra.py:218-230 | `gr_map(n)` is the stored matrix in a stored degree; otherwise it is the zero matrix from V^n to W^{n+d}, which exists exactly when neither dimension is negative |
| GradedMaps.GrMapShape | graded_linear_algebra.py:218-230 | for a consistent map, `gr_map(n)` always exists and has `dim W^{n+d}` rows and `dim V^n` columns |
| GradedMaps.Scale | graded_linear_algebra.py:322 | `K.num(sigma) * M` succeeds exactly when every entry can be multiplied by sigma, keeps the shape, and multiplies each entry |
| GradedMaps.ScaleSign | graded_linear_algebra.py:322 | multiplying a matrix over K by K(1) or K(-1) always succeeds and stays over K |
| GradedMaps.ScaleTwice | graded_linear_algebra.py:322 | multiplying twice by the same sign gives the matrix back |
| GradedMaps.KoszulSign | graded_linear_algebra.py:317-320 | the sign is 1 or -1 |
| GradedMaps.KoszulSignIsSource | graded_linear_algebra.py:317-320 | the sign is -1 exactly when `(m*(n-1)) % 2 == 1` |
| GradedMaps.Koszulify | graded_linear_algebra.py:311-323 | `koszulify(m)` keeps degree, spaces and stored degrees and multiplies the matrix of degree n by sigma(m, n); it fails only where some entry cannot be multiplied, never for entries of the field |
| GradedMaps.KoszulInvolution | graded_linear_algebra.py:311-323 | koszulifying twice with the same m gives back the map |
| GradedMaps.KoszulKeeps | graded_linear_algebra.py:311-323 | koszulifying keeps entries in the field and keeps a consistent map consistent |
| GradedMaps.Rejig1 | graded_linear_algebra.py:325-334 | `rejig_1(m)` has degree d - m, the same source, target `N.shift(m)` and the same stored matrices |
| GradedMaps.Rejig1GrMap | graded_linear_algebra.py:325-334 | rejig_1 changes no `gr_map(n)` |
| GradedMaps.Rejig1RoundTrip | graded_linear_algebra.py:325-334 | rejig_1(-m) undoes rejig_1(m) |
| GradedMaps.Rejig2 | graded_linear_algebra.py:336-351 | `rejig_2(m)` keeps the degree d, shifts both spaces by m and stores in degree n - m the matrix of degree n times `(-1)^(m(d-1))`; never an error for entries of the field |
| GradedMaps.Rejig2RoundTrip | graded_linear_algebra.py:336-351 | rejig_2(-m) undoes rejig_2(m): the degree is kept, so the two signs cancel |
| GradedMaps.Rejig3 | graded_linear_algebra.py:353-359 | `rejig_3(m)` has degree d + m, source `M.shift(m)`, target N, and the signed, re-indexed matrices of rejig_2(m) |
| GradedMaps.Rejig3Shape | graded_linear_algebra.py:353-359 | `rejig_2(m).rejig_1(-m)` is the map the docstring's isomorphism hom(M,N) -> hom(M[m],N)[m] describes |
| GradedMaps.DegreeCounts | graded_linear_algebra.py:372-373 | `rank_nullity(F.gr_map(n))`: rank + nullity is the number of columns of `gr_map(n)` and the rank lies between 0 and its rows |
| GradedMaps.KerIm | graded_linear_algebra.py:361-378 | `ker_im()` records the nullity of `gr_map(n)` in kernel degree n and its rank in image degree n + d, for exactly the degrees n of the source; over Q or a prime field it never fails and no kernel count is negative |
| GradedMaps.KerImLoop | graded_linear_algebra.py:371-377 | the loop of `ker_im` over the source degrees in order |
| GradedMaps.GradedRankNullity | graded_linear_algebra.py:361-378 | for a consistent map, `ker[n] + im[n+d] == dim V^n`, and `0 <= im[n+d] <= dim W^{n+d}` |
| GradedMaps.Cohomology | graded_linear_algebra.py:527-537 | `cohomology()` has a degree for each kernel degree, holding `ker[n] - im[n]`; over Q or a prime field it never fails |
| GradedMaps.CohomologyCases | graded_linear_algebra.py:527-537 | for a differential of degree 1, H^n is nullity(d^n) - rank(d^{n-1}) when n - 1 is a degree, and nullity(d^n) otherwise |
| GradedMaps.CohomologyBound | graded_linear_algebra.py:527-537 | for a consistent differential of degree 1, `dim H^n <= dim C^n` |
| Shuffle.IntListEnds | shuffle.py:20-25 | the first and last of the sorted degrees are the `min` and `max` of a nonempty set of degrees |
| Shuffle.FrameOf | shuffle.py:20-25 | the loop bounds m1, r1, m2, r2 are the least and greatest degrees of A and B |
| Shuffle.PostListHas | shuffle.py:26-35 | the basis cells `(x,u,y,v,n-x-y,w)` the post-shuffle loops visit are exactly the basis vectors of (A ⊗ B) ⊗ C in degree n |
| Shuffle.PostOrder | shuffle.py:26-35 | the five nested loops number the cells of the post order by their positions |
| Shuffle.PreListHas | shuffle.py:36-43 | the cells `(x,u,i-x,v,n-i,w)` the pre-shuffle loops visit are exactly the same basis vectors |
| Shuffle.PreOrder | shuffle.py:36-43 | the five nested loops list the cells of the pre order |
| Shuffle.SameBasis | shuffle.py:26-43 | neither order repeats a cell, both visit the same cells, and they have the same length |
| Shuffle.Shuffle | shuffle.py:14-47 | `shuffle(n, A, B, C)` raises ValueError exactly when one of the spaces has no degrees; otherwise entry k is the post-order position of the k-th pre-order cell |
| Shuffle.ShufflePermutes | shuffle.py:14-47 | the shuffle array is a permutation of 0 .. N-1, where N is the number of basis vectors in degree n |
| Shuffle.ShuffleStep | shuffle.py:44-46 | each pre-order cell has a post-order number, and that number points back at the cell |
| AInfinity.Morphisms | a_infinity.py:87-92 | `A[(X, Y)]` is the stored space when there is one and the zero space over A's field otherwise |
| AInfinity.HomSpec | a_infinity.py:94-103 | `A.hom(*word)` raises IndexError for a word of fewer than two objects, is `A[(X_0, X_1)]` for two, and for more is the tensor `A[(X_{d-1}, X_d)] ⊗ … ⊗ A[(X_0, X_1)]`, which exists exactly when all factors share a field |
| AInfinity.HomReversed | a_infinity.py:100-102 | the first tensor factor is the last pair of the word and the last factor the first pair |
| AInfinity.HomOfThree | a_infinity.py:94-103 | `A.hom(X, Y, Z)` is `A[(Y, Z)] ⊗ A[(X, Y)]`, of dimension the product of theirs |
| AInfinity.Hom | a_infinity.py:94-103 | the loop that builds `tensor_list` computes `HomSpec` |
| AInfinity.Mu | a_infinity.py:105-113 | `A.mu(*word)` is the stored operation, or else the zero map from `A.hom(*word)` to `A[(X_0, X_d)]` of degree `3 - len(word)`, failing exactly when the hom space does |
| AInfinity.MuUnstoredIsZero | a_infinity.py:109-113 | an operation that is not stored sends every vector to zero |
| AInfinity.DegreesCheck | a_infinity.py:120-123 | the first loop of `verify` returns true exactly when every stored operation on a word of length L has degree 3 - L |
| AInfinity.SuperWordsMembers | a_infinity.py:125-133 | a super-word is exactly `outer[:k] + inner + outer[k+2:]` for stored words inner and outer with `(outer[k], outer[k+1])` the endpoints of inner |
| AInfinity.SpliceShape | a_infinity.py:129-133 | a splice has length `len(outer) + len(inner) - 2` and keeps outer's first and last objects |
| AInfinity.SuperWordShape | a_infinity.py:125-133 | every super-word is the splice of two stored words, so it is never empty |
| AInfinity.SplicesOf | a_infinity.py:128-133 | the loop over the positions of one outer word collects its splices of inner |
| AInfinity.SpliceAll | a_infinity.py:125-133 | the double loop over stored words collects every splice, and raises IndexError when the empty word is stored |
| AInfinity.CollectSuperWords | a_infinity.py:119-133 | the degree check raises ValueError first; otherwise the super-words, or IndexError for a stored empty word |
| AInfinity.CategoryVerify | a_infinity.py:115-166 | `verify()` as written: the degree check and the empty-word error, and otherwise True whatever `check_word` returns |
| AInfinity.VerifyIgnoresChecks | a_infinity.py:160-166 | the one-object category whose hom(X, X) is the line and whose mu(X, X) is the identity given degree 1 passes the degree check and `all(truth_dictionary)`, with (X, X) a super-word whose check is False |
| AInfinity.LineCheckWord | a_infinity.py:135-158 | for the word (X, X) of that category, hom(X, X) is the line and mu(X, X) is the identity of degree 1, so `check_word` adds mu(X, X) o mu(X, X) to the zero map of degree 2 |
| AInfinity.LineSquareNonzero | a_infinity.py:154-158 | on the line, the sum `check_word` forms for (X, X) is not equal to the zero map, so the check is False |
| AInfinity.CategoryVerifyIntended | a_infinity.py:115-166 | `verify()` with the final test on the checks' results: True exactly when every super-word passes, ValueError otherwise |
| AInfinity.Yoneda | a_infinity.py:168-179 | `A.yoneda(Q)` raises ValueError unless Q is an object; its fibre over X is `A[(X, Q)]` for exactly the stored pairs (X, Q), and its operation on p is the category's operation on p + (Q,) |
| AInfinity.KerIms | a_infinity.py:361-362 | the first loop of `cohomology` records, for every degree, the nullity and rank `ker_im` gives for d_n, with the kernel and image lists behind them (`KerImOf`) |
| AInfinity.CohomFrom | a_infinity.py:363-367 | the second loop gives `kernels[n] - images[n-1]` when n - 1 is a degree and `kernels[n]` otherwise, for exactly the degrees of the kernels |
| AInfinity.SingleDegreeFails | a_infinity.py:360 | for cochains concentrated in one degree, the restriction to the only piece is a restriction to the whole source, which raises TypeError |
| AInfinity.GradedMaps | a_infinity.py:355-360 | `{n: d.restrict(G[n]) for n in G}` succeeds exactly when every piece is a strict part of d's source; then each d_n has the piece Z_n, of dimension `dim Z^n`, as its source |
| AInfinity.Cohomology | a_infinity.py:351-368 | `cohomology()` has one entry per degree; d_n is the graded piece of the differential, its nullity and rank are those `ker_im` gives for it (kernel vectors killed, image vectors not, rank 0 exactly when d_n kills every basis vector), nullity + rank is `dim Z^n`, and H^n is nullity(d_n) - rank(d_{n-1}), the rank counted only when n - 1 is a degree; TypeError for a complex in a single degree |
| AInfinity.CohomologyRankZero | a_infinity.py:351-368 | in the counts behind `cohomology()`, the rank of d_n is 0 exactly when d_n is the zero map, and then the nullity is `dim Z^n` |
| AInfinity.ComplexVerify | a_infinity.py:375-384 | `Z.verify()` returns True exactly when `d.verify()` passes and `d ∘ d` equals the zero map of degree 2, and raises otherwise |
| AInfinity.SquareZeroMeaning | a_infinity.py:375-384 | for a well-formed differential on the cochains, the check passes exactly when d has degree 1 and d(d(e_i)) == 0 for every basis key i |
| A8Modules.ModGet | a_infinity.py:503-510 | `M[X]` is the stored fibre, or the zero space over the category's field |
| A8Modules.ModDomain | a_infinity.py:519-527 | the source of an unset operation: `M[X]` for a word of one object and `M[X_1] ⊗ A.hom(X_0, X_1)` for two |
| A8Modules.ModDomainPair | a_infinity.py:519-527 | for two objects over one field that source exists and its dimension is `dim M[Y] * dim A[(X, Y)]` |
| A8Modules.ModMu | a_infinity.py:512-528 | `M.mu(*word)` is the stored operation, or else the zero map from that source to `M[X_0]` of degree `2 - len(word)`; an empty word raises IndexError, and a word of one object always gives a map |
| A8Modules.Cpt | a_infinity.py:817-824 | `e.cpt(*word)` is the stored component, or else the zero map from `e.source.mu(*word).source` to `e.target[X_0]` of degree `1 + e.deg - len(word)` |
| A8Modules.CptUnsetIsZero | a_infinity.py:821-824 | an unset component sends every vector to zero |
| A8Modules.Cpx | a_infinity.py:660-664 | `M.cpx(X)` has cochains `M[X]` and differential `M.mu(X)` |
| A8Modules.TotalMeaning | a_infinity.py:672-676 | in every degree the total, read with a default of 0, is the sum of the objects' cohomology ranks there, and no stored entry is 0 |
| A8Modules.ObjectCohomology | a_infinity.py:672 | one object's cohomology has one entry per degree of `M[X]` and is the cohomology of `M.cpx(X)` (`IsCohomology`) |
| A8Modules.CohomologiesOver | a_infinity.py:672 | the comprehension `coh_gps` has one entry per object, each with the degrees of its fibre and each the cohomology of `M.cpx(X)` |
| A8Modules.Total | a_infinity.py:666-677 | `M.total()` is, for cohomologies that are those of the complexes `M.cpx(X)` of all objects, the nonzero degree-wise sums |
| A8Modules.WidthOf | a_infinity.py:679-682 | `min` and `max` of the degrees of the total: ValueError exactly when the total is empty, otherwise two of its degrees bounding all the others |
| A8Modules.Width | a_infinity.py:679-682 | `M.width()` computes `WidthOf` of `M.total()`, the total of the cohomologies of the complexes `M.cpx(X)` |
| A8Modules.ShiftedOp | a_infinity.py:690-700 | the operation on a longer word of `M.shift(m)` keeps the degree and stored keys, targets `M[X_0].shift(m)` and shifts each image by m |
| A8Modules.ModShiftSpec | a_infinity.py:684-701 | `M.shift(m)` has the fibres `M[X].shift(m)` and operations on the unit words and the longer stored words |
| A8Modules.ModShift | a_infinity.py:684-701 | the comprehensions of `shift` compute `ModShiftSpec` |
| A8Modules.ModShiftFibres | a_infinity.py:687 | the shifted fibre has in degree d the dimension M[X] has in d + m, and shifting back by -m gives M[X] |
| A8Modules.ModShiftUnits | a_infinity.py:688-689 | the unit operation of `M.shift(m)` is `mu(X).rejig_2()`: spaces shifted by 1 whatever m is, the degree kept, images shifted by 1 |
| A8Modules.ModShiftColumns | a_infinity.py:690-700 | on a longer word the image of each stored key is M's image shifted by m |
| A8Modules.ModOplus | a_infinity.py:703-727 | `M.oplus(N)` has a fibre `M[X] ⊕ N[X]` for each object of either module and an operation on each non-empty stored word of either |
| A8Modules.ModOplusFibres | a_infinity.py:707-708 | each fibre of the sum has dimension `dim M[X] + dim N[X]`, degree by degree |
| A8Modules.Cone | a_infinity.py:836-871 | `e.cone()` has fibres `M[X].shift() ⊕ N[X]` for the objects of either module and an operation on each non-empty word among e's components and the two modules' operations |
| A8Modules.ConeFibres | a_infinity.py:852-853 | the cone's fibre over X has dimension `dim M[X] + dim N[X]`, and in degree d the dimension `dim M[X]^{d+1} + dim N[X]^d` |
| A8Modules.AsUnitWords | a_infinity.py:393-394 | the unit operations are keyed by the one-object words (X,) |
| A8Modules.OtimesModules | a_infinity.py:392 | the fibres of `Z.otimes(M)` are `Z ⊗ M[X]`, one for each fibre of M |
| A8Modules.ComplexOtimesSpec | a_infinity.py:386-399 | `Z.otimes(M)` has M's category, fibres `Z ⊗ M[X]`, unit operations for each fibre and an operation on each longer stored word |
| A8Modules.ComplexOtimes | a_infinity.py:386-399 | the comprehensions of `otimes` compute `ComplexOtimesSpec` |
| A8Modules.ComplexOtimesFibres | a_infinity.py:392 | each fibre of `Z.otimes(M)` has dimension `dim Z * dim M[X]` |
| Simplification.BasisOrder | a_infinity.py:629-630 | `list(M[X].basis.keys())` lists each basis key of the fibre exactly once |
| Simplification.TranslateKey | a_infinity.py:629-630 | `translator[X][i]` exists exactly when i is a basis key of the fibre M[X] (KeyError otherwise), and is the integer position of i in the basis order |
| Simplification.Renumbered | a_infinity.py:628-632 | the new fibre has the basis keys 0 .. dim - 1, key n carrying the degree of the n-th old key |
| Simplification.TranslateKeyDegree | a_infinity.py:629-632 | a translated key is a basis key of the new fibre with the old key's degree |
| Simplification.RenumberedGrDim | a_infinity.py:628-632 | renumbering keeps the dimension and the graded dimension in every degree |
| Simplification.SimplifiedFibres | a_infinity.py:627-632 | each fibre of `M.simplify()` is over M's field, has keys 0 .. dim M[X] - 1, and the dimensions of M[X] in total and degree by degree |
| Simplification.Unpacked | a_infinity.py:634-635 | `tr_bas(X, *i)` unpacks a tuple into its entries, a string into its characters, and raises TypeError for an integer |
| Simplification.TranslateIndex | a_infinity.py:634-647 | `new_idx` is the translated key for a word of length one, and otherwise the tuple i with its first entry translated and the rest kept |
| Simplification.TranslateIndexRoundTrip | a_infinity.py:634-647 | translating an index and reading it back through the basis order gives the old index |
| Simplification.TranslateComponents | a_infinity.py:648-649 | the translated components exist exactly when every key is a basis key of the target fibre (KeyError otherwise) |
| Simplification.TranslateComponentsForward | a_infinity.py:648-649 | the component at the translated key j is the old component at j |
| Simplification.TranslateComponentsBackward | a_infinity.py:648-649 | every translated component comes from an old component at the key it names |
| Simplification.TrFold | a_infinity.py:637-651 | when `tr_fun` succeeds, every stored key of F has a translated index in the result, and every new vector lies in `N.mu(*word).target` |
| Simplification.TrFun | a_infinity.py:637-651 | the loop of `tr_fun` computes `TrFold` |
| Simplification.SimplifiedOp | a_infinity.py:653-656 | each new operation has the source and target of the zero operation of N on its word, degree `2 - len(word)`, and images in its target |
| Simplification.SimplifySpec | a_infinity.py:615-658 | `M.simplify()` succeeds exactly when every operation translates; it keeps the category and the words of the operations and has the renumbered fibres |
| Simplification.SimplifyOperation | a_infinity.py:653-656 | the body of the loop over operations computes `SimplifiedOp` |
| Simplification.Simplify | a_infinity.py:615-658 | the loops of `simplify` compute `SimplifySpec` |
| Simplification.SimplifyOperations | a_infinity.py:653-656 | the loop over the operations tabulates `SimplifiedOp`, stopping at the first failure |
| Simplification.EvComponents | a_infinity.py:747-753 | the components of ev are keyed by the prefixes p of the stored words p + (X,) of length at least two; a stored empty word raises IndexError |
| Simplification.EvComponentsValues | a_infinity.py:747-753 | the component at a one-object prefix is `mu(p + (X,))`, and at a longer prefix it is that operation unflattened with (0, 2) |
| Simplification.TwistSource | a_infinity.py:744-746 | `T = M.cpx(X).otimes(A.yoneda(X))`, ValueError when X is not an object |
| Simplification.TwistCone | a_infinity.py:744-755 | the cone of ev: T -> M of degree 0, ValueError when X is not an object |
| Simplification.Twist | a_infinity.py:730-755 | `M.twist(X)` is the simplified cone of ev, ValueError when X is not an object |
| Simplification.TwistSourceFibre | a_infinity.py:744-746 | T's fibre over Y has dimension `dim M[X] * dim A[(Y, X)]`, counted only when Y is an object |
| Simplification.TwistConeFibre | a_infinity.py:744-755 | the cone's fibre over Y has dimension `dim T[Y] + dim M[Y]`, and in degree d `dim T[Y]^{d+1} + dim M[Y]^d` |
| Simplification.TwistFibres | a_infinity.py:730-755 | the twist's fibre over Y has dimension `dim M[X] * dim A[(Y, X)] + dim M[Y]`, and degree by degree the degree d + 1 part of T plus the degree d part of M |

## Left out

- `rings.py`: superseded by `fields.py`. Its `K.num(M)`, which converts a NumPy array, is modelled entrywise in the dense drafts, as `FromInt` or `Scale` on each entry.
- Printing: `display`, `__str__`, the `*_print` callbacks, and the messages printed before None is returned. The None paths are reached as `Err` or `None` results; the texts are not modelled.
- Scripts and fixtures: `test*.py`, `trial.py`, the demo at the end of `shuffle.py`, `DynkinGraph`, `BP`, `sph`, `sph_op`, `pt` and `simple`. The four checks of `test.py` on graded spaces are stated as lemmas.
- The broken drafts `graded_vector_spaces.py`, `a8_categories.py`, `dg_categories.py` and `dynkin_graphs.py`: they do not run as written.
- NumPy layout plumbing: `eye`, `GradedLinearMap.otimes`, `__add__`, `__mul__`, `__eq__` and `verify` in `graded_linear_algebra.py`, `shuffle_map`, and `homo.__mul__`, `oplus` and `otimes`. They are thin wrappers around `np.kron`, `np.bmat` and `dot`.
- `check_word`, the associativity sum inside `A8Category.verify`: its result is discarded (see Findings). The model takes it as a parameter `check`. Because `check: Word -> bool` cannot fail, a TypeError raised from inside `check_word` (for instance by a composite whose degrees do not match) is not represented in `verify`.
- `A8Module.verify` and `A8Category.total_yoneda`: the first repeats the category check with the same discarded result (a_infinity.py:610); the second only folds `oplus` and `simplify` over the objects.
- `Vector.deg` raises for every nonzero vector (linear_algebra.py:381-390), and `LinearMap.__mul__` uses undefined names (linear_algebra.py:692-697). Neither can succeed, so neither is modelled.
- `lazyproperty` caching: `gr_dim` and `graded_pieces` are functions of the current basis. So the stale cache Python keeps when `build` runs after a first access (linear_algebra.py:36-47, 152-163, 223-233) is not modelled.
- `AlgebraicStructure.__init__` counts its arguments and raises TypeError on a wrong count. Dafny datatype constructors always have the right arity, so this check has nothing to model.
- Dict insertion order is replaced by the fixed key order `Keys.KeyLt`. Where Python's result depends on insertion order — which of two colliding images `update` keeps, which error comes first, the numbering of `simplify`'s `enumerate` — the model fixes one order.
- Field identity: Python compares `Field` objects by identity. The model compares fields by value, so two separately built `FF(p)` with the same p count as the same field.
- Elimination.KerIm: the counts are proved to add up to the dimension of the source, kernel vectors are proved to map to zero and image vectors not to, the killed basis vectors are proved to be in the kernel list, and the rank is proved to be 0 exactly when F kills every basis vector. That the counts are the true nullity and rank (linear independence of the lists) is not proved.
- AInfinity.Cohomology: the counts are tied to d_n through `KerImOf` (kernel and image lists of the right lengths, rank 0 exactly when d_n is zero), but that they are the true nullity and rank of d_n is not proved, for the reason given for Elimination.KerIm.
- GradedMaps.KerIm: the counts are those of `rank_nullity` and are bounded as `Dense.RankNullity` states. That they are the true rank and nullity is not proved.
- Dense.Eliminate: the contract states the counts and their bounds. It does not state the matrix the elimination leaves behind (which rows it reduced), or that the rank is the true rank.
- Dense.Ker: states the counts of `Dense.Eliminate`, not the reduced contents of the caller's matrix.
- Dense.Image: states the counts of `Dense.Eliminate`, not the reduced contents of the caller's matrix.
- A8Modules.ModOplus: states the fibres and the words of the operations, not the block matrices of the operations.
- A8Modules.Cone: states the fibres and the words of the operations, not the operations' block matrices with their rejigged corners.
- A8Modules.ComplexOtimesSpec: states the fibres and the words of the operations, not the tensor products `Z.Id() ⊗ mu + d ⊗ sigma` themselves.
- Simplification.Twist: states the fibres (`TwistFibres`), not the operations of the twisted module.
- Shuffle.Shuffle: it is not related to the tensor products of `Spaces.Tensor`; it is stated on the cells that the loops visit. The unused `m3` and `r3` are not computed. The dict `pre_shuffle`, keyed by 0, 1, 2, …, is modelled as the list of its values.
- AInfinity.CategoryVerify: `check_word` is a parameter, so what the associativity equations say is not modelled.
- Fields: numbers of two different Z/p fields, or a Z/p number combined with a rational, are not modelled beyond the AttributeError and mismatched-modulus behaviour that `Fields` records.

## Findings

| source | as written | input that shows it | evidently intended | confidence | as-written member | corrected member |
|---|---|---|---|---|---|---|
| arithmetic.py:22 | `a, b, x2, x2, y2, y1 = b, r, x1, x, y1, y` assigns `x2` twice and never updates `x1`, so the first coefficient is wrong | `extendedEuclideanAlgorithm(5, 3)` returns (1, 2, 1), and 1·5 + 2·3 = 11 ≠ 1 | `x2, x1 = x1, x`, giving Bezout coefficients x·a + y·b == d (the docstring's extended Euclidean algorithm) | not executed | Arithmetic.EuclidNotBezout | Arithmetic.Bezout |
| a_infinity.py:163 | `all(truth_dictionary)` iterates over the dict's keys, the super-words, which are non-empty tuples | the category with objects {X}, hom(X, X) the line (one basis vector, degree 0) and mu(X, X) the identity given degree 1: mu o mu sends e_0 to e_0, so `check_word(X, X)` is False, yet `verify` returns True | `all(truth_dictionary.values())`: raise ValueError unless every check holds | not executed | AInfinity.VerifyIgnoresChecks | AInfinity.CategoryVerifyIntended |
