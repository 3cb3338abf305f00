/** Basis keys and dictionaries keyed by them.

    Python basis keys are hashable values: integers from `build`, tuples from
    `tensor`, and tagged pairs `('a', i)` / `('b', j)` from `oplus`. A `Key`
    models exactly these three shapes; the tag `'a'` is the string key
    `KStr("a")`, so `('a', i)` is the genuine 2-tuple `KTup([KStr("a"), i])`
    that `flatten` and `unflatten` see.

    Python iterates a dict in insertion order. The model iterates every dict in
    one fixed total order on keys (`KeyLt`, `SortedKeys`), which makes every
    loop below deterministic.
 */
module Keys {
  import opened Wrappers

  datatype Key = KInt(i: int) | KStr(s: string) | KTup(elems: seq<Key>)

  /** The direct-sum tags. */
  function TagA(k: Key): Key { KTup([KStr("a"), k]) }
  function TagB(k: Key): Key { KTup([KStr("b"), k]) }

  // ----- a total order on keys -----

  predicate StrLt(a: string, b: string) {
    if |a| == 0 then |b| > 0
    else if |b| == 0 then false
    else if a[0] != b[0] then a[0] < b[0]
    else StrLt(a[1..], b[1..])
  }

  predicate SeqLt(a: seq<Key>, b: seq<Key>)
    decreases a, b
  {
    if |a| == 0 then |b| > 0
    else if |b| == 0 then false
    else if a[0] != b[0] then KeyLt(a[0], b[0])
    else SeqLt(a[1..], b[1..])
  }

  /** Integers before strings before tuples; strings and tuples lexicographically. */
  predicate KeyLt(a: Key, b: Key)
    decreases a, b
  {
    match (a, b)
    case (KInt(x), KInt(y)) => x < y
    case (KInt(_), _) => true
    case (KStr(_), KInt(_)) => false
    case (KStr(x), KStr(y)) => StrLt(x, y)
    case (KStr(_), KTup(_)) => true
    case (KTup(x), KTup(y)) => SeqLt(x, y)
    case (KTup(_), _) => false
  }

  lemma StrLtIrrefl(a: string)
    ensures !StrLt(a, a)
  {
  }

  lemma StrLtTrans(a: string, b: string, c: string)
    requires StrLt(a, b) && StrLt(b, c)
    ensures StrLt(a, c)
  {
    if |a| > 0 && a[0] == b[0] && b[0] == c[0] {
      StrLtTrans(a[1..], b[1..], c[1..]);
    }
  }

  lemma StrLtTotal(a: string, b: string)
    ensures a == b || StrLt(a, b) || StrLt(b, a)
  {
    if |a| > 0 && |b| > 0 && a[0] == b[0] {
      StrLtTotal(a[1..], b[1..]);
      if a[1..] == b[1..] {
        assert a == [a[0]] + a[1..] && b == [b[0]] + b[1..];
      }
    }
  }

  lemma SeqLtIrrefl(a: seq<Key>)
    ensures !SeqLt(a, a)
    decreases a
  {
    if |a| > 0 {
      SeqLtIrrefl(a[1..]);
    }
  }

  lemma KeyLtIrrefl(a: Key)
    ensures !KeyLt(a, a)
    decreases a
  {
    match a
    case KStr(x) => StrLtIrrefl(x);
    case KTup(x) => SeqLtIrrefl(x);
    case KInt(_) =>
  }

  lemma SeqLtTrans(a: seq<Key>, b: seq<Key>, c: seq<Key>)
    requires SeqLt(a, b) && SeqLt(b, c)
    ensures SeqLt(a, c)
    decreases a, b, c
  {
    if |a| > 0 {
      if a[0] != b[0] && b[0] != c[0] {
        KeyLtTrans(a[0], b[0], c[0]);
        KeyLtIrrefl(a[0]);
      } else if a[0] == b[0] && b[0] == c[0] {
        SeqLtTrans(a[1..], b[1..], c[1..]);
      }
    }
  }

  lemma KeyLtTrans(a: Key, b: Key, c: Key)
    requires KeyLt(a, b) && KeyLt(b, c)
    ensures KeyLt(a, c)
    decreases a, b, c
  {
    match (a, b, c)
    case (KStr(x), KStr(y), KStr(z)) => StrLtTrans(x, y, z);
    case (KTup(x), KTup(y), KTup(z)) => SeqLtTrans(x, y, z);
    case _ =>
  }

  lemma SeqLtTotal(a: seq<Key>, b: seq<Key>)
    ensures a == b || SeqLt(a, b) || SeqLt(b, a)
    decreases a, b
  {
    if |a| > 0 && |b| > 0 {
      if a[0] == b[0] {
        SeqLtTotal(a[1..], b[1..]);
        if a[1..] == b[1..] {
          assert a == [a[0]] + a[1..] && b == [b[0]] + b[1..];
        }
      } else {
        KeyLtTotal(a[0], b[0]);
      }
    }
  }

  lemma KeyLtTotal(a: Key, b: Key)
    ensures a == b || KeyLt(a, b) || KeyLt(b, a)
    decreases a, b
  {
    match (a, b)
    case (KStr(x), KStr(y)) => StrLtTotal(x, y);
    case (KTup(x), KTup(y)) => SeqLtTotal(x, y);
    case _ =>
  }

  lemma KeyLtAsym(a: Key, b: Key)
    ensures !(KeyLt(a, b) && KeyLt(b, a))
  {
    if KeyLt(a, b) && KeyLt(b, a) {
      KeyLtTrans(a, b, a);
      KeyLtIrrefl(a);
    }
  }

  lemma KeyLtAsymAll()
    ensures forall a, b :: KeyLt(a, b) ==> !KeyLt(b, a)
  {
    forall a, b ensures KeyLt(a, b) ==> !KeyLt(b, a) {
      KeyLtAsym(a, b);
    }
  }

  // ----- enumerating a finite set of keys in order -----

  predicate IsMinKey(s: set<Key>, m: Key) {
    m in s && forall k :: k in s && k != m ==> KeyLt(m, k)
  }

  lemma MinKeyExists(s: set<Key>)
    requires s != {}
    ensures exists m :: IsMinKey(s, m)
    decreases |s|
  {
    var x :| x in s;
    if s - {x} == {} {
      assert s == {x};
      assert IsMinKey(s, x);
    } else {
      MinKeyExists(s - {x});
      var m :| IsMinKey(s - {x}, m);
      KeyLtTotal(m, x);
      if KeyLt(m, x) {
        assert IsMinKey(s, m);
      } else {
        forall k | k in s && k != x ensures KeyLt(x, k) {
          if k != m {
            KeyLtTrans(x, m, k);
          }
        }
        assert IsMinKey(s, x);
      }
    }
  }

  /** The least key of a nonempty set. */
  function MinKey(s: set<Key>): (m: Key)
    requires s != {}
    ensures m in s
    ensures forall k :: k in s && k != m ==> KeyLt(m, k)
  {
    MinKeyExists(s);
    KeyLtAsymAll();
    var m :| IsMinKey(s, m);
    m
  }

  ghost predicate StrictlySorted(ks: seq<Key>) {
    forall i, j :: 0 <= i < j < |ks| ==> KeyLt(ks[i], ks[j])
  }

  /** The keys of a finite set in increasing order; the model's dict order. */
  function SortedKeys(s: set<Key>): (ks: seq<Key>)
    ensures |ks| == |s|
    ensures forall k :: k in ks <==> k in s
    decreases |s|
  {
    if s == {} then []
    else
      var m := MinKey(s);
      [m] + SortedKeys(s - {m})
  }

  /** The keys come out in increasing order: the least first, then the rest
      in order. */
  lemma {:induction false} SortedKeysSorted(s: set<Key>)
    decreases |s|
    ensures StrictlySorted(SortedKeys(s))
  {
    if s != {} {
      var m := MinKey(s);
      var r := SortedKeys(s - {m});
      SortedKeysSorted(s - {m});
      var ks := SortedKeys(s);
      assert ks == [m] + r;
      forall i, j | 0 <= i < j < |ks| ensures KeyLt(ks[i], ks[j]) {
        assert ks[j] == r[j - 1] && ks[j] in r;
        if 0 < i {
          assert ks[i] == r[i - 1];
        }
      }
    }
  }

  lemma SortedDistinct(ks: seq<Key>)
    requires StrictlySorted(ks)
    ensures forall i, j :: 0 <= i < |ks| && 0 <= j < |ks| && ks[i] == ks[j] ==> i == j
  {
    forall i, j | 0 <= i < |ks| && 0 <= j < |ks| && ks[i] == ks[j] ensures i == j {
      if i < j || j < i {
        KeyLtIrrefl(ks[i]);
      }
    }
  }

  // ----- Python slicing and the flatten / unflatten re-nesting of keys -----

  function Min(a: int, b: int): int { if a < b then a else b }

  /** Python's `e[i:j]` for nonnegative bounds: both are clamped to the length. */
  function Slice(e: seq<Key>, i: nat, j: nat): (r: seq<Key>)
    ensures i <= j <= |e| ==> r == e[i..j]
    ensures |e| <= i ==> r == []
  {
    var lo := Min(i, |e|);
    var hi := Min(j, |e|);
    if lo <= hi then e[lo..hi] else []
  }

  /** The key map of `flatten(k)`:
      `x[:k] + x[k] + x[k+1:]`, except that a one-element tuple with k = 0
      becomes its element. Slicing a string key returns the same string; an
      integer key has no length (TypeError); `x[k]` past the end is an
      IndexError; concatenating a non-tuple `x[k]` to a tuple is a TypeError. */
  function FlattenKey(x: Key, k: nat): Result<Key>
  {
    match x
    case KInt(_) => Err(TypeError)
    case KStr(s) => if k < |s| then Ok(x) else Err(IndexError)
    case KTup(e) =>
      if k >= |e| then Err(IndexError)
      else if k == 0 && |e| == 1 then Ok(e[0])
      else if e[k].KTup? then Ok(KTup(e[..k] + e[k].elems + e[k + 1..]))
      else Err(TypeError)
  }

  /** The key map of `unflatten(m, n)`: `x[:m] + (x[m:n],) + x[n:]`; a string
      key only survives as `(x,)` when m = 0 and n = len(x). */
  function UnflattenKey(x: Key, m: nat, n: nat): Result<Key>
  {
    match x
    case KInt(_) => Err(TypeError)
    case KStr(s) => if m == 0 && n == |s| then Ok(KTup([x])) else Err(TypeError)
    case KTup(e) => Ok(KTup(Slice(e, 0, m) + [KTup(Slice(e, m, n))] + Slice(e, n, |e|)))
  }

  lemma SliceSplit(e: seq<Key>, m: nat, n: nat)
    requires m <= n && m <= |e|
    ensures Slice(e, 0, m) == e[..m]
    ensures Slice(e, m, n) + Slice(e, n, |e|) == e[m..]
  {
    if n <= |e| {
      assert e[m..n] + e[n..] == e[m..];
    }
  }

  /** A key `unflatten(m, n)` accepts is restored by `flatten(m)`, provided
      m <= n and m does not exceed the tuple's length. */
  lemma FlattenUnflatten(x: Key, m: nat, n: nat)
    requires UnflattenKey(x, m, n).Ok? && m <= n
    requires x.KTup? ==> m <= |x.elems|
    ensures FlattenKey(UnflattenKey(x, m, n).value, m) == Ok(x)
  {
    match x
    case KStr(s) =>
    case KTup(e) =>
      var inner := Slice(e, m, n);
      var tail := Slice(e, n, |e|);
      SliceSplit(e, m, n);
      var y := e[..m] + [KTup(inner)] + tail;
      assert UnflattenKey(x, m, n) == Ok(KTup(y));
      assert y[m] == KTup(inner);
      assert y[..m] == e[..m];
      assert y[m + 1..] == tail;
      if m == 0 && |y| == 1 {
        assert tail == [];
        assert inner == e;
      } else {
        assert y[..m] + inner + y[m + 1..] == e[..m] + e[m..];
        assert e[..m] + e[m..] == e;
      }
  }

  // ----- rebuilding a dict under a key map -----

  /** `for x in src: out.update({f(x): src[x]})` over the keys `ks`, stopping at
      the first key whose new key raises. A later key overwrites an earlier one
      when both map to the same new key. */
  function RekeyFold<V>(src: map<Key, V>, ks: seq<Key>, f: Key -> Result<Key>, acc: map<Key, V>): Result<map<Key, V>>
    requires forall k | k in ks :: k in src
  {
    if |ks| == 0 then Ok(acc)
    else
      var k' :- f(ks[0]);
      RekeyFold(src, ks[1..], f, acc[k' := src[ks[0]]])
  }

  function Rekey<V>(src: map<Key, V>, f: Key -> Result<Key>): Result<map<Key, V>> {
    RekeyFold(src, SortedKeys(src.Keys), f, map[])
  }

  /** The re-keying loop itself. */
  method RekeyLoop<V>(src: map<Key, V>, f: Key -> Result<Key>) returns (r: Result<map<Key, V>>)
    ensures r == Rekey(src, f)
  {
    var ks := SortedKeys(src.Keys);
    var out: map<Key, V> := map[];
    var i := 0;
    while i < |ks|
      invariant 0 <= i <= |ks|
      invariant Rekey(src, f) == RekeyFold(src, ks[i..], f, out)
    {
      assert ks[i..][1..] == ks[i + 1..];
      var k' := f(ks[i]);
      if k'.Err? {
        return Err(k'.error);
      }
      out := out[k'.value := src[ks[i]]];
      i := i + 1;
    }
    return Ok(out);
  }

  function Image(ks: seq<Key>, f: Key -> Result<Key>): set<Key> {
    set k | k in ks && f(k).Ok? :: f(k).value
  }

  ghost predicate InjectiveOn<V>(src: map<Key, V>, f: Key -> Result<Key>) {
    forall k1, k2 :: k1 in src && k2 in src && f(k1).Ok? && f(k1) == f(k2) ==> k1 == k2
  }

  lemma {:induction false} RekeyFoldFacts<V>(src: map<Key, V>, ks: seq<Key>, f: Key -> Result<Key>, acc: map<Key, V>)
    requires forall k | k in ks :: k in src && f(k).Ok?
    requires InjectiveOn(src, f)
    ensures RekeyFold(src, ks, f, acc).Ok?
    ensures RekeyFold(src, ks, f, acc).value.Keys == acc.Keys + Image(ks, f)
    ensures forall k | k in ks :: RekeyFold(src, ks, f, acc).value[f(k).value] == src[k]
    ensures forall k' | k' in acc && k' !in Image(ks, f) :: RekeyFold(src, ks, f, acc).value[k'] == acc[k']
  {
    if |ks| > 0 {
      var k' := f(ks[0]).value;
      RekeyFoldFacts(src, ks[1..], f, acc[k' := src[ks[0]]]);
      var r := RekeyFold(src, ks, f, acc).value;
      assert Image(ks, f) == {k'} + Image(ks[1..], f) by {
        assert ks == [ks[0]] + ks[1..];
      }
      forall k | k in ks ensures r[f(k).value] == src[k] {
        if k != ks[0] {
          assert k in ks[1..];
        } else if f(k).value in Image(ks[1..], f) {
          var j :| j in ks[1..] && f(j).Ok? && f(j).value == f(k).value;
        }
      }
    }
  }

  /** Re-keying fails exactly when some key raises. */
  lemma RekeyOk<V>(src: map<Key, V>, f: Key -> Result<Key>)
    ensures Rekey(src, f).Ok? <==> forall k | k in src :: f(k).Ok?
  {
    RekeyErr(src, SortedKeys(src.Keys), f, map[]);
  }

  /** For a key map defined and one-to-one on the keys, re-keying moves each
      value to its new key. */
  lemma RekeyInjective<V>(src: map<Key, V>, f: Key -> Result<Key>)
    requires forall k | k in src :: f(k).Ok?
    requires InjectiveOn(src, f)
    ensures Rekey(src, f).Ok?
    ensures Rekey(src, f).value.Keys == (set k | k in src :: f(k).value)
    ensures forall k | k in src :: Rekey(src, f).value[f(k).value] == src[k]
  {
    var ks := SortedKeys(src.Keys);
    RekeyFoldFacts(src, ks, f, map[]);
    assert Image(ks, f) == (set k | k in src :: f(k).value);
  }

  lemma {:induction false} RekeyErr<V>(src: map<Key, V>, ks: seq<Key>, f: Key -> Result<Key>, acc: map<Key, V>)
    requires forall k | k in ks :: k in src
    ensures RekeyFold(src, ks, f, acc).Ok? <==> forall k | k in ks :: f(k).Ok?
  {
    if |ks| > 0 {
      if f(ks[0]).Ok? {
        RekeyErr(src, ks[1..], f, acc[f(ks[0]).value := src[ks[0]]]);
        assert forall k | k in ks :: k == ks[0] || k in ks[1..];
      }
    }
  }

  lemma LeftInverseInjective<V>(src: map<Key, V>, f: Key -> Result<Key>, g: Key -> Result<Key>)
    requires forall k | k in src :: f(k).Ok? && g(f(k).value) == Ok(k)
    ensures InjectiveOn(src, f)
  {
    forall k1, k2 | k1 in src && k2 in src && f(k1).Ok? && f(k1) == f(k2) ensures k1 == k2 {
      assert g(f(k1).value) == g(f(k2).value);
    }
  }

  /** On the re-keyed dict, g undoes f key by key. */
  lemma InverseOnImage<V>(src: map<Key, V>, f: Key -> Result<Key>, g: Key -> Result<Key>, mid: map<Key, V>)
    requires forall k | k in src :: f(k).Ok? && g(f(k).value) == Ok(k)
    requires mid.Keys == (set k | k in src :: f(k).value)
    requires forall k | k in src :: mid[f(k).value] == src[k]
    ensures forall k' | k' in mid :: g(k').Ok? && g(k').value in src && mid[k'] == src[g(k').value]
    ensures InjectiveOn(mid, g)
    ensures (set k' | k' in mid :: g(k').value) == src.Keys
  {
    forall k' | k' in mid ensures g(k').Ok? && g(k').value in src && mid[k'] == src[g(k').value] {
      var k :| k in src && f(k).value == k';
    }
    forall k1, k2 | k1 in mid && k2 in mid && g(k1).Ok? && g(k1) == g(k2) ensures k1 == k2 {
      var j1 :| j1 in src && f(j1).value == k1;
      var j2 :| j2 in src && f(j2).value == k2;
    }
    forall k | k in src ensures k in (set k' | k' in mid :: g(k').value) {
      assert f(k).value in mid;
    }
  }

  lemma RekeyBack<V>(src: map<Key, V>, f: Key -> Result<Key>, g: Key -> Result<Key>, mid: map<Key, V>)
    requires forall k | k in src :: f(k).Ok? && g(f(k).value) == Ok(k)
    requires mid.Keys == (set k | k in src :: f(k).value)
    requires forall k | k in src :: mid[f(k).value] == src[k]
    ensures Rekey(mid, g) == Ok(src)
  {
    InverseOnImage(src, f, g, mid);
    RekeyInjective(mid, g);
    var back := Rekey(mid, g).value;
    assert back.Keys == src.Keys;
    forall k | k in src ensures back[k] == src[k] {
      var k' := f(k).value;
      assert k' in mid;
      assert back[g(k').value] == mid[k'];
    }
    assert back == src;
  }

  /** Re-keying by f and then by a left inverse g of f gives back the dict. */
  lemma RekeyRoundTrip<V>(src: map<Key, V>, f: Key -> Result<Key>, g: Key -> Result<Key>)
    requires forall k | k in src :: f(k).Ok? && g(f(k).value) == Ok(k)
    ensures Rekey(src, f).Ok?
    ensures Rekey(Rekey(src, f).value, g) == Ok(src)
  {
    LeftInverseInjective(src, f, g);
    RekeyInjective(src, f);
    RekeyBack(src, f, g, Rekey(src, f).value);
  }

  // ----- dict comprehensions whose values may raise -----

  /** `{k: f(k) for k in ks}`: the first key (in order) whose value raises
      aborts the comprehension with that error. */
  function Tabulate<K(==), V>(ks: seq<K>, f: K -> Result<V>): (r: Result<map<K, V>>)
    ensures r.Ok? <==> forall k | k in ks :: f(k).Ok?
    ensures r.Ok? ==> r.value.Keys == (set k | k in ks) && forall k | k in ks :: r.value[k] == f(k).value
    ensures r.Err? ==> exists k | k in ks :: f(k) == Err(r.error)
  {
    if ks == [] then Ok(map[])
    else
      var v :- f(ks[0]);
      var rest :- Tabulate(ks[1..], f);
      assert forall k | k in ks :: k == ks[0] || k in ks[1..];
      Ok(rest[ks[0] := v])
  }

  /** The elements met in the first n + 1 steps of a loop over xs. */
  lemma PrefixSetStep<T>(xs: seq<T>, n: nat)
    requires n < |xs|
    ensures (set j | 0 <= j < n + 1 :: xs[j]) == (set j | 0 <= j < n :: xs[j]) + {xs[n]}
  {
  }

  /** `{k: f(k) for k in s}` over a set of keys, taken in key order. */
  function TabulateKeys<V>(s: set<Key>, f: Key -> Result<V>): (r: Result<map<Key, V>>)
    ensures r.Ok? <==> forall k | k in s :: f(k).Ok?
    ensures r.Ok? ==> r.value.Keys == s && forall k | k in s :: f(k) == Ok(r.value[k])
  {
    Tabulate(SortedKeys(s), f)
  }

  /** When every value raises the same error e, so does the comprehension. */
  lemma TabulateError<K, V>(ks: seq<K>, f: K -> Result<V>, e: Error)
    requires forall k | k in ks && f(k).Err? :: f(k).error == e
    ensures Tabulate(ks, f).Err? ==> Tabulate(ks, f).error == e
  {
  }

  /** The comprehension raises the error of its first raising key. */
  lemma {:induction false} TabulateFirstErr<K, V>(ks: seq<K>, f: K -> Result<V>, i: nat)
    requires i < |ks| && f(ks[i]).Err? && forall j | 0 <= j < i :: f(ks[j]).Ok?
    ensures Tabulate(ks, f) == Err(f(ks[i]).error)
  {
    if i > 0 {
      assert forall j | 0 <= j < i - 1 :: ks[1..][j] == ks[j + 1];
      TabulateFirstErr(ks[1..], f, i - 1);
    }
  }

  /** A loop that stored f(k) at every key of ks, none of them raising, has
      built the comprehension. */
  lemma TabulateAll<K, V>(ks: seq<K>, f: K -> Result<V>, acc: map<K, V>)
    requires forall j | 0 <= j < |ks| :: f(ks[j]).Ok?
    requires acc.Keys == (set j | 0 <= j < |ks| :: ks[j]) && forall k | k in acc :: f(k) == Ok(acc[k])
    ensures Tabulate(ks, f) == Ok(acc)
  {
    assert forall k | k in ks :: f(k).Ok? && k in acc by {
      forall k | k in ks ensures f(k).Ok? && k in acc {
        var j :| 0 <= j < |ks| && ks[j] == k;
      }
    }
    assert forall k :: k in acc <==> k in ks by {
      forall k | k in acc ensures k in ks {
        var j :| 0 <= j < |ks| && ks[j] == k;
      }
    }
    var t := Tabulate(ks, f).value;
    assert t.Keys == acc.Keys;
    assert forall k | k in t :: t[k] == acc[k];
    assert t == acc;
  }

  /** After n steps of a loop storing f(k) for the keys of ks, none raising. */
  ghost predicate TabulatedUpTo<K, V>(ks: seq<K>, f: K -> Result<V>, n: nat, acc: map<K, V>) {
    && n <= |ks|
    && (forall j | 0 <= j < n :: f(ks[j]).Ok?)
    && acc.Keys == (set j | 0 <= j < n :: ks[j])
    && (forall k | k in acc :: f(k) == Ok(acc[k]))
  }

  lemma TabulatedStep<K, V>(ks: seq<K>, f: K -> Result<V>, n: nat, acc: map<K, V>, v: V)
    requires TabulatedUpTo(ks, f, n, acc) && n < |ks| && f(ks[n]) == Ok(v)
    ensures TabulatedUpTo(ks, f, n + 1, acc[ks[n] := v])
  {
    PrefixSetStep(ks, n);
  }

  lemma TabulatedErr<K, V>(ks: seq<K>, f: K -> Result<V>, n: nat, acc: map<K, V>)
    requires TabulatedUpTo(ks, f, n, acc) && n < |ks| && f(ks[n]).Err?
    ensures Tabulate(ks, f) == Err(f(ks[n]).error)
  {
    TabulateFirstErr(ks, f, n);
  }

  lemma TabulatedDone<K, V>(ks: seq<K>, f: K -> Result<V>, acc: map<K, V>)
    requires TabulatedUpTo(ks, f, |ks|, acc)
    ensures Tabulate(ks, f) == Ok(acc)
  {
    TabulateAll(ks, f, acc);
  }

  /** `for k in ks: r[k] = f(k)`, returning the first error raised. */
  method TabulateLoop<K, V>(ks: seq<K>, f: K -> Result<V>) returns (r: Result<map<K, V>>)
    ensures r == Tabulate(ks, f)
  {
    var acc: map<K, V> := map[];
    var n := 0;
    while n < |ks|
      invariant 0 <= n <= |ks|
      invariant forall j | 0 <= j < n :: f(ks[j]).Ok?
      invariant acc.Keys == (set j | 0 <= j < n :: ks[j]) && forall k | k in acc :: f(k) == Ok(acc[k])
    {
      var v := f(ks[n]);
      if v.Err? {
        TabulateFirstErr(ks, f, n);
        return Err(v.error);
      }
      assert (set j | 0 <= j < n + 1 :: ks[j]) == (set j | 0 <= j < n :: ks[j]) + {ks[n]};
      acc := acc[ks[n] := v.value];
      n := n + 1;
    }
    TabulateAll(ks, f, acc);
    return Ok(acc);
  }

  /** `for i in m: r[i] = f(m[i])`, in key order. */
  method MapValues<V, W>(m: map<Key, V>, f: V -> W) returns (r: map<Key, W>)
    ensures r == map i | i in m :: f(m[i])
  {
    r := MapValuesOver(m, SortedKeys(m.Keys), f);
  }

  method MapValuesOver<V, W>(m: map<Key, V>, ks: seq<Key>, f: V -> W) returns (r: map<Key, W>)
    requires forall k :: k in ks <==> k in m
    ensures r == map i | i in m :: f(m[i])
  {
    r := map[];
    var n := 0;
    while n < |ks|
      invariant 0 <= n <= |ks|
      invariant r.Keys == set j | 0 <= j < n :: ks[j]
      invariant forall i | i in r :: i in m && r[i] == f(m[i])
    {
      assert (set j | 0 <= j < n + 1 :: ks[j]) == (set j | 0 <= j < n :: ks[j]) + {ks[n]};
      r := r[ks[n] := f(m[ks[n]])];
      n := n + 1;
    }
    assert r.Keys == m.Keys by {
      forall i | i in m ensures i in r {
        var j :| 0 <= j < |ks| && ks[j] == i;
      }
    }
  }

  /** `for i in ks: del m[i]` */
  method DeleteKeys<V>(m: map<Key, V>, ks: seq<Key>) returns (r: map<Key, V>)
    ensures r == m - (set k | k in ks)
  {
    r := m;
    var i := 0;
    while i < |ks|
      invariant 0 <= i <= |ks|
      invariant r == m - (set j | 0 <= j < i :: ks[j])
    {
      assert (set j | 0 <= j < i + 1 :: ks[j]) == (set j | 0 <= j < i :: ks[j]) + {ks[i]};
      r := r - {ks[i]};
      i := i + 1;
    }
    assert (set j | 0 <= j < |ks| :: ks[j]) == (set k | k in ks);
  }

  // ----- finite sets -----

  /** Two finite sets in bijection have the same size. */
  lemma {:induction false} BijectionCard<A, B>(S: set<A>, T: set<B>, f: A -> B)
    requires forall x | x in S :: f(x) in T
    requires forall y | y in T :: exists x | x in S :: f(x) == y
    requires forall x, y | x in S && y in S && f(x) == f(y) :: x == y
    ensures |S| == |T|
    decreases |S|
  {
    if S != {} {
      var x :| x in S;
      BijectionCard(S - {x}, T - {f(x)}, f);
    }
  }

  /** The integers a, ..., a + n - 1 as keys. */
  function IntKeys(a: int, n: nat): set<Key> {
    set j | a <= j < a + n :: KInt(j)
  }

  lemma {:induction false} IntKeysCard(a: int, n: nat)
    ensures |IntKeys(a, n)| == n
  {
    if n > 0 {
      IntKeysCard(a, n - 1);
      assert IntKeys(a, n) == IntKeys(a, n - 1) + {KInt(a + n - 1)};
    }
  }

  // ----- direct-sum tags -----

  predicate IsTagA(k: Key) {
    k.KTup? && |k.elems| == 2 && k.elems[0] == KStr("a")
  }

  function Untag(k: Key): Key {
    if k.KTup? && |k.elems| == 2 then k.elems[1] else k
  }

  /** ('a', i) for i in s and ('b', j) for j in t. */
  function TaggedKeys(s: set<Key>, t: set<Key>): set<Key> {
    (set i | i in s :: TagA(i)) + (set j | j in t :: TagB(j))
  }

  /** `{('a', i): b[i] for i in b}` updated with `{('b', j): c[j] for j in c}`. */
  function TagUnion<V>(b: map<Key, V>, c: map<Key, V>): map<Key, V> {
    map k | k in TaggedKeys(b.Keys, c.Keys) && (if IsTagA(k) then Untag(k) in b else Untag(k) in c)
      :: if IsTagA(k) then b[Untag(k)] else c[Untag(k)]
  }

  lemma TagFirst(s: set<Key>, t: set<Key>)
    ensures forall k | k in (set i | i in s :: TagA(i)) :: IsTagA(k) && Untag(k) in s
    ensures forall k | k in (set j | j in t :: TagB(j)) :: !IsTagA(k) && Untag(k) in t
  {
    assert "a"[0] != "b"[0];
    assert KStr("a") != KStr("b");
  }

  lemma TagsDisjoint(s: set<Key>, t: set<Key>)
    ensures (set i | i in s :: TagA(i)) * (set j | j in t :: TagB(j)) == {}
  {
    TagFirst(s, t);
  }

  lemma TagUnionKeys<V>(b: map<Key, V>, c: map<Key, V>)
    ensures TagUnion(b, c).Keys == TaggedKeys(b.Keys, c.Keys)
  {
    TagFirst(b.Keys, c.Keys);
  }

  /** The summands' keys are tagged and their values copied. */
  lemma TagUnionAt<V>(b: map<Key, V>, c: map<Key, V>, i: Key)
    ensures TagA(i) in TagUnion(b, c) <==> i in b
    ensures TagB(i) in TagUnion(b, c) <==> i in c
    ensures i in b ==> TagUnion(b, c)[TagA(i)] == b[i]
    ensures i in c ==> TagUnion(b, c)[TagB(i)] == c[i]
  {
    TagFirst(b.Keys, c.Keys);
    TagUnionKeys(b, c);
    assert "a"[0] != "b"[0];
    assert IsTagA(TagA(i)) && Untag(TagA(i)) == i;
    assert !IsTagA(TagB(i)) && Untag(TagB(i)) == i;
  }

  lemma {:induction false} TagACard(s: set<Key>)
    ensures |set i | i in s :: TagA(i)| == |s|
  {
    if s != {} {
      var x :| x in s;
      TagACard(s - {x});
      assert (set i | i in s :: TagA(i)) == (set i | i in s - {x} :: TagA(i)) + {TagA(x)};
      forall i | i in s - {x} ensures TagA(i) != TagA(x) {
        assert TagA(i).elems[1] == i;
      }
    }
  }

  lemma {:induction false} TagBCard(s: set<Key>)
    ensures |set i | i in s :: TagB(i)| == |s|
  {
    if s != {} {
      var x :| x in s;
      TagBCard(s - {x});
      assert (set i | i in s :: TagB(i)) == (set i | i in s - {x} :: TagB(i)) + {TagB(x)};
      forall i | i in s - {x} ensures TagB(i) != TagB(x) {
        assert TagB(i).elems[1] == i;
      }
    }
  }

  // ----- tuples, one key from each set -----

  function Extend(A: set<seq<Key>>, B: set<Key>): set<seq<Key>> {
    set x, y | x in A && y in B :: x + [y]
  }

  /** `build = [x + (y,) for x in build for y in s]`, once per set, from `[()]`. */
  function Tuples(sets: seq<set<Key>>): set<seq<Key>>
    decreases |sets|
  {
    if sets == [] then {[]}
    else Extend(Tuples(sets[..|sets| - 1]), sets[|sets| - 1])
  }

  lemma {:induction false} TuplesChar(sets: seq<set<Key>>, t: seq<Key>)
    decreases |sets|
    ensures t in Tuples(sets) <==> |t| == |sets| && forall i | 0 <= i < |t| :: t[i] in sets[i]
  {
    if sets != [] {
      var n := |sets| - 1;
      var init := sets[..n];
      if |t| == |sets| {
        TuplesChar(init, t[..n]);
        assert t == t[..n] + [t[n]];
        if t in Tuples(sets) {
          var x, y :| x in Tuples(init) && y in sets[n] && t == x + [y];
          assert x == t[..n];
        }
      } else if t in Tuples(sets) {
        var x, y :| x in Tuples(init) && y in sets[n] && t == x + [y];
        TuplesChar(init, x);
      }
    }
  }

  function SizeProduct(sets: seq<set<Key>>): nat
    decreases |sets|
  {
    if sets == [] then 1 else SizeProduct(sets[..|sets| - 1]) * |sets[|sets| - 1]|
  }

  lemma {:induction false} ExtendCard(A: set<seq<Key>>, B: set<Key>, n: nat)
    requires forall x | x in A :: |x| == n
    ensures |Extend(A, B)| == |A| * |B|
  {
    if B == {} {
      assert Extend(A, B) == {};
    } else {
      var b :| b in B;
      var B' := B - {b};
      ExtendCard(A, B', n);
      var T := set x | x in A :: x + [b];
      ExtendSplit(A, B, b, n);
      AppendCard(A, b, n);
      assert |Extend(A, B)| == |Extend(A, B')| + |T|;
      assert |B| == |B'| + 1;
      Distribute(|A|, |B'|);
    }
  }

  lemma ExtendSplit(A: set<seq<Key>>, B: set<Key>, b: Key, n: nat)
    requires forall x | x in A :: |x| == n
    requires b in B
    ensures Extend(A, B) == Extend(A, B - {b}) + (set x | x in A :: x + [b])
    ensures Extend(A, B - {b}) * (set x | x in A :: x + [b]) == {}
  {
    var T := set x | x in A :: x + [b];
    assert forall t | t in T :: t[n] == b;
    assert forall t | t in Extend(A, B - {b}) :: t[n] != b;
  }

  lemma {:induction false} AppendCard(A: set<seq<Key>>, b: Key, n: nat)
    requires forall x | x in A :: |x| == n
    ensures |set x | x in A :: x + [b]| == |A|
  {
    if A != {} {
      var z :| z in A;
      AppendCard(A - {z}, b, n);
      assert (set x | x in A :: x + [b]) == (set x | x in A - {z} :: x + [b]) + {z + [b]};
      forall x | x in A - {z} ensures x + [b] != z + [b] {
        assert x == (x + [b])[..n] && z == (z + [b])[..n];
      }
    }
  }

  lemma Distribute(a: nat, b: nat)
    ensures a * (b + 1) == a * b + a
  {
  }

  lemma {:induction false} TuplesCard(sets: seq<set<Key>>)
    decreases |sets|
    ensures |Tuples(sets)| == SizeProduct(sets)
  {
    if sets != [] {
      var n := |sets| - 1;
      TuplesCard(sets[..n]);
      forall x | x in Tuples(sets[..n]) ensures |x| == n {
        TuplesChar(sets[..n], x);
      }
      ExtendCard(Tuples(sets[..n]), sets[n], n);
    }
  }

  lemma {:induction false} KTupCard(S: set<seq<Key>>)
    ensures |set t | t in S :: KTup(t)| == |S|
  {
    if S != {} {
      var z :| z in S;
      KTupCard(S - {z});
      assert (set t | t in S :: KTup(t)) == (set t | t in S - {z} :: KTup(t)) + {KTup(z)};
    }
  }

  // ----- the degrees of a graded object, in increasing order -----

  function IntOf(k: Key): int {
    if k.KInt? then k.i else 0
  }

  /** The degrees of a set in increasing order. */
  function IntList(s: set<int>): (l: seq<int>)
    ensures (set n | n in l) == s
  {
    var ks := SortedKeys(set n | n in s :: KInt(n));
    var l := seq(|ks|, j requires 0 <= j < |ks| => IntOf(ks[j]));
    IntListMembers(s, ks, l);
    l
  }

  lemma IntListMembers(s: set<int>, ks: seq<Key>, l: seq<int>)
    requires forall k :: k in ks <==> k in (set n | n in s :: KInt(n))
    requires |l| == |ks| && forall j | 0 <= j < |ks| :: l[j] == IntOf(ks[j])
    ensures (set n | n in l) == s
  {
    forall n | n in s ensures n in l {
      assert KInt(n) in ks;
      var j :| 0 <= j < |ks| && ks[j] == KInt(n);
      assert l[j] == n;
    }
    forall n | n in l ensures n in s {
      var j :| 0 <= j < |l| && l[j] == n;
      assert ks[j] in ks;
    }
  }

  /** Every degree listed is a degree of the set. */
  lemma IntListIn(s: set<int>)
    ensures forall n | n in IntList(s) :: n in s
  {
    forall n | n in IntList(s) ensures n in s {
      assert n in (set m | m in IntList(s));
    }
  }

  /** Each degree is listed once. */
  lemma IntListCard(s: set<int>)
    ensures |IntList(s)| == |s|
  {
    var t := set n | n in s :: KInt(n);
    BijectionCard(s, t, n => KInt(n));
  }

  /** The degrees are listed strictly increasing, so each once. */
  lemma IntListSorted(s: set<int>)
    ensures forall i, j | 0 <= i < j < |IntList(s)| :: IntList(s)[i] < IntList(s)[j]
  {
    var ks := SortedKeys(set n | n in s :: KInt(n));
    SortedKeysSorted(set n | n in s :: KInt(n));
    forall k | k in ks ensures k.KInt? {
    }
  }

  /** A degree is listed exactly when it is in the set. */
  lemma IntListHas(s: set<int>)
    ensures forall n :: n in IntList(s) <==> n in s
  {
    forall n ensures n in IntList(s) <==> n in s {
      assert n in IntList(s) <==> n in (set m | m in IntList(s));
    }
  }

  /** One more degree of the list: the prefixes grow by a degree not listed
      before. */
  lemma IntListStep(s: set<int>, i: int)
    requires 0 <= i < |IntList(s)|
    ensures forall x :: x in IntList(s)[..i + 1] <==> x in IntList(s)[..i] || x == IntList(s)[i]
    ensures IntList(s)[i] !in IntList(s)[..i]
  {
    var l := IntList(s);
    assert l[..i + 1] == l[..i] + [l[i]];
    IntListSorted(s);
  }
}
