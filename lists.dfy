/** Fallible passes over Python lists: a filter that splits a list by a
    test that may raise, and a comprehension whose values may raise.
 */
module Lists {
  import opened Wrappers

  /** `for v in xs: (yes if test(v) else no).append(v)`; the first raising
      test is the error. */
  function Split<T>(test: T -> Result<bool>, xs: seq<T>): Result<(seq<T>, seq<T>)>
    decreases |xs|
  {
    if xs == [] then Ok(([], []))
    else
      var p :- Split(test, xs[..|xs| - 1]);
      var v := xs[|xs| - 1];
      var b :- test(v);
      if b then Ok((p.0 + [v], p.1)) else Ok((p.0, p.1 + [v]))
  }

  /** A split keeps every element exactly once, on the side its test says. */
  lemma {:induction false} SplitPartition<T>(test: T -> Result<bool>, xs: seq<T>)
    decreases |xs|
    ensures Split(test, xs).Ok? <==> forall v | v in xs :: test(v).Ok?
    ensures Split(test, xs).Ok? ==>
      var (yes, no) := Split(test, xs).value;
      && multiset(yes) + multiset(no) == multiset(xs)
      && |yes| + |no| == |xs|
      && (forall v | v in yes :: test(v) == Ok(true))
      && (forall v | v in no :: test(v) == Ok(false))
  {
    if xs != [] {
      var pre := xs[..|xs| - 1];
      var v := xs[|xs| - 1];
      SplitPartition(test, pre);
      assert xs == pre + [v];
      assert forall u | u in xs :: u in pre || u == v;
    }
  }

  /** Once a prefix fails, the whole split fails with the same error. */
  lemma {:induction false} SplitPrefixErr<T>(test: T -> Result<bool>, xs: seq<T>, n: nat)
    requires n <= |xs| && Split(test, xs[..n]).Err?
    decreases |xs| - n
    ensures Split(test, xs) == Split(test, xs[..n])
  {
    if n < |xs| {
      assert xs[..n + 1][..n] == xs[..n];
      SplitPrefixErr(test, xs, n + 1);
    } else {
      assert xs[..n] == xs;
    }
  }

  /** `[f(v) for v in xs]`; the first raising value is the error. */
  function MapAll<T, U>(f: T -> Result<U>, xs: seq<T>): (r: Result<seq<U>>)
    decreases |xs|
    ensures r.Ok? ==> |r.value| == |xs|
  {
    if xs == [] then Ok([])
    else
      var pre :- MapAll(f, xs[..|xs| - 1]);
      var y :- f(xs[|xs| - 1]);
      Ok(pre + [y])
  }

  /** The comprehension succeeds exactly when every value does, and then
      holds f(xs[n]) at n. */
  lemma {:induction false} MapAllValues<T, U>(f: T -> Result<U>, xs: seq<T>)
    decreases |xs|
    ensures MapAll(f, xs).Ok? <==> forall v | v in xs :: f(v).Ok?
    ensures MapAll(f, xs).Ok? ==> forall n | 0 <= n < |xs| :: MapAll(f, xs).value[n] == f(xs[n]).value
  {
    if xs != [] {
      var pre := xs[..|xs| - 1];
      MapAllValues(f, pre);
      assert xs == pre + [xs[|xs| - 1]];
      assert forall u | u in xs :: u in pre || u == xs[|xs| - 1];
    }
  }

  /** One more value of the comprehension. */
  lemma MapAllStep<T, U>(f: T -> Result<U>, xs: seq<T>, n: nat, out: seq<U>)
    requires n < |xs| && MapAll(f, xs[..n]) == Ok(out)
    ensures MapAll(f, xs[..n + 1]) == if f(xs[n]).Ok? then Ok(out + [f(xs[n]).value]) else Err(f(xs[n]).error)
  {
    assert xs[..n + 1][..n] == xs[..n];
  }

  /** Once a prefix fails, the whole comprehension fails with that error. */
  lemma {:induction false} MapAllPrefixErr<T, U>(f: T -> Result<U>, xs: seq<T>, n: nat)
    requires n <= |xs| && MapAll(f, xs[..n]).Err?
    decreases |xs| - n
    ensures MapAll(f, xs) == MapAll(f, xs[..n])
  {
    if n < |xs| {
      assert xs[..n + 1][..n] == xs[..n];
      MapAllPrefixErr(f, xs, n + 1);
    } else {
      assert xs[..n] == xs;
    }
  }

  /** Joining lists is associative. */
  lemma AppendAssoc<T>(a: seq<T>, b: seq<T>, c: seq<T>)
    ensures a + b + c == a + (b + c)
  {
  }

  // ----- lists without repetitions, and the positions of their elements -----

  /** No element of the list occurs twice. */
  predicate Distinct<T(==)>(s: seq<T>) {
    forall i, j | 0 <= i < j < |s| :: s[i] != s[j]
  }

  /** Two lists without repetitions and without common elements join into
      one without repetitions. */
  lemma DistinctAppend<T>(a: seq<T>, b: seq<T>)
    requires Distinct(a) && Distinct(b)
    requires forall x | x in a :: x !in b
    ensures Distinct(a + b)
  {
    forall i, j | 0 <= i < j < |a + b| ensures (a + b)[i] != (a + b)[j] {
      if j < |a| {
        assert (a + b)[i] == a[i] && (a + b)[j] == a[j];
      } else if i >= |a| {
        assert (a + b)[i] == b[i - |a|] && (a + b)[j] == b[j - |a|];
      } else {
        assert (a + b)[i] == a[i] && a[i] in a;
        assert (a + b)[j] == b[j - |a|] && b[j - |a|] in b;
      }
    }
  }

  /** A list without repetitions has as many elements as its set. */
  lemma {:induction false} DistinctCard<T>(s: seq<T>)
    requires Distinct(s)
    decreases |s|
    ensures |set x | x in s| == |s|
  {
    if s != [] {
      var p, z := s[..|s| - 1], s[|s| - 1];
      assert s == p + [z];
      assert Distinct(p) by {
        forall i, j | 0 <= i < j < |p| ensures p[i] != p[j] {
          assert p[i] == s[i] && p[j] == s[j];
        }
      }
      DistinctCard(p);
      assert z !in p by {
        forall i | 0 <= i < |p| ensures p[i] != z {
          assert p[i] == s[i];
        }
      }
      assert (set x | x in s) == (set x | x in p) + {z};
    }
  }

  /** `{x: k for k, x in enumerate(s)}`: the position of each element, the
      later one winning for a repeated element. */
  function Numbering<T(==)>(s: seq<T>): map<T, int>
    decreases |s|
  {
    if s == [] then map[] else Numbering(s[..|s| - 1])[s[|s| - 1] := |s| - 1]
  }

  /** One more element numbered. */
  lemma NumberingSnoc<T>(s: seq<T>, x: T)
    ensures Numbering(s + [x]) == Numbering(s)[x := |s|]
  {
    assert (s + [x])[..|s|] == s;
  }

  /** Without repetitions, the numbering holds exactly the elements of the
      list, each at its own position. */
  lemma {:induction false} NumberingAt<T>(s: seq<T>)
    requires Distinct(s)
    decreases |s|
    ensures forall x :: x in Numbering(s) <==> x in s
    ensures forall k | 0 <= k < |s| :: Numbering(s)[s[k]] == k
  {
    if s != [] {
      var p, z := s[..|s| - 1], s[|s| - 1];
      assert s == p + [z];
      assert Distinct(p) by {
        forall i, j | 0 <= i < j < |p| ensures p[i] != p[j] {
          assert p[i] == s[i] && p[j] == s[j];
        }
      }
      NumberingAt(p);
      forall x ensures x in Numbering(s) <==> x in s {
        assert x in s <==> x in p || x == z;
      }
      forall k | 0 <= k < |s| ensures Numbering(s)[s[k]] == k {
        if k < |p| {
          assert s[k] == p[k] && s[k] != z;
        }
      }
    }
  }
}
