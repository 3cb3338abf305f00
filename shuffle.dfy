/** The reordering of the basis of a triple tensor product A ⊗ B ⊗ C in one
    total degree n: the basis is listed once grouped by the degrees of A and
    B (the "post" order) and once grouped by the degree of A ⊗ B (the "pre"
    order), and the shuffle sends each position of the pre order to the
    position of the same basis element in the post order.
 */
module Shuffle {
  import opened Wrappers
  import opened Keys
  import opened Graded
  import opened Lists

  /** A basis element: the u-th vector of A in degree x, the v-th of B in
      degree y and the w-th of C in degree z. */
  datatype Cell = Cell(x: int, u: int, y: int, v: int, z: int, w: int)

  /** What the loops run over: the three spaces, the total degree, and the
      least and greatest degrees of A (m1, r1) and of B (m2, r2). */
  datatype Frame = Frame(A: GVS, B: GVS, C: GVS, n: int, m1: int, r1: int, m2: int, r2: int)

  /** `len(range(d))`. */
  function Len(d: int): nat {
    if d > 0 then d else 0
  }

  /** The cell is a basis element of A ⊗ B ⊗ C in total degree n. */
  predicate Spans(F: Frame, c: Cell) {
    && 0 <= c.u < GrDim(F.A, c.x)
    && 0 <= c.v < GrDim(F.B, c.y)
    && c.z == F.n - c.x - c.y
    && 0 <= c.w < GrDim(F.C, c.z)
  }

  /** The bounds are the least and greatest degrees of A and of B. */
  predicate Framed(F: Frame) {
    && F.m1 in F.A.dims && F.r1 in F.A.dims
    && F.m2 in F.B.dims && F.r2 in F.B.dims
    && (forall d | d in F.A.dims :: F.m1 <= d <= F.r1)
    && (forall d | d in F.B.dims :: F.m2 <= d <= F.r2)
  }

  /** `min` and `max` of the degrees of a nonempty set. */
  lemma IntListEnds(s: set<int>)
    requires |s| > 0
    ensures |IntList(s)| > 0
    ensures IntList(s)[0] in s && IntList(s)[|IntList(s)| - 1] in s
    ensures forall d | d in s :: IntList(s)[0] <= d <= IntList(s)[|IntList(s)| - 1]
  {
    var l := IntList(s);
    IntListCard(s);
    IntListHas(s);
    IntListSorted(s);
    forall d | d in s ensures l[0] <= d <= l[|l| - 1] {
      assert d in l;
      var j :| 0 <= j < |l| && l[j] == d;
      if 0 < j {
        assert l[0] < l[j];
      }
      if j < |l| - 1 {
        assert l[j] < l[|l| - 1];
      }
    }
  }

  /** The frame of the loops, from the least and greatest degrees of A and
      of B. */
  function FrameOf(n: int, A: GVS, B: GVS, C: GVS): (F: Frame)
    requires |A.dims| > 0 && |B.dims| > 0
    ensures Framed(F) && F.A == A && F.B == B && F.C == C && F.n == n
  {
    IntListEnds(A.dims.Keys);
    IntListEnds(B.dims.Keys);
    var ka, kb := IntList(A.dims.Keys), IntList(B.dims.Keys);
    Frame(A, B, C, n, ka[0], ka[|ka| - 1], kb[0], kb[|kb| - 1])
  }

  // ----- the post order: x, u, y, v, w -----

  /** The first k cells over w, for fixed x, u, y and v. */
  function PostW(F: Frame, x: int, u: int, y: int, v: int, k: int): seq<Cell>
    decreases k
  {
    if k <= 0 then [] else PostW(F, x, u, y, v, k - 1) + [Cell(x, u, y, v, F.n - x - y, k - 1)]
  }

  /** The cells of the first k values of v, for fixed x, u and y. */
  function PostV(F: Frame, x: int, u: int, y: int, k: int): seq<Cell>
    decreases k
  {
    if k <= 0 then []
    else PostV(F, x, u, y, k - 1) + PostW(F, x, u, y, k - 1, Len(GrDim(F.C, F.n - x - y)))
  }

  /** The cells of the degrees from m2 up to y, for fixed x and u. */
  function PostY(F: Frame, x: int, u: int, y: int): seq<Cell>
    decreases y - F.m2
  {
    if y <= F.m2 then []
    else PostY(F, x, u, y - 1) + PostV(F, x, u, y - 1, Len(GrDim(F.B, y - 1)))
  }

  /** The cells of the first k values of u, for fixed x. */
  function PostU(F: Frame, x: int, k: int): seq<Cell>
    decreases k
  {
    if k <= 0 then []
    else PostU(F, x, k - 1) + PostY(F, x, k - 1, F.r2 + 1)
  }

  /** The cells of the degrees from m1 up to x. */
  function PostX(F: Frame, x: int): seq<Cell>
    decreases x - F.m1
  {
    if x <= F.m1 then []
    else PostX(F, x - 1) + PostU(F, x - 1, Len(GrDim(F.A, x - 1)))
  }

  /** The whole post order. */
  function PostList(F: Frame): seq<Cell> {
    PostX(F, F.r1 + 1)
  }

  lemma {:induction false} PostWHas(F: Frame, x: int, u: int, y: int, v: int, k: int, c: Cell)
    decreases k
    ensures c in PostW(F, x, u, y, v, k) <==>
      c.x == x && c.u == u && c.y == y && c.v == v && c.z == F.n - x - y && 0 <= c.w < k
  {
    if k > 0 {
      PostWHas(F, x, u, y, v, k - 1, c);
    }
  }

  lemma {:induction false} PostVHas(F: Frame, x: int, u: int, y: int, k: int, c: Cell)
    decreases k
    ensures c in PostV(F, x, u, y, k) <==>
      c.x == x && c.u == u && c.y == y && 0 <= c.v < k && c.z == F.n - x - y && 0 <= c.w < GrDim(F.C, c.z)
  {
    if k > 0 {
      PostVHas(F, x, u, y, k - 1, c);
      PostWHas(F, x, u, y, k - 1, Len(GrDim(F.C, F.n - x - y)), c);
    }
  }

  lemma {:induction false} PostYHas(F: Frame, x: int, u: int, y: int, c: Cell)
    decreases y - F.m2
    ensures c in PostY(F, x, u, y) <==>
      && c.x == x && c.u == u && F.m2 <= c.y < y
      && 0 <= c.v < GrDim(F.B, c.y) && c.z == F.n - x - c.y && 0 <= c.w < GrDim(F.C, c.z)
  {
    if y > F.m2 {
      PostYHas(F, x, u, y - 1, c);
      PostVHas(F, x, u, y - 1, Len(GrDim(F.B, y - 1)), c);
    }
  }

  lemma {:induction false} PostUHas(F: Frame, x: int, k: int, c: Cell)
    decreases k
    ensures c in PostU(F, x, k) <==>
      && c.x == x && 0 <= c.u < k && F.m2 <= c.y <= F.r2
      && 0 <= c.v < GrDim(F.B, c.y) && c.z == F.n - x - c.y && 0 <= c.w < GrDim(F.C, c.z)
  {
    if k > 0 {
      PostUHas(F, x, k - 1, c);
      PostYHas(F, x, k - 1, F.r2 + 1, c);
      if c.u == k - 1 {
        assert c !in PostU(F, x, k - 1);
      } else {
        assert c !in PostY(F, x, k - 1, F.r2 + 1);
      }
    }
  }

  lemma {:induction false} PostXHas(F: Frame, x: int, c: Cell)
    decreases x - F.m1
    ensures c in PostX(F, x) <==> F.m1 <= c.x < x && F.m2 <= c.y <= F.r2 && Spans(F, c)
  {
    if x > F.m1 {
      PostXHas(F, x - 1, c);
      PostUHas(F, x - 1, Len(GrDim(F.A, x - 1)), c);
    }
  }

  /** The post order lists exactly the basis of A ⊗ B ⊗ C in degree n. */
  lemma PostListHas(F: Frame, c: Cell)
    requires Framed(F)
    ensures c in PostList(F) <==> Spans(F, c)
  {
    PostXHas(F, F.r1 + 1, c);
    if Spans(F, c) {
      assert c.x in F.A.dims && c.y in F.B.dims;
    }
  }

  lemma {:induction false} PostWDistinct(F: Frame, x: int, u: int, y: int, v: int, k: int)
    decreases k
    ensures Distinct(PostW(F, x, u, y, v, k))
  {
    if k > 0 {
      var c := Cell(x, u, y, v, F.n - x - y, k - 1);
      PostWDistinct(F, x, u, y, v, k - 1);
      PostWHas(F, x, u, y, v, k - 1, c);
      DistinctAppend(PostW(F, x, u, y, v, k - 1), [c]);
    }
  }

  lemma {:induction false} PostVDistinct(F: Frame, x: int, u: int, y: int, k: int)
    decreases k
    ensures Distinct(PostV(F, x, u, y, k))
  {
    if k > 0 {
      var p, q := PostV(F, x, u, y, k - 1), PostW(F, x, u, y, k - 1, Len(GrDim(F.C, F.n - x - y)));
      PostVDistinct(F, x, u, y, k - 1);
      PostWDistinct(F, x, u, y, k - 1, Len(GrDim(F.C, F.n - x - y)));
      forall c | c in p ensures c !in q {
        PostVHas(F, x, u, y, k - 1, c);
        PostWHas(F, x, u, y, k - 1, Len(GrDim(F.C, F.n - x - y)), c);
      }
      DistinctAppend(p, q);
    }
  }

  lemma {:induction false} PostYDistinct(F: Frame, x: int, u: int, y0: int)
    decreases y0 - F.m2
    ensures Distinct(PostY(F, x, u, y0))
  {
    if y0 > F.m2 {
      var y := y0 - 1;
      var p, q := PostY(F, x, u, y), PostV(F, x, u, y, Len(GrDim(F.B, y)));
      PostYDistinct(F, x, u, y);
      PostVDistinct(F, x, u, y, Len(GrDim(F.B, y)));
      forall c | c in p ensures c !in q {
        PostYHas(F, x, u, y, c);
        PostVHas(F, x, u, y, Len(GrDim(F.B, y)), c);
      }
      DistinctAppend(p, q);
    }
  }

  lemma {:induction false} PostUDistinct(F: Frame, x: int, k: int)
    decreases k
    ensures Distinct(PostU(F, x, k))
  {
    if k > 0 {
      var y := F.r2 + 1;
      var p, q := PostU(F, x, k - 1), PostY(F, x, k - 1, y);
      PostUDistinct(F, x, k - 1);
      PostYDistinct(F, x, k - 1, y);
      forall c | c in p ensures c !in q {
        PostUHas(F, x, k - 1, c);
        PostYHas(F, x, k - 1, y, c);
      }
      DistinctAppend(p, q);
    }
  }

  lemma {:induction false} PostXDistinct(F: Frame, x0: int)
    decreases x0 - F.m1
    ensures Distinct(PostX(F, x0))
  {
    if x0 > F.m1 {
      var x := x0 - 1;
      var p, q := PostX(F, x), PostU(F, x, Len(GrDim(F.A, x)));
      PostXDistinct(F, x);
      PostUDistinct(F, x, Len(GrDim(F.A, x)));
      forall c | c in p ensures c !in q {
        PostXHas(F, x, c);
        PostUHas(F, x, Len(GrDim(F.A, x)), c);
      }
      DistinctAppend(p, q);
    }
  }

  // ----- the pre order: i = x + y, x, u, v, w -----

  /** The first k cells over w, for fixed i, x, u and v. */
  function PreW(F: Frame, i: int, x: int, u: int, v: int, k: int): seq<Cell>
    decreases k
  {
    if k <= 0 then [] else PreW(F, i, x, u, v, k - 1) + [Cell(x, u, i - x, v, F.n - i, k - 1)]
  }

  /** The cells of the first k values of v, for fixed i, x and u. */
  function PreV(F: Frame, i: int, x: int, u: int, k: int): seq<Cell>
    decreases k
  {
    if k <= 0 then []
    else PreV(F, i, x, u, k - 1) + PreW(F, i, x, u, k - 1, Len(GrDim(F.C, F.n - i)))
  }

  /** The cells of the first k values of u, for fixed i and x. */
  function PreU(F: Frame, i: int, x: int, k: int): seq<Cell>
    decreases k
  {
    if k <= 0 then []
    else PreU(F, i, x, k - 1) + PreV(F, i, x, k - 1, Len(GrDim(F.B, i - x)))
  }

  /** The cells of the degrees x from m1 up to x, for fixed i. */
  function PreX(F: Frame, i: int, x: int): seq<Cell>
    decreases x - F.m1
  {
    if x <= F.m1 then []
    else PreX(F, i, x - 1) + PreU(F, i, x - 1, Len(GrDim(F.A, x - 1)))
  }

  /** The cells of the degrees i from m1 + m2 up to i. */
  function PreI(F: Frame, i: int): seq<Cell>
    decreases i - F.m1 - F.m2
  {
    if i <= F.m1 + F.m2 then []
    else PreI(F, i - 1) + PreX(F, i - 1, F.r1 + 1)
  }

  /** The whole pre order. */
  function PreList(F: Frame): seq<Cell> {
    PreI(F, F.r1 + F.r2 + 1)
  }

  lemma {:induction false} PreWHas(F: Frame, i: int, x: int, u: int, v: int, k: int, c: Cell)
    decreases k
    ensures c in PreW(F, i, x, u, v, k) <==>
      c.x == x && c.u == u && c.y == i - x && c.v == v && c.z == F.n - i && 0 <= c.w < k
  {
    if k > 0 {
      PreWHas(F, i, x, u, v, k - 1, c);
    }
  }

  lemma {:induction false} PreVHas(F: Frame, i: int, x: int, u: int, k: int, c: Cell)
    decreases k
    ensures c in PreV(F, i, x, u, k) <==>
      c.x == x && c.u == u && c.y == i - x && 0 <= c.v < k && c.z == F.n - i && 0 <= c.w < GrDim(F.C, c.z)
  {
    if k > 0 {
      PreVHas(F, i, x, u, k - 1, c);
      PreWHas(F, i, x, u, k - 1, Len(GrDim(F.C, F.n - i)), c);
    }
  }

  lemma {:induction false} PreUHas(F: Frame, i: int, x: int, k: int, c: Cell)
    decreases k
    ensures c in PreU(F, i, x, k) <==>
      && c.x == x && 0 <= c.u < k && c.y == i - x
      && 0 <= c.v < GrDim(F.B, c.y) && c.z == F.n - i && 0 <= c.w < GrDim(F.C, c.z)
  {
    if k > 0 {
      PreUHas(F, i, x, k - 1, c);
      PreVHas(F, i, x, k - 1, Len(GrDim(F.B, i - x)), c);
    }
  }

  lemma {:induction false} PreXHas(F: Frame, i: int, x: int, c: Cell)
    decreases x - F.m1
    ensures c in PreX(F, i, x) <==> c.x + c.y == i && F.m1 <= c.x < x && Spans(F, c)
  {
    if x > F.m1 {
      PreXHas(F, i, x - 1, c);
      PreUHas(F, i, x - 1, Len(GrDim(F.A, x - 1)), c);
    }
  }

  lemma {:induction false} PreIHas(F: Frame, i: int, c: Cell)
    decreases i - F.m1 - F.m2
    ensures c in PreI(F, i) <==> F.m1 + F.m2 <= c.x + c.y < i && F.m1 <= c.x <= F.r1 && Spans(F, c)
  {
    if i > F.m1 + F.m2 {
      PreIHas(F, i - 1, c);
      PreXHas(F, i - 1, F.r1 + 1, c);
    }
  }

  /** The pre order lists exactly the basis of A ⊗ B ⊗ C in degree n. */
  lemma PreListHas(F: Frame, c: Cell)
    requires Framed(F)
    ensures c in PreList(F) <==> Spans(F, c)
  {
    PreIHas(F, F.r1 + F.r2 + 1, c);
    if Spans(F, c) {
      assert c.x in F.A.dims && c.y in F.B.dims;
      assert F.m1 <= c.x <= F.r1 && F.m2 <= c.y <= F.r2;
    }
  }

  lemma {:induction false} PreWDistinct(F: Frame, i: int, x: int, u: int, v: int, k: int)
    decreases k
    ensures Distinct(PreW(F, i, x, u, v, k))
  {
    if k > 0 {
      var c := Cell(x, u, i - x, v, F.n - i, k - 1);
      PreWDistinct(F, i, x, u, v, k - 1);
      PreWHas(F, i, x, u, v, k - 1, c);
      DistinctAppend(PreW(F, i, x, u, v, k - 1), [c]);
    }
  }

  lemma {:induction false} PreVDistinct(F: Frame, i: int, x: int, u: int, k: int)
    decreases k
    ensures Distinct(PreV(F, i, x, u, k))
  {
    if k > 0 {
      var p, q := PreV(F, i, x, u, k - 1), PreW(F, i, x, u, k - 1, Len(GrDim(F.C, F.n - i)));
      PreVDistinct(F, i, x, u, k - 1);
      PreWDistinct(F, i, x, u, k - 1, Len(GrDim(F.C, F.n - i)));
      forall c | c in p ensures c !in q {
        PreVHas(F, i, x, u, k - 1, c);
        PreWHas(F, i, x, u, k - 1, Len(GrDim(F.C, F.n - i)), c);
      }
      DistinctAppend(p, q);
    }
  }

  lemma {:induction false} PreUDistinct(F: Frame, i: int, x: int, k: int)
    decreases k
    ensures Distinct(PreU(F, i, x, k))
  {
    if k > 0 {
      var p, q := PreU(F, i, x, k - 1), PreV(F, i, x, k - 1, Len(GrDim(F.B, i - x)));
      PreUDistinct(F, i, x, k - 1);
      PreVDistinct(F, i, x, k - 1, Len(GrDim(F.B, i - x)));
      forall c | c in p ensures c !in q {
        PreUHas(F, i, x, k - 1, c);
        PreVHas(F, i, x, k - 1, Len(GrDim(F.B, i - x)), c);
      }
      DistinctAppend(p, q);
    }
  }

  lemma {:induction false} PreXDistinct(F: Frame, i: int, x0: int)
    decreases x0 - F.m1
    ensures Distinct(PreX(F, i, x0))
  {
    if x0 > F.m1 {
      var x := x0 - 1;
      var p, q := PreX(F, i, x), PreU(F, i, x, Len(GrDim(F.A, x)));
      PreXDistinct(F, i, x);
      PreUDistinct(F, i, x, Len(GrDim(F.A, x)));
      forall c | c in p ensures c !in q {
        PreXHas(F, i, x, c);
        PreUHas(F, i, x, Len(GrDim(F.A, x)), c);
      }
      DistinctAppend(p, q);
    }
  }

  lemma {:induction false} PreIDistinct(F: Frame, i0: int)
    decreases i0 - F.m1 - F.m2
    ensures Distinct(PreI(F, i0))
  {
    if i0 > F.m1 + F.m2 {
      var i, x := i0 - 1, F.r1 + 1;
      var p, q := PreI(F, i), PreX(F, i, x);
      PreIDistinct(F, i);
      PreXDistinct(F, i, x);
      forall c | c in p ensures c !in q {
        PreIHas(F, i, c);
        PreXHas(F, i, x, c);
      }
      DistinctAppend(p, q);
    }
  }

  // ----- the two orders list the same basis -----

  /** Both orders list the basis of A ⊗ B ⊗ C in degree n, each element
      once, so they have the same length. */
  lemma SameBasis(F: Frame)
    requires Framed(F)
    ensures Distinct(PostList(F)) && Distinct(PreList(F))
    ensures forall c :: c in PostList(F) <==> Spans(F, c)
    ensures forall c :: c in PreList(F) <==> Spans(F, c)
    ensures |PreList(F)| == |PostList(F)|
  {
    PostXDistinct(F, F.r1 + 1);
    PreIDistinct(F, F.r1 + F.r2 + 1);
    forall c ensures c in PostList(F) <==> Spans(F, c) {
      PostListHas(F, c);
    }
    forall c ensures c in PreList(F) <==> Spans(F, c) {
      PreListHas(F, c);
    }
    assert (set c | c in PreList(F)) == (set c | c in PostList(F));
    DistinctCard(PreList(F));
    DistinctCard(PostList(F));
  }

  // ----- the shuffle -----

  /** `arr` sends the k-th cell of the pre order to the position of the same
      cell in the post order. */
  predicate ShuffleOf(F: Frame, arr: seq<int>) {
    && |arr| == |PreList(F)|
    && forall k | 0 <= k < |arr| :: 0 <= arr[k] < |PostList(F)| && PostList(F)[arr[k]] == PreList(F)[k]
  }

  /** The shuffle is a permutation of 0 .. N-1, N the dimension of
      A ⊗ B ⊗ C in degree n. */
  lemma ShufflePermutes(F: Frame, arr: seq<int>)
    requires Framed(F) && ShuffleOf(F, arr)
    ensures |arr| == |PostList(F)|
    ensures Distinct(arr)
    ensures forall j | 0 <= j < |arr| :: j in arr
  {
    var post, pre := PostList(F), PreList(F);
    SameBasis(F);
    forall i, j | 0 <= i < j < |arr| ensures arr[i] != arr[j] {
      assert pre[i] != pre[j];
    }
    forall j | 0 <= j < |arr| ensures j in arr {
      assert post[j] in post;
      assert post[j] in pre;
      var k :| 0 <= k < |pre| && pre[k] == post[j];
      assert post[arr[k]] == post[j];
      assert arr[k] == j;
    }
  }

  /** The post-order loops: each cell numbered by its position. */
  method PostOrder(F: Frame) returns (post: map<Cell, int>)
    ensures post == Numbering(PostList(F))
  {
    post := map[];
    var ctr := 0;
    ghost var cells: seq<Cell> := [];
    for x := F.m1 to F.m1 + Len(F.r1 - F.m1 + 1)
      invariant cells == PostX(F, x)
      invariant ctr == |cells| && post == Numbering(cells)
    {
      post, ctr, cells := PostColumn(F, x, post, ctr, cells);
    }
  }

  /** The post-order loop over u for fixed x, numbering the cells after the
      `ctr` already numbered. */
  method PostColumn(F: Frame, x: int, post: map<Cell, int>, ctr: int, ghost cells: seq<Cell>)
    returns (post': map<Cell, int>, ctr': int, ghost cells': seq<Cell>)
    requires ctr == |cells| && post == Numbering(cells)
    ensures cells' == cells + PostU(F, x, Len(GrDim(F.A, x)))
    ensures ctr' == |cells'| && post' == Numbering(cells')
  {
    post', ctr', cells' := post, ctr, cells;
    for u := 0 to Len(GrDim(F.A, x))
      invariant cells' == cells + PostU(F, x, u)
      invariant ctr' == |cells'| && post' == Numbering(cells')
    {
      post', ctr', cells' := PostRow(F, x, u, post', ctr', cells');
      AppendAssoc(cells, PostU(F, x, u), PostY(F, x, u, F.r2 + 1));
    }
  }

  /** The post-order loop over y for fixed x and u, numbering the cells
      after the `ctr` already numbered. */
  method PostRow(F: Frame, x: int, u: int, post: map<Cell, int>, ctr: int, ghost cells: seq<Cell>)
    returns (post': map<Cell, int>, ctr': int, ghost cells': seq<Cell>)
    requires ctr == |cells| && post == Numbering(cells)
    ensures cells' == cells + PostY(F, x, u, F.r2 + 1)
    ensures ctr' == |cells'| && post' == Numbering(cells')
  {
    post', ctr', cells' := post, ctr, cells;
    for y := F.m2 to F.m2 + Len(F.r2 - F.m2 + 1)
      invariant cells' == cells + PostY(F, x, u, y)
      invariant ctr' == |cells'| && post' == Numbering(cells')
    {
      post', ctr', cells' := PostCells(F, x, u, y, post', ctr', cells');
      AppendAssoc(cells, PostY(F, x, u, y), PostV(F, x, u, y, Len(GrDim(F.B, y))));
    }
  }

  /** The two innermost post-order loops, over v and w for fixed x, u and
      y, numbering the cells after the `ctr` already numbered. */
  method PostCells(F: Frame, x: int, u: int, y: int, post: map<Cell, int>, ctr: int, ghost cells: seq<Cell>)
    returns (post': map<Cell, int>, ctr': int, ghost cells': seq<Cell>)
    requires ctr == |cells| && post == Numbering(cells)
    ensures cells' == cells + PostV(F, x, u, y, Len(GrDim(F.B, y)))
    ensures ctr' == |cells'| && post' == Numbering(cells')
  {
    post', ctr', cells' := post, ctr, cells;
    for v := 0 to Len(GrDim(F.B, y))
      invariant cells' == cells + PostV(F, x, u, y, v)
      invariant ctr' == |cells'| && post' == Numbering(cells')
    {
      ghost var atV := cells';
      for w := 0 to Len(GrDim(F.C, F.n - x - y))
        invariant cells' == atV + PostW(F, x, u, y, v, w)
        invariant ctr' == |cells'| && post' == Numbering(cells')
      {
        var c := Cell(x, u, y, v, F.n - x - y, w);
        NumberingSnoc(cells', c);
        post' := post'[c := ctr'];
        cells' := cells' + [c];
        ctr' := ctr' + 1;
      }
      AppendAssoc(cells, PostV(F, x, u, y, v), PostW(F, x, u, y, v, Len(GrDim(F.C, F.n - x - y))));
    }
  }

  /** The pre-order loops: the cells in the order they are met. */
  method PreOrder(F: Frame) returns (pre: seq<Cell>)
    ensures pre == PreList(F)
  {
    pre := [];
    for i := F.m1 + F.m2 to F.m1 + F.m2 + Len(F.r1 + F.r2 - F.m1 - F.m2 + 1)
      invariant pre == PreI(F, i)
    {
      pre := PreDiagonal(F, i, pre);
    }
  }

  /** The pre-order loop over x for fixed i, appending the cells met. */
  method PreDiagonal(F: Frame, i: int, pre: seq<Cell>) returns (pre': seq<Cell>)
    ensures pre' == pre + PreX(F, i, F.r1 + 1)
  {
    pre' := pre;
    for x := F.m1 to F.m1 + Len(F.r1 - F.m1 + 1)
      invariant pre' == pre + PreX(F, i, x)
    {
      pre' := PreCells(F, i, x, pre');
      AppendAssoc(pre, PreX(F, i, x), PreU(F, i, x, Len(GrDim(F.A, x))));
    }
  }

  /** The three innermost pre-order loops, over u, v and w for fixed i and
      x, appending the cells met. */
  method PreCells(F: Frame, i: int, x: int, pre: seq<Cell>) returns (pre': seq<Cell>)
    ensures pre' == pre + PreU(F, i, x, Len(GrDim(F.A, x)))
  {
    pre' := pre;
    for u := 0 to Len(GrDim(F.A, x))
      invariant pre' == pre + PreU(F, i, x, u)
    {
      ghost var atU := pre';
      for v := 0 to Len(GrDim(F.B, i - x))
        invariant pre' == atU + PreV(F, i, x, u, v)
      {
        ghost var atV := pre';
        for w := 0 to Len(GrDim(F.C, F.n - i))
          invariant pre' == atV + PreW(F, i, x, u, v, w)
        {
          pre' := pre' + [Cell(x, u, i - x, v, F.n - i, w)];
        }
        AppendAssoc(atU, PreV(F, i, x, u, v), PreW(F, i, x, u, v, Len(GrDim(F.C, F.n - i))));
      }
      AppendAssoc(pre, PreU(F, i, x, u), PreV(F, i, x, u, Len(GrDim(F.B, i - x))));
    }
  }

  /** `shuffle(n, A, B, C)`: `min` and `max` of an empty set of degrees
      raise, otherwise the shuffle of the two orders. */
  method Shuffle(n: int, A: GVS, B: GVS, C: GVS) returns (r: Result<seq<int>>)
    ensures r.Err? <==> |A.dims| == 0 || |B.dims| == 0 || |C.dims| == 0
    ensures r.Err? ==> r.error == ValueError
    ensures r.Ok? ==> |A.dims| > 0 && |B.dims| > 0 && ShuffleOf(FrameOf(n, A, B, C), r.value)
  {
    var ka := IntList(A.dims.Keys);
    IntListCard(A.dims.Keys);
    if |ka| == 0 {
      return Err(ValueError);
    }
    var kb := IntList(B.dims.Keys);
    IntListCard(B.dims.Keys);
    if |kb| == 0 {
      return Err(ValueError);
    }
    IntListCard(C.dims.Keys);
    if |IntList(C.dims.Keys)| == 0 {
      return Err(ValueError);
    }
    var F := Frame(A, B, C, n, ka[0], ka[|ka| - 1], kb[0], kb[|kb| - 1]);
    assert F == FrameOf(n, A, B, C);
    var post := PostOrder(F);
    var pre := PreOrder(F);
    var arr: seq<int> := [];
    for k := 0 to |pre|
      invariant |arr| == k
      invariant forall j | 0 <= j < k :: 0 <= arr[j] < |PostList(F)| && PostList(F)[arr[j]] == pre[j]
    {
      ShuffleStep(F, pre[k]);
      arr := arr + [post[pre[k]]];
    }
    return Ok(arr);
  }

  /** Every pre-order cell has its place in the post order. */
  lemma ShuffleStep(F: Frame, c: Cell)
    requires Framed(F) && c in PreList(F)
    ensures c in Numbering(PostList(F))
    ensures 0 <= Numbering(PostList(F))[c] < |PostList(F)|
    ensures PostList(F)[Numbering(PostList(F))[c]] == c
  {
    var post := PostList(F);
    SameBasis(F);
    NumberingAt(post);
    assert c in post;
    var j :| 0 <= j < |post| && post[j] == c;
    assert Numbering(post)[post[j]] == j;
  }
}
