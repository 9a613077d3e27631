/** Exhaustive nearest-neighbour search by cosine similarity, over the reals. */
module Knn {
  import opened Sorting

  type Vector = seq<real>

  /** Products of corresponding components; surplus components of the longer vector are ignored. */
  function Dot(a: Vector, b: Vector): real {
    if a == [] || b == [] then 0.0 else a[0] * b[0] + Dot(a[1..], b[1..])
  }

  ghost predicate IsSqrt(sqrt: real -> real) {
    forall x: real {:trigger sqrt(x)} :: x >= 0.0 ==> sqrt(x) >= 0.0 && sqrt(x) * sqrt(x) == x
  }

  /** Cosine similarity; zero when either vector is zero. */
  function Cosine(sqrt: real -> real, a: Vector, b: Vector): real {
    Score(Dot(a, b), sqrt(Dot(a, a)), sqrt(Dot(b, b)))
  }

  /** The score of two vectors with dot product `d` and lengths `x` and `y`. */
  function Score(d: real, x: real, y: real): real {
    if x == 0.0 || y == 0.0 then 0.0 else Ratio(d, x, y)
  }

  function Ratio(d: real, x: real, y: real): real
    requires x != 0.0 && y != 0.0
  {
    NonzeroProduct(x, y);
    d / (x * y)
  }

  lemma NonzeroProduct(x: real, y: real)
    requires x != 0.0 && y != 0.0
    ensures x * y != 0.0
  {
  }

  datatype Match = Match(index: nat, score: real)

  /** Higher scores first; ties go to the lower index. */
  predicate Precedes(x: Match, y: Match) {
    x.score > y.score || (x.score == y.score && x.index <= y.index)
  }

  function Scored(sqrt: real -> real, query: Vector, corpus: seq<Vector>): (r: seq<Match>)
    ensures |r| == |corpus|
  {
    seq(|corpus|, i requires 0 <= i < |corpus| => Match(i, Cosine(sqrt, query, corpus[i])))
  }

  function Truncate<T>(s: seq<T>, k: nat): seq<T> {
    if k < |s| then s[..k] else s
  }

  function Ranking(sqrt: real -> real, query: Vector, corpus: seq<Vector>): seq<Match> {
    Sort(Precedes, Scored(sqrt, query, corpus))
  }

  /** `knn_search`. */
  function Search(sqrt: real -> real, query: Vector, corpus: seq<Vector>, k: nat): seq<Match> {
    Truncate(Ranking(sqrt, query, corpus), k)
  }

  /** `knn_search`, step by step: score, sort, truncate. */
  method KnnSearch(sqrt: real -> real, query: Vector, corpus: seq<Vector>, k: nat) returns (r: seq<Match>)
    ensures r == Search(sqrt, query, corpus, k) && IsExact(sqrt, query, corpus, k, r)
  {
    r := [];
    for i := 0 to |corpus|
      invariant r == Scored(sqrt, query, corpus)[..i]
    {
      r := r + [Match(i, Cosine(sqrt, query, corpus[i]))];
    }
    assert r == Scored(sqrt, query, corpus);
    r := Sort(Precedes, r);
    if k < |r| {
      r := r[..k];
    }
    SearchIsExact(sqrt, query, corpus, k);
  }

  lemma PrecedesIsTotal()
    ensures TotalOrder(Precedes) && forall s :: Untied(Precedes, s)
  {
  }

  // ---------------------------------------------------------------- ranking

  /** The ranking holds each corpus entry once, with its own score. */
  lemma RankingIsPermutation(sqrt: real -> real, query: Vector, corpus: seq<Vector>)
    ensures |Ranking(sqrt, query, corpus)| == |corpus|
    ensures forall m :: m in Ranking(sqrt, query, corpus) <==> m in Scored(sqrt, query, corpus)
    ensures forall i, j :: 0 <= i < j < |corpus| ==>
              Ranking(sqrt, query, corpus)[i].index != Ranking(sqrt, query, corpus)[j].index
  {
    var scored, ranking := Scored(sqrt, query, corpus), Ranking(sqrt, query, corpus);
    PrecedesIsTotal();
    SortIsSorted(Precedes, scored);
    SortLength(Precedes, scored);
    forall m ensures m in ranking <==> m in scored {
      assert m in multiset(ranking) <==> m in multiset(scored);
    }
    forall i, j | 0 <= i < j < |corpus| ensures ranking[i].index != ranking[j].index {
      if ranking[i].index == ranking[j].index {
        assert ranking[i] in scored && ranking[j] in scored;
        assert ranking[i] == ranking[j];
        TwiceIn(ranking, i, j);
        OnceIn(scored, ranking[i]);
        assert false;
      }
    }
  }

  lemma TwiceIn<T>(s: seq<T>, i: nat, j: nat)
    requires i < j < |s| && s[i] == s[j]
    ensures multiset(s)[s[i]] >= 2
  {
    assert s == s[..i] + [s[i]] + s[i + 1..j] + [s[j]] + s[j + 1..];
  }

  lemma NotIn<T>(s: seq<T>, x: T)
    requires x !in s
    ensures multiset(s)[x] == 0
  {
  }

  lemma OnceIn<T>(s: seq<T>, x: T)
    requires forall i, j :: 0 <= i < j < |s| ==> s[i] != s[j]
    ensures multiset(s)[x] <= 1
  {
    if x in s {
      var i :| 0 <= i < |s| && s[i] == x;
      assert s == s[..i] + [x] + s[i + 1..];
      NotIn(s[..i], x);
      NotIn(s[i + 1..], x);
    } else {
      NotIn(s, x);
    }
  }

  /** Ties being broken by index, the ranking is the only sorted list of the scored entries. */
  lemma RankingIsDeterministic(sqrt: real -> real, query: Vector, corpus: seq<Vector>, other: seq<Match>)
    requires Sorted(Precedes, other) && multiset(other) == multiset(Scored(sqrt, query, corpus))
    ensures other == Ranking(sqrt, query, corpus)
  {
    PrecedesIsTotal();
    SortIsSorted(Precedes, Scored(sqrt, query, corpus));
    SortedUnique(Precedes, other, Ranking(sqrt, query, corpus));
  }

  ghost predicate Returns(r: seq<Match>, i: nat) {
    exists n :: 0 <= n < |r| && r[n].index == i
  }

  /** Min(k, n) distinct entries with their scores, best first, and every entry left out ranks after every
      entry returned. */
  ghost predicate IsExact(sqrt: real -> real, query: Vector, corpus: seq<Vector>, k: nat, r: seq<Match>) {
    && |r| == (if k < |corpus| then k else |corpus|)
    && (forall m :: m in r ==> m.index < |corpus| && m.score == Cosine(sqrt, query, corpus[m.index]))
    && (forall i, j :: 0 <= i < j < |r| ==>
          r[i].score > r[j].score || (r[i].score == r[j].score && r[i].index < r[j].index))
    && (forall i: nat, n: nat :: i < |corpus| && n < |r| && !Returns(r, i) ==>
          var score := Cosine(sqrt, query, corpus[i]);
          r[n].score > score || (r[n].score == score && r[n].index < i))
  }

  lemma ReturnedScore(sqrt: real -> real, query: Vector, corpus: seq<Vector>, k: nat, m: Match)
    requires m in Search(sqrt, query, corpus, k)
    ensures m.index < |corpus| && m.score == Cosine(sqrt, query, corpus[m.index])
  {
    RankingIsPermutation(sqrt, query, corpus);
    assert m in Ranking(sqrt, query, corpus);
    assert m in Scored(sqrt, query, corpus);
  }

  lemma AfterPrefix(ranking: seq<Match>, k: nat, n: nat, m: Match)
    requires Sorted(Precedes, ranking) && m in ranking && m !in Truncate(ranking, k) && n < |Truncate(ranking, k)|
    ensures Precedes(Truncate(ranking, k)[n], m)
  {
    var at :| 0 <= at < |ranking| && ranking[at] == m;
    assert at >= |Truncate(ranking, k)|;
  }

  lemma OmittedRanksAfter(sqrt: real -> real, query: Vector, corpus: seq<Vector>, k: nat, i: nat, n: nat)
    requires i < |corpus| && n < |Search(sqrt, query, corpus, k)| && !Returns(Search(sqrt, query, corpus, k), i)
    ensures Precedes(Search(sqrt, query, corpus, k)[n], Match(i, Cosine(sqrt, query, corpus[i])))
  {
    var m := Scored(sqrt, query, corpus)[i];
    RankingIsPermutation(sqrt, query, corpus);
    assert m in Ranking(sqrt, query, corpus);
    PrecedesIsTotal();
    SortIsSorted(Precedes, Scored(sqrt, query, corpus));
    assert m.index == i;
    AfterPrefix(Ranking(sqrt, query, corpus), k, n, m);
  }

  /** Main theorem: the result is exact. */
  lemma SearchIsExact(sqrt: real -> real, query: Vector, corpus: seq<Vector>, k: nat)
    ensures IsExact(sqrt, query, corpus, k, Search(sqrt, query, corpus, k))
  {
    var r := Search(sqrt, query, corpus, k);
    RankingIsPermutation(sqrt, query, corpus);
    PrecedesIsTotal();
    SortIsSorted(Precedes, Scored(sqrt, query, corpus));
    forall m | m in r ensures m.index < |corpus| && m.score == Cosine(sqrt, query, corpus[m.index]) {
      ReturnedScore(sqrt, query, corpus, k, m);
    }
    forall i: nat, n: nat | i < |corpus| && n < |r| && !Returns(r, i)
      ensures Precedes(r[n], Match(i, Cosine(sqrt, query, corpus[i])))
    {
      OmittedRanksAfter(sqrt, query, corpus, k, i, n);
      assert r[n].index != i;
    }
  }

  /** Asking for more keeps what was returned and appends to it. */
  lemma SearchIsPrefix(sqrt: real -> real, query: Vector, corpus: seq<Vector>, k: nat, more: nat)
    requires k <= more
    ensures Search(sqrt, query, corpus, k) <= Search(sqrt, query, corpus, more)
  {
  }

  // ---------------------------------------------------------------- Cauchy-Schwarz

  lemma {:induction false} DotSquareNotNegative(a: Vector)
    ensures Dot(a, a) >= 0.0
  {
    if a != [] {
      DotSquareNotNegative(a[1..]);
      assert a[0] * a[0] >= 0.0;
    }
  }

  lemma SquareOrder(p: real, q: real)
    requires q >= 0.0 && p * p <= q * q
    ensures p <= q
  {
    if p > q {
      PositiveProduct(p - q, p + q);
    }
  }

  lemma PositiveProduct(x: real, y: real)
    requires x > 0.0 && y > 0.0
    ensures x * y > 0.0
  {
  }

  lemma MeanBound(u: real, v: real)
    ensures 4.0 * (u * v) <= (u + v) * (u + v)
  {
    assert (u - v) * (u - v) >= 0.0;
  }

  /** The cross term of one more component: with d^2 <= a b, the product 2 x y d is at most x^2 b + y^2 a. */
  lemma CrossTerm(x: real, y: real, d: real, a: real, b: real)
    requires a >= 0.0 && b >= 0.0 && d * d <= a * b
    ensures 2.0 * (x * y * d) <= x * x * b + y * y * a
  {
    var u, v, p := x * x * b, y * y * a, 2.0 * (x * y * d);
    assert p * p == 4.0 * (x * x * (y * y)) * (d * d);
    ScaledBound(4.0 * (x * x * (y * y)), d * d, a * b);
    assert 4.0 * (x * x * (y * y)) * (a * b) == 4.0 * (u * v);
    MeanBound(u, v);
    assert u >= 0.0 && v >= 0.0;
    SquareOrder(p, u + v);
  }

  lemma ScaledBound(c: real, s: real, t: real)
    requires s <= t
    ensures c >= 0.0 ==> c * s <= c * t
  {
  }

  lemma NonnegativeProduct(x: real, y: real)
    requires x >= 0.0 && y >= 0.0
    ensures x * y >= 0.0
  {
  }

  /** A dot product `d` is bounded by two squared lengths. */
  ghost predicate Bounded(d: real, p: real, q: real) {
    p >= 0.0 && q >= 0.0 && d * d <= p * q
  }

  /** One more component: x and y join vectors with dot product d and squared lengths p and q. */
  lemma CauchyStep(x: real, y: real, d: real, p: real, q: real, dot: real, sqA: real, sqB: real)
    requires Bounded(d, p, q)
    requires dot == x * y + d && sqA == x * x + p && sqB == y * y + q
    ensures Bounded(dot, sqA, sqB)
  {
    CrossTerm(x, y, d, p, q);
    Expand(x, y, d, p, q);
  }

  lemma {:induction false} CauchySchwarz(a: Vector, b: Vector)
    ensures Bounded(Dot(a, b), Dot(a, a), Dot(b, b))
  {
    if a == [] || b == [] {
      DotSquareNotNegative(a);
      DotSquareNotNegative(b);
      NonnegativeProduct(Dot(a, a), Dot(b, b));
    } else {
      var s, t := a[1..], b[1..];
      CauchySchwarz(s, t);
      CauchyStep(a[0], b[0], Dot(s, t), Dot(s, s), Dot(t, t), Dot(a, b), Dot(a, a), Dot(b, b));
    }
  }

  lemma Expand(x: real, y: real, d: real, p: real, q: real)
    requires d * d <= p * q && 2.0 * (x * y * d) <= x * x * q + y * y * p
    ensures (x * y + d) * (x * y + d) <= (x * x + p) * (y * y + q)
  {
    assert (x * y + d) * (x * y + d) == x * x * (y * y) + 2.0 * (x * y * d) + d * d;
    assert (x * x + p) * (y * y + q) == x * x * (y * y) + x * x * q + y * y * p + p * q;
  }

  lemma NormProduct(x: real, y: real)
    requires x > 0.0 && y > 0.0
    ensures x * y > 0.0 && (x * y) * (x * y) == (x * x) * (y * y)
  {
    PositiveProduct(x, y);
  }

  /** If d^2 is at most the product of two squared lengths, d over the lengths lies in [-1, 1]. */
  lemma RatioInRange(d: real, x: real, y: real)
    requires x > 0.0 && y > 0.0 && d * d <= (x * x) * (y * y)
    ensures -1.0 <= Ratio(d, x, y) <= 1.0
  {
    NormProduct(x, y);
    var n := x * y;
    SquareOrder(d, n);
    assert (-d) * (-d) == d * d;
    SquareOrder(-d, n);
    QuotientInRange(d, n);
  }

  lemma QuotientInRange(d: real, n: real)
    requires n > 0.0 && -n <= d <= n
    ensures -1.0 <= d / n <= 1.0
  {
    assert d / n * n == d;
  }

  lemma ScoreBound(d: real, x: real, y: real, p: real, q: real)
    requires x >= 0.0 && y >= 0.0 && x * x == p && y * y == q && Bounded(d, p, q)
    ensures -1.0 <= Score(d, x, y) <= 1.0
  {
    if x > 0.0 && y > 0.0 {
      RatioInRange(d, x, y);
    }
  }

  /** A score is the dot product relative to the two lengths, and zero when one of them is. */
  lemma CosineExact(sqrt: real -> real, a: Vector, b: Vector)
    ensures var x, y := sqrt(Dot(a, a)), sqrt(Dot(b, b));
            if x == 0.0 || y == 0.0 then Cosine(sqrt, a, b) == 0.0
            else Cosine(sqrt, a, b) * (x * y) == Dot(a, b)
  {
    ScoreExact(Dot(a, b), sqrt(Dot(a, a)), sqrt(Dot(b, b)));
  }

  lemma ScoreExact(d: real, x: real, y: real)
    ensures if x == 0.0 || y == 0.0 then Score(d, x, y) == 0.0 else Score(d, x, y) * (x * y) == d
  {
    if x != 0.0 && y != 0.0 {
      NonzeroProduct(x, y);
      DivideBack(d, x * y);
    }
  }

  lemma DivideBack(d: real, n: real)
    requires n != 0.0
    ensures d / n * n == d
  {
  }

  /** Every score lies in [-1, 1]. */
  lemma ScoreInRange(sqrt: real -> real, a: Vector, b: Vector)
    requires IsSqrt(sqrt)
    ensures -1.0 <= Cosine(sqrt, a, b) <= 1.0
  {
    CauchySchwarz(a, b);
    ScoreBound(Dot(a, b), sqrt(Dot(a, a)), sqrt(Dot(b, b)), Dot(a, a), Dot(b, b));
  }

  // ---------------------------------------------------------------- what a dot product is

  function Add(a: Vector, b: Vector): Vector
    requires |a| == |b|
  {
    if a == [] then [] else [a[0] + b[0]] + Add(a[1..], b[1..])
  }

  /** The i-th unit vector of length n. */
  function Unit(i: nat, n: nat): Vector {
    if n == 0 then [] else [if i == 0 then 1.0 else 0.0] + (if i == 0 then Zero(n - 1) else Unit(i - 1, n - 1))
  }

  function Zero(n: nat): Vector {
    if n == 0 then [] else [0.0] + Zero(n - 1)
  }

  lemma {:induction false} DotAdds(a: Vector, b: Vector, c: Vector)
    requires |a| == |b|
    ensures Dot(Add(a, b), c) == Dot(a, c) + Dot(b, c)
  {
    if a != [] && c != [] {
      DotAdds(a[1..], b[1..], c[1..]);
      assert Add(a, b)[1..] == Add(a[1..], b[1..]);
      assert (a[0] + b[0]) * c[0] == a[0] * c[0] + b[0] * c[0];
    }
  }

  lemma {:induction false} DotZero(n: nat, b: Vector)
    ensures Dot(Zero(n), b) == 0.0
  {
    if n > 0 && b != [] {
      assert Zero(n)[1..] == Zero(n - 1);
      DotZero(n - 1, b[1..]);
    }
  }

  /** The dot product with a unit vector reads off one component; with additivity and scaling this determines it. */
  lemma {:induction false} DotUnit(i: nat, b: Vector)
    requires i < |b|
    ensures Dot(Unit(i, |b|), b) == b[i]
  {
    var n := |b|;
    if i == 0 {
      assert Unit(i, n)[1..] == Zero(n - 1);
      DotZero(n - 1, b[1..]);
    } else {
      assert Unit(i, n)[1..] == Unit(i - 1, n - 1);
      DotUnit(i - 1, b[1..]);
    }
  }

  // ---------------------------------------------------------------- direction only

  function Scale(c: real, a: Vector): Vector {
    if a == [] then [] else [c * a[0]] + Scale(c, a[1..])
  }

  lemma Distribute(c: real, x: real, y: real, d: real)
    ensures (c * x) * y + c * d == c * (x * y + d)
    ensures y * (c * x) + c * d == c * (y * x + d)
  {
  }

  lemma {:induction false} DotScale(c: real, a: Vector, b: Vector)
    ensures Dot(Scale(c, a), b) == c * Dot(a, b)
    ensures Dot(b, Scale(c, a)) == c * Dot(b, a)
  {
    if a != [] && b != [] {
      assert Scale(c, a)[1..] == Scale(c, a[1..]);
      DotScale(c, a[1..], b[1..]);
      Distribute(c, a[0], b[0], Dot(a[1..], b[1..]));
      Distribute(c, a[0], b[0], Dot(b[1..], a[1..]));
    }
  }

  lemma SqrtIsUnique(sqrt: real -> real, x: real, root: real)
    requires IsSqrt(sqrt) && root >= 0.0 && root * root == x
    ensures sqrt(x) == root
  {
    SquareOrder(sqrt(x), root);
    SquareOrder(root, sqrt(x));
  }

  lemma SqrtOfScaled(sqrt: real -> real, c: real, x: real, scaled: real)
    requires IsSqrt(sqrt) && c > 0.0 && x >= 0.0 && scaled == c * (c * x)
    ensures sqrt(scaled) == c * sqrt(x)
  {
    var root := sqrt(x);
    NonnegativeProduct(c, root);
    assert (c * root) * (c * root) == c * (c * (root * root));
    SqrtIsUnique(sqrt, scaled, c * root);
  }

  lemma DotOfScaled(c: real, a: Vector)
    ensures Dot(Scale(c, a), Scale(c, a)) == c * (c * Dot(a, a))
  {
    DotScale(c, a, Scale(c, a));
    DotScale(c, a, a);
  }

  /** The length of a stretched vector. */
  lemma NormScale(sqrt: real -> real, c: real, a: Vector)
    requires IsSqrt(sqrt) && c > 0.0
    ensures sqrt(Dot(Scale(c, a), Scale(c, a))) == c * sqrt(Dot(a, a))
  {
    DotSquareNotNegative(a);
    DotOfScaled(c, a);
    SqrtOfScaled(sqrt, c, Dot(a, a), Dot(Scale(c, a), Scale(c, a)));
  }

  lemma QuotientUnique(d: real, n: real, r: real)
    requires n > 0.0 && d == r * n
    ensures d / n == r
  {
  }

  lemma RatioScale(c: real, d: real, x: real, y: real)
    requires c > 0.0 && x > 0.0 && y > 0.0
    ensures c * x > 0.0 && Ratio(c * d, c * x, y) == Ratio(d, x, y)
  {
    PositiveProduct(x, y);
    PositiveProduct(c, x);
    PositiveProduct(c * x, y);
    var r := Ratio(d, x, y);
    assert r * (x * y) == d;
    assert r * ((c * x) * y) == c * (r * (x * y));
    QuotientUnique(c * d, (c * x) * y, r);
  }

  ghost predicate Stretched(c: real, x: real, y: real) {
    y == c * x
  }

  lemma ScoreScale(c: real, d: real, x: real, y: real, scaledD: real, scaledX: real)
    requires c > 0.0 && x >= 0.0 && y >= 0.0 && Stretched(c, d, scaledD) && Stretched(c, x, scaledX)
    ensures Score(scaledD, scaledX, y) == Score(d, x, y)
  {
    if x > 0.0 && y > 0.0 {
      RatioScale(c, d, x, y);
    }
  }

  lemma CosineScale(sqrt: real -> real, c: real, a: Vector, s: Vector, b: Vector)
    requires c > 0.0 && sqrt(Dot(a, a)) >= 0.0 && sqrt(Dot(b, b)) >= 0.0
    requires Stretched(c, Dot(a, b), Dot(s, b)) && Stretched(c, sqrt(Dot(a, a)), sqrt(Dot(s, s)))
    ensures Cosine(sqrt, s, b) == Cosine(sqrt, a, b)
  {
    ScoreScale(c, Dot(a, b), sqrt(Dot(a, a)), sqrt(Dot(b, b)), Dot(s, b), sqrt(Dot(s, s)));
  }

  lemma {:induction false} DotSymmetric(a: Vector, b: Vector)
    ensures Dot(a, b) == Dot(b, a)
  {
    if a != [] && b != [] {
      DotSymmetric(a[1..], b[1..]);
    }
  }

  lemma ScoreSymmetric(d: real, x: real, y: real)
    ensures Score(d, x, y) == Score(d, y, x)
  {
    assert x * y == y * x;
  }

  /** Similarity does not depend on which vector comes first. */
  lemma CosineSymmetric(sqrt: real -> real, a: Vector, b: Vector)
    ensures Cosine(sqrt, a, b) == Cosine(sqrt, b, a)
  {
    DotSymmetric(a, b);
    ScoreSymmetric(Dot(a, b), sqrt(Dot(a, a)), sqrt(Dot(b, b)));
  }

  lemma FirstIgnoresMagnitude(sqrt: real -> real, c: real, a: Vector, b: Vector)
    requires IsSqrt(sqrt) && c > 0.0
    ensures Cosine(sqrt, Scale(c, a), b) == Cosine(sqrt, a, b)
  {
    DotSquareNotNegative(a);
    DotSquareNotNegative(b);
    NormScale(sqrt, c, a);
    DotScale(c, a, b);
    CosineScale(sqrt, c, a, Scale(c, a), b);
  }

  /** Stretching either vector, or both, changes no score. */
  lemma ScoreIgnoresMagnitude(sqrt: real -> real, c: real, a: Vector, e: real, b: Vector)
    requires IsSqrt(sqrt) && c > 0.0 && e > 0.0
    ensures Cosine(sqrt, Scale(c, a), Scale(e, b)) == Cosine(sqrt, a, b)
  {
    FirstIgnoresMagnitude(sqrt, c, a, Scale(e, b));
    CosineSymmetric(sqrt, a, Scale(e, b));
    FirstIgnoresMagnitude(sqrt, e, b, a);
    CosineSymmetric(sqrt, b, a);
  }

  /** Each corpus vector stretched by its own factor. */
  function ScaleAll(factors: seq<real>, corpus: seq<Vector>): (r: seq<Vector>)
    requires |factors| == |corpus|
    ensures |r| == |corpus|
  {
    seq(|corpus|, i requires 0 <= i < |corpus| => Scale(factors[i], corpus[i]))
  }

  /** Stretching the query and every corpus vector, each by its own factor, changes no result. */
  lemma SearchIgnoresMagnitude(sqrt: real -> real, c: real, query: Vector, factors: seq<real>, corpus: seq<Vector>,
                               k: nat)
    requires IsSqrt(sqrt) && c > 0.0 && |factors| == |corpus|
    requires forall i :: 0 <= i < |factors| ==> factors[i] > 0.0
    ensures Search(sqrt, Scale(c, query), ScaleAll(factors, corpus), k) == Search(sqrt, query, corpus, k)
  {
    forall i | 0 <= i < |corpus|
      ensures Cosine(sqrt, Scale(c, query), Scale(factors[i], corpus[i])) == Cosine(sqrt, query, corpus[i])
    {
      ScoreIgnoresMagnitude(sqrt, c, query, factors[i], corpus[i]);
    }
    assert Scored(sqrt, Scale(c, query), ScaleAll(factors, corpus)) == Scored(sqrt, query, corpus);
  }

  lemma RatioOfProduct(d: real, x: real, y: real)
    requires x > 0.0 && y > 0.0 && d == x * y
    ensures d > 0.0 && Ratio(d, x, y) == 1.0
  {
    PositiveProduct(x, y);
    QuotientUnique(d, x * y, 1.0);
  }

  /** A vector that is not zero is most similar to itself. */
  lemma SelfScoreIsOne(sqrt: real -> real, a: Vector)
    requires IsSqrt(sqrt)
    ensures Cosine(sqrt, a, a) == if Dot(a, a) == 0.0 then 0.0 else 1.0
  {
    DotSquareNotNegative(a);
    var d := Dot(a, a);
    var x := sqrt(d);
    if x > 0.0 {
      RatioOfProduct(d, x, x);
    }
  }
}
