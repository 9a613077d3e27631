/** The equivalence closure of a list of pairs, defined by walks and independently of any forest. */
module EquivalenceClosure {

  type Pairs = seq<(nat, nat)>

  predicate Adjacent(pairs: Pairs, a: nat, b: nat) {
    (a, b) in pairs || (b, a) in pairs
  }

  ghost predicate Walk(pairs: Pairs, path: seq<nat>, a: nat, b: nat) {
    && |path| > 0 && path[0] == a && path[|path| - 1] == b
    && forall i :: 0 <= i < |path| - 1 ==> Adjacent(pairs, path[i], path[i + 1])
  }

  /** `a` and `b` are related by the reflexive, symmetric and transitive closure of `pairs`. */
  ghost predicate Linked(pairs: Pairs, a: nat, b: nat) {
    exists path: seq<nat> :: Walk(pairs, path, a, b)
  }

  lemma LinkedReflexive(pairs: Pairs, a: nat)
    ensures Linked(pairs, a, a)
  {
    assert Walk(pairs, [a], a, a);
  }

  lemma LinkedByPair(pairs: Pairs, a: nat, b: nat)
    requires Adjacent(pairs, a, b)
    ensures Linked(pairs, a, b)
  {
    assert Walk(pairs, [a, b], a, b);
  }

  lemma LinkedTransitive(pairs: Pairs, a: nat, b: nat, c: nat)
    requires Linked(pairs, a, b) && Linked(pairs, b, c)
    ensures Linked(pairs, a, c)
  {
    var p: seq<nat> :| Walk(pairs, p, a, b);
    var q: seq<nat> :| Walk(pairs, q, b, c);
    var r := p + q[1..];
    forall i | 0 <= i < |r| - 1
      ensures Adjacent(pairs, r[i], r[i + 1])
    {
      if i >= |p| - 1 {
        assert r[i] == q[i - (|p| - 1)] && r[i + 1] == q[i + 1 - (|p| - 1)];
      }
    }
    assert Walk(pairs, r, a, c);
  }

  lemma LinkedSymmetric(pairs: Pairs, a: nat, b: nat)
    requires Linked(pairs, a, b)
    ensures Linked(pairs, b, a)
  {
    var p: seq<nat> :| Walk(pairs, p, a, b);
    var r := seq(|p|, i requires 0 <= i < |p| => p[|p| - 1 - i]);
    forall i | 0 <= i < |r| - 1
      ensures Adjacent(pairs, r[i], r[i + 1])
    {
      assert Adjacent(pairs, p[|p| - 2 - i], p[|p| - 2 - i + 1]);
    }
    assert Walk(pairs, r, b, a);
  }

  lemma LinkedMonotone(pairs: Pairs, more: Pairs, a: nat, b: nat)
    requires Linked(pairs, a, b)
    ensures Linked(pairs + more, a, b)
  {
    var p: seq<nat> :| Walk(pairs, p, a, b);
    assert Walk(pairs + more, p, a, b);
  }

  /** A marking that gives the ends of every pair the same mark is constant on closure classes. */
  lemma LinkedKeepsMark(pairs: Pairs, mark: nat -> nat, a: nat, b: nat)
    requires forall u, v :: (u, v) in pairs ==> mark(u) == mark(v)
    requires Linked(pairs, a, b)
    ensures mark(a) == mark(b)
  {
    var p: seq<nat> :| Walk(pairs, p, a, b);
    WalkKeepsMark(pairs, mark, p, a, b);
  }

  lemma {:induction false} WalkKeepsMark(pairs: Pairs, mark: nat -> nat, path: seq<nat>, a: nat, b: nat)
    requires forall u, v :: (u, v) in pairs ==> mark(u) == mark(v)
    requires Walk(pairs, path, a, b)
    ensures mark(a) == mark(b)
  {
    if |path| > 1 {
      assert Adjacent(pairs, path[0], path[0 + 1]);
      var rest := path[1..];
      forall i | 0 <= i < |rest| - 1
        ensures Adjacent(pairs, rest[i], rest[i + 1])
      {
        assert Adjacent(pairs, path[i + 1], path[i + 1 + 1]);
      }
      WalkKeepsMark(pairs, mark, rest, path[1], b);
    }
  }
}

/** Disjoint sets kept as a parent forest with union by rank and path halving. */
module UnionFind {
  import opened Counting
  import opened EquivalenceClosure

  /** The fields of the structure as one value. */
  datatype State = State(parent: seq<nat>, rank: seq<nat>, components: int)

  /** Parents are in range, ranks strictly grow towards the root, and no rank reaches the size. */
  ghost predicate Forest(s: State) {
    && |s.parent| == |s.rank|
    && (forall i :: 0 <= i < |s.parent| ==> s.parent[i] < |s.parent|)
    && (forall i :: 0 <= i < |s.parent| ==> s.rank[i] < |s.parent|)
    && (forall i {:trigger s.parent[i]} ::
          0 <= i < |s.parent| && s.parent[i] != i ==> s.rank[i] < s.rank[s.parent[i]])
  }

  /** The representative reached by following parents, with no compression. */
  ghost function Root(s: State, x: nat): (r: nat)
    requires Forest(s) && x < |s.parent|
    ensures r < |s.parent| && s.parent[r] == r
    ensures s.rank[x] <= s.rank[r]
    decreases |s.parent| - s.rank[x]
  {
    if s.parent[x] == x then x else Root(s, s.parent[x])
  }

  ghost function Roots(s: State): set<nat> {
    set i: nat | i < |s.parent| && s.parent[i] == i
  }

  ghost function Members(s: State, r: nat): set<nat>
    requires Forest(s)
  {
    set y: nat | y < |s.parent| && Root(s, y) == r
  }

  function Pow2(k: nat): (p: nat)
    ensures p > k
  {
    if k == 0 then 1 else 2 * Pow2(k - 1)
  }

  lemma {:induction false} Pow2Monotone(a: nat, b: nat)
    requires a <= b
    ensures Pow2(a) <= Pow2(b)
    decreases b
  {
    if a < b { Pow2Monotone(a, b - 1); }
  }

  /** A root of rank k has at least 2^k members. */
  ghost predicate RanksArePaidFor(s: State)
    requires Forest(s)
  {
    forall r {:trigger Members(s, r)} ::
      0 <= r < |s.parent| && s.parent[r] == r ==> Pow2(s.rank[r]) <= |Members(s, r)|
  }

  /** The forest holds exactly the closure of `pairs`: pairs share a root, and every element is linked to its root. */
  ghost predicate Represents(s: State, pairs: Pairs)
    requires Forest(s)
  {
    && (forall u, v :: (u, v) in pairs ==> u < |s.parent| && v < |s.parent| && Root(s, u) == Root(s, v))
    && (forall x: nat :: x < |s.parent| ==> Linked(pairs, x, Root(s, x)))
  }

  ghost predicate Inv(s: State, pairs: Pairs) {
    && Forest(s) && RanksArePaidFor(s) && Represents(s, pairs)
    && s.components == |Roots(s)|
  }

  // ---------------------------------------------------------------- initial state

  function Singletons(n: nat): State {
    State(seq(n, i => i), seq(n, i => 0), n)
  }

  lemma SingletonsInv(n: nat)
    ensures Inv(Singletons(n), [])
  {
    var s := Singletons(n);
    assert Forest(s);
    forall r | 0 <= r < n
      ensures Root(s, r) == r && Pow2(s.rank[r]) <= |Members(s, r)|
    {
      assert Members(s, r) == {r};
    }
    forall x: nat | x < n
      ensures Linked([], x, Root(s, x))
    {
      LinkedReflexive([], x);
    }
    assert Roots(s) == Range(n);
  }

  ghost function Range(n: nat): (r: set<nat>)
    ensures |r| == n && forall i: nat :: i in r <==> i < n
  {
    if n == 0 then {} else Range(n - 1) + {n - 1}
  }

  // ---------------------------------------------------------------- find

  function Halved(s: State, x: nat): (t: State)
    requires |s.parent| == |s.rank| && x < |s.parent| && s.parent[x] < |s.parent|
  {
    s.(parent := s.parent[x := s.parent[s.parent[x]]])
  }

  /** One halving step keeps every representative, so no class changes. */
  lemma {:induction false} HalvingKeepsRoots(s: State, x: nat)
    requires Forest(s) && x < |s.parent|
    ensures Forest(Halved(s, x))
    ensures forall y: nat :: y < |s.parent| ==> Root(Halved(s, x), y) == Root(s, y)
  {
    var p := s.parent[x];
    assert s.parent[p] != p ==> s.rank[p] < s.rank[s.parent[p]];
    assert p != x ==> s.rank[x] < s.rank[p];
    forall y: nat | y < |s.parent|
      ensures Root(Halved(s, x), y) == Root(s, y)
    {
      HalvingKeepsRoot(s, x, y);
    }
  }

  lemma {:induction false} HalvingKeepsRoot(s: State, x: nat, y: nat)
    requires Forest(s) && x < |s.parent| && y < |s.parent|
    requires Forest(Halved(s, x))
    ensures Root(Halved(s, x), y) == Root(s, y)
    decreases |s.parent| - s.rank[y]
  {
    var t := Halved(s, x);
    if s.parent[y] != y {
      var p := s.parent[y];
      HalvingKeepsRoot(s, x, p);
      if y == x && s.parent[p] != p {
        HalvingKeepsRoot(s, x, s.parent[p]);
      }
    }
  }

  /** The state `find(x)` leaves behind: halve at x, move to the new parent, repeat. */
  ghost function AfterFind(s: State, x: nat): (t: State)
    requires Forest(s) && x < |s.parent|
    ensures Forest(t) && t.rank == s.rank && t.components == s.components
    ensures |t.parent| == |s.parent|
    decreases |s.parent| - s.rank[x]
  {
    if s.parent[x] == x then s else
      HalvingKeepsRoots(s, x);
      var h := Halved(s, x);
      AfterFind(h, h.parent[x])
  }

  /** `find` keeps every representative. */
  lemma {:induction false} FindKeepsRoots(s: State, x: nat)
    requires Forest(s) && x < |s.parent|
    ensures forall y: nat :: y < |s.parent| ==> Root(AfterFind(s, x), y) == Root(s, y)
    decreases |s.parent| - s.rank[x]
  {
    if s.parent[x] != x {
      HalvingKeepsRoots(s, x);
      var h := Halved(s, x);
      FindKeepsRoots(h, h.parent[x]);
    }
  }

  /** States with the same representatives, ranks and count agree on the whole invariant. */
  lemma SameRootsSameInv(s: State, t: State, pairs: Pairs)
    requires Inv(s, pairs)
    requires Forest(t) && |t.parent| == |s.parent| && t.rank == s.rank && t.components == s.components
    requires forall y: nat :: y < |s.parent| ==> Root(t, y) == Root(s, y)
    ensures Inv(t, pairs)
  {
    forall i: nat | i < |s.parent|
      ensures t.parent[i] == i <==> s.parent[i] == i
    {
      assert Root(t, i) == Root(s, i);
      assert t.parent[i] == i <==> Root(t, i) == i by { RootIsFixedPoint(t, i); }
      assert s.parent[i] == i <==> Root(s, i) == i by { RootIsFixedPoint(s, i); }
    }
    assert Roots(t) == Roots(s);
    forall r | 0 <= r < |t.parent| && t.parent[r] == r
      ensures Pow2(t.rank[r]) <= |Members(t, r)|
    {
      assert Members(t, r) == Members(s, r);
    }
  }

  lemma RootIsFixedPoint(s: State, x: nat)
    requires Forest(s) && x < |s.parent|
    ensures Root(s, x) == x <==> s.parent[x] == x
  {
    if s.parent[x] != x {
      assert s.rank[x] < s.rank[s.parent[x]] <= s.rank[Root(s, s.parent[x])];
    }
  }

  // ---------------------------------------------------------------- union

  /** Link root `rb` below root `ra`, raising the rank of `ra` on a tie. */
  function Attached(s: State, ra: nat, rb: nat): (t: State)
    requires |s.parent| == |s.rank| && ra < |s.parent| && rb < |s.parent|
  {
    State(s.parent[rb := ra],
          if s.rank[ra] == s.rank[rb] then s.rank[ra := s.rank[ra] + 1] else s.rank,
          s.components - 1)
  }

  function Link(s: State, ra: nat, rb: nat): (t: State)
    requires |s.parent| == |s.rank| && ra < |s.parent| && rb < |s.parent|
  {
    if ra == rb then s
    else if s.rank[ra] < s.rank[rb] then Attached(s, rb, ra)
    else Attached(s, ra, rb)
  }

  ghost function AfterUnion(s: State, a: nat, b: nat): (t: State)
    requires Forest(s) && a < |s.parent| && b < |s.parent|
  {
    var f := AfterFind(s, a);
    var g := AfterFind(f, b);
    Link(g, Root(s, a), Root(s, b))
  }

  predicate TwoRoots(s: State, ra: nat, rb: nat) {
    ra < |s.parent| && rb < |s.parent| && ra != rb && s.parent[ra] == ra && s.parent[rb] == rb
  }

  lemma RankBelowSize(s: State, ra: nat, rb: nat)
    requires Forest(s) && RanksArePaidFor(s)
    requires TwoRoots(s, ra, rb)
    ensures Pow2(s.rank[ra]) + Pow2(s.rank[rb]) <= |s.parent|
  {
    SubsetSize(Members(s, ra) + Members(s, rb), Range(|s.parent|));
    assert Members(s, ra) !! Members(s, rb);
  }

  lemma {:induction false} AttachedIsForest(s: State, ra: nat, rb: nat)
    requires Forest(s) && RanksArePaidFor(s)
    requires TwoRoots(s, ra, rb)
    requires s.rank[rb] <= s.rank[ra]
    ensures Forest(Attached(s, ra, rb))
    ensures forall y: nat :: y < |s.parent| ==>
              Root(Attached(s, ra, rb), y) == if Root(s, y) == rb then ra else Root(s, y)
  {
    RankBelowSize(s, ra, rb);
    var t := Attached(s, ra, rb);
    assert s.rank[ra] == s.rank[rb] ==> Pow2(s.rank[ra] + 1) <= |s.parent|;
    assert Forest(t);
    forall y: nat | y < |s.parent|
      ensures Root(t, y) == if Root(s, y) == rb then ra else Root(s, y)
    {
      AttachedRoot(s, ra, rb, y);
    }
  }

  lemma {:induction false} AttachedRoot(s: State, ra: nat, rb: nat, y: nat)
    requires Forest(s) && y < |s.parent|
    requires TwoRoots(s, ra, rb)
    requires Forest(Attached(s, ra, rb))
    ensures Root(Attached(s, ra, rb), y) == if Root(s, y) == rb then ra else Root(s, y)
    decreases |s.parent| - s.rank[y]
  {
    if s.parent[y] != y {
      AttachedRoot(s, ra, rb, s.parent[y]);
    } else if y == rb {
      assert Attached(s, ra, rb).parent[ra] == ra;
    }
  }

  lemma {:induction false} MergedMembers(s: State, ra: nat, rb: nat)
    requires Forest(s) && RanksArePaidFor(s)
    requires TwoRoots(s, ra, rb)
    requires s.rank[rb] <= s.rank[ra]
    ensures Forest(Attached(s, ra, rb))
    ensures |Members(Attached(s, ra, rb), ra)| == |Members(s, ra)| + |Members(s, rb)|
  {
    AttachedIsForest(s, ra, rb);
    var t, merged := Attached(s, ra, rb), Members(s, ra) + Members(s, rb);
    assert Members(s, ra) !! Members(s, rb);
    forall y ensures y in Members(t, ra) <==> y in merged {
      if 0 <= y < |s.parent| {
        assert Root(t, y) == if Root(s, y) == rb then ra else Root(s, y);
      }
    }
    assert Members(t, ra) == merged;
  }

  lemma {:induction false} OtherMembers(s: State, ra: nat, rb: nat, r: nat)
    requires Forest(s) && RanksArePaidFor(s)
    requires TwoRoots(s, ra, rb)
    requires s.rank[rb] <= s.rank[ra] && r != ra && r != rb
    ensures Forest(Attached(s, ra, rb)) && Members(Attached(s, ra, rb), r) == Members(s, r)
  {
    AttachedIsForest(s, ra, rb);
  }

  lemma {:induction false} AttachedPaidFor(s: State, ra: nat, rb: nat)
    requires Forest(s) && RanksArePaidFor(s)
    requires TwoRoots(s, ra, rb)
    requires s.rank[rb] <= s.rank[ra]
    ensures Forest(Attached(s, ra, rb)) && RanksArePaidFor(Attached(s, ra, rb))
  {
    MergedMembers(s, ra, rb);
    var t := Attached(s, ra, rb);
    forall r | 0 <= r < |t.parent| && t.parent[r] == r
      ensures Pow2(t.rank[r]) <= |Members(t, r)|
    {
      if r != ra { OtherMembers(s, ra, rb, r); }
      assert Pow2(s.rank[r]) <= |Members(s, r)|;
    }
  }

  /** Linking two distinct roots merges exactly their two classes and keeps the whole invariant. */
  lemma {:induction false} AttachedInv(s: State, pairs: Pairs, a: nat, b: nat, ra: nat, rb: nat, pair: (nat, nat))
    requires Inv(s, pairs) && a < |s.parent| && b < |s.parent|
    requires ra == Root(s, a) && rb == Root(s, b) && ra != rb && s.rank[rb] <= s.rank[ra]
    requires pair == (a, b) || pair == (b, a)
    ensures Inv(Attached(s, ra, rb), pairs + [pair])
  {
    AttachedPaidFor(s, ra, rb);
    AttachedRepresents(s, pairs, a, b, ra, rb, pair);
    assert Roots(Attached(s, ra, rb)) == Roots(s) - {rb};
  }

  lemma {:induction false} AttachedRepresents(s: State, pairs: Pairs, a: nat, b: nat, ra: nat, rb: nat,
                                              pair: (nat, nat))
    requires Forest(s) && RanksArePaidFor(s) && Represents(s, pairs) && a < |s.parent| && b < |s.parent|
    requires ra == Root(s, a) && rb == Root(s, b) && ra != rb && s.rank[rb] <= s.rank[ra]
    requires pair == (a, b) || pair == (b, a)
    ensures Forest(Attached(s, ra, rb)) && Represents(Attached(s, ra, rb), pairs + [pair])
  {
    AttachedIsForest(s, ra, rb);
    var t, more := Attached(s, ra, rb), pairs + [pair];
    forall u, v | (u, v) in more
      ensures u < |t.parent| && v < |t.parent| && Root(t, u) == Root(t, v)
    {
      assert (u, v) in pairs || (u, v) == pair;
    }
    forall x: nat | x < |t.parent|
      ensures Linked(more, x, Root(t, x))
    {
      LinkedMonotone(pairs, [pair], x, Root(s, x));
      if Root(s, x) == rb {
        LinkedMonotone(pairs, [pair], b, rb);
        LinkedMonotone(pairs, [pair], a, ra);
        LinkedSymmetric(more, b, rb);
        assert pair in more;
        LinkedByPair(more, b, a);
        LinkedTransitive(more, x, rb, b);
        LinkedTransitive(more, x, b, a);
        LinkedTransitive(more, x, a, ra);
      }
    }
  }

  /** `union(a, b)` keeps the invariant for the pair list extended by (a, b), whether or not it links. */
  lemma {:induction false} UnionInv(s: State, pairs: Pairs, a: nat, b: nat)
    requires Inv(s, pairs) && a < |s.parent| && b < |s.parent|
    ensures Inv(AfterUnion(s, a, b), pairs + [(a, b)])
    ensures |AfterUnion(s, a, b).parent| == |s.parent|
  {
    var g := FindTwiceInv(s, pairs, a, b);
    var ra, rb := Root(s, a), Root(s, b);
    if ra == rb {
      var more := pairs + [(a, b)];
      forall u, v | (u, v) in more
        ensures u < |g.parent| && v < |g.parent| && Root(g, u) == Root(g, v)
      {
        assert (u, v) in pairs || (u, v) == (a, b);
      }
      forall x: nat | x < |g.parent|
        ensures Linked(more, x, Root(g, x))
      {
        LinkedMonotone(pairs, [(a, b)], x, Root(g, x));
      }
    } else if g.rank[ra] < g.rank[rb] {
      AttachedInv(g, pairs, b, a, rb, ra, (a, b));
    } else {
      AttachedInv(g, pairs, a, b, ra, rb, (a, b));
    }
  }

  lemma FindTwiceInv(s: State, pairs: Pairs, a: nat, b: nat) returns (g: State)
    requires Inv(s, pairs) && a < |s.parent| && b < |s.parent|
    ensures g == AfterFind(AfterFind(s, a), b)
    ensures Inv(g, pairs) && |g.parent| == |s.parent|
    ensures forall y: nat :: y < |s.parent| ==> Root(g, y) == Root(s, y)
  {
    FindInv(s, pairs, a);
    FindInv(AfterFind(s, a), pairs, b);
    g := AfterFind(AfterFind(s, a), b);
  }

  lemma {:induction false} FindInv(s: State, pairs: Pairs, x: nat)
    requires Inv(s, pairs) && x < |s.parent|
    ensures Inv(AfterFind(s, x), pairs)
    ensures forall y: nat :: y < |s.parent| ==> Root(AfterFind(s, x), y) == Root(s, y)
  {
    FindKeepsRoots(s, x);
    SameRootsSameInv(s, AfterFind(s, x), pairs);
  }

  // ---------------------------------------------------------------- consequences

  /** Sharing a root is exactly being linked by the pairs united so far. */
  lemma SameRootIffLinked(s: State, pairs: Pairs, a: nat, b: nat)
    requires Forest(s) && Represents(s, pairs) && a < |s.parent| && b < |s.parent|
    ensures Root(s, a) == Root(s, b) <==> Linked(pairs, a, b)
  {
    var ra, rb := Root(s, a), Root(s, b);
    assert Linked(pairs, a, ra) && Linked(pairs, b, rb);
    if ra == rb {
      LinkedSymmetric(pairs, b, ra);
      LinkedTransitive(pairs, a, ra, b);
    }
    if Linked(pairs, a, b) {
      LinkedSameRoot(s, pairs, a, b);
    }
  }

  lemma LinkedSameRoot(s: State, pairs: Pairs, a: nat, b: nat)
    requires Forest(s) && a < |s.parent| && b < |s.parent|
    requires forall u, v :: (u, v) in pairs ==> u < |s.parent| && v < |s.parent| && Root(s, u) == Root(s, v)
    requires Linked(pairs, a, b)
    ensures Root(s, a) == Root(s, b)
  {
    LinkedKeepsMark(pairs, (x: nat) => if x < |s.parent| then Root(s, x) else x, a, b);
  }

  /** Every rank, at the root or below it, is at most log2 of the class size. */
  lemma {:induction false} RankIsLogarithmic(s: State, x: nat)
    requires Forest(s) && RanksArePaidFor(s) && x < |s.parent|
    ensures Pow2(s.rank[x]) <= Pow2(s.rank[Root(s, x)]) <= |Members(s, Root(s, x))| <= |s.parent|
  {
    var r := Root(s, x);
    Pow2Monotone(s.rank[x], s.rank[r]);
    SubsetSize(Members(s, r), Range(|s.parent|));
  }

  /** Loop iterations `find(x)` makes. */
  ghost function FindSteps(s: State, x: nat): (k: nat)
    requires Forest(s) && x < |s.parent|
    decreases |s.parent| - s.rank[x]
  {
    if s.parent[x] == x then 0 else
      HalvingKeepsRoots(s, x);
      var h := Halved(s, x);
      1 + FindSteps(h, h.parent[x])
  }

  /** Each iteration but the last climbs two ranks, although the walk rewrites the path it follows. */
  lemma {:induction false} StepsPayTwoRanks(s: State, x: nat)
    requires Forest(s) && x < |s.parent|
    ensures FindSteps(s, x) > 0 ==> 2 * FindSteps(s, x) - 1 <= s.rank[Root(s, x)] - s.rank[x]
    decreases |s.parent| - s.rank[x]
  {
    if s.parent[x] != x {
      HalvingKeepsRoots(s, x);
      var h := Halved(s, x);
      var y := h.parent[x];
      StepsPayTwoRanks(h, y);
      assert Root(h, y) == Root(s, y) == Root(s, x);
    }
  }

  /** `find` makes at most (1 + log2(class size)) / 2 iterations: 2^(2k-1) never exceeds the class size. */
  lemma {:induction false} FindIsLogarithmic(s: State, x: nat)
    requires Forest(s) && RanksArePaidFor(s) && x < |s.parent|
    ensures FindSteps(s, x) > 0 ==> Pow2(2 * FindSteps(s, x) - 1) <= |Members(s, Root(s, x))|
    ensures Pow2(FindSteps(s, x)) <= |s.parent|
  {
    var k, top := FindSteps(s, x), s.rank[Root(s, x)];
    StepsPayTwoRanks(s, x);
    RankIsLogarithmic(s, x);
    if k > 0 {
      Pow2Monotone(2 * k - 1, top);
      Pow2Monotone(k, top);
    }
  }

  // ---------------------------------------------------------------- whole runs

  datatype Call = FindCall(x: nat) | UnionCall(a: nat, b: nat) | ConnectedCall(a: nat, b: nat)

  predicate CallInRange(n: nat, call: Call) {
    match call
    case FindCall(x) => x < n
    case UnionCall(a, b) => a < n && b < n
    case ConnectedCall(a, b) => a < n && b < n
  }

  predicate InRange(n: nat, calls: seq<Call>) {
    forall i :: 0 <= i < |calls| ==> CallInRange(n, calls[i])
  }

  function United(calls: seq<Call>): Pairs {
    if calls == [] then [] else
      var last := calls[|calls| - 1];
      United(calls[..|calls| - 1]) + if last.UnionCall? then [(last.a, last.b)] else []
  }

  ghost function Step(s: State, call: Call): State
    requires Forest(s) && CallInRange(|s.parent|, call)
  {
    match call
    case FindCall(x) => AfterFind(s, x)
    case UnionCall(a, b) => AfterUnion(s, a, b)
    case ConnectedCall(a, b) => AfterFind(AfterFind(s, a), b)
  }

  /** Loop iterations of one call. */
  ghost function CallSteps(s: State, call: Call): nat
    requires Forest(s) && CallInRange(|s.parent|, call)
  {
    match call
    case FindCall(x) => FindSteps(s, x)
    case UnionCall(a, b) => FindSteps(s, a) + FindSteps(AfterFind(s, a), b)
    case ConnectedCall(a, b) => FindSteps(s, a) + FindSteps(AfterFind(s, a), b)
  }

  lemma StepInv(s: State, calls: seq<Call>)
    requires calls != [] && Inv(s, United(calls[..|calls| - 1])) && CallInRange(|s.parent|, calls[|calls| - 1])
    ensures Inv(Step(s, calls[|calls| - 1]), United(calls))
    ensures |Step(s, calls[|calls| - 1]).parent| == |s.parent|
  {
    var pairs := United(calls[..|calls| - 1]);
    assert pairs + [] == pairs;
    match calls[|calls| - 1]
    case FindCall(x) =>
      FindInv(s, pairs, x);
    case UnionCall(a, b) =>
      UnionInv(s, pairs, a, b);
    case ConnectedCall(a, b) =>
      var g := FindTwiceInv(s, pairs, a, b);
  }

  /** The state after making `calls`, in order, on n fresh singletons. */
  ghost function Run(n: nat, calls: seq<Call>): (s: State)
    requires InRange(n, calls)
    ensures Inv(s, United(calls)) && |s.parent| == n
  {
    if calls == [] then SingletonsInv(n); Singletons(n) else
      var k := |calls| - 1;
      var before := Run(n, calls[..k]);
      StepInv(before, calls);
      Step(before, calls[k])
  }

  /** Main theorem: after every sequence of calls, connectivity is the closure of the pairs united so far,
      the counter is the number of roots, ranks grow and are paid for, and every search is logarithmic. */
  lemma {:induction false} EveryRunIsCorrect(n: nat, calls: seq<Call>, a: nat, b: nat)
    requires InRange(n, calls) && a < n && b < n
    ensures Root(Run(n, calls), a) == Root(Run(n, calls), b) <==> Linked(United(calls), a, b)
    ensures Run(n, calls).components == |Roots(Run(n, calls))|
    ensures Pow2(FindSteps(Run(n, calls), a)) <= n
    ensures Forest(Run(n, calls)) && RanksArePaidFor(Run(n, calls))
  {
    var s := Run(n, calls);
    SameRootIffLinked(s, United(calls), a, b);
    FindIsLogarithmic(s, a);
  }

  // ---------------------------------------------------------------- the object

  class DisjointSets {
    const parent: array<nat>
    const rank: array<nat>
    var componentCount: int
    /** Every pair ever passed to `Union`, oldest first. */
    ghost var united: Pairs

    ghost function Abs(): State
      reads this, parent, rank
    {
      State(parent[..], rank[..], componentCount)
    }

    ghost predicate Valid()
      reads this, parent, rank
    {
      parent != rank && Inv(Abs(), united)
    }

    constructor (n: nat)
      ensures Valid() && fresh(parent) && fresh(rank)
      ensures Abs() == Singletons(n) && united == []
    {
      parent := new nat[n];
      rank := new nat[n](i => 0);
      componentCount := n;
      united := [];
      new;
      for i := 0 to n
        invariant componentCount == n && united == []
        invariant forall j :: 0 <= j < i ==> parent[j] == j
        invariant forall j :: 0 <= j < n ==> rank[j] == 0
      {
        parent[i] := i;
      }
      SingletonsInv(n);
      assert parent[..] == Singletons(n).parent && rank[..] == Singletons(n).rank;
    }

    method Find(x0: nat) returns (x: nat, ghost steps: nat)
      requires Valid() && x0 < parent.Length
      modifies parent
      ensures Valid()
      ensures Abs() == old(AfterFind(Abs(), x0))
      ensures x == old(Root(Abs(), x0)) == Root(Abs(), x0)
      ensures forall y: nat :: y < parent.Length ==> Root(Abs(), y) == old(Root(Abs(), y))
      ensures steps == old(FindSteps(Abs(), x0)) && Pow2(steps) <= parent.Length
    {
      ghost var start := Abs();
      FindInv(start, united, x0);
      FindIsLogarithmic(start, x0);
      x, steps := x0, 0;
      while parent[x] != x
        invariant x < parent.Length && Forest(Abs())
        invariant AfterFind(Abs(), x) == AfterFind(start, x0)
        invariant Root(Abs(), x) == Root(start, x0)
        invariant steps + FindSteps(Abs(), x) == FindSteps(start, x0)
        invariant rank[..] == start.rank && componentCount == start.components
        decreases parent.Length - rank[x]
      {
        ghost var s := Abs();
        HalvingKeepsRoots(s, x);
        assert s.rank[x] < s.rank[s.parent[x]];
        parent[x] := parent[parent[x]];
        assert Abs() == Halved(s, x);
        x := parent[x];
        steps := steps + 1;
      }
    }

    method Union(a: nat, b: nat) returns (merged: bool, ghost steps: nat)
      requires Valid() && a < parent.Length && b < parent.Length
      modifies this, parent, rank
      ensures Valid() && united == old(united) + [(a, b)]
      ensures Abs() == old(AfterUnion(Abs(), a, b)) && steps == old(CallSteps(Abs(), UnionCall(a, b)))
      ensures merged <==> !Linked(old(united), a, b)
      ensures componentCount == old(componentCount) - if merged then 1 else 0
      ensures Linked(united, a, b)
    {
      UnionInv(Abs(), united, a, b);
      SameRootIffLinked(Abs(), united, a, b);
      var ra, first := Find(a);
      var rb, second := Find(b);
      steps := first + second;
      merged := LinkRoots(ra, rb);
      united := united + [(a, b)];
      assert (a, b) in united;
      LinkedByPair(united, a, b);
    }

    /** The second half of `Union`, once both representatives are known. */
    method LinkRoots(ra0: nat, rb0: nat) returns (merged: bool)
      requires parent != rank && parent.Length == rank.Length && ra0 < parent.Length && rb0 < parent.Length
      modifies this`componentCount, parent, rank
      ensures Abs() == old(Link(Abs(), ra0, rb0))
      ensures merged <==> ra0 != rb0
      ensures componentCount == old(componentCount) - if merged then 1 else 0
    {
      var ra, rb := ra0, rb0;
      if ra == rb {
        return false;
      }
      if rank[ra] < rank[rb] {
        ra, rb := rb, ra;
      }
      parent[rb] := ra;
      if rank[ra] == rank[rb] {
        rank[ra] := rank[ra] + 1;
      }
      componentCount := componentCount - 1;
      return true;
    }

    method Connected(a: nat, b: nat) returns (same: bool, ghost steps: nat)
      requires Valid() && a < parent.Length && b < parent.Length
      modifies parent
      ensures Valid()
      ensures Abs() == old(AfterFind(AfterFind(Abs(), a), b))
      ensures steps == old(CallSteps(Abs(), ConnectedCall(a, b)))
      ensures same <==> Linked(united, a, b)
    {
      SameRootIffLinked(Abs(), united, a, b);
      var ra, first := Find(a);
      var rb, second := Find(b);
      return ra == rb, first + second;
    }

    /** The counter is the number of closure classes, counted by their representatives. */
    method Components() returns (count: int)
      requires Valid()
      ensures count == |Roots(Abs())|
    {
      return componentCount;
    }
  }
}
