/** The cost of a whole run of disjoint-set calls: near-constant per call, counted in loop iterations. */
module UnionFindCost {
  import opened Counting
  import opened UnionFind
  import EquivalenceClosure

  // ---------------------------------------------------------------- towers and groups

  /** 1, 2, 4, 16, 65536, ...: each the power of two of the one before. */
  function Tower(j: nat): (t: nat)
    ensures t > j
  {
    if j == 0 then 1 else Pow2(Tower(j - 1))
  }

  lemma {:induction false} TowerMonotone(i: nat, j: nat)
    requires i <= j
    ensures Tower(i) <= Tower(j)
    decreases j
  {
    if i < j { TowerMonotone(i, j - 1); }
  }

  /** The group of a rank: how many powers of two it takes to exceed it. */
  function Group(rank: nat): (g: nat)
    ensures rank < Tower(g) && (g > 0 ==> Tower(g - 1) <= rank)
  {
    GroupFrom(rank, 0)
  }

  function GroupFrom(rank: nat, j: nat): (g: nat)
    requires j > 0 ==> Tower(j - 1) <= rank
    ensures rank < Tower(g) && (g > 0 ==> Tower(g - 1) <= rank)
    decreases rank + 1 - j
  {
    if rank < Tower(j) then j else GroupFrom(rank, j + 1)
  }

  lemma GroupMonotone(a: nat, b: nat)
    requires a <= b
    ensures Group(a) <= Group(b)
  {
    if Group(b) < Group(a) {
      TowerMonotone(Group(b), Group(a) - 1);
    }
  }

  lemma GroupBelow(rank: nat, j: nat)
    requires rank < Tower(j)
    ensures Group(rank) <= j
  {
    if j < Group(rank) {
      TowerMonotone(j, Group(rank) - 1);
    }
  }

  // ---------------------------------------------------------------- sums

  /** f(0) + ... + f(m - 1). */
  function Sum(f: nat -> nat, m: nat): nat {
    if m == 0 then 0 else Sum(f, m - 1) + f(m - 1)
  }

  lemma {:induction false} SumAtMost(f: nat -> nat, g: nat -> nat, m: nat)
    requires forall x: nat :: x < m ==> f(x) <= g(x)
    ensures Sum(f, m) <= Sum(g, m)
  {
    if m > 0 { SumAtMost(f, g, m - 1); }
  }

  lemma {:induction false} SumGrows(f: nat -> nat, g: nat -> nat, m: nat, at: nat)
    requires at < m && f(at) < g(at) && forall x: nat :: x < m ==> f(x) <= g(x)
    ensures Sum(f, m) < Sum(g, m)
  {
    if at == m - 1 { SumAtMost(f, g, m - 1); } else { SumGrows(f, g, m - 1, at); }
  }

  lemma {:induction false} SumOfTwo(f: nat -> nat, g: nat -> nat, h: nat -> nat, m: nat)
    requires forall x: nat :: x < m ==> h(x) == f(x) + g(x)
    ensures Sum(h, m) == Sum(f, m) + Sum(g, m)
  {
    if m > 0 { SumOfTwo(f, g, h, m - 1); }
  }

  lemma {:induction false} SumScaled(c: nat, f: nat -> nat, h: nat -> nat, m: nat)
    requires forall x: nat :: x < m ==> h(x) == c * f(x)
    ensures Sum(h, m) == c * Sum(f, m)
  {
    if m > 0 {
      SumScaled(c, f, h, m - 1);
      assert c * (Sum(f, m - 1) + f(m - 1)) == c * Sum(f, m - 1) + c * f(m - 1);
    }
  }

  lemma SumSame(f: nat -> nat, g: nat -> nat, m: nat)
    requires forall x: nat :: x < m ==> f(x) == g(x)
    ensures Sum(f, m) == Sum(g, m)
  {
    SumAtMost(f, g, m);
    SumAtMost(g, f, m);
  }

  lemma {:induction false} SumOfOnes(f: nat -> nat, m: nat)
    requires forall x: nat :: x < m ==> f(x) <= 1
    ensures Sum(f, m) <= m
  {
    if m > 0 { SumOfOnes(f, m - 1); }
  }

  lemma {:induction false} SumHolds(f: nat -> nat, m: nat, at: nat)
    requires at < m
    ensures f(at) <= Sum(f, m)
  {
    if at < m - 1 { SumHolds(f, m - 1, at); }
  }

  lemma {:induction false} SumZero(f: nat -> nat, m: nat)
    requires forall x: nat :: x < m ==> f(x) == 0
    ensures Sum(f, m) == 0
  {
    if m > 0 { SumZero(f, m - 1); }
  }

  // ---------------------------------------------------------------- few elements have high ranks

  /** Elements labelled with the representative of their class, and their ranks: all that counting ranks needs. */
  datatype Ranked = Ranked(rep: seq<nat>, rank: seq<nat>)

  /** One for each member of class r, counted over all elements. */
  function InClass(a: Ranked, r: nat): nat -> nat {
    (y: nat) => if y < |a.rep| && a.rep[y] == r then 1 else 0
  }

  /** One for each member of class r of rank at least k. */
  function HighIn(a: Ranked, r: nat, k: nat): nat -> nat {
    (y: nat) => if y < |a.rep| && y < |a.rank| && a.rep[y] == r && a.rank[y] >= k then 1 else 0
  }

  ghost predicate ClassPays(a: Ranked, r: nat, k: nat) {
    Sum(HighIn(a, r, k), |a.rep|) * Pow2(k) <= Sum(InClass(a, r), |a.rep|)
  }

  /** In every class, members of rank at least k cost 2^k members each. Compression cannot break this,
      because it speaks of classes and not of subtrees. */
  ghost predicate RanksPay(a: Ranked) {
    && |a.rep| == |a.rank|
    && forall r: nat, k: nat :: ClassPays(a, r, k)
  }

  lemma PaysTogether(a: nat, b: nat, p: nat, m: nat, n: nat)
    requires a * p <= m && b * p <= n
    ensures (a + b) * p <= m + n
  {
  }

  lemma OnePays(count: nat, p: nat, m: nat)
    requires count >= 1 && count * p <= m
    ensures p <= m
  {
  }

  lemma AtMostOnePays(count: nat, p: nat, m: nat)
    requires count <= 1 && p <= m
    ensures count * p <= m
  {
  }

  /** Class rb joins class ra, whose representative may rise to rank `raised`. */
  function Merged(a: Ranked, ra: nat, rb: nat, raised: nat): Ranked
    requires ra < |a.rank|
  {
    Ranked(seq(|a.rep|, y requires 0 <= y < |a.rep| => if a.rep[y] == rb then ra else a.rep[y]),
           a.rank[ra := raised])
  }

  /** What linking two representatives requires and does to the ranks. */
  ghost predicate Links(a: Ranked, ra: nat, rb: nat, raised: nat) {
    && |a.rep| == |a.rank| && ra < |a.rep| && rb < |a.rep| && ra != rb
    && a.rep[ra] == ra && a.rep[rb] == rb && a.rank[rb] <= a.rank[ra]
    && (forall y: nat :: y < |a.rep| && (a.rep[y] == ra || a.rep[y] == rb) ==> a.rank[y] <= a.rank[ra])
    && raised == a.rank[ra] + if a.rank[ra] == a.rank[rb] then 1 else 0
  }

  lemma MergedSize(a: Ranked, ra: nat, rb: nat, raised: nat)
    requires Links(a, ra, rb, raised)
    ensures var n := |a.rep|;
            Sum(InClass(Merged(a, ra, rb, raised), ra), n) == Sum(InClass(a, ra), n) + Sum(InClass(a, rb), n)
  {
    SumOfTwo(InClass(a, ra), InClass(a, rb), InClass(Merged(a, ra, rb, raised), ra), |a.rep|);
  }

  /** Below the raised rank the counts of the two classes add up. */
  lemma MergedPaysLow(a: Ranked, ra: nat, rb: nat, raised: nat, k: nat)
    requires RanksPay(a) && Links(a, ra, rb, raised) && (raised == a.rank[ra] || k <= a.rank[ra])
    ensures ClassPays(Merged(a, ra, rb, raised), ra, k)
  {
    var b, n := Merged(a, ra, rb, raised), |a.rep|;
    MergedSize(a, ra, rb, raised);
    SumOfTwo(HighIn(a, ra, k), HighIn(a, rb, k), HighIn(b, ra, k), n);
    assert ClassPays(a, ra, k) && ClassPays(a, rb, k);
    PaysTogether(Sum(HighIn(a, ra, k), n), Sum(HighIn(a, rb, k), n), Pow2(k),
                 Sum(InClass(a, ra), n), Sum(InClass(a, rb), n));
  }

  /** A representative of rank k has at least 2^k members in its class. */
  lemma RepresentativePays(a: Ranked, r: nat)
    requires RanksPay(a) && r < |a.rep| && a.rep[r] == r
    ensures Pow2(a.rank[r]) <= Sum(InClass(a, r), |a.rep|)
  {
    var k, n := a.rank[r], |a.rep|;
    SumHolds(HighIn(a, r, k), n, r);
    assert ClassPays(a, r, k);
    OnePays(Sum(HighIn(a, r, k), n), Pow2(k), Sum(InClass(a, r), n));
  }

  /** At the raised rank only the representative counts, and both classes together pay for it. */
  lemma MergedPaysHigh(a: Ranked, ra: nat, rb: nat, raised: nat, k: nat)
    requires RanksPay(a) && Links(a, ra, rb, raised) && raised == a.rank[ra] + 1 <= k
    ensures ClassPays(Merged(a, ra, rb, raised), ra, k)
  {
    var b, n := Merged(a, ra, rb, raised), |a.rep|;
    if k > raised {
      SumZero(HighIn(b, ra, k), n);
    } else {
      RepresentativePays(a, ra);
      RepresentativePays(a, rb);
      MergedSize(a, ra, rb, raised);
      JustOne(HighIn(b, ra, k), n, ra);
      assert Pow2(k) == Pow2(a.rank[ra]) + Pow2(a.rank[rb]);
      AtMostOnePays(Sum(HighIn(b, ra, k), n), Pow2(k), Sum(InClass(b, ra), n));
    }
  }

  lemma {:induction false} JustOne(f: nat -> nat, m: nat, at: nat)
    requires f(at) == 1 && forall x: nat :: x < m && x != at ==> f(x) == 0
    ensures Sum(f, m) <= 1
  {
    if m > 0 {
      if at == m - 1 { SumZero(f, m - 1); } else { JustOne(f, m - 1, at); }
    }
  }

  /** Linking keeps every rank paid for. */
  lemma MergedPays(a: Ranked, ra: nat, rb: nat, raised: nat)
    requires RanksPay(a) && Links(a, ra, rb, raised)
    ensures RanksPay(Merged(a, ra, rb, raised))
  {
    var b, n := Merged(a, ra, rb, raised), |a.rep|;
    forall r: nat, k: nat ensures ClassPays(b, r, k) {
      if r == ra {
        if raised == a.rank[ra] || k <= a.rank[ra] {
          MergedPaysLow(a, ra, rb, raised, k);
        } else {
          MergedPaysHigh(a, ra, rb, raised, k);
        }
      } else if r == rb {
        SumZero(HighIn(b, r, k), n);
      } else {
        assert ClassPays(a, r, k);
        SumSame(HighIn(b, r, k), HighIn(a, r, k), n);
        SumSame(InClass(b, r), InClass(a, r), n);
      }
    }
  }

  // ---------------------------------------------------------------- over all classes

  function InClassBelow(a: Ranked, j: nat): nat -> nat {
    (y: nat) => if y < |a.rep| && a.rep[y] < j then 1 else 0
  }

  function HighBelow(a: Ranked, j: nat, k: nat): nat -> nat {
    (y: nat) => if y < |a.rep| && y < |a.rank| && a.rep[y] < j && a.rank[y] >= k then 1 else 0
  }

  function RankAtLeast(rank: seq<nat>, k: nat): nat -> nat {
    (y: nat) => if y < |rank| && rank[y] >= k then 1 else 0
  }

  lemma {:induction false} ClassesPay(a: Ranked, j: nat, k: nat)
    requires RanksPay(a)
    ensures Sum(HighBelow(a, j, k), |a.rep|) * Pow2(k) <= Sum(InClassBelow(a, j), |a.rep|)
  {
    var n := |a.rep|;
    if j == 0 {
      SumZero(HighBelow(a, j, k), n);
    } else {
      ClassesPay(a, j - 1, k);
      assert ClassPays(a, j - 1, k);
      SumOfTwo(HighBelow(a, j - 1, k), HighIn(a, j - 1, k), HighBelow(a, j, k), n);
      SumOfTwo(InClassBelow(a, j - 1), InClass(a, j - 1), InClassBelow(a, j), n);
      PaysTogether(Sum(HighBelow(a, j - 1, k), n), Sum(HighIn(a, j - 1, k), n), Pow2(k),
                   Sum(InClassBelow(a, j - 1), n), Sum(InClass(a, j - 1), n));
    }
  }

  /** At most n / 2^k elements have rank at least k. */
  lemma HighRanksAreRare(a: Ranked, k: nat)
    requires RanksPay(a) && forall y: nat :: y < |a.rep| ==> a.rep[y] < |a.rep|
    ensures Sum(RankAtLeast(a.rank, k), |a.rank|) * Pow2(k) <= |a.rank|
  {
    var n := |a.rep|;
    ClassesPay(a, n, k);
    SumSame(RankAtLeast(a.rank, k), HighBelow(a, n, k), n);
    SumOfOnes(InClassBelow(a, n), n);
  }

  // ---------------------------------------------------------------- what all groups weigh

  function InGroup(rank: seq<nat>, j: nat): nat -> nat {
    (y: nat) => if y < |rank| && Group(rank[y]) == j then 1 else 0
  }

  /** The tower of each element's group, for groups up to j. */
  function Weight(rank: seq<nat>, j: nat): nat -> nat {
    (y: nat) => if y < |rank| && Group(rank[y]) <= j then Tower(Group(rank[y])) else 0
  }

  /** One group weighs at most n: its towers are as high as its members are rare. */
  lemma GroupWeighs(a: Ranked, j: nat)
    requires RanksPay(a) && forall y: nat :: y < |a.rep| ==> a.rep[y] < |a.rep|
    ensures Tower(j) * Sum(InGroup(a.rank, j), |a.rank|) <= |a.rank|
  {
    var n := |a.rank|;
    if j == 0 {
      SumOfOnes(InGroup(a.rank, 0), n);
    } else {
      HighRanksAreRare(a, Tower(j - 1));
      SumAtMost(InGroup(a.rank, j), RankAtLeast(a.rank, Tower(j - 1)), n);
      ScaledBound(Tower(j), Sum(InGroup(a.rank, j), n), Sum(RankAtLeast(a.rank, Tower(j - 1)), n));
    }
  }

  lemma ScaledBound(c: nat, x: nat, y: nat)
    requires x <= y
    ensures c * x <= y * c
  {
  }

  function GroupWeight(rank: seq<nat>, j: nat): nat -> nat {
    (y: nat) => if y < |rank| && Group(rank[y]) == j then Tower(j) else 0
  }

  lemma GroupWeightIsBounded(a: Ranked, j: nat)
    requires RanksPay(a) && forall y: nat :: y < |a.rep| ==> a.rep[y] < |a.rep|
    ensures Sum(GroupWeight(a.rank, j), |a.rank|) <= |a.rank|
  {
    GroupWeighs(a, j);
    SumScaled(Tower(j), InGroup(a.rank, j), GroupWeight(a.rank, j), |a.rank|);
  }

  lemma WeightStep(rank: seq<nat>, j: nat)
    ensures Sum(Weight(rank, j), |rank|)
         == Sum(GroupWeight(rank, j), |rank|) + if j == 0 then 0 else Sum(Weight(rank, j - 1), |rank|)
  {
    if j == 0 {
      SumSame(Weight(rank, 0), GroupWeight(rank, 0), |rank|);
    } else {
      SumOfTwo(Weight(rank, j - 1), GroupWeight(rank, j), Weight(rank, j), |rank|);
    }
  }

  /** All groups up to j weigh at most n each. */
  lemma {:induction false} GroupsWeigh(a: Ranked, j: nat)
    requires RanksPay(a) && forall y: nat :: y < |a.rep| ==> a.rep[y] < |a.rep|
    ensures Sum(Weight(a.rank, j), |a.rank|) <= |a.rank| * (j + 1)
  {
    GroupWeightIsBounded(a, j);
    WeightStep(a.rank, j);
    if j > 0 {
      GroupsWeigh(a, j - 1);
      OneMoreGroup(|a.rank|, j, Sum(GroupWeight(a.rank, j), |a.rank|), Sum(Weight(a.rank, j - 1), |a.rank|));
    }
  }

  lemma OneMoreGroup(n: nat, j: nat, one: nat, rest: nat)
    requires one <= n && rest <= n * j
    ensures one + rest <= n * (j + 1)
  {
  }

  // ---------------------------------------------------------------- ranks are paid for in every run

  ghost function RankedOf(s: State): (a: Ranked)
    requires Forest(s)
    ensures |a.rep| == |a.rank| == |s.parent| && forall y: nat :: y < |a.rep| ==> a.rep[y] == Root(s, y) < |a.rep|
  {
    Ranked(seq(|s.parent|, y requires 0 <= y < |s.parent| => Root(s, y)), s.rank)
  }

  lemma SingletonsPay(n: nat)
    ensures Forest(Singletons(n)) && RanksPay(RankedOf(Singletons(n)))
  {
    var a := RankedOf(Singletons(n));
    forall r: nat, k: nat ensures ClassPays(a, r, k) {
      if k == 0 {
        SumSame(HighIn(a, r, 0), InClass(a, r), n);
      } else {
        SumZero(HighIn(a, r, k), n);
      }
    }
  }

  lemma FindPays(s: State, x: nat)
    requires Forest(s) && x < |s.parent|
    ensures RankedOf(AfterFind(s, x)) == RankedOf(s)
  {
    FindKeepsRoots(s, x);
    assert RankedOf(AfterFind(s, x)).rep == RankedOf(s).rep;
  }

  lemma AttachedPays(s: State, ra: nat, rb: nat)
    requires Forest(s) && RanksArePaidFor(s) && RanksPay(RankedOf(s))
    requires TwoRoots(s, ra, rb)
    requires s.rank[rb] <= s.rank[ra]
    ensures Forest(Attached(s, ra, rb)) && RanksPay(RankedOf(Attached(s, ra, rb)))
  {
    var a, t := RankedOf(s), Attached(s, ra, rb);
    AttachedIsForest(s, ra, rb);
    assert Links(a, ra, rb, t.rank[ra]);
    MergedPays(a, ra, rb, t.rank[ra]);
    assert RankedOf(t).rep == Merged(a, ra, rb, t.rank[ra]).rep;
    assert t.rank == s.rank[ra := t.rank[ra]];
  }

  lemma StepPays(s: State, pairs: EquivalenceClosure.Pairs, call: Call)
    requires Inv(s, pairs) && CallInRange(|s.parent|, call) && RanksPay(RankedOf(s))
    ensures Forest(Step(s, call)) && RanksPay(RankedOf(Step(s, call)))
  {
    match call
    case FindCall(x) =>
      FindPays(s, x);
    case ConnectedCall(a, b) =>
      FindPays(s, a);
      FindPays(AfterFind(s, a), b);
    case UnionCall(a, b) =>
      UnionPays(s, pairs, a, b);
  }

  lemma UnionPays(s: State, pairs: EquivalenceClosure.Pairs, a: nat, b: nat)
    requires Inv(s, pairs) && a < |s.parent| && b < |s.parent| && RanksPay(RankedOf(s))
    ensures Forest(AfterUnion(s, a, b)) && RanksPay(RankedOf(AfterUnion(s, a, b)))
  {
    var g := FindTwiceInv(s, pairs, a, b);
    var ra, rb := Root(s, a), Root(s, b);
    FindPays(s, a);
    FindPays(AfterFind(s, a), b);
    RootIsFixedPoint(g, ra);
    RootIsFixedPoint(g, rb);
    if ra != rb {
      if g.rank[ra] < g.rank[rb] {
        AttachedPays(g, rb, ra);
      } else {
        AttachedPays(g, ra, rb);
      }
    }
  }

  lemma {:induction false} RunPays(n: nat, calls: seq<Call>)
    requires InRange(n, calls)
    ensures RanksPay(RankedOf(Run(n, calls)))
  {
    if calls == [] {
      SingletonsPay(n);
    } else {
      var init := calls[..|calls| - 1];
      RunPays(n, init);
      StepPays(Run(n, init), United(init), calls[|calls| - 1]);
    }
  }

  // ---------------------------------------------------------------- credit

  function Min(a: nat, b: nat): nat {
    if a <= b then a else b
  }

  /** What iterations have been charged to an element: the rank its parent has reached, up to the tower
      of the element's own group. */
  function CreditAt(s: State): nat -> nat {
    (x: nat) =>
      if x < |s.parent| && x < |s.rank| && s.parent[x] < |s.rank| && s.parent[x] != x
      then Min(s.rank[s.parent[x]], Tower(Group(s.rank[x]))) else 0
  }

  function Credit(s: State): nat {
    Sum(CreditAt(s), |s.parent|)
  }

  lemma HalvingKeepsCredit(s: State, x: nat, y: nat)
    requires Forest(s) && x < |s.parent| && s.parent[x] != x && y < |s.parent|
    ensures CreditAt(s)(y) <= CreditAt(Halved(s, x))(y)
  {
    var p := s.parent[x];
    assert s.rank[x] < s.rank[p] <= s.rank[s.parent[p]];
  }

  /** Inside a group, the parent of x reaches a higher rank that still counts. */
  lemma HalvingEarnsAt(s: State, x: nat)
    requires Forest(s) && x < |s.parent| && s.parent[x] != x && s.parent[s.parent[x]] != s.parent[x]
    requires Group(s.rank[x]) == Group(s.rank[s.parent[x]])
    ensures CreditAt(s)(x) < CreditAt(Halved(s, x))(x)
  {
    var p := s.parent[x];
    assert s.rank[x] < s.rank[p] < s.rank[s.parent[p]];
    assert s.rank[p] < Tower(Group(s.rank[x]));
  }

  /** An iteration never loses credit, and earns some unless it stops at the root or changes group. */
  lemma HalvingEarns(s: State, x: nat)
    requires Forest(s) && x < |s.parent| && s.parent[x] != x
    ensures Credit(s) <= Credit(Halved(s, x))
    ensures var p := s.parent[x];
            s.parent[p] != p && Group(s.rank[x]) == Group(s.rank[p]) ==> Credit(s) < Credit(Halved(s, x))
  {
    var p, before, after := s.parent[x], CreditAt(s), CreditAt(Halved(s, x));
    forall y: nat | y < |s.parent| ensures before(y) <= after(y) {
      HalvingKeepsCredit(s, x, y);
    }
    SumAtMost(before, after, |s.parent|);
    if s.parent[p] != p && Group(s.rank[x]) == Group(s.rank[p]) {
      HalvingEarnsAt(s, x);
      SumGrows(before, after, |s.parent|, x);
    }
  }

  /** A search pays for all its iterations but one per group it crosses, and one more. */
  lemma {:induction false} FindCost(s: State, x: nat)
    requires Forest(s) && x < |s.parent|
    ensures FindSteps(s, x) + Credit(s) + Group(s.rank[x])
         <= Credit(AfterFind(s, x)) + Group(s.rank[Root(s, x)]) + 1
    decreases |s.parent| - s.rank[x]
  {
    if s.parent[x] != x {
      var h, p := Halved(s, x), s.parent[x];
      var y := h.parent[x];
      HalvingKeepsRoots(s, x);
      HalvingEarns(s, x);
      assert Root(h, y) == Root(s, y) == Root(s, x);
      GroupMonotone(s.rank[x], s.rank[p]);
      GroupMonotone(s.rank[p], s.rank[y]);
      GroupMonotone(s.rank[x], s.rank[Root(s, x)]);
      if s.parent[p] != p {
        FindCost(h, y);
      }
    }
  }

  lemma LinkKeepsCredit(s: State, ra: nat, rb: nat, y: nat)
    requires Forest(s) && ra < |s.parent| && rb < |s.parent| && s.parent[ra] == ra && s.parent[rb] == rb
    requires y < |s.parent|
    ensures CreditAt(s)(y) <= CreditAt(Link(s, ra, rb))(y)
  {
  }

  lemma LinkEarns(s: State, ra: nat, rb: nat)
    requires Forest(s) && ra < |s.parent| && rb < |s.parent| && s.parent[ra] == ra && s.parent[rb] == rb
    ensures Credit(s) <= Credit(Link(s, ra, rb))
  {
    var before, after := CreditAt(s), CreditAt(Link(s, ra, rb));
    forall y: nat | y < |s.parent| ensures before(y) <= after(y) {
      LinkKeepsCredit(s, ra, rb, y);
    }
    SumAtMost(before, after, |s.parent|);
  }

  // ---------------------------------------------------------------- whole runs

  /** The searches of all calls: one for a find, two for a union or a connectivity test. */
  function Searches(calls: seq<Call>): nat {
    if calls == [] then 0 else
      Searches(calls[..|calls| - 1]) + if calls[|calls| - 1].FindCall? then 1 else 2
  }

  /** `c` for every search of a call, and of all calls. */
  function CallBudget(call: Call, c: nat): nat {
    if call.FindCall? then c else c + c
  }

  function Budget(calls: seq<Call>, c: nat): nat {
    if calls == [] then 0 else Budget(calls[..|calls| - 1], c) + CallBudget(calls[|calls| - 1], c)
  }

  lemma {:induction false} BudgetIsProduct(calls: seq<Call>, c: nat)
    ensures IsProduct(Budget(calls, c), Searches(calls), c)
  {
    if calls != [] {
      var init, more := calls[..|calls| - 1], if calls[|calls| - 1].FindCall? then 1 else 2;
      BudgetIsProduct(init, c);
      Distribute(Searches(init), more, c);
    }
  }

  lemma Distribute(a: nat, b: nat, c: nat)
    ensures (a + b) * c == a * c + b * c
  {
  }

  ghost function TotalSteps(n: nat, calls: seq<Call>): nat
    requires InRange(n, calls)
  {
    if calls == [] then 0 else
      var init := calls[..|calls| - 1];
      TotalSteps(n, init) + CallSteps(Run(n, init), calls[|calls| - 1])
  }

  ghost predicate GroupsUpTo(s: State, top: nat) {
    forall x :: 0 <= x < |s.rank| ==> Group(s.rank[x]) <= top
  }

  lemma SearchCost(s: State, x: nat, top: nat)
    requires Forest(s) && x < |s.parent| && GroupsUpTo(s, top)
    ensures FindSteps(s, x) + Credit(s) <= Credit(AfterFind(s, x)) + top + 1
  {
    FindCost(s, x);
    assert Group(s.rank[Root(s, x)]) <= top;
  }

  lemma CallCost(s: State, pairs: EquivalenceClosure.Pairs, call: Call, top: nat)
    requires Inv(s, pairs) && CallInRange(|s.parent|, call) && GroupsUpTo(s, top)
    ensures CallSteps(s, call) + Credit(s)
         <= Credit(Step(s, call)) + CallBudget(call, top + 1)
  {
    match call
    case FindCall(x) =>
      SearchCost(s, x, top);
    case ConnectedCall(a, b) =>
      SearchCost(s, a, top);
      SearchCost(AfterFind(s, a), b, top);
    case UnionCall(a, b) =>
      SearchCost(s, a, top);
      SearchCost(AfterFind(s, a), b, top);
      var g := FindTwiceInv(s, pairs, a, b);
      RootIsFixedPoint(g, Root(s, a));
      RootIsFixedPoint(g, Root(s, b));
      LinkEarns(g, Root(s, a), Root(s, b));
  }

  /** Ranks stay below the tower that the size stays below. */
  lemma GroupsOfSize(s: State, top: nat)
    requires Forest(s) && RanksArePaidFor(s) && |s.parent| < Tower(top + 1)
    ensures GroupsUpTo(s, top)
  {
    forall x | 0 <= x < |s.rank| ensures Group(s.rank[x]) <= top {
      RankIsLogarithmic(s, x);
      if s.rank[x] >= Tower(top) {
        Pow2Monotone(Tower(top), s.rank[x]);
      }
      GroupBelow(s.rank[x], top);
    }
  }

  lemma RunUnfolds(n: nat, calls: seq<Call>)
    requires InRange(n, calls) && calls != []
    ensures var init, call := calls[..|calls| - 1], calls[|calls| - 1];
            && InRange(n, init) && CallInRange(n, call) && Run(n, calls) == Step(Run(n, init), call)
            && TotalSteps(n, calls) == TotalSteps(n, init) + CallSteps(Run(n, init), call)
  {
  }

  lemma {:induction false} NextCallCost(n: nat, calls: seq<Call>, call: Call, height: nat)
    requires InRange(n, calls) && CallInRange(n, call) && 1 <= height && n < Tower(height)
    ensures CallSteps(Run(n, calls), call) + Credit(Run(n, calls))
         <= Credit(Step(Run(n, calls), call)) + CallBudget(call, height)
  {
    GroupsOfSize(Run(n, calls), height - 1);
    CallCost(Run(n, calls), United(calls), call, height - 1);
  }

  lemma {:induction false} RunCost(n: nat, calls: seq<Call>, height: nat)
    requires InRange(n, calls) && 1 <= height && n < Tower(height)
    ensures TotalSteps(n, calls) <= Credit(Run(n, calls)) + Budget(calls, height)
  {
    if calls != [] {
      RunUnfolds(n, calls);
      RunCost(n, calls[..|calls| - 1], height);
      NextCallCost(n, calls[..|calls| - 1], calls[|calls| - 1], height);
    }
  }

  lemma CreditIsBounded(s: State, top: nat)
    requires Forest(s) && RanksPay(RankedOf(s)) && GroupsUpTo(s, top)
    ensures Credit(s) <= |s.parent| * (top + 1)
  {
    SumAtMost(CreditAt(s), Weight(s.rank, top), |s.parent|);
    GroupsWeigh(RankedOf(s), top);
  }

  /** At most `c` for each of `a`. */
  ghost predicate Within(x: nat, a: nat, c: nat) {
    x <= a * c
  }

  lemma {:induction false} RunCredit(n: nat, calls: seq<Call>, height: nat)
    requires InRange(n, calls) && 1 <= height && n < Tower(height)
    ensures Within(Credit(Run(n, calls)), n, height)
  {
    RunPays(n, calls);
    GroupsOfSize(Run(n, calls), height - 1);
    CreditIsBounded(Run(n, calls), height - 1);
  }

  lemma InTotal(total: nat, credit: nat, budget: nat, n: nat, m: nat, c: nat)
    requires total <= credit + budget && Within(credit, n, c) && IsProduct(budget, m, c)
    ensures Within(total, n + m, c)
  {
    Distribute(n, m, c);
  }

  /** Main theorem: all loop iterations of all calls of a run, on n elements and with m searches in all, number
      at most (n + m) * height whenever n is below the tower of that height. */
  lemma {:induction false} NearConstantTime(n: nat, calls: seq<Call>, height: nat)
    requires InRange(n, calls) && 1 <= height && n < Tower(height)
    ensures Within(TotalSteps(n, calls), n + Searches(calls), height)
  {
    RunCost(n, calls, height);
    RunCredit(n, calls, height);
    BudgetIsProduct(calls, height);
    InTotal(TotalSteps(n, calls), Credit(Run(n, calls)), Budget(calls, height), n, Searches(calls), height);
  }

  /** A Java `int` counts fewer elements than the tower of height five. */
  lemma FiveTowers(n: nat, height: nat)
    requires n <= 0x7fff_ffff && height == 5
    ensures n < Tower(height)
  {
    assert Tower(1) == 2 && Tower(2) == 4 && Tower(3) == 16;
    assert Tower(height - 1) == Pow2(Tower(height - 2)) && Pow2(16) > 31;
    assert Pow2(8) == 256 && Pow2(24) == 16_777_216 && Pow2(31) == 0x8000_0000;
    Pow2Monotone(5, 16);
    Pow2Monotone(31, Tower(height - 1));
  }

  /** Every structure the source can hold makes at most five iterations per element and search. */
  lemma {:induction false} FivePerSearch(n: nat, calls: seq<Call>)
    requires InRange(n, calls) && n <= 0x7fff_ffff
    ensures TotalSteps(n, calls) <= 5 * (n + Searches(calls))
  {
    var height := 5;
    FiveTowers(n, height);
    NearConstantTime(n, calls, height);
  }

  /** Make one call on the object. */
  method MakeCall(sets: DisjointSets, call: Call) returns (ghost steps: nat)
    requires sets.Valid() && CallInRange(sets.parent.Length, call)
    modifies sets, sets.parent, sets.rank
    ensures sets.Valid() && sets.Abs() == old(Step(sets.Abs(), call)) && steps == old(CallSteps(sets.Abs(), call))
    ensures sets.united == old(sets.united) + if call.UnionCall? then [(call.a, call.b)] else []
  {
    match call
    case FindCall(x) =>
      var root;
      root, steps := sets.Find(x);
    case UnionCall(a, b) =>
      var merged;
      merged, steps := sets.Union(a, b);
    case ConnectedCall(a, b) =>
      var same;
      same, steps := sets.Connected(a, b);
  }

  lemma NextCall(n: nat, calls: seq<Call>, i: nat)
    requires InRange(n, calls) && i < |calls|
    ensures InRange(n, calls[..i]) && InRange(n, calls[..i + 1]) && CallInRange(n, calls[i])
    ensures Run(n, calls[..i + 1]) == Step(Run(n, calls[..i]), calls[i])
    ensures TotalSteps(n, calls[..i + 1]) == TotalSteps(n, calls[..i]) + CallSteps(Run(n, calls[..i]), calls[i])
    ensures United(calls[..i + 1])
         == United(calls[..i]) + if calls[i].UnionCall? then [(calls[i].a, calls[i].b)] else []
  {
    var next := calls[..i + 1];
    assert next[..i] == calls[..i] && next[i] == calls[i];
    RunUnfolds(n, next);
  }

  /** The object is in the state the calls leave, after their iterations. */
  ghost predicate Follows(sets: DisjointSets, n: nat, calls: seq<Call>, total: nat)
    reads sets, sets.parent, sets.rank
  {
    && sets.Valid() && sets.parent.Length == n && InRange(n, calls)
    && sets.Abs() == Run(n, calls) && sets.united == United(calls) && total == TotalSteps(n, calls)
  }

  method MakeNext(sets: DisjointSets, n: nat, calls: seq<Call>, i: nat, ghost before: nat) returns (ghost total: nat)
    requires InRange(n, calls) && i < |calls| && Follows(sets, n, calls[..i], before)
    modifies sets, sets.parent, sets.rank
    ensures Follows(sets, n, calls[..i + 1], total)
  {
    NextCall(n, calls, i);
    ghost var steps := MakeCall(sets, calls[i]);
    total := before + steps;
  }

  /** A caller's program: the object goes through the states of the run and makes exactly its iterations. */
  method MakeCalls(n: nat, calls: seq<Call>) returns (sets: DisjointSets, ghost total: nat)
    requires InRange(n, calls)
    ensures fresh(sets) && Follows(sets, n, calls, total)
  {
    sets := new DisjointSets(n);
    total := 0;
    for i := 0 to |calls|
      invariant fresh(sets) && fresh(sets.parent) && fresh(sets.rank)
      invariant Follows(sets, n, calls[..i], total)
    {
      total := MakeNext(sets, n, calls, i, total);
    }
    assert calls[..|calls|] == calls;
  }
}
