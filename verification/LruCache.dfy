/** A fixed-capacity least-recently-used cache over an insertion-ordered dictionary. */
module LruCache {
  import opened Wrappers

  datatype Entry<K, V> = Entry(key: K, value: V)

  /** The ordered dictionary, least recent entry first. */
  type Store<K, V> = seq<Entry<K, V>>

  function Keys<K, V>(s: Store<K, V>): (ks: seq<K>)
    ensures |ks| == |s| && forall i :: 0 <= i < |s| ==> ks[i] == s[i].key
  {
    seq(|s|, i requires 0 <= i < |s| => s[i].key)
  }

  predicate HasKey<K(==), V>(s: Store<K, V>, k: K) {
    exists i :: 0 <= i < |s| && s[i].key == k
  }

  ghost predicate DistinctKeys<K, V>(s: Store<K, V>) {
    forall i, j :: 0 <= i < j < |s| ==> s[i].key != s[j].key
  }

  function ValueAt<K(==), V>(s: Store<K, V>, k: K): (v: V)
    requires HasKey(s, k)
    ensures exists i :: 0 <= i < |s| && s[i] == Entry(k, v)
  {
    if s[0].key == k then assert s[0] == Entry(k, s[0].value); s[0].value else
      assert HasKey(s[1..], k) by {
        var i :| 0 <= i < |s| && s[i].key == k;
        assert s[1..][i - 1] == s[i];
      }
      ValueAt(s[1..], k)
  }

  function Without<K(==), V>(s: Store<K, V>, k: K): (t: Store<K, V>) {
    if s == [] then []
    else if s[0].key == k then Without(s[1..], k)
    else [s[0]] + Without(s[1..], k)
  }

  function MovedToEnd<K(==), V>(s: Store<K, V>, k: K, v: V): Store<K, V> {
    Without(s, k) + [Entry(k, v)]
  }

  /** `get`: a hit moves the key to the recent end, a miss changes nothing. */
  function AfterGet<K(==), V>(s: Store<K, V>, k: K): Store<K, V> {
    if HasKey(s, k) then MovedToEnd(s, k, ValueAt(s, k)) else s
  }

  function Lookup<K(==), V>(s: Store<K, V>, k: K): Option<V> {
    if HasKey(s, k) then Some(ValueAt(s, k)) else None
  }

  function Trimmed<K, V>(s: Store<K, V>, capacity: nat): Store<K, V> {
    if |s| > capacity then s[1..] else s
  }

  /** `put`: the key becomes most recent, and the least recent entry goes if the cache is over capacity. */
  function AfterPut<K(==), V>(s: Store<K, V>, capacity: nat, k: K, v: V): Store<K, V> {
    Trimmed(MovedToEnd(s, k, v), capacity)
  }

  datatype Access<K, V> = Get(key: K) | Put(key: K, value: V)

  function Step<K(==), V>(s: Store<K, V>, capacity: nat, a: Access<K, V>): Store<K, V> {
    match a
    case Get(k) => AfterGet(s, k)
    case Put(k, v) => AfterPut(s, capacity, k, v)
  }

  /** The store of a fresh cache after a trace of accesses. */
  function Run<K(==), V>(capacity: nat, trace: seq<Access<K, V>>): Store<K, V> {
    if trace == [] then [] else
      var last := |trace| - 1;
      Step(Run(capacity, trace[..last]), capacity, trace[last])
  }

  // ---------------------------------------------------------------- the dictionary

  lemma {:induction false} WithoutShape<K, V>(s: Store<K, V>, k: K)
    requires DistinctKeys(s)
    ensures DistinctKeys(Without(s, k)) && !HasKey(Without(s, k), k)
    ensures |Without(s, k)| == |s| - if HasKey(s, k) then 1 else 0
    ensures forall i :: 0 <= i < |Without(s, k)| ==> Without(s, k)[i] in s
  {
    if s != [] {
      var tail := s[1..];
      WithoutShape(tail, k);
      assert HasKey(s, k) <==> s[0].key == k || HasKey(tail, k) by {
        if i :| 0 <= i < |s| && s[i].key == k {
          assert i > 0 ==> tail[i - 1] == s[i];
        }
        if i :| 0 <= i < |tail| && tail[i].key == k {
          assert s[i + 1] == tail[i];
        }
      }
      var t := Without(tail, k);
      forall j | 0 <= j < |t| ensures t[j].key != s[0].key {
        assert t[j] in tail;
      }
    }
  }

  lemma {:induction false} WithoutAbsent<K, V>(s: Store<K, V>, k: K)
    requires !HasKey(s, k)
    ensures Without(s, k) == s
  {
    if s != [] {
      assert s[0].key != k;
      forall i | 0 <= i < |s[1..]| ensures s[1..][i].key != k {
        assert s[1..][i] == s[i + 1];
      }
      WithoutAbsent(s[1..], k);
    }
  }

  lemma ValueAtUnique<K, V>(s: Store<K, V>, e: Entry<K, V>)
    requires DistinctKeys(s) && e in s
    ensures HasKey(s, e.key) && ValueAt(s, e.key) == e.value
  {
    var i :| 0 <= i < |s| && s[i] == e;
    var j :| 0 <= j < |s| && s[j] == Entry(e.key, ValueAt(s, e.key));
  }

  lemma MovedToEndShape<K, V>(s: Store<K, V>, k: K, v: V)
    requires DistinctKeys(s)
    ensures DistinctKeys(MovedToEnd(s, k, v))
    ensures |MovedToEnd(s, k, v)| == |s| + if HasKey(s, k) then 0 else 1
  {
    WithoutShape(s, k);
  }

  /** Every reachable store has distinct keys and respects the capacity. */
  lemma {:induction false} RunShape<K, V>(capacity: nat, trace: seq<Access<K, V>>)
    ensures DistinctKeys(Run(capacity, trace)) && |Run(capacity, trace)| <= capacity
  {
    if trace != [] {
      var last := |trace| - 1;
      var s := Run(capacity, trace[..last]);
      RunShape(capacity, trace[..last]);
      match trace[last]
      case Get(k) =>
        if HasKey(s, k) { MovedToEndShape(s, k, ValueAt(s, k)); }
      case Put(k, v) =>
        MovedToEndShape(s, k, v);
    }
  }

  lemma RunExtends<K, V>(capacity: nat, trace: seq<Access<K, V>>, a: Access<K, V>)
    ensures Run(capacity, trace + [a]) == Step(Run(capacity, trace), capacity, a)
  {
    assert (trace + [a])[..|trace|] == trace;
  }

  // ---------------------------------------------------------------- values

  /** The value most recently put under `k`, if any. */
  function LastPut<K(==), V>(trace: seq<Access<K, V>>, k: K): Option<V> {
    if trace == [] then None else
      var a := trace[|trace| - 1];
      if a.Put? && a.key == k then Some(a.value) else LastPut(trace[..|trace| - 1], k)
  }

  /** A hit always returns the most recent value put under the key, however entries moved or left. */
  lemma {:induction false} HitsAreFresh<K, V>(capacity: nat, trace: seq<Access<K, V>>, k: K)
    ensures HasKey(Run(capacity, trace), k) ==> Lookup(Run(capacity, trace), k) == LastPut(trace, k)
  {
    RunShape(capacity, trace);
    if HasKey(Run(capacity, trace), k) {
      EntriesAreFresh(capacity, trace, Entry(k, ValueAt(Run(capacity, trace), k)));
    }
  }

  lemma {:induction false} EntriesAreFresh<K, V>(capacity: nat, trace: seq<Access<K, V>>, e: Entry<K, V>)
    requires e in Run(capacity, trace)
    ensures LastPut(trace, e.key) == Some(e.value)
  {
    var last := |trace| - 1;
    var s, a := Run(capacity, trace[..last]), trace[last];
    RunShape(capacity, trace[..last]);
    WithoutShape(s, a.key);
    if a.Put? && e.key == a.key {
      var t := MovedToEnd(s, a.key, a.value);
      assert e in t;
      assert e in Without(s, a.key) ==> HasKey(Without(s, a.key), a.key);
    } else {
      assert e in s;
      EntriesAreFresh(capacity, trace[..last], e);
    }
  }

  // ---------------------------------------------------------------- recency

  function Remove<K(==)>(ks: seq<K>, k: K): (r: seq<K>)
    ensures |r| <= |ks|
  {
    if ks == [] then []
    else if ks[0] == k then Remove(ks[1..], k)
    else [ks[0]] + Remove(ks[1..], k)
  }

  /** The distinct keys of a history, ordered by their last occurrence. */
  function Recency<K(==)>(history: seq<K>): seq<K> {
    if history == [] then [] else
      var last := |history| - 1;
      Remove(Recency(history[..last]), history[last]) + [history[last]]
  }

  function LastFew<K>(ks: seq<K>, n: nat): seq<K> {
    if |ks| <= n then ks else ks[|ks| - n..]
  }

  /** The accesses that count as uses: every put, and every get that hits. */
  function Uses<K(==), V>(capacity: nat, trace: seq<Access<K, V>>): seq<K> {
    if trace == [] then [] else
      var last := |trace| - 1;
      Uses(capacity, trace[..last])
        + if trace[last].Put? || HasKey(Run(capacity, trace[..last]), trace[last].key)
          then [trace[last].key] else []
  }

  lemma {:induction false} KeysWithout<K, V>(s: Store<K, V>, k: K)
    ensures Keys(Without(s, k)) == Remove(Keys(s), k)
  {
    if s != [] {
      assert Keys(s)[1..] == Keys(s[1..]);
      KeysWithout(s[1..], k);
      assert Keys([s[0]] + Without(s[1..], k)) == [s[0].key] + Keys(Without(s[1..], k));
    }
  }

  lemma {:induction false} RemoveConcat<K>(a: seq<K>, b: seq<K>, k: K)
    ensures Remove(a + b, k) == Remove(a, k) + Remove(b, k)
  {
    if a == [] {
      assert a + b == b;
    } else {
      assert (a + b)[1..] == a[1..] + b;
      RemoveConcat(a[1..], b, k);
    }
  }

  lemma {:induction false} RemoveDistinct<K>(a: seq<K>, k: K)
    requires forall i, j :: 0 <= i < j < |a| ==> a[i] != a[j]
    ensures forall i, j :: 0 <= i < j < |Remove(a, k)| ==> Remove(a, k)[i] != Remove(a, k)[j]
    ensures k !in Remove(a, k) && forall i :: 0 <= i < |Remove(a, k)| ==> Remove(a, k)[i] in a
    ensures |Remove(a, k)| == |a| - if k in a then 1 else 0
  {
    if a != [] { RemoveDistinct(a[1..], k); }
  }

  lemma RemoveLength<K>(a: seq<K>, k: K)
    requires forall i, j :: 0 <= i < j < |a| ==> a[i] != a[j]
    ensures |Remove(a, k)| >= |a| - 1
  {
    RemoveDistinct(a, k);
  }

  lemma {:induction false} RecencyDistinct<K>(history: seq<K>)
    ensures forall i, j :: 0 <= i < j < |Recency(history)| ==> Recency(history)[i] != Recency(history)[j]
  {
    if history != [] {
      var last := |history| - 1;
      RecencyDistinct(history[..last]);
      RemoveDistinct(Recency(history[..last]), history[last]);
    }
  }

  lemma LastFewSuffix<K>(p: seq<K>, x: seq<K>, n: nat)
    requires |x| >= n
    ensures LastFew(p + x, n) == LastFew(x, n)
  {
  }

  lemma LastFewUseSplit<K>(p: seq<K>, q: seq<K>, k: K)
    requires |Remove(q, k)| >= |q| - 1
    ensures LastFew(Remove(p + q, k) + [k], |q|) == LastFew(Remove(q, k) + [k], |q|)
  {
    RemoveConcat(p, q, k);
    assert Remove(p + q, k) + [k] == Remove(p, k) + (Remove(q, k) + [k]);
    LastFewSuffix(Remove(p, k), Remove(q, k) + [k], |q|);
  }

  lemma LastFewLosesOne<K>(r: seq<K>, n: nat, k: K)
    requires forall i, j :: 0 <= i < j < |r| ==> r[i] != r[j]
    ensures |Remove(LastFew(r, n), k)| >= |LastFew(r, n)| - 1
  {
    var q := LastFew(r, n);
    forall i, j | 0 <= i < j < |q| ensures q[i] != q[j] {
      var d := |r| - |q|;
      assert q[i] == r[i + d] && q[j] == r[j + d];
    }
    RemoveLength(q, k);
  }

  /** Only the last few keys decide which keys are the last few after one more use. */
  lemma LastFewUse<K>(r: seq<K>, n: nat, k: K)
    requires |Remove(LastFew(r, n), k)| >= |LastFew(r, n)| - 1
    ensures LastFew(Remove(r, k) + [k], n) == LastFew(Remove(LastFew(r, n), k) + [k], n)
  {
    if |r| > n {
      var p, q := r[..|r| - n], r[|r| - n..];
      LastFewUseSplit(p, q, k);
      assert r == p + q;
    }
  }

  lemma UseStep<K, V>(s: Store<K, V>, capacity: nat, k: K, v: V)
    requires DistinctKeys(s) && |s| <= capacity
    ensures Keys(Trimmed(MovedToEnd(s, k, v), capacity)) == LastFew(Remove(Keys(s), k) + [k], capacity)
  {
    MovedToEndShape(s, k, v);
    KeysWithout(s, k);
    assert Keys(MovedToEnd(s, k, v)) == Remove(Keys(s), k) + [k];
  }

  /** Refinement: the cache holds exactly the `capacity` most recently used keys, in order of use. */
  lemma {:induction false} HoldsMostRecent<K, V>(capacity: nat, trace: seq<Access<K, V>>)
    ensures Keys(Run(capacity, trace)) == LastFew(Recency(Uses(capacity, trace)), capacity)
  {
    if trace != [] {
      var last := |trace| - 1;
      var before, a := trace[..last], trace[last];
      var s, uses := Run(capacity, before), Uses(capacity, before);
      HoldsMostRecent(capacity, before);
      RunShape(capacity, before);
      if a.Put? || HasKey(s, a.key) {
        assert (uses + [a.key])[..|uses|] == uses;
        RecencyDistinct(uses);
        LastFewLosesOne(Recency(uses), capacity, a.key);
        LastFewUse(Recency(uses), capacity, a.key);
        var v := if a.Put? then a.value else ValueAt(s, a.key);
        UseStep(s, capacity, a.key, v);
        assert a.Get? ==> Trimmed(MovedToEnd(s, a.key, v), capacity) == AfterGet(s, a.key) by {
          MovedToEndShape(s, a.key, v);
        }
      } else {
        assert Uses(capacity, trace) == uses;
      }
    }
  }

  // ---------------------------------------------------------------- inclusion of capacities

  function Keep<K(==), V>(s: Store<K, V>, ks: set<K>): Store<K, V> {
    if s == [] then []
    else if s[0].key in ks then [s[0]] + Keep(s[1..], ks)
    else Keep(s[1..], ks)
  }

  /** `small` is `large` with some entries left out: same values, same recency order. */
  ghost predicate Within<K(!new), V>(small: Store<K, V>, large: Store<K, V>) {
    exists ks: set<K> :: small == Keep(large, ks)
  }

  lemma {:induction false} KeepConcat<K, V>(a: Store<K, V>, b: Store<K, V>, ks: set<K>)
    ensures Keep(a + b, ks) == Keep(a, ks) + Keep(b, ks)
  {
    if a == [] {
      assert a + b == b;
    } else {
      assert (a + b)[1..] == a[1..] + b;
      KeepConcat(a[1..], b, ks);
    }
  }

  lemma {:induction false} KeepWithout<K, V>(s: Store<K, V>, k: K, ks: set<K>)
    ensures Keep(Without(s, k), ks) == Without(Keep(s, ks), k)
    ensures Keep(Without(s, k), ks + {k}) == Keep(Without(s, k), ks)
    ensures Keep(s, ks - {k}) == Without(Keep(s, ks), k)
  {
    if s != [] { KeepWithout(s[1..], k, ks); }
  }

  lemma {:induction false} KeepMembers<K, V>(s: Store<K, V>, ks: set<K>)
    ensures |Keep(s, ks)| <= |s|
    ensures forall i :: 0 <= i < |Keep(s, ks)| ==> Keep(s, ks)[i] in s && Keep(s, ks)[i].key in ks
  {
    if s != [] { KeepMembers(s[1..], ks); }
  }

  lemma KeepHasKey<K, V>(s: Store<K, V>, ks: set<K>, k: K)
    requires DistinctKeys(s) && HasKey(Keep(s, ks), k)
    ensures k in ks && HasKey(s, k) && ValueAt(s, k) == ValueAt(Keep(s, ks), k)
  {
    KeepMembers(s, ks);
    var i :| 0 <= i < |Keep(s, ks)| && Keep(s, ks)[i] == Entry(k, ValueAt(Keep(s, ks), k));
    ValueAtUnique(s, Keep(s, ks)[i]);
  }

  /** What two caches of capacities c1 <= c2 keep in common after every trace. */
  ghost predicate Inclusion<K(!new), V>(small: Store<K, V>, large: Store<K, V>, c1: nat, c2: nat) {
    && DistinctKeys(small) && DistinctKeys(large) && |small| <= c1 && |large| <= c2
    && Within(small, large)
    && (|small| < c1 ==> small == large)
  }

  lemma KeepMovedToEnd<K, V>(large: Store<K, V>, ks: set<K>, k: K, v: V)
    ensures Keep(MovedToEnd(large, k, v), ks + {k}) == MovedToEnd(Keep(large, ks), k, v)
  {
    KeepConcat(Without(large, k), [Entry(k, v)], ks + {k});
    KeepWithout(large, k, ks);
  }

  lemma GetKeepsInclusion<K(!new), V>(small: Store<K, V>, large: Store<K, V>, c1: nat, c2: nat, k: K)
    requires Inclusion(small, large, c1, c2)
    ensures Inclusion(AfterGet(small, k), AfterGet(large, k), c1, c2)
  {
    var ks: set<K> :| small == Keep(large, ks);
    if HasKey(small, k) {
      KeepHasKey(large, ks, k);
      var v := ValueAt(large, k);
      KeepMovedToEnd(large, ks, k, v);
      MovedToEndShape(small, k, v);
      MovedToEndShape(large, k, v);
    } else if HasKey(large, k) {
      var v := ValueAt(large, k);
      MovedToEndShape(large, k, v);
      KeepConcat(Without(large, k), [Entry(k, v)], ks - {k});
      KeepWithout(Without(large, k), k, ks);
      KeepWithout(large, k, ks);
      WithoutAbsent(small, k);
      assert Keep(AfterGet(large, k), ks - {k}) == small;
    }
  }

  lemma DropHead<K, V>(s: Store<K, V>)
    requires DistinctKeys(s) && s != []
    ensures Without(s, s[0].key) == s[1..]
  {
    WithoutAbsent(s[1..], s[0].key);
  }

  /** Evicting from the smaller store, and possibly from the larger, keeps the smaller within. */
  lemma TrimKeepsWithin<K(!new), V>(large: Store<K, V>, ks: set<K>, c2: nat)
    requires DistinctKeys(large) && DistinctKeys(Keep(large, ks)) && Keep(large, ks) != []
    ensures Within(Keep(large, ks)[1..], Trimmed(large, c2))
  {
    var small := Keep(large, ks);
    var h := small[0].key;
    DropHead(small);
    KeepWithout(large, h, ks);
    assert Keep(large, ks - {h}) == small[1..];
    if large[0].key in ks {
      assert Keep(large[1..], ks - {h}) == small[1..];
    } else {
      assert Keep(large[1..], ks - {h}) == Keep(large, ks - {h});
    }
  }

  lemma PutKeepsInclusion<K(!new), V>(small: Store<K, V>, large: Store<K, V>, c1: nat, c2: nat, k: K, v: V)
    requires 0 < c1 <= c2 && Inclusion(small, large, c1, c2)
    ensures Inclusion(AfterPut(small, c1, k, v), AfterPut(large, c2, k, v), c1, c2)
  {
    var ks: set<K> :| small == Keep(large, ks);
    var s, l := MovedToEnd(small, k, v), MovedToEnd(large, k, v);
    MovedToEndShape(small, k, v);
    MovedToEndShape(large, k, v);
    KeepMovedToEnd(large, ks, k, v);
    if |s| > c1 {
      TrimKeepsWithin(l, ks + {k}, c2);
    } else {
      if HasKey(small, k) {
        KeepHasKey(large, ks, k);
      }
      assert Trimmed(l, c2) == l;
    }
  }

  /** The stack property: at every moment the smaller cache is the larger one with entries left out. */
  lemma {:induction false} CapacityInclusion<K(!new), V>(c1: nat, c2: nat, trace: seq<Access<K, V>>)
    requires 0 < c1 <= c2
    ensures Inclusion(Run(c1, trace), Run(c2, trace), c1, c2)
  {
    if trace == [] {
      assert Run<K, V>(c1, []) == Keep(Run<K, V>(c2, []), {});
    } else {
      var last := |trace| - 1;
      CapacityInclusion(c1, c2, trace[..last]);
      var s, l := Run(c1, trace[..last]), Run(c2, trace[..last]);
      match trace[last]
      case Get(k) => GetKeepsInclusion(s, l, c1, c2, k);
      case Put(k, v) => PutKeepsInclusion(s, l, c1, c2, k, v);
    }
  }

  /** Growing a cache never turns a hit into a miss or changes the value returned. */
  lemma HitsAreMonotone<K(!new), V>(c1: nat, c2: nat, trace: seq<Access<K, V>>, k: K)
    requires 0 < c1 <= c2
    ensures Lookup(Run(c1, trace), k).Some? ==> Lookup(Run(c2, trace), k) == Lookup(Run(c1, trace), k)
  {
    CapacityInclusion(c1, c2, trace);
    var small, large := Run(c1, trace), Run(c2, trace);
    var ks: set<K> :| small == Keep(large, ks);
    if HasKey(small, k) {
      KeepHasKey(large, ks, k);
    }
  }

  // ---------------------------------------------------------------- the object

  class Cache<K(==), V> {
    const capacity: nat
    var store: Store<K, V>
    /** Every access made on this cache, oldest first. */
    ghost var trace: seq<Access<K, V>>

    /** The store is what its accesses leave in a fresh cache, so every theorem about runs applies. */
    ghost predicate Valid()
      reads this
    {
      capacity > 0 && store == Run(capacity, trace)
    }

    constructor (capacity: nat)
      requires capacity > 0
      ensures Valid() && this.capacity == capacity && store == [] && trace == []
    {
      this.capacity := capacity;
      store := [];
      trace := [];
    }

    /** `get`; `None` is a miss. */
    method Get(key: K) returns (value: Option<V>)
      requires Valid()
      modifies this
      ensures Valid() && trace == old(trace) + [Access.Get(key)]
      ensures store == old(AfterGet(store, key)) && value == old(Lookup(store, key))
    {
      RunExtends(capacity, trace, Access.Get(key));
      trace := trace + [Access.Get(key)];
      if !HasKey(store, key) {
        return None;
      }
      var found := ValueAt(store, key);
      store := MovedToEnd(store, key, found);
      return Some(found);
    }

    method Put(key: K, value: V)
      requires Valid()
      modifies this
      ensures Valid() && trace == old(trace) + [Access.Put(key, value)]
      ensures store == old(AfterPut(store, capacity, key, value))
    {
      RunExtends(capacity, trace, Access.Put(key, value));
      trace := trace + [Access.Put(key, value)];
      if HasKey(store, key) {
        store := MovedToEnd(store, key, value);
      } else {
        WithoutAbsent(store, key);
        store := store + [Entry(key, value)];
      }
      if |store| > capacity {
        store := store[1..];
      }
    }
  }

  /** Construction with any integer; a capacity that is not positive is rejected. */
  method NewCache<K(==), V>(capacity: int) returns (cache: Option<Cache<K, V>>)
    ensures cache.None? <==> capacity <= 0
    ensures cache.Some? ==> fresh(cache.value) && cache.value.Valid()
                            && cache.value.capacity == capacity && cache.value.store == []
  {
    if capacity <= 0 {
      return None;
    }
    var made := new Cache<K, V>(capacity);
    return Some(made);
  }
}

/** Fibonacci numbers memoised in a cache small enough to evict while the recursion runs. */
module MemoFibonacci {
  import opened LruCache

  type IntStore = Store<int, int>

  function Fib(n: int): (f: int)
    ensures n >= 1 ==> f >= 1
  {
    if n < 2 then n else Fib(n - 1) + Fib(n - 2)
  }

  /** Value returned, store left behind and calls made by `memoize_fibonacci(n, cache)`. */
  datatype Outcome = Outcome(value: int, store: IntStore, calls: nat)

  /** What a call that hits the cache returns. */
  function Recalled(n: int, s: IntStore): Outcome
    requires HasKey(s, n)
  {
    Outcome(ValueAt(s, n), AfterGet(s, n), 1)
  }

  /** What an uncached call returns, given the outcomes `a` and `b` of its two subcalls. */
  function Combined(n: int, capacity: nat, a: Outcome, b: Outcome): Outcome {
    Outcome(a.value + b.value, AfterPut(b.store, capacity, n, a.value + b.value), 1 + a.calls + b.calls)
  }

  function Memo(n: int, s: IntStore, capacity: nat): (r: Outcome)
    ensures r.calls >= 1
    decreases if n < 2 then 0 else n
  {
    if n < 2 then Outcome(n, s, 1)
    else if HasKey(s, n) then Recalled(n, s)
    else
      var a := Memo(n - 1, s, capacity);
      Combined(n, capacity, a, Memo(n - 2, a.store, capacity))
  }

  /** The cache may hold anything under keys below 2, which the function never looks up. */
  ghost predicate Correct(s: IntStore) {
    DistinctKeys(s) && forall i :: 0 <= i < |s| && s[i].key >= 2 ==> s[i].value == Fib(s[i].key)
  }

  lemma MovedKeepsCorrect(s: IntStore, k: int, v: int)
    requires Correct(s) && (k >= 2 ==> v == Fib(k))
    ensures Correct(MovedToEnd(s, k, v))
  {
    WithoutShape(s, k);
    MovedToEndShape(s, k, v);
  }

  /** A hit gives the number itself. */
  lemma RecalledIsCorrect(n: int, s: IntStore)
    requires n >= 2 && HasKey(s, n) && Correct(s)
    ensures Recalled(n, s).value == Fib(n) && Correct(Recalled(n, s).store)
  {
    MovedKeepsCorrect(s, n, ValueAt(s, n));
  }

  lemma CombinedIsCorrect(n: int, capacity: nat, a: Outcome, b: Outcome)
    requires n >= 2 && a.value == Fib(n - 1) && b.value == Fib(n - 2) && Correct(b.store)
    ensures Combined(n, capacity, a, b).value == Fib(n) && Correct(Combined(n, capacity, a, b).store)
  {
    MovedKeepsCorrect(b.store, n, a.value + b.value);
  }

  /** Whatever correct entries the cache starts with and whatever is evicted on the way,
      the result is the Fibonacci number and the cache stays correct. */
  lemma {:induction false} MemoIsCorrect(n: int, s: IntStore, capacity: nat)
    requires Correct(s)
    ensures Memo(n, s, capacity).value == Fib(n) && Correct(Memo(n, s, capacity).store)
    decreases if n < 2 then 0 else n
  {
    if n >= 2 {
      if HasKey(s, n) {
        RecalledIsCorrect(n, s);
      } else {
        var a := Memo(n - 1, s, capacity);
        MemoIsCorrect(n - 1, s, capacity);
        MemoIsCorrect(n - 2, a.store, capacity);
        CombinedIsCorrect(n, capacity, a, Memo(n - 2, a.store, capacity));
      }
    }
  }

  // ---------------------------------------------------------------- call counts from an empty cache

  ghost predicate EndsWithLastTwo(s: IntStore, n: int) {
    && DistinctKeys(s) && s != [] && s[|s| - 1].key == n
    && (n >= 3 ==> HasKey(s, n - 1))
  }

  lemma {:induction false} WithoutLast(s: IntStore, k: int)
    requires DistinctKeys(s) && s != [] && s[|s| - 1].key != k
    ensures Without(s, k) != [] && Without(s, k)[|Without(s, k)| - 1] == s[|s| - 1]
  {
    if s[0].key == k {
      if |s| > 1 { WithoutLast(s[1..], k); }
    } else if |s| > 1 {
      WithoutLast(s[1..], k);
    }
  }

  /** With room for three, putting n keeps n - 1 when that is one of the two most recent keys. */
  lemma PutKeepsRecent(g: IntStore, at: nat, n: int, v: int, capacity: nat)
    requires capacity >= 3 && DistinctKeys(g) && |g| <= capacity && !HasKey(g, n)
    requires at < |g| <= at + 2 && g[at].key == n - 1
    ensures EndsWithLastTwo(AfterPut(g, capacity, n, v), n)
    ensures |AfterPut(g, capacity, n, v)| <= capacity
  {
    WithoutAbsent(g, n);
    MovedToEndShape(g, n, v);
    var t := g + [Entry(n, v)];
    assert t[at].key == n - 1;
    if |t| > capacity {
      assert t[1..][at - 1].key == n - 1;
    }
  }

  /** Reading n - 2 moves it behind n - 1, which stays second most recent. */
  lemma HitLeavesSecond(s: IntStore, n: int)
    requires n >= 4 && EndsWithLastTwo(s, n - 1)
    ensures var g := AfterGet(s, n - 2);
            DistinctKeys(g) && |g| == |s| >= 2 && g[|g| - 2].key == n - 1
  {
    MovedToEndShape(s, n - 2, ValueAt(s, n - 2));
    WithoutLast(s, n - 2);
  }

  lemma AfterGetKeys(s: IntStore, k: int, other: int)
    requires DistinctKeys(s) && !HasKey(s, other)
    ensures !HasKey(AfterGet(s, k), other)
  {
    WithoutShape(s, k);
    if HasKey(s, k) && other == k {
      assert false;
    }
  }

  lemma AfterPutKeys(s: IntStore, capacity: nat, n: int, v: int, other: int)
    requires DistinctKeys(s) && !HasKey(s, other) && other != n
    ensures DistinctKeys(AfterPut(s, capacity, n, v)) && !HasKey(AfterPut(s, capacity, n, v), other)
  {
    WithoutShape(s, n);
    MovedToEndShape(s, n, v);
  }

  lemma {:induction false} MemoKeysAtMost(n: int, s: IntStore, capacity: nat, k: int)
    requires DistinctKeys(s) && k > n && !HasKey(s, k)
    ensures DistinctKeys(Memo(n, s, capacity).store) && !HasKey(Memo(n, s, capacity).store, k)
    decreases if n < 2 then 0 else n
  {
    if n >= 2 {
      if HasKey(s, n) {
        AfterGetKeys(s, n, k);
        MovedToEndShape(s, n, ValueAt(s, n));
      } else {
        var a := Memo(n - 1, s, capacity);
        MemoKeysAtMost(n - 1, s, capacity, k);
        var b := Memo(n - 2, a.store, capacity);
        MemoKeysAtMost(n - 2, a.store, capacity, k);
        MissUnfolds(n, s, capacity, a, b);
        AfterPutKeys(b.store, capacity, n, a.value + b.value, k);
      }
    }
  }

  lemma MissUnfolds(n: int, s: IntStore, capacity: nat, a: Outcome, b: Outcome)
    requires n >= 2 && !HasKey(s, n)
    requires a == Memo(n - 1, s, capacity) && b == Memo(n - 2, a.store, capacity)
    ensures Memo(n, s, capacity) == Combined(n, capacity, a, b)
  {
  }

  lemma MemoOfTwo(n: int, capacity: nat)
    requires n == 2 && capacity >= 1
    ensures Memo(n, [], capacity) == Outcome(1, [Entry(2, 1)], 3)
  {
    assert Without<int, int>([], n) == [];
    MissUnfolds(n, [], capacity, Outcome(1, [], 1), Outcome(0, [], 1));
  }

  lemma PutThree(capacity: nat)
    requires capacity >= 1
    ensures AfterPut([Entry(2, 1)], capacity, 3, 2)
         == if capacity == 1 then [Entry(3, 2)] else [Entry(2, 1), Entry(3, 2)]
  {
    WithoutAbsent([Entry(2, 1)], 3);
  }

  lemma MemoOfThree(n: int, capacity: nat)
    requires n == 3 && capacity >= 1
    ensures Memo(n, [], capacity)
         == Outcome(2, if capacity == 1 then [Entry(3, 2)] else [Entry(2, 1), Entry(3, 2)], 5)
  {
    MemoOfTwo(n - 1, capacity);
    MissUnfolds(n, [], capacity, Outcome(1, [Entry(2, 1)], 3), Outcome(1, [Entry(2, 1)], 1));
    PutThree(capacity);
  }

  /** From an empty cache of capacity at least 3 every subproblem is computed once, despite evictions. */
  lemma {:induction false} LinearCalls(n: int, capacity: nat)
    requires n >= 2 && capacity >= 3
    ensures Memo(n, [], capacity).calls == 2 * n - 1
    ensures EndsWithLastTwo(Memo(n, [], capacity).store, n)
    ensures |Memo(n, [], capacity).store| <= capacity
  {
    if n == 2 {
      MemoOfTwo(n, capacity);
    } else if n == 3 {
      MemoOfThree(n, capacity);
      assert Memo(n, [], capacity).store[0].key == 2;
    } else {
      LinearCalls(n - 1, capacity);
      LinearStep(n, capacity);
    }
  }

  lemma HitUnfolds(n: int, s: IntStore, capacity: nat)
    requires n >= 2 && HasKey(s, n)
    ensures Memo(n, s, capacity) == Recalled(n, s)
  {
  }

  /** When n - 1 was computed last and n - 2 is still cached, computing n costs two calls. */
  lemma RecallThenPut(n: int, capacity: nat, a: Outcome)
    requires n >= 4 && capacity >= 3 && |a.store| <= capacity
    requires EndsWithLastTwo(a.store, n - 1) && !HasKey(a.store, n)
    ensures var r := Combined(n, capacity, a, Recalled(n - 2, a.store));
            r.calls == a.calls + 2 && EndsWithLastTwo(r.store, n) && |r.store| <= capacity
  {
    var b := Recalled(n - 2, a.store);
    HitLeavesSecond(a.store, n);
    AfterGetKeys(a.store, n - 2, n);
    PutKeepsRecent(b.store, |b.store| - 2, n, a.value + b.value, capacity);
  }

  lemma LinearStep(n: int, capacity: nat)
    requires n >= 4 && capacity >= 3
    requires EndsWithLastTwo(Memo(n - 1, [], capacity).store, n - 1)
    requires |Memo(n - 1, [], capacity).store| <= capacity
    ensures Memo(n, [], capacity).calls == Memo(n - 1, [], capacity).calls + 2
    ensures EndsWithLastTwo(Memo(n, [], capacity).store, n)
    ensures |Memo(n, [], capacity).store| <= capacity
  {
    var a := Memo(n - 1, [], capacity);
    MemoKeysAtMost(n - 1, [], capacity, n);
    HitUnfolds(n - 2, a.store, capacity);
    MissUnfolds(n, [], capacity, a, Recalled(n - 2, a.store));
    RecallThenPut(n, capacity, a);
  }

  // ---------------------------------------------------------------- too few places

  /** The calls of the recursion without any cache. */
  function NaiveCalls(n: int): nat {
    if n < 2 then 1 else 1 + NaiveCalls(n - 1) + NaiveCalls(n - 2)
  }

  /** They grow as the Fibonacci numbers do. */
  lemma {:induction false} NaiveIsFibonacci(n: int)
    requires n >= 0
    ensures NaiveCalls(n) == 2 * Fib(n + 1) - 1
  {
    if n >= 2 {
      NaiveIsFibonacci(n - 1);
      NaiveIsFibonacci(n - 2);
    }
  }

  /** Only keys that a computation of n never asks for. */
  ghost predicate Above(s: IntStore, n: int, capacity: nat) {
    DistinctKeys(s) && |s| <= capacity && forall i :: 0 <= i < |s| ==> s[i].key > n
  }

  /** Storing an absent key pushes out the least recent entry of a full store. */
  lemma PutAbsent(s: IntStore, capacity: nat, n: int, v: int)
    requires !HasKey(s, n) && |s| <= capacity
    ensures AfterPut(s, capacity, n, v)
         == if |s| == capacity then (s + [Entry(n, v)])[1..] else s + [Entry(n, v)]
  {
    WithoutAbsent(s, n);
  }

  /** With one place the cache never helps. */
  lemma {:induction false} OnePlace(n: int, s: IntStore)
    requires Above(s, n, 1)
    ensures Memo(n, s, 1).calls == NaiveCalls(n)
    ensures n < 2 ==> Memo(n, s, 1).store == s
    ensures n >= 2 ==> |Memo(n, s, 1).store| == 1 && Memo(n, s, 1).store[0].key == n
    decreases if n < 2 then 0 else n
  {
    if n >= 2 {
      var a := Memo(n - 1, s, 1);
      OnePlace(n - 1, s);
      var b := Memo(n - 2, a.store, 1);
      OnePlace(n - 2, a.store);
      MemoKeysAtMost(n - 1, s, 1, n);
      MemoKeysAtMost(n - 2, a.store, 1, n);
      MissUnfolds(n, s, 1, a, b);
      PutAbsent(b.store, 1, n, a.value + b.value);
    }
  }

  /** The calls with two places. */
  function TwoPlaceCalls(n: int): nat {
    if n < 2 then 1
    else if n < 5 then 2 * n - 1
    else TwoPlaceCalls(n - 1) + TwoPlaceCalls(n - 4) + 3
  }

  /** They at least double with every four: exponential, where three places make them linear. */
  lemma {:induction false} TwoPlacesDouble(n: int)
    requires n >= 1
    ensures TwoPlaceCalls(n) <= TwoPlaceCalls(n + 1)
    ensures TwoPlaceCalls(n + 4) > 2 * TwoPlaceCalls(n)
  {
    TwoPlacesGrow(n);
    TwoPlacesGrow(n + 1);
    TwoPlacesGrow(n + 2);
  }

  lemma TwoPlacesGrow(n: int)
    requires n >= 1
    ensures TwoPlaceCalls(n) <= TwoPlaceCalls(n + 1)
  {
  }

  ghost predicate KeysAre(s: IntStore, first: int, second: int) {
    |s| == 2 && s[0].key == first && s[1].key == second
  }

  /** Reading the older of two keys swaps them. */
  lemma SwapTwo(s: IntStore, older: int, newer: int)
    requires KeysAre(s, older, newer) && older != newer
    ensures HasKey(s, older) && KeysAre(AfterGet(s, older), newer, older)
  {
    assert s[1..][1..] == [];
    assert Without(s[1..], older) == [s[1]];
    assert Without(s, older) == [s[1]];
  }

  lemma {:induction false} TwoPlaces(n: int, s: IntStore)
    requires Above(s, n, 2)
    ensures Memo(n, s, 2).calls == TwoPlaceCalls(n)
    ensures n < 2 ==> Memo(n, s, 2).store == s
    ensures n == 2 ==> |Memo(n, s, 2).store| == (if s == [] then 1 else 2)
                       && Memo(n, s, 2).store[|Memo(n, s, 2).store| - 1].key == 2
    ensures n == 3 ==> KeysAre(Memo(n, s, 2).store, 2, 3)
    ensures n >= 4 ==> KeysAre(Memo(n, s, 2).store, n - 2, n)
    decreases if n < 2 then 0 else n
  {
    if n == 2 {
      TwoPlacesOfTwo(n, s);
    } else if n == 3 {
      TwoPlaces(n - 1, s);
      TwoPlacesOfThree(n, s);
    } else if n == 4 {
      TwoPlaces(n - 1, s);
      TwoPlacesOfFour(n, s);
    } else if n > 4 {
      TwoPlaces(n - 1, s);
      var a := Memo(n - 1, s, 2);
      RecallTwo(n, a);
      TwoPlaces(n - 4, Recalled(n - 3, a.store).store);
      TwoPlacesOfMore(n, s, a);
    }
  }

  lemma TwoPlacesOfTwo(n: int, s: IntStore)
    requires n == 2 && Above(s, n, 2)
    ensures Memo(n, s, 2).calls == 3
    ensures |Memo(n, s, 2).store| == (if s == [] then 1 else 2)
    ensures Memo(n, s, 2).store[|Memo(n, s, 2).store| - 1].key == 2
  {
    MissUnfolds(n, s, 2, Outcome(1, s, 1), Outcome(0, s, 1));
    PutAbsent(s, 2, n, 1);
  }

  lemma TwoPlacesOfThree(n: int, s: IntStore)
    requires n == 3 && Above(s, n, 2) && Memo(n - 1, s, 2).calls == 3
    requires var t := Memo(n - 1, s, 2).store; |t| == (if s == [] then 1 else 2) && t[|t| - 1].key == 2
    ensures Memo(n, s, 2).calls == 5 && KeysAre(Memo(n, s, 2).store, 2, 3)
  {
    var a := Memo(n - 1, s, 2);
    MemoKeysAtMost(n - 1, s, 2, n);
    MissUnfolds(n, s, 2, a, Outcome(1, a.store, 1));
    PutAbsent(a.store, 2, n, a.value + 1);
  }

  lemma TwoPlacesOfFour(n: int, s: IntStore)
    requires n == 4 && Above(s, n, 2) && Memo(n - 1, s, 2).calls == 5 && KeysAre(Memo(n - 1, s, 2).store, 2, 3)
    ensures Memo(n, s, 2).calls == 7 && KeysAre(Memo(n, s, 2).store, 2, 4)
  {
    var a := Memo(n - 1, s, 2);
    SwapTwo(a.store, 2, 3);
    HitUnfolds(n - 2, a.store, 2);
    var b := Recalled(n - 2, a.store);
    MissUnfolds(n, s, 2, a, b);
    PutAbsent(b.store, 2, n, a.value + b.value);
  }

  /** After n - 1, only n - 3 is still there when n - 2 is computed. */
  lemma RecallTwo(n: int, a: Outcome)
    requires n > 4 && KeysAre(a.store, n - 3, n - 1)
    ensures HasKey(a.store, n - 3) && !HasKey(a.store, n - 2)
    ensures KeysAre(Recalled(n - 3, a.store).store, n - 1, n - 3) && Above(Recalled(n - 3, a.store).store, n - 4, 2)
  {
    SwapTwo(a.store, n - 3, n - 1);
  }

  lemma TwoPlacesOfMore(n: int, s: IntStore, a: Outcome)
    requires n > 4 && Above(s, n, 2) && a == Memo(n - 1, s, 2)
    requires a.calls == TwoPlaceCalls(n - 1) && KeysAre(a.store, n - 3, n - 1) && HasKey(a.store, n - 3)
    requires var d := Memo(n - 4, Recalled(n - 3, a.store).store, 2);
             d.calls == TwoPlaceCalls(n - 4) && |d.store| == 2
    ensures Memo(n, s, 2).calls == TwoPlaceCalls(n) && KeysAre(Memo(n, s, 2).store, n - 2, n)
  {
    RecallTwo(n, a);
    HitUnfolds(n - 3, a.store, 2);
    var c := Recalled(n - 3, a.store);
    var d := Memo(n - 4, c.store, 2);
    MissUnfolds(n - 2, a.store, 2, c, d);
    MemoKeysAtMost(n - 4, c.store, 2, n - 2);
    PutAbsent(d.store, 2, n - 2, c.value + d.value);
    var b := Combined(n - 2, 2, c, d);
    MemoKeysAtMost(n - 2, a.store, 2, n);
    MissUnfolds(n, s, 2, a, b);
    PutAbsent(b.store, 2, n, a.value + b.value);
  }

  /** The calls from a fresh cache, for every capacity: linear with three places or more, doubling every four
      arguments with two, and those of the plain recursion with one. */
  lemma CallsByCapacity(n: int, capacity: nat)
    requires n >= 2 && capacity >= 1
    ensures Memo(n, [], capacity).calls
         == if capacity >= 3 then 2 * n - 1 else if capacity == 2 then TwoPlaceCalls(n) else NaiveCalls(n)
  {
    if capacity >= 3 {
      LinearCalls(n, capacity);
    } else if capacity == 2 {
      TwoPlaces(n, []);
    } else {
      OnePlace(n, []);
    }
  }

  lemma {:induction false} TooFew(n: int)
    ensures n >= 5 ==> TwoPlaceCalls(n) > 2 * n - 1
    ensures n >= 4 ==> NaiveCalls(n) > 2 * n - 1
  {
    if n >= 5 {
      TooFew(n - 1);
    }
  }

  /** Exact condition: a fresh cache gives the linear count 2n - 1 if and only if it has room for
      three entries, or n is too small for an eviction to hurt. */
  lemma CallsExact(n: int, capacity: nat)
    requires n >= 2 && capacity >= 1
    ensures Memo(n, [], capacity).calls == 2 * n - 1
            <==> capacity >= 3 || n <= 3 || (capacity == 2 && n == 4)
  {
    CallsByCapacity(n, capacity);
    TooFew(n);
  }

  // ---------------------------------------------------------------- the recursive procedure

  /** `memoize_fibonacci` on a given cache. */
  method Memoize(n: int, cache: Cache<int, int>) returns (value: int, ghost calls: nat)
    requires cache.Valid()
    modifies cache
    ensures cache.Valid()
    ensures Outcome(value, cache.store, calls) == old(Memo(n, cache.store, cache.capacity))
    decreases if n < 2 then 0 else n, 1
  {
    if n < 2 {
      return n, 1;
    }
    var hit := cache.Get(n);
    if hit.Some? {
      return hit.value, 1;
    }
    value, calls := MemoizeMiss(n, cache);
  }

  /** The rest of `memoize_fibonacci` once the lookup has missed. */
  method MemoizeMiss(n: int, cache: Cache<int, int>) returns (value: int, ghost calls: nat)
    requires cache.Valid() && n >= 2 && !HasKey(cache.store, n)
    modifies cache
    ensures cache.Valid()
    ensures Outcome(value, cache.store, calls) == old(Memo(n, cache.store, cache.capacity))
    decreases n, 0
  {
    ghost var start, capacity := cache.store, cache.capacity;
    var first, k1 := Memoize(n - 1, cache);
    ghost var a := Outcome(first, cache.store, k1);
    assert a == Memo(n - 1, start, capacity);
    var second, k2 := Memoize(n - 2, cache);
    ghost var b := Outcome(second, cache.store, k2);
    assert b == Memo(n - 2, a.store, capacity);
    MissUnfolds(n, start, capacity, a, b);
    value := first + second;
    cache.Put(n, value);
    calls := 1 + k1 + k2;
    assert Outcome(value, cache.store, calls) == Combined(n, capacity, a, b);
  }

  /** On any cache with correct entries the answer is right and the cache stays correct. */
  method MemoizeCorrectly(n: int, cache: Cache<int, int>) returns (value: int)
    requires cache.Valid() && Correct(cache.store)
    modifies cache
    ensures cache.Valid() && Correct(cache.store)
    ensures value == Fib(n)
  {
    MemoIsCorrect(n, cache.store, cache.capacity);
    ghost var calls;
    value, calls := Memoize(n, cache);
  }

  /** `memoize_fibonacci` without a cache: a fresh one with 64 places, so always the linear count. */
  method MemoizeFresh(n: int) returns (value: int, ghost calls: nat)
    ensures value == Fib(n)
    ensures calls == if n < 2 then 1 else 2 * n - 1
  {
    var cache := new Cache<int, int>(64);
    MemoIsCorrect(n, [], 64);
    value, calls := Memoize(n, cache);
    if n >= 2 {
      LinearCalls(n, 64);
    }
  }
}
