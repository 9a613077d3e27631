/** A lazily refilled token bucket, with the clock passed in as seconds and arithmetic over the reals. */
module TokenBucket {

  datatype Bucket = Bucket(capacity: real, rate: real, tokens: real, last: real)

  function Min(a: real, b: real): real {
    if a <= b then a else b
  }

  /** A full bucket created at time `now`. */
  function Full(capacity: real, rate: real, now: real): Bucket {
    Bucket(capacity, rate, capacity, now)
  }

  /** Time differences saturate at zero. */
  function Elapsed(b: Bucket, now: real): real {
    if now >= b.last then now - b.last else 0.0
  }

  function Refilled(b: Bucket, now: real): Bucket {
    b.(tokens := Min(b.tokens + Elapsed(b, now) * b.rate, b.capacity), last := now)
  }

  predicate Admits(b: Bucket, now: real) {
    Refilled(b, now).tokens >= 1.0
  }

  /** The bucket after `try_admit` at time `now`. */
  function AfterTry(b: Bucket, now: real): Bucket {
    var r := Refilled(b, now);
    if r.tokens >= 1.0 then r.(tokens := r.tokens - 1.0) else r
  }

  function TimeUntilToken(b: Bucket): real {
    if b.tokens >= 1.0 || b.rate <= 0.0 then 0.0 else (1.0 - b.tokens) / b.rate
  }

  // ---------------------------------------------------------------- runs

  predicate Ascending(start: real, times: seq<real>) {
    && (|times| > 0 ==> start <= times[0])
    && (forall i, j :: 0 <= i <= j < |times| ==> times[i] <= times[j])
  }

  /** The bucket after calls to `try_admit` at the given times. */
  function After(b: Bucket, times: seq<real>): Bucket {
    if times == [] then b else AfterTry(After(b, times[..|times| - 1]), times[|times| - 1])
  }

  predicate AdmittedAt(b: Bucket, times: seq<real>, i: nat)
    requires i < |times|
  {
    Admits(After(b, times[..i]), times[i])
  }

  /** Admissions among calls i, ..., j - 1. */
  function Admitted(b: Bucket, times: seq<real>, i: nat, j: nat): nat
    requires i <= j <= |times|
    decreases j
  {
    if i == j then 0 else Admitted(b, times, i, j - 1) + if AdmittedAt(b, times, j - 1) then 1 else 0
  }

  lemma AfterStep(b: Bucket, times: seq<real>, i: nat)
    requires i < |times|
    ensures After(b, times[..i + 1]) == AfterTry(After(b, times[..i]), times[i])
  {
    assert times[..i + 1][..i] == times[..i];
  }

  /** Tokens that accrue between two times. */
  function Accrued(rate: real, s: real, t: real): real {
    rate * (t - s)
  }

  lemma AccruedAdds(rate: real, s: real, t: real, u: real)
    ensures Accrued(rate, s, t) + Accrued(rate, t, u) == Accrued(rate, s, u)
    ensures Accrued(rate, s, s) == 0.0
  {
  }

  lemma AccruedNotNegative(rate: real, s: real, t: real)
    requires rate >= 0.0 && s <= t
    ensures Accrued(rate, s, t) >= 0.0
  {
  }

  /** One call spends at most the tokens there were plus the tokens that accrued, and at most the capacity. */
  lemma TrySpends(b: Bucket, now: real)
    requires now >= b.last
    ensures var t, spent := AfterTry(b, now), if Admits(b, now) then 1.0 else 0.0;
            && t.tokens + spent == Min(b.tokens + Accrued(b.rate, b.last, now), b.capacity)
            && t.capacity == b.capacity && t.rate == b.rate && t.last == now
            && (t.tokens + spent >= 0.0 ==> t.tokens >= 0.0)
  {
    assert Elapsed(b, now) * b.rate == Accrued(b.rate, b.last, now);
  }

  /** Tokens stay within [0, capacity], and the clock is the last call's. */
  lemma {:induction false} TokensInRange(capacity: real, rate: real, start: real, times: seq<real>, i: nat)
    requires capacity >= 0.0 && rate >= 0.0 && Ascending(start, times) && i <= |times|
    ensures var b := After(Full(capacity, rate, start), times[..i]);
            && b.capacity == capacity && b.rate == rate && 0.0 <= b.tokens <= capacity
            && b.last == if i == 0 then start else times[i - 1]
  {
    if i > 0 {
      TokensInRange(capacity, rate, start, times, i - 1);
      AfterStep(Full(capacity, rate, start), times, i - 1);
      var b := After(Full(capacity, rate, start), times[..i - 1]);
      TrySpends(b, times[i - 1]);
      AccruedNotNegative(rate, b.last, times[i - 1]);
    }
  }

  /** Admissions so far plus tokens left never exceed the capacity plus what has accrued. */
  lemma {:induction false} Balance(capacity: real, rate: real, start: real, times: seq<real>, i: nat, j: nat)
    requires capacity >= 0.0 && rate >= 0.0 && Ascending(start, times) && i <= j < |times|
    ensures var b := Full(capacity, rate, start);
            Admitted(b, times, i, j + 1) as real + After(b, times[..j + 1]).tokens
            <= capacity + Accrued(rate, times[i], times[j])
  {
    var b := Full(capacity, rate, start);
    AfterStep(b, times, j);
    TokensInRange(capacity, rate, start, times, j);
    TrySpends(After(b, times[..j]), times[j]);
    if i == j {
      assert Admitted(b, times, i, i) == 0;
      AccruedAdds(rate, times[i], times[i], times[i]);
    } else {
      Balance(capacity, rate, start, times, i, j - 1);
      AccruedAdds(rate, times[i], times[j - 1], times[j]);
    }
  }

  /** Main theorem: between any two calls at times s <= t at most capacity + rate * (t - s) are admitted. */
  lemma RateBound(capacity: real, rate: real, start: real, times: seq<real>, i: nat, j: nat)
    requires capacity >= 0.0 && rate >= 0.0 && Ascending(start, times) && i <= j < |times|
    ensures Admitted(Full(capacity, rate, start), times, i, j + 1) as real
            <= capacity + Accrued(rate, times[i], times[j])
  {
    Balance(capacity, rate, start, times, i, j);
    assert After(Full(capacity, rate, start), times[..j + 1]).tokens >= 0.0 by {
      TokensInRange(capacity, rate, start, times, j + 1);
    }
  }

  ghost predicate BoundedIn(capacity: real, rate: real, start: real, times: seq<real>, i: nat, j: nat) {
    Ascending(start, times) && i <= j < |times| ==>
      Admitted(Full(capacity, rate, start), times, i, j + 1) as real <= capacity + Accrued(rate, times[i], times[j])
  }

  /** Exact condition: the bound holds in every run if and only if capacity and rate are not negative. */
  lemma RateBoundExact(capacity: real, rate: real)
    ensures (forall start, times, i: nat, j: nat :: BoundedIn(capacity, rate, start, times, i, j))
            <==> capacity >= 0.0 && rate >= 0.0
  {
    if capacity >= 0.0 && rate >= 0.0 {
      forall start, times, i: nat, j: nat ensures BoundedIn(capacity, rate, start, times, i, j) {
        if Ascending(start, times) && i <= j < |times| {
          RateBound(capacity, rate, start, times, i, j);
        }
      }
    } else if capacity < 0.0 {
      AccruedAdds(rate, 0.0, 0.0, 0.0);
      assert !BoundedIn(capacity, rate, 0.0, [0.0], 0, 0);
    } else {
      var wait := (capacity + 1.0) / (-rate);
      var times := [0.0, wait];
      NegativeRateWait(capacity, rate, wait);
      assert !BoundedIn(capacity, rate, 0.0, times, 0, 1);
    }
  }

  lemma NegativeRateWait(capacity: real, rate: real, wait: real)
    requires capacity >= 0.0 && rate < 0.0 && wait == (capacity + 1.0) / (-rate)
    ensures wait >= 0.0 && capacity + Accrued(rate, 0.0, wait) < 0.0
  {
    assert wait * (-rate) == capacity + 1.0;
  }

  // ---------------------------------------------------------------- the first burst

  /** After n calls at the creation time as many tokens are gone, as long as there were that many. */
  lemma {:induction false} BurstLeft(capacity: real, rate: real, start: real, times: seq<real>)
    requires |times| as real <= capacity && forall i :: 0 <= i < |times| ==> times[i] == start
    ensures After(Full(capacity, rate, start), times) == Bucket(capacity, rate, capacity - |times| as real, start)
  {
    if times != [] {
      var init := times[..|times| - 1];
      BurstLeft(capacity, rate, start, init);
      var b := After(Full(capacity, rate, start), init);
      assert Elapsed(b, start) * rate == 0.0;
    }
  }

  lemma {:induction false} EmptyStays(capacity: real, rate: real, start: real, times: seq<real>)
    requires forall i :: 0 <= i < |times| ==> times[i] == start
    ensures var b := After(Full(capacity, rate, start), times);
            && b.capacity == capacity && b.rate == rate && b.last == start
            && (|times| as real > capacity - 1.0 ==> b.tokens < 1.0)
  {
    if times != [] {
      var init := times[..|times| - 1];
      EmptyStays(capacity, rate, start, init);
      var b := After(Full(capacity, rate, start), init);
      assert Elapsed(b, start) * rate == 0.0;
      if |times| as real > capacity - 1.0 && |init| as real <= capacity - 1.0 {
        BurstLeft(capacity, rate, start, init);
      }
    }
  }

  /** The burst: of the calls at the creation time exactly the first floor(capacity) are admitted. */
  lemma BurstExact(capacity: real, rate: real, start: real, times: seq<real>, i: nat)
    requires i < |times| && forall k :: 0 <= k < |times| ==> times[k] == start
    ensures AdmittedAt(Full(capacity, rate, start), times, i) <==> i as real + 1.0 <= capacity
  {
    var b := After(Full(capacity, rate, start), times[..i]);
    EmptyStays(capacity, rate, start, times[..i]);
    assert Elapsed(b, start) * rate == 0.0;
    if i as real + 1.0 <= capacity {
      BurstLeft(capacity, rate, start, times[..i]);
    }
  }

  // ---------------------------------------------------------------- waiting

  /** Whether a call `w` seconds after `now` is admitted. */
  predicate AdmitsAfter(b: Bucket, now: real, w: real) {
    Admits(b, now + w)
  }

  /** Admission happens exactly from `wait` seconds after `now` on. */
  ghost predicate LeastWait(b: Bucket, now: real, wait: real) {
    forall w: real :: w >= 0.0 ==> (AdmitsAfter(b, now, w) <==> w >= wait)
  }

  lemma AdmitsAfterMeans(b: Bucket, now: real, w: real)
    requires w >= 0.0 && now >= b.last
    ensures AdmitsAfter(b, now, w) <==> b.tokens + (now - b.last + w) * b.rate >= 1.0 && b.capacity >= 1.0
  {
    assert Elapsed(b, now + w) == now - b.last + w;
  }

  lemma LeastWaitUnique(b: Bucket, now: real, x: real, y: real)
    requires x >= 0.0 && y >= 0.0 && LeastWait(b, now, x) && LeastWait(b, now, y)
    ensures x == y
  {
    assert AdmitsAfter(b, now, x) && AdmitsAfter(b, now, y);
  }

  lemma WaitScale(rate: real, need: real, w: real)
    requires rate > 0.0
    ensures w * rate >= need <==> w >= need / rate
  {
    assert need / rate * rate == need;
    if w >= need / rate {
      assert (w - need / rate) * rate >= 0.0;
    } else {
      assert (need / rate - w) * rate > 0.0;
    }
  }

  lemma ZeroWait(b: Bucket, now: real)
    requires b.tokens >= 1.0 && b.rate >= 0.0 && b.tokens <= b.capacity && now >= b.last
    ensures LeastWait(b, now, 0.0)
  {
    forall w: real | w >= 0.0 ensures AdmitsAfter(b, now, w) {
      AdmitsAfterMeans(b, now, w);
      assert (now - b.last + w) * b.rate >= 0.0;
    }
  }

  /** What a caller at time `now` has to wait: the answer less the time since the last refill. */
  function CallerWait(b: Bucket, now: real): real {
    var left := TimeUntilToken(b) - (now - b.last);
    if left >= 0.0 then left else 0.0
  }

  /** When tokens accrue and one fits, that is the least wait at every time of calling. */
  lemma AccruingWait(b: Bucket, now: real)
    requires b.rate > 0.0 && b.capacity >= 1.0 && b.tokens <= b.capacity && now >= b.last
    ensures LeastWait(b, now, CallerWait(b, now))
  {
    if b.tokens >= 1.0 {
      ZeroWait(b, now);
    } else {
      forall w: real | w >= 0.0 ensures AdmitsAfter(b, now, w) <==> w >= CallerWait(b, now) {
        AdmitsAfterMeans(b, now, w);
        WaitScale(b.rate, 1.0 - b.tokens, now - b.last + w);
      }
    }
  }

  /** Without these conditions some wait refutes the answer. */
  lemma WaitRefuted(b: Bucket, now: real)
    requires b.tokens <= b.capacity && !(b.tokens >= 1.0 && b.rate >= 0.0) && !(b.rate > 0.0 && b.capacity >= 1.0)
    requires now >= b.last
    ensures !LeastWait(b, now, TimeUntilToken(b))
  {
    if b.tokens >= 1.0 {
      var w := b.tokens / (-b.rate);
      assert w * (-b.rate) == b.tokens && (now - b.last) * b.rate <= 0.0;
      AdmitsAfterMeans(b, now, w);
    } else if b.rate <= 0.0 {
      AdmitsAfterMeans(b, now, 0.0);
      assert (now - b.last) * b.rate <= 0.0;
    } else {
      AdmitsAfterMeans(b, now, TimeUntilToken(b));
      assert TimeUntilToken(b) >= 0.0;
    }
  }

  lemma AnswerNotNegative(b: Bucket)
    ensures TimeUntilToken(b) >= 0.0
    ensures TimeUntilToken(b) == 0.0 <==> b.tokens >= 1.0 || b.rate <= 0.0
  {
    if b.tokens < 1.0 && b.rate > 0.0 {
      WaitScale(b.rate, 1.0 - b.tokens, 0.0);
    }
  }

  /** Exact condition at the time of calling: `time_until_token`, which does not refill, is what the caller must
      wait if and only if a token is there and does not leak away, or tokens accrue, one fits in the bucket and
      the call comes at the last refill. */
  lemma CallerWaitExact(b: Bucket, now: real)
    requires b.tokens <= b.capacity && now >= b.last
    ensures LeastWait(b, now, TimeUntilToken(b))
            <==> || (b.tokens >= 1.0 && b.rate >= 0.0)
                 || (b.rate > 0.0 && b.capacity >= 1.0 && now == b.last)
  {
    AnswerNotNegative(b);
    if b.tokens >= 1.0 && b.rate >= 0.0 {
      ZeroWait(b, now);
    } else if b.rate > 0.0 && b.capacity >= 1.0 {
      AccruingWait(b, now);
      if LeastWait(b, now, TimeUntilToken(b)) {
        LeastWaitUnique(b, now, TimeUntilToken(b), CallerWait(b, now));
      }
    } else {
      WaitRefuted(b, now);
    }
  }

  /** Exact condition counted from the last refill: the answer is the least wait since then if and only if a token
      is there and does not leak away, or tokens accrue and one fits in the bucket. */
  lemma TimeUntilTokenExact(b: Bucket)
    requires b.tokens <= b.capacity
    ensures LeastWait(b, b.last, TimeUntilToken(b))
            <==> (b.tokens >= 1.0 && b.rate >= 0.0) || (b.rate > 0.0 && b.capacity >= 1.0)
  {
    CallerWaitExact(b, b.last);
  }

  /** An empty bucket ten seconds after its last refill: a request would be admitted, yet the answer is a second. */
  lemma StaleAnswer()
    ensures var b := Bucket(1.0, 1.0, 0.0, 0.0);
            Admits(b, 10.0) && TimeUntilToken(b) == 1.0 && CallerWait(b, 10.0) == 0.0
  {
  }

  // ---------------------------------------------------------------- the object

  class Limiter {
    const capacity: real
    const refillPerSec: real
    var tokens: real
    var lastRefill: real

    ghost function Abs(): Bucket
      reads this
    {
      Bucket(capacity, refillPerSec, tokens, lastRefill)
    }

    constructor (capacity: real, refillPerSec: real, now: real)
      ensures Abs() == Full(capacity, refillPerSec, now)
    {
      this.capacity, this.refillPerSec := capacity, refillPerSec;
      tokens, lastRefill := capacity, now;
    }

    method Refill(now: real)
      modifies this
      ensures Abs() == old(Refilled(Abs(), now))
    {
      ghost var before := Abs();
      var elapsed := if now >= lastRefill then now - lastRefill else 0.0;
      var gained := elapsed * refillPerSec;
      assert elapsed == Elapsed(before, now) && gained == Elapsed(before, now) * before.rate;
      tokens := Min(tokens + gained, capacity);
      lastRefill := now;
      assert Abs() == Refilled(before, now);
    }

    method TryAdmit(now: real) returns (admitted: bool)
      modifies this
      ensures Abs() == old(AfterTry(Abs(), now))
      ensures admitted == old(Admits(Abs(), now))
    {
      Refill(now);
      if tokens >= 1.0 {
        tokens := tokens - 1.0;
        return true;
      }
      return false;
    }

    /** Whoever waits this long since the last refill is admitted, and nobody earlier; for a caller at time `now`
        the answer is right exactly under the condition of `CallerWaitExact`. */
    method TimeUntil(ghost now: real) returns (wait: real)
      requires tokens <= capacity && now >= lastRefill
      ensures wait == TimeUntilToken(Abs()) && wait >= 0.0
      ensures refillPerSec > 0.0 && capacity >= 1.0 ==> LeastWait(Abs(), lastRefill, wait)
      ensures refillPerSec > 0.0 && capacity >= 1.0 ==> LeastWait(Abs(), now, CallerWait(Abs(), now))
      ensures LeastWait(Abs(), now, wait)
              <==> || (tokens >= 1.0 && refillPerSec >= 0.0)
                   || (refillPerSec > 0.0 && capacity >= 1.0 && now == lastRefill)
    {
      AnswerNotNegative(Abs());
      TimeUntilTokenExact(Abs());
      CallerWaitExact(Abs(), now);
      if refillPerSec > 0.0 && capacity >= 1.0 {
        AccruingWait(Abs(), now);
      }
      if tokens >= 1.0 || refillPerSec <= 0.0 {
        return 0.0;
      }
      var deficit := 1.0 - tokens;
      return deficit / refillPerSec;
    }
  }

  /** A caller that tries at each of the given times. */
  method TryAll(capacity: real, refillPerSec: real, start: real, times: seq<real>) returns (answers: seq<bool>)
    ensures |answers| == |times|
    ensures forall i :: 0 <= i < |times| ==> answers[i] == AdmittedAt(Full(capacity, refillPerSec, start), times, i)
  {
    var limiter := new Limiter(capacity, refillPerSec, start);
    answers := [];
    for i := 0 to |times|
      invariant |answers| == i
      invariant limiter.Abs() == After(Full(capacity, refillPerSec, start), times[..i])
      invariant forall k :: 0 <= k < i ==> answers[k] == AdmittedAt(Full(capacity, refillPerSec, start), times, k)
    {
      AfterStep(Full(capacity, refillPerSec, start), times, i);
      var admitted := limiter.TryAdmit(times[i]);
      answers := answers + [admitted];
    }
  }
}
