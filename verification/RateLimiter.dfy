/** The fixed-window limiter of internal/federation/ratelimit.go. Instants are
    integers and 0 is the zero instant, which the code uses for "no bucket". A call
    reads the clock before it takes the mutex, so concurrent calls can enter in
    another order than that of their readings. */
module RateLimiter {
  import opened Sums
  import opened Wrappers

  datatype Bucket = Bucket(started: int, count: int)

  function BucketOf(buckets: map<string, Bucket>, key: string): Bucket {
    if key in buckets then buckets[key] else Bucket(0, 0)
  }

  /** The bucket a call falls into. */
  function Current(b: Bucket, now: int, window: int): Bucket {
    if b.started == 0 || now - b.started >= window then Bucket(now, 0) else b
  }

  class PeerRateLimiter {
    const limit: int
    const window: int
    var buckets: map<string, Bucket>

    constructor (limit: int, window: int)
      ensures this.limit == limit && this.window == window && buckets == map[]
    {
      this.limit, this.window, buckets := limit, window, map[];
    }

    /** The locked part of Allow; `now` was read before. */
    method Allow(key: string, now: int) returns (ok: bool)
      modifies this
      ensures (ok, buckets) == AllowStep(limit, window, old(buckets), key, now)
      ensures !ok <==>
        && limit > 0 && window > 0 && key in old(buckets)
        && old(buckets)[key].started != 0 && now < old(buckets)[key].started + window
        && old(buckets)[key].count >= limit
      ensures !ok ==> buckets == old(buckets)
      ensures buckets - {key} == old(buckets) - {key}
    {
      if limit <= 0 || window <= 0 { return true; }
      var bucket := if key in buckets then buckets[key] else Bucket(0, 0);
      if bucket.started == 0 || now - bucket.started >= window { bucket := Bucket(now, 0); }
      if bucket.count >= limit { return false; }
      bucket := bucket.(count := bucket.count + 1);
      buckets := buckets[key := bucket];
      return true;
    }
  }

  function AllowStep(limit: int, window: int, buckets: map<string, Bucket>, key: string, now: int):
    (bool, map<string, Bucket>)
  {
    if limit <= 0 || window <= 0 then (true, buckets) else
      var b := Current(BucketOf(buckets, key), now, window);
      if b.count >= limit then (false, buckets) else (true, buckets[key := b.(count := b.count + 1)])
  }

  // --- Runs -------------------------------------------------------------------

  datatype Call = Call(key: string, at: int)

  /** Readings in the order in which the calls entered: none is the zero instant, and
      none is more than `late` older than one that entered before it. */
  ghost predicate ReadingsWithin(calls: seq<Call>, late: int) {
    && (forall i :: 0 <= i < |calls| ==> calls[i].at != 0)
    && forall i, j :: 0 <= i < j < |calls| ==> calls[i].at <= calls[j].at + late
  }

  /** Calls that enter in the order of their readings. */
  ghost predicate ClockRuns(calls: seq<Call>) { ReadingsWithin(calls, 0) }

  function BucketsAfter(limit: int, window: int, calls: seq<Call>): map<string, Bucket>
  {
    if calls == [] then map[] else
      var last := calls[|calls| - 1];
      AllowStep(limit, window, BucketsAfter(limit, window, calls[..|calls| - 1]), last.key, last.at).1
  }

  predicate Allowed(limit: int, window: int, calls: seq<Call>, i: nat)
    requires i < |calls|
  {
    AllowStep(limit, window, BucketsAfter(limit, window, calls[..i]), calls[i].key, calls[i].at).0
  }

  /** Calls of a key allowed at an instant in [from, to). */
  function AllowedIn(limit: int, window: int, calls: seq<Call>, key: string, from: int, to: int): nat
  {
    if calls == [] then 0 else
      var n := |calls| - 1;
      AllowedIn(limit, window, calls[..n], key, from, to) +
      if calls[n].key == key && from <= calls[n].at < to && Allowed(limit, window, calls, n) then 1 else 0
  }

  method Replay(limiter: PeerRateLimiter, calls: seq<Call>) returns (allowed: seq<bool>)
    requires limiter.buckets == map[]
    modifies limiter
    ensures |allowed| == |calls|
    ensures forall i :: 0 <= i < |calls| ==> allowed[i] == Allowed(limiter.limit, limiter.window, calls, i)
    ensures limiter.buckets == BucketsAfter(limiter.limit, limiter.window, calls)
  {
    hide AllowStep;
    allowed := [];
    for i := 0 to |calls|
      invariant |allowed| == i
      invariant limiter.buckets == BucketsAfter(limiter.limit, limiter.window, calls[..i])
      invariant forall j :: 0 <= j < i ==> allowed[j] == Allowed(limiter.limit, limiter.window, calls, j)
    {
      var ok := limiter.Allow(calls[i].key, calls[i].at);
      assert calls[..i + 1][..i] == calls[..i] && calls[..i + 1][i] == calls[i];
      allowed := allowed + [ok];
    }
    assert calls[..|calls|] == calls;
  }

  // --- Bounds -------------------------------------------------------------------

  /** Starts of buckets lie a window apart. This many of them can lie after f - window
      and up to s, f - window being too early to hold a reading of f. */
  function Slots(window: int, f: int, s: int): int
    requires window > 0
  {
    if s <= f - window then 0 else (s - f + window - 1) / window + 1
  }

  /** What a key's bucket says of its allowed calls in an interval: every bucket so far
      took limit - 1 of them beside its first call, and one of the first calls. */
  ghost predicate Fits(limit: int, window: int, calls: seq<Call>, key: string, b: Bucket, f: int, t: int)
    requires window > 0
  {
    var n := AllowedIn(limit, window, calls, key, f, t);
    if b.started <= f - window then n == 0
    else n <= (if b.started >= f then 1 else 0) + (Slots(window, f, b.started) - 1) * (limit - 1) + b.count - 1
  }

  /** A key's bucket, in terms of the past of the run: it started at a reading, counts
      the calls with later readings, and none has a reading after its window. */
  ghost predicate Invariant(limit: int, window: int, calls: seq<Call>, key: string, b: Bucket)
    requires window > 0
  {
    && 0 <= b.count <= limit
    && (b.started == 0 ==> forall f, t :: AllowedIn(limit, window, calls, key, f, t) == 0)
    && (b.started != 0 ==>
         && b.count > 0 && (exists i :: 0 <= i < |calls| && calls[i].at == b.started)
         && (forall t :: AllowedIn(limit, window, calls, key, b.started, t) <= b.count)
         && (forall f, t :: b.started + window <= f ==> AllowedIn(limit, window, calls, key, f, t) == 0)
         && forall f, t :: t <= f + window ==> Fits(limit, window, calls, key, b, f, t))
  }

  /** A call that is allowed with reading `now` for the key adds one to every interval
      around it. */
  ghost predicate Adds(limit: int, window: int, past: seq<Call>, calls: seq<Call>, key: string, now: int) {
    forall f, t :: AllowedIn(limit, window, calls, key, f, t) ==
      AllowedIn(limit, window, past, key, f, t) + (if f <= now < t then 1 else 0)
  }

  lemma MulMonotone(x: int, y: int, k: int)
    requires x <= y && 0 <= k
    ensures x * k <= y * k
  {
  }

  lemma Quotient(x: int, w: int, q: int)
    requires w > 0 && q * w <= x < q * w + w
    ensures x / w == q
  {
    var r := x / w;
    assert r * w <= x < r * w + w;
    assert (r + 1) * w == r * w + w && (q + 1) * w == q * w + w;
    CancelMul(r, q + 1, w);
    CancelMul(q, r + 1, w);
  }

  lemma CancelMul(x: int, y: int, k: int)
    requires 0 < k && x * k < y * k
    ensures x < y
  {
    if y <= x { MulMonotone(y, x, k); }
  }

  lemma QuotientStep(x: int, w: int)
    requires w > 0
    ensures (x + w) / w == x / w + 1
  {
    var q := x / w;
    assert q * w <= x < q * w + w && (q + 1) * w == q * w + w;
    Quotient(x + w, w, q + 1);
  }

  lemma QuotientMonotone(x: int, y: int, w: int)
    requires w > 0 && x <= y
    ensures x / w <= y / w
  {
    var q, r := x / w, y / w;
    assert q * w <= x && y < r * w + w && (r + 1) * w == r * w + w;
    CancelMul(q, r + 1, w);
  }

  lemma NextSlot(window: int, f: int, s: int, now: int)
    requires window > 0 && f - window < s && s + window <= now
    ensures Slots(window, f, s) + 1 <= Slots(window, f, now)
  {
    QuotientStep(s - f + window - 1, window);
    QuotientMonotone(s - f + window - 1 + window, now - f + window - 1, window);
  }

  lemma SlotsCount(window: int, f: int, s: int)
    requires window > 0
    ensures if s <= f - window then Slots(window, f, s) == 0 else Slots(window, f, s) >= 1
  {
    if s > f - window {
      Quotient(0, window, 0);
      QuotientMonotone(0, s - f + window - 1, window);
    }
  }

  lemma FreshFits(limit: int, window: int, past: seq<Call>, calls: seq<Call>, key: string, b: Bucket,
                  now: int, f: int, t: int)
    requires limit > 0 && window > 0 && now != 0 && t <= f + window
    requires Invariant(limit, window, past, key, b) && Adds(limit, window, past, calls, key, now)
    requires b.started == 0 || now - b.started >= window
    ensures Fits(limit, window, calls, key, Bucket(now, 1), f, t)
  {
    hide AllowedIn, Slots;
    var n := AllowedIn(limit, window, past, key, f, t);
    SlotsCount(window, f, now);
    assert AllowedIn(limit, window, calls, key, f, t) == n + if f <= now < t then 1 else 0;
    if now > f - window {
      var slots := Slots(window, f, now);
      MulMonotone(0, slots - 1, limit - 1);
      if b.started != 0 && b.started > f - window {
        assert Fits(limit, window, past, key, b, f, t);
        NextSlot(window, f, b.started, now);
        var before := Slots(window, f, b.started);
        MulMonotone(before, slots - 1, limit - 1);
        assert before * (limit - 1) == (before - 1) * (limit - 1) + (limit - 1);
      } else if b.started != 0 {
        assert Fits(limit, window, past, key, b, f, t);
      }
    } else if b.started != 0 {
      assert Fits(limit, window, past, key, b, f, t);
    }
  }

  lemma StepKeeps(limit: int, window: int, past: seq<Call>, calls: seq<Call>, key: string, b: Bucket,
                  b': Bucket, now: int)
    requires limit > 0 && window > 0 && now != 0
    requires Invariant(limit, window, past, key, b) && Adds(limit, window, past, calls, key, now)
    requires past <= calls && |calls| == |past| + 1 && calls[|past|].at == now
    requires Current(b, now, window).count < limit
    requires b' == Bucket(Current(b, now, window).started, Current(b, now, window).count + 1)
    ensures Invariant(limit, window, calls, key, b')
  {
    hide AllowedIn, Slots;
    if b.started == 0 || now - b.started >= window {
      assert calls[|past|].at == b'.started;
      forall f, t | t <= f + window ensures Fits(limit, window, calls, key, b', f, t) {
        FreshFits(limit, window, past, calls, key, b, now, f, t);
      }
    } else {
      var i :| 0 <= i < |past| && past[i].at == b.started;
      assert calls[i].at == b'.started;
      forall f, t | t <= f + window ensures Fits(limit, window, calls, key, b', f, t) {
        assert Fits(limit, window, past, key, b, f, t);
      }
    }
  }

  /** The invariant holds after every run, in whatever order the readings enter. */
  lemma {:induction false} InvariantHolds(limit: int, window: int, calls: seq<Call>, key: string)
    requires limit > 0 && window > 0 && forall i :: 0 <= i < |calls| ==> calls[i].at != 0
    ensures Invariant(limit, window, calls, key, BucketOf(BucketsAfter(limit, window, calls), key))
  {
    if calls != [] {
      var n := |calls| - 1;
      var past, now := calls[..n], calls[n].at;
      InvariantHolds(limit, window, past, key);
      var b := BucketOf(BucketsAfter(limit, window, past), key);
      var b' := BucketOf(BucketsAfter(limit, window, calls), key);
      if calls[n].key == key && Allowed(limit, window, calls, n) {
        assert Adds(limit, window, past, calls, key, now);
        StepKeeps(limit, window, past, calls, key, b, b', now);
      } else {
        assert b' == b;
        assert forall f, t :: AllowedIn(limit, window, calls, key, f, t) == AllowedIn(limit, window, past, key, f, t);
        StepIdle(limit, window, past, calls, key, b);
      }
    }
  }

  lemma StepIdle(limit: int, window: int, past: seq<Call>, calls: seq<Call>, key: string, b: Bucket)
    requires window > 0 && Invariant(limit, window, past, key, b) && past <= calls
    requires forall f, t :: AllowedIn(limit, window, calls, key, f, t) == AllowedIn(limit, window, past, key, f, t)
    ensures Invariant(limit, window, calls, key, b)
  {
    hide AllowedIn, Slots;
    if b.started != 0 {
      var i :| 0 <= i < |past| && past[i].at == b.started;
      assert calls[i].at == b.started;
      forall f, t | t <= f + window ensures Fits(limit, window, calls, key, b, f, t) {
        assert Fits(limit, window, past, key, b, f, t);
      }
    }
  }

  /** The buckets that can hold readings of one interval of window length. */
  function Reach(window: int, late: int): int
    requires window > 0 && late >= 0
  {
    (2 * window - 2 + late) / window + 1
  }

  lemma ReachBounds(window: int, late: int, f: int, s: int)
    requires window > 0 && late >= 0 && s <= f + window - 1 + late
    ensures 0 <= Slots(window, f, s) <= Reach(window, late)
  {
    Quotient(0, window, 0);
    QuotientMonotone(0, 2 * window - 2 + late, window);
    if s > f - window {
      QuotientMonotone(0, s - f + window - 1, window);
      QuotientMonotone(s - f + window - 1, 2 * window - 2 + late, window);
    }
  }

  /** When no reading enters more than `late` behind a newer one, an interval of window
      length holds at most limit - 1 allowed calls for every bucket within reach,
      and one more. */
  lemma {:induction false} LateBound(limit: int, window: int, late: int, calls: seq<Call>, key: string, f: int)
    requires limit > 0 && window > 0 && late >= 0 && ReadingsWithin(calls, late)
    ensures AllowedIn(limit, window, calls, key, f, f + window) <= 1 + Reach(window, late) * (limit - 1)
  {
    ReachBounds(window, late, f, f);
    MulMonotone(0, Reach(window, late), limit - 1);
    if calls != [] {
      var n := |calls| - 1;
      var past, now := calls[..n], calls[n].at;
      LateBound(limit, window, late, past, key, f);
      if calls[n].key == key && Allowed(limit, window, calls, n) && f <= now < f + window {
        InvariantHolds(limit, window, calls, key);
        var b := BucketOf(BucketsAfter(limit, window, calls), key);
        LastFits(limit, window, late, calls, key, b, f);
      }
    }
  }

  lemma LastFits(limit: int, window: int, late: int, calls: seq<Call>, key: string, b: Bucket, f: int)
    requires limit > 0 && window > 0 && late >= 0 && ReadingsWithin(calls, late) && calls != []
    requires Invariant(limit, window, calls, key, b) && calls[|calls| - 1].at < f + window
    ensures AllowedIn(limit, window, calls, key, f, f + window) <= 1 + Reach(window, late) * (limit - 1)
  {
    hide AllowedIn, Slots, Reach;
    ReachBounds(window, late, f, f);
    MulMonotone(0, Reach(window, late), limit - 1);
    if b.started != 0 {
      var i :| 0 <= i < |calls| && calls[i].at == b.started;
      assert b.started <= calls[|calls| - 1].at + late;
      ReachBounds(window, late, f, b.started);
      assert Fits(limit, window, calls, key, b, f, f + window);
      var slots := Slots(window, f, b.started);
      MulMonotone(slots, Reach(window, late), limit - 1);
      assert slots * (limit - 1) == (slots - 1) * (limit - 1) + (limit - 1);
    }
  }

  /** When calls enter in the order of their readings, at most 2 * limit - 1 calls of a
      key are allowed in any half-open interval of window length; in whatever order,
      at most limit in the bucket that is open at the end. */
  lemma WindowBound(limit: int, window: int, calls: seq<Call>, key: string, f: int)
    requires limit > 0 && window > 0 && ClockRuns(calls)
    ensures AllowedIn(limit, window, calls, key, f, f + window) <= 2 * limit - 1
    ensures var b := BucketOf(BucketsAfter(limit, window, calls), key);
      b.started != 0 ==> forall t :: AllowedIn(limit, window, calls, key, b.started, t) <= limit
  {
    hide AllowedIn, BucketsAfter;
    InvariantHolds(limit, window, calls, key);
    LateBound(limit, window, 0, calls, key, f);
    ReachOfNone(window);
    MulMonotone(Reach(window, 0), 2, limit - 1);
  }

  lemma ReachOfNone(window: int)
    requires window > 0
    ensures Reach(window, 0) == if window == 1 then 1 else 2
  {
    Quotient(2 * window - 2, window, if window == 1 then 0 else 1);
  }

  /** A window of one instant fits one bucket only. */
  lemma OneInstant(limit: int, calls: seq<Call>, key: string, f: int)
    requires limit > 0 && ClockRuns(calls)
    ensures AllowedIn(limit, 1, calls, key, f, f + 1) <= limit
  {
    LateBound(limit, 1, 0, calls, key, f);
  }

  /** The first call of a fresh bucket is always allowed, and so is every call
      when the limiter is switched off. */
  lemma FreshBucketAllows(limit: int, window: int, buckets: map<string, Bucket>, key: string, now: int)
    ensures limit <= 0 || window <= 0 ==> AllowStep(limit, window, buckets, key, now) == (true, buckets)
    ensures var b := BucketOf(buckets, key);
      b.started == 0 || now - b.started >= window ==> AllowStep(limit, window, buckets, key, now).0
  {
  }

  /** n calls at one instant. */
  function Burst(at: int, n: nat): seq<Call> { seq(n, _ => Call("k", at)) }

  /** The j-th bucket within reach of [f, f + window), and the reading of the interval
      nearest to its start. */
  function StartOf(window: int, f: int, j: nat): int { f - window + 1 + j * window }

  function Nearest(window: int, f: int, s: int): int { Max(f, Min(s, f + window - 1)) }

  /** Every bucket is opened at its start and filled with readings of the interval. */
  function Filled(limit: int, window: int, f: int, j: nat): seq<Call>
    requires limit > 0
  {
    if j == 0 then [] else
      var s := StartOf(window, f, j - 1);
      Filled(limit, window, f, j - 1) + Burst(s, 1) + Burst(Nearest(window, f, s), limit - 1)
  }

  /** A burst that its bucket has room for is allowed in full. */
  lemma {:induction false} BurstAllowed(limit: int, window: int, past: seq<Call>, at: int, n: nat, f: int, t: int)
    requires limit > 0 && window > 0 && at != 0
    requires Current(BucketOf(BucketsAfter(limit, window, past), "k"), at, window).count + n <= limit
    ensures AllowedIn(limit, window, past + Burst(at, n), "k", f, t) ==
      AllowedIn(limit, window, past, "k", f, t) + if f <= at < t then n else 0
    ensures var b := Current(BucketOf(BucketsAfter(limit, window, past), "k"), at, window);
      n > 0 ==> BucketOf(BucketsAfter(limit, window, past + Burst(at, n)), "k") == Bucket(b.started, b.count + n)
  {
    if n == 0 {
      assert past + Burst(at, n) == past;
    } else {
      hide BucketsAfter, AllowedIn;
      var front := past + Burst(at, n - 1);
      assert past + Burst(at, n) == front + [Call("k", at)];
      BurstAllowed(limit, window, past, at, n - 1, f, t);
      if n == 1 { assert front == past; }
      OneMore(limit, window, front, at, f, t);
    }
  }

  lemma OneMore(limit: int, window: int, past: seq<Call>, at: int, f: int, t: int)
    requires limit > 0 && window > 0
    ensures var b, all := Current(BucketOf(BucketsAfter(limit, window, past), "k"), at, window), past + [Call("k", at)];
      b.count < limit ==>
        && BucketOf(BucketsAfter(limit, window, all), "k") == Bucket(b.started, b.count + 1)
        && AllowedIn(limit, window, all, "k", f, t) ==
          AllowedIn(limit, window, past, "k", f, t) + if f <= at < t then 1 else 0
  {
    var all := past + [Call("k", at)];
    assert all[..|past|] == past && all[|past|] == Call("k", at);
  }

  lemma NoCalls(limit: int, window: int)
    ensures BucketsAfter(limit, window, []) == map[] && forall key, f, t :: AllowedIn(limit, window, [], key, f, t) == 0
  {
  }

  /** Of the first j buckets one starts within the interval once j is large enough. */
  lemma {:induction false} FilledCount(limit: int, window: int, f: int, j: nat)
    requires limit > 0 && window > 0 && f > window
    ensures AllowedIn(limit, window, Filled(limit, window, f, j), "k", f, f + window) ==
      j * (limit - 1) + if j > (if window == 1 then 0 else 1) then 1 else 0
    ensures j > 0 ==>
      BucketOf(BucketsAfter(limit, window, Filled(limit, window, f, j)), "k") ==
        Bucket(StartOf(window, f, j - 1), limit)
  {
    hide AllowedIn, BucketsAfter;
    NoCalls(limit, window);
    if j > 0 {
      var past, s := Filled(limit, window, f, j - 1), StartOf(window, f, j - 1);
      FilledCount(limit, window, f, j - 1);
      StartFacts(window, f, j - 1);
      BurstAllowed(limit, window, past, s, 1, f, f + window);
      var begun := past + Burst(s, 1);
      BurstAllowed(limit, window, begun, Nearest(window, f, s), limit - 1, f, f + window);
      if limit == 1 { assert begun + Burst(Nearest(window, f, s), limit - 1) == begun; }
      OneMoreTime(j, limit - 1);
    }
  }

  lemma OneMoreTime(x: int, k: int)
    ensures x * k == (x - 1) * k + k
  {
  }

  lemma StartFacts(window: int, f: int, j: nat)
    requires window > 0 && f > window
    ensures var s := StartOf(window, f, j);
      && s > 0 && (j > 0 ==> s == StartOf(window, f, j - 1) + window)
      && (f <= s < f + window <==> j == if window == 1 then 0 else 1)
      && Nearest(window, f, s) < s + window && Nearest(window, f, s) < StartOf(window, f, j + 1)
  {
    assert (j + 1) * window == j * window + window;
    if j == 0 {
      assert j * window == 0;
    } else if j == 1 {
      assert j * window == window && (j - 1) * window == 0;
      assert StartOf(window, f, j) == f + 1;
    } else {
      assert j * window == (j - 1) * window + window;
      MulMonotone(2, j, window);
      assert StartOf(window, f, j) >= f + window + 1;
    }
  }

  /** No reading of the run enters more than `late` behind a newer one. */
  lemma {:induction false} FilledWithin(limit: int, window: int, late: int, f: int, j: nat)
    requires limit > 0 && window > 0 && late >= 0 && f > window && j <= Reach(window, late)
    ensures ReadingsWithin(Filled(limit, window, f, j), late)
    ensures forall i :: 0 <= i < |Filled(limit, window, f, j)| ==>
      Filled(limit, window, f, j)[i].at < StartOf(window, f, j)
  {
    if j > 0 {
      var past, s := Filled(limit, window, f, j - 1), StartOf(window, f, j - 1);
      FilledWithin(limit, window, late, f, j - 1);
      StartFacts(window, f, j - 1);
      StartFacts(window, f, j);
      StartWithin(window, late, f, j - 1);
      var calls := past + Burst(s, 1) + Burst(Nearest(window, f, s), limit - 1);
      forall i | 0 <= i < |calls|
        ensures calls[i] ==
          if i < |past| then past[i] else Call("k", if i == |past| then s else Nearest(window, f, s))
      { }
      forall i, k | 0 <= i < k < |calls| ensures calls[i].at <= calls[k].at + late {
        assert i < |past| ==> past[i].at < s;
        assert k < |past| ==> past[i].at <= past[k].at + late;
      }
    }
  }

  lemma StartWithin(window: int, late: int, f: int, j: nat)
    requires window > 0 && late >= 0 && j < Reach(window, late)
    ensures StartOf(window, f, j) <= f + window - 1 + late
    ensures StartOf(window, f, j) <= Nearest(window, f, StartOf(window, f, j)) + late
  {
    MulMonotone(j, (2 * window - 2 + late) / window, window);
  }

  /** The bound is reached for every limit, window and lateness. */
  lemma LateBoundIsReached(limit: int, window: int, late: int, f: int) returns (calls: seq<Call>)
    requires limit > 0 && window > 0 && late >= 0 && f > window
    ensures ReadingsWithin(calls, late)
    ensures AllowedIn(limit, window, calls, "k", f, f + window) == 1 + Reach(window, late) * (limit - 1)
  {
    ReachBounds(window, late, f, f);
    var reach := Reach(window, late);
    calls := Filled(limit, window, f, reach);
    FilledWithin(limit, window, late, f, reach);
    FilledCount(limit, window, f, reach);
    hide AllowedIn, Filled, ReadingsWithin;
    Quotient(0, window, 0);
    QuotientMonotone(0, 2 * window - 2 + late, window);
    if window > 1 {
      Quotient(window, window, 1);
      QuotientMonotone(window, 2 * window - 2 + late, window);
    }
  }

  /** In order, every limiter whose window has two instants reaches 2 * limit - 1. */
  lemma BoundIsReached(limit: int, window: int) returns (calls: seq<Call>)
    requires limit > 0 && window > 1
    ensures ClockRuns(calls) && AllowedIn(limit, window, calls, "k", 2 * window, 3 * window) == 2 * limit - 1
  {
    calls := LateBoundIsReached(limit, window, 0, 2 * window);
    ReachOfNone(window);
  }

  /** If calls may enter any time after they read the clock, an interval of window
      length can hold any number of allowed calls as soon as the limit is two. */
  lemma NoBoundWhenUnordered(limit: int, window: int, n: nat) returns (calls: seq<Call>)
    requires limit > 1 && window > 0
    ensures forall i :: 0 <= i < |calls| ==> calls[i].at != 0
    ensures AllowedIn(limit, window, calls, "k", 2 * window, 3 * window) > n
  {
    calls := LateBoundIsReached(limit, window, n * window, 2 * window);
    Quotient(n * window, window, n);
    QuotientMonotone(n * window, 2 * window - 2 + n * window, window);
    MulMonotone(1, limit - 1, Reach(window, n * window));
  }

  // --- Reading the clock and entering ------------------------------------------------

  /** A call reads the clock, and enters the critical section later on; `now` is the
      instant at which the step happens. */
  datatype Step = ReadClock(id: nat, key: string, now: int) | Enter(id: nat, now: int)

  ghost predicate ClockSteps(steps: seq<Step>) {
    && (forall k :: 0 <= k < |steps| ==> steps[k].now != 0)
    && forall j, k :: 0 <= j < k < |steps| ==> steps[j].now <= steps[k].now
  }

  /** What a call read last. */
  function ReadingOf(steps: seq<Step>, id: nat): Option<Call>
  {
    if steps == [] then None else
      var last := steps[|steps| - 1];
      if last.ReadClock? && last.id == id then Some(Call(last.key, last.now)) else ReadingOf(steps[..|steps| - 1], id)
  }

  /** The calls in the order in which they enter, with their readings. */
  function Entered(steps: seq<Step>): seq<Call>
  {
    if steps == [] then [] else
      var front, last := steps[..|steps| - 1], steps[|steps| - 1];
      Entered(front) +
        if last.Enter? && ReadingOf(front, last.id).Some? then [ReadingOf(front, last.id).value] else []
  }

  /** No call waits longer than `late` between its reading and its entry. */
  ghost predicate WaitsAtMost(steps: seq<Step>, late: int) {
    forall k :: 0 <= k < |steps| && steps[k].Enter? && ReadingOf(steps[..k], steps[k].id).Some? ==>
      steps[k].now - ReadingOf(steps[..k], steps[k].id).value.at <= late
  }

  lemma {:induction false} ReadingIsPast(steps: seq<Step>, id: nat)
    requires ClockSteps(steps) && ReadingOf(steps, id).Some?
    ensures steps != [] && ReadingOf(steps, id).value.at <= steps[|steps| - 1].now && ReadingOf(steps, id).value.at != 0
  {
    var last := steps[|steps| - 1];
    if !(last.ReadClock? && last.id == id) { ReadingIsPast(steps[..|steps| - 1], id); }
  }

  /** With a clock that never goes back, the time calls wait bounds how far readings
      enter out of order. */
  lemma {:induction false} EnteredWithin(steps: seq<Step>, late: int)
    requires ClockSteps(steps) && WaitsAtMost(steps, late)
    ensures ReadingsWithin(Entered(steps), late)
    ensures forall i :: 0 <= i < |Entered(steps)| ==> steps != [] && Entered(steps)[i].at <= steps[|steps| - 1].now
  {
    if steps != [] {
      var front, last := steps[..|steps| - 1], steps[|steps| - 1];
      forall k | 0 <= k < |front| ensures front[..k] == steps[..k] && front[k] == steps[k] { }
      EnteredWithin(front, late);
      if last.Enter? && ReadingOf(front, last.id).Some? { ReadingIsPast(front, last.id); }
    }
  }

  /** The sliding bound of a limiter whose calls wait at most `late` for the mutex. */
  lemma ConcurrentBound(limit: int, window: int, late: int, steps: seq<Step>, key: string, f: int)
    requires limit > 0 && window > 0 && late >= 0 && ClockSteps(steps) && WaitsAtMost(steps, late)
    ensures AllowedIn(limit, window, Entered(steps), key, f, f + window) <= 1 + Reach(window, late) * (limit - 1)
  {
    EnteredWithin(steps, late);
    LateBound(limit, window, late, Entered(steps), key, f);
  }
}
