/**
 The lazily refilled token bucket of the gateway: a mutable object read and
 written at each call, its update rule on values, and what whole runs of calls
 are admitted.
 */
module TokenBuckets {
  import opened Support
  import opened AdmissionWindows

  /** A snapshot of the four fields. */
  datatype Bucket = Bucket(rate: real, cap: real, tokens: real, last: real)

  function Fresh(perMinute: real, burst: real, now: real): Bucket {
    Bucket(perMinute / 60.0, burst, burst, now)
  }

  /** Tokens held when a call arrives at `now`, before it takes one. */
  function Level(b: Bucket, now: real): real {
    Min(b.cap, b.tokens + Refill(b.rate, b.last, now))
  }

  function Take(b: Bucket, now: real): (Bucket, bool) {
    var held := Level(b, now);
    if held >= 1.0 then (b.(tokens := held - 1.0, last := now), true)
    else (b.(tokens := held, last := now), false)
  }

  class TokenBucket {
    var rate: real
    var cap: real
    var tokens: real
    var last: real

    ghost function View(): Bucket
      reads this
    {
      Bucket(rate, cap, tokens, last)
    }

    constructor (perMinute: real, burst: real, now: real)
      ensures View() == Fresh(perMinute, burst, now)
    {
      rate := perMinute / 60.0;
      cap := burst;
      tokens := burst;
      last := now;
    }

    method Allow(now: real) returns (ok: bool)
      modifies this`tokens, this`last
      ensures (View(), ok) == Take(old(View()), now)
    {
      tokens := Min(cap, tokens + (now - last) * rate);
      last := now;
      if tokens >= 1.0 {
        tokens := tokens - 1.0;
        return true;
      }
      return false;
    }
  }

  /** The bucket just before call `n` of a run. */
  ghost function Before(b: Bucket, times: seq<real>, n: nat): (r: Bucket)
    requires n <= |times|
    ensures r.rate == b.rate && r.cap == b.cap
    ensures r.last == if n == 0 then b.last else times[n - 1]
  {
    if n == 0 then b else Take(Before(b, times, n - 1), times[n - 1]).0
  }

  /** What `Allow` answers at each call of a run. */
  ghost function Decisions(b: Bucket, times: seq<real>): (d: seq<bool>)
    ensures |d| == |times|
  {
    seq(|times|, n requires 0 <= n < |times| => Take(Before(b, times, n), times[n]).1)
  }

  ghost function Levels(b: Bucket, times: seq<real>): (l: seq<real>)
    ensures |l| == |times|
  {
    seq(|times|, n requires 0 <= n < |times| => Level(Before(b, times, n), times[n]))
  }

  /** A never-recreated run: no call starts from a new bucket except the first. */
  ghost function NoRenewals(n: nat): (r: seq<bool>)
    ensures |r| == n && forall i :: 0 <= i < n ==> !r[i]
  {
    seq(n, _ => false)
  }

  lemma BucketStarts(b: Bucket, times: seq<real>)
    requires b.tokens == b.cap && b.rate >= 0.0
    requires |times| > 0 && b.last <= times[0]
    ensures Levels(b, times)[0] == b.cap
  {
    RefillGrows(b.rate, b.last, times[0]);
  }

  /** The level after a call and a pause, in terms of the level before it. */
  lemma TakeThenWait(b: Bucket, now: real, later: real)
    ensures Level(Take(b, now).0, later) ==
            Min(b.cap, Level(b, now) - (if Take(b, now).1 then 1.0 else 0.0) + Refill(b.rate, now, later))
  {
    var after := Take(b, now).0;
    assert after.tokens == Level(b, now) - (if Take(b, now).1 then 1.0 else 0.0);
  }

  lemma BucketStep(b: Bucket, times: seq<real>, n: nat)
    requires 0 < n < |times|
    ensures Levels(b, times)[n] == Min(b.cap, Levels(b, times)[n - 1]
              - (if Decisions(b, times)[n - 1] then 1.0 else 0.0) + Refill(b.rate, times[n - 1], times[n]))
  {
    var earlier := Before(b, times, n - 1);
    var held := Levels(b, times)[n - 1];
    var taken := Decisions(b, times)[n - 1];
    TakeThenWait(earlier, times[n - 1], times[n]);
    assert held == Level(earlier, times[n - 1]) && taken == Take(earlier, times[n - 1]).1;
    assert Levels(b, times)[n] == Level(Take(earlier, times[n - 1]).0, times[n]);
  }

  lemma BucketRuns(b: Bucket, times: seq<real>)
    requires b.tokens == b.cap && b.rate >= 0.0
    requires Chronological([b.last] + times)
    ensures Runs(b.cap, b.rate, times, NoRenewals(|times|), Decisions(b, times), Levels(b, times))
  {
    var all := [b.last] + times;
    forall i, j | 0 <= i <= j < |times|
      ensures times[i] <= times[j]
    {
      assert all[i + 1] <= all[j + 1];
    }
    if |times| > 0 {
      assert all[0] <= all[1];
      BucketStarts(b, times);
    }
    forall n | 0 < n < |times| {
      BucketStep(b, times, n);
    }
  }

  /**
   Exactness: from a new bucket, call `n` is admitted iff, for every call `k` up to
   and including `n`, the admissions in `k .. n - 1` plus one fit into
   `cap + rate * (t_n - t_k)`.
   */
  lemma AllowIffEveryWindowFits(b: Bucket, times: seq<real>, n: nat)
    requires b.tokens == b.cap && b.rate >= 0.0
    requires Chronological([b.last] + times) && n < |times|
    ensures Decisions(b, times)[n] <==> FitsEveryWindow(b.cap, b.rate, times, Decisions(b, times), 0, n)
  {
    BucketRuns(b, times);
    EpochZero(|times|, n);
    HoldsTokenIffFits(b.cap, b.rate, times, NoRenewals(|times|), Decisions(b, times), Levels(b, times), n);
  }

  lemma {:induction false} EpochZero(length: nat, n: nat)
    requires n < length
    ensures Epoch(NoRenewals(length), n) == 0
  {
    if n > 0 { EpochZero(length, n - 1); }
  }

  /** Any admission plan that respects every window admits no more in any prefix. */
  lemma BucketIsPrefixOptimal(b: Bucket, times: seq<real>, other: seq<bool>, n: nat)
    requires b.tokens == b.cap && b.rate >= 0.0
    requires Chronological([b.last] + times) && n <= |times| == |other|
    requires forall m :: 0 <= m < |times| && other[m] ==> FitsEveryWindow(b.cap, b.rate, times, other, 0, m)
    ensures Count(other, 0, n) <= Count(Decisions(b, times), 0, n)
  {
    forall m | 0 <= m < |times|
      ensures Decisions(b, times)[m] <==> FitsEveryWindow(b.cap, b.rate, times, Decisions(b, times), 0, m)
    {
      AllowIffEveryWindowFits(b, times, m);
    }
    GreedyIsPrefixOptimal(b.cap, b.rate, times, Decisions(b, times), other, n);
  }
}
