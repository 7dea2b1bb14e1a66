/**
 A map of token buckets keyed by client, crudely cleared when it grows past 1000
 keys. The same store backs authenticated clients and failed authentication.
 */
module BucketStores {
  import opened Support
  import opened AdmissionWindows
  import opened TokenBuckets

  const PRUNE_ABOVE: nat := 1000

  type Store = map<string, Bucket>

  /** The parameters every bucket of one store is created with. */
  datatype Quota = Quota(perMinute: real, burst: real) {
    function Rate(): real { perMinute / 60.0 }
  }

  /** One step of the surrounding run: the store is asked for `key`, or left alone. */
  datatype Ask = Ask(active: bool, key: string, now: real)

  predicate Clears(store: Store, key: string) {
    key !in store && |store| > PRUNE_ABOVE
  }

  /** The store once it is known to hold a bucket for `key`. */
  function Entered(q: Quota, store: Store, key: string, now: real): (r: Store)
    ensures key in r
  {
    if key in store then store
    else (if Clears(store, key) then map[] else store)[key := Fresh(q.perMinute, q.burst, now)]
  }

  /** Look up or create the bucket of `key`, then take a token from it. */
  function Charge(q: Quota, store: Store, key: string, now: real): (Store, bool) {
    var entered := Entered(q, store, key, now);
    var (bucket, ok) := Take(entered[key], now);
    (entered[key := bucket], ok)
  }

  ghost function Before(q: Quota, asks: seq<Ask>, n: nat): Store
    requires n <= |asks|
  {
    if n == 0 then map[]
    else
      var store := Before(q, asks, n - 1);
      var a := asks[n - 1];
      if a.active then Charge(q, store, a.key, a.now).0 else store
  }

  ghost function Times(asks: seq<Ask>): (t: seq<real>)
    ensures |t| == |asks|
  {
    seq(|asks|, n requires 0 <= n < |asks| => asks[n].now)
  }

  ghost predicate Admits(q: Quota, asks: seq<Ask>, n: nat)
    requires n < |asks|
  {
    asks[n].active && Charge(q, Before(q, asks, n), asks[n].key, asks[n].now).1
  }

  ghost predicate Inserts(q: Quota, asks: seq<Ask>, n: nat)
    requires n < |asks|
  {
    asks[n].active && asks[n].key !in Before(q, asks, n)
  }

  ghost predicate Prunes(q: Quota, asks: seq<Ask>, n: nat)
    requires n < |asks|
  {
    asks[n].active && Clears(Before(q, asks, n), asks[n].key)
  }

  /** The calls of `key` that took a token. */
  ghost function Admissions(q: Quota, asks: seq<Ask>, key: string): (s: seq<bool>)
    ensures |s| == |asks|
  {
    seq(|asks|, n requires 0 <= n < |asks| => asks[n].key == key && Admits(q, asks, n))
  }

  ghost function Insertions(q: Quota, asks: seq<Ask>): (s: seq<bool>)
    ensures |s| == |asks|
  {
    seq(|asks|, n requires 0 <= n < |asks| => Inserts(q, asks, n))
  }

  ghost function Prunings(q: Quota, asks: seq<Ask>): (s: seq<bool>)
    ensures |s| == |asks|
  {
    seq(|asks|, n requires 0 <= n < |asks| => Prunes(q, asks, n))
  }

  /** What `key` could draw on at call `n`, once a pruning at that call has happened. */
  ghost function Held(q: Quota, asks: seq<Ask>, key: string, n: nat): real
    requires n < |asks|
  {
    var store := Before(q, asks, n);
    if key in store && !Prunes(q, asks, n) then Level(store[key], asks[n].now) else q.burst
  }

  ghost function Holdings(q: Quota, asks: seq<Ask>, key: string): (l: seq<real>)
    ensures |l| == |asks|
  {
    seq(|asks|, n requires 0 <= n < |asks| => Held(q, asks, key, n))
  }

  /** Every stored bucket carries the store's quota and was last used in the past. */
  ghost predicate Uniform(q: Quota, store: Store, now: real) {
    forall key :: key in store ==>
      store[key].rate == q.Rate() && store[key].cap == q.burst && store[key].last <= now
  }

  lemma {:induction false} BeforeIsUniform(q: Quota, asks: seq<Ask>, n: nat, now: real)
    requires n <= |asks| && Chronological(Times(asks))
    requires n > 0 ==> Times(asks)[n - 1] <= now
    ensures Uniform(q, Before(q, asks, n), now)
  {
    if n > 0 {
      var t := Times(asks);
      assert n > 1 ==> t[n - 2] <= t[n - 1];
      BeforeIsUniform(q, asks, n - 1, t[n - 1]);
    }
  }

  /** Waiting twice gains what waiting once gains. */
  lemma WaitTwice(b: Bucket, now: real, later: real)
    requires b.rate >= 0.0 && b.last <= now <= later
    ensures Level(b, later) == Min(b.cap, Level(b, now) + Refill(b.rate, now, later))
  {
    RefillAdds(b.rate, b.last, now, later);
    RefillGrows(b.rate, now, later);
  }

  lemma NewBucketIsFull(q: Quota, now: real)
    ensures Level(Fresh(q.perMinute, q.burst, now), now) == q.burst
  {
    assert Refill(q.Rate(), now, now) == 0.0;
  }

  /** An active call is admitted exactly when its key holds a token. */
  lemma AdmitsIffHolds(q: Quota, asks: seq<Ask>, n: nat)
    requires n < |asks| && asks[n].active
    ensures Admits(q, asks, n) <==> Held(q, asks, asks[n].key, n) >= 1.0
  {
    NewBucketIsFull(q, asks[n].now);
  }

  lemma HeldStep(q: Quota, asks: seq<Ask>, key: string, n: nat)
    requires 0 < n < |asks| && Chronological(Times(asks)) && q.perMinute >= 0.0
    requires !Prunes(q, asks, n)
    ensures Held(q, asks, key, n) == Min(q.burst, Held(q, asks, key, n - 1)
              - (if Admissions(q, asks, key)[n - 1] then 1.0 else 0.0)
              + Refill(q.Rate(), Times(asks)[n - 1], Times(asks)[n]))
  {
    var t := Times(asks);
    var a := asks[n - 1];
    var store := Before(q, asks, n - 1);
    assert t[n - 1] <= t[n];
    assert n > 1 ==> t[n - 2] <= t[n - 1];
    BeforeIsUniform(q, asks, n - 1, t[n - 1]);
    RefillGrows(q.Rate(), t[n - 1], t[n]);
    if a.active && a.key == key {
      NewBucketIsFull(q, a.now);
      TakeThenWait(Entered(q, store, key, a.now)[key], t[n - 1], t[n]);
    } else if key in store && !Prunes(q, asks, n - 1) {
      WaitTwice(store[key], t[n - 1], t[n]);
    }
  }

  lemma StoreRuns(q: Quota, asks: seq<Ask>, key: string)
    requires Chronological(Times(asks)) && q.perMinute >= 0.0
    ensures Runs(q.burst, q.Rate(), Times(asks), Prunings(q, asks), Admissions(q, asks, key), Holdings(q, asks, key))
  {
    forall n | 0 < n < |asks| && !Prunings(q, asks)[n] {
      HeldStep(q, asks, key, n);
    }
  }

  /**
   Exactness through pruning: a call is admitted iff it fits every window of its own
   key that opened since the store was last cleared.
   */
  lemma AdmittedIffFitsSinceClear(q: Quota, asks: seq<Ask>, n: nat)
    requires n < |asks| && asks[n].active && Chronological(Times(asks)) && q.perMinute >= 0.0
    ensures Admits(q, asks, n) <==>
            FitsEveryWindow(q.burst, q.Rate(), Times(asks), Admissions(q, asks, asks[n].key),
                            Epoch(Prunings(q, asks), n), n)
  {
    var key := asks[n].key;
    StoreRuns(q, asks, key);
    AdmitsIffHolds(q, asks, n);
    HoldsTokenIffFits(q.burst, q.Rate(), Times(asks), Prunings(q, asks), Admissions(q, asks, key),
                      Holdings(q, asks, key), n);
  }

  /** In any window, one key is admitted at most one burst per clear, plus one, plus the refill. */
  lemma KeyBound(q: Quota, asks: seq<Ask>, key: string, i: nat, n: nat)
    requires i <= n < |asks| && Chronological(Times(asks)) && q.perMinute >= 0.0 && q.burst >= 0.0
    ensures Count(Admissions(q, asks, key), i, n + 1) as real
            <= Allowance(q.burst, q.Rate(), Times(asks), Prunings(q, asks), i, n)
  {
    StoreRuns(q, asks, key);
    forall m | 0 <= m < |asks| && Admissions(q, asks, key)[m]
      ensures Holdings(q, asks, key)[m] >= 1.0
    {
      AdmitsIffHolds(q, asks, m);
    }
    WindowBound(q.burst, q.Rate(), Times(asks), Prunings(q, asks), Admissions(q, asks, key),
                Holdings(q, asks, key), i, n);
  }

  /** Charging keeps the keys, except that a new key is added to a store cleared when too large. */
  lemma ChargeKeys(q: Quota, store: Store, key: string, now: real)
    ensures |Charge(q, store, key, now).0|
            == if key in store then |store| else if |store| > PRUNE_ABOVE then 1 else |store| + 1
  {
    var entered := Entered(q, store, key, now);
    assert Charge(q, store, key, now).0.Keys == entered.Keys;
    if key !in store {
      var base: Store := if Clears(store, key) then map[] else store;
      assert entered.Keys == base.Keys + {key};
      assert |entered.Keys| == |base.Keys| + 1;
    }
  }

  /** Conservation of keys: every clear has consumed exactly 1001 insertions. */
  lemma {:induction false} KeysAreConserved(q: Quota, asks: seq<Ask>, n: nat)
    requires n <= |asks|
    ensures |Before(q, asks, n)| <= PRUNE_ABOVE + 1
    ensures Count(Insertions(q, asks), 0, n)
            == (PRUNE_ABOVE + 1) * Count(Prunings(q, asks), 0, n) + |Before(q, asks, n)|
  {
    if n > 0 {
      KeysAreConserved(q, asks, n - 1);
      ChargeKeys(q, Before(q, asks, n - 1), asks[n - 1].key, asks[n - 1].now);
    }
  }
}
