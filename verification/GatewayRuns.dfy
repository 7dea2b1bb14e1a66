/**
 What whole runs of the gateway admit, from the moment it starts.
 */
module GatewayRuns {
  import opened Support
  import opened AdmissionWindows
  import opened TokenBuckets
  import Stores = BucketStores
  import opened Gateways

  /** The gateway just before arrival `n`; it was started at `started`. */
  ghost function Before(s: Setup, started: real, run: seq<Arrival>, n: nat): State
    requires n <= |run|
  {
    if n == 0 then State(map[], map[], s.SharedBucket(started))
    else Serve(s, Before(s, started, run, n - 1), run[n - 1]).0
  }

  ghost function Reply(s: Setup, started: real, run: seq<Arrival>, n: nat): Outcome
    requires n < |run|
  {
    Serve(s, Before(s, started, run, n), run[n]).1
  }

  ghost function Times(run: seq<Arrival>): (t: seq<real>)
    ensures |t| == |run|
  {
    seq(|run|, n requires 0 <= n < |run| => run[n].now)
  }

  ghost predicate Ordered(started: real, run: seq<Arrival>) {
    Chronological([started] + Times(run))
  }

  /** Arrivals of `ip` that were charged to its own bucket, whatever the shared bucket then said. */
  ghost function ChargedTo(s: Setup, started: real, run: seq<Arrival>, ip: string): (f: seq<bool>)
    ensures |f| == |run|
  {
    seq(|run|, n requires 0 <= n < |run| =>
      run[n].ip == ip && (Reply(s, started, run, n).Forwarded? || Reply(s, started, run, n) == RateLimited(true)))
  }

  ghost function ForwardedAt(s: Setup, started: real, run: seq<Arrival>): (f: seq<bool>)
    ensures |f| == |run|
  {
    seq(|run|, n requires 0 <= n < |run| => Reply(s, started, run, n).Forwarded?)
  }

  /** Arrivals at which the client store was cleared for being too large. */
  ghost function ClearedAt(s: Setup, started: real, run: seq<Arrival>): (f: seq<bool>)
    ensures |f| == |run|
  {
    seq(|run|, n requires 0 <= n < |run| =>
      RouteOf(s.prefix, run[n]) == Authenticated && Stores.Clears(Before(s, started, run, n).clients, run[n].ip))
  }

  /** The run as one of the two stores sees it. */
  ghost function Asks(s: Setup, run: seq<Arrival>, route: Route): (a: seq<Stores.Ask>)
    ensures |a| == |run|
  {
    seq(|run|, n requires 0 <= n < |run| => Stores.Ask(RouteOf(s.prefix, run[n]) == route, run[n].ip, run[n].now))
  }

  /** The gateway is two independent stores plus one shared bucket. */
  lemma {:induction false} StoresAreIndependent(s: Setup, started: real, run: seq<Arrival>, n: nat)
    requires n <= |run|
    ensures Before(s, started, run, n).clients
            == Stores.Before(s.ClientQuota(), Asks(s, run, Authenticated), n)
    ensures Before(s, started, run, n).failures
            == Stores.Before(s.FailureQuota(), Asks(s, run, WrongPath), n)
  {
    if n > 0 { StoresAreIndependent(s, started, run, n - 1); }
  }

  lemma ClientFlagsAgree(s: Setup, started: real, run: seq<Arrival>, ip: string)
    ensures ChargedTo(s, started, run, ip) == Stores.Admissions(s.ClientQuota(), Asks(s, run, Authenticated), ip)
    ensures ClearedAt(s, started, run) == Stores.Prunings(s.ClientQuota(), Asks(s, run, Authenticated))
    ensures Times(run) == Stores.Times(Asks(s, run, Authenticated))
  {
    var asks := Asks(s, run, Authenticated);
    forall n | 0 <= n < |run|
      ensures ChargedTo(s, started, run, ip)[n] == Stores.Admissions(s.ClientQuota(), asks, ip)[n]
      ensures ClearedAt(s, started, run)[n] == Stores.Prunings(s.ClientQuota(), asks)[n]
    {
      StoresAreIndependent(s, started, run, n);
    }
  }

  lemma OrderedTimes(started: real, run: seq<Arrival>)
    requires Ordered(started, run)
    ensures Chronological(Times(run))
    ensures |run| > 0 ==> started <= Times(run)[0]
  {
    var all := [started] + Times(run);
    forall i, j | 0 <= i <= j < |run|
      ensures Times(run)[i] <= Times(run)[j]
    {
      assert all[i + 1] <= all[j + 1];
    }
    assert |run| > 0 ==> all[0] <= all[1];
  }

  ghost function SharedLevels(s: Setup, started: real, run: seq<Arrival>): (l: seq<real>)
    ensures |l| == |run|
  {
    seq(|run|, n requires 0 <= n < |run| => Level(Before(s, started, run, n).shared, run[n].now))
  }

  lemma {:induction false} SharedShape(s: Setup, started: real, run: seq<Arrival>, n: nat)
    requires n <= |run| && Ordered(started, run)
    ensures Before(s, started, run, n).shared.rate == s.SharedBucket(started).rate
    ensures Before(s, started, run, n).shared.cap == s.SharedBucket(started).cap
    ensures n < |run| ==> Before(s, started, run, n).shared.last <= run[n].now
  {
    OrderedTimes(started, run);
    var t := Times(run);
    if n > 0 {
      SharedShape(s, started, run, n - 1);
      assert n < |run| ==> t[n - 1] <= t[n];
    }
  }

  lemma SharedStep(s: Setup, started: real, run: seq<Arrival>, n: nat)
    requires 0 < n < |run| && Ordered(started, run) && s.perMinute >= 0.0
    ensures SharedLevels(s, started, run)[n] == Min(s.SharedBucket(started).cap,
              SharedLevels(s, started, run)[n - 1] - (if ForwardedAt(s, started, run)[n - 1] then 1.0 else 0.0)
              + Refill(s.SharedBucket(started).rate, Times(run)[n - 1], Times(run)[n]))
  {
    OrderedTimes(started, run);
    SharedShape(s, started, run, n - 1);
    var shared := Before(s, started, run, n - 1).shared;
    var t := Times(run);
    assert t[n - 1] <= t[n];
    SharedEffect(s, Before(s, started, run, n - 1), run[n - 1]);
    IdleOrTaken(shared, Before(s, started, run, n).shared, ForwardedAt(s, started, run)[n - 1], t[n - 1], t[n]);
    assert shared.rate == s.SharedBucket(started).rate && shared.cap == s.SharedBucket(started).cap;
  }

  /** The level after a pause, whether the bucket was asked before it or not. */
  lemma IdleOrTaken(b: Bucket, next: Bucket, taken: bool, now: real, later: real)
    requires (next == b && !taken) || (next, taken) == Take(b, now)
    requires b.rate >= 0.0 && b.last <= now <= later
    ensures Level(next, later)
            == Min(b.cap, Level(b, now) - (if taken then 1.0 else 0.0) + Refill(b.rate, now, later))
  {
    if next == b && !taken {
      Stores.WaitTwice(b, now, later);
    } else {
      TakeThenWait(b, now, later);
    }
  }

  /** One arrival leaves the shared bucket alone or takes from it; forwarding is taking a token. */
  lemma SharedEffect(s: Setup, g: State, a: Arrival)
    ensures var (next, outcome) := Serve(s, g, a);
            || (next.shared == g.shared && !outcome.Forwarded?)
            || (next.shared, outcome.Forwarded?) == Take(g.shared, a.now)
  {}

  lemma SharedRuns(s: Setup, started: real, run: seq<Arrival>)
    requires Ordered(started, run) && s.perMinute >= 0.0
    ensures Runs(s.SharedBucket(started).cap, s.SharedBucket(started).rate, Times(run),
                 NoRenewals(|run|), ForwardedAt(s, started, run), SharedLevels(s, started, run))
  {
    OrderedTimes(started, run);
    if |run| > 0 {
      RefillGrows(s.SharedBucket(started).rate, started, Times(run)[0]);
    }
    forall n | 0 < n < |run| {
      SharedStep(s, started, run, n);
    }
  }

  /** The configured limits: one burst and rate per client, twice both in total. */
  lemma Limits(s: Setup, started: real)
    ensures s.ClientQuota().burst == s.burst && s.ClientQuota().Rate() == s.perMinute / 60.0
    ensures s.SharedBucket(started).cap == 2.0 * s.burst && s.SharedBucket(started).rate == 2.0 * s.perMinute / 60.0
  {}

  /** The client's half: an authenticated arrival is charged iff it fits its client's windows. */
  lemma ChargedIffFits(s: Setup, started: real, run: seq<Arrival>, n: nat)
    requires n < |run| && Ordered(started, run) && s.perMinute >= 0.0
    requires CarriesSecret(s.prefix, run[n])
    ensures ChargedTo(s, started, run, run[n].ip)[n]
            <==> FitsEveryWindow(s.burst, s.ClientQuota().Rate(), Times(run), ChargedTo(s, started, run, run[n].ip),
                                 Epoch(ClearedAt(s, started, run), n), n)
  {
    var asks := Asks(s, run, Authenticated);
    ClientFlagsAgree(s, started, run, run[n].ip);
    OrderedTimes(started, run);
    Stores.AdmittedIffFitsSinceClear(s.ClientQuota(), asks, n);
  }

  /** The shared half: the shared bucket holds a token iff the arrival fits every window of all forwarded traffic. */
  lemma SharedHoldsIffFits(s: Setup, started: real, run: seq<Arrival>, n: nat)
    requires n < |run| && Ordered(started, run) && s.perMinute >= 0.0
    ensures SharedLevels(s, started, run)[n] >= 1.0
            <==> FitsEveryWindow(s.SharedBucket(started).cap, s.SharedBucket(started).rate, Times(run),
                                 ForwardedAt(s, started, run), 0, n)
  {
    SharedRuns(s, started, run);
    EpochZero(|run|, n);
    HoldsTokenIffFits(s.SharedBucket(started).cap, s.SharedBucket(started).rate, Times(run),
                      NoRenewals(|run|), ForwardedAt(s, started, run), SharedLevels(s, started, run), n);
  }

  /** One authenticated arrival, by whether its client is charged and the shared bucket holds a token. */
  lemma AuthenticatedReply(s: Setup, started: real, run: seq<Arrival>, n: nat)
    requires n < |run| && CarriesSecret(s.prefix, run[n])
    ensures var charged := ChargedTo(s, started, run, run[n].ip)[n];
            var reply := Reply(s, started, run, n);
            && (reply.Forwarded? <==> charged && SharedLevels(s, started, run)[n] >= 1.0)
            && (!reply.Forwarded? ==> reply == RateLimited(charged))
            && (reply.Forwarded? ==>
                  && StripsTo(s.prefix, run[n].path, reply.path) && RawStripsTo(s.prefix, run[n].rawPath, reply.rawPath))
  {
    AuthenticatedHasPrefix(s.prefix, run[n]);
    StrippedIs(s.prefix, run[n].path);
    StrippedRawIs(s.prefix, run[n].rawPath);
  }

  /**
   The gateway's rate limiting without its state: an authenticated arrival is charged to
   its client iff it fits every window of that client since the last clear, and it is
   forwarded iff moreover it fits every window of all forwarded traffic. The application sees the
   path and the raw path without the credential.
   */
  lemma ForwardedIffFitsBothLimits(s: Setup, started: real, run: seq<Arrival>, n: nat)
    requires n < |run| && Ordered(started, run) && s.perMinute >= 0.0
    requires CarriesSecret(s.prefix, run[n])
    ensures var own := FitsEveryWindow(s.burst, s.ClientQuota().Rate(), Times(run),
                         ChargedTo(s, started, run, run[n].ip), Epoch(ClearedAt(s, started, run), n), n);
            var shared := FitsEveryWindow(s.SharedBucket(started).cap, s.SharedBucket(started).rate, Times(run),
                            ForwardedAt(s, started, run), 0, n);
            && (ChargedTo(s, started, run, run[n].ip)[n] <==> own)
            && (Reply(s, started, run, n).Forwarded? <==> own && shared)
            && (!Reply(s, started, run, n).Forwarded? ==> Reply(s, started, run, n) == RateLimited(own))
            && (Reply(s, started, run, n).Forwarded? ==>
                  && StripsTo(s.prefix, run[n].path, Reply(s, started, run, n).path)
                  && RawStripsTo(s.prefix, run[n].rawPath, Reply(s, started, run, n).rawPath))
  {
    ChargedIffFits(s, started, run, n);
    SharedHoldsIffFits(s, started, run, n);
    AuthenticatedReply(s, started, run, n);
  }

  /** Wrong paths from `ip` that were answered 404. */
  ghost function AnsweredTo(s: Setup, started: real, run: seq<Arrival>, ip: string): (f: seq<bool>)
    ensures |f| == |run|
  {
    seq(|run|, n requires 0 <= n < |run| => run[n].ip == ip && Reply(s, started, run, n) == NotFound)
  }

  /** Arrivals at which the failure store was cleared for being too large. */
  ghost function FailuresClearedAt(s: Setup, started: real, run: seq<Arrival>): (f: seq<bool>)
    ensures |f| == |run|
  {
    seq(|run|, n requires 0 <= n < |run| =>
      RouteOf(s.prefix, run[n]) == WrongPath && Stores.Clears(Before(s, started, run, n).failures, run[n].ip))
  }

  lemma FailureFlagsAgree(s: Setup, started: real, run: seq<Arrival>, ip: string)
    ensures AnsweredTo(s, started, run, ip) == Stores.Admissions(s.FailureQuota(), Asks(s, run, WrongPath), ip)
    ensures FailuresClearedAt(s, started, run) == Stores.Prunings(s.FailureQuota(), Asks(s, run, WrongPath))
    ensures Times(run) == Stores.Times(Asks(s, run, WrongPath))
  {
    var asks := Asks(s, run, WrongPath);
    forall n | 0 <= n < |run|
      ensures AnsweredTo(s, started, run, ip)[n] == Stores.Admissions(s.FailureQuota(), asks, ip)[n]
      ensures FailuresClearedAt(s, started, run)[n] == Stores.Prunings(s.FailureQuota(), asks)[n]
    {
      StoresAreIndependent(s, started, run, n);
    }
  }

  /**
   A wrong path is answered 404 iff it fits every window of 5 and 30 an hour over the 404s its address
   was given since the failure store was last cleared; otherwise it is throttled.
   */
  lemma WrongPathAnsweredIffFits(s: Setup, started: real, run: seq<Arrival>, n: nat)
    requires n < |run| && Ordered(started, run)
    requires LacksSecret(s.prefix, run[n])
    ensures var fits := FitsEveryWindow(5.0, 0.5 / 60.0, Times(run), AnsweredTo(s, started, run, run[n].ip),
                          Epoch(FailuresClearedAt(s, started, run), n), n);
            Reply(s, started, run, n) == if fits then NotFound else Throttled
  {
    FailureFlagsAgree(s, started, run, run[n].ip);
    StoresAreIndependent(s, started, run, n);
    OrderedTimes(started, run);
    Stores.AdmittedIffFitsSinceClear(s.FailureQuota(), Asks(s, run, WrongPath), n);
  }

  /** Per address: five 404s, five more per clear inside the window, plus 30 an hour. */
  lemma FailureBound(s: Setup, started: real, run: seq<Arrival>, ip: string, i: nat, n: nat)
    requires i <= n < |run| && Ordered(started, run)
    ensures Count(AnsweredTo(s, started, run, ip), i, n + 1) as real
            <= Allowance(5.0, 0.5 / 60.0, Times(run), FailuresClearedAt(s, started, run), i, n)
  {
    FailureFlagsAgree(s, started, run, ip);
    OrderedTimes(started, run);
    Stores.KeyBound(s.FailureQuota(), Asks(s, run, WrongPath), ip, i, n);
  }

  /** The failure store holds at most 1001 addresses, and each clear has used up 1001 new ones. */
  lemma FailureKeysAreConserved(s: Setup, started: real, run: seq<Arrival>, n: nat)
    requires n <= |run|
    ensures |Before(s, started, run, n).failures| <= 1001
    ensures 1001 * Count(FailuresClearedAt(s, started, run), 0, n) + |Before(s, started, run, n).failures|
            == Count(Stores.Insertions(s.FailureQuota(), Asks(s, run, WrongPath)), 0, n)
  {
    FailureFlagsAgree(s, started, run, "");
    StoresAreIndependent(s, started, run, n);
    Stores.KeysAreConserved(s.FailureQuota(), Asks(s, run, WrongPath), n);
  }

  ghost function ForwardedFor(s: Setup, started: real, run: seq<Arrival>, ip: string): (f: seq<bool>)
    ensures |f| == |run|
  {
    seq(|run|, n requires 0 <= n < |run| => run[n].ip == ip && Reply(s, started, run, n).Forwarded?)
  }

  /** Per client: one burst, one more per clear inside the window, plus the refill. */
  lemma ClientBound(s: Setup, started: real, run: seq<Arrival>, ip: string, i: nat, n: nat)
    requires i <= n < |run| && Ordered(started, run) && s.perMinute >= 0.0 && s.burst >= 0.0
    ensures Count(ForwardedFor(s, started, run, ip), i, n + 1) as real
            <= Allowance(s.burst, s.perMinute / 60.0, Times(run), ClearedAt(s, started, run), i, n)
  {
    ClientFlagsAgree(s, started, run, ip);
    OrderedTimes(started, run);
    Stores.KeyBound(s.ClientQuota(), Asks(s, run, Authenticated), ip, i, n);
    CountMonotone(ForwardedFor(s, started, run, ip), ChargedTo(s, started, run, ip), i, n + 1);
  }

  /** In total: twice the burst and twice the rate, however often the client store was cleared. */
  lemma TotalBound(s: Setup, started: real, run: seq<Arrival>, i: nat, n: nat)
    requires i <= n < |run| && Ordered(started, run) && s.perMinute >= 0.0 && s.burst >= 0.0
    ensures Count(ForwardedAt(s, started, run), i, n + 1) as real
            <= 2.0 * s.burst + Refill(2.0 * s.perMinute / 60.0, Times(run)[i], Times(run)[n])
  {
    Limits(s, started);
    SharedBound(s, started, run, i, n);
  }

  lemma SharedBound(s: Setup, started: real, run: seq<Arrival>, i: nat, n: nat)
    requires i <= n < |run| && Ordered(started, run) && s.perMinute >= 0.0 && s.burst >= 0.0
    ensures var shared := s.SharedBucket(started);
            Count(ForwardedAt(s, started, run), i, n + 1) as real
            <= shared.cap + Refill(shared.rate, Times(run)[i], Times(run)[n])
  {
    SharedRuns(s, started, run);
    forall m | 0 <= m < |run| && ForwardedAt(s, started, run)[m]
      ensures SharedLevels(s, started, run)[m] >= 1.0
    {
      SharedEffect(s, Before(s, started, run, m), run[m]);
    }
    WindowBound(s.SharedBucket(started).cap, s.SharedBucket(started).rate, Times(run), NoRenewals(|run|),
                ForwardedAt(s, started, run), SharedLevels(s, started, run), i, n);
    UnrenewedAllowance(s.SharedBucket(started).cap, s.SharedBucket(started).rate, Times(run), i, n);
  }

  lemma UnrenewedAllowance(cap: real, rate: real, times: seq<real>, i: nat, n: nat)
    requires i <= n < |times|
    ensures Allowance(cap, rate, times, NoRenewals(|times|), i, n) == cap + Refill(rate, times[i], times[n])
  {
    NoneCounted(|times|, i + 1, n + 1);
  }

  lemma {:induction false} NoneCounted(length: nat, lo: nat, hi: nat)
    requires lo <= hi <= length
    ensures Count(NoRenewals(length), lo, hi) == 0
    decreases hi
  {
    if lo < hi { NoneCounted(length, lo, hi - 1); }
  }

  /** The client store holds at most 1001 clients, and each clear has used up 1001 new ones. */
  lemma ClientKeysAreConserved(s: Setup, started: real, run: seq<Arrival>, n: nat)
    requires n <= |run|
    ensures |Before(s, started, run, n).clients| <= 1001
    ensures 1001 * Count(ClearedAt(s, started, run), 0, n) + |Before(s, started, run, n).clients|
            == Count(Stores.Insertions(s.ClientQuota(), Asks(s, run, Authenticated)), 0, n)
  {
    ClientFlagsAgree(s, started, run, "");
    StoresAreIndependent(s, started, run, n);
    Stores.KeysAreConserved(s.ClientQuota(), Asks(s, run, Authenticated), n);
  }

  /** The arrivals of one route, in order. */
  ghost function Only(s: Setup, run: seq<Arrival>, route: Route): seq<Arrival> {
    if run == [] then []
    else
      var rest := Only(s, run[..|run| - 1], route);
      if RouteOf(s.prefix, run[|run| - 1]) == route then rest + [run[|run| - 1]] else rest
  }

  /** The replies given to the arrivals of one route, in order. */
  ghost function Replies(s: Setup, started: real, run: seq<Arrival>, route: Route): seq<Outcome> {
    if run == [] then []
    else
      var rest := Replies(s, started, run[..|run| - 1], route);
      if RouteOf(s.prefix, run[|run| - 1]) == route then rest + [Reply(s, started, run, |run| - 1)] else rest
  }

  lemma {:induction false} BeforeIgnoresTheFuture(s: Setup, started: real, run: seq<Arrival>, n: nat, m: nat)
    requires n <= m <= |run|
    ensures Before(s, started, run[..m], n) == Before(s, started, run, n)
  {
    if n > 0 { BeforeIgnoresTheFuture(s, started, run, n - 1, m); }
  }

  /** Two states that are the same for one route: its own store, and the shared bucket if it uses it. */
  ghost predicate Agree(route: Route, g: State, h: State) {
    && (route == Authenticated ==> g.clients == h.clients && g.shared == h.shared)
    && (route == WrongPath ==> g.failures == h.failures)
  }

  /** An arrival of the route sees and changes only that part; any other arrival leaves it alone. */
  lemma RouteIsLocal(s: Setup, g: State, h: State, a: Arrival, route: Route)
    requires (route == Authenticated || route == WrongPath) && Agree(route, g, h)
    ensures if RouteOf(s.prefix, a) == route
            then Serve(s, g, a).1 == Serve(s, h, a).1 && Agree(route, Serve(s, g, a).0, Serve(s, h, a).0)
            else Agree(route, Serve(s, g, a).0, h)
  {}

  /**
   Non-interference: dropping every health check, lifecycle event and wrong path leaves each
   authenticated decision unchanged, and dropping everything but wrong paths leaves each
   refusal of a wrong path unchanged.
   */
  lemma {:induction false} RoutesDoNotInterfere(s: Setup, started: real, run: seq<Arrival>, route: Route)
    requires route == Authenticated || route == WrongPath
    ensures var only := Only(s, run, route);
            && Replies(s, started, only, route) == Replies(s, started, run, route)
            && Agree(route, Before(s, started, run, |run|), Before(s, started, only, |only|))
  {
    if run != [] {
      var last := |run| - 1;
      var shorter := run[..last];
      var reduced := Only(s, shorter, route);
      RoutesDoNotInterfere(s, started, shorter, route);
      BeforeIgnoresTheFuture(s, started, run, last, last);
      RouteIsLocal(s, Before(s, started, run, last), Before(s, started, reduced, |reduced|), run[last], route);
      if RouteOf(s.prefix, run[last]) == route {
        var only := Only(s, run, route);
        assert only == reduced + [run[last]] && only[..|reduced|] == reduced;
        BeforeIgnoresTheFuture(s, started, only, |reduced|, |reduced|);
      }
    }
  }
}
