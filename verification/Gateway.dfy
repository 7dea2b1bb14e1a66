/**
 The gateway in front of the application: health, secret-path authentication with
 its own failure store, a per-client store, one shared bucket, and the path the
 application finally sees.
 */
module Gateways {
  import opened TokenBuckets
  import opened BucketStores

  /** `prefix` is "/" followed by the access secret. */
  datatype Setup = Setup(prefix: string, perMinute: real, burst: real) {
    function ClientQuota(): Quota { Quota(perMinute, burst) }
    /** Failed authentication: a burst of 5, then 30 an hour. */
    function FailureQuota(): Quota { Quota(0.5, 5.0) }
    function SharedBucket(now: real): Bucket { Fresh(perMinute * 2.0, burst * 2.0, now) }
  }

  /** One call of the gateway; an absent raw path is the empty string. */
  datatype Arrival = Arrival(lifespan: bool, path: string, rawPath: string, ip: string, now: real)

  datatype Route = Lifecycle | HealthCheck | WrongPath | Authenticated

  datatype Outcome =
    | PassedThrough
    | Healthy
    | NotFound
    | Throttled
    | RateLimited(clientCharged: bool)
    | Forwarded(path: string, rawPath: string)

  datatype State = State(clients: Store, failures: Store, shared: Bucket)

  function RouteOf(prefix: string, a: Arrival): Route {
    if a.lifespan then Lifecycle
    else if a.path == "/health" then HealthCheck
    else if !(prefix + "/" <= a.path) && a.path != prefix then WrongPath
    else Authenticated
  }

  /** Strip the credential; both public forms of the endpoint become "/mcp/". */
  function Stripped(prefix: string, path: string): string
    requires prefix <= path
  {
    var rest := if path == prefix then "/" else path[|prefix|..];
    if rest == "/mcp" || rest == "/mcp/" then "/mcp/" else rest
  }

  function StrippedRaw(prefix: string, raw: string): string {
    if raw != "" && prefix <= raw then Stripped(prefix, raw) else raw
  }

  lemma AuthenticatedHasPrefix(prefix: string, a: Arrival)
    requires RouteOf(prefix, a) == Authenticated
    ensures prefix <= a.path
  {
    assert prefix + "/" <= a.path ==> a.path[..|prefix|] == (prefix + "/")[..|prefix|];
  }

  /** What the application sees of a public path: the credential is gone, and both endpoint forms are "/mcp/". */
  ghost predicate StripsTo(prefix: string, path: string, internal: string) {
    || (path == prefix && internal == "/")
    || ((path == prefix + "/mcp" || path == prefix + "/mcp/") && internal == "/mcp/")
    || (internal != "" && internal != "/mcp" && internal != "/mcp/" && path == prefix + internal)
  }

  /** A raw path is stripped like the decoded one if it starts with the credential, and otherwise passed on. */
  ghost predicate RawStripsTo(prefix: string, raw: string, internal: string) {
    if raw != "" && prefix <= raw then StripsTo(prefix, raw, internal) else internal == raw
  }

  lemma StrippedIs(prefix: string, path: string)
    requires prefix <= path
    ensures StripsTo(prefix, path, Stripped(prefix, path))
  {
    assert path == prefix + path[|prefix|..];
  }

  lemma StrippedRawIs(prefix: string, raw: string)
    ensures RawStripsTo(prefix, raw, StrippedRaw(prefix, raw))
  {
    if prefix <= raw {
      StrippedIs(prefix, raw);
    }
  }

  /** An HTTP call other than the health check, on a path that starts with the credential. */
  ghost predicate CarriesSecret(prefix: string, a: Arrival) {
    !a.lifespan && a.path != "/health" && (a.path == prefix || prefix + "/" <= a.path)
  }

  /** An HTTP call other than the health check, on any other path. */
  ghost predicate LacksSecret(prefix: string, a: Arrival) {
    !a.lifespan && a.path != "/health" && a.path != prefix && !(prefix + "/" <= a.path)
  }

  /** The exact preimages of an internal path: nothing but the two endpoint forms is merged. */
  lemma StrippedPreimages(prefix: string, a: Arrival, internal: string)
    requires RouteOf(prefix, a) == Authenticated
    ensures prefix <= a.path
    ensures Stripped(prefix, a.path) == internal <==>
            || (a.path == prefix + internal && internal != "/mcp" && internal != "")
            || (a.path == prefix && internal == "/")
            || (a.path == prefix + "/mcp" && internal == "/mcp/")
    ensures "/" <= Stripped(prefix, a.path)
  {
    AuthenticatedHasPrefix(prefix, a);
    assert a.path == prefix + a.path[|prefix|..];
    assert (prefix + internal)[|prefix|..] == internal;
    assert (prefix + "/mcp")[|prefix|..] == "/mcp";
    assert prefix + "" == prefix;
    if a.path != prefix {
      assert a.path[|prefix|] == (prefix + "/")[|prefix|] == '/';
    }
  }

  function Serve(s: Setup, g: State, a: Arrival): (State, Outcome) {
    match RouteOf(s.prefix, a)
    case Lifecycle => (g, PassedThrough)
    case HealthCheck => (g, Healthy)
    case WrongPath =>
      var (failures, answered) := Charge(s.FailureQuota(), g.failures, a.ip, a.now);
      (g.(failures := failures), if answered then NotFound else Throttled)
    case Authenticated => Limit(s, g, a)
  }

  /** Authenticated traffic: the client's bucket first, then the shared one. */
  function Limit(s: Setup, g: State, a: Arrival): (State, Outcome)
    requires RouteOf(s.prefix, a) == Authenticated
  {
    AuthenticatedHasPrefix(s.prefix, a);
    var (clients, charged) := Charge(s.ClientQuota(), g.clients, a.ip, a.now);
    if !charged then (g.(clients := clients), RateLimited(false))
    else
      var (shared, ok) := Take(g.shared, a.now);
      (g.(clients := clients, shared := shared),
       if ok then Forwarded(Stripped(s.prefix, a.path), StrippedRaw(s.prefix, a.rawPath)) else RateLimited(true))
  }

  /** Lifecycle events and health checks are answered at once and charge nothing. */
  lemma UnlimitedTraffic(s: Setup, g: State, a: Arrival)
    ensures a.lifespan ==> Serve(s, g, a) == (g, PassedThrough)
    ensures !a.lifespan && a.path == "/health" ==> Serve(s, g, a) == (g, Healthy)
  {}

  /** A dictionary of bucket objects; `Repr` is everything it owns. */
  class BucketDict {
    var buckets: map<string, TokenBucket>
    ghost var Repr: set<object>

    ghost predicate Valid()
      reads this, Repr
      ensures Valid() ==> this in Repr
    {
      && this in Repr
      && (forall k :: k in buckets ==> buckets[k] in Repr)
      && (forall k, l :: k in buckets && l in buckets && k != l ==> buckets[k] != buckets[l])
    }

    ghost function View(): Store
      requires Valid()
      reads this, Repr
    {
      map k | k in buckets :: buckets[k].View()
    }

    constructor ()
      ensures Valid() && fresh(Repr) && View() == map[]
    {
      buckets := map[];
      Repr := {this};
    }

    /** Look up or create the bucket of `key`. */
    method BucketFor(key: string, q: Quota, now: real) returns (bucket: TokenBucket)
      requires Valid()
      modifies this
      ensures Valid() && fresh(Repr - old(Repr))
      ensures key in buckets && buckets[key] == bucket
      ensures View() == Entered(q, old(View()), key, now)
    {
      if key !in buckets {
        assert View().Keys == buckets.Keys;
        if |buckets| > PRUNE_ABOVE {
          buckets := map[];
        }
        Create(key, q, now);
      }
      bucket := buckets[key];
    }

    method Create(key: string, q: Quota, now: real)
      requires Valid() && key !in buckets
      modifies this
      ensures Valid() && fresh(Repr - old(Repr))
      ensures key in buckets && View() == old(View())[key := Fresh(q.perMinute, q.burst, now)]
    {
      var created := new TokenBucket(q.perMinute, q.burst, now);
      buckets := buckets[key := created];
      Repr := Repr + {created};
    }

    /** The pair of calls made on either dictionary: find the bucket, ask it. */
    method Ask(key: string, q: Quota, now: real) returns (ok: bool)
      requires Valid()
      modifies Repr
      ensures Valid() && fresh(Repr - old(Repr))
      ensures (View(), ok) == Charge(q, old(View()), key, now)
    {
      var bucket := BucketFor(key, q, now);
      ghost var entered := View();
      ok := bucket.Allow(now);
      assert View() == entered[key := bucket.View()];
    }
  }

  class Gateway {
    const setup: Setup
    const clients: BucketDict
    const globalBucket: TokenBucket
    const authFail: BucketDict

    ghost predicate Valid()
      reads clients, clients.Repr, authFail, authFail.Repr
    {
      && clients.Valid() && authFail.Valid()
      && clients.Repr !! authFail.Repr
      && globalBucket !in clients.Repr && globalBucket !in authFail.Repr
    }

    ghost function View(): State
      requires Valid()
      reads globalBucket, clients, clients.Repr, authFail, authFail.Repr
    {
      State(clients.View(), authFail.View(), globalBucket.View())
    }

    constructor (setup: Setup, now: real)
      ensures Valid() && this.setup == setup
      ensures fresh(clients.Repr) && fresh(authFail.Repr) && fresh(globalBucket)
      ensures View() == State(map[], map[], Bucket(2.0 * setup.perMinute / 60.0, 2.0 * setup.burst, 2.0 * setup.burst, now))
      ensures View() == State(map[], map[], setup.SharedBucket(now))
    {
      this.setup := setup;
      clients := new BucketDict();
      globalBucket := new TokenBucket(setup.perMinute * 2.0, setup.burst * 2.0, now);
      authFail := new BucketDict();
    }

    method Handle(a: Arrival) returns (outcome: Outcome)
      requires Valid()
      modifies clients.Repr, authFail.Repr, globalBucket
      ensures Valid()
      ensures fresh(clients.Repr - old(clients.Repr)) && fresh(authFail.Repr - old(authFail.Repr))
      ensures (View(), outcome) == Serve(setup, old(View()), a)
    {
      if a.lifespan {
        return PassedThrough;
      }
      if a.path == "/health" {
        return Healthy;
      }
      if !(setup.prefix + "/" <= a.path) && a.path != setup.prefix {
        var answered := authFail.Ask(a.ip, setup.FailureQuota(), a.now);
        return if answered then NotFound else Throttled;
      }
      outcome := ApplyLimits(a);
    }

    method ApplyLimits(a: Arrival) returns (outcome: Outcome)
      requires Valid() && RouteOf(setup.prefix, a) == Authenticated
      modifies clients.Repr, globalBucket
      ensures Valid() && fresh(clients.Repr - old(clients.Repr))
      ensures (View(), outcome) == Limit(setup, old(View()), a)
    {
      AuthenticatedHasPrefix(setup.prefix, a);
      var ok := clients.Ask(a.ip, setup.ClientQuota(), a.now);
      if ok {
        ok := globalBucket.Allow(a.now);
        if ok {
          return Forwarded(Stripped(setup.prefix, a.path), StrippedRaw(setup.prefix, a.rawPath));
        }
        return RateLimited(true);
      }
      return RateLimited(false);
    }
  }
}
