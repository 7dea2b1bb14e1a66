/**
 Admission of a local lane: check the host every ten minutes, for at most an hour,
 and record every check.
 */
module HostAdmission {
  import opened Support

  const MIN_AVAILABLE_BYTES: int := 3_500_000_000
  const MAX_LOAD1: real := 8.0
  const INTERVAL: real := 600.0
  const WAIT: real := 3600.0

  /** One host observation; a load that is not finite is no load. */
  datatype Sample = Sample(otherHeavyJobs: int, availableBytes: int, load1: Option<real>, unclassified: seq<string>)

  datatype Reason = HeavyJobs | LowMemory | HighLoad | UnknownOwnership

  function Refusals(s: Sample): seq<Reason> {
    (if s.otherHeavyJobs > 1 then [HeavyJobs] else [])
    + (if s.availableBytes < MIN_AVAILABLE_BYTES then [LowMemory] else [])
    + (if s.load1.None? || s.load1.value >= MAX_LOAD1 then [HighLoad] else [])
    + (if s.unclassified != [] then [UnknownOwnership] else [])
  }

  datatype Check = Check(sample: Sample, reasons: seq<Reason>)

  datatype Status = Waiting | Admitted | TimedOut | ObservationFailed

  /** The receipt that is saved after every change. */
  datatype Receipt = Receipt(status: Status, checks: seq<Check>)

  /**
   The host as the loop meets it: the k-th observation (or its failure), and the clock at the
   start and after each observation.
   */
  datatype Host = Host(observe: nat -> Option<Sample>, started: real, clock: nat -> real) {
    function Elapsed(k: nat): real { clock(k) - started }

    function Pause(k: nat): real { Min(INTERVAL, WAIT - Elapsed(k)) }
  }

  /** Clocks do not run backwards, and a sleep lasts at least as long as requested. */
  ghost predicate SleepsFully(h: Host) {
    && h.clock(0) >= h.started
    && forall k: nat :: h.Elapsed(k) < WAIT ==> h.clock(k + 1) >= h.clock(k) + h.Pause(k)
  }

  /** Check `k` is reached: every earlier one was observed, had reasons, and was within the hour. */
  ghost predicate Reached(h: Host, k: nat) {
    forall j: nat :: j < k ==> h.observe(j).Some? && Refusals(h.observe(j).value) != [] && h.Elapsed(j) < WAIT
  }

  ghost predicate Recorded(h: Host, checks: seq<Check>) {
    forall j :: 0 <= j < |checks| ==>
      h.observe(j).Some? && checks[j] == Check(h.observe(j).value, Refusals(h.observe(j).value))
  }

  /** The first `n` pauses take at least ten minutes each, or exhaust the hour. */
  lemma {:induction false} ElapsedGrows(h: Host, n: nat)
    requires SleepsFully(h) && Reached(h, n)
    ensures h.Elapsed(n) >= Min(n as real * INTERVAL, WAIT)
  {
    if n > 0 {
      ElapsedGrows(h, n - 1);
      assert h.Elapsed(n - 1) < WAIT;
      assert h.clock(n - 1 + 1) >= h.clock(n - 1) + h.Pause(n - 1);
      assert n as real * INTERVAL == (n - 1) as real * INTERVAL + INTERVAL;
    }
  }

  /** So the loop cannot reach an eighth check. */
  lemma AtMostSevenChecks(h: Host, n: nat)
    requires SleepsFully(h) && Reached(h, n)
    ensures n <= 6
    ensures n == 6 ==> h.clock(n) - h.started >= 3600.0
  {
    if n >= 7 {
      ElapsedGrows(h, 6);
      assert false;
    }
    if n == 6 {
      ElapsedGrows(h, 6);
    }
  }

  /** The saved receipts while the loop still waits: one per check made, each holding the checks before it. */
  ghost predicate SavedWaiting(saved: seq<Receipt>, checks: seq<Check>) {
    |saved| == |checks| + 1 && forall i :: 0 <= i < |saved| ==> saved[i] == Receipt(Waiting, checks[..i])
  }

  lemma SavedSnoc(saved: seq<Receipt>, checks: seq<Check>, check: Check)
    requires SavedWaiting(saved, checks)
    ensures SavedWaiting(saved + [Receipt(Waiting, checks + [check])], checks + [check])
  {
    var longer := checks + [check];
    assert longer[..|longer|] == longer;
    assert forall i :: 0 <= i <= |checks| ==> longer[..i] == checks[..i];
  }

  /** Every save but the last holds the checks made so far; the last one says how the wait ended. */
  ghost predicate SavedInTurn(saved: seq<Receipt>, receipt: Receipt) {
    && saved != [] && saved[|saved| - 1] == receipt && saved[0] == Receipt(Waiting, [])
    && forall i :: 0 <= i < |saved| - 1 ==> saved[i] == Receipt(Waiting, receipt.checks[..Least(i, |receipt.checks|)])
  }

  /** The save that ends the wait, with or without a last check. */
  lemma SavedLast(saved: seq<Receipt>, checks: seq<Check>, receipt: Receipt)
    requires SavedWaiting(saved, checks) && checks <= receipt.checks && |receipt.checks| <= |checks| + 1
    ensures SavedInTurn(saved + [receipt], receipt)
  {
    var all := saved + [receipt];
    forall i | 0 <= i < |saved|
      ensures all[i] == Receipt(Waiting, receipt.checks[..Least(i, |receipt.checks|)])
    {
      assert receipt.checks[..i] == checks[..i];
    }
    assert checks[..0] == [];
  }

  /** The reasons recorded for a sample: one for each rule it breaks, in the order of the rules. */
  ghost predicate Explained(s: Sample, reasons: seq<Reason>) {
    && (HeavyJobs in reasons <==> s.otherHeavyJobs > 1)
    && (LowMemory in reasons <==> s.availableBytes < 3_500_000_000)
    && (HighLoad in reasons <==> s.load1.None? || s.load1.value >= 8.0)
    && (UnknownOwnership in reasons <==> s.unclassified != [])
    && forall i, j :: 0 <= i < j < |reasons| ==> Order(reasons[i]) < Order(reasons[j])
  }

  ghost function Order(reason: Reason): nat {
    match reason
    case HeavyJobs => 0 case LowMemory => 1 case HighLoad => 2 case UnknownOwnership => 3
  }

  /** Lists of at most one reason each, joined. */
  lemma JoinedReasons(a: seq<Reason>, b: seq<Reason>, c: seq<Reason>, d: seq<Reason>)
    requires a in {[], [HeavyJobs]} && b in {[], [LowMemory]} && c in {[], [HighLoad]} && d in {[], [UnknownOwnership]}
    ensures var all := a + b + c + d;
            && (HeavyJobs in all <==> a != []) && (LowMemory in all <==> b != [])
            && (HighLoad in all <==> c != []) && (UnknownOwnership in all <==> d != [])
            && forall i, j :: 0 <= i < j < |all| ==> Order(all[i]) < Order(all[j])
  {
    assert forall x :: x in a + b + c + d <==> x in a || x in b || x in c || x in d;
    assert a != [] ==> HeavyJobs in a;
    assert b != [] ==> LowMemory in b;
    assert c != [] ==> HighLoad in c;
    assert d != [] ==> UnknownOwnership in d;
  }

  lemma RefusalsExplain(s: Sample)
    ensures Explained(s, Refusals(s))
  {
    JoinedReasons(if s.otherHeavyJobs > 1 then [HeavyJobs] else [],
                  if s.availableBytes < MIN_AVAILABLE_BYTES then [LowMemory] else [],
                  if s.load1.None? || s.load1.value >= MAX_LOAD1 then [HighLoad] else [],
                  if s.unclassified != [] then [UnknownOwnership] else []);
  }

  /** The four rules a host must meet. */
  predicate Acceptable(s: Sample) {
    && s.otherHeavyJobs <= 1 && s.availableBytes >= 3_500_000_000
    && s.load1.Some? && s.load1.value < 8.0 && s.unclassified == []
  }

  /**
   How a wait may end: every check is recorded, at most seven; all but the last were refused within the
   hour; it is admitted iff the last sample meets every rule, fails iff an observation was reached that
   could not be made, and times out only when the last check was refused and the hour is over.
   */
  ghost predicate Concluded(h: Host, receipt: Receipt) {
    var n := |receipt.checks|;
    && Recorded(h, receipt.checks) && n <= 7
    && (forall j :: 0 <= j < n - 1 ==> receipt.checks[j].reasons != [] && h.clock(j) - h.started < 3600.0)
    && receipt.status != Waiting
    && (receipt.status == ObservationFailed <==> h.observe(n).None? && Reached(h, n))
    && (receipt.status == Admitted <==> n > 0 && Acceptable(receipt.checks[n - 1].sample))
    && (receipt.status == TimedOut ==> n > 0 && receipt.checks[n - 1].reasons != [] && h.clock(n - 1) - h.started >= 3600.0)
  }

  /** What holds while the loop still waits. */
  ghost predicate StillWaiting(h: Host, checks: seq<Check>) {
    Recorded(h, checks) && Reached(h, |checks|) && |checks| <= 6
  }

  lemma RecordedSnoc(h: Host, checks: seq<Check>, sample: Sample)
    requires Recorded(h, checks) && h.observe(|checks|) == Some(sample)
    ensures Recorded(h, checks + [Check(sample, Refusals(sample))])
  {}

  lemma RefusedIsReached(h: Host, checks: seq<Check>, j: nat)
    requires Recorded(h, checks) && Reached(h, |checks|) && j < |checks|
    ensures checks[j].reasons != [] && h.Elapsed(j) < WAIT && !Acceptable(checks[j].sample)
  {
    ReachedAt(h, |checks|, j);
  }

  lemma ReachedAt(h: Host, n: nat, j: nat)
    requires Reached(h, n) && j < n
    ensures h.observe(j).Some? && Refusals(h.observe(j).value) != [] && h.Elapsed(j) < WAIT
  {}

  lemma AllExplained(h: Host, checks: seq<Check>)
    requires Recorded(h, checks)
    ensures forall j :: 0 <= j < |checks| ==> Explained(checks[j].sample, checks[j].reasons)
  {
    forall j | 0 <= j < |checks|
      ensures Explained(checks[j].sample, checks[j].reasons)
    {
      RefusalsExplain(checks[j].sample);
    }
  }

  lemma ConcludesUnobserved(h: Host, checks: seq<Check>)
    requires StillWaiting(h, checks) && h.observe(|checks|).None?
    ensures Concluded(h, Receipt(ObservationFailed, checks))
  {
    forall j | 0 <= j < |checks|
      ensures checks[j].reasons != [] && h.Elapsed(j) < WAIT && !Acceptable(checks[j].sample)
    {
      RefusedIsReached(h, checks, j);
    }
  }

  lemma ConcludesObserved(h: Host, checks: seq<Check>, sample: Sample, status: Status)
    requires StillWaiting(h, checks) && h.observe(|checks|) == Some(sample)
    requires if Refusals(sample) == [] then status == Admitted else status == TimedOut && h.Elapsed(|checks|) >= WAIT
    ensures Concluded(h, Receipt(status, checks + [Check(sample, Refusals(sample))]))
  {
    RecordedSnoc(h, checks, sample);
    AdmittedIffAcceptable(sample);
    forall j | 0 <= j < |checks|
      ensures checks[j].reasons != [] && h.Elapsed(j) < WAIT
    {
      RefusedIsReached(h, checks, j);
    }
    if Reached(h, |checks| + 1) {
      ReachedAt(h, |checks| + 1, |checks|);
    }
  }

  lemma AdmittedIffAcceptable(sample: Sample)
    ensures Refusals(sample) == [] <==> Acceptable(sample)
  {}

  lemma WaitsOn(h: Host, checks: seq<Check>, sample: Sample)
    requires StillWaiting(h, checks) && h.observe(|checks|) == Some(sample)
    requires Refusals(sample) != [] && h.Elapsed(|checks|) < WAIT && SleepsFully(h)
    ensures StillWaiting(h, checks + [Check(sample, Refusals(sample))])
  {
    RecordedSnoc(h, checks, sample);
    AtMostSevenChecks(h, |checks| + 1);
    AtMostSevenChecks(h, |checks|);
  }

  /**
   The loop. It ends as `Concluded` says, and every save but the last holds the checks made so far.
   */
  method WaitForAdmission(h: Host) returns (receipt: Receipt, saved: seq<Receipt>)
    requires SleepsFully(h)
    ensures Concluded(h, receipt)
    ensures forall j :: 0 <= j < |receipt.checks| ==> Explained(receipt.checks[j].sample, receipt.checks[j].reasons)
    ensures SavedInTurn(saved, receipt)
  {
    var checks: seq<Check> := [];
    saved := [Receipt(Waiting, [])];
    while true
      invariant StillWaiting(h, checks)
      invariant SavedWaiting(saved, checks)
      decreases 6 - |checks|
    {
      var observation := h.observe(|checks|);
      if observation.None? {
        receipt := Receipt(ObservationFailed, checks);
        ConcludesUnobserved(h, checks);
        AllExplained(h, checks);
        SavedLast(saved, checks, receipt);
        return receipt, saved + [receipt];
      }
      var sample := observation.value;
      var reasons := Refusals(sample);
      ghost var before := checks;
      checks := checks + [Check(sample, reasons)];
      var elapsed := h.Elapsed(|checks| - 1);
      if reasons == [] {
        receipt := Receipt(Admitted, checks);
        ConcludesObserved(h, before, sample, Admitted);
        AllExplained(h, checks);
        SavedLast(saved, before, receipt);
        return receipt, saved + [receipt];
      }
      if elapsed >= WAIT {
        receipt := Receipt(TimedOut, checks);
        ConcludesObserved(h, before, sample, TimedOut);
        AllExplained(h, checks);
        SavedLast(saved, before, receipt);
        return receipt, saved + [receipt];
      }
      WaitsOn(h, before, sample);
      SavedSnoc(saved, before, Check(sample, reasons));
      saved := saved + [Receipt(Waiting, checks)];
    }
  }

  /** With exact sleeps and instantaneous observations, check `k` happens at `600 * k` seconds. */
  lemma {:induction false} ExactSleepsCheckEveryTenMinutes(h: Host, k: nat)
    requires h.clock(0) == h.started && Reached(h, k)
    requires forall j: nat :: h.Elapsed(j) < WAIT ==> h.clock(j + 1) == h.clock(j) + h.Pause(j)
    ensures k <= 6 && h.clock(k) - h.started == k as real * 600.0
  {
    if k > 0 {
      ExactSleepsCheckEveryTenMinutes(h, k - 1);
      assert h.Elapsed(k - 1) < WAIT;
      assert h.clock(k - 1 + 1) == h.clock(k - 1) + h.Pause(k - 1);
    }
  }
}
