/**
 The retry-once protocol around one observed window, and the offline check of the
 windows it discarded. Both take the window's own check as a parameter.
 */
module RetryOnce {
  import opened Support
  import opened Values

  /** What a window's check says of one run: its proof, a retryable refusal, another refusal, or an unrelated error. */
  datatype Checked<+P, +D> = Passed(proof: P) | MayRerun(diagnostic: D) | NotPassed(diagnostic: D) | Raised

  /** The check of a named window: `check(window, outcome, observation, retryAllowed)`. */
  type Check<P, D> = (string, Value, Value, bool) -> Checked<P, D>

  /** What performing the window once gives: nothing if it raised. */
  datatype RunResult = RunRaised | Ran(outcome: Value, observation: Value)

  /** A discarded window as it is retained; anything else in its place is malformed. */
  datatype Item<+D> = Discard(window: string, observation: Value, diagnostic: D) | NotAnItem

  datatype Attempt<+P, +D> =
    | Kept(outcome: Value, observation: Value, proof: P)
    | Failed(diagnostic: D, rerunAfterDiscard: bool)
    | Aborted

  /** The attempt, the number of runs it used and what it discarded. */
  datatype Trace<+P, +D> = Trace(attempt: Attempt<P, D>, runs: nat, discarded: seq<Item<D>>)

  function Settled<P, D>(check: Check<P, D>, name: string, run: RunResult, rerun: bool): Attempt<P, D> {
    if run.RunRaised? then Aborted
    else
      match check(name, run.outcome, run.observation, !rerun)
      case Passed(proof) => Kept(run.outcome, run.observation, proof)
      case NotPassed(d) => Failed(d, rerun)
      case MayRerun(d) => Failed(d, rerun)
      case Raised => Aborted
  }

  function Attempted<P, D>(check: Check<P, D>, name: string, first: RunResult, second: RunResult): Trace<P, D> {
    if first.Ran? && check(name, first.outcome, first.observation, true).MayRerun? then
      var d := check(name, first.outcome, first.observation, true).diagnostic;
      Trace(Settled(check, name, second, true), 2, [Discard(name, first.observation, d)])
    else Trace(Settled(check, name, first, false), 1, [])
  }

  class Observer<P, D> {
    /** The k-th performance of the window under observation. */
    const script: nat -> RunResult
    var runs: nat
    var discarded: seq<Item<D>>

    constructor (script: nat -> RunResult)
      ensures this.script == script && runs == 0 && discarded == []
    {
      this.script := script;
      runs := 0;
      discarded := [];
    }

    method Run() returns (r: RunResult)
      modifies this`runs
      ensures r == script(old(runs)) && runs == old(runs) + 1
    {
      r := script(runs);
      runs := runs + 1;
    }

    method ObserveRetryOnceClean(check: Check<P, D>, name: string) returns (attempt: Attempt<P, D>)
      modifies this
      ensures var trace := Attempted(check, name, script(old(runs)), script(old(runs) + 1));
              && attempt == trace.attempt
              && runs == old(runs) + trace.runs
              && discarded == old(discarded) + trace.discarded
    {
      var run := Run();
      if run.RunRaised? {
        return Aborted;
      }
      match check(name, run.outcome, run.observation, true) {
        case Passed(proof) => return Kept(run.outcome, run.observation, proof);
        case NotPassed(d) => return Failed(d, false);
        case Raised => return Aborted;
        case MayRerun(d) => discarded := discarded + [Discard(name, run.observation, d)];
      }
      run := Run();
      if run.RunRaised? {
        return Aborted;
      }
      match check(name, run.outcome, run.observation, false) {
        case Passed(proof) => return Kept(run.outcome, run.observation, proof);
        case NotPassed(d) => return Failed(d, true);
        case MayRerun(d) => return Failed(d, true);
        case Raised => return Aborted;
      }
    }
  }

  /** A run that strict mode passes. */
  predicate Clean<P, D>(check: Check<P, D>, name: string, run: RunResult) {
    run.Ran? && check(name, run.outcome, run.observation, false).Passed?
  }

  /** A run whose only refusal is retryable. */
  predicate OnlyRetryable<P, D>(check: Check<P, D>, name: string, run: RunResult) {
    run.Ran? && check(name, run.outcome, run.observation, true).MayRerun?
  }

  /** Both modes pass the same runs with the same proof, and strict mode allows no rerun. */
  ghost predicate ModesAgree<P, D>(check: Check<P, D>) {
    forall name, outcome, observation {:trigger check(name, outcome, observation, true)}
                                      {:trigger check(name, outcome, observation, false)} ::
      AgreesAt(check(name, outcome, observation, true), check(name, outcome, observation, false))
  }

  ghost predicate AgreesAt<P, D>(lenient: Checked<P, D>, strict: Checked<P, D>) {
    && (lenient.Passed? || strict.Passed? ==> lenient == strict)
    && !strict.MayRerun?
  }

  /**
   Retry-once safety, for any check whose modes agree: the window is kept iff its first run is clean, or
   its first run is only retryable and its second run is clean. What is kept passes strictly with the
   returned proof; a second run happens only after a retryable first one, which is then the one discard.
   */
  lemma KeptIffCleanOnceOrAfterDiscard<P, D>(check: Check<P, D>, name: string, first: RunResult, second: RunResult)
    requires ModesAgree(check)
    ensures var t := Attempted(check, name, first, second);
            && (t.attempt.Kept? <==> Clean(check, name, first) || (OnlyRetryable(check, name, first) && Clean(check, name, second)))
            && (t.attempt.Kept? ==>
                  && check(name, t.attempt.outcome, t.attempt.observation, false) == Passed(t.attempt.proof)
                  && Ran(t.attempt.outcome, t.attempt.observation) == (if Clean(check, name, first) then first else second))
            && (t.attempt.Aborted? <==>
                  || first.RunRaised? || check(name, first.outcome, first.observation, true).Raised?
                  || (OnlyRetryable(check, name, first)
                      && (second.RunRaised? || check(name, second.outcome, second.observation, false).Raised?)))
            && (t.attempt.Failed? ==> (t.attempt.rerunAfterDiscard <==> t.runs == 2))
            && (t.attempt.Failed? && t.runs == 1 ==>
                  check(name, first.outcome, first.observation, true) == NotPassed(t.attempt.diagnostic))
            && (t.attempt.Failed? && t.runs == 2 ==>
                  check(name, second.outcome, second.observation, false) == NotPassed(t.attempt.diagnostic))
            && t.runs == (if OnlyRetryable(check, name, first) then 2 else 1)
            && |t.discarded| == t.runs - 1
            && (t.runs == 2 ==>
                  && !Clean(check, name, first)
                  && t.discarded == [Discard(name, first.observation,
                                       check(name, first.outcome, first.observation, true).diagnostic)])
  {
    assert first.Ran? ==> AgreesAt(check(name, first.outcome, first.observation, true),
                                   check(name, first.outcome, first.observation, false));
    assert second.Ran? ==> AgreesAt(check(name, second.outcome, second.observation, true),
                                    check(name, second.outcome, second.observation, false));
  }

  // ----- Offline -----

  /** The check of a retained window: `recheck(window, observation, retryAllowed)`. */
  type Recheck<P, D> = (string, Value, bool) -> Checked<P, D>

  datatype Evidence<+D> = NotAList | Items(items: seq<Item<D>>)

  datatype ReplayError<+D> =
    | Malformed | DiagnosticMismatch | WasNotRetryable | VerifiesStrictly
    | WindowRefused(diagnostic: D)
    | Crashed

  datatype Replay<+D> = Accepted(windows: set<string>) | Rejected(error: ReplayError<D>)

  function ItemFault<P, D(==)>(item: Item<D>, seen: set<string>, recheck: Recheck<P, D>, windows: set<string>): Option<ReplayError<D>> {
    if item.NotAnItem? || !item.observation.Dict? || item.window !in windows || item.window in seen then Some(Malformed)
    else
      match recheck(item.window, item.observation, true)
      case Raised => Some(Crashed)
      case NotPassed(d) => Some(WindowRefused(d))
      case Passed(_) => Some(WasNotRetryable)
      case MayRerun(d) =>
        if d != item.diagnostic then Some(DiagnosticMismatch)
        else
          match recheck(item.window, item.observation, false)
          case Raised => Some(Crashed)
          case Passed(_) => Some(VerifiesStrictly)
          case _ => None
  }

  function Replayed<P, D(==)>(items: seq<Item<D>>, recheck: Recheck<P, D>, windows: set<string>): Replay<D> {
    if items == [] then Accepted({})
    else
      match Replayed(items[..|items| - 1], recheck, windows)
      case Rejected(e) => Rejected(e)
      case Accepted(seen) =>
        var last := items[|items| - 1];
        match ItemFault(last, seen, recheck, windows)
        case Some(e) => Rejected(e)
        case None => Accepted(seen + {last.window})
  }

  function Verified<P, D(==)>(evidence: Evidence<D>, recheck: Recheck<P, D>, windows: set<string>): Replay<D> {
    if evidence.NotAList? || |evidence.items| > |windows| then Rejected(Malformed)
    else Replayed(evidence.items, recheck, windows)
  }

  /** What a retained item is refused for: its place, its lenient verdict, its diagnostic, its strict verdict. */
  lemma ItemFaultIs<P, D>(item: Item<D>, seen: set<string>, recheck: Recheck<P, D>, windows: set<string>)
    ensures var fault := ItemFault(item, seen, recheck, windows);
            if !(item.Discard? && item.observation.Dict? && item.window in windows && item.window !in seen) then
              fault == Some(Malformed)
            else
              var lenient := recheck(item.window, item.observation, true);
              var strict := recheck(item.window, item.observation, false);
              && (lenient.Raised? ==> fault == Some(Crashed))
              && (lenient.Passed? ==> fault == Some(WasNotRetryable))
              && (lenient.NotPassed? ==> fault == Some(WindowRefused(lenient.diagnostic)))
              && (lenient.MayRerun? && lenient.diagnostic != item.diagnostic ==> fault == Some(DiagnosticMismatch))
              && (lenient.MayRerun? && lenient.diagnostic == item.diagnostic ==>
                    && (strict.Raised? <==> fault == Some(Crashed))
                    && (strict.Passed? <==> fault == Some(VerifiesStrictly))
                    && (strict.NotPassed? || strict.MayRerun? <==> fault == None))
  {}

  /** The windows of the first `n` items. */
  ghost function SeenBefore<D>(items: seq<Item<D>>, n: nat): set<string>
    requires n <= |items|
  {
    set i | 0 <= i < n && items[i].Discard? :: items[i].window
  }

  /** Rejection is for the first item at fault, given the windows before it; acceptance names every window. */
  lemma {:induction false} ReplayedIs<P, D>(items: seq<Item<D>>, recheck: Recheck<P, D>, windows: set<string>)
    ensures match Replayed(items, recheck, windows)
            case Accepted(seen) =>
              && seen == SeenBefore(items, |items|)
              && forall i :: 0 <= i < |items| ==> ItemFault(items[i], SeenBefore(items, i), recheck, windows) == None
            case Rejected(e) =>
              exists i :: && 0 <= i < |items| && ItemFault(items[i], SeenBefore(items, i), recheck, windows) == Some(e)
                          && forall j :: 0 <= j < i ==> ItemFault(items[j], SeenBefore(items, j), recheck, windows) == None
  {
    if items != [] {
      var n := |items| - 1;
      var shorter := items[..n];
      ReplayedIs(shorter, recheck, windows);
      forall i | 0 <= i <= n
        ensures SeenBefore(shorter, i) == SeenBefore(items, i)
      {}
      assert forall i :: 0 <= i < n ==> shorter[i] == items[i];
      if Replayed(shorter, recheck, windows).Accepted? {
        ItemFaultIs(items[n], SeenBefore(items, n), recheck, windows);
        assert items[n].Discard? ==> SeenBefore(items, n + 1) == SeenBefore(items, n) + {items[n].window};
        if ItemFault(items[n], SeenBefore(items, n), recheck, windows).Some? {
          assert Replayed(items, recheck, windows) == Rejected(ItemFault(items[n], SeenBefore(items, n), recheck, windows).value);
        }
      }
    }
  }

  method VerifyDiscarded<P, D(==)>(evidence: Evidence<D>, recheck: Recheck<P, D>, windows: set<string>) returns (r: Replay<D>)
    ensures r == Verified(evidence, recheck, windows)
  {
    if evidence.NotAList? || |evidence.items| > |windows| {
      return Rejected(Malformed);
    }
    var items := evidence.items;
    var seen: set<string> := {};
    for i := 0 to |items|
      invariant Replayed(items[..i], recheck, windows) == Accepted(seen)
    {
      ReplayedNext(items, i, recheck, windows);
      var fault := ItemFault(items[i], seen, recheck, windows);
      if fault.Some? {
        RejectionSticks(items, i + 1, recheck, windows);
        return Rejected(fault.value);
      }
      seen := seen + {items[i].window};
    }
    assert items[..|items|] == items;
    return Accepted(seen);
  }

  lemma ReplayedNext<P, D>(items: seq<Item<D>>, i: nat, recheck: Recheck<P, D>, windows: set<string>)
    requires i < |items| && Replayed(items[..i], recheck, windows).Accepted?
    ensures var seen := Replayed(items[..i], recheck, windows).windows;
            Replayed(items[..i + 1], recheck, windows) ==
              match ItemFault(items[i], seen, recheck, windows)
              case Some(e) => Rejected(e)
              case None => Accepted(seen + {items[i].window})
  {
    assert items[..i + 1][..i] == items[..i];
  }

  lemma {:induction false} RejectionSticks<P, D>(items: seq<Item<D>>, n: nat, recheck: Recheck<P, D>, windows: set<string>)
    requires n <= |items| && Replayed(items[..n], recheck, windows).Rejected?
    ensures Replayed(items, recheck, windows) == Replayed(items[..n], recheck, windows)
    decreases |items|
  {
    if n < |items| {
      var shorter := items[..|items| - 1];
      assert shorter[..n] == items[..n];
      RejectionSticks(shorter, n, recheck, windows);
    } else {
      assert items[..n] == items;
    }
  }

  /** A retained item that is what it claims: retryable, with this diagnostic, for a known window. */
  predicate Genuine<P, D(==)>(item: Item<D>, recheck: Recheck<P, D>, windows: set<string>) {
    && item.Discard? && item.observation.Dict? && item.window in windows
    && recheck(item.window, item.observation, true) == MayRerun(item.diagnostic)
  }

  ghost predicate OncePerWindow<D>(items: seq<Item<D>>) {
    forall i, j :: 0 <= i < j < |items| && items[i].Discard? && items[j].Discard? ==> items[i].window != items[j].window
  }

  /** Whatever may be rerun is refused strictly. */
  ghost predicate RetryableIsRefused<P, D>(recheck: Recheck<P, D>) {
    forall name, observation {:trigger recheck(name, observation, true)} ::
      recheck(name, observation, true).MayRerun? ==> recheck(name, observation, false).NotPassed?
  }

  /** The strict recheck can never be the one that refuses: retryable already means not strict. */
  lemma GenuineIffNoFault<P, D>(item: Item<D>, seen: set<string>, recheck: Recheck<P, D>, windows: set<string>)
    requires RetryableIsRefused(recheck)
    ensures ItemFault(item, seen, recheck, windows).None? <==> Genuine(item, recheck, windows) && item.window !in seen
    ensures ItemFault(item, seen, recheck, windows) != Some(VerifiesStrictly)
  {}

  /** The window names of the items. */
  ghost function Names<D>(items: seq<Item<D>>): set<string> {
    set i | 0 <= i < |items| && items[i].Discard? :: items[i].window
  }

  lemma NamesSnoc<D>(items: seq<Item<D>>, last: Item<D>)
    ensures Names(items + [last]) == Names(items) + if last.Discard? then {last.window} else {}
  {
    var all := items + [last];
    assert all[|items|] == last;
    assert forall i :: 0 <= i < |items| ==> all[i] == items[i];
  }

  lemma OncePerWindowSnoc<D>(items: seq<Item<D>>, last: Item<D>)
    requires last.Discard? && forall i :: 0 <= i < |items| ==> items[i].Discard?
    ensures OncePerWindow(items + [last]) <==> OncePerWindow(items) && last.window !in Names(items)
  {
    var all := items + [last];
    if OncePerWindow(all) {
      forall i, j | 0 <= i < j < |items|
        ensures items[i].window != items[j].window
      {
        assert all[i].window != all[j].window;
      }
      forall i | 0 <= i < |items|
        ensures items[i].window != last.window
      {
        assert all[i].window != all[|items|].window;
      }
    }
  }

  ghost predicate AllGenuine<P, D>(items: seq<Item<D>>, recheck: Recheck<P, D>, windows: set<string>) {
    forall i :: 0 <= i < |items| ==> Genuine(items[i], recheck, windows)
  }

  lemma AllGenuineSnoc<P, D>(items: seq<Item<D>>, last: Item<D>, recheck: Recheck<P, D>, windows: set<string>)
    ensures AllGenuine(items + [last], recheck, windows) <==> AllGenuine(items, recheck, windows) && Genuine(last, recheck, windows)
    ensures AllGenuine(items, recheck, windows) ==> forall i :: 0 <= i < |items| ==> items[i].Discard?
  {
    var all := items + [last];
    assert all[|items|] == last;
    assert forall i :: 0 <= i < |items| ==> all[i] == items[i];
  }

  lemma ReplayedSnoc<P, D>(items: seq<Item<D>>, last: Item<D>, recheck: Recheck<P, D>, windows: set<string>)
    requires RetryableIsRefused(recheck)
    ensures var before := Replayed(items, recheck, windows);
            var after := Replayed(items + [last], recheck, windows);
            && (after.Accepted? <==>
                  before.Accepted? && Genuine(last, recheck, windows) && last.window !in before.windows)
            && (after.Accepted? ==> after.windows == before.windows + {last.window})
  {
    assert (items + [last])[..|items|] == items;
    if Replayed(items, recheck, windows).Accepted? {
      GenuineIffNoFault(last, Replayed(items, recheck, windows).windows, recheck, windows);
    }
  }

  lemma {:induction false} ReplayedIffGenuine<P, D>(items: seq<Item<D>>, recheck: Recheck<P, D>, windows: set<string>)
    requires RetryableIsRefused(recheck)
    ensures Replayed(items, recheck, windows).Accepted? <==> AllGenuine(items, recheck, windows) && OncePerWindow(items)
    ensures Replayed(items, recheck, windows).Accepted? ==>
              && Replayed(items, recheck, windows).windows == Names(items)
              && |Names(items)| == |items| && Names(items) <= windows
  {
    if items != [] {
      var shorter := items[..|items| - 1];
      var last := items[|items| - 1];
      assert items == shorter + [last];
      ReplayedIffGenuine(shorter, recheck, windows);
      ReplayedSnoc(shorter, last, recheck, windows);
      NamesSnoc(shorter, last);
      AllGenuineSnoc(shorter, last, recheck, windows);
      if AllGenuine(items, recheck, windows) {
        OncePerWindowSnoc(shorter, last);
      }
    }
  }

  /**
   Offline acceptance is exact: evidence is accepted iff it is a list whose every item is
   genuine, at most one per window. The length bound never refuses such a list.
   */
  lemma {:induction false} AcceptedIffGenuineOncePerWindow<P, D>(evidence: Evidence<D>, recheck: Recheck<P, D>, windows: set<string>)
    requires RetryableIsRefused(recheck)
    ensures Verified(evidence, recheck, windows).Accepted?
            <==> evidence.Items? && AllGenuine(evidence.items, recheck, windows) && OncePerWindow(evidence.items)
    ensures Verified(evidence, recheck, windows).Accepted? ==> Verified(evidence, recheck, windows).windows == Names(evidence.items)
  {
    if evidence.Items? {
      ReplayedIffGenuine(evidence.items, recheck, windows);
      if Replayed(evidence.items, recheck, windows).Accepted? {
        SubsetSize(Replayed(evidence.items, recheck, windows).windows, windows);
      }
    }
  }

  lemma {:induction false} SubsetSize<T>(a: set<T>, b: set<T>)
    requires a <= b
    ensures |a| <= |b|
  {
    if a != {} {
      var x :| x in a;
      SubsetSize(a - {x}, b - {x});
    }
  }

  // ----- Sessions -----

  /** One observed window of a session: its name and the two runs it could draw on. */
  datatype Slot = Slot(name: string, first: RunResult, second: RunResult)

  function AttemptAt<P, D>(check: Check<P, D>, slot: Slot): Trace<P, D> {
    Attempted(check, slot.name, slot.first, slot.second)
  }

  /** Everything a session discards, in order. */
  function Discards<P, D>(check: Check<P, D>, slots: seq<Slot>): seq<Item<D>> {
    if slots == [] then []
    else Discards(check, slots[..|slots| - 1]) + AttemptAt(check, slots[|slots| - 1]).discarded
  }

  /** The recheck says offline what the check said online, of a run that was discarded or kept. */
  ghost predicate SameVerdict<P, D>(online: Checked<P, D>, offline: Checked<P, D>, observation: Value) {
    online.Passed? || online.MayRerun? ==> observation.Dict? && offline == online
  }

  ghost predicate ReplaysOffline<P, D>(check: Check<P, D>, recheck: Recheck<P, D>, name: string, run: RunResult, retry: bool) {
    run.Ran? ==> SameVerdict(check(name, run.outcome, run.observation, retry), recheck(name, run.observation, retry), run.observation)
  }

  /** Both runs of a slot replay offline, in both modes. */
  ghost predicate SlotReplays<P, D>(check: Check<P, D>, recheck: Recheck<P, D>, slot: Slot) {
    forall retry ::
      && ReplaysOffline(check, recheck, slot.name, slot.first, retry)
      && ReplaysOffline(check, recheck, slot.name, slot.second, retry)
  }

  ghost predicate DistinctlyNamed(slots: seq<Slot>) {
    forall i, j :: 0 <= i < j < |slots| ==> slots[i].name != slots[j].name
  }

  ghost predicate NamedIn(slots: seq<Slot>, windows: set<string>) {
    forall i :: 0 <= i < |slots| ==> slots[i].name in windows
  }

  ghost predicate SlotsReplay<P, D>(check: Check<P, D>, recheck: Recheck<P, D>, slots: seq<Slot>) {
    forall i :: 0 <= i < |slots| ==> SlotReplays(check, recheck, slots[i])
  }

  lemma DiscardedReplays<P, D>(check: Check<P, D>, recheck: Recheck<P, D>, slot: Slot, windows: set<string>)
    requires SlotReplays(check, recheck, slot) && slot.name in windows
    ensures var added := AttemptAt(check, slot).discarded;
            added == [] || (|added| == 1 && Genuine(added[0], recheck, windows) && added[0].window == slot.name)
  {
    assert ReplaysOffline(check, recheck, slot.name, slot.first, true);
  }

  lemma {:induction false} DiscardsAreGenuine<P, D>(check: Check<P, D>, recheck: Recheck<P, D>, slots: seq<Slot>, windows: set<string>)
    requires DistinctlyNamed(slots) && NamedIn(slots, windows) && SlotsReplay(check, recheck, slots)
    ensures AllGenuine(Discards(check, slots), recheck, windows) && OncePerWindow(Discards(check, slots))
    ensures Names(Discards(check, slots)) <= set i | 0 <= i < |slots| :: slots[i].name
  {
    if slots != [] {
      var shorter := slots[..|slots| - 1];
      var slot := slots[|slots| - 1];
      DiscardsAreGenuine(check, recheck, shorter, windows);
      DiscardedReplays(check, recheck, slot, windows);
      var before := Discards(check, shorter);
      var added := AttemptAt(check, slot).discarded;
      if added == [] {
        assert Discards(check, slots) == before;
      } else {
        assert Discards(check, slots) == before + [added[0]];
        AllGenuineSnoc(before, added[0], recheck, windows);
        NamesSnoc(before, added[0]);
        OncePerWindowSnoc(before, added[0]);
      }
    }
  }

  /** A window that was kept passes strictly offline with the recorded proof. */
  ghost predicate KeptReplays<P, D>(check: Check<P, D>, recheck: Recheck<P, D>, slot: Slot) {
    var attempt := AttemptAt(check, slot).attempt;
    attempt.Kept? ==> recheck(slot.name, attempt.observation, false) == Passed(attempt.proof)
  }

  lemma KeptVerifiesOffline<P, D>(check: Check<P, D>, recheck: Recheck<P, D>, slot: Slot)
    requires ModesAgree(check) && SlotReplays(check, recheck, slot)
    ensures KeptReplays(check, recheck, slot)
  {
    KeptIffCleanOnceOrAfterDiscard(check, slot.name, slot.first, slot.second);
    assert ReplaysOffline(check, recheck, slot.name, slot.first, false);
    assert ReplaysOffline(check, recheck, slot.name, slot.second, false);
  }

  /**
   Online and offline agree, for every check and its recheck: whatever a session over distinct windows
   discards is accepted offline, and every window it keeps passes strictly offline with the recorded proof.
   */
  lemma {:induction false} SessionIsAcceptedOffline<P, D>(check: Check<P, D>, recheck: Recheck<P, D>,
                                                          slots: seq<Slot>, windows: set<string>)
    requires ModesAgree(check) && RetryableIsRefused(recheck)
    requires DistinctlyNamed(slots) && NamedIn(slots, windows) && SlotsReplay(check, recheck, slots)
    ensures Verified(Items(Discards(check, slots)), recheck, windows).Accepted?
    ensures forall i :: 0 <= i < |slots| ==> KeptReplays(check, recheck, slots[i])
  {
    DiscardsAreGenuine(check, recheck, slots, windows);
    AcceptedIffGenuineOncePerWindow(Items(Discards(check, slots)), recheck, windows);
    forall i | 0 <= i < |slots|
      ensures KeptReplays(check, recheck, slots[i])
    {
      KeptVerifiesOffline(check, recheck, slots[i]);
    }
  }

  /** Every run replays, whatever its outcome was. */
  ghost predicate AllReplay<P, D>(check: Check<P, D>, recheck: Recheck<P, D>) {
    forall name, outcome, observation, retry {:trigger check(name, outcome, observation, retry)} ::
      SameVerdict(check(name, outcome, observation, retry), recheck(name, observation, retry), observation)
  }

  lemma AllReplayCoversSlots<P, D>(check: Check<P, D>, recheck: Recheck<P, D>, slots: seq<Slot>)
    requires AllReplay(check, recheck)
    ensures SlotsReplay(check, recheck, slots)
  {}

  /** A session whose windows had these outcomes and the retained observations, and whose reruns raised. */
  function SessionOf<D>(items: seq<Item<D>>, outcomes: seq<Value>): (slots: seq<Slot>)
    requires |outcomes| == |items| && forall i :: 0 <= i < |items| ==> items[i].Discard?
    ensures |slots| == |items|
  {
    seq(|items|, i requires 0 <= i < |items| =>
      Slot(items[i].window, Ran(outcomes[i], items[i].observation), RunRaised))
  }

  /** The outcomes under which the check says online what the items record. */
  ghost predicate Explains<P, D>(check: Check<P, D>, items: seq<Item<D>>, outcomes: seq<Value>) {
    && |outcomes| == |items|
    && forall i :: 0 <= i < |items| ==>
         items[i].Discard? && check(items[i].window, outcomes[i], items[i].observation, true) == MayRerun(items[i].diagnostic)
  }

  lemma {:induction false} SessionDiscardsItsItems<P, D>(check: Check<P, D>, items: seq<Item<D>>, outcomes: seq<Value>)
    requires Explains(check, items, outcomes)
    ensures Discards(check, SessionOf(items, outcomes)) == items
  {
    if items != [] {
      var n := |items| - 1;
      var shorter := items[..n];
      assert items == shorter + [items[n]];
      SessionDiscardsItsItems(check, shorter, outcomes[..n]);
      assert SessionOf(items, outcomes)[..n] == SessionOf(shorter, outcomes[..n]);
      assert SessionOf(items, outcomes)[n] == Slot(items[n].window, Ran(outcomes[n], items[n].observation), RunRaised);
    }
  }
}
