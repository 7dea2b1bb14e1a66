/**
 The Alarmo lane's use of the retry-once protocol: the interval verifier as the check of a
 window, online against the identifier the run returned, offline against the one retained.
 */
module AlarmoWindows {
  import opened Values
  import opened Observation
  import opened ObservationModes
  import opened RetryOnce

  function FromVerdict(v: Verdict): Checked<Verdict, Diagnostic> {
    match v
    case Proof(_, _) => Passed(v)
    case Refused(d) => NotPassed(d)
    case Retryable(d) => MayRerun(d)
  }

  /** A window by its label; the name inside is that label. */
  type Windows = map<string, Window>

  function CheckAt(windows: Windows, name: string, identity: Value, observation: Value, retry: bool): Checked<Verdict, Diagnostic> {
    if name in windows then FromVerdict(Judge(windows[name], observation, identity, retry)) else Raised
  }

  /** Online, a known window passes, may be rerun or is refused as the interval verifier says under the run's identifier. */
  lemma CheckIs(windows: Windows, name: string, identity: Value, observation: Value, retry: bool)
    ensures var checked := CheckAt(windows, name, identity, observation, retry);
            if name !in windows then checked == Raised
            else
              match Judge(windows[name], observation, identity, retry)
              case Proof(commands, background) => checked == Passed(Proof(commands, background))
              case Refused(diagnostic) => checked == NotPassed(diagnostic)
              case Retryable(diagnostic) => checked == MayRerun(diagnostic)
  {}

  /** Offline the identifier is the one retained in the observation. */
  lemma RecheckIs(windows: Windows, name: string, observation: Value, retry: bool)
    ensures var checked := RecheckAt(windows, name, observation, retry);
            if observation.Dict? && "interval_id" in observation.fields
            then checked == CheckAt(windows, name, observation.fields["interval_id"], observation, retry)
            else checked == Raised
  {}

  function RecheckAt(windows: Windows, name: string, observation: Value, retry: bool): Checked<Verdict, Diagnostic> {
    if observation.Dict? && "interval_id" in observation.fields
    then CheckAt(windows, name, observation.fields["interval_id"], observation, retry)
    else Raised
  }

  function Online(windows: Windows): Check<Verdict, Diagnostic> {
    (name, identity, observation, retry) => CheckAt(windows, name, identity, observation, retry)
  }

  function Offline(windows: Windows): Recheck<Verdict, Diagnostic> {
    (name, observation, retry) => RecheckAt(windows, name, observation, retry)
  }

  lemma OnlineModesAgree(windows: Windows)
    ensures ModesAgree(Online(windows))
  {
    var check := Online(windows);
    forall name, identity, observation
      ensures AgreesAt(check(name, identity, observation, true), check(name, identity, observation, false))
    {
      if name in windows {
        ProofsCoincide(windows[name], observation, identity);
        StrictFromLenient(windows[name], observation, identity);
      }
    }
  }

  lemma OfflineRefusesRetryable(windows: Windows)
    ensures RetryableIsRefused(Offline(windows))
  {
    var recheck := Offline(windows);
    forall name, observation | recheck(name, observation, true).MayRerun?
      ensures recheck(name, observation, false).NotPassed?
    {
      StrictFromLenient(windows[name], observation, observation.fields["interval_id"]);
    }
  }

  /** A window that passes or may be rerun carries the identifier it was checked against. */
  lemma CheckedUnderItsOwnIdentity(windows: Windows, name: string, identity: Value, observation: Value, retry: bool)
    ensures var c := CheckAt(windows, name, identity, observation, retry);
            c.Passed? || c.MayRerun? ==>
              observation.Dict? && "interval_id" in observation.fields && observation.fields["interval_id"] == identity
    ensures SameVerdict(CheckAt(windows, name, identity, observation, retry), RecheckAt(windows, name, observation, retry), observation)
  {}

  lemma AlarmoReplays(windows: Windows)
    ensures AllReplay(Online(windows), Offline(windows))
  {
    var check, recheck := Online(windows), Offline(windows);
    forall name, identity, observation, retry
      ensures SameVerdict(check(name, identity, observation, retry), recheck(name, observation, retry), observation)
    {
      CheckedUnderItsOwnIdentity(windows, name, identity, observation, retry);
    }
  }

  /**
   Online and offline agree: whatever a session over distinct windows discards is accepted
   offline, and every window it keeps verifies strictly offline with the recorded proof.
   */
  lemma OnlineEvidenceIsAcceptedOffline(slots: seq<Slot>, windows: Windows)
    requires DistinctlyNamed(slots) && NamedIn(slots, windows.Keys)
    ensures Verified(Items(Discards(Online(windows), slots)), Offline(windows), windows.Keys).Accepted?
    ensures forall i :: 0 <= i < |slots| ==> KeptReplays(Online(windows), Offline(windows), slots[i])
  {
    OnlineModesAgree(windows);
    OfflineRefusesRetryable(windows);
    AlarmoReplays(windows);
    AllReplayCoversSlots(Online(windows), Offline(windows), slots);
    SessionIsAcceptedOffline(Online(windows), Offline(windows), slots, windows.Keys);
  }

  function Identities(items: seq<Item<Diagnostic>>): (r: seq<Value>)
    requires forall i :: 0 <= i < |items| ==> items[i].Discard? && items[i].observation.Dict?
    ensures |r| == |items| && forall i :: 0 <= i < |r| ==> r[i] == items[i].observation.Get("interval_id")
  {
    seq(|items|, i requires 0 <= i < |items| => items[i].observation.Get("interval_id"))
  }

  lemma GenuineIsExplained(item: Item<Diagnostic>, windows: Windows)
    requires Genuine(item, Offline(windows), windows.Keys)
    ensures CheckAt(windows, item.window, item.observation.Get("interval_id"), item.observation, true) == MayRerun(item.diagnostic)
  {}

  lemma IdentitiesExplain(items: seq<Item<Diagnostic>>, windows: Windows)
    requires AllGenuine(items, Offline(windows), windows.Keys)
    ensures Explains(Online(windows), items, Identities(items))
  {
    forall i | 0 <= i < |items|
      ensures Online(windows)(items[i].window, Identities(items)[i], items[i].observation, true) == MayRerun(items[i].diagnostic)
    {
      GenuineIsExplained(items[i], windows);
    }
  }

  /** Conversely, every evidence list that is accepted offline is what some session over distinct windows discards. */
  lemma AcceptedEvidenceIsSomeSession(evidence: Evidence<Diagnostic>, windows: Windows) returns (slots: seq<Slot>)
    requires Verified(evidence, Offline(windows), windows.Keys).Accepted?
    ensures DistinctlyNamed(slots) && NamedIn(slots, windows.Keys)
    ensures evidence == Items(Discards(Online(windows), slots))
  {
    OfflineRefusesRetryable(windows);
    AcceptedIffGenuineOncePerWindow(evidence, Offline(windows), windows.Keys);
    IdentitiesExplain(evidence.items, windows);
    slots := SessionOf(evidence.items, Identities(evidence.items));
    SessionDiscardsItsItems(Online(windows), evidence.items, Identities(evidence.items));
  }
}
