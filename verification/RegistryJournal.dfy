/**
 The signed registry journal: the key-free checks a candidate must pass against the
 current tip, and what chains of accepted candidates look like.
 */
module RegistryJournal {
  import opened Support
  import opened ReleaseSelection
  import opened Capabilities

  datatype Entry = Entry(version: Version, evidenceSha256: string, capabilities: seq<Profile>, identity: string)

  /** The record of one withdrawal: what it denies besides the version, and when and why. */
  datatype Revocation = Revocation(identity: string, details: string)

  datatype Envelope = Envelope(sequence: nat, previous: string, generatedAt: int, expiresAt: int,
                               entries: seq<Entry>, revocations: map<Version, Revocation>)

  datatype Operation = Add | Extend | Revoke

  datatype Candidate = Candidate(operation: Operation, keySha256: string, journalSha256: string,
                                 evidenceSha256: string, envelope: Envelope)

  /**
   Everything one verification is given. `candidate` and `transitionAllowed` are what the preparation
   utility's parser and transition check say of the files; both can only refuse more.
   */
  datatype Request = Request(version: Option<Version>, candidate: Option<Candidate>,
                             candidateSha256: string, expectedCandidate: string,
                             evidenceSha256: string, expectedEvidence: string,
                             keySha256: string, journalSha256: string,
                             transitionAllowed: bool, now: int)

  datatype Reason =
    | NotStableVersion | CandidateDigest | EvidenceDigest | CandidateShape | EvidenceNotBound | OtherKey
    | OtherPredecessor | NotNextSequence | TransitionRefused | NotCurrent | NotRevoked | NotTarget | OtherVersionChanged

  datatype Facts = Facts(newSequence: nat, source: Option<Version>, carried: seq<string>,
                         withheld: seq<string>, added: seq<string>)

  datatype Verification = Refused(reason: Reason) | Verified(facts: Facts)

  const CLOCK_SKEW := 300
  const MAX_LIFETIME := 90 * 24 * 3600

  /** Entries by version; of repeated versions the last counts. */
  function ByVersion(entries: seq<Entry>): (m: map<Version, Entry>)
    ensures forall v :: v in m ==> m[v] in entries && m[v].version == v
    ensures forall e :: e in entries ==> e.version in m
  {
    if entries == [] then map[]
    else
      var last := entries[|entries| - 1];
      ByVersion(entries[..|entries| - 1])[last.version := last]
  }

  function Versions(entries: seq<Entry>): (r: seq<Version>)
    ensures |r| == |entries| && forall i :: 0 <= i < |r| ==> r[i] == entries[i].version
  {
    seq(|entries|, i requires 0 <= i < |entries| => entries[i].version)
  }

  function LowerVersions(versions: seq<Version>, v: Version): (r: seq<Version>)
    ensures forall w :: w in r <==> w in versions && Below(w, v)
  {
    if versions == [] then []
    else
      var last := versions[|versions| - 1];
      assert forall w :: w in versions <==> w in versions[..|versions| - 1] || w == last;
      LowerVersions(versions[..|versions| - 1], v) + if Below(last, v) then [last] else []
  }

  /** The same version's entry, else the nearest lower one. */
  function PredecessorEntry(tip: Envelope, v: Version): (r: Option<Entry>)
    ensures r.Some? ==> r.value in tip.entries
  {
    var entries := ByVersion(tip.entries);
    var lower := LowerVersions(Versions(tip.entries), v);
    if v in entries then Some(entries[v])
    else if lower == [] then None
    else
      assert exists i :: 0 <= i < |tip.entries| && tip.entries[i].version == MaxOf(lower) by {
        var i :| 0 <= i < |tip.entries| && Versions(tip.entries)[i] == MaxOf(lower);
      }
      Some(entries[MaxOf(lower)])
  }

  /** Nearest below: nothing signed lies between the predecessor and the version. */
  lemma PredecessorIsNearest(tip: Envelope, v: Version)
    ensures var p := PredecessorEntry(tip, v);
            && (p.None? <==> forall w :: w in Versions(tip.entries) ==> Below(v, w))
            && (p.Some? ==> p.value.version == v || Below(p.value.version, v))
            && (p.Some? ==> forall w :: w in Versions(tip.entries) ==>
                  Below(v, w) || w == p.value.version || Below(w, p.value.version))
  {
    ListedVersions(tip.entries, v);
    var lower := LowerVersions(Versions(tip.entries), v);
    if v !in ByVersion(tip.entries) {
      forall w | w in Versions(tip.entries)
        ensures Below(v, w) || w in lower
      {}
    } else {
      forall w | w in Versions(tip.entries)
        ensures Below(v, w) || w == v || Below(w, v)
      {}
    }
  }

  lemma ListedVersions(entries: seq<Entry>, v: Version)
    ensures v in Versions(entries) <==> v in ByVersion(entries)
  {
    if v in Versions(entries) {
      var i :| 0 <= i < |entries| && Versions(entries)[i] == v;
      assert entries[i] in entries;
    }
    if v in ByVersion(entries) {
      var i :| 0 <= i < |entries| && entries[i] == ByVersion(entries)[v];
      assert Versions(entries)[i] == v;
    }
  }

  function CarriedNames(envelope: Envelope, v: Version): seq<string> {
    var after := ByVersion(envelope.entries);
    if v in after then Names(after[v].capabilities) else []
  }

  /** What a candidate may do to the entries: revoke its version, or write that version only. */
  function EntryFault(operation: Operation, v: Version, before: map<Version, Entry>, after: map<Version, Entry>,
                      denied: set<Version>, nowDenied: set<Version>, evidence: string): Option<Reason>
  {
    if operation == Revoke then
      if v !in nowDenied || v in after || (v in denied && v !in before) then Some(NotRevoked) else None
    else if v !in after || after[v].evidenceSha256 != evidence then Some(NotTarget)
    else if exists w :: w in after && w != v && !(w in before && before[w] == after[w]) then Some(OtherVersionChanged)
    else None
  }

  /** The refusals before the entries are compared, in order. `digest` is the content digest of an envelope. */
  function HeadFault(tip: Envelope, r: Request, digest: Envelope -> string): Option<Reason> {
    if r.version.None? then Some(NotStableVersion)
    else if !IsHex(r.expectedCandidate, 64) || r.candidateSha256 != r.expectedCandidate then Some(CandidateDigest)
    else if !IsHex(r.expectedEvidence, 64) || r.evidenceSha256 != r.expectedEvidence then Some(EvidenceDigest)
    else if r.candidate.None? then Some(CandidateShape)
    else
      var c := r.candidate.value;
      var e := c.envelope;
      if c.evidenceSha256 != r.expectedEvidence then Some(EvidenceNotBound)
      else if c.keySha256 != r.keySha256 then Some(OtherKey)
      else if c.journalSha256 != r.journalSha256 then Some(OtherPredecessor)
      else if e.sequence != tip.sequence + 1 || e.previous != digest(tip) then Some(NotNextSequence)
      else if !r.transitionAllowed then Some(TransitionRefused)
      else if !(e.generatedAt - CLOCK_SKEW <= r.now < e.expiresAt) || e.expiresAt - e.generatedAt > MAX_LIFETIME then
        Some(NotCurrent)
      else None
  }

  /** All the refusals, in order. */
  function Fault(tip: Envelope, r: Request, digest: Envelope -> string): (f: Option<Reason>)
    ensures f.None? ==> r.version.Some? && r.candidate.Some?
  {
    match HeadFault(tip, r, digest)
    case Some(reason) => Some(reason)
    case None =>
      var c := r.candidate.value;
      EntryFault(c.operation, r.version.value, ByVersion(tip.entries), ByVersion(c.envelope.entries),
                 tip.revocations.Keys, c.envelope.revocations.Keys, r.expectedEvidence)
  }

  function VerifyCandidate(tip: Envelope, r: Request, digest: Envelope -> string): Verification {
    match Fault(tip, r, digest)
    case Some(reason) => Refused(reason)
    case None =>
      var v := r.version.value;
      var e := r.candidate.value.envelope;
      var source := PredecessorEntry(tip, v);
      var carried := CarriedNames(e, v);
      var previous := if source.Some? then Names(source.value.capabilities) else [];
      Verified(Facts(e.sequence, if source.Some? then Some(source.value.version) else None, carried,
                     Missing(previous, carried), Missing(carried, previous)))
  }

  /** A journal: each envelope follows its predecessor's sequence and content digest. */
  ghost predicate Linked(journal: seq<Envelope>, digest: Envelope -> string) {
    forall i :: 0 < i < |journal| ==>
      journal[i].sequence == journal[i - 1].sequence + 1 && journal[i].previous == digest(journal[i - 1])
  }

  /** Verify a request against the tip; if accepted, its envelope becomes the new tip. */
  function Appended(journal: seq<Envelope>, r: Request, digest: Envelope -> string): (j: seq<Envelope>)
    requires journal != []
    ensures j != [] && journal <= j
  {
    if VerifyCandidate(journal[|journal| - 1], r, digest).Verified?
    then journal + [r.candidate.value.envelope] else journal
  }

  function AppendAll(journal: seq<Envelope>, requests: seq<Request>, digest: Envelope -> string): (j: seq<Envelope>)
    requires journal != []
    ensures j != []
  {
    if requests == [] then journal
    else Appended(AppendAll(journal, requests[..|requests| - 1], digest), requests[|requests| - 1], digest)
  }

  lemma {:induction false} GapFree(journal: seq<Envelope>, digest: Envelope -> string, i: nat)
    requires Linked(journal, digest) && i < |journal|
    ensures journal[i].sequence == journal[0].sequence + i
  {
    if i > 0 { GapFree(journal, digest, i - 1); }
  }

  /** `after` is `before` with some entries dropped and the one of `v` installed. */
  ghost predicate Installs(before: map<Version, Entry>, after: map<Version, Entry>, v: Version, entry: Entry, dropped: set<Version>) {
    after == (before - dropped)[v := entry]
  }

  /** What each operation may do to the entries and denials of the tip. */
  ghost predicate MayBecome(operation: Operation, v: Version, tip: Envelope, e: Envelope, evidence: string) {
    var before := ByVersion(tip.entries);
    var after := ByVersion(e.entries);
    if operation == Revoke then v in e.revocations.Keys && v !in after && (v in tip.revocations.Keys ==> v in before)
    else exists entry: Entry, dropped: set<Version> :: entry.evidenceSha256 == evidence && Installs(before, after, v, entry, dropped)
  }

  ghost predicate HeadAccepted(tip: Envelope, r: Request, digest: Envelope -> string) {
    && r.version.Some? && r.candidate.Some? && r.transitionAllowed
    && IsHex(r.candidateSha256, 64) && r.candidateSha256 == r.expectedCandidate
    && IsHex(r.evidenceSha256, 64) && r.evidenceSha256 == r.expectedEvidence
    && r.candidate.value.evidenceSha256 == r.evidenceSha256
    && r.candidate.value.keySha256 == r.keySha256
    && r.candidate.value.journalSha256 == r.journalSha256
    && Follows(tip, r.candidate.value.envelope, r.now, digest)
  }

  lemma NoHeadFaultIffAccepted(tip: Envelope, r: Request, digest: Envelope -> string)
    ensures HeadFault(tip, r, digest).None? <==> HeadAccepted(tip, r, digest)
  {}

  /** Every other entry that survives is unchanged. */
  ghost predicate OthersUnchanged(before: map<Version, Entry>, after: map<Version, Entry>, v: Version) {
    forall w :: w in after && w != v ==> w in before && before[w] == after[w]
  }

  lemma InstallsIffOthersUnchanged(before: map<Version, Entry>, after: map<Version, Entry>, v: Version)
    requires v in after
    ensures OthersUnchanged(before, after, v) <==> Installs(before, after, v, after[v], before.Keys - after.Keys)
  {}

  lemma InstalledIsThere(before: map<Version, Entry>, after: map<Version, Entry>, v: Version, entry: Entry, dropped: set<Version>)
    requires Installs(before, after, v, entry, dropped)
    ensures v in after && after[v] == entry && OthersUnchanged(before, after, v)
  {}

  lemma NoEntryFaultIffMayBecome(operation: Operation, v: Version, tip: Envelope, e: Envelope, evidence: string)
    ensures EntryFault(operation, v, ByVersion(tip.entries), ByVersion(e.entries), tip.revocations.Keys, e.revocations.Keys, evidence).None?
            <==> MayBecome(operation, v, tip, e, evidence)
  {
    if operation != Revoke {
      AdditionFaultIff(operation, v, ByVersion(tip.entries), ByVersion(e.entries), tip.revocations.Keys, e.revocations.Keys, evidence);
    }
  }

  lemma AdditionFaultIff(operation: Operation, v: Version, before: map<Version, Entry>, after: map<Version, Entry>,
                         denied: set<Version>, nowDenied: set<Version>, evidence: string)
    requires operation != Revoke
    ensures EntryFault(operation, v, before, after, denied, nowDenied, evidence).None?
            <==> exists entry: Entry, dropped: set<Version> ::
                   entry.evidenceSha256 == evidence && Installs(before, after, v, entry, dropped)
  {
    if v in after {
      InstallsIffOthersUnchanged(before, after, v);
    }
    if entry: Entry, dropped: set<Version> :| entry.evidenceSha256 == evidence && Installs(before, after, v, entry, dropped) {
      InstalledIsThere(before, after, v, entry, dropped);
    }
  }

  /**
   What acceptance means, in no particular order: the digests, key and journal are the expected ones, the
   envelope is the next and current, and its entries are the tip's with the version withdrawn, or with
   some dropped and exactly the version's own entry installed under the reviewed evidence.
   */
  lemma AcceptedIff(tip: Envelope, r: Request, digest: Envelope -> string)
    ensures VerifyCandidate(tip, r, digest).Verified?
            <==> && HeadAccepted(tip, r, digest)
                 && MayBecome(r.candidate.value.operation, r.version.value, tip, r.candidate.value.envelope, r.evidenceSha256)
  {
    NoHeadFaultIffAccepted(tip, r, digest);
    if r.version.Some? && r.candidate.Some? {
      NoEntryFaultIffMayBecome(r.candidate.value.operation, r.version.value, tip, r.candidate.value.envelope, r.expectedEvidence);
    }
  }

  // ----- What each refusal means -----

  /** What each reason demands of a request, in terms of the tip. */
  ghost predicate Meets(reason: Reason, tip: Envelope, r: Request, digest: Envelope -> string) {
    var e := if r.candidate.Some? then Some(r.candidate.value.envelope) else None;
    match reason
    case NotStableVersion => r.version.Some?
    case CandidateDigest => IsHex(r.expectedCandidate, 64) && r.candidateSha256 == r.expectedCandidate
    case EvidenceDigest => IsHex(r.expectedEvidence, 64) && r.evidenceSha256 == r.expectedEvidence
    case CandidateShape => r.candidate.Some?
    case EvidenceNotBound => r.candidate.Some? && r.candidate.value.evidenceSha256 == r.expectedEvidence
    case OtherKey => r.candidate.Some? && r.candidate.value.keySha256 == r.keySha256
    case OtherPredecessor => r.candidate.Some? && r.candidate.value.journalSha256 == r.journalSha256
    case NotNextSequence => e.Some? && e.value.sequence == tip.sequence + 1 && e.value.previous == digest(tip)
    case TransitionRefused => r.transitionAllowed
    case NotCurrent =>
      e.Some? && e.value.generatedAt - 300 <= r.now < e.value.expiresAt <= e.value.generatedAt + 90 * 24 * 3600
    case _ =>
      r.version.Some? && r.candidate.Some?
      && EntriesMeet(reason, r.candidate.value.operation, r.version.value, ByVersion(tip.entries), ByVersion(e.value.entries),
                     tip.revocations.Keys, e.value.revocations.Keys, r.expectedEvidence)
  }

  /** What each reason demands of the entries before and after, and of the versions denied before and after. */
  ghost predicate EntriesMeet(reason: Reason, operation: Operation, v: Version, before: map<Version, Entry>, after: map<Version, Entry>,
                              denied: set<Version>, nowDenied: set<Version>, evidence: string)
  {
    match reason
    case NotRevoked => operation == Revoke ==> v in nowDenied && v !in after && (v in denied ==> v in before)
    case NotTarget => operation != Revoke ==> v in after && after[v].evidenceSha256 == evidence
    case OtherVersionChanged =>
      operation != Revoke ==> forall w :: w in after && w != v ==> w in before && before[w] == after[w]
    case _ => true
  }

  ghost function Order(reason: Reason): nat {
    match reason
    case NotStableVersion => 0 case CandidateDigest => 1 case EvidenceDigest => 2 case CandidateShape => 3
    case EvidenceNotBound => 4 case OtherKey => 5 case OtherPredecessor => 6 case NotNextSequence => 7
    case TransitionRefused => 8 case NotCurrent => 9 case NotRevoked => 10 case NotTarget => 11
    case OtherVersionChanged => 12
  }

  /** The list has an entry for the version. */
  ghost predicate Lists(entries: seq<Entry>, v: Version) {
    exists i :: 0 <= i < |entries| && entries[i].version == v
  }

  /** Of several entries for a version, the last. */
  ghost function LastEntry(entries: seq<Entry>, v: Version): Entry
    requires Lists(entries, v)
  {
    var last := entries[|entries| - 1];
    if last.version == v then last
    else
      assert Lists(entries[..|entries| - 1], v) by {
        var i :| 0 <= i < |entries| && entries[i].version == v;
        assert entries[..|entries| - 1][i] == entries[i];
      }
      LastEntry(entries[..|entries| - 1], v)
  }

  lemma LastEntrySnoc(entries: seq<Entry>, last: Entry, v: Version)
    ensures Lists(entries + [last], v) <==> Lists(entries, v) || last.version == v
    ensures Lists(entries + [last], v) ==>
              LastEntry(entries + [last], v) == if last.version == v then last else LastEntry(entries, v)
  {
    var all := entries + [last];
    assert all[..|entries|] == entries && all[|entries|] == last;
    if i :| 0 <= i < |entries| && entries[i].version == v {
      assert all[i].version == v;
    }
    if i :| 0 <= i < |all| && all[i].version == v {
      assert i < |entries| ==> entries[i].version == v;
    }
  }

  /** The entry of a version is the last one listed for it. */
  lemma {:induction false} ByVersionIs(entries: seq<Entry>, v: Version)
    ensures v in ByVersion(entries) <==> Lists(entries, v)
    ensures Lists(entries, v) ==> ByVersion(entries)[v] == LastEntry(entries, v)
  {
    if entries != [] {
      var shorter := entries[..|entries| - 1];
      ByVersionIs(shorter, v);
      assert entries == shorter + [entries[|entries| - 1]];
      LastEntrySnoc(shorter, entries[|entries| - 1], v);
    }
  }

  lemma HeadFaultIs(tip: Envelope, r: Request, digest: Envelope -> string)
    ensures match HeadFault(tip, r, digest)
            case None => forall d :: Order(d) < 10 ==> Meets(d, tip, r, digest)
            case Some(reason) =>
              Order(reason) < 10 && !Meets(reason, tip, r, digest) && forall d :: Order(d) < Order(reason) ==> Meets(d, tip, r, digest)
  {}

  lemma EntryFaultIs(operation: Operation, v: Version, before: map<Version, Entry>, after: map<Version, Entry>,
                     denied: set<Version>, nowDenied: set<Version>, evidence: string)
    ensures match EntryFault(operation, v, before, after, denied, nowDenied, evidence)
            case None => forall d :: EntriesMeet(d, operation, v, before, after, denied, nowDenied, evidence)
            case Some(reason) =>
              && Order(reason) >= 10 && !EntriesMeet(reason, operation, v, before, after, denied, nowDenied, evidence)
              && forall d :: Order(d) < Order(reason) ==> EntriesMeet(d, operation, v, before, after, denied, nowDenied, evidence)
  {}

  /** A request is refused for the first demand it does not meet, and verified exactly when it meets all. */
  lemma RefusalIsFirstUnmet(tip: Envelope, r: Request, digest: Envelope -> string)
    ensures match VerifyCandidate(tip, r, digest)
            case Verified(_) => forall reason :: Meets(reason, tip, r, digest)
            case Refused(reason) =>
              !Meets(reason, tip, r, digest) && forall d :: Order(d) < Order(reason) ==> Meets(d, tip, r, digest)
  {
    HeadFaultIs(tip, r, digest);
    if HeadFault(tip, r, digest).None? {
      var c := r.candidate.value;
      EntryFaultIs(c.operation, r.version.value, ByVersion(tip.entries), ByVersion(c.envelope.entries),
                   tip.revocations.Keys, c.envelope.revocations.Keys, r.expectedEvidence);
    }
  }

  /** Which facts an approval reports. */
  lemma FactsAre(tip: Envelope, r: Request, digest: Envelope -> string)
    requires VerifyCandidate(tip, r, digest).Verified?
    ensures var facts := VerifyCandidate(tip, r, digest).facts;
            var e := r.candidate.value.envelope;
            var source := PredecessorEntry(tip, r.version.value);
            && facts.newSequence == e.sequence
            && (facts.source.Some? <==> source.Some?) && (source.Some? ==> facts.source.value == source.value.version)
            && (if Lists(e.entries, r.version.value)
                then facts.carried == Names(LastEntry(e.entries, r.version.value).capabilities) else facts.carried == [])
  {
    ByVersionIs(r.candidate.value.envelope.entries, r.version.value);
  }

  lemma {:induction false} MissingMembers(names: seq<string>, carried: seq<string>, c: string)
    ensures c in Missing(names, carried) <==> c in names && c !in carried
  {
    if names != [] {
      var shorter := names[..|names| - 1];
      MissingMembers(shorter, carried, c);
      assert names == shorter + [names[|names| - 1]];
    }
  }

  /** The approval facts account for every capability of the predecessor and of the new entry. */
  lemma FactsAccountForEveryCapability(tip: Envelope, r: Request, digest: Envelope -> string, c: string)
    requires VerifyCandidate(tip, r, digest).Verified?
    ensures var facts := VerifyCandidate(tip, r, digest).facts;
            var source := PredecessorEntry(tip, r.version.value);
            var previous := if source.Some? then Names(source.value.capabilities) else [];
            && facts.newSequence == tip.sequence + 1
            && (c in facts.withheld <==> c in previous && c !in facts.carried)
            && (c in facts.added <==> c in facts.carried && c !in previous)
            && (r.candidate.value.operation == Revoke ==> facts.carried == [] && (c in previous ==> c in facts.withheld))
  {
    AcceptedIff(tip, r, digest);
    var source := PredecessorEntry(tip, r.version.value);
    var previous := if source.Some? then Names(source.value.capabilities) else [];
    var carried := CarriedNames(r.candidate.value.envelope, r.version.value);
    MissingMembers(previous, carried, c);
    MissingMembers(carried, previous, c);
  }

  /** The envelope is the next one, and current at `now`. */
  predicate Follows(tip: Envelope, e: Envelope, now: int, digest: Envelope -> string) {
    && e.sequence == tip.sequence + 1 && e.previous == digest(tip)
    && e.generatedAt - 300 <= now < e.expiresAt <= e.generatedAt + 90 * 24 * 3600
  }

  lemma StepStaysLinked(journal: seq<Envelope>, r: Request, digest: Envelope -> string)
    requires journal != [] && Linked(journal, digest)
    ensures Linked(Appended(journal, r, digest), digest)
  {
    var tip := journal[|journal| - 1];
    if VerifyCandidate(tip, r, digest).Verified? {
      AcceptedIff(tip, r, digest);
    }
  }

  /** Whatever is requested, the journal stays linked and only grows. */
  lemma {:induction false} AcceptedCandidatesStayLinked(journal: seq<Envelope>, requests: seq<Request>,
                                                        digest: Envelope -> string)
    requires journal != [] && Linked(journal, digest)
    ensures Linked(AppendAll(journal, requests, digest), digest) && journal <= AppendAll(journal, requests, digest)
  {
    if requests != [] {
      var shorter := requests[..|requests| - 1];
      AcceptedCandidatesStayLinked(journal, shorter, digest);
      StepStaysLinked(AppendAll(journal, shorter, digest), requests[|requests| - 1], digest);
    }
  }

  ghost predicate Injective(digest: Envelope -> string) {
    forall a, b :: digest(a) == digest(b) ==> a == b
  }

  lemma LinkedPrefix(journal: seq<Envelope>, digest: Envelope -> string)
    requires |journal| > 1 && Linked(journal, digest)
    ensures Linked(journal[..|journal| - 1], digest)
    ensures digest(journal[..|journal| - 1][|journal| - 2]) == journal[|journal| - 1].previous
  {}

  lemma SameContent(a: Envelope, b: Envelope, digest: Envelope -> string)
    requires Injective(digest) && digest(a) == digest(b)
    ensures a == b
  {}

  /** The tip's content digest determines the whole history. */
  lemma {:induction false} TipDigestDeterminesHistory(a: seq<Envelope>, b: seq<Envelope>, digest: Envelope -> string)
    requires Injective(digest) && a != [] && b != []
    requires Linked(a, digest) && Linked(b, digest) && a[0].sequence == b[0].sequence
    requires digest(a[|a| - 1]) == digest(b[|b| - 1])
    ensures a == b
    decreases |a|
  {
    SameContent(a[|a| - 1], b[|b| - 1], digest);
    GapFree(a, digest, |a| - 1);
    GapFree(b, digest, |b| - 1);
    assert |a| == |b|;
    if |a| > 1 {
      var aa := a[..|a| - 1];
      var bb := b[..|b| - 1];
      assert a == aa + [a[|a| - 1]] && b == bb + [b[|b| - 1]];
      LinkedPrefix(a, digest);
      LinkedPrefix(b, digest);
      TipDigestDeterminesHistory(aa, bb, digest);
    }
  }

  function Tip(journal: seq<Envelope>): Envelope
    requires journal != []
  {
    journal[|journal| - 1]
  }

  /** Which requests of a run were accepted, each against the tip it met. */
  function Acceptances(journal: seq<Envelope>, requests: seq<Request>, digest: Envelope -> string): (f: seq<bool>)
    requires journal != []
    ensures |f| == |requests|
  {
    if requests == [] then []
    else
      var earlier := requests[..|requests| - 1];
      Acceptances(journal, earlier, digest)
      + [VerifyCandidate(Tip(AppendAll(journal, earlier, digest)), requests[|requests| - 1], digest).Verified?]
  }

  /** Request `k` was accepted, is for `v`, and no later accepted request is. */
  ghost predicate LastFor(requests: seq<Request>, accepted: seq<bool>, v: Version, k: nat)
    requires k < |requests| == |accepted|
  {
    && accepted[k] && requests[k].version == Some(v)
    && forall j :: k < j < |requests| && accepted[j] ==> requests[j].version != Some(v)
  }

  ghost predicate NeverFor(requests: seq<Request>, accepted: seq<bool>, v: Version)
    requires |requests| == |accepted|
  {
    forall j :: 0 <= j < |requests| && accepted[j] ==> requests[j].version != Some(v)
  }

  /** No revocation was accepted along the way. */
  ghost predicate OnlyAdditions(requests: seq<Request>, accepted: seq<bool>)
    requires |requests| == |accepted|
  {
    forall j :: 0 <= j < |requests| && accepted[j] ==>
      requests[j].candidate.Some? && requests[j].candidate.value.operation != Revoke
  }

  /** A run without accepted revocations after which `v` has an entry. */
  ghost predicate AdditionsLeave(journal: seq<Envelope>, requests: seq<Request>, digest: Envelope -> string, v: Version)
    requires journal != []
  {
    && OnlyAdditions(requests, Acceptances(journal, requests, digest))
    && v in ByVersion(Tip(AppendAll(journal, requests, digest)).entries)
  }

  /** One accepted addition: the target is new with the reviewed evidence, every other survivor is unchanged. */
  lemma AdditionChangesOnlyTarget(tip: Envelope, r: Request, digest: Envelope -> string)
    requires VerifyCandidate(tip, r, digest).Verified? && r.candidate.value.operation != Revoke
    ensures var before := ByVersion(tip.entries);
            var after := ByVersion(r.candidate.value.envelope.entries);
            var v := r.version.value;
            && v in after && after[v].evidenceSha256 == r.evidenceSha256
            && forall w :: w in after && w != v ==> w in before && before[w] == after[w]
  {
    AcceptedIff(tip, r, digest);
  }

  /** `entry` is the one the last accepted request for `v` installed, or the untouched original. */
  ghost predicate Traced(original: map<Version, Entry>, requests: seq<Request>, accepted: seq<bool>,
                         v: Version, entry: Entry)
    requires |requests| == |accepted|
  {
    || (exists k :: 0 <= k < |requests| && LastFor(requests, accepted, v, k) && InstalledBy(requests[k], entry))
    || (NeverFor(requests, accepted, v) && v in original && entry == original[v])
  }

  ghost predicate InstalledBy(r: Request, entry: Entry) {
    && r.candidate.Some? && entry in r.candidate.value.envelope.entries
    && entry.evidenceSha256 == r.evidenceSha256
  }

  /** A request that is refused, or for another version, leaves the trace of an entry alone. */
  lemma TraceExtends(original: map<Version, Entry>, requests: seq<Request>, accepted: seq<bool>, v: Version, entry: Entry)
    requires requests != [] && |requests| == |accepted|
    requires Traced(original, requests[..|requests| - 1], accepted[..|requests| - 1], v, entry)
    requires !(accepted[|requests| - 1] && requests[|requests| - 1].version == Some(v))
    ensures Traced(original, requests, accepted, v, entry)
  {
    var earlier := requests[..|requests| - 1];
    var flags := accepted[..|requests| - 1];
    if k :| 0 <= k < |earlier| && LastFor(earlier, flags, v, k) && InstalledBy(earlier[k], entry) {
      assert requests[k] == earlier[k];
      LastForExtends(requests, accepted, v, k);
    } else {
      NeverForExtends(requests, accepted, v);
    }
  }

  lemma LastForExtends(requests: seq<Request>, accepted: seq<bool>, v: Version, k: nat)
    requires |requests| == |accepted| && k < |requests| - 1
    requires LastFor(requests[..|requests| - 1], accepted[..|requests| - 1], v, k)
    requires !(accepted[|requests| - 1] && requests[|requests| - 1].version == Some(v))
    ensures LastFor(requests, accepted, v, k)
  {}

  lemma NeverForExtends(requests: seq<Request>, accepted: seq<bool>, v: Version)
    requires requests != [] && |requests| == |accepted|
    requires NeverFor(requests[..|requests| - 1], accepted[..|requests| - 1], v)
    requires !(accepted[|requests| - 1] && requests[|requests| - 1].version == Some(v))
    ensures NeverFor(requests, accepted, v)
  {}

  /**
   Provenance along any run of additions: every entry of the tip was installed, with the evidence
   reviewed for it, by the last accepted request for its version; an untouched entry is the original.
   */
  lemma {:induction false} EntriesComeFromTheirLastRequest(journal: seq<Envelope>, requests: seq<Request>,
                                                           digest: Envelope -> string, v: Version)
    requires journal != [] && AdditionsLeave(journal, requests, digest, v)
    ensures Traced(ByVersion(Tip(journal).entries), requests, Acceptances(journal, requests, digest), v,
                   ByVersion(Tip(AppendAll(journal, requests, digest)).entries)[v])
  {
    if requests != [] {
      var last := |requests| - 1;
      var accepted := Acceptances(journal, requests, digest);
      var entry := ByVersion(Tip(AppendAll(journal, requests, digest)).entries)[v];
      LastStep(journal, requests, digest, v);
      assert accepted[..last] == Acceptances(journal, requests[..last], digest);
      if accepted[last] && requests[last].version == Some(v) {
        assert LastFor(requests, accepted, v, last);
      } else {
        EntriesComeFromTheirLastRequest(journal, requests[..last], digest, v);
        TraceExtends(ByVersion(Tip(journal).entries), requests, accepted, v, entry);
      }
    }
  }

  /** What the last request of a run did to one surviving entry. */
  lemma LastStep(journal: seq<Envelope>, requests: seq<Request>, digest: Envelope -> string, v: Version)
    requires journal != [] && requests != [] && AdditionsLeave(journal, requests, digest, v)
    ensures var last := |requests| - 1;
            var entry := ByVersion(Tip(AppendAll(journal, requests, digest)).entries)[v];
            var before := ByVersion(Tip(AppendAll(journal, requests[..last], digest)).entries);
            if Acceptances(journal, requests, digest)[last] && requests[last].version == Some(v)
            then InstalledBy(requests[last], entry)
            else v in before && entry == before[v]
  {
    var last := |requests| - 1;
    var tip := Tip(AppendAll(journal, requests[..last], digest));
    var after := Tip(AppendAll(journal, requests, digest));
    AppendedLast(journal, requests, digest);
    if VerifyCandidate(tip, requests[last], digest).Verified? {
      assert requests[last].candidate.value.operation != Revoke by {
        assert Acceptances(journal, requests, digest)[last];
      }
      AdditionChangesOnlyTarget(tip, requests[last], digest);
    }
  }

  lemma AppendedLast(journal: seq<Envelope>, requests: seq<Request>, digest: Envelope -> string)
    requires journal != [] && requests != []
    ensures var last := |requests| - 1;
            var tip := Tip(AppendAll(journal, requests[..last], digest));
            var accepted := VerifyCandidate(tip, requests[last], digest).Verified?;
            && Acceptances(journal, requests, digest)[last] == accepted
            && Tip(AppendAll(journal, requests, digest))
               == (if accepted then requests[last].candidate.value.envelope else tip)
  {
    AppendedTip(AppendAll(journal, requests[..|requests| - 1], digest), requests[|requests| - 1], digest);
  }

  lemma AppendedTip(journal: seq<Envelope>, r: Request, digest: Envelope -> string)
    requires journal != []
    ensures var accepted := VerifyCandidate(Tip(journal), r, digest).Verified?;
            && (accepted ==> r.candidate.Some?)
            && Tip(Appended(journal, r, digest)) == (if accepted then r.candidate.value.envelope else Tip(journal))
  {}

  /**
   End to end: for the candidate assembled from the nearest signed predecessor, approval reports
   exactly the capabilities the evidence withheld, and nothing added.
   */
  lemma ApprovalReportsWhatEvidenceWithheld(tip: Envelope, r: Request, digest: Envelope -> string,
                                            results: map<string, bool>, groups: Groups)
    requires VerifyCandidate(tip, r, digest).Verified?
    requires PredecessorEntry(tip, r.version.value).Some?
    requires var baseline := PredecessorEntry(tip, r.version.value).value.capabilities;
             var subset := PassingSubset(baseline, results, groups);
             var after := ByVersion(r.candidate.value.envelope.entries);
             subset.Selected? && r.version.value in after && after[r.version.value].capabilities == subset.profiles
    ensures var baseline := PredecessorEntry(tip, r.version.value).value.capabilities;
            var facts := VerifyCandidate(tip, r, digest).facts;
            && facts.withheld == Withheld(baseline, PassingSubset(baseline, results, groups).profiles)
            && facts.added == []
  {
    EvidenceAndApprovalAgree(PredecessorEntry(tip, r.version.value).value.capabilities, results, groups);
  }

  /** For a version above everything signed, approval compares with the entry the detector inherits from. */
  lemma ApprovalUsesDetectorPredecessor(tip: Envelope, v: Version)
    requires tip.entries != [] && AboveAll(v, Versions(tip.entries))
    ensures PredecessorEntry(tip, v).Some?
    ensures PredecessorEntry(tip, v).value.version == MaxOf(Versions(tip.entries))
  {
    PredecessorIsNearest(tip, v);
    BelowIsAnOrder();
    var newest := MaxOf(Versions(tip.entries));
    assert Below(newest, v);
    var p := PredecessorEntry(tip, v).value;
    var i :| 0 <= i < |tip.entries| && tip.entries[i] == p;
    assert Versions(tip.entries)[i] == p.version;
  }
}
