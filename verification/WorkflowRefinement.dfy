/**
 What the steps of the workflow machine stand for: a detection reads only what discovery
 fetched, and a change of its journal is one signing of the compacted journal file.
 */
module WorkflowRefinement {
  import opened Support
  import opened ReleaseSelection
  import opened ReleaseDiscovery
  import opened RegistryJournal
  import opened RegistrySigning
  import opened EvidenceWorkflow

  // ----- Detection on what was fetched -----

  /** The record of one tag, if there is one. */
  function RecordOf(listing: seq<Release>, v: Version): Option<Release> {
    if listing == [] then None
    else if listing[0].tag == Stable(v) then Some(listing[0])
    else RecordOf(listing[1..], v)
  }

  /** What discovery gives detection: the record of the requested tag, or the pages up to the predecessor's. */
  function Fetched(listing: seq<Release>, signed: seq<Version>, requested: Option<Tag>): Option<seq<Release>> {
    match requested
    case Some(Stable(v)) =>
      (match RecordOf(listing, v)
       case Some(record) => Some([record])
       case None => None)
    case Some(OtherTag(_)) => None
    case None =>
      match Discovered(listing, signed)
      case Found(releases) => Some(releases)
      case _ => None
  }

  /** One step in which detection sees only what was fetched, and stops if nothing could be. */
  function FetchedStep(w: World, e: Event): World {
    match e
    case Detect(requested, _, _) =>
      (match Fetched(w.listing, Published(w.journal), requested)
       case None => w
       case Some(found) => Step(w.(listing := found), e).(listing := w.listing))
    case _ => Step(w, e)
  }

  function FetchedReplay(w: World, events: seq<Event>): World {
    if events == [] then w else FetchedStep(FetchedReplay(w, events[..|events| - 1]), events[|events| - 1])
  }

  lemma ReplayThree(w: World, a: Event, b: Event, c: Event)
    ensures Replay(w, [a] + [b] + [c]) == Step(Step(Step(w, a), b), c)
  {
    assert [a] + [b] == [a, b];
    ReplayTwo(w, a, b);
    ReplayAppend(w, [a] + [b], [c]);
    ReplayOne(Replay(w, [a] + [b]), c);
  }

  lemma FetchedStepIsSomeRun(w: World, e: Event) returns (steps: seq<Event>)
    ensures Replay(w, steps) == FetchedStep(w, e)
  {
    if e.Detect? {
      var fetched := Fetched(w.listing, Published(w.journal), e.requested);
      if fetched.None? {
        steps := [];
      } else {
        steps := [Listed(fetched.value)] + [e] + [Listed(w.listing)];
        ReplayThree(w, Listed(fetched.value), e, Listed(w.listing));
      }
    } else {
      steps := [e];
      ReplayOne(w, e);
    }
  }

  /** Whatever discovery leaves unread, a run on what was fetched is a run of the machine, so all that is proved of those holds. */
  lemma {:induction false} FetchedRunIsSomeRun(w: World, events: seq<Event>) returns (steps: seq<Event>)
    ensures Replay(w, steps) == FetchedReplay(w, events)
  {
    if events == [] {
      steps := [];
    } else {
      var earlier := FetchedRunIsSomeRun(w, events[..|events| - 1]);
      var last := FetchedStepIsSomeRun(Replay(w, earlier), events[|events| - 1]);
      ReplayAppend(w, earlier, last);
      steps := earlier + last;
    }
  }

  /** No two records have the same stable tag. */
  ghost predicate DistinctTags(listing: seq<Release>) {
    forall i, j :: 0 <= i < j < |listing| && listing[i].tag.Stable? ==> listing[i].tag != listing[j].tag
  }

  lemma {:induction false} RecordFound(listing: seq<Release>, v: Version)
    requires DistinctTags(listing)
    ensures v in Eligible(listing) <==> RecordOf(listing, v).Some? && Official(RecordOf(listing, v).value)
    ensures RecordOf(listing, v).Some? ==>
              RecordOf(listing, v).value.tag == Stable(v) && RecordOf(listing, v).value.publishedAt == PublicationOf(listing, v)
  {
    if listing != [] {
      var rest := listing[1..];
      assert forall i :: 0 <= i < |rest| ==> rest[i] == listing[i + 1];
      RecordFound(rest, v);
      assert v in Eligible(rest) <==> exists i :: 0 < i < |listing| && Official(listing[i]) && listing[i].tag.version == v by {
        if i :| 0 < i < |listing| && Official(listing[i]) && listing[i].tag.version == v {
          assert rest[i - 1] == listing[i];
        }
      }
    }
  }

  lemma OnlyRecord(record: Release, v: Version)
    requires record.tag == Stable(v)
    ensures v in Eligible([record]) <==> Official(record)
    ensures PublicationOf([record], v) == record.publishedAt
  {
    if Official(record) {
      assert [record][0] == record;
    }
  }

  /** A request decides on its tag's record as on the whole listing. */
  lemma RequestedOnRecord(listing: seq<Release>, record: Release, v: Version, published: seq<Version>, branches: set<Version>,
                          runs: seq<RunInfo>, dispatched: bool, chosen: Version)
    requires DistinctTags(listing) && RecordOf(listing, v) == Some(record)
    ensures Prepare([record], published, branches, runs, Some(Stable(v)), dispatched) == Chosen(chosen)
            <==> Prepare(listing, published, branches, runs, Some(Stable(v)), dispatched) == Chosen(chosen)
  {
    RecordFound(listing, v);
    OnlyRecord(record, v);
    RequestedChoosesIff([record], published, branches, runs, Stable(v), dispatched, chosen);
    RequestedChoosesIff(listing, published, branches, runs, Stable(v), dispatched, chosen);
  }

  lemma RequestedWithoutRecord(listing: seq<Release>, requested: Tag, published: seq<Version>, branches: set<Version>,
                               runs: seq<RunInfo>, dispatched: bool)
    requires DistinctTags(listing) && (requested.Stable? ==> RecordOf(listing, requested.version).None?)
    ensures Prepare(listing, published, branches, runs, Some(requested), dispatched) == NotOfficial
  {
    if requested.Stable? {
      RecordFound(listing, requested.version);
    }
    RequestedChoosesIff(listing, published, branches, runs, requested, dispatched, Version(0, 0, 0));
  }

  /** Detection chooses the same version from two listings, or none from either. */
  ghost predicate SameChoice(w: World, found: seq<Release>, e: Event)
    requires e.Detect?
  {
    forall v :: Detected(w.(listing := found), e.requested, e.dispatched) == Chosen(v)
                <==> Detected(w, e.requested, e.dispatched) == Chosen(v)
  }

  lemma SameChoiceSameStep(w: World, found: seq<Release>, e: Event)
    requires e.Detect? && SameChoice(w, found, e)
    ensures Step(w.(listing := found), e).(listing := w.listing) == Step(w, e)
  {
    var there := Detected(w.(listing := found), e.requested, e.dispatched);
    var here := Detected(w, e.requested, e.dispatched);
    assert there.Chosen? ==> here == Chosen(there.version);
    assert here.Chosen? ==> there == Chosen(here.version);
  }

  /** Requests are decided on the one record fetched exactly as on the listing. */
  lemma RequestedFetchIsEnough(w: World, e: Event)
    requires e.Detect? && e.requested.Some? && DistinctTags(w.listing)
    ensures FetchedStep(w, e) == Step(w, e)
  {
    var published, branches, runs := Published(w.journal), Branches(w.runs), Infos(w.runs);
    var tag := e.requested.value;
    if Fetched(w.listing, published, e.requested).None? {
      RequestedWithoutRecord(w.listing, tag, published, branches, runs, e.dispatched);
    } else {
      var record := RecordOf(w.listing, tag.version).value;
      forall v
        ensures Detected(w.(listing := [record]), e.requested, e.dispatched) == Chosen(v)
                <==> Detected(w, e.requested, e.dispatched) == Chosen(v)
      {
        RequestedOnRecord(w.listing, record, tag.version, published, branches, runs, e.dispatched, v);
      }
      SameChoiceSameStep(w, [record], e);
    }
  }

  /** A scheduled detection on the pages that were read is one on the whole listing if nothing higher is unread. */
  lemma ScheduledFetchIsEnough(w: World, e: Event)
    requires e.Detect? && e.requested.None? && Discovered(w.listing, Published(w.journal)).Found?
    requires NothingHigherLater(w.listing, Discovered(w.listing, Published(w.journal)).releases)
    ensures FetchedStep(w, e) == Step(w, e)
  {
    var published, branches, runs := Published(w.journal), Branches(w.runs), Infos(w.runs);
    var found := Discovered(w.listing, published).releases;
    DiscoveryRefinesFullSearchIff(w.listing, published);
    PrepareUnrequestedIgnoresDispatch(found, published, branches, runs, e.dispatched);
    PrepareUnrequestedIgnoresDispatch(w.listing, published, branches, runs, e.dispatched);
    assert Prepare(found, published, branches, runs, None, false) == Prepare(w.listing, published, branches, runs, None, false);
    SameChoiceSameStep(w, found, e);
  }

  // ----- Signings as changes of the machine's journal -----

  /** The machine's journal tells which versions have an entry and which are denied. */
  ghost predicate Abstracts(a: seq<Signing>, j: Journal) {
    && j.envelopes != []
    && (forall v :: v in Published(a) <==> v in ByVersion(Tip(j.envelopes).entries))
    && forall v :: Denied(a, v) <==> v in Retained(j)
  }

  lemma SignedSnoc(a: seq<Signing>, s: Signing, v: Version)
    ensures v in Published(a + [s]) <==> (if s.version == v then !s.Withdrawn? else v in Published(a))
    ensures Denied(a + [s], v) <==> Denied(a, v) || s == Withdrawn(v)
  {
    assert (a + [s])[..|a|] == a;
  }

  /** A withdrawal of `v`: the entry, if any, goes and the denial comes; nothing else happens. */
  ghost predicate Withdraws(j: Journal, next: Journal, v: Version)
    requires j.envelopes != [] && next.envelopes != []
  {
    && (forall u :: u in ByVersion(Tip(next.envelopes).entries) <==> u != v && u in ByVersion(Tip(j.envelopes).entries))
    && forall u :: u in Retained(next) <==> u == v || u in Retained(j)
  }

  /** A positive change of `v`. */
  ghost predicate Enters(j: Journal, next: Journal, v: Version)
    requires j.envelopes != [] && next.envelopes != []
  {
    && (forall u :: u in ByVersion(Tip(next.envelopes).entries) <==> u == v || u in ByVersion(Tip(j.envelopes).entries))
    && forall u :: u in Retained(next) <==> u in Retained(j)
  }

  /** A renewal of evidence for the same versions, or of a denial's details, or of the envelope alone. */
  ghost predicate Renews(j: Journal, next: Journal)
    requires j.envelopes != [] && next.envelopes != []
  {
    && ByVersion(Tip(next.envelopes).entries).Keys == ByVersion(Tip(j.envelopes).entries).Keys
    && Retained(next).Keys == Retained(j).Keys
  }

  lemma OnlyMember<T>(s: set<T>, x: T)
    requires |s| <= 1 && x in s
    ensures s == {x}
  {
    assert |s - {x}| == 0;
  }

  /** What is withdrawn and what is denied anew are one version, or nothing. */
  lemma WithdrawnSets(before: set<Version>, after: set<Version>, earlier: set<Version>, later: set<Version>,
                      changes: set<Version>) returns (target: Option<Version>)
    requires after <= before && earlier <= later && before - after <= later - earlier <= changes && |changes| <= 1
    requires before !! earlier && after !! later
    ensures match target
            case Some(v) => v !in earlier && after == before - {v} && later == earlier + {v}
            case None => after == before && later == earlier
  {
    if v :| v in later - earlier {
      OnlyMember(changes, v);
      assert later - earlier == {v};
      target := Some(v);
    } else {
      assert later - earlier == {} && before - after == {};
      target := None;
    }
  }

  lemma WithdrawalIs(before: map<Version, Entry>, after: map<Version, Entry>,
                     earlier: map<Version, Revocation>, later: map<Version, Revocation>) returns (target: Option<Version>)
    requires MayWithdraw(before, after, earlier, later)
    requires before.Keys !! earlier.Keys && after.Keys !! later.Keys
    ensures match target
            case Some(v) => v !in earlier && after.Keys == before.Keys - {v} && later.Keys == earlier.Keys + {v}
            case None => after.Keys == before.Keys && later.Keys == earlier.Keys
  {
    ChangedKeys(before, after);
    assert later.Keys - earlier.Keys <= DenialChanges(earlier, later);
    target := WithdrawnSets(before.Keys, after.Keys, earlier.Keys, later.Keys, DenialChanges(earlier, later));
  }

  lemma ChangedKeys(before: map<Version, Entry>, after: map<Version, Entry>)
    ensures after.Keys - before.Keys <= Changed(before, after) <= after.Keys
    ensures Changed(before, after) == {} ==> after.Keys <= before.Keys
  {
    assert forall v :: v in after.Keys && v !in before.Keys ==> v in Changed(before, after);
  }

  /** What is entered is one version, or nothing. */
  lemma EnteredSets(before: set<Version>, after: set<Version>, changed: set<Version>) returns (target: Option<Version>)
    requires before <= after && after - before <= changed <= after && |changed| <= 1
    ensures match target
            case Some(v) => after == before + {v} && changed == {v}
            case None => after == before && changed == {}
  {
    if v :| v in changed {
      OnlyMember(changed, v);
      target := Some(v);
    } else {
      assert changed == {} && after - before == {};
      target := None;
    }
  }

  /** `next` has the envelope as its tip, and denies what that denies. */
  ghost predicate Carried(next: Journal, e: Envelope) {
    && next.envelopes != [] && Tip(next.envelopes) == e && Retained(next).Keys == e.revocations.Keys
  }

  /** One version withdrawn, one entered, or nothing the machine tells apart. */
  ghost predicate Becomes(j: Journal, next: Journal, revoke: bool, target: Option<Version>)
    requires j.envelopes != [] && next.envelopes != []
  {
    match target
    case Some(v) => v !in Retained(j) && if revoke then Withdraws(j, next, v) else Enters(j, next, v)
    case None => Renews(j, next)
  }

  /** The parts of the transition check that a withdrawal, and that an addition or extension, must meet. */
  lemma TransitionParts(j: Journal, c: Candidate, now: int, rules: Rules)
    requires j.envelopes != [] && TransitionAllowed(j, c, now, rules)
    ensures var before, after := ByVersion(Tip(j.envelopes).entries), ByVersion(c.envelope.entries);
            if c.operation == Revoke then MayWithdraw(before, after, Retained(j), c.envelope.revocations)
            else before.Keys <= after.Keys && |Changed(before, after)| <= 1 && c.envelope.revocations == Retained(j)
  {}

  lemma WithdrawalBecomes(j: Journal, next: Journal, c: Candidate, now: int, rules: Rules) returns (target: Option<Version>)
    requires NoDeniedEntry(j) && TransitionAllowed(j, c, now, rules) && c.operation == Revoke && Carried(next, c.envelope)
    ensures Becomes(j, next, true, target)
  {
    TransitionParts(j, c, now, rules);
    EntriesAreUndenied(c.envelope, rules);
    target := WithdrawalIs(ByVersion(Tip(j.envelopes).entries), ByVersion(c.envelope.entries), Retained(j), c.envelope.revocations);
    var before, after := ByVersion(Tip(j.envelopes).entries).Keys, ByVersion(c.envelope.entries).Keys;
    match target {
      case Some(v) =>
        assert forall u :: u in after <==> u in before - {v};
        assert forall u :: u in Retained(next).Keys <==> u in Retained(j).Keys + {v};
      case None =>
    }
  }

  lemma AdditionBecomes(j: Journal, next: Journal, c: Candidate, now: int, rules: Rules) returns (target: Option<Version>)
    requires j.envelopes != [] && TransitionAllowed(j, c, now, rules) && c.operation != Revoke && Carried(next, c.envelope)
    ensures Becomes(j, next, false, target)
    ensures forall v :: v in Changed(ByVersion(Tip(j.envelopes).entries), ByVersion(c.envelope.entries)) ==> target == Some(v)
  {
    TransitionParts(j, c, now, rules);
    EntriesAreUndenied(c.envelope, rules);
    ChangedKeys(ByVersion(Tip(j.envelopes).entries), ByVersion(c.envelope.entries));
    target := EnteredSets(ByVersion(Tip(j.envelopes).entries).Keys, ByVersion(c.envelope.entries).Keys,
                          Changed(ByVersion(Tip(j.envelopes).entries), ByVersion(c.envelope.entries)));
    var before, after := ByVersion(Tip(j.envelopes).entries).Keys, ByVersion(c.envelope.entries).Keys;
    match target {
      case Some(v) =>
        assert forall u :: u in after <==> u in before + {v};
        assert forall u :: u in Retained(next).Keys <==> u in Retained(j).Keys;
      case None =>
    }
  }

  lemma SignedIsCarried(j: Journal, c: Candidate, now: int, rules: Rules)
    requires Sorts(rules) && SignedContent(j, c, now, rules).Some?
    ensures var next := SignedContent(j, c, now, rules).value;
            Carried(next, c.envelope) && Carries(next) && NoDeniedEntry(next)
  {
    SigningKeepsDenials(j, c, now, rules);
  }

  /** What one signing comes to; an addition enters the version whose entry it changes. */
  lemma SigningIs(j: Journal, c: Candidate, now: int, rules: Rules) returns (target: Option<Version>)
    requires Sorts(rules) && NoDeniedEntry(j) && SignedContent(j, c, now, rules).Some?
    ensures var next := SignedContent(j, c, now, rules).value;
            next.envelopes != [] && Carries(next) && NoDeniedEntry(next) && Becomes(j, next, c.operation == Revoke, target)
    ensures c.operation != Revoke ==>
              forall v :: v in Changed(ByVersion(Tip(j.envelopes).entries), ByVersion(c.envelope.entries)) ==> target == Some(v)
  {
    SignedFacts(j, c, now, rules);
    SignedIsCarried(j, c, now, rules);
    if c.operation == Revoke {
      target := WithdrawalBecomes(j, SignedContent(j, c, now, rules).value, c, now, rules);
    } else {
      target := AdditionBecomes(j, SignedContent(j, c, now, rules).value, c, now, rules);
    }
  }

  lemma WithdrawnAbstracts(a: seq<Signing>, j: Journal, next: Journal, v: Version)
    requires Abstracts(a, j) && next.envelopes != [] && Withdraws(j, next, v)
    ensures Abstracts(a + [Withdrawn(v)], next)
  {
    forall u
      ensures u in Published(a + [Withdrawn(v)]) <==> u in ByVersion(Tip(next.envelopes).entries)
      ensures Denied(a + [Withdrawn(v)], u) <==> u in Retained(next)
    {
      SignedSnoc(a, Withdrawn(v), u);
    }
  }

  lemma EnteredAbstracts(a: seq<Signing>, j: Journal, next: Journal, s: Signing)
    requires Abstracts(a, j) && next.envelopes != [] && !s.Withdrawn? && Enters(j, next, s.version)
    ensures Abstracts(a + [s], next)
  {
    forall u
      ensures u in Published(a + [s]) <==> u in ByVersion(Tip(next.envelopes).entries)
      ensures Denied(a + [s], u) <==> u in Retained(next)
    {
      SignedSnoc(a, s, u);
    }
  }

  /** The owner's events. */
  predicate ByTheOwner(e: Event) {
    e.OwnerSigns? || e.Withdraw?
  }

  lemma WithdrawStep(w: World, v: Version)
    requires !Denied(w.journal, v)
    ensures Replay(w, [Withdraw(v)]).journal == w.journal + [Withdrawn(v)]
  {
    ReplayOne(w, Withdraw(v));
  }

  lemma OwnerStep(w: World, v: Version)
    requires !Denied(w.journal, v)
    ensures Replay(w, [OwnerSigns(v)]).journal == w.journal + [ByOwner(v)]
  {
    ReplayOne(w, OwnerSigns(v));
  }

  lemma ChangeIsAStep(w: World, j: Journal, next: Journal, revoke: bool, target: Option<Version>) returns (steps: seq<Event>)
    requires Abstracts(w.journal, j) && next.envelopes != [] && Becomes(j, next, revoke, target)
    ensures |steps| <= 1 && forall i :: 0 <= i < |steps| ==> ByTheOwner(steps[i])
    ensures Abstracts(Replay(w, steps).journal, next)
  {
    match target {
      case None =>
        steps := [];
        RenewedAbstracts(w.journal, j, next);
      case Some(v) =>
        if revoke {
          steps := [Withdraw(v)];
          WithdrawStep(w, v);
          WithdrawnAbstracts(w.journal, j, next, v);
        } else {
          steps := [OwnerSigns(v)];
          OwnerStep(w, v);
          EnteredAbstracts(w.journal, j, next, ByOwner(v));
        }
    }
  }

  lemma RenewedAbstracts(a: seq<Signing>, j: Journal, next: Journal)
    requires Abstracts(a, j) && next.envelopes != [] && Renews(j, next)
    ensures Abstracts(a, next)
  {
    assert forall u :: u in ByVersion(Tip(next.envelopes).entries).Keys <==> u in ByVersion(Tip(j.envelopes).entries).Keys;
    assert forall u :: u in Retained(next).Keys <==> u in Retained(j).Keys;
  }

  /** Every signing the utility performs is at most one step of the owner in the machine. */
  lemma SigningIsAStep(w: World, j: Journal, c: Candidate, now: int, rules: Rules) returns (steps: seq<Event>)
    requires Sorts(rules) && NoDeniedEntry(j) && Abstracts(w.journal, j)
    ensures |steps| <= 1 && forall i :: 0 <= i < |steps| ==> ByTheOwner(steps[i])
    ensures SignedContent(j, c, now, rules).Some? ==>
              var next := SignedContent(j, c, now, rules).value;
              Abstracts(Replay(w, steps).journal, next) && NoDeniedEntry(next)
  {
    if SignedContent(j, c, now, rules).Some? {
      var target := SigningIs(j, c, now, rules);
      steps := ChangeIsAStep(w, j, SignedContent(j, c, now, rules).value, c.operation == Revoke, target);
    } else {
      steps := [];
    }
  }

  lemma NotYetPublished(w: World, i: nat)
    requires Sound(w) && i < |w.runs| && w.runs[i].base == w.journal
    ensures w.runs[i].release !in Published(w.journal)
  {
    BelowIsAnOrder();
  }

  lemma PublishStep(w: World, i: nat)
    requires i < |w.runs| && w.runs[i].branch && w.runs[i].base == w.journal
    ensures Step(w, Publish(i)).journal == w.journal + [Automated(w.runs[i].release)]
  {}

  /** Publishing a branch is signing its candidate, which adds an entry for the branch's version. */
  lemma PublishingIsASigning(w: World, i: nat, j: Journal, c: Candidate, now: int, rules: Rules)
    requires Sorts(rules) && NoDeniedEntry(j) && Sound(w) && Abstracts(w.journal, j)
    requires i < |w.runs| && w.runs[i].branch && w.runs[i].base == w.journal
    requires c.operation == Add && w.runs[i].release in ByVersion(c.envelope.entries)
    ensures SignedContent(j, c, now, rules).Some? ==>
              Abstracts(Step(w, Publish(i)).journal, SignedContent(j, c, now, rules).value)
  {
    if SignedContent(j, c, now, rules).Some? {
      var target := SigningIs(j, c, now, rules);
      PublishStep(w, i);
      NotYetPublished(w, i);
      assert w.runs[i].release in Changed(ByVersion(Tip(j.envelopes).entries), ByVersion(c.envelope.entries));
      EnteredAbstracts(w.journal, j, SignedContent(j, c, now, rules).value, Automated(w.runs[i].release));
    }
  }

  /**
   So every run of signings, however the file is compacted, is a run of the owner's steps in the machine:
   what holds of every run of the machine holds of the versions and denials of the signed journal.
   */
  lemma {:induction false} SigningsAreARun(w: World, j: Journal, orders: seq<Order>, rules: Rules) returns (steps: seq<Event>)
    requires Sorts(rules) && NoDeniedEntry(j) && Abstracts(w.journal, j)
    ensures forall i :: 0 <= i < |steps| ==> ByTheOwner(steps[i])
    ensures var end := SignedRun(j, orders, rules); NoDeniedEntry(end) && Abstracts(Replay(w, steps).journal, end)
  {
    if orders == [] {
      steps := [];
    } else {
      var last := orders[|orders| - 1];
      var before := SignedRun(j, orders[..|orders| - 1], rules);
      steps := SigningsAreARun(w, j, orders[..|orders| - 1], rules);
      if SignedContent(before, last.candidate, last.now, rules).Some? {
        var more := SigningIsAStep(Replay(w, steps), before, last.candidate, last.now, rules);
        ReplayAppend(w, steps, more);
        steps := steps + more;
      }
    }
  }

  /** Every journal without denied entries has a journal of the machine that abstracts it. */
  lemma SomeAbstraction(j: Journal) returns (a: seq<Signing>)
    requires NoDeniedEntry(j)
    ensures Abstracts(a, j)
  {
    var withdrawn := AllWithdrawn(Retained(j).Keys);
    a := AllEntered(withdrawn, ByVersion(Tip(j.envelopes).entries).Keys);
  }

  lemma {:induction false} AllWithdrawn(versions: set<Version>) returns (a: seq<Signing>)
    ensures forall v :: v !in Published(a)
    ensures forall v :: Denied(a, v) <==> v in versions
  {
    a := [];
    if v :| v in versions {
      var shorter := AllWithdrawn(versions - {v});
      a := shorter + [Withdrawn(v)];
      forall u
        ensures u !in Published(a) && (Denied(a, u) <==> u in versions)
      {
        SignedSnoc(shorter, Withdrawn(v), u);
      }
    }
  }

  lemma {:induction false} AllEntered(before: seq<Signing>, versions: set<Version>) returns (a: seq<Signing>)
    ensures forall v :: v in Published(a) <==> v in Published(before) || v in versions
    ensures forall v :: Denied(a, v) <==> Denied(before, v)
    decreases |versions|
  {
    a := before;
    if v :| v in versions {
      var shorter := AllEntered(before, versions - {v});
      a := shorter + [ByOwner(v)];
      forall u
        ensures u in Published(a) <==> u in Published(before) || u in versions
        ensures Denied(a, u) <==> Denied(before, u)
      {
        SignedSnoc(shorter, ByOwner(v), u);
      }
    }
  }
}
