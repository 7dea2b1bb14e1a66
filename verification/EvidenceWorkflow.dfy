/**
 The evidence workflow as a state machine: the release listing changes, queued runs detect
 on a schedule or by dispatch, attempts finish and may leave a candidate branch, a branch
 is published only against the exact journal it was prepared from, and the owner signs
 entries and withdraws them at any time.
 */
module EvidenceWorkflow {
  import opened Support
  import opened ReleaseSelection

  datatype Status = Live | Succeeded | RefusedO3 | FailedOtherwise

  /** One signed change of the journal: an automated or an owner's entry for a version, or its withdrawal. */
  datatype Signing = Automated(version: Version) | ByOwner(version: Version) | Withdrawn(version: Version)

  /**
   One attempt: when its run was created, which is before it was let in; the journal its candidate is
   bound to by digest; and whether it left a candidate branch, which is never removed.
   */
  datatype Run = Run(release: Version, created: int, byDispatch: bool, base: seq<Signing>, status: Status, branch: bool)

  datatype World = World(listing: seq<Release>, journal: seq<Signing>, runs: seq<Run>)

  datatype Event =
    | Listed(listing: seq<Release>)
    | Detect(requested: Option<Tag>, dispatched: bool, created: int)
    | Finish(run: nat, status: Status, branch: bool)
    | Publish(run: nat)
    | OwnerSigns(version: Version)
    | Withdraw(version: Version)

  /** The versions with a current entry: a withdrawal deletes the entry, a renewal replaces it. */
  function Published(journal: seq<Signing>): (r: seq<Version>) {
    if journal == [] then []
    else
      var last := journal[|journal| - 1];
      var others := Without(Published(journal[..|journal| - 1]), last.version);
      if last.Withdrawn? then others else others + [last.version]
  }

  /** Withdrawals are retained for ever. */
  predicate Denied(journal: seq<Signing>, v: Version) {
    Withdrawn(v) in journal
  }

  /** What is known of an attempt: only an O3 refusal is terminal by outcome. */
  function Info(run: Run): RunInfo {
    RunInfo(run.release, run.created, run.status != Live, run.status == RefusedO3, run.status == Succeeded)
  }

  function Infos(runs: seq<Run>): (r: seq<RunInfo>)
    ensures |r| == |runs| && forall i :: 0 <= i < |r| ==> r[i] == Info(runs[i])
  {
    seq(|runs|, i requires 0 <= i < |runs| => Info(runs[i]))
  }

  /** The versions that have a candidate branch. */
  function Branches(runs: seq<Run>): (b: set<Version>)
    ensures forall v :: v in b <==> exists i :: 0 <= i < |runs| && runs[i].release == v && runs[i].branch
  {
    set i | 0 <= i < |runs| && runs[i].branch :: runs[i].release
  }

  predicate Busy(w: World) {
    exists i :: 0 <= i < |w.runs| && w.runs[i].status == Live
  }

  /** Runs queue one behind the other, and stop when there is no signed predecessor to inherit from. */
  function Detected(w: World, requested: Option<Tag>, dispatched: bool): Selection {
    if Busy(w) || Published(w.journal) == [] then Nothing
    else Prepare(w.listing, Published(w.journal), Branches(w.runs), Infos(w.runs), requested, dispatched)
  }

  function Started(w: World, v: Version, requested: Option<Tag>, dispatched: bool, created: int): Run {
    Run(v, created, dispatched && requested == Some(Stable(v)), w.journal, Live, false)
  }

  /**
   How an attempt may end: no candidate is assembled for a withdrawn release, and a branch is pushed only
   for an assembled candidate, once per version, while the journal is still the one it is bound to.
   */
  predicate MayFinish(w: World, run: Run, status: Status, branch: bool) {
    && run.status == Live && status != Live
    && (status == Succeeded || branch ==> !Denied(run.base, run.release))
    && (branch ==> status != RefusedO3 && run.release !in Branches(w.runs) && run.base == w.journal)
  }

  /**
   Events that cannot happen now leave the world alone. `WorkflowRefinement` says what the steps stand for: a
   change of the journal is a signing, and detection reads only what discovery fetched.
   */
  function Step(w: World, e: Event): World {
    match e
    case Listed(listing) => w.(listing := listing)
    case Detect(requested, dispatched, created) =>
      (match Detected(w, requested, dispatched)
       case Chosen(v) => w.(runs := w.runs + [Started(w, v, requested, dispatched, created)])
       case _ => w)
    case Finish(run, status, branch) =>
      if run < |w.runs| && MayFinish(w, w.runs[run], status, branch)
      then w.(runs := w.runs[run := w.runs[run].(status := status, branch := branch)]) else w
    case Publish(run) =>
      if run < |w.runs| && w.runs[run].branch && w.runs[run].base == w.journal
      then w.(journal := w.journal + [Automated(w.runs[run].release)]) else w
    case OwnerSigns(v) =>
      if !Denied(w.journal, v) then w.(journal := w.journal + [ByOwner(v)]) else w
    case Withdraw(v) =>
      if !Denied(w.journal, v) || v in Published(w.journal)
      then w.(journal := w.journal + [Withdrawn(v)]) else w
  }

  function Replay(w: World, events: seq<Event>): World {
    if events == [] then w else Step(Replay(w, events[..|events| - 1]), events[|events| - 1])
  }

  /** An earlier attempt at the same release leaves room for a later one. */
  predicate Superseded(earlier: Run, later: Run) {
    earlier.status == FailedOtherwise || (earlier.status == RefusedO3 && later.byDispatch)
  }

  /** No version has an attempt after a success, or an automatic one after a refusal. */
  ghost predicate NoRepeats(w: World) {
    forall i, j :: 0 <= i < j < |w.runs| && w.runs[i].release == w.runs[j].release
                   ==> Superseded(w.runs[i], w.runs[j])
  }

  /** Only the last attempt can be live. */
  ghost predicate OneAtATime(w: World) {
    forall i :: 0 <= i < |w.runs| - 1 ==> w.runs[i].status != Live
  }

  /** No version has two candidate branches. */
  ghost predicate OneBranch(w: World) {
    forall i, j :: 0 <= i < j < |w.runs| && w.runs[i].branch && w.runs[j].branch ==> w.runs[i].release != w.runs[j].release
  }

  /** Each attempt was above everything signed when it was prepared, and no candidate is of a withdrawn version. */
  ghost predicate BasesBelow(w: World) {
    forall i :: 0 <= i < |w.runs| ==>
      && Published(w.runs[i].base) != [] && AboveAll(w.runs[i].release, Published(w.runs[i].base))
      && (w.runs[i].branch ==> w.runs[i].status != Live && !Denied(w.runs[i].base, w.runs[i].release))
  }

  ghost predicate Sound(w: World) {
    OneAtATime(w) && OneBranch(w) && BasesBelow(w)
  }

  /** The entry signed at `k` was allowed there; an automated one is above everything signed then. */
  ghost predicate SignedSoundly(journal: seq<Signing>, k: nat)
    requires k < |journal|
  {
    && (!journal[k].Withdrawn? ==> !Denied(journal[..k], journal[k].version))
    && (journal[k].Automated? ==> AboveAll(journal[k].version, Published(journal[..k])))
  }

  ghost predicate SoundSince(initial: nat, journal: seq<Signing>) {
    initial <= |journal| && forall k :: initial <= k < |journal| ==> SignedSoundly(journal, k)
  }

  lemma SoundSnoc(initial: nat, journal: seq<Signing>, s: Signing)
    requires SoundSince(initial, journal) && SignedSoundly(journal + [s], |journal|)
    ensures SoundSince(initial, journal + [s])
  {
    forall k | initial <= k < |journal|
      ensures SignedSoundly(journal + [s], k)
    {
      assert SignedSoundly(journal, k);
      assert (journal + [s])[..k] == journal[..k];
    }
  }

  /** What detection chose is above everything signed, has no branch, and is open to the attempts in view. */
  lemma DetectedIsFree(w: World, requested: Option<Tag>, dispatched: bool, v: Version)
    requires Detected(w, requested, dispatched) == Chosen(v)
    ensures !Busy(w) && Published(w.journal) != [] && AboveAll(v, Published(w.journal)) && v !in Branches(w.runs)
    ensures OpenInView(w.listing, Infos(w.runs), v, dispatched && requested == Some(Stable(v)))
  {
    var published := Published(w.journal);
    match requested {
      case None =>
        PrepareUnrequestedIgnoresDispatch(w.listing, published, Branches(w.runs), Infos(w.runs), dispatched);
        ScheduledChoosesIff(w.listing, published, Branches(w.runs), Infos(w.runs), v);
      case Some(tag) =>
        RequestedChoosesIff(w.listing, published, Branches(w.runs), Infos(w.runs), tag, dispatched, v);
    }
  }

  lemma PrepareUnrequestedIgnoresDispatch(releases: seq<Release>, published: seq<Version>, branches: set<Version>,
                                          runs: seq<RunInfo>, dispatched: bool)
    ensures Prepare(releases, published, branches, runs, None, dispatched)
            == Prepare(releases, published, branches, runs, None, false)
  {}

  lemma StepKeepsInvariants(w: World, e: Event, initial: nat)
    requires Sound(w) && SoundSince(initial, w.journal)
    ensures var next := Step(w, e); Sound(next) && SoundSince(initial, next.journal)
  {
    match e {
      case Listed(_) =>
      case Detect(requested, dispatched, _) =>
        if Detected(w, requested, dispatched).Chosen? {
          DetectedIsFree(w, requested, dispatched, Detected(w, requested, dispatched).version);
        }
      case Finish(run, status, branch) =>
        if Step(w, e) != w {
          FinishKeepsSound(w, run, status, branch);
        }
      case Publish(run) =>
        if Step(w, e) != w {
          SigningKeepsSound(initial, w.journal, Automated(w.runs[run].release));
        }
      case OwnerSigns(v) =>
        if Step(w, e) != w {
          SigningKeepsSound(initial, w.journal, ByOwner(v));
        }
      case Withdraw(v) =>
        if Step(w, e) != w {
          SigningKeepsSound(initial, w.journal, Withdrawn(v));
        }
    }
  }

  lemma FinishKeepsSound(w: World, run: nat, status: Status, branch: bool)
    requires Sound(w) && run < |w.runs| && MayFinish(w, w.runs[run], status, branch)
    ensures Sound(Step(w, Finish(run, status, branch)))
  {
    var next := Step(w, Finish(run, status, branch));
    forall i, j | 0 <= i < j < |next.runs| && next.runs[i].branch && next.runs[j].branch
      ensures next.runs[i].release != next.runs[j].release
    {
      assert i != run ==> next.runs[i] == w.runs[i];
      assert j != run ==> next.runs[j] == w.runs[j];
    }
  }

  lemma SigningKeepsSound(initial: nat, journal: seq<Signing>, s: Signing)
    requires SoundSince(initial, journal)
    requires !s.Withdrawn? ==> !Denied(journal, s.version)
    requires s.Automated? ==> AboveAll(s.version, Published(journal))
    ensures SoundSince(initial, journal + [s])
  {
    assert (journal + [s])[..|journal|] == journal;
    SoundSnoc(initial, journal, s);
  }

  /**
   Over every run from a fresh world, whatever the owner signs or withdraws: at most one attempt is live, no
   version gets a second candidate branch, the journal only grows, no withdrawn version is ever signed again,
   and each automated entry is above everything signed then.
   */
  lemma {:induction false} WorkflowIsSafe(w: World, events: seq<Event>)
    requires w.runs == []
    ensures var end := Replay(w, events);
            Sound(end) && SoundSince(|w.journal|, end.journal) && w.journal <= end.journal
  {
    if events != [] {
      WorkflowIsSafe(w, events[..|events| - 1]);
      StepKeepsInvariants(Replay(w, events[..|events| - 1]), events[|events| - 1], |w.journal|);
    }
  }

  // ----- What each event does, in terms of attempts and signings -----

  /** The last change of the version is an entry. */
  ghost predicate LastSigned(journal: seq<Signing>, v: Version) {
    exists k :: 0 <= k < |journal| && journal[k].version == v && !journal[k].Withdrawn?
                && forall l :: k < l < |journal| ==> journal[l].version != v
  }

  lemma LastSignedSnoc(journal: seq<Signing>, last: Signing, v: Version)
    ensures LastSigned(journal + [last], v) <==> if last.version == v then !last.Withdrawn? else LastSigned(journal, v)
  {
    var all := journal + [last];
    assert forall k :: 0 <= k < |journal| ==> all[k] == journal[k];
    if last.version == v {
      assert all[|journal|] == last;
    } else if LastSigned(journal, v) {
      var k :| 0 <= k < |journal| && journal[k].version == v && !journal[k].Withdrawn?
               && forall l :: k < l < |journal| ==> journal[l].version != v;
      assert all[k].version == v && forall l :: k < l < |all| ==> all[l].version != v;
    }
  }

  /** Exactly the versions whose last change is an entry are published. */
  lemma {:induction false} PublishedIs(journal: seq<Signing>, v: Version)
    ensures v in Published(journal) <==> LastSigned(journal, v)
  {
    if journal != [] {
      var shorter := journal[..|journal| - 1];
      var last := journal[|journal| - 1];
      PublishedIs(shorter, v);
      LastSignedSnoc(shorter, last, v);
      assert journal == shorter + [last];
    }
  }

  /** Every attempt at the version since that moment failed, or was refused and is retried. */
  ghost predicate FailedSince(w: World, v: Version, at: int, retried: bool) {
    forall i :: 0 <= i < |w.runs| && w.runs[i].release == v && w.runs[i].created >= at ==>
      w.runs[i].status == FailedOtherwise || (w.runs[i].status == RefusedO3 && retried)
  }

  /** No attempt at the version since its publication stands in the way. */
  ghost predicate AttemptsLeaveRoom(w: World, v: Version, retried: bool) {
    w.runs == [] || exists at :: PublishedAt(w.listing, v, at) && FailedSince(w, v, at, retried)
  }

  /** A detection may start an attempt at `v` now. */
  ghost predicate MayStart(w: World, v: Version, requested: Option<Tag>, dispatched: bool) {
    && (forall i :: 0 <= i < |w.runs| ==> w.runs[i].status != Live)
    && (exists u :: LastSigned(w.journal, u)) && (forall u :: LastSigned(w.journal, u) ==> NoLater(u, v) && u != v)
    && (forall i :: 0 <= i < |w.runs| && w.runs[i].release == v ==> !w.runs[i].branch)
    && Recorded(w.listing, v)
    && (match requested
        case None => forall u :: Recorded(w.listing, u) ==> NoLater(u, v)
        case Some(tag) => tag == Stable(v))
    && AttemptsLeaveRoom(w, v, dispatched && requested == Some(Stable(v)))
  }

  lemma RoomIff(w: World, v: Version, retried: bool)
    requires !Busy(w)
    ensures LeftOpen(w.listing, Infos(w.runs), v, retried) <==> AttemptsLeaveRoom(w, v, retried)
  {
    forall at
      ensures OpenSince(Infos(w.runs), v, at, retried) <==> FailedSince(w, v, at, retried)
    {
      SinceIff(w, v, at, retried);
    }
  }

  lemma SinceIff(w: World, v: Version, at: int, retried: bool)
    requires !Busy(w)
    ensures OpenSince(Infos(w.runs), v, at, retried) <==> FailedSince(w, v, at, retried)
  {
    forall i | 0 <= i < |w.runs|
      ensures Info(w.runs[i]) in Infos(w.runs) && w.runs[i].status != Live
    {
      assert Infos(w.runs)[i] == Info(w.runs[i]);
    }
    if FailedSince(w, v, at, retried) {
      forall run | run in Infos(w.runs) && run.release == v && run.created >= at
        ensures run.completed && !run.succeeded && (run.refused ==> retried)
      {
        var i :| 0 <= i < |w.runs| && Infos(w.runs)[i] == run;
      }
    }
  }

  lemma DetectedIff(w: World, requested: Option<Tag>, dispatched: bool, v: Version)
    ensures Detected(w, requested, dispatched) == Chosen(v) <==> MayStart(w, v, requested, dispatched)
  {
    var published := Published(w.journal);
    forall u
      ensures u in published <==> LastSigned(w.journal, u)
    {
      PublishedIs(w.journal, u);
    }
    if published != [] {
      assert published[0] in published;
    }
    if !Busy(w) && published != [] {
      RoomIff(w, v, dispatched && requested == Some(Stable(v)));
      match requested {
        case None =>
          PrepareUnrequestedIgnoresDispatch(w.listing, published, Branches(w.runs), Infos(w.runs), dispatched);
          ScheduledPicksNewestOrNothing(w.listing, published, Branches(w.runs), Infos(w.runs), v);
        case Some(tag) =>
          RequestedPicksThatVersionOrNothing(w.listing, published, Branches(w.runs), Infos(w.runs), tag, dispatched, v);
      }
    }
  }

  /** A detection starts one attempt, bound to the journal as it is, exactly at the version that may start; else nothing. */
  lemma DetectIs(w: World, requested: Option<Tag>, dispatched: bool, created: int)
    ensures forall v :: MayStart(w, v, requested, dispatched) ==>
              Step(w, Detect(requested, dispatched, created))
              == w.(runs := w.runs + [Run(v, created, dispatched && requested == Some(Stable(v)), w.journal, Live, false)])
    ensures (forall v :: !MayStart(w, v, requested, dispatched)) ==> Step(w, Detect(requested, dispatched, created)) == w
  {
    forall v
      ensures Detected(w, requested, dispatched) == Chosen(v) <==> MayStart(w, v, requested, dispatched)
    {
      DetectedIff(w, requested, dispatched, v);
    }
  }

  /** A signing of the owner is added exactly to an undenied version; a withdrawal exactly where it denies or removes something. */
  lemma OwnerStepsAre(w: World, v: Version)
    ensures var denied := exists k :: 0 <= k < |w.journal| && w.journal[k] == Withdrawn(v);
            && Step(w, OwnerSigns(v)) == (if denied then w else w.(journal := w.journal + [ByOwner(v)]))
            && Step(w, Withdraw(v)) == (if denied && !LastSigned(w.journal, v) then w else w.(journal := w.journal + [Withdrawn(v)]))
  {
    PublishedIs(w.journal, v);
  }

  /** A branch is published exactly onto the journal it is bound to. */
  lemma PublishIs(w: World, i: nat)
    ensures Step(w, Publish(i))
            == if i < |w.runs| && w.runs[i].branch && w.runs[i].base == w.journal
               then w.(journal := w.journal + [Automated(w.runs[i].release)]) else w
  {}

  /**
   A live attempt ends once, in any of three ways; it succeeds or leaves a branch only for a version not withdrawn
   when it started, and leaves one only unrefused, once per version, while the journal has not moved.
   */
  lemma FinishIs(w: World, i: nat, status: Status, branch: bool)
    ensures Step(w, Finish(i, status, branch)) == w
            || (&& i < |w.runs| && w.runs[i].status == Live && status != Live
                && Step(w, Finish(i, status, branch)) == w.(runs := w.runs[i := w.runs[i].(status := status, branch := branch)]))
    ensures i < |w.runs| && w.runs[i].status == Live && status != Live
            && (status == Succeeded || branch ==> Withdrawn(w.runs[i].release) !in w.runs[i].base)
            && (branch ==> && status != RefusedO3 && w.runs[i].base == w.journal
                           && forall k :: 0 <= k < |w.runs| && w.runs[k].release == w.runs[i].release ==> !w.runs[k].branch)
            ==> Step(w, Finish(i, status, branch)) == w.(runs := w.runs[i := w.runs[i].(status := status, branch := branch)])
  {}

  // ----- When attempts are repeated -----

  /** The release's publication, as listed now, is after the run was created: detection skips that run. */
  predicate OutOfView(w: World, run: Run) {
    PublicationOf(w.listing, run.release).Moment? && run.created < PublicationOf(w.listing, run.release).at
  }

  /** Every attempt that this detection skips leaves room for the one it starts. */
  ghost predicate ForgetsNothing(w: World, e: Event) {
    e.Detect? && Detected(w, e.requested, e.dispatched).Chosen? ==>
      var v := Detected(w, e.requested, e.dispatched).version;
      forall i :: 0 <= i < |w.runs| && w.runs[i].release == v && OutOfView(w, w.runs[i]) ==>
        Superseded(w.runs[i], Started(w, v, e.requested, e.dispatched, e.created))
  }

  /** An attempt in view leaves room for whatever detection starts. */
  lemma InViewIsSuperseded(w: World, e: Event, i: nat)
    requires e.Detect? && Detected(w, e.requested, e.dispatched).Chosen? && i < |w.runs|
    requires w.runs[i].release == Detected(w, e.requested, e.dispatched).version && !OutOfView(w, w.runs[i])
    ensures Superseded(w.runs[i], Started(w, w.runs[i].release, e.requested, e.dispatched, e.created))
  {
    var v := w.runs[i].release;
    DetectedIsFree(w, e.requested, e.dispatched, v);
    var seen := InView(Infos(w.runs), PublicationOf(w.listing, v)).value;
    assert Infos(w.runs)[i] == Info(w.runs[i]);
    assert Info(w.runs[i]) in seen;
    var k :| 0 <= k < |seen| && seen[k] == Info(w.runs[i]);
  }

  /** A step repeats nothing exactly when it forgets nothing. */
  lemma StepRepeatsNothingIff(w: World, e: Event)
    requires NoRepeats(w) && Sound(w)
    ensures NoRepeats(Step(w, e)) <==> ForgetsNothing(w, e)
  {
    if e.Detect? && Detected(w, e.requested, e.dispatched).Chosen? {
      var v := Detected(w, e.requested, e.dispatched).version;
      var next := Step(w, e);
      var n := |w.runs|;
      assert next.runs[n] == Started(w, v, e.requested, e.dispatched, e.created);
      assert forall i :: 0 <= i < n ==> next.runs[i] == w.runs[i];
      forall i | 0 <= i < n && w.runs[i].release == v && !OutOfView(w, w.runs[i])
        ensures Superseded(w.runs[i], next.runs[n])
      {
        InViewIsSuperseded(w, e, i);
      }
    } else if e.Finish? {
      FinishRepeatsNothing(w, e);
    }
  }

  /** Ending an attempt repeats nothing: it is the last one. */
  lemma FinishRepeatsNothing(w: World, e: Event)
    requires NoRepeats(w) && Sound(w) && e.Finish?
    ensures NoRepeats(Step(w, e))
  {
    var next := Step(w, e);
    forall i, j | 0 <= i < j < |next.runs| && next.runs[i].release == next.runs[j].release
      ensures Superseded(next.runs[i], next.runs[j])
    {
      assert next.runs[i] == w.runs[i];
      assert next.runs[j].byDispatch == w.runs[j].byDispatch && next.runs[j].release == w.runs[j].release;
    }
  }

  /** After each of the first `n` events nothing has been repeated. */
  ghost predicate NeverRepeats(w: World, events: seq<Event>, n: nat)
    requires n <= |events|
  {
    forall k :: 0 <= k <= n ==> NoRepeats(Replay(w, events[..k]))
  }

  ghost predicate NeverForgets(w: World, events: seq<Event>, n: nat)
    requires n <= |events|
  {
    forall k :: 0 <= k < n ==> ForgetsNothing(Replay(w, events[..k]), events[k])
  }

  lemma ReplayNext(w: World, events: seq<Event>, n: nat)
    requires n < |events|
    ensures Replay(w, events[..n + 1]) == Step(Replay(w, events[..n]), events[n])
  {
    assert events[..n + 1][..n] == events[..n];
  }

  /**
   Over every run from a fresh world: no version ever gets an attempt after a success, or an automatic one
   after a refusal, iff every detection that skips attempts created before the release's publication skips
   only superseded ones.
   */
  lemma {:induction false} NeverRepeatsIffNeverForgets(w: World, events: seq<Event>, n: nat)
    requires w.runs == [] && n <= |events|
    ensures NeverRepeats(w, events, n) <==> NeverForgets(w, events, n)
  {
    if n > 0 {
      NeverRepeatsIffNeverForgets(w, events, n - 1);
      RepeatsSnoc(w, events, n - 1);
      if NeverRepeats(w, events, n - 1) {
        NextRepeatsNothingIff(w, events, n - 1);
      }
    } else {
      assert events[..0] == [];
    }
  }

  lemma NextRepeatsNothingIff(w: World, events: seq<Event>, n: nat)
    requires w.runs == [] && n < |events| && NoRepeats(Replay(w, events[..n]))
    ensures NoRepeats(Replay(w, events[..n + 1])) <==> ForgetsNothing(Replay(w, events[..n]), events[n])
  {
    WorkflowIsSafe(w, events[..n]);
    ReplayNext(w, events, n);
    StepRepeatsNothingIff(Replay(w, events[..n]), events[n]);
  }

  lemma RepeatsSnoc(w: World, events: seq<Event>, n: nat)
    requires n < |events|
    ensures NeverRepeats(w, events, n + 1) <==> NeverRepeats(w, events, n) && NoRepeats(Replay(w, events[..n + 1]))
    ensures NeverForgets(w, events, n + 1) <==> NeverForgets(w, events, n) && ForgetsNothing(Replay(w, events[..n]), events[n])
    ensures NeverRepeats(w, events, n) ==> NoRepeats(Replay(w, events[..n]))
  {}

  /** Every attempt's run was created no earlier than the publication of its release, as listed. */
  ghost predicate AllInView(w: World) {
    forall i :: 0 <= i < |w.runs| ==> !OutOfView(w, w.runs[i])
  }

  /** So nothing is repeated while no attempt's run is older than its release's publication. */
  lemma NeverRepeatsInView(w: World, events: seq<Event>)
    requires w.runs == [] && forall k :: 0 <= k < |events| ==> AllInView(Replay(w, events[..k]))
    ensures NoRepeats(Replay(w, events))
    ensures var end := Replay(w, events); forall i, j :: 0 <= i < j < |end.runs| && end.runs[i].release == end.runs[j].release ==>
              !(end.runs[i].status == Succeeded) && (end.runs[i].status == RefusedO3 ==> end.runs[j].byDispatch)
  {
    NeverRepeatsIffNeverForgets(w, events, |events|);
    assert events[..|events|] == events;
  }

  /** So a version succeeds at most once, when nothing is forgotten, and then has no live attempt. */
  lemma AtMostOneSuccessOrLive(w: World, events: seq<Event>, i: nat, j: nat)
    requires w.runs == [] && NeverForgets(w, events, |events|)
    requires var end := Replay(w, events);
             i < |end.runs| && j < |end.runs| && end.runs[i].release == end.runs[j].release
             && end.runs[i].status in {Live, Succeeded} && end.runs[j].status in {Live, Succeeded}
    ensures i == j
  {
    NeverRepeatsIffNeverForgets(w, events, |events|);
    assert events[..|events|] == events;
  }

  /** The attempt that an automated entry at `k` came from. */
  ghost predicate PublishedBy(w: World, k: nat, i: nat)
    requires k < |w.journal|
  {
    && i < |w.runs| && w.runs[i].branch
    && w.journal[k] == Automated(w.runs[i].release) && w.runs[i].base == w.journal[..k]
  }

  lemma PublishedByStays(w: World, e: Event, k: nat, i: nat)
    requires Sound(w) && k < |w.journal| && PublishedBy(w, k, i)
    ensures w.journal <= Step(w, e).journal && PublishedBy(Step(w, e), k, i)
  {
    assert Step(w, e).journal[..k] == w.journal[..k];
  }

  /** Only a version with a candidate branch is published, and only onto exactly the journal it was prepared from. */
  lemma {:induction false} PublishedWasAttempted(w: World, events: seq<Event>, k: nat) returns (i: nat)
    requires w.runs == [] && |w.journal| <= k < |Replay(w, events).journal|
    requires Replay(w, events).journal[k].Automated?
    ensures PublishedBy(Replay(w, events), k, i)
  {
    assert events != [];
    var before := Replay(w, events[..|events| - 1]);
    var e := events[|events| - 1];
    if k < |before.journal| {
      assert before.journal <= Step(before, e).journal;
      i := PublishedWasAttempted(w, events[..|events| - 1], k);
      WorkflowIsSafe(w, events[..|events| - 1]);
      PublishedByStays(before, e, k, i);
    } else {
      i := e.run;
    }
  }

  /** Nothing is published twice by the automation. */
  lemma AutomatedOnce(w: World, events: seq<Event>, p: nat, q: nat)
    requires w.runs == [] && |w.journal| <= p < |Replay(w, events).journal| && |w.journal| <= q < |Replay(w, events).journal|
    requires Replay(w, events).journal[p].Automated? && Replay(w, events).journal[p] == Replay(w, events).journal[q]
    ensures p == q
  {
    var i := PublishedWasAttempted(w, events, p);
    var j := PublishedWasAttempted(w, events, q);
    WorkflowIsSafe(w, events);
    assert i == j;
    assert |Replay(w, events).journal[..p]| == p;
  }

  // ----- When automated entries increase -----

  ghost predicate AutomatedPair(initial: nat, journal: seq<Signing>, p: nat, q: nat) {
    initial <= p < q < |journal| && journal[p].Automated? && journal[q].Automated?
  }

  ghost predicate Increasing(initial: nat, journal: seq<Signing>) {
    forall p: nat, q: nat :: AutomatedPair(initial, journal, p, q) ==> Below(journal[p].version, journal[q].version)
  }

  /** Every automated entry is above the automated versions withdrawn before it was signed. */
  ghost predicate ClearsWithdrawn(initial: nat, journal: seq<Signing>) {
    forall p: nat, q: nat :: AutomatedPair(initial, journal, p, q) && Denied(journal[..q], journal[p].version) ==>
      Below(journal[p].version, journal[q].version)
  }

  /** An entry that was never withdrawn is still there. */
  lemma {:induction false} StaysPublished(journal: seq<Signing>, p: nat)
    requires p < |journal| && !journal[p].Withdrawn? && !Denied(journal, journal[p].version)
    ensures journal[p].version in Published(journal)
  {
    var shorter := journal[..|journal| - 1];
    var last := journal[|journal| - 1];
    if p < |shorter| {
      assert !Denied(shorter, journal[p].version);
      StaysPublished(shorter, p);
      assert last in journal;
    }
  }

  /**
   Over every run: automated entries strictly increase iff each one is above the automated versions
   withdrawn before it. Nothing else can break the order.
   */
  lemma AutomatedIncreaseIffClearOfWithdrawn(w: World, events: seq<Event>)
    requires w.runs == []
    ensures Increasing(|w.journal|, Replay(w, events).journal) <==> ClearsWithdrawn(|w.journal|, Replay(w, events).journal)
  {
    WorkflowIsSafe(w, events);
    var journal := Replay(w, events).journal;
    forall p: nat, q: nat | AutomatedPair(|w.journal|, journal, p, q) && !Denied(journal[..q], journal[p].version)
      ensures Below(journal[p].version, journal[q].version)
    {
      StaysPublished(journal[..q], p);
      assert SignedSoundly(journal, q);
    }
  }

  /** `v` is above everything still signed, was never withdrawn, and has no branch bound to another journal. */
  ghost predicate CanComeNext(w: World, v: Version) {
    && Published(w.journal) != [] && AboveAll(v, Published(w.journal)) && !Denied(w.journal, v)
    && forall i :: 0 <= i < |w.runs| && w.runs[i].release == v && w.runs[i].branch ==> w.runs[i].base == w.journal
  }

  /** `v` is the next change of the journal on some future. */
  ghost predicate ComesNext(w: World, v: Version, events: seq<Event>) {
    Replay(w, events).journal == w.journal + [Automated(v)]
  }

  lemma {:induction false} ReplayAppend(w: World, a: seq<Event>, b: seq<Event>)
    ensures Replay(w, a + b) == Replay(Replay(w, a), b)
  {
    if b == [] {
      assert a + b == a;
    } else {
      ReplayAppend(w, a, b[..|b| - 1]);
      assert (a + b)[..|a + b| - 1] == a + b[..|b| - 1];
    }
  }

  lemma ReplayOne(w: World, e: Event)
    ensures Replay(w, [e]) == Step(w, e)
  {
    assert [e][..0] == [];
  }

  function OfficialRelease(v: Version, publishedAt: int): Release {
    Release(Stable(v), false, false, Moment(publishedAt), Moment(publishedAt))
  }

  /** List `v` as published at `at`, dispatch its detection then, let attempt `n` leave a branch, and publish it. */
  function Attempt(v: Version, at: int, n: nat): seq<Event> {
    [Listed([OfficialRelease(v, at)]), Detect(Some(Stable(v)), true, at)] + [Finish(n, Succeeded, true), Publish(n)]
  }

  lemma ReplayTwo(w: World, d: Event, e: Event)
    ensures Replay(w, [d, e]) == Step(Step(w, d), e)
  {
    ReplayOne(w, d);
    assert [d, e][..1] == [d];
  }

  lemma ListedIsEligible(v: Version, at: int)
    ensures v in Eligible([OfficialRelease(v, at)]) && PublicationOf([OfficialRelease(v, at)], v) == Moment(at)
  {
    assert Official([OfficialRelease(v, at)][0]) && [OfficialRelease(v, at)][0].tag.version == v;
  }

  /** Every attempt so far was created before this moment. */
  ghost predicate AllBefore(runs: seq<Run>, at: int) {
    forall i :: 0 <= i < |runs| ==> runs[i].created < at
  }

  function After(runs: seq<Run>): (at: int)
    ensures AllBefore(runs, at)
  {
    if runs == [] then 0
    else
      var earlier := After(runs[..|runs| - 1]);
      var last := runs[|runs| - 1].created;
      assert forall i :: 0 <= i < |runs| - 1 ==> runs[..|runs| - 1][i] == runs[i];
      if last < earlier then earlier else last + 1
  }

  lemma NothingInView(w: World, at: int)
    requires AllBefore(w.runs, at)
    ensures InView(Infos(w.runs), Moment(at)) == Some([])
  {
    if w.runs != [] {
      var seen := CreatedSince(Infos(w.runs), at);
      forall run
        ensures run !in seen
      {
        if run in Infos(w.runs) {
          var i :| 0 <= i < |w.runs| && Infos(w.runs)[i] == run;
        }
      }
      HasMember(seen);
    }
  }

  lemma HasMember(runs: seq<RunInfo>)
    ensures runs != [] ==> exists run :: run in runs
  {
    if runs != [] {
      assert runs[0] in runs;
    }
  }

  lemma DispatchChooses(listing: seq<Release>, published: seq<Version>, branches: set<Version>, runs: seq<RunInfo>, v: Version)
    requires v in Eligible(listing) && AboveAll(v, published) && v !in branches
    requires InView(runs, PublicationOf(listing, v)) == Some([])
    ensures Prepare(listing, published, branches, runs, Some(Stable(v)), true) == Chosen(v)
  {
    RequestedChoosesIff(listing, published, branches, runs, Stable(v), true, v);
  }

  /** Nothing is live and nothing stands in the way of another attempt at `v` but its publication. */
  ghost predicate Free(w: World, v: Version) {
    !Busy(w) && Published(w.journal) != [] && AboveAll(v, Published(w.journal)) && v !in Branches(w.runs)
  }

  /** A dispatch detects any free version whose publication is listed after every attempt. */
  lemma DispatchDetects(w: World, v: Version, at: int)
    requires w.listing == [OfficialRelease(v, at)] && Free(w, v) && AllBefore(w.runs, at)
    ensures Step(w, Detect(Some(Stable(v)), true, at)) == w.(runs := w.runs + [Run(v, at, true, w.journal, Live, false)])
  {
    DispatchSelects(w, v, at);
    DetectionStarts(w, Some(Stable(v)), true, v, at);
  }

  lemma DispatchSelects(w: World, v: Version, at: int)
    requires w.listing == [OfficialRelease(v, at)] && Free(w, v) && AllBefore(w.runs, at)
    ensures Detected(w, Some(Stable(v)), true) == Chosen(v)
  {
    ListedIsEligible(v, at);
    NothingInView(w, at);
    DispatchChooses(w.listing, Published(w.journal), Branches(w.runs), Infos(w.runs), v);
  }

  lemma DetectionStarts(w: World, requested: Option<Tag>, dispatched: bool, v: Version, created: int)
    requires Detected(w, requested, dispatched) == Chosen(v)
    ensures Step(w, Detect(requested, dispatched, created))
            == w.(runs := w.runs + [Started(w, v, requested, dispatched, created)])
  {}

  /** A live attempt from the current journal can leave a branch and be published. */
  lemma LiveAttemptLands(w: World, runs: seq<Run>, run: Run)
    requires w.runs == runs + [run] && run.status == Live && !run.branch && run.base == w.journal
    requires !Denied(w.journal, run.release) && run.release !in Branches(runs)
    ensures Replay(w, [Finish(|runs|, Succeeded, true), Publish(|runs|)])
            == w.(journal := w.journal + [Automated(run.release)], runs := runs + [run.(status := Succeeded, branch := true)])
  {
    var n := |runs|;
    var done := run.(status := Succeeded, branch := true);
    assert w.runs[n] == run && w.runs[n := done] == runs + [done];
    assert forall i :: 0 <= i < n ==> w.runs[i] == runs[i];
    assert MayFinish(w, run, Succeeded, true);
    var finished := w.(runs := runs + [done]);
    assert Step(w, Finish(n, Succeeded, true)) == finished;
    assert finished.runs[n] == done;
    ReplayTwo(w, Finish(n, Succeeded, true), Publish(n));
  }

  lemma AttemptLands(w: World, v: Version, at: int)
    requires Free(w, v) && !Denied(w.journal, v) && AllBefore(w.runs, at)
    ensures Replay(w, Attempt(v, at, |w.runs|))
            == World([OfficialRelease(v, at)], w.journal + [Automated(v)], w.runs + [Run(v, at, true, w.journal, Succeeded, true)])
  {
    var n := |w.runs|;
    var first := [Listed([OfficialRelease(v, at)]), Detect(Some(Stable(v)), true, at)];
    var listed := w.(listing := [OfficialRelease(v, at)]);
    DispatchDetects(listed, v, at);
    ReplayTwo(w, first[0], first[1]);
    ReplayAppend(w, first, [Finish(n, Succeeded, true), Publish(n)]);
    LiveAttemptLands(Replay(w, first), w.runs, Run(v, at, true, w.journal, Live, false));
  }

  /** The live attempt, if there is one, fails without a branch. */
  lemma Cleared(w: World) returns (events: seq<Event>)
    requires Sound(w)
    ensures var cleared := Replay(w, events);
            && !Busy(cleared) && cleared.journal == w.journal && Branches(cleared.runs) == Branches(w.runs)
            && |cleared.runs| == |w.runs|
  {
    if i :| 0 <= i < |w.runs| && w.runs[i].status == Live {
      events := [Finish(i, FailedOtherwise, false)];
      ReplayOne(w, events[0]);
      var cleared := Step(w, events[0]);
      assert !w.runs[i].branch;
      assert forall j :: 0 <= j < |w.runs| ==> cleared.runs[j].release == w.runs[j].release && cleared.runs[j].branch == w.runs[j].branch;
      assert Branches(cleared.runs) == Branches(w.runs);
      assert forall j :: 0 <= j < |w.runs| && j != i ==> w.runs[j].status != Live;
    } else {
      events := [];
    }
  }

  /** A future on which `v` comes next. */
  lemma PathToNext(w: World, v: Version) returns (events: seq<Event>)
    requires Sound(w) && CanComeNext(w, v)
    ensures ComesNext(w, v, events)
  {
    if i :| 0 <= i < |w.runs| && w.runs[i].release == v && w.runs[i].branch {
      events := [Publish(i)];
      ReplayOne(w, Publish(i));
    } else {
      var first := Cleared(w);
      var cleared := Replay(w, first);
      var at := After(cleared.runs);
      AttemptLands(cleared, v, at);
      events := first + Attempt(v, at, |cleared.runs|);
      ReplayAppend(w, first, Attempt(v, at, |cleared.runs|));
    }
  }

  /** A branch stays, with the attempt it came from. */
  lemma {:induction false} BranchStays(w: World, events: seq<Event>, i: nat)
    requires i < |w.runs| && w.runs[i].branch && w.runs[i].status != Live
    ensures i < |Replay(w, events).runs| && Replay(w, events).runs[i] == w.runs[i]
  {
    if events != [] { BranchStays(w, events[..|events| - 1], i); }
  }

  /**
   Exactly which versions the automation can add next: in a world reached from a fresh one, some future
   makes `v` the next change of the journal iff it is above everything still signed, was never withdrawn,
   and has no candidate branch bound to another journal.
   */
  lemma ComesNextIff(w: World, events: seq<Event>, v: Version)
    requires w.runs == []
    ensures var now := Replay(w, events);
            (exists future :: ComesNext(now, v, future)) <==> CanComeNext(now, v)
  {
    var now := Replay(w, events);
    WorkflowIsSafe(w, events);
    if future :| ComesNext(now, v, future) {
      NextIsFree(w, events, v, future);
    }
    if CanComeNext(now, v) {
      var future := PathToNext(now, v);
      assert ComesNext(now, v, future);
    }
  }

  lemma NextIsFree(w: World, events: seq<Event>, v: Version, future: seq<Event>)
    requires w.runs == [] && ComesNext(Replay(w, events), v, future)
    ensures CanComeNext(Replay(w, events), v)
  {
    var now := Replay(w, events);
    var all := events + future;
    var end := Replay(w, all);
    ReplayAppend(w, events, future);
    WorkflowIsSafe(w, events);
    WorkflowIsSafe(w, all);
    var i := PublishedWasAttempted(w, all, |now.journal|);
    assert end.journal[..|now.journal|] == now.journal;
    CandidateWasFree(end, i);
    forall j | 0 <= j < |now.runs| && now.runs[j].release == v && now.runs[j].branch
      ensures now.runs[j].base == now.journal
    {
      BranchStays(now, future, j);
      SameBranch(end, i, j);
    }
  }

  lemma CandidateWasFree(w: World, i: nat)
    requires Sound(w) && i < |w.runs| && w.runs[i].branch
    ensures var base := w.runs[i].base;
            Published(base) != [] && AboveAll(w.runs[i].release, Published(base)) && !Denied(base, w.runs[i].release)
  {}

  lemma SameBranch(w: World, i: nat, j: nat)
    requires Sound(w) && i < |w.runs| && j < |w.runs|
    requires w.runs[i].branch && w.runs[j].branch && w.runs[i].release == w.runs[j].release
    ensures i == j
  {}

  /** `v` is not above the automated entry at `p`. */
  ghost predicate FallsBehind(initial: nat, journal: seq<Signing>, v: Version, p: nat) {
    initial <= p < |journal| && journal[p].Automated? && !Below(journal[p].version, v)
  }

  /**
   So the next automated entry can fall behind an earlier one iff a version that can come next lies
   strictly below an earlier automated version, and then that earlier version has been withdrawn.
   */
  lemma NextFallsIffBelowWithdrawn(w: World, events: seq<Event>, v: Version, p: nat)
    requires w.runs == [] && FallsBehind(|w.journal|, Replay(w, events).journal, v, p)
    ensures var now := Replay(w, events);
            (exists future :: ComesNext(now, v, future))
            <==> CanComeNext(now, v) && Denied(now.journal, now.journal[p].version) && Below(v, now.journal[p].version)
  {
    var now := Replay(w, events);
    ComesNextIff(w, events, v);
    BelowIsAnOrder();
    if !Denied(now.journal, now.journal[p].version) {
      StaysPublished(now.journal, p);
    }
  }

  const BASE := Version(2026, 9, 4)
  const LOW := Version(2026, 10, 5)
  const HIGH := Version(2026, 11, 0)

  /** Publish the higher version, withdraw it, then dispatch the lower one. */
  function FallingRun(): seq<Event> {
    Attempt(HIGH, 1, 0) + [Withdraw(HIGH)] + Attempt(LOW, 2, 1)
  }

  /** Signing the higher version and withdrawing it again. */
  lemma SignedAndWithdrawn(w: World)
    requires w == World([], [ByOwner(BASE)], [])
    ensures var before := [ByOwner(BASE)];
            Replay(w, Attempt(HIGH, 1, 0) + [Withdraw(HIGH)])
            == World([OfficialRelease(HIGH, 1)], before + [Automated(HIGH)] + [Withdrawn(HIGH)],
                     [Run(HIGH, 1, true, before, Succeeded, true)])
  {
    FirstEntry(BASE);
    AttemptLands(w, HIGH, 1);
    var signed := Replay(w, Attempt(HIGH, 1, 0));
    ReplayAppend(w, Attempt(HIGH, 1, 0), [Withdraw(HIGH)]);
    ReplayOne(signed, Withdraw(HIGH));
    assert signed.journal == [ByOwner(BASE), Automated(HIGH)];
  }

  /** The condition is needed: after the newest entry is withdrawn, a lower version is published. */
  lemma WithdrawalLetsVersionsFall()
    ensures var w := World([], [ByOwner(BASE)], []);
            && Replay(w, FallingRun()).journal == [ByOwner(BASE), Automated(HIGH), Withdrawn(HIGH), Automated(LOW)]
            && Below(LOW, HIGH) && !Increasing(1, Replay(w, FallingRun()).journal)
  {
    var w := World([], [ByOwner(BASE)], []);
    SignedAndWithdrawn(w);
    var withdrawn := Replay(w, Attempt(HIGH, 1, 0) + [Withdraw(HIGH)]);
    assert withdrawn.journal == [ByOwner(BASE), Automated(HIGH), Withdrawn(HIGH)];
    ReplayAppend(w, Attempt(HIGH, 1, 0) + [Withdraw(HIGH)], Attempt(LOW, 2, 1));
    OnlyTheFirstIsLeft(BASE, HIGH);
    AttemptLands(withdrawn, LOW, 2);
    var journal := Replay(w, FallingRun()).journal;
    assert AutomatedPair(1, journal, 1, 3);
  }

  /** Minutes of the day: a run is created at 9:41 and queued, and the release is published at 9:50. */
  const QUEUED := 581
  const PUBLISHED := 590
  const NEXT_DAY := 2021

  /** The queued run selects the release and is refused; the next scheduled run skips it. */
  function ForgettingRun(): seq<Event> {
    [Listed([OfficialRelease(HIGH, PUBLISHED)]), Detect(None, false, QUEUED)]
    + [Finish(0, RefusedO3, false), Detect(None, false, NEXT_DAY)]
  }

  /** Scheduled detection of the one listed release, for the attempts made so far. */
  lemma ScheduledDetects(w: World, created: int)
    requires w.listing == [OfficialRelease(HIGH, PUBLISHED)] && Free(w, HIGH)
    requires InView(Infos(w.runs), Moment(PUBLISHED)) == Some([])
    ensures Step(w, Detect(None, false, created)) == w.(runs := w.runs + [Run(HIGH, created, false, w.journal, Live, false)])
  {
    ListedIsEligible(HIGH, PUBLISHED);
    OnlyOneEligible(HIGH, PUBLISHED);
    ScheduledChoosesIff(w.listing, Published(w.journal), Branches(w.runs), Infos(w.runs), HIGH);
    DetectionStarts(w, None, false, HIGH, created);
  }

  lemma OnlyOneEligible(v: Version, at: int)
    ensures Eligible([OfficialRelease(v, at)]) == [v]
  {
    assert [OfficialRelease(v, at)][..0] == [];
  }

  lemma FirstIsRefused(w: World)
    requires w == World([], [ByOwner(BASE)], [])
    ensures var detected := [Listed([OfficialRelease(HIGH, PUBLISHED)]), Detect(None, false, QUEUED)];
            Replay(w, detected) == World([OfficialRelease(HIGH, PUBLISHED)], w.journal, [Run(HIGH, QUEUED, false, w.journal, Live, false)])
  {
    FirstEntry(BASE);
    ScheduledDetects(w.(listing := [OfficialRelease(HIGH, PUBLISHED)]), QUEUED);
    ReplayTwo(w, Listed([OfficialRelease(HIGH, PUBLISHED)]), Detect(None, false, QUEUED));
  }

  lemma SecondIsStarted(w: World)
    requires w.listing == [OfficialRelease(HIGH, PUBLISHED)] && w.journal == [ByOwner(BASE)]
    requires w.runs == [Run(HIGH, QUEUED, false, w.journal, Live, false)]
    ensures Replay(w, [Finish(0, RefusedO3, false), Detect(None, false, NEXT_DAY)])
            == w.(runs := [Run(HIGH, QUEUED, false, w.journal, RefusedO3, false)] + [Run(HIGH, NEXT_DAY, false, w.journal, Live, false)])
  {
    var refused := w.(runs := [Run(HIGH, QUEUED, false, w.journal, RefusedO3, false)]);
    FirstEntry(BASE);
    assert Step(w, Finish(0, RefusedO3, false)) == refused;
    NothingInView(refused, PUBLISHED);
    ScheduledDetects(refused, NEXT_DAY);
    ReplayTwo(w, Finish(0, RefusedO3, false), Detect(None, false, NEXT_DAY));
  }

  /** The condition on what is skipped is needed: after a refusal the release is attempted again automatically. */
  lemma QueuedRefusalIsForgotten()
    ensures var w := World([], [ByOwner(BASE)], []);
            var end := Replay(w, ForgettingRun());
            && end.runs == [Run(HIGH, QUEUED, false, w.journal, RefusedO3, false)] + [Run(HIGH, NEXT_DAY, false, w.journal, Live, false)]
            && !NoRepeats(end)
  {
    var w := World([], [ByOwner(BASE)], []);
    var first := [Listed([OfficialRelease(HIGH, PUBLISHED)]), Detect(None, false, QUEUED)];
    FirstIsRefused(w);
    SecondIsStarted(Replay(w, first));
    ReplayAppend(w, first, [Finish(0, RefusedO3, false), Detect(None, false, NEXT_DAY)]);
    var end := Replay(w, ForgettingRun());
    assert !Superseded(end.runs[0], end.runs[1]);
  }

  lemma FirstEntry(v: Version)
    ensures Published([ByOwner(v)]) == [v]
  {
    assert [ByOwner(v)][..0] == [];
  }

  lemma OnlyTheFirstIsLeft(v: Version, u: Version)
    requires u != v
    ensures Published([ByOwner(v), Automated(u), Withdrawn(u)]) == [v]
  {
    var journal := [ByOwner(v), Automated(u), Withdrawn(u)];
    FirstEntry(v);
    assert journal[..2] == [ByOwner(v), Automated(u)] && journal[..2][..1] == [ByOwner(v)];
    WithoutAbsent([v], u);
    assert Published(journal[..2]) == [v] + [u];
    assert ([v] + [u])[..1] == [v];
  }

  lemma {:induction false} WithoutAbsent(versions: seq<Version>, v: Version)
    requires v !in versions
    ensures Without(versions, v) == versions
  {
    if versions != [] {
      var shorter := versions[..|versions| - 1];
      WithoutAbsent(shorter, v);
      assert versions == shorter + [versions[|versions| - 1]];
    }
  }
}
