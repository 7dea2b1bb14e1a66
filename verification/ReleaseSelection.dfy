/**
 Choosing the Core release to gather evidence for: version order, the descending
 walk over eligible releases, and the two-phase selection of the detector.
 */
module ReleaseSelection {
  import opened Support

  /** An exact stable release, as the three numbers of its tag. */
  datatype Version = Version(year: nat, month: nat, patch: nat)

  predicate Below(a: Version, b: Version) {
    || a.year < b.year
    || (a.year == b.year && (a.month < b.month || (a.month == b.month && a.patch < b.patch)))
  }

  datatype Tag = Stable(version: Version) | OtherTag(text: string)

  /** A listing timestamp: absent (missing or null), unusable, or a moment. */
  datatype Stamp = Absent | Unusable | Moment(at: int)

  datatype Release = Release(tag: Tag, draft: bool, prerelease: bool, createdAt: Stamp, publishedAt: Stamp)

  predicate Official(r: Release) {
    !r.draft && !r.prerelease && r.tag.Stable?
  }

  /** A retained attempt at one release, and when its run was created. */
  datatype RunInfo = RunInfo(release: Version, created: int, completed: bool, refused: bool, succeeded: bool)

  /** What detection comes to; without a usable publication moment there is nothing to compare runs with. */
  datatype Selection = NotOfficial | Nothing | NoPublication | Chosen(version: Version)

  function MaxOf(versions: seq<Version>): (m: Version)
    requires versions != []
    ensures m in versions && forall v :: v in versions ==> v == m || Below(v, m)
  {
    var last := versions[|versions| - 1];
    if |versions| == 1 then last
    else
      var earlier := MaxOf(versions[..|versions| - 1]);
      assert forall v :: v in versions <==> v in versions[..|versions| - 1] || v == last;
      if Below(earlier, last) then last else earlier
  }

  function Without(versions: seq<Version>, v: Version): (r: seq<Version>)
    ensures forall w :: w in r <==> w in versions && w != v
    ensures |r| <= |versions| && (v in versions ==> |r| < |versions|)
  {
    if versions == [] then []
    else
      var last := versions[|versions| - 1];
      var rest := Without(versions[..|versions| - 1], v);
      assert forall w :: w in versions <==> w in versions[..|versions| - 1] || w == last;
      if last == v then rest else rest + [last]
  }

  function Eligible(releases: seq<Release>): (r: seq<Version>)
    ensures forall v :: v in r <==> exists i :: 0 <= i < |releases| && Official(releases[i]) && releases[i].tag.version == v
  {
    if releases == [] then []
    else
      var last := releases[|releases| - 1];
      Eligible(releases[..|releases| - 1]) + if Official(last) then [last.tag.version] else []
  }

  /** Pending and successful attempts suppress; a refusal does too, unless it is retried explicitly. */
  predicate Suppressed(v: Version, runs: seq<RunInfo>, retryRefused: bool) {
    exists i :: 0 <= i < |runs| && runs[i].release == v
                && (!runs[i].completed || (runs[i].refused && !retryRefused) || runs[i].succeeded)
  }

  /** The body of the walk: may this version be returned? */
  predicate Open(v: Version, published: seq<Version>, runs: seq<RunInfo>, requested: Option<Tag>, retryRefused: bool) {
    && (requested.Some? ==> requested.value == Stable(v))
    && v !in published && (published != [] ==> Below(MaxOf(published), v))
    && !Suppressed(v, runs, retryRefused && requested == Some(Stable(v)))
  }

  /** The walk over versions, newest first. */
  function Walk(versions: seq<Version>, published: seq<Version>, runs: seq<RunInfo>,
                requested: Option<Tag>, retryRefused: bool): Selection
    decreases |versions|
  {
    if versions == [] then Nothing
    else
      var v := MaxOf(versions);
      if Open(v, published, runs, requested, retryRefused) then Chosen(v)
      else Walk(Without(versions, v), published, runs, requested, retryRefused)
  }

  function Select(releases: seq<Release>, published: seq<Version>, runs: seq<RunInfo>,
                  requested: Option<Tag>, retryRefused: bool): Selection
  {
    var eligible := Eligible(releases);
    if requested.Some? && !(requested.value.Stable? && requested.value.version in eligible) then NotOfficial
    else Walk(eligible, published, runs, requested, retryRefused)
  }

  ghost predicate GreatestOpen(v: Version, versions: seq<Version>, published: seq<Version>, runs: seq<RunInfo>,
                               requested: Option<Tag>, retryRefused: bool) {
    && v in versions && Open(v, published, runs, requested, retryRefused)
    && forall w :: w in versions && Open(w, published, runs, requested, retryRefused) ==> w == v || Below(w, v)
  }

  lemma {:induction false} WalkFindsGreatestOpen(versions: seq<Version>, published: seq<Version>, runs: seq<RunInfo>,
                                                 requested: Option<Tag>, retryRefused: bool)
    ensures var r := Walk(versions, published, runs, requested, retryRefused);
            && r != NotOfficial
            && (r == Nothing <==> forall w :: w in versions ==> !Open(w, published, runs, requested, retryRefused))
            && forall v :: r == Chosen(v) <==> GreatestOpen(v, versions, published, runs, requested, retryRefused)
    decreases |versions|
  {
    if versions != [] {
      var v := MaxOf(versions);
      if !Open(v, published, runs, requested, retryRefused) {
        WalkFindsGreatestOpen(Without(versions, v), published, runs, requested, retryRefused);
      }
    }
  }

  /** A version is above every published one, as the two published checks together say. */
  ghost predicate AboveAll(v: Version, published: seq<Version>) {
    forall p :: p in published ==> Below(p, v)
  }

  lemma OpenMeansAboveAll(v: Version, published: seq<Version>)
    ensures AboveAll(v, published) <==> v !in published && (published != [] ==> Below(MaxOf(published), v))
  {}

  /** The publication stamp of the first record with this tag. */
  function PublicationOf(releases: seq<Release>, v: Version): Stamp {
    if releases == [] then Absent
    else if releases[0].tag == Stable(v) then releases[0].publishedAt
    else PublicationOf(releases[1..], v)
  }

  function CreatedSince(runs: seq<RunInfo>, at: int): (r: seq<RunInfo>)
    ensures forall run :: run in r <==> run in runs && run.created >= at
  {
    if runs == [] then []
    else
      var last := runs[|runs| - 1];
      assert forall run :: run in runs <==> run in runs[..|runs| - 1] || run == last;
      CreatedSince(runs[..|runs| - 1], at) + if last.created >= at then [last] else []
  }

  /** The attempts in view: those of runs created before the release was published are skipped. */
  function InView(runs: seq<RunInfo>, published: Stamp): Option<seq<RunInfo>> {
    if runs == [] then Some([])
    else if published.Moment? then Some(CreatedSince(runs, published.at))
    else None
  }

  /**
   The detector: select without looking at attempts, stop if that version already has a candidate
   branch, then ask again for exactly that version with the attempts in view.
   */
  function Prepare(releases: seq<Release>, published: seq<Version>, branches: set<Version>, runs: seq<RunInfo>,
                   requested: Option<Tag>, dispatched: bool): Selection
  {
    match Select(releases, published, [], requested, false)
    case NotOfficial => NotOfficial
    case Nothing => Nothing
    case NoPublication => NoPublication
    case Chosen(newest) =>
      if newest in branches then Nothing
      else
        match InView(runs, PublicationOf(releases, newest))
        case None => NoPublication
        case Some(seen) =>
          Select(releases, published, seen, Some(Stable(newest)), dispatched && requested == Some(Stable(newest)))
  }

  /** The attempts in view leave the version open. */
  ghost predicate OpenInView(releases: seq<Release>, runs: seq<RunInfo>, v: Version, retryRefused: bool) {
    var seen := InView(runs, PublicationOf(releases, v));
    seen.Some? && !Suppressed(v, seen.value, retryRefused)
  }

  /** Asking again for one eligible version: it, or nothing. */
  lemma SelectAgain(releases: seq<Release>, published: seq<Version>, runs: seq<RunInfo>, v: Version, retryRefused: bool)
    requires v in Eligible(releases)
    ensures Select(releases, published, runs, Some(Stable(v)), retryRefused)
            == if AboveAll(v, published) && !Suppressed(v, runs, retryRefused) then Chosen(v) else Nothing
  {
    OpenMeansAboveAll(v, published);
    WalkFindsGreatestOpen(Eligible(releases), published, runs, Some(Stable(v)), retryRefused);
    assert forall w :: w in Eligible(releases) && Open(w, published, runs, Some(Stable(v)), retryRefused) ==> w == v;
  }

  /** Without attempts, selection is the greatest eligible version if that is above everything published. */
  lemma SelectFirst(releases: seq<Release>, published: seq<Version>)
    ensures Select(releases, published, [], None, false)
            == if Eligible(releases) != [] && AboveAll(MaxOf(Eligible(releases)), published)
               then Chosen(MaxOf(Eligible(releases))) else Nothing
  {
    var eligible := Eligible(releases);
    WalkFindsGreatestOpen(eligible, published, [], None, false);
    BelowIsAnOrder();
    if eligible != [] {
      var newest := MaxOf(eligible);
      OpenMeansAboveAll(newest, published);
      forall w | w in eligible && Open(w, published, [], None, false)
        ensures AboveAll(newest, published)
      {
        OpenMeansAboveAll(w, published);
      }
    }
  }

  /** What scheduled detection comes to, for each version it can look at. */
  lemma ScheduledIs(releases: seq<Release>, published: seq<Version>, branches: set<Version>, runs: seq<RunInfo>)
    ensures Prepare(releases, published, branches, runs, None, false) ==
            if Eligible(releases) == [] then Nothing
            else
              var newest := MaxOf(Eligible(releases));
              var seen := InView(runs, PublicationOf(releases, newest));
              if !AboveAll(newest, published) || newest in branches then Nothing
              else if seen.None? then NoPublication
              else if Suppressed(newest, seen.value, false) then Nothing
              else Chosen(newest)
  {
    SelectFirst(releases, published);
    if Eligible(releases) != [] {
      var newest := MaxOf(Eligible(releases));
      var seen := InView(runs, PublicationOf(releases, newest));
      if seen.Some? {
        SelectAgain(releases, published, seen.value, newest, false);
      }
    }
  }

  lemma ScheduledChoosesIff(releases: seq<Release>, published: seq<Version>, branches: set<Version>,
                                      runs: seq<RunInfo>, v: Version)
    ensures Prepare(releases, published, branches, runs, None, false) == Chosen(v)
            <==> && Eligible(releases) != [] && v == MaxOf(Eligible(releases))
                 && AboveAll(v, published) && v !in branches && OpenInView(releases, runs, v, false)
  {
    ScheduledIs(releases, published, branches, runs);
  }

  lemma BelowIsAnOrder()
    ensures forall a, b, c :: Below(a, b) && Below(b, c) ==> Below(a, c)
    ensures forall a, b :: Below(a, b) ==> !Below(b, a) && a != b
  {}

  lemma SelectRequested(releases: seq<Release>, published: seq<Version>, requested: Tag)
    ensures Select(releases, published, [], Some(requested), false)
            == if !(requested.Stable? && requested.version in Eligible(releases)) then NotOfficial
               else if AboveAll(requested.version, published) then Chosen(requested.version) else Nothing
  {
    if requested.Stable? && requested.version in Eligible(releases) {
      SelectAgain(releases, published, [], requested.version, false);
    }
  }

  lemma RequestedChoosesIff(releases: seq<Release>, published: seq<Version>, branches: set<Version>,
                                           runs: seq<RunInfo>, requested: Tag, dispatched: bool, v: Version)
    ensures Prepare(releases, published, branches, runs, Some(requested), dispatched) == Chosen(v)
            <==> && requested == Stable(v) && v in Eligible(releases)
                 && AboveAll(v, published) && v !in branches && OpenInView(releases, runs, v, dispatched)
    ensures Prepare(releases, published, branches, runs, Some(requested), dispatched) == NotOfficial
            <==> !(requested.Stable? && requested.version in Eligible(releases))
  {
    SelectRequested(releases, published, requested);
    if requested.Stable? && requested.version in Eligible(releases) {
      var seen := InView(runs, PublicationOf(releases, requested.version));
      if seen.Some? {
        SelectAgain(releases, published, seen.value, requested.version, dispatched);
      }
    }
  }

  // ----- Detection in terms of the records -----

  /** `u` is not a later version: by year, then month, then patch. */
  ghost predicate NoLater(u: Version, v: Version) {
    u.year < v.year || (u.year == v.year && (u.month < v.month || (u.month == v.month && u.patch <= v.patch)))
  }

  /** A published record of exactly this stable version. */
  ghost predicate Records(r: Release, v: Version) {
    !r.draft && !r.prerelease && r.tag == Stable(v)
  }

  ghost predicate Recorded(releases: seq<Release>, v: Version) {
    exists i :: 0 <= i < |releases| && Records(releases[i], v)
  }

  /** The first record with this tag was published at that moment. */
  ghost predicate PublishedAt(releases: seq<Release>, v: Version, at: int) {
    exists k :: 0 <= k < |releases| && releases[k].tag == Stable(v) && releases[k].publishedAt == Moment(at)
                && forall j :: 0 <= j < k ==> releases[j].tag != Stable(v)
  }

  /** No attempt since that moment is pending or succeeded, or was refused without being retried. */
  ghost predicate OpenSince(runs: seq<RunInfo>, v: Version, at: int, retried: bool) {
    forall run :: run in runs && run.release == v && run.created >= at ==>
      run.completed && !run.succeeded && (run.refused ==> retried)
  }

  /** No attempt since the publication stands in the way. */
  ghost predicate LeftOpen(releases: seq<Release>, runs: seq<RunInfo>, v: Version, retried: bool) {
    runs == [] || exists at :: PublishedAt(releases, v, at) && OpenSince(runs, v, at, retried)
  }

  /** The version is later than everything signed and has no candidate branch. */
  ghost predicate New(v: Version, published: seq<Version>, branches: set<Version>) {
    v !in branches && forall p :: p in published ==> NoLater(p, v) && p != v
  }

  lemma RecordedIffEligible(releases: seq<Release>, v: Version)
    ensures Recorded(releases, v) <==> v in Eligible(releases)
  {
    if v in Eligible(releases) {
      var i :| 0 <= i < |releases| && Official(releases[i]) && releases[i].tag.version == v;
      assert Records(releases[i], v);
    }
    if i :| 0 <= i < |releases| && Records(releases[i], v) {
      assert Official(releases[i]);
    }
  }

  lemma {:induction false} PublicationIs(releases: seq<Release>, v: Version, at: int)
    ensures PublishedAt(releases, v, at) <==> PublicationOf(releases, v) == Moment(at)
  {
    if releases != [] && releases[0].tag != Stable(v) {
      var rest := releases[1..];
      PublicationIs(rest, v, at);
      if k :| 0 <= k < |rest| && rest[k].tag == Stable(v) && rest[k].publishedAt == Moment(at)
              && forall j :: 0 <= j < k ==> rest[j].tag != Stable(v) {
        assert releases[k + 1] == rest[k];
        assert forall j :: 0 < j < k + 1 ==> releases[j] == rest[j - 1];
      }
      if k :| 0 <= k < |releases| && releases[k].tag == Stable(v) && releases[k].publishedAt == Moment(at)
              && forall j :: 0 <= j < k ==> releases[j].tag != Stable(v) {
        assert rest[k - 1] == releases[k];
        assert forall j :: 0 <= j < k - 1 ==> rest[j] == releases[j + 1];
      }
    } else if releases != [] && PublicationOf(releases, v) == Moment(at) {
      assert releases[0].publishedAt == Moment(at);
    }
  }

  lemma LeftOpenIff(releases: seq<Release>, runs: seq<RunInfo>, v: Version, retried: bool)
    ensures LeftOpen(releases, runs, v, retried) <==> OpenInView(releases, runs, v, retried)
  {
    var stamp := PublicationOf(releases, v);
    if runs != [] {
      forall at
        ensures PublishedAt(releases, v, at) <==> stamp == Moment(at)
      {
        PublicationIs(releases, v, at);
      }
      if stamp.Moment? {
        assert PublishedAt(releases, v, stamp.at);
        var seen := CreatedSince(runs, stamp.at);
        assert forall i :: 0 <= i < |seen| ==> seen[i] in runs && seen[i].created >= stamp.at;
        assert forall run :: run in runs && run.created >= stamp.at ==> run in seen;
        if OpenInView(releases, runs, v, retried) {
          forall run | run in runs && run.release == v && run.created >= stamp.at
            ensures run.completed && !run.succeeded && (run.refused ==> retried)
          {
            var i :| 0 <= i < |seen| && seen[i] == run;
          }
        }
      }
    }
  }

  lemma NewIff(v: Version, published: seq<Version>, branches: set<Version>)
    ensures New(v, published, branches) <==> AboveAll(v, published) && v !in branches
  {}

  lemma NewestIff(releases: seq<Release>, v: Version)
    ensures Recorded(releases, v) && (forall u :: Recorded(releases, u) ==> NoLater(u, v))
            <==> Eligible(releases) != [] && v == MaxOf(Eligible(releases))
  {
    RecordedIffEligible(releases, v);
    forall u
      ensures Recorded(releases, u) <==> u in Eligible(releases)
    {
      RecordedIffEligible(releases, u);
    }
    if Eligible(releases) != [] {
      var newest := MaxOf(Eligible(releases));
      assert Recorded(releases, newest);
    }
  }

  /**
   Scheduled detection is all or nothing: it picks the recorded version that no recorded version is later
   than, if that is later than everything signed, has no branch and is left open by the attempts since its
   publication; and otherwise no version at all, never an older one.
   */
  lemma ScheduledPicksNewestOrNothing(releases: seq<Release>, published: seq<Version>, branches: set<Version>,
                                      runs: seq<RunInfo>, v: Version)
    ensures Prepare(releases, published, branches, runs, None, false) == Chosen(v)
            <==> && Recorded(releases, v) && (forall u :: Recorded(releases, u) ==> NoLater(u, v))
                 && New(v, published, branches) && LeftOpen(releases, runs, v, false)
    ensures Prepare(releases, published, branches, runs, None, false) == NoPublication
            <==> && runs != []
                 && exists u :: && Recorded(releases, u) && (forall t :: Recorded(releases, t) ==> NoLater(t, u))
                                && New(u, published, branches) && forall at :: !PublishedAt(releases, u, at)
    ensures Prepare(releases, published, branches, runs, None, false) != NotOfficial
  {
    ScheduledChoosesIff(releases, published, branches, runs, v);
    NewestIff(releases, v);
    NewIff(v, published, branches);
    LeftOpenIff(releases, runs, v, false);
    ScheduledIs(releases, published, branches, runs);
    forall u
      ensures Recorded(releases, u) && (forall t :: Recorded(releases, t) ==> NoLater(t, u))
              <==> Eligible(releases) != [] && u == MaxOf(Eligible(releases))
      ensures New(u, published, branches) <==> AboveAll(u, published) && u !in branches
      ensures (forall at :: !PublishedAt(releases, u, at)) <==> !PublicationOf(releases, u).Moment?
    {
      NewestIff(releases, u);
      NewIff(u, published, branches);
      NoMomentIff(releases, u);
    }
  }

  lemma NoMomentIff(releases: seq<Release>, v: Version)
    ensures (forall at :: !PublishedAt(releases, v, at)) <==> !PublicationOf(releases, v).Moment?
  {
    forall at
      ensures PublishedAt(releases, v, at) <==> PublicationOf(releases, v) == Moment(at)
    {
      PublicationIs(releases, v, at);
    }
    if PublicationOf(releases, v).Moment? {
      assert PublishedAt(releases, v, PublicationOf(releases, v).at);
    }
  }

  /** Requested detection considers that version only; only an explicit dispatch retries a refusal. */
  lemma RequestedPicksThatVersionOrNothing(releases: seq<Release>, published: seq<Version>, branches: set<Version>,
                                           runs: seq<RunInfo>, requested: Tag, dispatched: bool, v: Version)
    ensures Prepare(releases, published, branches, runs, Some(requested), dispatched) == Chosen(v)
            <==> && requested == Stable(v) && Recorded(releases, v)
                 && New(v, published, branches) && LeftOpen(releases, runs, v, dispatched)
    ensures Prepare(releases, published, branches, runs, Some(requested), dispatched) == NotOfficial
            <==> !(requested.Stable? && Recorded(releases, requested.version))
    ensures Prepare(releases, published, branches, runs, Some(requested), dispatched) == NoPublication
            <==> && requested.Stable? && Recorded(releases, requested.version)
                 && New(requested.version, published, branches)
                 && runs != [] && forall at :: !PublishedAt(releases, requested.version, at)
  {
    RequestedChoosesIff(releases, published, branches, runs, requested, dispatched, v);
    SelectRequested(releases, published, requested);
    RecordedIffEligible(releases, v);
    NewIff(v, published, branches);
    LeftOpenIff(releases, runs, v, dispatched);
    if requested.Stable? {
      RecordedIffEligible(releases, requested.version);
      NewIff(requested.version, published, branches);
      NoMomentIff(releases, requested.version);
      var seen := InView(runs, PublicationOf(releases, requested.version));
      if seen.Some? && requested.version in Eligible(releases) {
        SelectAgain(releases, published, seen.value, requested.version, dispatched);
      }
    }
  }
}
