/**
 Paginated discovery of releases: pages of 100, newest first, until the page that
 holds the newest signed version's own record, a short page, or the page bound.
 */
module ReleaseDiscovery {
  import opened Support
  import opened ReleaseSelection

  const PAGE: nat := 100
  const PAGE_BOUND: nat := 10

  datatype OrderError = OrderUnestablished | NotNewestFirst

  datatype Discovery =
    | Found(releases: seq<Release>)
    | NoSignedPredecessor
    | BadOrder(error: OrderError)
    | PageBoundReached

  /** `created_at` orders the listing; `published_at` counts only when that one is absent. */
  function ListedAt(r: Release): Option<int> {
    var stamp := if r.createdAt == Absent then r.publishedAt else r.createdAt;
    if stamp.Moment? then Some(stamp.at) else None
  }

  /** A record is listed at its creation, or at its publication when it has no creation; an unusable stamp never falls back. */
  lemma ListedAtIs(r: Release)
    ensures match r.createdAt
            case Moment(at) => ListedAt(r) == Some(at)
            case Unusable => ListedAt(r) == None
            case Absent => ListedAt(r) == (match r.publishedAt case Moment(at) => Some(at) case _ => None)
  {}

  function PageOf(listing: seq<Release>, page: nat): seq<Release>
    requires page >= 1
  {
    listing[Least(PAGE * (page - 1), |listing|)..Least(PAGE * page, |listing|)]
  }

  predicate Holds(releases: seq<Release>, v: Version) {
    exists i :: 0 <= i < |releases| && Official(releases[i]) && releases[i].tag.version == v
  }

  /** The first thing wrong with the order of a listing, if any. */
  function OrderFault(releases: seq<Release>): Option<OrderError> {
    if releases == [] then None
    else
      var shorter := releases[..|releases| - 1];
      var last := releases[|releases| - 1];
      if OrderFault(shorter).Some? then OrderFault(shorter)
      else if ListedAt(last).None? then Some(OrderUnestablished)
      else if shorter != [] && ListedAt(shorter[|shorter| - 1]).Some?
              && ListedAt(shorter[|shorter| - 1]).value < ListedAt(last).value then Some(NotNewestFirst)
      else None
  }

  predicate EndsAt(listing: seq<Release>, predecessor: Version, page: nat)
    requires page >= 1
  {
    Holds(PageOf(listing, page), predecessor) || |PageOf(listing, page)| < PAGE
  }

  /** The page at or after `page` where the scan ends; past the bound if none. */
  function EndPage(listing: seq<Release>, predecessor: Version, page: nat): (r: nat)
    requires 1 <= page <= PAGE_BOUND + 1
    ensures page <= r <= PAGE_BOUND + 1
    decreases PAGE_BOUND + 1 - page
  {
    if page > PAGE_BOUND || EndsAt(listing, predecessor, page) then page
    else EndPage(listing, predecessor, page + 1)
  }

  function Prefix(listing: seq<Release>, pages: nat): seq<Release> {
    listing[..Least(PAGE * pages, |listing|)]
  }

  /** The scan without its loop. */
  function Discovered(listing: seq<Release>, signed: seq<Version>): Discovery {
    if signed == [] then NoSignedPredecessor
    else
      var end := EndPage(listing, MaxOf(signed), 1);
      var read := Prefix(listing, Least(end, PAGE_BOUND));
      if OrderFault(read).Some? then BadOrder(OrderFault(read).value)
      else if end > PAGE_BOUND then PageBoundReached
      else Found(read)
  }

  /** The inner loop: each record of a page must not be newer than the one before it. */
  method CheckOrder(ghost before: seq<Release>, batch: seq<Release>, last: Option<int>)
    returns (previous: Option<int>, fault: Option<OrderError>)
    requires OrderFault(before).None? && last == LastListed(before)
    ensures fault == OrderFault(before + batch)
    ensures fault.None? ==> previous == LastListed(before + batch)
  {
    previous := last;
    var i := 0;
    assert before + batch[..0] == before;
    while i < |batch|
      invariant 0 <= i <= |batch|
      invariant OrderFault(before + batch[..i]).None? && previous == LastListed(before + batch[..i])
    {
      var stamp := ListedAt(batch[i]);
      ghost var now := before + batch[..i + 1];
      assert now[..|now| - 1] == before + batch[..i] && now[|now| - 1] == batch[i];
      if stamp.None? || (previous.Some? && stamp.value > previous.value) {
        assert (before + batch)[..|now|] == now;
        FaultSticks(before + batch, |now|);
        return previous, Some(if stamp.None? then OrderUnestablished else NotNewestFirst);
      }
      previous := stamp;
      i := i + 1;
    }
    assert batch[..|batch|] == batch;
    return previous, None;
  }

  function LastListed(releases: seq<Release>): Option<int> {
    if releases == [] then None else ListedAt(releases[|releases| - 1])
  }

  method Discover(listing: seq<Release>, signed: seq<Version>) returns (r: Discovery)
    ensures r == Discovered(listing, signed)
  {
    if signed == [] {
      return NoSignedPredecessor;
    }
    var predecessor := MaxOf(signed);
    var releases: seq<Release> := [];
    var previous: Option<int> := None;
    var page := 1;
    while page <= PAGE_BOUND
      invariant 1 <= page <= PAGE_BOUND + 1
      invariant releases == Prefix(listing, page - 1)
      invariant OrderFault(releases).None? && previous == LastListed(releases)
      invariant EndPage(listing, predecessor, 1) == EndPage(listing, predecessor, page)
    {
      var batch := PageOf(listing, page);
      var fault;
      previous, fault := CheckOrder(releases, batch, previous);
      releases := releases + batch;
      ReadOnePageMore(listing, page);
      if fault.Some? {
        StopsAtFault(listing, signed, page);
        return BadOrder(fault.value);
      }
      EndPageStep(listing, predecessor, page);
      if Holds(batch, predecessor) || |batch| < PAGE {
        StopsAtEnd(listing, signed, page);
        return Found(releases);
      }
      page := page + 1;
    }
    return PageBoundReached;
  }

  lemma StopsAtFault(listing: seq<Release>, signed: seq<Version>, page: nat)
    requires signed != [] && 1 <= page <= PAGE_BOUND && OrderFault(Prefix(listing, page)).Some?
    requires EndPage(listing, MaxOf(signed), 1) == EndPage(listing, MaxOf(signed), page)
    ensures Discovered(listing, signed) == BadOrder(OrderFault(Prefix(listing, page)).value)
  {
    FaultIsFinal(listing, MaxOf(signed), page);
  }

  lemma StopsAtEnd(listing: seq<Release>, signed: seq<Version>, page: nat)
    requires signed != [] && 1 <= page <= PAGE_BOUND && OrderFault(Prefix(listing, page)).None?
    requires EndPage(listing, MaxOf(signed), 1) == page
    ensures Discovered(listing, signed) == Found(Prefix(listing, page))
  {}

  lemma ReadOnePageMore(listing: seq<Release>, page: nat)
    requires page >= 1
    ensures Prefix(listing, page - 1) + PageOf(listing, page) == Prefix(listing, page)
  {}

  lemma EndPageStep(listing: seq<Release>, predecessor: Version, page: nat)
    requires 1 <= page <= PAGE_BOUND
    ensures EndPage(listing, predecessor, page)
            == if EndsAt(listing, predecessor, page) then page else EndPage(listing, predecessor, page + 1)
  {}

  /** A fault on a page the scan reaches is a fault of everything it would have read. */
  lemma FaultIsFinal(listing: seq<Release>, predecessor: Version, page: nat)
    requires 1 <= page <= PAGE_BOUND && OrderFault(Prefix(listing, page)).Some?
    requires EndPage(listing, predecessor, 1) == EndPage(listing, predecessor, page)
    ensures OrderFault(Prefix(listing, Least(EndPage(listing, predecessor, 1), PAGE_BOUND)))
            == OrderFault(Prefix(listing, page))
  {
    var all := Least(EndPage(listing, predecessor, page), PAGE_BOUND);
    PrefixGrows(listing, page, all);
    FaultSticks(Prefix(listing, all), |Prefix(listing, page)|);
  }

  lemma PrefixGrows(listing: seq<Release>, pages: nat, more: nat)
    requires pages <= more
    ensures var short := Prefix(listing, pages);
            |short| <= |Prefix(listing, more)| && Prefix(listing, more)[..|short|] == short
  {}

  lemma {:induction false} FaultSticks(releases: seq<Release>, n: nat)
    requires n <= |releases| && OrderFault(releases[..n]).Some?
    ensures OrderFault(releases) == OrderFault(releases[..n])
    decreases |releases|
  {
    if n < |releases| {
      var shorter := releases[..|releases| - 1];
      assert shorter[..n] == releases[..n];
      FaultSticks(shorter, n);
    } else {
      assert releases[..n] == releases;
    }
  }

  ghost predicate NewestFirst(releases: seq<Release>) {
    && (forall i :: 0 <= i < |releases| ==> ListedAt(releases[i]).Some?)
    && forall i, j :: 0 <= i <= j < |releases| ==> ListedAt(releases[i]).value >= ListedAt(releases[j]).value
  }

  /** The adjacent comparisons of the loop establish the whole order, and nothing less does. */
  lemma {:induction false} NoFaultIffNewestFirst(releases: seq<Release>)
    ensures OrderFault(releases).None? <==> NewestFirst(releases)
  {
    if releases != [] {
      var shorter := releases[..|releases| - 1];
      NoFaultIffNewestFirst(shorter);
      if NewestFirst(releases) {
        assert forall i :: 0 <= i < |shorter| ==> shorter[i] == releases[i];
        assert NewestFirst(shorter);
        if shorter != [] {
          assert ListedAt(releases[|shorter| - 1]).value >= ListedAt(releases[|shorter|]).value;
        }
      }
    }
  }

  lemma {:induction false} PagesBeforeEnd(listing: seq<Release>, predecessor: Version, page: nat, p: nat)
    requires 1 <= page <= PAGE_BOUND && page <= p < EndPage(listing, predecessor, page)
    ensures !EndsAt(listing, predecessor, p) && PAGE * p <= |listing|
    decreases p - page
  {
    if page < p { PagesBeforeEnd(listing, predecessor, page + 1, p); }
  }

  lemma {:induction false} EndPageEnds(listing: seq<Release>, predecessor: Version, page: nat)
    requires 1 <= page <= PAGE_BOUND
    ensures EndPage(listing, predecessor, page) <= PAGE_BOUND ==>
              EndsAt(listing, predecessor, EndPage(listing, predecessor, page))
    decreases PAGE_BOUND - page
  {
    if !EndsAt(listing, predecessor, page) && page < PAGE_BOUND {
      EndPageEnds(listing, predecessor, page + 1);
    }
  }

  /**
   What a successful discovery returns: a newest-first start of the listing that holds the
   newest signed version's record, or the whole listing.
   */
  lemma FoundHoldsPredecessorOrEverything(listing: seq<Release>, signed: seq<Version>)
    requires Discovered(listing, signed).Found?
    ensures signed != []
    ensures var releases := Discovered(listing, signed).releases;
            && releases <= listing && NewestFirst(releases)
            && (Holds(releases, MaxOf(signed)) || releases == listing)
  {
    var predecessor := MaxOf(signed);
    var end := EndPage(listing, predecessor, 1);
    var releases := Discovered(listing, signed).releases;
    NoFaultIffNewestFirst(releases);
    EndPageEnds(listing, predecessor, 1);
    EndHoldsOrIsLast(listing, predecessor, end);
  }

  lemma HeldOnItsPage(listing: seq<Release>, v: Version, i: nat)
    requires i < |listing| && Official(listing[i]) && listing[i].tag.version == v
    ensures Holds(PageOf(listing, i / PAGE + 1), v)
  {
    var page := PageOf(listing, i / PAGE + 1);
    assert page[i % PAGE] == listing[i];
  }

  /** On a newest-first listing, discovery succeeds iff the predecessor or the end is within ten pages. */
  lemma DiscoverySucceedsIffReached(listing: seq<Release>, signed: seq<Version>)
    requires signed != [] && NewestFirst(listing)
    ensures Discovered(listing, signed).Found?
            <==> |listing| < 1000 || Holds(listing[..1000], MaxOf(signed))
    ensures !Discovered(listing, signed).Found? ==> Discovered(listing, signed) == PageBoundReached
  {
    var read := Prefix(listing, Least(EndPage(listing, MaxOf(signed), 1), PAGE_BOUND));
    assert NewestFirst(read);
    NoFaultIffNewestFirst(read);
    EndsWithinBoundIffReached(listing, MaxOf(signed));
  }

  lemma EndsWithinBoundIffReached(listing: seq<Release>, predecessor: Version)
    ensures EndPage(listing, predecessor, 1) <= PAGE_BOUND
            <==> |listing| < PAGE * PAGE_BOUND || Holds(listing[..PAGE * PAGE_BOUND], predecessor)
  {
    var end := EndPage(listing, predecessor, 1);
    if end <= PAGE_BOUND {
      EndPageEnds(listing, predecessor, 1);
      EndHoldsOrIsLast(listing, predecessor, end);
      if |listing| >= PAGE * PAGE_BOUND {
        var read := Prefix(listing, end);
        HoldsGrows(listing, predecessor, |read|, PAGE * PAGE_BOUND);
      }
    } else {
      PagesBeforeEnd(listing, predecessor, 1, PAGE_BOUND);
      if Holds(listing[..PAGE * PAGE_BOUND], predecessor) {
        var i :| 0 <= i < PAGE * PAGE_BOUND && Official(listing[i]) && listing[i].tag.version == predecessor;
        HeldOnItsPage(listing, predecessor, i);
        PagesBeforeEnd(listing, predecessor, 1, i / PAGE + 1);
      }
    }
  }

  lemma HoldsGrows(listing: seq<Release>, v: Version, n: nat, m: nat)
    requires n <= m <= |listing|
    ensures Holds(listing[..n], v) ==> Holds(listing[..m], v)
  {
    if Holds(listing[..n], v) {
      var i :| 0 <= i < n && Official(listing[..n][i]) && listing[..n][i].tag.version == v;
      assert listing[..m][i] == listing[..n][i];
    }
  }

  /** Where a scan ends, what was read holds the predecessor or is everything. */
  lemma EndHoldsOrIsLast(listing: seq<Release>, predecessor: Version, end: nat)
    requires end >= 1 && EndsAt(listing, predecessor, end)
    ensures Holds(Prefix(listing, end), predecessor) || (Prefix(listing, end) == listing && |listing| < PAGE * end)
  {
    var last := PageOf(listing, end);
    if Holds(last, predecessor) {
      var i :| 0 <= i < |last| && Official(last[i]) && last[i].tag.version == predecessor;
      assert Prefix(listing, end)[Least(PAGE * (end - 1), |listing|) + i] == last[i];
    }
  }

  /** No record on the pages that were not read is of a higher version than everything found. */
  ghost predicate NothingHigherLater(listing: seq<Release>, releases: seq<Release>) {
    forall i :: |releases| <= i < |listing| && Official(listing[i]) ==>
      Eligible(releases) != [] && !Below(MaxOf(Eligible(releases)), listing[i].tag.version)
  }

  /** The newest official version overall is among those found exactly when nothing higher comes later. */
  lemma SameNewestIffNothingHigherLater(listing: seq<Release>, releases: seq<Release>)
    requires releases <= listing && Eligible(releases) != []
    ensures Eligible(listing) != []
    ensures MaxOf(Eligible(listing)) == MaxOf(Eligible(releases)) <==> NothingHigherLater(listing, releases)
  {
    BelowIsAnOrder();
    var found := MaxOf(Eligible(releases));
    FoundIsListed(releases, listing, found);
    var newest := MaxOf(Eligible(listing));
    var n :| 0 <= n < |listing| && Official(listing[n]) && listing[n].tag.version == newest;
    if n < |releases| {
      assert releases[n] == listing[n];
      assert newest in Eligible(releases);
    }
    forall i | 0 <= i < |listing| && Official(listing[i])
      ensures listing[i].tag.version == newest || Below(listing[i].tag.version, newest)
    {
      assert listing[i].tag.version in Eligible(listing);
    }
  }

  /**
   Discovery refines full search exactly when no unread page holds a version higher than everything
   found: then, and only then, scheduled detection on what was found is detection on the whole listing.
   */
  lemma DiscoveryRefinesFullSearchIff(listing: seq<Release>, signed: seq<Version>)
    requires Discovered(listing, signed).Found?
    ensures var releases := Prefix(listing, EndPage(listing, MaxOf(signed), 1));
            (forall branches: set<Version>, runs: seq<RunInfo> ::
               Prepare(releases, signed, branches, runs, None, false) == Prepare(listing, signed, branches, runs, None, false))
            <==> NothingHigherLater(listing, releases)
    ensures Discovered(listing, signed).releases == Prefix(listing, EndPage(listing, MaxOf(signed), 1))
  {
    var releases := Prefix(listing, EndPage(listing, MaxOf(signed), 1));
    FoundHoldsPredecessorOrEverything(listing, signed);
    if releases != listing {
      assert MaxOf(signed) in Eligible(releases);
      SameNewestIffNothingHigherLater(listing, releases);
      if NothingHigherLater(listing, releases) {
        forall branches: set<Version>, runs: seq<RunInfo>
          ensures Prepare(releases, signed, branches, runs, None, false) == Prepare(listing, signed, branches, runs, None, false)
        {
          SameNewestSamePreparation(releases, listing, signed, branches, runs);
        }
      } else {
        HigherNewestIsMissed(releases, listing, signed);
      }
    }
  }

  /** The first record of a tag is the same in a start of the listing that holds one. */
  lemma {:induction false} SamePublication(a: seq<Release>, b: seq<Release>, v: Version)
    requires a <= b && Holds(a, v)
    ensures PublicationOf(a, v) == PublicationOf(b, v)
    decreases |a|
  {
    if a[0].tag != Stable(v) {
      var i :| 0 <= i < |a| && Official(a[i]) && a[i].tag.version == v;
      assert a[1..][i - 1] == a[i];
      SamePublication(a[1..], b[1..], v);
    }
  }

  /** The scheduled detector looks at nothing but the newest official version and its first record. */
  lemma SameNewestSamePreparation(a: seq<Release>, b: seq<Release>, published: seq<Version>,
                                  branches: set<Version>, runs: seq<RunInfo>)
    requires a <= b && Eligible(a) != [] && Eligible(b) != [] && MaxOf(Eligible(a)) == MaxOf(Eligible(b))
    ensures Prepare(a, published, branches, runs, None, false) == Prepare(b, published, branches, runs, None, false)
  {
    SamePublication(a, b, MaxOf(Eligible(a)));
    ScheduledIs(a, published, branches, runs);
    ScheduledIs(b, published, branches, runs);
  }

  lemma FoundIsListed(found: seq<Release>, all: seq<Release>, v: Version)
    requires found <= all && v in Eligible(found)
    ensures v in Eligible(all)
  {
    var f :| 0 <= f < |found| && Official(found[f]) && found[f].tag.version == v;
    assert all[f] == found[f];
  }

  lemma HigherNewestIsMissed(found: seq<Release>, all: seq<Release>, signed: seq<Version>)
    requires found <= all && signed != [] && MaxOf(signed) in Eligible(found)
    requires Eligible(all) != [] && MaxOf(Eligible(all)) != MaxOf(Eligible(found))
    ensures Prepare(found, signed, {}, [], None, false) != Prepare(all, signed, {}, [], None, false)
  {
    var newest := MaxOf(Eligible(all));
    var best := MaxOf(Eligible(found));
    FoundIsListed(found, all, best);
    assert Below(best, newest) && (MaxOf(signed) == best || Below(MaxOf(signed), best));
    forall p | p in signed
      ensures Below(p, newest)
    {
      assert p == MaxOf(signed) || Below(p, MaxOf(signed));
    }
    ScheduledChoosesIff(all, signed, {}, [], newest);
    ScheduledChoosesIff(found, signed, {}, [], newest);
  }

  ghost predicate Newer(a: Release, b: Release) {
    ListedAt(a).Some? && ListedAt(b).Some? && ListedAt(a).value > ListedAt(b).value
  }

  /** Every official version above the predecessor was created strictly after each of its records. */
  ghost predicate HigherIsNewer(listing: seq<Release>, predecessor: Version) {
    forall i, j ::
      && 0 <= i < |listing| && 0 <= j < |listing|
      && Official(listing[i]) && Below(predecessor, listing[i].tag.version)
      && Official(listing[j]) && listing[j].tag.version == predecessor
      ==> Newer(listing[i], listing[j])
  }

  /**
   The listing order suffices: if every version above the predecessor was created strictly after the
   predecessor's records, nothing higher can come on a later page.
   */
  lemma CreatedAfterMeansNothingHigherLater(listing: seq<Release>, signed: seq<Version>)
    requires Discovered(listing, signed).Found? && NewestFirst(listing)
    requires HigherIsNewer(listing, MaxOf(signed))
    ensures NothingHigherLater(listing, Discovered(listing, signed).releases)
  {
    var releases := Discovered(listing, signed).releases;
    FoundHoldsPredecessorOrEverything(listing, signed);
    BelowIsAnOrder();
    if releases != listing {
      var j :| 0 <= j < |releases| && Official(releases[j]) && releases[j].tag.version == MaxOf(signed);
      assert listing[j] == releases[j] && MaxOf(signed) in Eligible(releases);
      forall i | |releases| <= i < |listing| && Official(listing[i])
        ensures !Below(MaxOf(Eligible(releases)), listing[i].tag.version)
      {
        assert ListedAt(listing[j]).value >= ListedAt(listing[i]).value;
        assert !Below(MaxOf(signed), listing[i].tag.version);
      }
    }
  }

  /** A full first page holding the signed predecessor, then a higher version created at the same moment. */
  function TiedListing(): seq<Release> {
    [Release(Stable(Version(2026, 11, 0)), false, false, Moment(0), Absent)]
    + seq(99, i requires 0 <= i < 99 => Release(OtherTag("beta"), false, true, Moment(0), Absent))
    + [Release(Stable(Version(2026, 11, 1)), false, false, Moment(0), Absent)]
  }

  /** Discovery reads the first page of the tied listing only, and leaves the newer version unread. */
  lemma TiedDiscovery()
    ensures NewestFirst(TiedListing())
    ensures Discovered(TiedListing(), [Version(2026, 11, 0)]) == Found(TiedListing()[..PAGE])
    ensures !NothingHigherLater(TiedListing(), TiedListing()[..PAGE])
  {
    var listing := TiedListing();
    FoundOnFirstPage(listing, [Version(2026, 11, 0)], 0);
    TiedOfficial(PAGE);
    TiedVersions(listing[..PAGE]);
    assert Official(listing[PAGE]);
  }

  lemma TiedDetection(part: seq<Release>)
    requires part == TiedListing() || part == TiedListing()[..PAGE]
    ensures Prepare(part, [Version(2026, 11, 0)], {}, [], None, false)
            == if |part| > PAGE then Chosen(Version(2026, 11, 1)) else Nothing
  {
    TiedVersions(part);
    FirstDetection(part, Version(2026, 11, 0));
  }

  /** With one version signed and nothing attempted yet, detection is a comparison with the newest one. */
  lemma FirstDetection(releases: seq<Release>, signed: Version)
    requires Eligible(releases) != []
    ensures Prepare(releases, [signed], {}, [], None, false)
            == if Below(signed, MaxOf(Eligible(releases))) then Chosen(MaxOf(Eligible(releases))) else Nothing
  {
    ScheduledIs(releases, [signed], {}, []);
    assert signed in [signed];
  }

  /**
   Strictness matters: on a newest-first listing with a tie, discovery reads the first page only, and
   detection there finds nothing, while detection on the whole listing picks the newer version.
   */
  lemma TieIsMissed()
    ensures NewestFirst(TiedListing())
    ensures Discovered(TiedListing(), [Version(2026, 11, 0)]) == Found(TiedListing()[..PAGE])
    ensures !NothingHigherLater(TiedListing(), TiedListing()[..PAGE])
    ensures Prepare(TiedListing()[..PAGE], [Version(2026, 11, 0)], {}, [], None, false) == Nothing
    ensures Prepare(TiedListing(), [Version(2026, 11, 0)], {}, [], None, false) == Chosen(Version(2026, 11, 1))
  {
    TiedDiscovery();
    TiedDetection(TiedListing()[..PAGE]);
    TiedDetection(TiedListing());
  }

  lemma TiedOfficial(i: nat)
    requires i <= PAGE
    ensures |TiedListing()| == PAGE + 1
    ensures Official(TiedListing()[i]) <==> i == 0 || i == PAGE
    ensures TiedListing()[0].tag == Stable(Version(2026, 11, 0)) && TiedListing()[PAGE].tag == Stable(Version(2026, 11, 1))
  {}

  /** The only official versions of the tied listing are its first and its last record's. */
  lemma TiedEligible(part: seq<Release>, v: Version)
    requires part == TiedListing() || part == TiedListing()[..PAGE]
    ensures v in Eligible(part) <==> v == Version(2026, 11, 0) || (|part| > PAGE && v == Version(2026, 11, 1))
  {
    TiedOfficial(0);
    TiedOfficial(PAGE);
    assert Official(part[0]) && part[0].tag.version == Version(2026, 11, 0);
    if |part| > PAGE {
      assert Official(part[PAGE]) && part[PAGE].tag.version == Version(2026, 11, 1);
    }
    if v in Eligible(part) {
      var i :| 0 <= i < |part| && Official(part[i]) && part[i].tag.version == v;
      TiedOfficial(i);
      assert part[i] == TiedListing()[i];
    }
  }

  lemma TiedVersions(part: seq<Release>)
    requires part == TiedListing() || part == TiedListing()[..PAGE]
    ensures Eligible(part) != []
    ensures MaxOf(Eligible(part)) == if |part| > PAGE then Version(2026, 11, 1) else Version(2026, 11, 0)
  {
    TiedEligible(part, Version(2026, 11, 0));
    TiedEligible(part, Version(2026, 11, 1));
    TiedEligible(part, MaxOf(Eligible(part)));
  }

  lemma FoundOnFirstPage(listing: seq<Release>, signed: seq<Version>, i: nat)
    requires NewestFirst(listing) && signed != [] && i < PAGE <= |listing|
    requires Official(listing[i]) && listing[i].tag.version == MaxOf(signed)
    ensures Discovered(listing, signed) == Found(listing[..PAGE])
  {
    assert PageOf(listing, 1)[i] == listing[i];
    assert NewestFirst(listing[..PAGE]);
    NoFaultIffNewestFirst(listing[..PAGE]);
  }
}
