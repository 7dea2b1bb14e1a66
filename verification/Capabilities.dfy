/**
 Capability withholding: a release inherits exactly the predecessor's profile
 references whose evidence group passed. Nothing is added and nothing reordered.
 */
module Capabilities {
  import opened Support

  /** A signed profile reference; its identity is the capability it names. */
  datatype Profile = Profile(capability: string, reference: string)

  /** Evidence groups: each names the capabilities it covers. */
  type Groups = map<string, seq<string>>

  /** No capability belongs to two groups, or twice to one. */
  ghost predicate Flat(groups: Groups) {
    && (forall g, h, c :: g in groups && h in groups && c in groups[g] && c in groups[h] ==> g == h)
    && forall g, i, j :: g in groups && 0 <= i < j < |groups[g]| ==> groups[g][i] != groups[g][j]
  }

  function Names(profiles: seq<Profile>): (r: seq<string>)
    ensures |r| == |profiles| && forall i :: 0 <= i < |r| ==> r[i] == profiles[i].capability
  {
    seq(|profiles|, i requires 0 <= i < |profiles| => profiles[i].capability)
  }

  predicate Known(groups: Groups, capability: string) {
    exists g :: g in groups && capability in groups[g]
  }

  /** Covered by a group whose result is true; a missing result counts as not passed. */
  predicate Allowed(groups: Groups, results: map<string, bool>, capability: string) {
    exists g :: g in groups && g in results && results[g] && capability in groups[g]
  }

  function Keep(profiles: seq<Profile>, groups: Groups, results: map<string, bool>): seq<Profile> {
    if profiles == [] then []
    else
      var last := profiles[|profiles| - 1];
      Keep(profiles[..|profiles| - 1], groups, results)
      + if Allowed(groups, results, last.capability) then [last] else []
  }

  datatype Subset = Selected(profiles: seq<Profile>) | UnmappedOrDuplicate | UnknownGroup

  predicate HasDuplicate(names: seq<string>) {
    exists i, j :: 0 <= i < j < |names| && names[i] == names[j]
  }

  function PassingSubset(predecessor: seq<Profile>, results: map<string, bool>, groups: Groups): Subset {
    var ids := Names(predecessor);
    if HasDuplicate(ids) || exists i :: 0 <= i < |ids| && !Known(groups, ids[i]) then UnmappedOrDuplicate
    else if exists g :: g in results && g !in groups then UnknownGroup
    else Selected(Keep(predecessor, groups, results))
  }

  /** What the assembled evidence lists as withheld. */
  function Withheld(predecessor: seq<Profile>, selected: seq<Profile>): seq<string> {
    if predecessor == [] then []
    else
      var last := predecessor[|predecessor| - 1];
      Withheld(predecessor[..|predecessor| - 1], selected) + if last in selected then [] else [last.capability]
  }

  /** `inner` is `outer` with some entries left out. */
  ghost predicate IsSublist<T>(inner: seq<T>, outer: seq<T>)
    decreases outer
  {
    if inner == [] then true
    else if outer == [] then false
    else
      || (inner[|inner| - 1] == outer[|outer| - 1] && IsSublist(inner[..|inner| - 1], outer[..|outer| - 1]))
      || IsSublist(inner, outer[..|outer| - 1])
  }

  /** Nothing is selected twice over: duplicate or unmapped capabilities and unknown groups are refused. */
  lemma SelectedIffMapped(predecessor: seq<Profile>, results: map<string, bool>, groups: Groups)
    ensures PassingSubset(predecessor, results, groups).Selected?
            <==> PairwiseDistinct(Names(predecessor)) && AllKnown(predecessor, groups) && results.Keys <= groups.Keys
  {
    var ids := Names(predecessor);
    if exists i :: 0 <= i < |ids| && !Known(groups, ids[i]) {
      var i :| 0 <= i < |ids| && !Known(groups, ids[i]);
      assert predecessor[i] in predecessor;
    }
    if !AllKnown(predecessor, groups) {
      var p :| p in predecessor && !Known(groups, p.capability);
      var i :| 0 <= i < |predecessor| && predecessor[i] == p;
      assert !Known(groups, ids[i]);
    }
  }

  ghost predicate AllKnown(profiles: seq<Profile>, groups: Groups) {
    forall p :: p in profiles ==> Known(groups, p.capability)
  }

  /** The unique group of a capability decides. */
  lemma AllowedIffItsGroupPassed(groups: Groups, results: map<string, bool>, capability: string, group: string)
    requires Flat(groups) && group in groups && capability in groups[group]
    ensures Allowed(groups, results, capability) <==> group in results && results[group]
  {}

  lemma SublistSnoc<T>(a: seq<T>, b: seq<T>, x: T)
    requires IsSublist(a, b)
    ensures IsSublist(a, b + [x]) && IsSublist(a + [x], b + [x])
  {
    assert (a + [x])[..|a|] == a && (b + [x])[..|b|] == b;
  }

  /** With or without the last item of the whole, a sublist stays one. */
  lemma SublistExtends<T>(a: seq<T>, longer: seq<T>, b: seq<T>, whole: seq<T>, x: T)
    requires IsSublist(a, b) && whole == b + [x] && (longer == a || longer == a + [x])
    ensures IsSublist(longer, whole)
  {
    SublistSnoc(a, b, x);
  }

  lemma KeepSnoc(profiles: seq<Profile>, groups: Groups, results: map<string, bool>)
    requires profiles != []
    ensures var last := profiles[|profiles| - 1];
            var kept := Keep(profiles[..|profiles| - 1], groups, results);
            Keep(profiles, groups, results) == if Allowed(groups, results, last.capability) then kept + [last] else kept
  {}

  lemma {:induction false} KeepMember(profiles: seq<Profile>, groups: Groups, results: map<string, bool>, p: Profile)
    ensures p in Keep(profiles, groups, results) <==> p in profiles && Allowed(groups, results, p.capability)
  {
    if profiles != [] {
      var shorter := profiles[..|profiles| - 1];
      KeepMember(shorter, groups, results, p);
      KeepSnoc(profiles, groups, results);
      assert profiles == shorter + [profiles[|profiles| - 1]];
    }
  }

  lemma {:induction false} KeepIsSublist(profiles: seq<Profile>, groups: Groups, results: map<string, bool>)
    ensures IsSublist(Keep(profiles, groups, results), profiles)
  {
    if profiles != [] {
      var shorter := profiles[..|profiles| - 1];
      var last := profiles[|profiles| - 1];
      KeepIsSublist(shorter, groups, results);
      KeepSnoc(profiles, groups, results);
      assert profiles == shorter + [last];
      SublistExtends(Keep(shorter, groups, results), Keep(profiles, groups, results), shorter, profiles, last);
    }
  }

  /** Selection is the order-preserving sublist of exactly the allowed profiles. */
  lemma KeepIsExact(profiles: seq<Profile>, groups: Groups, results: map<string, bool>)
    ensures IsSublist(Keep(profiles, groups, results), profiles)
    ensures forall p :: p in Keep(profiles, groups, results)
              <==> p in profiles && Allowed(groups, results, p.capability)
  {
    KeepIsSublist(profiles, groups, results);
    forall p
      ensures p in Keep(profiles, groups, results) <==> p in profiles && Allowed(groups, results, p.capability)
    {
      KeepMember(profiles, groups, results, p);
    }
  }

  lemma {:induction false} SublistMembers<T(!new)>(inner: seq<T>, outer: seq<T>)
    requires IsSublist(inner, outer)
    ensures forall x :: x in inner ==> x in outer
    decreases |outer|
  {
    if inner != [] {
      var last := outer[|outer| - 1];
      var shorter := outer[..|outer| - 1];
      if inner[|inner| - 1] == last && IsSublist(inner[..|inner| - 1], shorter) {
        SublistMembers(inner[..|inner| - 1], shorter);
        assert inner == inner[..|inner| - 1] + [last];
      } else {
        SublistMembers(inner, shorter);
      }
    }
  }

  /** The part of a sublist before the last item of the whole, if it holds that item at all. */
  ghost predicate EndsWithOrAvoids<T>(inner: seq<T>, shorter: seq<T>, last: T) {
    if last in inner then inner != [] && inner[|inner| - 1] == last && IsSublist(inner[..|inner| - 1], shorter)
    else IsSublist(inner, shorter)
  }

  lemma SublistSplits<T(!new)>(inner: seq<T>, outer: seq<T>)
    requires IsSublist(inner, outer) && outer != [] && outer[|outer| - 1] !in outer[..|outer| - 1]
    ensures EndsWithOrAvoids(inner, outer[..|outer| - 1], outer[|outer| - 1])
  {
    var shorter := outer[..|outer| - 1];
    if IsSublist(inner, shorter) {
      SublistMembers(inner, shorter);
    }
  }

  /** A list without repetitions has only one sublist with given members. */
  lemma {:induction false} SublistIsUnique<T(!new)>(a: seq<T>, b: seq<T>, outer: seq<T>)
    requires PairwiseDistinct(outer) && IsSublist(a, outer) && IsSublist(b, outer)
    requires forall x :: x in a <==> x in b
    ensures a == b
    decreases |outer|
  {
    if outer == [] {
    } else {
      var shorter := outer[..|outer| - 1];
      var last := outer[|outer| - 1];
      SublistSplits(a, outer);
      SublistSplits(b, outer);
      if last in a {
        var aa, bb := a[..|a| - 1], b[..|b| - 1];
        SublistMembers(aa, shorter);
        SublistMembers(bb, shorter);
        assert a == aa + [last] && b == bb + [last];
        assert last !in shorter;
        forall x
          ensures x in aa <==> x in bb
        {
          assert (x in a <==> x in aa || x == last) && (x in b <==> x in bb || x == last);
        }
        SublistIsUnique(aa, bb, shorter);
      } else {
        SublistIsUnique(a, b, shorter);
      }
    }
  }

  /**
   Selection, without recursion: it yields `s` iff the capabilities are distinct and mapped, every result
   is of a known group, and `s` is the sublist, in order, of exactly the profiles whose group passed.
   */
  lemma SelectionIff(predecessor: seq<Profile>, results: map<string, bool>, groups: Groups, s: seq<Profile>)
    ensures PassingSubset(predecessor, results, groups) == Selected(s)
            <==> && PairwiseDistinct(Names(predecessor)) && AllKnown(predecessor, groups) && results.Keys <= groups.Keys
                 && IsSublist(s, predecessor)
                 && forall p :: p in s <==> p in predecessor && Allowed(groups, results, p.capability)
    ensures PassingSubset(predecessor, results, groups) == UnmappedOrDuplicate
            <==> !(PairwiseDistinct(Names(predecessor)) && AllKnown(predecessor, groups))
  {
    SelectedIffMapped(predecessor, results, groups);
    KeepIsExact(predecessor, groups, results);
    if PassingSubset(predecessor, results, groups).Selected? && IsSublist(s, predecessor)
       && forall p :: p in s <==> p in predecessor && Allowed(groups, results, p.capability) {
      DistinctProfiles(predecessor);
      SublistIsUnique(s, Keep(predecessor, groups, results), predecessor);
    }
  }

  lemma DistinctProfiles(profiles: seq<Profile>)
    requires PairwiseDistinct(Names(profiles))
    ensures PairwiseDistinct(profiles)
  {
    assert forall i :: 0 <= i < |profiles| ==> Names(profiles)[i] == profiles[i].capability;
  }

  /** More passing groups never select less. */
  lemma {:induction false} SelectionIsMonotone(profiles: seq<Profile>, groups: Groups,
                                               fewer: map<string, bool>, more: map<string, bool>)
    requires forall g :: g in fewer && fewer[g] ==> g in more && more[g]
    ensures IsSublist(Keep(profiles, groups, fewer), Keep(profiles, groups, more))
  {
    if profiles != [] {
      var shorter := profiles[..|profiles| - 1];
      var last := profiles[|profiles| - 1];
      SelectionIsMonotone(shorter, groups, fewer, more);
      KeepSnoc(profiles, groups, fewer);
      KeepSnoc(profiles, groups, more);
      assert Allowed(groups, fewer, last.capability) ==> Allowed(groups, more, last.capability);
      SublistSnoc(Keep(shorter, groups, fewer), Keep(shorter, groups, more), last);
    }
  }

  lemma {:induction false} SublistTransitive<T>(a: seq<T>, b: seq<T>, c: seq<T>)
    requires IsSublist(a, b) && IsSublist(b, c)
    ensures IsSublist(a, c)
    decreases |b| + |c|
  {
    if a != [] {
      var bb := b[..|b| - 1];
      var cc := c[..|c| - 1];
      if b[|b| - 1] == c[|c| - 1] && IsSublist(bb, cc) {
        if a[|a| - 1] == b[|b| - 1] && IsSublist(a[..|a| - 1], bb) {
          SublistTransitive(a[..|a| - 1], bb, cc);
        } else {
          SublistTransitive(a, bb, cc);
        }
      } else {
        SublistTransitive(a, b, cc);
      }
    }
  }

  /** Capabilities carried through a chain of releases, each with its own group results. */
  function CarriedThrough(first: seq<Profile>, results: seq<map<string, bool>>, groups: Groups): seq<Profile> {
    if results == [] then first
    else Keep(CarriedThrough(first, results[..|results| - 1], groups), groups, results[|results| - 1])
  }

  /** Every release of the chain passed the group of this capability. */
  ghost predicate PassedThroughout(groups: Groups, results: seq<map<string, bool>>, capability: string) {
    forall i :: 0 <= i < |results| ==> Allowed(groups, results[i], capability)
  }

  lemma PassedSnoc(groups: Groups, results: seq<map<string, bool>>, capability: string)
    requires results != []
    ensures PassedThroughout(groups, results, capability)
            <==> && PassedThroughout(groups, results[..|results| - 1], capability)
                 && Allowed(groups, results[|results| - 1], capability)
  {}

  /** Chains only shrink, and what survives passed in every release. */
  lemma {:induction false} ChainsOnlyShrink(first: seq<Profile>, results: seq<map<string, bool>>, groups: Groups)
    ensures IsSublist(CarriedThrough(first, results, groups), first)
    ensures forall p :: p in CarriedThrough(first, results, groups)
              <==> p in first && PassedThroughout(groups, results, p.capability)
  {
    if results == [] {
      SublistOfItself(first);
    } else {
      var earlier := CarriedThrough(first, results[..|results| - 1], groups);
      ChainsOnlyShrink(first, results[..|results| - 1], groups);
      KeepIsExact(earlier, groups, results[|results| - 1]);
      SublistTransitive(CarriedThrough(first, results, groups), earlier, first);
      forall p
        ensures p in CarriedThrough(first, results, groups)
                <==> p in first && PassedThroughout(groups, results, p.capability)
      {
        PassedSnoc(groups, results, p.capability);
      }
    }
  }

  lemma {:induction false} SublistOfItself<T>(s: seq<T>)
    ensures IsSublist(s, s)
  {
    if s != [] { SublistOfItself(s[..|s| - 1]); }
  }

  /** The names missing from `carried`, in order, as the approval summary lists them. */
  function Missing(names: seq<string>, carried: seq<string>): seq<string> {
    if names == [] then []
    else
      Missing(names[..|names| - 1], carried) + if names[|names| - 1] in carried then [] else [names[|names| - 1]]
  }

  /** The withheld list holds exactly the profiles whose group did not pass: a partition. */
  lemma SelectedAndWithheldPartition(predecessor: seq<Profile>, results: map<string, bool>, groups: Groups)
    requires PassingSubset(predecessor, results, groups).Selected?
    ensures var selected := PassingSubset(predecessor, results, groups).profiles;
            && (forall p :: p in predecessor ==>
                  (p in selected <==> p.capability !in Withheld(predecessor, selected)))
            && |selected| + |Withheld(predecessor, selected)| == |predecessor|
            && (forall c :: c in Withheld(predecessor, selected) ==> c in Names(predecessor))
  {
    var selected := PassingSubset(predecessor, results, groups).profiles;
    KeepIsExact(predecessor, groups, results);
    WithheldNames(predecessor, selected, predecessor);
    WithheldCount(predecessor, groups, results, selected);
  }

  lemma {:induction false} WithheldNames(part: seq<Profile>, selected: seq<Profile>, all: seq<Profile>)
    requires part <= all
    ensures forall c :: c in Withheld(part, selected) <==> exists i :: 0 <= i < |part| && part[i] !in selected && part[i].capability == c
  {
    if part != [] {
      WithheldNames(part[..|part| - 1], selected, all);
    }
  }

  lemma {:induction false} WithheldCount(part: seq<Profile>, groups: Groups, results: map<string, bool>, selected: seq<Profile>)
    requires forall p :: p in part ==> (p in selected <==> Allowed(groups, results, p.capability))
    ensures |Keep(part, groups, results)| + |Withheld(part, selected)| == |part|
  {
    if part != [] {
      var shorter := part[..|part| - 1];
      assert forall p :: p in shorter ==> p in part;
      assert part[|part| - 1] in part;
      WithheldCount(shorter, groups, results, selected);
    }
  }

  /** Evidence and approval agree: both compute the same withheld list, and nothing is added. */
  lemma EvidenceAndApprovalAgree(predecessor: seq<Profile>, results: map<string, bool>, groups: Groups)
    requires PassingSubset(predecessor, results, groups).Selected?
    ensures var selected := PassingSubset(predecessor, results, groups).profiles;
            && Missing(Names(predecessor), Names(selected)) == Withheld(predecessor, selected)
            && Missing(Names(selected), Names(predecessor)) == []
  {
    var selected := PassingSubset(predecessor, results, groups).profiles;
    KeepIsExact(predecessor, groups, results);
    SelectedByName(predecessor, selected);
    MissingIsWithheld(predecessor, selected);
    NoneMissing(Names(selected), Names(predecessor));
  }

  lemma NameOf(profiles: seq<Profile>, p: Profile)
    requires p in profiles
    ensures p.capability in Names(profiles)
  {
    var i :| 0 <= i < |profiles| && profiles[i] == p;
    assert Names(profiles)[i] == p.capability;
  }

  /** Among profiles with distinct names, being selected shows in the name alone. */
  lemma SelectedByName(all: seq<Profile>, selected: seq<Profile>)
    requires PairwiseDistinct(Names(all)) && forall p :: p in selected ==> p in all
    ensures forall p :: p in all ==> (p in selected <==> p.capability in Names(selected))
    ensures forall c :: c in Names(selected) ==> c in Names(all)
  {
    forall c | c in Names(selected)
      ensures exists p :: p in selected && p.capability == c
      ensures c in Names(all)
    {
      var i :| 0 <= i < |selected| && Names(selected)[i] == c;
      assert selected[i] in selected;
      NameOf(all, selected[i]);
    }
    forall p | p in all
      ensures p in selected <==> p.capability in Names(selected)
    {
      if p in selected {
        NameOf(selected, p);
      }
      if p.capability in Names(selected) {
        var q :| q in selected && q.capability == p.capability;
        SameNameSameProfile(all, q, p);
      }
    }
  }

  lemma SameNameSameProfile(profiles: seq<Profile>, p: Profile, q: Profile)
    requires PairwiseDistinct(Names(profiles)) && p in profiles && q in profiles && p.capability == q.capability
    ensures p == q
  {
    var i :| 0 <= i < |profiles| && profiles[i] == p;
    var j :| 0 <= j < |profiles| && profiles[j] == q;
    assert Names(profiles)[i] == Names(profiles)[j];
  }

  lemma {:induction false} MissingIsWithheld(part: seq<Profile>, selected: seq<Profile>)
    requires forall p :: p in part ==> (p in selected <==> p.capability in Names(selected))
    ensures Missing(Names(part), Names(selected)) == Withheld(part, selected)
  {
    if part != [] {
      var shorter := part[..|part| - 1];
      assert Names(part)[..|part| - 1] == Names(shorter);
      assert forall p :: p in shorter ==> p in part;
      assert part[|part| - 1] in part;
      MissingIsWithheld(shorter, selected);
    }
  }

  lemma {:induction false} NoneMissing(names: seq<string>, carried: seq<string>)
    requires forall c :: c in names ==> c in carried
    ensures Missing(names, carried) == []
  {
    if names != [] {
      assert names[|names| - 1] in names;
      NoneMissing(names[..|names| - 1], carried);
    }
  }
}
