/**
 Signing a candidate: what a transition may change, how the journal is compacted, and
 what holds of every journal that signing produces. The preparation utility makes these
 checks again after approval, and a dry run makes them with a key of its own.
 */
module RegistrySigning {
  import opened Support
  import opened ReleaseSelection
  import opened RegistryJournal

  const MAX_CHAIN: nat := 32
  const MAX_PARSED_CHAIN: nat := 64
  const MAX_SOURCES: nat := 8
  const MAX_BYTES: nat := 32 * 1024 * 1024

  /** The content of a journal: its chain, and the older envelopes retained for their revocations. */
  datatype Journal = Journal(envelopes: seq<Envelope>, sources: seq<Envelope>)

  /**
   What is given: the content digest; the parser's checks of one envelope's fields; whether an entry's
   contracts are compiled; whether a review manifest binds an extension; the size of a signed journal
   (signatures have one length); and the order sources are listed in.
   */
  datatype Rules = Rules(digest: Envelope -> string, shape: Envelope -> bool, known: Entry -> bool,
                         reviewed: (string, Entry, Entry) -> bool, size: Journal -> nat,
                         sorted: set<Envelope> -> seq<Envelope>)

  predicate WellFormed(e: Envelope, rules: Rules) {
    && rules.shape(e) && e.sequence >= 1 && e.generatedAt < e.expiresAt
    && (forall i, j :: 0 <= i < j < |e.entries| ==> e.entries[i].version != e.entries[j].version)
    && (forall i :: 0 <= i < |e.entries| ==> e.entries[i].version !in e.revocations)
  }

  predicate Succeeds(earlier: Envelope, later: Envelope, rules: Rules) {
    && later.sequence == earlier.sequence + 1 && later.previous == rules.digest(earlier)
    && later.generatedAt >= earlier.generatedAt
  }

  /** A bounded chain of well-formed envelopes without a repeated digest. */
  predicate Chain(envelopes: seq<Envelope>, rules: Rules) {
    && 0 < |envelopes| <= MAX_PARSED_CHAIN
    && (forall i :: 0 <= i < |envelopes| ==> WellFormed(envelopes[i], rules))
    && (forall i :: 0 < i < |envelopes| ==> Succeeds(envelopes[i - 1], envelopes[i], rules))
    && forall i, j :: 0 <= i < j < |envelopes| ==> rules.digest(envelopes[i]) != rules.digest(envelopes[j])
  }

  /** A retained source: it revokes something, and is no envelope of the chain nor a rival of one. */
  predicate Retainable(source: Envelope, envelopes: seq<Envelope>, rules: Rules)
    requires envelopes != []
  {
    && WellFormed(source, rules) && source.revocations != map[]
    && source.sequence <= envelopes[|envelopes| - 1].sequence
    && forall i :: 0 <= i < |envelopes| ==>
         rules.digest(envelopes[i]) != rules.digest(source) && envelopes[i].sequence != source.sequence
  }

  predicate Sources(sources: seq<Envelope>, envelopes: seq<Envelope>, rules: Rules)
    requires envelopes != []
  {
    && |sources| <= MAX_SOURCES
    && (forall i :: 0 <= i < |sources| ==> Retainable(sources[i], envelopes, rules))
    && forall i, j :: 0 <= i < j < |sources| ==>
         rules.digest(sources[i]) != rules.digest(sources[j]) && sources[i].sequence != sources[j].sequence
  }

  /** A journal that parses. */
  predicate Parses(j: Journal, rules: Rules) {
    Chain(j.envelopes, rules) && Sources(j.sources, j.envelopes, rules)
  }

  /** The revocations of a list of envelopes; a later one of a version replaces an earlier one. */
  function Denials(envelopes: seq<Envelope>): map<Version, Revocation> {
    if envelopes == [] then map[]
    else Denials(envelopes[..|envelopes| - 1]) + envelopes[|envelopes| - 1].revocations
  }

  /** Every denial a journal retains. */
  function Retained(j: Journal): map<Version, Revocation> {
    Denials(j.envelopes + j.sources)
  }

  // ----- Transitions -----

  function Changed(before: map<Version, Entry>, after: map<Version, Entry>): set<Version> {
    set v | v in after && !(v in before && before[v] == after[v])
  }

  function DenialChanges(earlier: map<Version, Revocation>, later: map<Version, Revocation>): set<Version> {
    set v | v in later && !(v in earlier && earlier[v] == later[v])
  }

  /** A withdrawal takes away at most the one entry it denies, and loses no denial. */
  predicate MayWithdraw(before: map<Version, Entry>, after: map<Version, Entry>,
                        earlier: map<Version, Revocation>, later: map<Version, Revocation>)
  {
    var removed := before.Keys - after.Keys;
    && Changed(before, after) == {} && |removed| <= 1 && earlier.Keys <= later.Keys
    && |DenialChanges(earlier, later)| <= 1 && removed <= later.Keys
    && (removed != {} && DenialChanges(earlier, later) != {} ==> DenialChanges(earlier, later) == removed)
  }

  /** An addition or extension keeps the denials and every sibling, and changes at most one entry, under the reviewed evidence. */
  predicate MayAdd(before: map<Version, Entry>, after: map<Version, Entry>, e: Envelope,
                   denials: map<Version, Revocation>, evidence: string, rules: Rules)
  {
    && e.revocations == denials && before.Keys <= after.Keys && |Changed(before, after)| <= 1
    && (forall i :: 0 <= i < |e.entries| ==> rules.known(e.entries[i]) && e.entries[i].version !in denials)
    && (exists i :: 0 <= i < |e.entries| && e.entries[i].evidenceSha256 == evidence)
    && forall v :: v in Changed(before, after) ==> after[v].evidenceSha256 == evidence
  }

  /** A renewal changes nothing but the evidence. */
  predicate MayRenew(before: map<Version, Entry>, after: map<Version, Entry>) {
    forall v :: v in Changed(before, after) && v in before ==>
      before[v].identity == after[v].identity && before[v].capabilities == after[v].capabilities
  }

  /** An extension appends reviewed references to exactly one entry, under a current predecessor. */
  predicate MayExtend(before: map<Version, Entry>, after: map<Version, Entry>, tip: Envelope, evidence: string, now: int, rules: Rules) {
    && tip.generatedAt <= now < tip.expiresAt
    && before.Keys == after.Keys && |Changed(before, after)| == 1
    && forall v :: v in Changed(before, after) ==>
         && before[v].identity == after[v].identity
         && |before[v].capabilities| < |after[v].capabilities|
         && before[v].capabilities <= after[v].capabilities
         && evidence != before[v].evidenceSha256
         && rules.reviewed(evidence, before[v], after[v])
  }

  /** The transition check, made at preparation, at approval and at signing. */
  predicate TransitionAllowed(j: Journal, c: Candidate, now: int, rules: Rules)
    requires j.envelopes != []
  {
    var tip := Tip(j.envelopes);
    var e := c.envelope;
    var before := ByVersion(tip.entries);
    var after := ByVersion(e.entries);
    && WellFormed(e, rules) && IsHex(c.evidenceSha256, 64)
    && match c.operation
       case Revoke => MayWithdraw(before, after, Retained(j), e.revocations)
       case Add => MayAdd(before, after, e, Retained(j), c.evidenceSha256, rules) && MayRenew(before, after)
       case Extend =>
         MayAdd(before, after, e, Retained(j), c.evidenceSha256, rules)
         && MayExtend(before, after, tip, c.evidenceSha256, now, rules)
  }

  /** One denial is new or renewed, or none. */
  ghost predicate DeniesAtMostOneMore(earlier: map<Version, Revocation>, later: map<Version, Revocation>) {
    later == earlier || exists w :: w in later && later == earlier[w := later[w]]
  }

  /** A withdrawal takes one entry away and denies its version, or changes no entry; either way one denial at most. */
  ghost predicate IsWithdrawal(before: map<Version, Entry>, after: map<Version, Entry>,
                               earlier: map<Version, Revocation>, later: map<Version, Revocation>)
  {
    || (after == before && DeniesAtMostOneMore(earlier, later))
    || exists v :: v in before && v in later && after == before - {v} && later == earlier[v := later[v]]
  }

  /** One entry is written under the evidence; a version that has one keeps all of it but the evidence. */
  ghost predicate IsAddition(before: map<Version, Entry>, after: map<Version, Entry>, evidence: string) {
    after == before
    || exists v :: && v in after && after == before[v := after[v]] && after[v].evidenceSha256 == evidence
                   && (v in before ==> before[v].identity == after[v].identity && before[v].capabilities == after[v].capabilities)
  }

  /** One entry gets more references behind those it has, under new evidence that a review binds to the change. */
  ghost predicate IsExtension(before: map<Version, Entry>, after: map<Version, Entry>, evidence: string, rules: Rules) {
    exists v :: && v in before && v in after && after == before[v := after[v]]
                && after[v].evidenceSha256 == evidence != before[v].evidenceSha256
                && before[v].identity == after[v].identity
                && before[v].capabilities < after[v].capabilities
                && rules.reviewed(evidence, before[v], after[v])
  }

  lemma NoChange(before: map<Version, Entry>, after: map<Version, Entry>)
    requires before.Keys <= after.Keys && Changed(before, after) == {}
    ensures after == before
  {
    forall u | u in after
      ensures u in before && before[u] == after[u]
    {
      assert u !in Changed(before, after);
    }
    assert forall u :: u in before ==> u in after.Keys;
  }

  lemma OnlyChange(before: map<Version, Entry>, after: map<Version, Entry>, v: Version)
    requires before.Keys <= after.Keys && Changed(before, after) == {v}
    ensures v in after && after == before[v := after[v]]
  {
    assert v in Changed(before, after);
    forall u | u in after && u != v
      ensures u in before && before[u] == after[u]
    {
      assert u !in Changed(before, after);
    }
    assert forall u :: u in before ==> u in after.Keys;
  }

  lemma WrittenOnce(before: map<Version, Entry>, after: map<Version, Entry>, v: Version)
    requires v in after && after == before[v := after[v]]
    ensures before.Keys <= after.Keys && Changed(before, after) <= {v} && |Changed(before, after)| <= 1
    ensures v in Changed(before, after) <==> !(v in before && before[v] == after[v])
  {
    Subset(Changed(before, after), {v});
  }

  lemma SingleOrEmpty<T>(s: set<T>)
    requires |s| <= 1
    ensures s == {} || exists x :: s == {x}
  {
    if x :| x in s {
      assert |s - {x}| == 0;
      assert s == {x};
    }
  }

  lemma Subset<T>(a: set<T>, b: set<T>)
    requires a <= b
    ensures |a| <= |b|
  {
    assert |b| == |a| + |b - a| by { assert b == a + (b - a); }
  }

  lemma WithdrawalIff(before: map<Version, Entry>, after: map<Version, Entry>,
                      earlier: map<Version, Revocation>, later: map<Version, Revocation>)
    ensures MayWithdraw(before, after, earlier, later) <==> IsWithdrawal(before, after, earlier, later)
  {
    if MayWithdraw(before, after, earlier, later) {
      AllowedIsWithdrawal(before, after, earlier, later);
    }
    if IsWithdrawal(before, after, earlier, later) {
      WithdrawalIsAllowed(before, after, earlier, later);
    }
  }

  lemma EntriesWithdrawn(before: map<Version, Entry>, after: map<Version, Entry>)
    requires Changed(before, after) == {}
    ensures before.Keys - after.Keys == {} ==> after == before
    ensures forall v :: before.Keys - after.Keys == {v} ==> v in before && after == before - {v}
  {
    forall u | u in after
      ensures u in before && before[u] == after[u]
    {
      assert u !in Changed(before, after);
    }
    assert forall u :: u in before && u !in after ==> u in before.Keys - after.Keys;
    forall v | before.Keys - after.Keys == {v}
      ensures v in before && after == before - {v}
    {
      assert v in before.Keys - after.Keys;
      assert forall u :: u in before && u != v ==> u !in before.Keys - after.Keys;
    }
  }

  lemma DenialsGrow(earlier: map<Version, Revocation>, later: map<Version, Revocation>)
    requires earlier.Keys <= later.Keys
    ensures DenialChanges(earlier, later) == {} ==> later == earlier
    ensures forall v :: DenialChanges(earlier, later) == {v} ==> v in later && later == earlier[v := later[v]]
  {
    assert forall u :: u in earlier ==> u in later.Keys;
    assert forall u :: u in later && u !in DenialChanges(earlier, later) ==> u in earlier && earlier[u] == later[u];
    forall v | DenialChanges(earlier, later) == {v}
      ensures v in later && later == earlier[v := later[v]]
    {
      assert v in DenialChanges(earlier, later);
    }
  }

  lemma AllowedIsWithdrawal(before: map<Version, Entry>, after: map<Version, Entry>,
                            earlier: map<Version, Revocation>, later: map<Version, Revocation>)
    requires MayWithdraw(before, after, earlier, later)
    ensures IsWithdrawal(before, after, earlier, later)
  {
    EntriesWithdrawn(before, after);
    DenialsGrow(earlier, later);
    SingleOrEmpty(before.Keys - after.Keys);
    SingleOrEmpty(DenialChanges(earlier, later));
    if v :| before.Keys - after.Keys == {v} {
      assert v in before.Keys - after.Keys;
      assert later == earlier[v := later[v]];
    }
  }

  lemma WithdrawalIsAllowed(before: map<Version, Entry>, after: map<Version, Entry>,
                            earlier: map<Version, Revocation>, later: map<Version, Revocation>)
    requires IsWithdrawal(before, after, earlier, later)
    ensures MayWithdraw(before, after, earlier, later)
  {
    if after == before && DeniesAtMostOneMore(earlier, later) {
      assert before.Keys - after.Keys == {} && Changed(before, after) == {};
      if later == earlier {
        assert DenialChanges(earlier, later) == {};
      } else {
        var w :| w in later && later == earlier[w := later[w]];
        DeniedOnce(earlier, later, w);
      }
    } else {
      var v :| v in before && v in later && after == before - {v} && later == earlier[v := later[v]];
      assert before.Keys - after.Keys == {v} && Changed(before, after) == {};
      DeniedOnce(earlier, later, v);
    }
  }

  lemma DeniedOnce(earlier: map<Version, Revocation>, later: map<Version, Revocation>, v: Version)
    requires v in later && later == earlier[v := later[v]]
    ensures earlier.Keys <= later.Keys && |DenialChanges(earlier, later)| <= 1
    ensures DenialChanges(earlier, later) == {} || DenialChanges(earlier, later) == {v}
  {
    assert DenialChanges(earlier, later) <= {v};
    Subset(DenialChanges(earlier, later), {v});
  }

  lemma AdditionIff(before: map<Version, Entry>, after: map<Version, Entry>, evidence: string)
    ensures (&& before.Keys <= after.Keys && |Changed(before, after)| <= 1
             && (forall v :: v in Changed(before, after) ==> after[v].evidenceSha256 == evidence)
             && MayRenew(before, after))
            <==> IsAddition(before, after, evidence)
  {
    if before.Keys <= after.Keys && |Changed(before, after)| <= 1 {
      SingleOrEmpty(Changed(before, after));
      if v :| Changed(before, after) == {v} {
        OnlyChange(before, after, v);
        assert v in Changed(before, after);
      } else {
        NoChange(before, after);
      }
    }
    if after == before {
      assert Changed(before, after) == {};
    }
    if v :| v in after && after == before[v := after[v]] && after[v].evidenceSha256 == evidence
            && (v in before ==> before[v].identity == after[v].identity && before[v].capabilities == after[v].capabilities) {
      WrittenOnce(before, after, v);
    }
  }

  /** What an extension must do to the entries, as the check says it. */
  ghost predicate Extends(before: map<Version, Entry>, after: map<Version, Entry>, evidence: string, rules: Rules) {
    && before.Keys == after.Keys && |Changed(before, after)| == 1
    && forall v :: v in Changed(before, after) ==>
         && after[v].evidenceSha256 == evidence && before[v].identity == after[v].identity
         && |before[v].capabilities| < |after[v].capabilities| && before[v].capabilities <= after[v].capabilities
         && evidence != before[v].evidenceSha256 && rules.reviewed(evidence, before[v], after[v])
  }

  lemma ExtensionIff(before: map<Version, Entry>, after: map<Version, Entry>, evidence: string, rules: Rules)
    ensures Extends(before, after, evidence, rules) <==> IsExtension(before, after, evidence, rules)
  {
    if Extends(before, after, evidence, rules) {
      SingleOrEmpty(Changed(before, after));
      var v :| Changed(before, after) == {v};
      OnlyChange(before, after, v);
      assert v in Changed(before, after);
    }
    if v :| && v in before && v in after && after == before[v := after[v]]
            && after[v].evidenceSha256 == evidence != before[v].evidenceSha256
            && before[v].identity == after[v].identity && before[v].capabilities < after[v].capabilities
            && rules.reviewed(evidence, before[v], after[v]) {
      WrittenOnce(before, after, v);
      assert Changed(before, after) == {v};
      assert before.Keys == after.Keys;
    }
  }

  /** An envelope by itself: its fields parse, its times are ordered, and no version has two entries, or an entry and a denial. */
  ghost predicate IsEnvelope(e: Envelope, rules: Rules) {
    && rules.shape(e) && 1 <= e.sequence && e.generatedAt < e.expiresAt
    && (forall i, k :: 0 <= i < |e.entries| && 0 <= k < |e.entries| && i != k ==> e.entries[i].version != e.entries[k].version)
    && forall entry :: entry in e.entries ==> entry.version !in e.revocations
  }

  lemma WellFormedIff(e: Envelope, rules: Rules)
    ensures WellFormed(e, rules) <==> IsEnvelope(e, rules)
  {
    assert forall i :: 0 <= i < |e.entries| ==> e.entries[i] in e.entries;
  }

  /** What every addition and extension keeps and holds, besides the change of the entries. */
  ghost predicate KeepsDenials(e: Envelope, denials: map<Version, Revocation>, evidence: string, rules: Rules) {
    && e.revocations == denials
    && (forall entry :: entry in e.entries ==> rules.known(entry) && entry.version !in denials)
    && exists entry :: entry in e.entries && entry.evidenceSha256 == evidence
  }

  lemma MayAddIff(before: map<Version, Entry>, after: map<Version, Entry>, e: Envelope,
                  denials: map<Version, Revocation>, evidence: string, rules: Rules)
    ensures MayAdd(before, after, e, denials, evidence, rules)
            <==> && KeepsDenials(e, denials, evidence, rules)
                 && before.Keys <= after.Keys && |Changed(before, after)| <= 1
                 && forall v :: v in Changed(before, after) ==> after[v].evidenceSha256 == evidence
  {
    assert forall i :: 0 <= i < |e.entries| ==> e.entries[i] in e.entries;
    if entry :| entry in e.entries && entry.evidenceSha256 == evidence {
      var i :| 0 <= i < |e.entries| && e.entries[i] == entry;
    }
  }

  /** Exactly the transitions that are allowed, by what they do to entries and denials. */
  lemma TransitionIff(j: Journal, c: Candidate, now: int, rules: Rules)
    requires j.envelopes != []
    ensures var tip := Tip(j.envelopes);
            var before, after := ByVersion(tip.entries), ByVersion(c.envelope.entries);
            TransitionAllowed(j, c, now, rules)
            <==> && IsEnvelope(c.envelope, rules) && IsHex(c.evidenceSha256, 64)
                 && match c.operation
                    case Revoke => IsWithdrawal(before, after, Retained(j), c.envelope.revocations)
                    case Add =>
                      KeepsDenials(c.envelope, Retained(j), c.evidenceSha256, rules) && IsAddition(before, after, c.evidenceSha256)
                    case Extend =>
                      && KeepsDenials(c.envelope, Retained(j), c.evidenceSha256, rules)
                      && IsExtension(before, after, c.evidenceSha256, rules)
                      && tip.generatedAt <= now < tip.expiresAt
  {
    WellFormedIff(c.envelope, rules);
    if c.operation == Revoke {
      WithdrawalIff(ByVersion(Tip(j.envelopes).entries), ByVersion(c.envelope.entries), Retained(j), c.envelope.revocations);
    } else {
      PositiveIff(ByVersion(Tip(j.envelopes).entries), ByVersion(c.envelope.entries), c, Retained(j), Tip(j.envelopes), now, rules);
    }
  }

  lemma PositiveIff(before: map<Version, Entry>, after: map<Version, Entry>, c: Candidate, denials: map<Version, Revocation>,
                    tip: Envelope, now: int, rules: Rules)
    ensures MayAdd(before, after, c.envelope, denials, c.evidenceSha256, rules) && MayRenew(before, after)
            <==> KeepsDenials(c.envelope, denials, c.evidenceSha256, rules) && IsAddition(before, after, c.evidenceSha256)
    ensures MayAdd(before, after, c.envelope, denials, c.evidenceSha256, rules)
            && MayExtend(before, after, tip, c.evidenceSha256, now, rules)
            <==> && KeepsDenials(c.envelope, denials, c.evidenceSha256, rules)
                 && IsExtension(before, after, c.evidenceSha256, rules)
                 && tip.generatedAt <= now < tip.expiresAt
  {
    MayAddIff(before, after, c.envelope, denials, c.evidenceSha256, rules);
    AdditionIff(before, after, c.evidenceSha256);
    ExtensionIff(before, after, c.evidenceSha256, rules);
  }

  /** A chain: consecutive envelopes, each bound to the one before and no older, without a repeated digest. */
  ghost predicate IsChain(envelopes: seq<Envelope>, rules: Rules) {
    && 1 <= |envelopes| <= 64
    && (forall i :: 0 <= i < |envelopes| ==> IsEnvelope(envelopes[i], rules))
    && (forall i :: 0 < i < |envelopes| ==>
          && envelopes[i].sequence == envelopes[0].sequence + i
          && envelopes[i].previous == rules.digest(envelopes[i - 1])
          && envelopes[i - 1].generatedAt <= envelopes[i].generatedAt)
    && forall i, k :: 0 <= i < k < |envelopes| ==> rules.digest(envelopes[i]) != rules.digest(envelopes[k])
  }

  /** The sources: at most eight, each revokes something, and none is of the chain or repeats a sequence or digest. */
  ghost predicate AreSources(sources: seq<Envelope>, envelopes: seq<Envelope>, rules: Rules)
    requires envelopes != []
  {
    && |sources| <= 8
    && (forall i :: 0 <= i < |sources| ==>
          IsEnvelope(sources[i], rules) && sources[i].revocations != map[] && sources[i].sequence <= Tip(envelopes).sequence)
    && (forall i, k :: 0 <= i < k < |sources| ==>
          rules.digest(sources[i]) != rules.digest(sources[k]) && sources[i].sequence != sources[k].sequence)
    && forall i, k :: 0 <= i < |sources| && 0 <= k < |envelopes| ==>
         rules.digest(sources[i]) != rules.digest(envelopes[k]) && sources[i].sequence != envelopes[k].sequence
  }

  lemma ChainIff(envelopes: seq<Envelope>, rules: Rules)
    ensures Chain(envelopes, rules) <==> IsChain(envelopes, rules)
  {
    forall i | 0 <= i < |envelopes|
      ensures WellFormed(envelopes[i], rules) <==> IsEnvelope(envelopes[i], rules)
    {
      WellFormedIff(envelopes[i], rules);
    }
    if Chain(envelopes, rules) {
      forall i | 0 < i < |envelopes|
        ensures envelopes[i].sequence == envelopes[0].sequence + i && Succeeds(envelopes[i - 1], envelopes[i], rules)
      {
        ChainSequences(envelopes, rules, i);
      }
    }
    if IsChain(envelopes, rules) {
      forall i | 0 < i < |envelopes|
        ensures Succeeds(envelopes[i - 1], envelopes[i], rules)
      {
        assert envelopes[i].sequence == envelopes[0].sequence + i;
        assert i > 1 ==> envelopes[i - 1].sequence == envelopes[0].sequence + (i - 1);
      }
    }
  }

  lemma SourcesIff(sources: seq<Envelope>, envelopes: seq<Envelope>, rules: Rules)
    requires envelopes != []
    ensures Sources(sources, envelopes, rules) <==> AreSources(sources, envelopes, rules)
  {
    forall i | 0 <= i < |sources|
      ensures WellFormed(sources[i], rules) <==> IsEnvelope(sources[i], rules)
    {
      WellFormedIff(sources[i], rules);
    }
    if Sources(sources, envelopes, rules) {
      forall i | 0 <= i < |sources|
        ensures Retainable(sources[i], envelopes, rules)
      {}
    }
  }

  /** Exactly the journals that parse. */
  lemma ParsesIff(j: Journal, rules: Rules)
    ensures Parses(j, rules) <==> IsChain(j.envelopes, rules) && AreSources(j.sources, j.envelopes, rules)
  {
    ChainIff(j.envelopes, rules);
    if j.envelopes != [] {
      SourcesIff(j.sources, j.envelopes, rules);
    }
  }

  // ----- Compaction -----

  /** `e` is the latest candidate that revokes `v` under this identity. */
  predicate IsLatest(candidates: seq<Envelope>, e: Envelope, v: Version) {
    && e in candidates && v in e.revocations
    && forall i :: 0 <= i < |candidates| && v in candidates[i].revocations
                   && candidates[i].revocations[v].identity == e.revocations[v].identity
                   ==> candidates[i].sequence <= e.sequence
  }

  /** The candidates that are the latest for some revocation. */
  function Latest(candidates: seq<Envelope>): (s: set<Envelope>)
    ensures forall e :: e in s <==> exists v :: v in e.revocations && IsLatest(candidates, e, v)
  {
    set i, v | 0 <= i < |candidates| && v in candidates[i].revocations && IsLatest(candidates, candidates[i], v) :: candidates[i]
  }

  function Minimal(candidates: seq<Envelope>, rules: Rules): seq<Envelope> {
    rules.sorted(Latest(candidates))
  }

  /** How many envelopes of the extended chain are dropped. */
  function Cut(envelopes: seq<Envelope>): nat {
    if |envelopes| + 1 > MAX_CHAIN then |envelopes| + 1 - MAX_CHAIN else 0
  }

  /** The chain with `e` appended, cut to its last envelopes, and the denials of the rest retained. */
  function Compacted(j: Journal, e: Envelope, rules: Rules): Journal
    requires j.envelopes != []
  {
    var cut := Cut(j.envelopes);
    Journal((j.envelopes + [e])[cut..], Minimal(j.sources + j.envelopes[..cut], rules))
  }

  /** `s` may be retained, and is the latest envelope that denies some version under the identity it does. */
  ghost predicate IsNeeded(s: Envelope, pool: seq<Envelope>) {
    s in pool
    && exists v :: && v in s.revocations
                   && forall o :: o in pool && v in o.revocations && o.revocations[v].identity == s.revocations[v].identity
                        ==> o.sequence <= s.sequence
  }

  /** The compacted journal: the last 32 envelopes, and of the older ones and the sources exactly those still needed. */
  lemma CompactedIs(j: Journal, e: Envelope, rules: Rules)
    requires j.envelopes != [] && Sorts(rules)
    ensures var next, all := Compacted(j, e, rules), j.envelopes + [e];
            var cut := |all| - Least(32, |all|);
            && next.envelopes == all[cut..]
            && PairwiseDistinct(next.sources)
            && forall s :: s in next.sources <==> IsNeeded(s, j.sources + j.envelopes[..cut])
  {
    var pool := j.sources + j.envelopes[..Cut(j.envelopes)];
    forall s
      ensures s in Latest(pool) <==> IsNeeded(s, pool)
    {
      NeededIff(s, pool);
    }
  }

  lemma NeededIff(s: Envelope, pool: seq<Envelope>)
    ensures s in Latest(pool) <==> IsNeeded(s, pool)
  {
    forall v | v in s.revocations
      ensures IsLatest(pool, s, v) <==>
                && s in pool
                && forall o :: o in pool && v in o.revocations && o.revocations[v].identity == s.revocations[v].identity
                     ==> o.sequence <= s.sequence
    {
      assert forall i :: 0 <= i < |pool| ==> pool[i] in pool;
    }
  }

  /** A retained denial of a version is the one of the last envelope that denies it. */
  lemma {:induction false} DenialIs(envelopes: seq<Envelope>, v: Version)
    requires v in Denials(envelopes)
    ensures exists i :: && 0 <= i < |envelopes| && v in envelopes[i].revocations && Denials(envelopes)[v] == envelopes[i].revocations[v]
                        && forall k :: i < k < |envelopes| ==> v !in envelopes[k].revocations
  {
    var n := |envelopes| - 1;
    if v !in envelopes[n].revocations {
      DenialIs(envelopes[..n], v);
      assert forall i :: 0 <= i < n ==> envelopes[..n][i] == envelopes[i];
    }
  }

  /** The check of the result: a withdrawal adds or alters nothing, and everything else is a known contract. */
  predicate FinalCheck(tip: Envelope, c: Candidate, rules: Rules) {
    var before := ByVersion(tip.entries);
    forall i :: 0 <= i < |c.envelope.entries| ==>
      var entry := c.envelope.entries[i];
      if c.operation == Revoke then entry.version in before && before[entry.version] == entry else rules.known(entry)
  }

  /** The content of the signed journal, or none if signing refuses. */
  function SignedContent(j: Journal, c: Candidate, now: int, rules: Rules): Option<Journal> {
    if !Parses(j, rules) then None
    else
      var e := c.envelope;
      var next := Compacted(j, e, rules);
      if !(e.sequence == Tip(j.envelopes).sequence + 1 && e.previous == rules.digest(Tip(j.envelopes))) then None
      else if !TransitionAllowed(j, c, now, rules) then None
      else if |next.sources| > MAX_SOURCES || rules.size(next) > MAX_BYTES || !Parses(next, rules) then None
      else if !(e.generatedAt <= now < e.expiresAt && e.expiresAt - e.generatedAt <= MAX_LIFETIME) then None
      else if !FinalCheck(Tip(j.envelopes), c, rules) then None
      else Some(next)
  }

  /** Sources are listed without loss or repetition. */
  ghost predicate Sorts(rules: Rules) {
    forall s: set<Envelope> {:trigger rules.sorted(s)} ::
      PairwiseDistinct(rules.sorted(s)) && forall e :: e in rules.sorted(s) <==> e in s
  }

  // ----- No denial is ever lost -----

  lemma {:induction false} DeniedIff(envelopes: seq<Envelope>, v: Version)
    ensures v in Denials(envelopes) <==> exists i :: 0 <= i < |envelopes| && v in envelopes[i].revocations
  {
    if envelopes != [] {
      var n := |envelopes| - 1;
      DeniedIff(envelopes[..n], v);
      assert forall i :: 0 <= i < n ==> envelopes[..n][i] == envelopes[i];
    }
  }

  /** Candidate `i` revokes `v` under this identity. */
  predicate Revokes(e: Envelope, v: Version, identity: string) {
    v in e.revocations && e.revocations[v].identity == identity
  }

  /** Among the first `n` candidates that revoke, there is one of the highest sequence. */
  lemma {:induction false} HighestRevoking(candidates: seq<Envelope>, v: Version, identity: string, n: nat) returns (k: nat)
    requires n <= |candidates| && exists i :: 0 <= i < n && Revokes(candidates[i], v, identity)
    ensures k < n && Revokes(candidates[k], v, identity)
    ensures forall i :: 0 <= i < n && Revokes(candidates[i], v, identity) ==> candidates[i].sequence <= candidates[k].sequence
  {
    if exists i :: 0 <= i < n - 1 && Revokes(candidates[i], v, identity) {
      k := HighestRevoking(candidates, v, identity, n - 1);
      if Revokes(candidates[n - 1], v, identity) && candidates[k].sequence < candidates[n - 1].sequence {
        k := n - 1;
      }
    } else {
      k := n - 1;
    }
  }

  /** Every revocation of a candidate is held by a selected one. */
  lemma LatestCovers(candidates: seq<Envelope>, i: nat, v: Version) returns (e: Envelope)
    requires i < |candidates| && v in candidates[i].revocations
    ensures e in Latest(candidates) && v in e.revocations && e in candidates
  {
    var identity := candidates[i].revocations[v].identity;
    assert Revokes(candidates[i], v, identity);
    var k := HighestRevoking(candidates, v, identity, |candidates|);
    e := candidates[k];
    forall m | 0 <= m < |candidates| && v in candidates[m].revocations
               && candidates[m].revocations[v].identity == e.revocations[v].identity
      ensures candidates[m].sequence <= e.sequence
    {
      assert Revokes(candidates[m], v, identity);
    }
    assert IsLatest(candidates, e, v);
  }

  /** The denials of the selected sources are those of the candidates. */
  lemma MinimalKeepsDenials(candidates: seq<Envelope>, rules: Rules, v: Version)
    requires Sorts(rules)
    ensures v in Denials(Minimal(candidates, rules)) <==> v in Denials(candidates)
  {
    var chosen := Minimal(candidates, rules);
    DeniedIff(candidates, v);
    DeniedIff(chosen, v);
    if i :| 0 <= i < |candidates| && v in candidates[i].revocations {
      var e := LatestCovers(candidates, i, v);
      assert e in chosen;
      var k :| 0 <= k < |chosen| && chosen[k] == e;
    }
    if k :| 0 <= k < |chosen| && v in chosen[k].revocations {
      assert chosen[k] in Latest(candidates);
      var i :| 0 <= i < |candidates| && candidates[i] == chosen[k];
    }
  }

  lemma DenialsOfBoth(a: seq<Envelope>, b: seq<Envelope>, v: Version)
    ensures v in Denials(a + b) <==> v in Denials(a) || v in Denials(b)
  {
    DeniedIff(a + b, v);
    DeniedIff(a, v);
    DeniedIff(b, v);
    if i :| 0 <= i < |a| && v in a[i].revocations {
      assert (a + b)[i] == a[i];
    }
    if i :| 0 <= i < |b| && v in b[i].revocations {
      assert (a + b)[|a| + i] == b[i];
    }
  }

  /** Compaction loses no denial, however much of the chain is dropped. */
  lemma CompactionKeepsDenials(j: Journal, e: Envelope, rules: Rules, v: Version)
    requires j.envelopes != [] && Sorts(rules)
    ensures v in Retained(Compacted(j, e, rules)) <==> v in Retained(j) || v in e.revocations
  {
    var cut := Cut(j.envelopes);
    var all := j.envelopes + [e];
    var next := Compacted(j, e, rules);
    assert all == all[..cut] + all[cut..] && all[..cut] == j.envelopes[..cut];
    DenialsOfBoth(next.envelopes, next.sources, v);
    MinimalKeepsDenials(j.sources + j.envelopes[..cut], rules, v);
    DenialsOfBoth(j.sources, j.envelopes[..cut], v);
    DenialsOfBoth(all[..cut], all[cut..], v);
    DenialsOfBoth(j.envelopes, [e], v);
    DenialsOfBoth(j.envelopes, j.sources, v);
    DeniedIff([e], v);
    assert v in e.revocations ==> v in [e][0].revocations;
  }

  /** The tip carries every denial the journal retains. */
  ghost predicate Carries(j: Journal) {
    j.envelopes != [] && Retained(j).Keys == Tip(j.envelopes).revocations.Keys
  }

  /** A well-formed envelope holds an entry for nothing it denies. */
  lemma EntriesAreUndenied(e: Envelope, rules: Rules)
    requires WellFormed(e, rules)
    ensures forall v :: v in ByVersion(e.entries) ==> v !in e.revocations
  {
    forall v | v in ByVersion(e.entries)
      ensures v !in e.revocations
    {
      var i :| 0 <= i < |e.entries| && e.entries[i] == ByVersion(e.entries)[v];
    }
  }

  /** What signing means, in one place. */
  lemma SignedFacts(j: Journal, c: Candidate, now: int, rules: Rules)
    requires SignedContent(j, c, now, rules).Some?
    ensures Parses(j, rules) && TransitionAllowed(j, c, now, rules) && WellFormed(c.envelope, rules)
    ensures SignedContent(j, c, now, rules).value == Compacted(j, c.envelope, rules)
    ensures Parses(Compacted(j, c.envelope, rules), rules)
  {}

  lemma CompactedTip(j: Journal, e: Envelope, rules: Rules)
    requires j.envelopes != []
    ensures var next := Compacted(j, e, rules); next.envelopes != [] && Tip(next.envelopes) == e
  {}

  /** Every allowed transition carries the denials over. */
  lemma TransitionCarries(j: Journal, c: Candidate, now: int, rules: Rules)
    requires j.envelopes != [] && TransitionAllowed(j, c, now, rules)
    ensures Retained(j).Keys <= c.envelope.revocations.Keys
  {}

  /** Whatever is signed: the new tip carries every denial, old and new, and holds an entry for none of them. */
  lemma SigningKeepsDenials(j: Journal, c: Candidate, now: int, rules: Rules)
    requires Sorts(rules)
    ensures SignedContent(j, c, now, rules).Some? ==>
              var next := SignedContent(j, c, now, rules).value;
              && Parses(next, rules) && Carries(next) && Tip(next.envelopes) == c.envelope
              && Retained(j).Keys <= Retained(next).Keys
              && forall v :: v in Retained(next) ==> v !in ByVersion(c.envelope.entries)
  {
    if SignedContent(j, c, now, rules).Some? {
      SignedFacts(j, c, now, rules);
      CompactedTip(j, c.envelope, rules);
      TransitionCarries(j, c, now, rules);
      DenialsAreTheTips(j, c.envelope, rules);
      EntriesAreUndenied(c.envelope, rules);
    }
  }

  lemma DenialsAreTheTips(j: Journal, e: Envelope, rules: Rules)
    requires j.envelopes != [] && Sorts(rules) && Retained(j).Keys <= e.revocations.Keys
    ensures Retained(Compacted(j, e, rules)).Keys == e.revocations.Keys
  {
    forall v
      ensures v in Retained(Compacted(j, e, rules)) <==> v in e.revocations
    {
      CompactionKeepsDenials(j, e, rules, v);
    }
  }

  // ----- What happens to an entry -----

  /** An entry keeps its identity, and its references only grow. */
  ghost predicate Grown(earlier: Entry, later: Entry) {
    earlier.identity == later.identity && earlier.capabilities <= later.capabilities
  }

  /** Each signed entry is gone only if it is denied, and otherwise has only grown. */
  ghost predicate EntriesKept(before: map<Version, Entry>, after: map<Version, Entry>, denied: set<Version>) {
    forall v :: v in before ==> if v in after then Grown(before[v], after[v]) else v in denied
  }

  lemma SigningKeepsEntries(j: Journal, c: Candidate, now: int, rules: Rules)
    ensures SignedContent(j, c, now, rules).Some? ==>
              EntriesKept(ByVersion(Tip(j.envelopes).entries), ByVersion(c.envelope.entries), c.envelope.revocations.Keys)
  {
    if SignedContent(j, c, now, rules).Some? {
      SignedFacts(j, c, now, rules);
      TransitionKeepsEntries(j, c, now, rules);
    }
  }

  lemma TransitionKeepsEntries(j: Journal, c: Candidate, now: int, rules: Rules)
    requires j.envelopes != [] && TransitionAllowed(j, c, now, rules)
    ensures EntriesKept(ByVersion(Tip(j.envelopes).entries), ByVersion(c.envelope.entries), c.envelope.revocations.Keys)
  {
    var before, after := ByVersion(Tip(j.envelopes).entries), ByVersion(c.envelope.entries);
    forall v | v in before
      ensures if v in after then Grown(before[v], after[v]) else v in c.envelope.revocations.Keys
    {
      if v in after && before[v] != after[v] {
        assert v in Changed(before, after);
      }
      if v !in after {
        assert v in before.Keys - after.Keys;
      }
    }
  }

  /** One request to sign, at a moment. */
  datatype Order = Order(candidate: Candidate, now: int)

  /** A signed journal replaces the one before; a refused request leaves it. */
  function SignedRun(j: Journal, orders: seq<Order>, rules: Rules): Journal {
    if orders == [] then j
    else
      var before := SignedRun(j, orders[..|orders| - 1], rules);
      var last := orders[|orders| - 1];
      match SignedContent(before, last.candidate, last.now, rules)
      case None => before
      case Some(next) => next
  }

  /** No entry of the tip is denied. */
  ghost predicate NoDeniedEntry(j: Journal) {
    j.envelopes != [] && forall v :: v in Retained(j) ==> v !in ByVersion(Tip(j.envelopes).entries)
  }

  lemma KeptTwice(a: map<Version, Entry>, b: map<Version, Entry>, c: map<Version, Entry>, d: set<Version>, e: set<Version>)
    requires EntriesKept(a, b, d) && EntriesKept(b, c, e) && d <= e && forall v :: v in e ==> v !in c
    ensures EntriesKept(a, c, e)
  {
    forall v | v in a
      ensures if v in c then Grown(a[v], c[v]) else v in e
    {
      if v in b && v in c {
        assert Grown(a[v], b[v]) && Grown(b[v], c[v]);
        GrownTwice(a[v], b[v], c[v]);
      }
    }
  }

  lemma GrownTwice(a: Entry, b: Entry, c: Entry)
    requires Grown(a, b) && Grown(b, c)
    ensures Grown(a, c)
  {}

  /**
   Over every run of signings, however the chain is compacted: denials are never lost, a withdrawn version
   never has an entry again, an entry disappears only by being denied, and one that stays keeps its release
   identity while its capability references only grow.
   */
  lemma {:induction false} WithdrawnNeverReturns(j: Journal, orders: seq<Order>, rules: Rules)
    requires Sorts(rules) && Parses(j, rules) && Carries(j)
    ensures var end := SignedRun(j, orders, rules);
            && Parses(end, rules) && Carries(end) && NoDeniedEntry(end)
            && Retained(j).Keys <= Retained(end).Keys
            && EntriesKept(ByVersion(Tip(j.envelopes).entries), ByVersion(Tip(end.envelopes).entries), Retained(end).Keys)
  {
    if orders == [] {
      CarriedMeansNoEntry(j, rules);
    } else {
      var before := SignedRun(j, orders[..|orders| - 1], rules);
      var last := orders[|orders| - 1];
      WithdrawnNeverReturns(j, orders[..|orders| - 1], rules);
      if SignedContent(before, last.candidate, last.now, rules).Some? {
        NextSigningKeeps(j, before, last, rules);
      }
    }
  }

  lemma NextSigningKeeps(j: Journal, before: Journal, last: Order, rules: Rules)
    requires Sorts(rules) && j.envelopes != [] && before.envelopes != []
    requires Retained(j).Keys <= Retained(before).Keys
    requires EntriesKept(ByVersion(Tip(j.envelopes).entries), ByVersion(Tip(before.envelopes).entries), Retained(before).Keys)
    requires SignedContent(before, last.candidate, last.now, rules).Some?
    ensures var end := SignedContent(before, last.candidate, last.now, rules).value;
            && Parses(end, rules) && Carries(end) && NoDeniedEntry(end)
            && Retained(j).Keys <= Retained(end).Keys
            && EntriesKept(ByVersion(Tip(j.envelopes).entries), ByVersion(Tip(end.envelopes).entries), Retained(end).Keys)
  {
    var end := SignedContent(before, last.candidate, last.now, rules).value;
    SigningKeepsDenials(before, last.candidate, last.now, rules);
    SigningKeepsEntries(before, last.candidate, last.now, rules);
    KeptTwice(ByVersion(Tip(j.envelopes).entries), ByVersion(Tip(before.envelopes).entries),
              ByVersion(Tip(end.envelopes).entries), Retained(before).Keys, Retained(end).Keys);
  }

  lemma CarriedMeansNoEntry(j: Journal, rules: Rules)
    requires Parses(j, rules) && Carries(j)
    ensures NoDeniedEntry(j)
    ensures EntriesKept(ByVersion(Tip(j.envelopes).entries), ByVersion(Tip(j.envelopes).entries), Retained(j).Keys)
  {
    EntriesAreUndenied(Tip(j.envelopes), rules);
  }

  // ----- When an approved candidate is signed -----

  /** The check of the result repeats what the transition check has established. */
  lemma FinalCheckNeverDecides(j: Journal, c: Candidate, now: int, rules: Rules)
    requires j.envelopes != [] && TransitionAllowed(j, c, now, rules)
    ensures FinalCheck(Tip(j.envelopes), c, rules)
  {
    if c.operation == Revoke {
      var before, after := ByVersion(Tip(j.envelopes).entries), ByVersion(c.envelope.entries);
      forall i | 0 <= i < |c.envelope.entries|
        ensures c.envelope.entries[i].version in before && before[c.envelope.entries[i].version] == c.envelope.entries[i]
      {
        var v := c.envelope.entries[i].version;
        EntryOfItsVersion(c.envelope, rules, i);
        assert v !in Changed(before, after);
      }
    }
  }

  lemma EntryOfItsVersion(e: Envelope, rules: Rules, i: nat)
    requires WellFormed(e, rules) && i < |e.entries|
    ensures e.entries[i].version in ByVersion(e.entries) && ByVersion(e.entries)[e.entries[i].version] == e.entries[i]
  {
    var entry := ByVersion(e.entries)[e.entries[i].version];
    var k :| 0 <= k < |e.entries| && e.entries[k] == entry;
  }

  /** What the sequences of a chain and of the candidates for its sources look like. */
  lemma {:induction false} ChainSequences(envelopes: seq<Envelope>, rules: Rules, i: nat)
    requires Chain(envelopes, rules) && i < |envelopes|
    ensures envelopes[i].sequence == envelopes[0].sequence + i
  {
    if i > 0 {
      ChainSequences(envelopes, rules, i - 1);
      assert Succeeds(envelopes[i - 1], envelopes[i], rules);
    }
  }

  /** Everything that can be retained once the chain is cut. */
  function Pool(j: Journal): seq<Envelope> {
    j.sources + j.envelopes[..Cut(j.envelopes)]
  }

  lemma PoolSequence(j: Journal, rules: Rules, i: nat)
    requires Parses(j, rules) && i < |Pool(j)|
    ensures WellFormed(Pool(j)[i], rules) && Pool(j)[i].sequence <= Tip(j.envelopes).sequence
    ensures forall k :: Cut(j.envelopes) <= k < |j.envelopes| ==> Pool(j)[i].sequence != j.envelopes[k].sequence
  {
    if i < |j.sources| {
      assert Retainable(j.sources[i], j.envelopes, rules);
    } else {
      var at := i - |j.sources|;
      ChainSequences(j.envelopes, rules, at);
      forall k | 0 <= k < |j.envelopes|
        ensures j.envelopes[k].sequence == j.envelopes[0].sequence + k
      {
        ChainSequences(j.envelopes, rules, k);
      }
    }
  }

  lemma PoolSequencesDiffer(j: Journal, rules: Rules, a: nat, b: nat)
    requires Parses(j, rules) && a < b < |Pool(j)|
    ensures Pool(j)[a].sequence != Pool(j)[b].sequence
  {
    if b < |j.sources| {
    } else if a < |j.sources| {
      assert Retainable(j.sources[a], j.envelopes, rules);
    } else {
      ChainSequences(j.envelopes, rules, a - |j.sources|);
      ChainSequences(j.envelopes, rules, b - |j.sources|);
    }
  }

  /** `e` may follow the journal: all but the check of its time. */
  predicate Next(j: Journal, e: Envelope, rules: Rules)
    requires j.envelopes != []
  {
    WellFormed(e, rules) && e.sequence == Tip(j.envelopes).sequence + 1 && e.previous == rules.digest(Tip(j.envelopes))
  }

  lemma ApartDigests(a: Envelope, b: Envelope, digest: Envelope -> string)
    requires Injective(digest) && a.sequence != b.sequence
    ensures digest(a) != digest(b)
  {}

  lemma ChainSlice(envelopes: seq<Envelope>, rules: Rules, cut: nat)
    requires Chain(envelopes, rules) && cut < |envelopes|
    ensures Chain(envelopes[cut..], rules)
  {
    forall i | 0 < i < |envelopes[cut..]|
      ensures Succeeds(envelopes[cut..][i - 1], envelopes[cut..][i], rules)
    {
      assert Succeeds(envelopes[cut + i - 1], envelopes[cut + i], rules);
    }
  }

  lemma DigestIsNew(envelopes: seq<Envelope>, e: Envelope, rules: Rules, i: nat)
    requires Chain(envelopes, rules) && Injective(rules.digest) && i < |envelopes|
    requires e.sequence == envelopes[|envelopes| - 1].sequence + 1
    ensures rules.digest(envelopes[i]) != rules.digest(e)
  {
    ChainSequences(envelopes, rules, i);
    ChainSequences(envelopes, rules, |envelopes| - 1);
    ApartDigests(envelopes[i], e, rules.digest);
  }

  lemma ChainSnoc(envelopes: seq<Envelope>, e: Envelope, rules: Rules)
    requires Chain(envelopes, rules) && Injective(rules.digest) && |envelopes| < MAX_PARSED_CHAIN && WellFormed(e, rules)
    requires var tip := Tip(envelopes); e.sequence == tip.sequence + 1 && e.previous == rules.digest(tip)
    ensures Chain(envelopes + [e], rules) <==> Tip(envelopes).generatedAt <= e.generatedAt
  {
    var all := envelopes + [e];
    var n := |envelopes|;
    assert all[n] == e && all[n - 1] == Tip(envelopes);
    forall i | 0 <= i < n
      ensures all[i] == envelopes[i] && rules.digest(all[i]) != rules.digest(all[n])
    {
      DigestIsNew(envelopes, e, rules, i);
    }
    assert Succeeds(all[n - 1], all[n], rules) <==> Tip(envelopes).generatedAt <= e.generatedAt;
    forall i | 0 < i < n
      ensures Succeeds(all[i - 1], all[i], rules)
    {
      assert Succeeds(envelopes[i - 1], envelopes[i], rules);
    }
  }

  lemma ExtendedChain(j: Journal, e: Envelope, rules: Rules)
    requires Parses(j, rules) && Injective(rules.digest) && Next(j, e, rules)
    ensures Chain(Compacted(j, e, rules).envelopes, rules) <==> Tip(j.envelopes).generatedAt <= e.generatedAt
  {
    var cut := Cut(j.envelopes);
    assert Compacted(j, e, rules).envelopes == j.envelopes[cut..] + [e];
    ChainSlice(j.envelopes, rules, cut);
    ChainSnoc(j.envelopes[cut..], e, rules);
  }

  lemma LatestIsCandidate(candidates: seq<Envelope>, e: Envelope) returns (i: nat)
    requires e in Latest(candidates)
    ensures i < |candidates| && candidates[i] == e && e.revocations != map[]
  {
    var k :| 0 <= k < |candidates| && candidates[k] == e;
    i := k;
  }

  lemma RetainableAfterwards(j: Journal, e: Envelope, rules: Rules, source: Envelope)
    requires Parses(j, rules) && Injective(rules.digest) && Next(j, e, rules) && source in Latest(Pool(j))
    ensures Retainable(source, Compacted(j, e, rules).envelopes, rules)
  {
    var kept := Compacted(j, e, rules).envelopes;
    var i := LatestIsCandidate(Pool(j), source);
    PoolSequence(j, rules, i);
    CompactedTip(j, e, rules);
    forall k | 0 <= k < |kept|
      ensures rules.digest(kept[k]) != rules.digest(source) && kept[k].sequence != source.sequence
    {
      assert kept[k] == if k == |kept| - 1 then e else j.envelopes[Cut(j.envelopes) + k];
      ApartDigests(kept[k], source, rules.digest);
    }
  }

  lemma SourcesDiffer(j: Journal, rules: Rules, a: Envelope, b: Envelope)
    requires Parses(j, rules) && Injective(rules.digest) && a in Latest(Pool(j)) && b in Latest(Pool(j)) && a != b
    ensures rules.digest(a) != rules.digest(b) && a.sequence != b.sequence
  {
    var i := LatestIsCandidate(Pool(j), a);
    var k := LatestIsCandidate(Pool(j), b);
    if i < k {
      PoolSequencesDiffer(j, rules, i, k);
    } else {
      PoolSequencesDiffer(j, rules, k, i);
    }
    ApartDigests(a, b, rules.digest);
  }

  lemma RetainedSources(j: Journal, e: Envelope, rules: Rules)
    requires Parses(j, rules) && Injective(rules.digest) && Sorts(rules) && Next(j, e, rules)
    ensures var next := Compacted(j, e, rules);
            Sources(next.sources, next.envelopes, rules) <==> |next.sources| <= MAX_SOURCES
  {
    var next := Compacted(j, e, rules);
    assert next.sources == rules.sorted(Latest(Pool(j)));
    forall i | 0 <= i < |next.sources|
      ensures Retainable(next.sources[i], next.envelopes, rules)
    {
      assert next.sources[i] in next.sources;
      RetainableAfterwards(j, e, rules, next.sources[i]);
    }
    forall i, k | 0 <= i < k < |next.sources|
      ensures rules.digest(next.sources[i]) != rules.digest(next.sources[k]) && next.sources[i].sequence != next.sources[k].sequence
    {
      assert next.sources[i] in next.sources && next.sources[k] in next.sources;
      SourcesDiffer(j, rules, next.sources[i], next.sources[k]);
    }
  }

  /** A compacted journal parses again exactly when its tip is no earlier and its sources are few enough. */
  lemma CompactedParsesIff(j: Journal, e: Envelope, rules: Rules)
    requires Parses(j, rules) && Injective(rules.digest) && Sorts(rules) && Next(j, e, rules)
    ensures Parses(Compacted(j, e, rules), rules)
            <==> Tip(j.envelopes).generatedAt <= e.generatedAt && |Compacted(j, e, rules).sources| <= 8
  {
    ExtendedChain(j, e, rules);
    RetainedSources(j, e, rules);
  }

  /** Of the transition check, only an extension's depends on the moment. */
  lemma TransitionLater(j: Journal, c: Candidate, earlier: int, now: int, rules: Rules)
    requires j.envelopes != [] && TransitionAllowed(j, c, earlier, rules)
    ensures TransitionAllowed(j, c, now, rules)
            <==> (c.operation == Extend ==> Tip(j.envelopes).generatedAt <= now < Tip(j.envelopes).expiresAt)
  {}

  /** Signing decides as its first refusals, the room left and the clock do. */
  lemma SignsIff(j: Journal, c: Candidate, now: int, rules: Rules)
    requires Injective(rules.digest) && Sorts(rules) && Parses(j, rules)
    ensures SignedContent(j, c, now, rules).Some?
            <==> && c.envelope.sequence == Tip(j.envelopes).sequence + 1
                 && c.envelope.previous == rules.digest(Tip(j.envelopes)) && TransitionAllowed(j, c, now, rules)
                 && |Compacted(j, c.envelope, rules).sources| <= 8
                 && rules.size(Compacted(j, c.envelope, rules)) <= 32 * 1024 * 1024
                 && Tip(j.envelopes).generatedAt <= c.envelope.generatedAt <= now < c.envelope.expiresAt
                 && c.envelope.expiresAt - c.envelope.generatedAt <= 90 * 24 * 3600
  {
    if TransitionAllowed(j, c, now, rules) && Next(j, c.envelope, rules) {
      FinalCheckNeverDecides(j, c, now, rules);
      CompactedParsesIff(j, c.envelope, rules);
    }
  }

  /** The verdict of approval, with the transition check made at that moment. */
  function Approval(j: Journal, r: Request, rules: Rules): Verification
    requires j.envelopes != []
  {
    var allowed := r.candidate.Some? && TransitionAllowed(j, r.candidate.value, r.now, rules);
    VerifyCandidate(Tip(j.envelopes), r.(transitionAllowed := allowed), rules.digest)
  }

  lemma ApprovedFacts(j: Journal, r: Request, rules: Rules)
    requires j.envelopes != [] && Approval(j, r, rules).Verified?
    ensures r.candidate.Some? && TransitionAllowed(j, r.candidate.value, r.now, rules)
    ensures Follows(Tip(j.envelopes), r.candidate.value.envelope, r.now, rules.digest)
  {
    var allowed := r.candidate.Some? && TransitionAllowed(j, r.candidate.value, r.now, rules);
    AcceptedIff(Tip(j.envelopes), r.(transitionAllowed := allowed), rules.digest);
  }

  /**
   A candidate approved at one moment is signed at another exactly when the result fits, the candidate is
   current and no older than what it follows, and an extension's predecessor is still current.
   */
  lemma ApprovedSignsIff(j: Journal, r: Request, now: int, rules: Rules)
    requires Injective(rules.digest) && Sorts(rules) && Parses(j, rules)
    ensures Approval(j, r, rules).Verified? ==> r.candidate.Some?
    ensures Approval(j, r, rules).Verified? ==>
              var c := r.candidate.value;
              var tip := Tip(j.envelopes);
              (SignedContent(j, c, now, rules).Some?
               <==> && |Compacted(j, c.envelope, rules).sources| <= 8
                    && rules.size(Compacted(j, c.envelope, rules)) <= 32 * 1024 * 1024
                    && tip.generatedAt <= c.envelope.generatedAt <= now < c.envelope.expiresAt
                    && (c.operation == Extend ==> tip.generatedAt <= now < tip.expiresAt))
  {
    if Approval(j, r, rules).Verified? {
      ApprovedFacts(j, r, rules);
      SignsIff(j, r.candidate.value, now, rules);
      TransitionLater(j, r.candidate.value, r.now, now, rules);
    }
  }

  // ----- Files, keys and the dry run -----

  /** An envelope with its signature; the content digest covers the content only. */
  datatype Signed = Signed(content: Envelope, signature: string)

  /** A journal file: its envelopes, the retained sources of revocations, and a signature over both. */
  datatype File = File(envelopes: seq<Signed>, sources: seq<Signed>, signature: string)

  /** What keys do, and the digests of keys and of files; `accepts` is by the key's public half. */
  datatype Scheme = Scheme(sign: (string, Envelope) -> string, accepts: (string, Envelope, string) -> bool,
                           seal: (string, seq<Signed>, seq<Signed>) -> string,
                           acceptsSeal: (string, seq<Signed>, seq<Signed>, string) -> bool,
                           keySha256: string -> string, fileSha256: File -> string)

  /** What a key signs, it accepts. */
  ghost predicate Correct(scheme: Scheme) {
    && (forall key, e :: scheme.accepts(key, e, scheme.sign(key, e)))
    && forall key, a, b :: scheme.acceptsSeal(key, a, b, scheme.seal(key, a, b))
  }

  function Contents(signed: seq<Signed>): (c: seq<Envelope>)
    ensures |c| == |signed| && forall i :: 0 <= i < |c| ==> c[i] == signed[i].content
  {
    seq(|signed|, i requires 0 <= i < |signed| => signed[i].content)
  }

  function Content(f: File): Journal {
    Journal(Contents(f.envelopes), Contents(f.sources))
  }

  predicate AllAccepted(signed: seq<Signed>, key: string, scheme: Scheme) {
    forall i :: 0 <= i < |signed| ==> scheme.accepts(key, signed[i].content, signed[i].signature)
  }

  predicate Verifies(f: File, key: string, scheme: Scheme) {
    && AllAccepted(f.envelopes, key, scheme) && AllAccepted(f.sources, key, scheme)
    && scheme.acceptsSeal(key, f.envelopes, f.sources, f.signature)
  }

  /** The key accepts every signature of the file: of each envelope, of each source, and of the whole. */
  ghost predicate IsSignedBy(f: File, key: string, scheme: Scheme) {
    && (forall s :: s in f.envelopes || s in f.sources ==> scheme.accepts(key, s.content, s.signature))
    && scheme.acceptsSeal(key, f.envelopes, f.sources, f.signature)
  }

  lemma VerifiesIff(f: File, key: string, scheme: Scheme)
    ensures Verifies(f, key, scheme) <==> IsSignedBy(f, key, scheme)
  {
    assert forall i :: 0 <= i < |f.envelopes| ==> f.envelopes[i] in f.envelopes;
    assert forall i :: 0 <= i < |f.sources| ==> f.sources[i] in f.sources;
  }

  function Sealed(envelopes: seq<Signed>, sources: seq<Signed>, key: string, scheme: Scheme): File {
    File(envelopes, sources, scheme.seal(key, envelopes, sources))
  }

  /** The signed envelope of the pool with this content. */
  function SignedOf(pool: seq<Signed>, e: Envelope): (s: Signed)
    requires e in Contents(pool)
    ensures s in pool && s.content == e
  {
    if pool[0].content == e then pool[0]
    else
      assert Contents(pool)[1..] == Contents(pool[1..]);
      SignedOf(pool[1..], e)
  }

  /** The envelopes a list of contents came from, with the signatures they had. */
  function Recovered(pool: seq<Signed>, contents: seq<Envelope>): (s: seq<Signed>)
    requires forall e :: e in contents ==> e in Contents(pool)
    ensures Contents(s) == contents && forall x :: x in s ==> x in pool
  {
    seq(|contents|, i requires 0 <= i < |contents| => SignedOf(pool, contents[i]))
  }

  function SignedPool(f: File): seq<Signed> {
    f.sources + f.envelopes[..Cut(Contents(f.envelopes))]
  }

  lemma PoolContents(f: File)
    ensures Contents(SignedPool(f)) == Pool(Content(f))
  {}

  lemma SelectedAreInPool(j: Journal, e: Envelope, rules: Rules)
    requires j.envelopes != [] && Sorts(rules)
    ensures forall s :: s in Compacted(j, e, rules).sources ==> s in Pool(j)
  {
    assert Compacted(j, e, rules).sources == rules.sorted(Latest(Pool(j)));
  }

  /** The file with `e` signed and appended: what is kept keeps its signature. */
  ghost function Extended(f: File, e: Envelope, key: string, rules: Rules, scheme: Scheme): File
    requires f.envelopes != [] && Sorts(rules)
  {
    var j := Content(f);
    PoolContents(f);
    SelectedAreInPool(j, e, rules);
    Sealed((f.envelopes + [Signed(e, scheme.sign(key, e))])[Cut(j.envelopes)..],
           Recovered(SignedPool(f), Compacted(j, e, rules).sources), key, scheme)
  }

  /** Sign the candidate whose digest is `sha256`, or refuse. */
  ghost function SignFile(f: File, c: Candidate, sha256: string, expected: string, key: string, now: int,
                          rules: Rules, scheme: Scheme): Option<File>
    requires Sorts(rules)
  {
    if sha256 != expected || c.keySha256 != scheme.keySha256(key) || c.journalSha256 != scheme.fileSha256(f) then None
    else if !Verifies(f, key, scheme) || SignedContent(Content(f), c, now, rules).None? then None
    else
      var g := Extended(f, c.envelope, key, rules, scheme);
      if Verifies(g, key, scheme) then Some(g) else None
  }

  function SignAll(signed: seq<Signed>, key: string, scheme: Scheme): (s: seq<Signed>)
    ensures Contents(s) == Contents(signed)
  {
    seq(|signed|, i requires 0 <= i < |signed| => Signed(signed[i].content, scheme.sign(key, signed[i].content)))
  }

  /** Re-sign a journal that verifies under `owner` with `key`; anything else is refused. */
  function Rekeyed(f: File, owner: string, key: string, rules: Rules, scheme: Scheme): Option<File> {
    if !Verifies(f, owner, scheme) || !Parses(Content(f), rules) then None
    else Some(Sealed(SignAll(f.envelopes, key, scheme), SignAll(f.sources, key, scheme), key, scheme))
  }

  /** Sign with a key of the dry run's own, after binding the candidate to it and to the re-keyed journal. */
  ghost function DryRun(f: File, c: Candidate, owner: string, key: string, now: int, sha256: Candidate -> string,
                        rules: Rules, scheme: Scheme): Option<File>
    requires Sorts(rules)
  {
    match Rekeyed(f, owner, key, rules, scheme)
    case None => None
    case Some(g) =>
      var bound := c.(keySha256 := scheme.keySha256(key), journalSha256 := scheme.fileSha256(g));
      SignFile(g, bound, sha256(bound), sha256(bound), key, now, rules, scheme)
  }

  /** Re-keying keeps every envelope, so every digest and link, and the result verifies under the new key. */
  lemma RekeyingKeepsTheChain(f: File, owner: string, key: string, rules: Rules, scheme: Scheme)
    requires Correct(scheme)
    ensures Rekeyed(f, owner, key, rules, scheme).Some? <==> Verifies(f, owner, scheme) && Parses(Content(f), rules)
    ensures Rekeyed(f, owner, key, rules, scheme).Some? ==>
              var g := Rekeyed(f, owner, key, rules, scheme).value;
              Verifies(g, key, scheme) && Content(g) == Content(f)
  {}

  /** What signing appends verifies, and its content is the compacted journal. */
  lemma ExtendedVerifies(f: File, e: Envelope, key: string, rules: Rules, scheme: Scheme)
    requires f.envelopes != [] && Sorts(rules) && Correct(scheme) && Verifies(f, key, scheme)
    ensures var g := Extended(f, e, key, rules, scheme);
            Verifies(g, key, scheme) && Content(g) == Compacted(Content(f), e, rules)
  {
    var g := Extended(f, e, key, rules, scheme);
    forall i | 0 <= i < |g.sources|
      ensures scheme.accepts(key, g.sources[i].content, g.sources[i].signature)
    {
      assert g.sources[i] in SignedPool(f);
    }
  }

  /** A signed file verifies, and holds exactly the content signing decides on. */
  lemma SignFileIff(f: File, c: Candidate, sha256: string, expected: string, key: string, now: int, rules: Rules, scheme: Scheme)
    requires Sorts(rules) && Correct(scheme)
    ensures var result := SignFile(f, c, sha256, expected, key, now, rules, scheme);
            var content := SignedContent(Content(f), c, now, rules);
            && (result.Some? <==> && sha256 == expected && c.keySha256 == scheme.keySha256(key)
                                  && c.journalSha256 == scheme.fileSha256(f) && IsSignedBy(f, key, scheme) && content.Some?)
            && (result.Some? ==> IsSignedBy(result.value, key, scheme) && Content(result.value) == content.value)
  {
    VerifiesIff(f, key, scheme);
    if Verifies(f, key, scheme) && SignedContent(Content(f), c, now, rules).Some? {
      ExtendedVerifies(f, c.envelope, key, rules, scheme);
      VerifiesIff(Extended(f, c.envelope, key, rules, scheme), key, scheme);
      SignedFacts(Content(f), c, now, rules);
    }
  }

  /** The content that is signed does not depend on what the candidate is bound to. */
  lemma BindingIsNoContent(j: Journal, c: Candidate, key: string, file: string, now: int, rules: Rules)
    ensures SignedContent(j, c.(keySha256 := key, journalSha256 := file), now, rules) == SignedContent(j, c, now, rules)
  {
    if j.envelopes != [] {
      BindingIsNoTransition(j, c, key, file, now, rules);
    }
  }

  lemma BindingIsNoTransition(j: Journal, c: Candidate, key: string, file: string, now: int, rules: Rules)
    requires j.envelopes != []
    ensures var bound := c.(keySha256 := key, journalSha256 := file);
            && TransitionAllowed(j, bound, now, rules) == TransitionAllowed(j, c, now, rules)
            && FinalCheck(Tip(j.envelopes), bound, rules) == FinalCheck(Tip(j.envelopes), c, rules)
  {}

  /**
   The real signing signs exactly when the candidate has the reviewed digest and is bound to the real key and
   journal, and the dry run signs; the two journals are then equal in content, compaction included.
   */
  lemma DryRunDecidesTheRealRun(f: File, c: Candidate, expected: string, owner: string, key: string, now: int,
                                sha256: Candidate -> string, rules: Rules, scheme: Scheme)
    requires Sorts(rules) && Correct(scheme)
    ensures var signing := SignFile(f, c, sha256(c), expected, owner, now, rules, scheme);
            var dry := DryRun(f, c, owner, key, now, sha256, rules, scheme);
            && (signing.Some? <==> && sha256(c) == expected && c.keySha256 == scheme.keySha256(owner)
                                   && c.journalSha256 == scheme.fileSha256(f) && dry.Some?)
            && (signing.Some? ==> Content(signing.value) == Content(dry.value))
  {
    SignFileIff(f, c, sha256(c), expected, owner, now, rules, scheme);
    RekeyingKeepsTheChain(f, owner, key, rules, scheme);
    VerifiesIff(f, owner, scheme);
    if Rekeyed(f, owner, key, rules, scheme).Some? {
      var g := Rekeyed(f, owner, key, rules, scheme).value;
      var bound := c.(keySha256 := scheme.keySha256(key), journalSha256 := scheme.fileSha256(g));
      VerifiesIff(g, key, scheme);
      SignFileIff(g, bound, sha256(bound), sha256(bound), key, now, rules, scheme);
      BindingIsNoContent(Content(f), c, scheme.keySha256(key), scheme.fileSha256(g), now, rules);
    }
  }
}
