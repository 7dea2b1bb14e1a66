/**
 O3 byte identity and inherited lane bindings: comparing the contract-read files of two
 releases, checking the resulting proof, deriving a binding from it, and accepting a context.
 */
module Bindings {
  import opened Support

  /** A field holding a file hash: missing, an explicit absence, text, or something else. */
  datatype HashCell = NoField | ExplicitAbsence | Text(s: string) | Junk

  /** Two explicit absences are equal; present bytes must be the same well-formed hash. */
  predicate EqualHashes(left: HashCell, right: HashCell) {
    || (left == ExplicitAbsence && right == ExplicitAbsence)
    || (left.Text? && IsHex(left.s, 64) && left == right)
  }

  /** Equality of hashes is a partial equivalence: it refuses malformed hashes on both sides. */
  lemma EqualHashesIsPartialEquivalence(a: HashCell, b: HashCell, c: HashCell)
    ensures EqualHashes(a, b) ==> EqualHashes(b, a) && EqualHashes(a, a)
    ensures EqualHashes(a, b) && EqualHashes(b, c) ==> EqualHashes(a, c)
    ensures EqualHashes(a, b) ==> a == b
    ensures EqualHashes(a, a) <==> a == ExplicitAbsence || (a.Text? && IsHex(a.s, 64))
  {}

  datatype Source = Source(stable: bool, version: string, commit: string, tagCommit: string, hashes: map<string, HashCell>)

  datatype Row = Row(path: string, predecessor: HashCell, release: HashCell)

  const PROOF_MODEL := "core-o3-comparison-v1"

  datatype Proof = Proof(model: string, predecessor: string, release: string, predecessorCommit: string,
                         releaseCommit: string, files: seq<Row>, differing: seq<string>, inherited: bool)

  datatype Result<+T> = Ok(value: T) | Refused(reason: Reason)

  datatype Reason =
    | TagShaMismatch | ProofIdentity | ProofCoverage | NotByteIdentical | ProofRefused
    | InvalidProvenance | PredecessorSha
    | RunMismatch | ManifestChanged | UnreviewedAnchor | SemanticsChanged | MainProvenance | NoVerifiedProof

  /** `hashes.get(path)`: an unlisted file is an explicit absence. */
  function HashAt(source: Source, path: string): HashCell {
    if path in source.hashes then source.hashes[path] else ExplicitAbsence
  }

  predicate TagPinned(source: Source) {
    source.stable && IsHex(source.commit, 40) && source.tagCommit == source.commit
  }

  function Rows(predecessor: Source, target: Source, paths: seq<string>): (r: seq<Row>)
    ensures |r| == |paths|
    ensures forall i :: 0 <= i < |r| ==> r[i] == Row(paths[i], HashAt(predecessor, paths[i]), HashAt(target, paths[i]))
  {
    seq(|paths|, i requires 0 <= i < |paths| =>
      Row(paths[i], HashAt(predecessor, paths[i]), HashAt(target, paths[i])))
  }

  function Differing(rows: seq<Row>): (r: seq<string>)
    ensures r == [] <==> forall i :: 0 <= i < |rows| ==> EqualHashes(rows[i].predecessor, rows[i].release)
  {
    if rows == [] then []
    else
      var last := rows[|rows| - 1];
      Differing(rows[..|rows| - 1]) + if EqualHashes(last.predecessor, last.release) then [] else [last.path]
  }

  function CompareSources(predecessor: Source, target: Source, paths: seq<string>): Result<Proof> {
    if !TagPinned(predecessor) || !TagPinned(target) then Refused(TagShaMismatch)
    else
      var rows := Rows(predecessor, target, paths);
      var differing := Differing(rows);
      Ok(Proof(PROOF_MODEL, predecessor.version, target.version, predecessor.commit, target.commit,
               rows, differing, differing == []))
  }

  /** The first refusal of a retained proof, checked against the manifest. */
  function ProofFault(proof: Proof, predecessor: string, release: string, commit: string, paths: seq<string>): Option<Reason> {
    if proof.model != PROOF_MODEL || proof.predecessor != predecessor || proof.release != release
       || proof.releaseCommit != commit || !IsHex(proof.predecessorCommit, 40) then Some(ProofIdentity)
    else if !(|proof.files| == |paths| && forall i :: 0 <= i < |paths| ==> proof.files[i].path == paths[i]) then
      Some(ProofCoverage)
    else if exists i :: 0 <= i < |proof.files| &&
              (proof.files[i].predecessor == NoField || proof.files[i].release == NoField
               || !EqualHashes(proof.files[i].predecessor, proof.files[i].release)) then Some(NotByteIdentical)
    else if !proof.inherited || proof.differing != [] then Some(ProofRefused)
    else None
  }

  /** Comparing and then checking: the proof of a comparison is accepted iff every file is identical. */
  lemma ComparisonAcceptedIffIdentical(before: Source, after: Source, paths: seq<string>)
    requires TagPinned(before) && TagPinned(after)
    ensures var proof := CompareSources(before, after, paths).value;
            && (ProofFault(proof, before.version, after.version, after.commit, paths).None? <==> proof.inherited)
            && (proof.inherited <==>
                  forall i :: 0 <= i < |paths| ==> EqualHashes(HashAt(before, paths[i]), HashAt(after, paths[i])))
  {
    var rows := Rows(before, after, paths);
    if forall i :: 0 <= i < |paths| ==> EqualHashes(HashAt(before, paths[i]), HashAt(after, paths[i])) {
      assert forall i :: 0 <= i < |rows| ==> EqualHashes(rows[i].predecessor, rows[i].release);
    }
    if Differing(rows) == [] {
      forall i | 0 <= i < |paths|
        ensures EqualHashes(HashAt(before, paths[i]), HashAt(after, paths[i]))
      {
        assert rows[i].path == paths[i];
      }
    }
  }

  /** The reviewed semantics of one release; only the image digest may differ in a derived one. */
  datatype Binding = Binding(imageIndexDigest: Option<string>, deviceRegistry: string, typedOperations: bool,
                             childConsumer: string, httpStorageVersion: int)

  datatype Provenance = Provenance(version: string, stable: bool, serverName: string, sourceCommit: string,
                                   sourceTree: string, archiveSha256: string, imageIndexDigest: string,
                                   architectures: map<string, string>)

  predicate IsDigest(s: string) {
    "sha256:" <= s && IsHex(s[7..], 64)
  }

  predicate ValidProvenance(p: Provenance) {
    && p.stable && p.serverName == "home-assistant-core"
    && IsHex(p.sourceCommit, 40) && IsHex(p.sourceTree, 40) && IsHex(p.archiveSha256, 64)
    && IsDigest(p.imageIndexDigest)
    && p.architectures.Keys == {"linux/amd64", "linux/arm64"}
    && forall a :: a in p.architectures ==> IsDigest(p.architectures[a])
  }

  datatype Bound = Bound(binding: Binding, provenance: Provenance)

  function DeriveBinding(predecessor: Bound, provenance: Provenance, proof: Proof, paths: seq<string>): Result<Bound> {
    if !ValidProvenance(provenance) then Refused(InvalidProvenance)
    else
      match ProofFault(proof, predecessor.provenance.version, provenance.version, provenance.sourceCommit, paths)
      case Some(reason) => Refused(reason)
      case None =>
        if proof.predecessorCommit != predecessor.provenance.sourceCommit then Refused(PredecessorSha)
        else Ok(Bound(predecessor.binding.(imageIndexDigest := Some(provenance.imageIndexDigest)), provenance))
  }

  datatype Mode = MainMode | DerivedMode | OtherMode

  datatype Context = Context(model: string, run: map<string, string>, manifestSha256: string, anchor: string,
                             binding: Binding, provenance: Provenance, predecessor: string, mode: Mode, proof: Proof)

  /** What the repository commits: reviewed bindings and main-lane provenance per release, and the manifest. */
  datatype Committed = Committed(reviewed: map<string, Binding>, lanes: map<string, Provenance>,
                                 manifestSha256: string, paths: seq<string>)

  predicate RunIdentified(run: map<string, string>) {
    && (forall k :: k in run ==> run[k] != "")
    && "GITHUB_SHA" in run && IsHex(run["GITHUB_SHA"], 40)
  }

  function ContextFault(c: Context, expected: map<string, string>, committed: Committed): Option<Reason> {
    if c.model != "core-evidence-context-v1" || c.run != expected || !RunIdentified(expected) then Some(RunMismatch)
    else if c.manifestSha256 != committed.manifestSha256 then Some(ManifestChanged)
    else if !ValidProvenance(c.provenance) then Some(InvalidProvenance)
    else if c.anchor !in committed.reviewed then Some(UnreviewedAnchor)
    else
      var base := committed.reviewed[c.anchor];
      if c.binding != base.(imageIndexDigest := Some(c.provenance.imageIndexDigest)) then Some(SemanticsChanged)
      else if c.mode == MainMode then
        if c.anchor !in committed.lanes || c.provenance != committed.lanes[c.anchor] || c.binding != base
        then Some(MainProvenance) else None
      else if c.mode == DerivedMode then
        ProofFault(c.proof, c.predecessor, c.provenance.version, c.provenance.sourceCommit, committed.paths)
      else Some(NoVerifiedProof)
  }

  /** One further release in a chain: its provenance and the proof against the release before it. */
  datatype Link = Link(provenance: Provenance, proof: Proof)

  function DeriveChain(anchor: Bound, links: seq<Link>, paths: seq<string>): Result<Bound> {
    if links == [] then Ok(anchor)
    else
      match DeriveChain(anchor, links[..|links| - 1], paths)
      case Refused(reason) => Refused(reason)
      case Ok(bound) => DeriveBinding(bound, links[|links| - 1].provenance, links[|links| - 1].proof, paths)
  }

  /** The hash rows of a proof are those of its two commits, hashes being a function of the commit. */
  ghost predicate Honest(proof: Proof, tree: (string, string) -> HashCell) {
    forall i :: 0 <= i < |proof.files| ==>
      && proof.files[i].predecessor == tree(proof.predecessorCommit, proof.files[i].path)
      && proof.files[i].release == tree(proof.releaseCommit, proof.files[i].path)
  }

  /** A comparison of two sources whose hashes come from their commits is honest. */
  lemma ComparisonIsHonest(before: Source, after: Source, paths: seq<string>, tree: (string, string) -> HashCell)
    requires TagPinned(before) && TagPinned(after)
    requires forall path :: path in paths ==> HashAt(before, path) == tree(before.commit, path)
    requires forall path :: path in paths ==> HashAt(after, path) == tree(after.commit, path)
    ensures Honest(CompareSources(before, after, paths).value, tree)
  {
    assert forall i :: 0 <= i < |paths| ==> paths[i] in paths;
  }

  /** One link keeps every manifest path byte-identical between its two commits. */
  lemma LinkKeepsBytes(predecessor: Bound, link: Link, paths: seq<string>, tree: (string, string) -> HashCell, path: string)
    requires DeriveBinding(predecessor, link.provenance, link.proof, paths).Ok?
    requires Honest(link.proof, tree) && path in paths
    ensures EqualHashes(tree(predecessor.provenance.sourceCommit, path), tree(link.provenance.sourceCommit, path))
  {
    var i :| 0 <= i < |paths| && paths[i] == path;
    assert link.proof.files[i].path == path;
  }

  /** The last binding of any derived chain has the anchor's semantics and its own release's image digest. */
  lemma {:induction false} ChainKeepsSemantics(anchor: Bound, links: seq<Link>, paths: seq<string>)
    requires links != [] && DeriveChain(anchor, links, paths).Ok?
    ensures var last := links[|links| - 1].provenance;
            && DeriveChain(anchor, links, paths).value == Bound(anchor.binding.(imageIndexDigest := Some(last.imageIndexDigest)), last)
            && ValidProvenance(last)
  {
    var shorter := links[..|links| - 1];
    if shorter != [] {
      ChainKeepsSemantics(anchor, shorter, paths);
    }
  }

  lemma {:induction false} ChainKeepsBytes(anchor: Bound, links: seq<Link>, paths: seq<string>,
                                           tree: (string, string) -> HashCell, path: string)
    requires links != [] && DeriveChain(anchor, links, paths).Ok? && path in paths
    requires forall i :: 0 <= i < |links| ==> Honest(links[i].proof, tree)
    ensures EqualHashes(tree(anchor.provenance.sourceCommit, path), tree(links[|links| - 1].provenance.sourceCommit, path))
  {
    var shorter := links[..|links| - 1];
    var link := links[|links| - 1];
    var before := DeriveChain(anchor, shorter, paths).value;
    LinkKeepsBytes(before, link, paths, tree, path);
    if shorter != [] {
      ChainKeepsBytes(anchor, shorter, paths, tree, path);
      ChainKeepsSemantics(anchor, shorter, paths);
      EqualHashesIsPartialEquivalence(tree(anchor.provenance.sourceCommit, path),
                                      tree(before.provenance.sourceCommit, path),
                                      tree(link.provenance.sourceCommit, path));
    }
  }

  /**
   Chains of any length: the final binding is the anchor's reviewed semantics with the last
   release's image digest, every manifest path has the same bytes (or absence) at the first and
   the last commit, and the provenance is the last link's own.
   */
  lemma ChainKeepsSemanticsAndBytes(anchor: Bound, links: seq<Link>, paths: seq<string>,
                                                       tree: (string, string) -> HashCell)
    requires links != [] && DeriveChain(anchor, links, paths).Ok?
    requires forall i :: 0 <= i < |links| ==> Honest(links[i].proof, tree)
    ensures var bound := DeriveChain(anchor, links, paths).value;
            var last := links[|links| - 1].provenance;
            && bound == Bound(anchor.binding.(imageIndexDigest := Some(last.imageIndexDigest)), last)
            && ValidProvenance(last)
            && forall path :: path in paths ==>
                 EqualHashes(tree(anchor.provenance.sourceCommit, path), tree(last.sourceCommit, path))
  {
    ChainKeepsSemantics(anchor, links, paths);
    forall path | path in paths
      ensures EqualHashes(tree(anchor.provenance.sourceCommit, path), tree(links[|links| - 1].provenance.sourceCommit, path))
    {
      ChainKeepsBytes(anchor, links, paths, tree, path);
    }
  }

  // ----- What each refusal means -----

  ghost predicate IsSha1(s: string) {
    |s| == 40 && forall i :: 0 <= i < |s| ==> '0' <= s[i] <= '9' || 'a' <= s[i] <= 'f'
  }

  ghost predicate IsSha256(s: string) {
    |s| == 64 && forall i :: 0 <= i < |s| ==> '0' <= s[i] <= '9' || 'a' <= s[i] <= 'f'
  }

  ghost predicate IsImageDigest(s: string) {
    |s| >= 7 && s[..7] == "sha256:" && IsSha256(s[7..])
  }

  ghost predicate SameContent(row: Row) {
    || (row.predecessor == ExplicitAbsence && row.release == ExplicitAbsence)
    || (row.predecessor.Text? && row.predecessor == row.release && IsSha256(row.predecessor.s))
  }

  /** A release of the one server, identified by its commits, archive and images. */
  ghost predicate SoundProvenance(p: Provenance) {
    && p.stable && p.serverName == "home-assistant-core"
    && IsSha1(p.sourceCommit) && IsSha1(p.sourceTree) && IsSha256(p.archiveSha256) && IsImageDigest(p.imageIndexDigest)
    && p.architectures.Keys == {"linux/amd64", "linux/arm64"}
    && IsImageDigest(p.architectures["linux/amd64"]) && IsImageDigest(p.architectures["linux/arm64"])
  }

  lemma ValidIsSound(p: Provenance)
    ensures ValidProvenance(p) <==> SoundProvenance(p)
  {
    assert "sha256:" <= p.imageIndexDigest <==> |p.imageIndexDigest| >= 7 && p.imageIndexDigest[..7] == "sha256:";
    forall a | a in p.architectures
      ensures "sha256:" <= p.architectures[a] <==> |p.architectures[a]| >= 7 && p.architectures[a][..7] == "sha256:"
    {}
  }

  /** What each reason demands of a proof. */
  ghost predicate ProofMeets(reason: Reason, proof: Proof, predecessor: string, release: string, commit: string, paths: seq<string>) {
    match reason
    case ProofIdentity =>
      && proof.model == "core-o3-comparison-v1" && proof.predecessor == predecessor && proof.release == release
      && proof.releaseCommit == commit && IsSha1(proof.predecessorCommit)
    case ProofCoverage => |proof.files| == |paths| && forall i :: 0 <= i < |paths| ==> proof.files[i].path == paths[i]
    case NotByteIdentical => forall i :: 0 <= i < |proof.files| ==> SameContent(proof.files[i])
    case ProofRefused => proof.inherited && proof.differing == []
    case _ => true
  }

  ghost function Order(reason: Reason): nat {
    match reason
    case RunMismatch => 0 case ManifestChanged => 1 case InvalidProvenance => 2 case UnreviewedAnchor => 3
    case SemanticsChanged => 4 case MainProvenance => 5 case ProofIdentity => 6 case ProofCoverage => 7
    case NotByteIdentical => 8 case ProofRefused => 9 case NoVerifiedProof => 10 case PredecessorSha => 11
    case TagShaMismatch => 12
  }

  /** A proof is refused for the first demand it does not meet. */
  lemma ProofFaultIsFirstUnmet(proof: Proof, predecessor: string, release: string, commit: string, paths: seq<string>)
    ensures match ProofFault(proof, predecessor, release, commit, paths)
            case None => forall reason :: ProofMeets(reason, proof, predecessor, release, commit, paths)
            case Some(reason) =>
              && !ProofMeets(reason, proof, predecessor, release, commit, paths)
              && forall r :: Order(r) < Order(reason) ==> ProofMeets(r, proof, predecessor, release, commit, paths)
  {}

  /** What each reason demands of a context, by its mode. */
  ghost predicate ContextMeets(reason: Reason, c: Context, expected: map<string, string>, committed: Committed) {
    match reason
    case RunMismatch =>
      && c.model == "core-evidence-context-v1" && c.run == expected
      && "GITHUB_SHA" in expected && IsSha1(expected["GITHUB_SHA"]) && forall k :: k in expected ==> expected[k] != ""
    case ManifestChanged => c.manifestSha256 == committed.manifestSha256
    case InvalidProvenance => SoundProvenance(c.provenance)
    case UnreviewedAnchor => c.anchor in committed.reviewed
    case SemanticsChanged =>
      c.anchor in committed.reviewed
      && c.binding == committed.reviewed[c.anchor].(imageIndexDigest := Some(c.provenance.imageIndexDigest))
    case MainProvenance =>
      c.mode == MainMode ==>
        && c.anchor in committed.reviewed && c.binding == committed.reviewed[c.anchor]
        && c.anchor in committed.lanes && c.provenance == committed.lanes[c.anchor]
    case NoVerifiedProof => c.mode == MainMode || c.mode == DerivedMode
    case _ =>
      c.mode == DerivedMode ==>
        ProofMeets(reason, c.proof, c.predecessor, c.provenance.version, c.provenance.sourceCommit, committed.paths)
  }

  /**
   A context of any mode is refused for the first demand it does not meet. So a main context is accepted
   exactly with its reviewed binding and its committed lane's provenance, and no mode but main and derived is.
   */
  lemma ContextFaultIsFirstUnmet(c: Context, expected: map<string, string>, committed: Committed)
    ensures match ContextFault(c, expected, committed)
            case None => forall reason :: ContextMeets(reason, c, expected, committed)
            case Some(reason) =>
              && !ContextMeets(reason, c, expected, committed)
              && forall r :: Order(r) < Order(reason) ==> ContextMeets(r, c, expected, committed)
  {
    ValidIsSound(c.provenance);
    ProofFaultIsFirstUnmet(c.proof, c.predecessor, c.provenance.version, c.provenance.sourceCommit, committed.paths);
  }

  /** A main context is accepted exactly for a reviewed anchor, with its reviewed binding and its lane's provenance. */
  lemma MainContextIff(c: Context, expected: map<string, string>, committed: Committed)
    requires c.mode != DerivedMode
    ensures ContextFault(c, expected, committed).None?
            <==> && c.mode == MainMode && c.model == "core-evidence-context-v1"
                 && c.run == expected && "GITHUB_SHA" in expected && IsSha1(expected["GITHUB_SHA"])
                 && (forall k :: k in expected ==> expected[k] != "")
                 && c.manifestSha256 == committed.manifestSha256 && SoundProvenance(c.provenance)
                 && c.anchor in committed.reviewed && c.anchor in committed.lanes
                 && c.provenance == committed.lanes[c.anchor]
                 && c.binding == committed.reviewed[c.anchor]
                 && c.binding.imageIndexDigest == Some(c.provenance.imageIndexDigest)
  {
    ContextFaultIsFirstUnmet(c, expected, committed);
    if ContextFault(c, expected, committed).None? {
      assert ContextMeets(RunMismatch, c, expected, committed) && ContextMeets(ManifestChanged, c, expected, committed);
      assert ContextMeets(InvalidProvenance, c, expected, committed) && ContextMeets(NoVerifiedProof, c, expected, committed);
      assert ContextMeets(SemanticsChanged, c, expected, committed) && ContextMeets(MainProvenance, c, expected, committed);
    }
  }

  /** A comparison is refused exactly when a source's tag is not pinned to its commit, and otherwise records both sides. */
  lemma ComparisonIs(predecessor: Source, target: Source, paths: seq<string>)
    ensures match CompareSources(predecessor, target, paths)
            case Refused(reason) =>
              reason == TagShaMismatch
              && !(&& predecessor.stable && predecessor.commit == predecessor.tagCommit && IsSha1(predecessor.commit)
                   && target.stable && target.commit == target.tagCommit && IsSha1(target.commit))
            case Ok(proof) =>
              && predecessor.stable && predecessor.commit == predecessor.tagCommit && IsSha1(predecessor.commit)
              && target.stable && target.commit == target.tagCommit && IsSha1(target.commit)
              && proof.predecessor == predecessor.version && proof.release == target.version
              && proof.predecessorCommit == predecessor.commit && proof.releaseCommit == target.commit
              && |proof.files| == |paths|
              && (forall i :: 0 <= i < |paths| ==>
                    && proof.files[i].path == paths[i]
                    && proof.files[i].predecessor
                       == (if paths[i] in predecessor.hashes then predecessor.hashes[paths[i]] else ExplicitAbsence)
                    && proof.files[i].release == (if paths[i] in target.hashes then target.hashes[paths[i]] else ExplicitAbsence))
              && ListsExactly(proof.files, Differs, proof.differing, OfPath)
              && (proof.inherited <==> forall i :: 0 <= i < |proof.files| ==> SameContent(proof.files[i]))
  {
    if TagPinned(predecessor) && TagPinned(target) {
      DifferingListed(Rows(predecessor, target, paths));
    }
  }

  ghost predicate Differs(row: Row) {
    !SameContent(row)
  }

  ghost predicate OfPath(row: Row, path: string) {
    row.path == path
  }

  /** The differing paths are those of the rows whose sides differ, in order. */
  lemma {:induction false} DifferingListed(rows: seq<Row>)
    ensures ListsExactly(rows, Differs, Differing(rows), OfPath)
  {
    if rows != [] {
      var shorter := rows[..|rows| - 1];
      var last := rows[|rows| - 1];
      DifferingListed(shorter);
      assert rows == shorter + [last];
      ListsOneMore(shorter, Differs, Differing(shorter), OfPath, last, if EqualHashes(last.predecessor, last.release) then [] else [last.path]);
    }
  }

  /** A derivation is refused for its provenance, then its proof, then the proof's predecessor commit. */
  lemma DerivationIs(predecessor: Bound, provenance: Provenance, proof: Proof, paths: seq<string>)
    ensures var fault := ProofFault(proof, predecessor.provenance.version, provenance.version, provenance.sourceCommit, paths);
            match DeriveBinding(predecessor, provenance, proof, paths)
            case Ok(bound) =>
              && SoundProvenance(provenance) && fault.None? && proof.predecessorCommit == predecessor.provenance.sourceCommit
              && bound.provenance == provenance
              && bound.binding == predecessor.binding.(imageIndexDigest := Some(provenance.imageIndexDigest))
            case Refused(reason) =>
              if !SoundProvenance(provenance) then reason == InvalidProvenance
              else if fault.Some? then reason == fault.value
              else reason == PredecessorSha && proof.predecessorCommit != predecessor.provenance.sourceCommit
  {
    ValidIsSound(provenance);
  }

  /** The context published for the last link of a chain from a reviewed anchor. */
  function ChainContext(anchorVersion: string, anchor: Bound, links: seq<Link>, run: map<string, string>,
                        committed: Committed): Context
    requires links != [] && DeriveChain(anchor, links, committed.paths).Ok?
  {
    var before := DeriveChain(anchor, links[..|links| - 1], committed.paths).value;
    var bound := DeriveChain(anchor, links, committed.paths).value;
    Context("core-evidence-context-v1", run, committed.manifestSha256, anchorVersion, bound.binding, bound.provenance,
            before.provenance.version, DerivedMode, links[|links| - 1].proof)
  }

  /** Every derived release of a chain from a reviewed binding gets an accepted context. */
  lemma {:induction false} ChainContextIsAccepted(anchorVersion: string, anchor: Bound, links: seq<Link>, run: map<string, string>,
                               committed: Committed)
    requires links != [] && DeriveChain(anchor, links, committed.paths).Ok?
    requires anchorVersion in committed.reviewed && anchor.binding == committed.reviewed[anchorVersion]
    requires RunIdentified(run)
    ensures ContextFault(ChainContext(anchorVersion, anchor, links, run, committed), run, committed).None?
  {
    ChainKeepsSemantics(anchor, links, committed.paths);
  }

  /** A bound of the reviewed anchor's semantics that `c` is one derived link away from. */
  ghost predicate OneLinkFrom(c: Context, before: Bound, base: Binding, paths: seq<string>) {
    && before.binding.(imageIndexDigest := base.imageIndexDigest) == base
    && before.provenance.version == c.predecessor
    && DeriveBinding(before, c.provenance, c.proof, paths) == Ok(Bound(c.binding, c.provenance))
  }

  /**
   Conversely, every accepted derived context is one derived link away from a binding with its reviewed
   anchor's semantics: for such contexts, checking the context is checking the derivation.
   */
  lemma DerivedContextIffDerivation(c: Context, expected: map<string, string>, committed: Committed)
    requires c.mode == DerivedMode
    ensures ContextFault(c, expected, committed).None?
            <==> && c.model == "core-evidence-context-v1" && c.run == expected && RunIdentified(expected)
                 && c.manifestSha256 == committed.manifestSha256 && c.anchor in committed.reviewed
                 && exists before :: OneLinkFrom(c, before, committed.reviewed[c.anchor], committed.paths)
  {
    if ContextFault(c, expected, committed).None? {
      var base := committed.reviewed[c.anchor];
      var before := Bound(base, c.provenance.(version := c.predecessor, sourceCommit := c.proof.predecessorCommit));
      assert OneLinkFrom(c, before, base, committed.paths);
    }
  }

  // ----- Chains of compared sources -----

  /** One further release as the workflow meets it: the two sources it compares, and the new provenance. */
  datatype Comparison = Comparison(before: Source, after: Source, provenance: Provenance)

  predicate Compared(c: Comparison) {
    TagPinned(c.before) && TagPinned(c.after)
  }

  function LinkOf(c: Comparison, paths: seq<string>): Link
    requires Compared(c)
  {
    Link(c.provenance, CompareSources(c.before, c.after, paths).value)
  }

  predicate AllCompared(steps: seq<Comparison>) {
    forall i :: 0 <= i < |steps| ==> Compared(steps[i])
  }

  function LinksOf(steps: seq<Comparison>, paths: seq<string>): (r: seq<Link>)
    requires AllCompared(steps)
    ensures |r| == |steps| && forall i :: 0 <= i < |r| ==> r[i] == LinkOf(steps[i], paths)
  {
    seq(|steps|, i requires 0 <= i < |steps| => LinkOf(steps[i], paths))
  }

  /** Every manifest path is identical, or absent, in both sources. */
  predicate Identical(c: Comparison, paths: seq<string>) {
    forall i :: 0 <= i < |paths| ==> EqualHashes(HashAt(c.before, paths[i]), HashAt(c.after, paths[i]))
  }

  /** The compared sources are those of the release before and of the new one. */
  predicate Fits(previous: Provenance, c: Comparison) {
    && c.before.version == previous.version && c.before.commit == previous.sourceCommit
    && c.after.version == c.provenance.version && c.after.commit == c.provenance.sourceCommit
  }

  function PreviousOf(anchor: Bound, steps: seq<Comparison>, i: nat): Provenance
    requires i < |steps|
  {
    if i == 0 then anchor.provenance else steps[i - 1].provenance
  }

  /** A step that may extend a chain: it fits the release before it and leaves every path identical. */
  predicate Extends(previous: Provenance, c: Comparison, paths: seq<string>) {
    ValidProvenance(c.provenance) && Fits(previous, c) && Identical(c, paths)
  }

  ghost predicate AllExtend(anchor: Bound, steps: seq<Comparison>, paths: seq<string>) {
    forall i :: 0 <= i < |steps| ==> ExtendsAt(anchor, steps, i, paths)
  }

  ghost predicate ExtendsAt(anchor: Bound, steps: seq<Comparison>, i: nat, paths: seq<string>)
    requires i < |steps|
  {
    Extends(PreviousOf(anchor, steps, i), steps[i], paths)
  }

  lemma ExtendsAtPrefix(anchor: Bound, steps: seq<Comparison>, n: nat, i: nat, paths: seq<string>)
    requires i < n <= |steps|
    ensures ExtendsAt(anchor, steps[..n], i, paths) == ExtendsAt(anchor, steps, i, paths)
  {
    assert steps[..n][i] == steps[i];
    assert PreviousOf(anchor, steps[..n], i) == PreviousOf(anchor, steps, i);
  }

  /** A compared link derives exactly when the step extends what it derives from. */
  lemma LinkDerivesIff(predecessor: Bound, c: Comparison, paths: seq<string>)
    requires Compared(c)
    ensures DeriveBinding(predecessor, c.provenance, LinkOf(c, paths).proof, paths).Ok?
            <==> Extends(predecessor.provenance, c, paths)
  {
    ComparisonAcceptedIffIdentical(c.before, c.after, paths);
  }

  lemma AllExtendSnoc(anchor: Bound, steps: seq<Comparison>, paths: seq<string>)
    requires steps != []
    ensures var last := |steps| - 1;
            AllExtend(anchor, steps, paths)
            <==> AllExtend(anchor, steps[..last], paths) && ExtendsAt(anchor, steps, last, paths)
  {
    var last := |steps| - 1;
    forall i | 0 <= i < last
      ensures ExtendsAt(anchor, steps[..last], i, paths) == ExtendsAt(anchor, steps, i, paths)
    {
      ExtendsAtPrefix(anchor, steps, last, i, paths);
    }
  }

  /** The last step of a chain decides, once the chain before it derives. */
  lemma LastStepDecides(anchor: Bound, steps: seq<Comparison>, paths: seq<string>)
    requires steps != [] && AllCompared(steps)
    ensures var last := |steps| - 1;
            DeriveChain(anchor, LinksOf(steps, paths), paths).Ok?
            <==> && DeriveChain(anchor, LinksOf(steps[..last], paths), paths).Ok?
                 && ExtendsAt(anchor, steps, last, paths)
  {
    var last := |steps| - 1;
    var shorter := LinksOf(steps[..last], paths);
    assert LinksOf(steps, paths)[..last] == shorter;
    var before := DeriveChain(anchor, shorter, paths);
    if before.Ok? {
      if shorter != [] {
        ChainKeepsSemantics(anchor, shorter, paths);
        assert shorter[last - 1] == LinkOf(steps[last - 1], paths);
      }
      LinkDerivesIff(before.value, steps[last], paths);
    }
  }

  /**
   Chains from compared sources, of any length, derive exactly when every step fits the one before it,
   has a valid provenance, and leaves every manifest path byte-identical.
   */
  lemma {:induction false} ComparedChainDerivesIff(anchor: Bound, steps: seq<Comparison>, paths: seq<string>)
    requires AllCompared(steps)
    ensures DeriveChain(anchor, LinksOf(steps, paths), paths).Ok? <==> AllExtend(anchor, steps, paths)
  {
    if steps != [] {
      ComparedChainDerivesIff(anchor, steps[..|steps| - 1], paths);
      LastStepDecides(anchor, steps, paths);
      AllExtendSnoc(anchor, steps, paths);
    }
  }

  /** The hashes of both sources are those of their commits. */
  ghost predicate FromCommits(c: Comparison, paths: seq<string>, tree: (string, string) -> HashCell) {
    forall path :: path in paths ==>
      HashAt(c.before, path) == tree(c.before.commit, path) && HashAt(c.after, path) == tree(c.after.commit, path)
  }

  /**
   End to end: for releases compared and derived one after another, hashes being a function of the commit,
   the final binding is the anchor's reviewed semantics with the last image digest, every manifest path has
   the same bytes (or absence) at the anchor's and the last commit, and the context published is accepted.
   */
  lemma ComparedChainKeepsEverything(anchorVersion: string, anchor: Bound, steps: seq<Comparison>, run: map<string, string>,
                                     committed: Committed, tree: (string, string) -> HashCell)
    requires steps != [] && AllCompared(steps) && AllExtend(anchor, steps, committed.paths)
    requires forall i :: 0 <= i < |steps| ==> FromCommits(steps[i], committed.paths, tree)
    requires anchorVersion in committed.reviewed && anchor.binding == committed.reviewed[anchorVersion]
    requires RunIdentified(run)
    ensures DeriveChain(anchor, LinksOf(steps, committed.paths), committed.paths).Ok?
    ensures var links := LinksOf(steps, committed.paths);
            var last := steps[|steps| - 1].provenance;
            && DeriveChain(anchor, links, committed.paths).value
               == Bound(anchor.binding.(imageIndexDigest := Some(last.imageIndexDigest)), last)
            && (forall path :: path in committed.paths ==>
                  EqualHashes(tree(anchor.provenance.sourceCommit, path), tree(last.sourceCommit, path)))
            && ContextFault(ChainContext(anchorVersion, anchor, links, run, committed), run, committed).None?
  {
    var links := LinksOf(steps, committed.paths);
    ComparedChainDerivesIff(anchor, steps, committed.paths);
    forall i | 0 <= i < |links|
      ensures Honest(links[i].proof, tree)
    {
      ComparisonIsHonest(steps[i].before, steps[i].after, committed.paths, tree);
    }
    ChainKeepsSemanticsAndBytes(anchor, links, committed.paths, tree);
    ChainContextIsAccepted(anchorVersion, anchor, links, run, committed);
  }
}
