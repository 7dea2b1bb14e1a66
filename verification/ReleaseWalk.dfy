/**
 Finding the commit that first advertised a version: a walk along first parents with a
 cut-off, reading each configuration once per blob.
 */
module ReleaseWalk {
  import opened Support

  /** What Git says of the configuration path at a commit. */
  datatype TreeEntry = PathAbsent | TreeUnreadable | Entry(regular: bool, oid: string)

  /** What the bytes of a blob amount to; `Unprocessable` is uncertainty, never absence. */
  datatype Blob = Unprocessable | StoreInvalid | NotAMapping | WithoutVersion | Version(text: string)

  datatype Repository = Repository(tree: string -> TreeEntry, blob: string -> Blob)

  /** The advertised version, proven absent, or unknown. */
  datatype Reading = Unknown | Known(version: Option<string>)

  function BlobReading(b: Blob): Reading {
    match b
    case Unprocessable => Unknown
    case Version(text) => Known(Some(text))
    case _ => Known(None)
  }

  /** The reading without any cache. */
  function Advertised(repo: Repository, commit: string): Reading {
    match repo.tree(commit)
    case PathAbsent => Known(None)
    case TreeUnreadable => Unknown
    case Entry(regular, oid) => if regular then BlobReading(repo.blob(oid)) else Unknown
  }

  /** A version is known from the regular file that names it; absence is known from a missing path or a file without one. */
  lemma AdvertisedIs(repo: Repository, commit: string)
    ensures forall text :: Advertised(repo, commit) == Known(Some(text)) <==>
              var entry := repo.tree(commit);
              entry.Entry? && entry.regular && repo.blob(entry.oid) == Version(text)
    ensures Advertised(repo, commit) == Known(None) <==>
              var entry := repo.tree(commit);
              || entry == PathAbsent
              || (entry.Entry? && entry.regular && repo.blob(entry.oid) in {StoreInvalid, NotAMapping, WithoutVersion})
  {}

  type Cache = map<string, Option<string>>

  ghost predicate CacheSound(repo: Repository, cache: Cache) {
    forall oid :: oid in cache ==> BlobReading(repo.blob(oid)) == Known(cache[oid])
  }

  method ConfigVersion(repo: Repository, commit: string, cache: Cache) returns (reading: Reading, updated: Cache)
    requires CacheSound(repo, cache)
    ensures reading == Advertised(repo, commit)
    ensures CacheSound(repo, updated)
    ensures updated == (var entry := repo.tree(commit);
                        if reading.Known? && entry.Entry? && entry.oid !in cache then cache[entry.oid := reading.version] else cache)
  {
    updated := cache;
    match repo.tree(commit) {
      case PathAbsent => return Known(None), updated;
      case TreeUnreadable => return Unknown, updated;
      case Entry(regular, oid) =>
        if !regular {
          return Unknown, updated;
        }
        if oid !in updated {
          match repo.blob(oid) {
            case Unprocessable => return Unknown, updated;
            case Version(text) => updated := updated[oid := Some(text)];
            case _ => updated := updated[oid := None];
          }
        }
        return Known(updated[oid]), updated;
    }
  }

  /**
   The first `n` listed commits are the whole leading run advertising `version`, and its end is
   proven: the next commit provably advertises something else, or the history ends within the limit.
   */
  ghost predicate ProvenRun(repo: Repository, commits: seq<string>, limit: nat, version: string, n: nat) {
    && 0 < n <= |commits| && n <= limit
    && (forall i :: 0 <= i < n ==> Advertised(repo, commits[i]) == Known(Some(version)))
    && (n < |commits| && n < limit ==>
          Advertised(repo, commits[n]).Known? && Advertised(repo, commits[n]) != Known(Some(version)))
    && (n == |commits| || n < limit)
  }

  /** At most one length is a proven run. */
  lemma ProvenRunIsUnique(repo: Repository, commits: seq<string>, limit: nat, version: string, n: nat, m: nat)
    requires ProvenRun(repo, commits, limit, version, n) && ProvenRun(repo, commits, limit, version, m)
    ensures n == m
  {}

  /**
   `listed` is the first `limit + 1` commits of the walk, or nothing if listing failed. The result is
   the last commit of the proven leading run, and none exactly when there is no such run.
   */
  method ReleaseCommit(repo: Repository, listed: Option<seq<string>>, limit: nat, version: string)
    returns (release: Option<string>)
    requires listed.Some? ==> |listed.value| <= limit + 1
    ensures release.Some? ==>
              listed.Some? && exists n :: ProvenRun(repo, listed.value, limit, version, n) && release.value == listed.value[n - 1]
    ensures release.None? ==> listed.None? || forall n :: !ProvenRun(repo, listed.value, limit, version, n)
  {
    release := None;
    if listed.None? {
      return None;
    }
    var commits := listed.value;
    var cache: Cache := map[];
    var considered := if |commits| <= limit then |commits| else limit;
    for i := 0 to considered
      invariant CacheSound(repo, cache)
      invariant forall j :: 0 <= j < i ==> Advertised(repo, commits[j]) == Known(Some(version))
      invariant release == if i == 0 then None else Some(commits[i - 1])
    {
      var reading;
      reading, cache := ConfigVersion(repo, commits[i], cache);
      if reading == Unknown {
        return None;
      }
      if reading.version != Some(version) {
        assert i > 0 ==> ProvenRun(repo, commits, limit, version, i);
        return release;
      }
      release := Some(commits[i]);
    }
    if |commits| > limit {
      return None;
    }
    assert considered > 0 ==> ProvenRun(repo, commits, limit, version, considered);
  }
}
