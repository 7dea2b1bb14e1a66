/**
 The offline replay of a dashboard run's evidence directory: every case's kept window
 must be the receipted bytes and verify strictly, every discarded one must be receipted
 and retryable, every window has its own interval, and no other window may lie there.
 */
module RetainedWindows {
  import opened Support
  import opened Values
  import opened RetryOnce
  import opened CaseWindows
  import opened CaseNames

  datatype Node = File(bytes: Bytes) | Folder

  type Directory = map<string, Node>

  /** The check of one window: its wire, its observation, whether a rerun is allowed, and what its case expects. */
  type Judge = (Value, Value, bool, Expectation) -> CaseVerdict

  /** What a replay is given: the digest of bytes, the JSON reader (which may raise), and the check of a window. */
  datatype Env = Env(digest: Bytes -> string, parse: Bytes -> Option<Value>, judge: Judge)

  /** The dashboard's own check, for one source digest of the observer. */
  function CaseJudge(sourceHash: string): Judge {
    (wire, observed, retry, e) => Judged(wire, observed, retry, e, sourceHash)
  }

  datatype Reason =
    | ReceiptsMalformed | SequenceMismatch | UnknownCase | OutcomeMismatch | WindowMissing | WindowAltered | WireMismatch
    | KeptRefused | UndeclaredDiscard | DigestsMissing | IntervalReused | UnreceiptedWindow | DiscardRefused
    | Unusable

  datatype Outcome<+T> = Ok(value: T) | Bad(reason: Reason) {
    predicate IsFailure() { Bad? }

    function PropagateFailure<U>(): Outcome<U>
      requires Bad?
    {
      Bad(reason)
    }

    function Extract(): T
      requires Ok?
    {
      value
    }
  }

  /** A requirement: when it is not met, its reason is the outcome. */
  datatype Requirement = Met | Unmet(reason: Reason) {
    predicate IsFailure() { Unmet? }

    function PropagateFailure<U>(): Outcome<U>
      requires Unmet?
    {
      Bad(reason)
    }
  }

  function Need(condition: bool, reason: Reason): Requirement {
    if condition then Met else Unmet(reason)
  }

  const RECEIPTS := "case-receipts.json"

  /** Python's `receipt[name]`. */
  function Field(receipt: Value, name: string): Outcome<Value> {
    if receipt.Dict? && name in receipt.fields then Ok(receipt.fields[name]) else Bad(Unusable)
  }

  function LoadRetained(env: Env, dir: Directory, name: string, sha256: Value): Outcome<Value> {
    if !(sha256.Str? && name in dir && dir[name].File?) then Bad(WindowMissing)
    else if env.digest(dir[name].bytes) != sha256.s then Bad(WindowAltered)
    else
      match env.parse(dir[name].bytes)
      case None => Bad(Unusable)
      case Some(content) => Ok(content)
  }

  /** The interval identifier, as a member of a set: a list or a mapping cannot be one. */
  function IntervalOf(observation: Value): Outcome<Value> {
    var id :- Field(observation, "interval_id");
    if id.List? || id.Dict? then Bad(Unusable) else Ok(id)
  }

  datatype Discarded = Discarded(observation: Value, wire: Value, diagnostic: Value)

  /** What one receipt stands for: the case's kept window, and its discarded one if it has one. */
  datatype Entry = Entry(name: string, observation: Value, wire: Value, discarded: Option<Discarded>)

  const DISCARD_DIGESTS: set<string> := {"observation_sha256", "wire_sha256"}

  function ReadDiscarded(env: Env, dir: Directory, receipt: Value, name: string): Outcome<Option<Discarded>> {
    var diagnostic :- Field(receipt, "discarded_window");
    var hashes :- Field(receipt, "discarded_sha256");
    if diagnostic == Null then
      :- Need(hashes == Null && ObservationFile(DiscardedName(name)) !in dir && WireFile(DiscardedName(name)) !in dir,
              UndeclaredDiscard);
      Ok(None)
    else
      :- Need(hashes.Dict? && hashes.fields.Keys == DISCARD_DIGESTS, DigestsMissing);
      var observation :- LoadRetained(env, dir, ObservationFile(DiscardedName(name)), hashes.fields["observation_sha256"]);
      var wire :- LoadRetained(env, dir, WireFile(DiscardedName(name)), hashes.fields["wire_sha256"]);
      var _ :- IntervalOf(observation);
      Ok(Some(Discarded(observation, wire, diagnostic)))
  }

  function ExpectationOf(name: string): Outcome<Expectation> {
    match CaseExpectation(name)
    case None => Bad(UnknownCase)
    case Some(expected) => Ok(expected)
  }

  function ReadKept(env: Env, dir: Directory, receipt: Value, name: string): Outcome<(Value, Value)> {
    var expected :- ExpectationOf(name);
    var success :- Field(receipt, "success");
    :- Need(success == Bool(expected.success), OutcomeMismatch);
    var observationSha :- Field(receipt, "observation_sha256");
    var observation :- LoadRetained(env, dir, ObservationFile(name), observationSha);
    var wireSha :- Field(receipt, "wire_sha256");
    var wire :- LoadRetained(env, dir, WireFile(name), wireSha);
    var receipted :- Field(receipt, "wire");
    :- Need(wire == receipted, WireMismatch);
    var verdict := env.judge(wire, observation, false, expected);
    :- Need(verdict != Broken, Unusable);
    :- Need(verdict == Verifies, KeptRefused);
    var _ :- IntervalOf(observation);
    Ok((observation, wire))
  }

  function ReadEntry(env: Env, dir: Directory, receipt: Value): Outcome<Entry> {
    var name :- Field(receipt, "case");
    :- Need(name.Str?, UnknownCase);
    var kept :- ReadKept(env, dir, receipt, name.s);
    var discarded :- ReadDiscarded(env, dir, receipt, name.s);
    Ok(Entry(name.s, kept.0, kept.1, discarded))
  }

  /** The entries of all receipts, or the first that cannot be read. */
  function ReadAll(read: Value -> Outcome<Entry>, receipts: seq<Value>): Outcome<seq<Entry>> {
    if receipts == [] then Ok([])
    else
      var earlier :- ReadAll(read, receipts[..|receipts| - 1]);
      var last :- read(receipts[|receipts| - 1]);
      Ok(earlier + [last])
  }

  function ReaderOf(env: Env, dir: Directory): Value -> Outcome<Entry> {
    receipt => ReadEntry(env, dir, receipt)
  }

  function ReadReceipts(env: Env, dir: Directory): Outcome<seq<Value>> {
    if !(RECEIPTS in dir && dir[RECEIPTS].File?) then Bad(Unusable)
    else
      match env.parse(dir[RECEIPTS].bytes)
      case None => Bad(Unusable)
      case Some(value) =>
        if value.List? && forall i :: 0 <= i < |value.items| ==> value.items[i].Dict? then Ok(value.items)
        else Bad(ReceiptsMalformed)
  }

  function CaseOf(receipt: Value): Value {
    if receipt.Dict? then receipt.Get("case") else Null
  }

  /** The receipts name the first case, one to twenty pages in order, and the refusals. */
  predicate InSequence(receipts: seq<Value>) {
    7 <= |receipts| <= MAX_CONTINUATIONS + 6
    && forall i :: 0 <= i < |receipts| ==> CaseOf(receipts[i]) == Str(Cases(|receipts| - 6)[i])
  }

  function ItemsOf(entries: seq<Entry>): seq<Item<Value>> {
    if entries == [] then []
    else
      var last := entries[|entries| - 1];
      ItemsOf(entries[..|entries| - 1])
      + match last.discarded
        case None => []
        case Some(d) => [Discard(last.name, d.observation, d.diagnostic)]
  }

  /** The wires of the discarded windows, by case. */
  function WiresOf(entries: seq<Entry>): map<string, Value> {
    if entries == [] then map[]
    else
      var last := entries[|entries| - 1];
      var earlier := WiresOf(entries[..|entries| - 1]);
      match last.discarded
      case None => earlier
      case Some(d) => earlier[last.name := d.wire]
  }

  function IdOf(observation: Value): Value {
    if observation.Dict? then observation.Get("interval_id") else Null
  }

  /** The interval identifiers of all windows, kept and discarded. */
  function IntervalsOf(entries: seq<Entry>): seq<Value> {
    if entries == [] then []
    else
      var last := entries[|entries| - 1];
      IntervalsOf(entries[..|entries| - 1]) + [IdOf(last.observation)]
      + match last.discarded
        case None => []
        case Some(d) => [IdOf(d.observation)]
  }

  function Members<T(!new)>(items: seq<T>): (m: set<T>)
    ensures forall x :: x in m <==> x in items
  {
    set x | x in items
  }

  /** The window files that lie in the directory. */
  function Retained(dir: Directory): (names: set<string>)
    ensures forall name :: name in names <==> name in dir && IsWindowFile(name)
  {
    set name | name in dir && IsWindowFile(name)
  }

  /** The window files the receipts account for. */
  function Receipted(entries: seq<Entry>): set<string> {
    if entries == [] then {}
    else
      var last := entries[|entries| - 1];
      Receipted(entries[..|entries| - 1]) + {ObservationFile(last.name), WireFile(last.name)}
      + if last.discarded.Some? then {ObservationFile(DiscardedName(last.name)), WireFile(DiscardedName(last.name))} else {}
  }

  /** The diagnostics of a discarded dashboard window: retryable, with its count, or refused. */
  function RetryDiagnostic(count: nat): Value {
    Dict(map["condition" := Str("retryable_delayed_save"), "retryable_event_count" := Num(count as real)])
  }

  const REFUSED_DIAGNOSTIC := Dict(map["condition" := Str("window_refused")])

  /** Offline, a refusal is reported as an observation error. */
  function Offline(verdict: CaseVerdict): Checked<(), Value> {
    match verdict
    case Verifies => Passed(())
    case Rerun(count) => MayRerun(RetryDiagnostic(count))
    case Refused => NotPassed(REFUSED_DIAGNOSTIC)
    case Broken => Raised
  }

  function ReplayAt(env: Env, wires: map<string, Value>, name: string, observation: Value, retry: bool): Checked<(), Value> {
    if CaseExpectation(name).None? || name !in wires then Raised
    else Offline(env.judge(wires[name], observation, retry, CaseExpectation(name).value))
  }

  function ReplayOver(env: Env, wires: map<string, Value>): Recheck<(), Value> {
    (name, observation, retry) => ReplayAt(env, wires, name, observation, retry)
  }

  function NamesOf(entries: seq<Entry>): (names: seq<string>)
    ensures |names| == |entries| && forall i :: 0 <= i < |names| ==> names[i] == entries[i].name
  {
    seq(|entries|, i requires 0 <= i < |entries| => entries[i].name)
  }

  /** The checks that follow the loop over the receipts; `replay` is the shared check of the discarded windows. */
  function Conclude(windows: nat, identities: set<Value>, retained: set<string>, receipted: set<string>,
                    replay: Replay<Value>): Outcome<set<string>>
  {
    if !(|identities| == windows && forall id :: id in identities ==> id.Str?) then Bad(IntervalReused)
    else if retained != receipted then Bad(UnreceiptedWindow)
    else
      match replay
      case Accepted(cases) => Ok(cases)
      case Rejected(_) => Bad(DiscardRefused)
  }

  /** The shared check of the discarded windows of these entries. */
  function ReplayOf(env: Env, entries: seq<Entry>): Replay<Value> {
    Verified(Items(ItemsOf(entries)), ReplayOver(env, WiresOf(entries)), Members(NamesOf(entries)))
  }

  function Concluded(env: Env, dir: Directory, kept: nat, entries: seq<Entry>): Outcome<set<string>> {
    Conclude(kept + |ItemsOf(entries)|, Members(IntervalsOf(entries)), Retained(dir), Receipted(entries), ReplayOf(env, entries))
  }

  /** The replay without its loop. */
  function ReplayedDirectory(env: Env, dir: Directory): Outcome<set<string>> {
    var receipts :- ReadReceipts(env, dir);
    :- Need(InSequence(receipts), SequenceMismatch);
    var entries :- ReadAll(ReaderOf(env, dir), receipts);
    Concluded(env, dir, |receipts|, entries)
  }

  /** What the loop has collected from the entries read so far. */
  datatype Collection = Collection(names: set<string>, discarded: seq<Item<Value>>, wires: map<string, Value>,
                                   identities: set<Value>, receipted: set<string>)

  ghost function CollectionOf(entries: seq<Entry>): Collection {
    Collection(Members(NamesOf(entries)), ItemsOf(entries), WiresOf(entries), Members(IntervalsOf(entries)), Receipted(entries))
  }

  /** The body of the loop, once its entry has been read. */
  method Collect(ghost entries: seq<Entry>, c: Collection, entry: Entry) returns (r: Collection)
    requires c == CollectionOf(entries)
    ensures r == CollectionOf(entries + [entry])
  {
    EntrySnoc(entries, entry);
    var names := c.names + {entry.name};
    var identities := c.identities + {IdOf(entry.observation)};
    var receipted := c.receipted + {ObservationFile(entry.name), WireFile(entry.name)};
    match entry.discarded {
      case None =>
        r := Collection(names, c.discarded, c.wires, identities, receipted);
      case Some(d) =>
        r := Collection(names, c.discarded + [Discard(entry.name, d.observation, d.diagnostic)], c.wires[entry.name := d.wire],
                        identities + {IdOf(d.observation)},
                        receipted + {ObservationFile(DiscardedName(entry.name)), WireFile(DiscardedName(entry.name))});
    }
  }

  /** The loop over the receipts. */
  method CollectAll(env: Env, dir: Directory, receipts: seq<Value>) returns (r: Outcome<Collection>)
    ensures var read := ReadAll(ReaderOf(env, dir), receipts);
            if read.Ok? then r == Ok(CollectionOf(read.value)) else r == Bad(read.reason)
  {
    var c := Collection({}, [], map[], {}, {});
    ghost var entries: seq<Entry> := [];
    for i := 0 to |receipts|
      invariant ReadAll(ReaderOf(env, dir), receipts[..i]) == Ok(entries) && c == CollectionOf(entries)
    {
      ReadNext(ReaderOf(env, dir), receipts, i);
      var read := ReadEntry(env, dir, receipts[i]);
      if read.Bad? {
        ReadingStops(ReaderOf(env, dir), receipts, i + 1);
        return Bad(read.reason);
      }
      c := Collect(entries, c, read.value);
      entries := entries + [read.value];
    }
    assert receipts[..|receipts|] == receipts;
    return Ok(c);
  }

  method VerifyRetainedWindows(env: Env, dir: Directory) returns (r: Outcome<set<string>>)
    ensures r == ReplayedDirectory(env, dir)
  {
    var receipts :- ReadReceipts(env, dir);
    :- Need(InSequence(receipts), SequenceMismatch);
    var c :- CollectAll(env, dir, receipts);
    var replay := VerifyDiscarded(Items(c.discarded), ReplayOver(env, c.wires), c.names);
    return Conclude(|receipts| + |c.discarded|, c.identities, Retained(dir), c.receipted, replay);
  }

  lemma ReadNext(read: Value -> Outcome<Entry>, receipts: seq<Value>, i: nat)
    requires i < |receipts| && ReadAll(read, receipts[..i]).Ok?
    ensures ReadAll(read, receipts[..i + 1]) ==
            match read(receipts[i])
            case Bad(reason) => Bad(reason)
            case Ok(entry) => Ok(ReadAll(read, receipts[..i]).value + [entry])
  {
    assert receipts[..i + 1][..i] == receipts[..i];
  }

  lemma {:induction false} ReadingStops(read: Value -> Outcome<Entry>, receipts: seq<Value>, n: nat)
    requires n <= |receipts| && ReadAll(read, receipts[..n]).Bad?
    ensures ReadAll(read, receipts) == Bad(ReadAll(read, receipts[..n]).reason)
    decreases |receipts|
  {
    if n < |receipts| {
      var shorter := receipts[..|receipts| - 1];
      assert shorter[..n] == receipts[..n];
      ReadingStops(read, shorter, n);
    } else {
      assert receipts[..n] == receipts;
    }
  }

  /** One more entry, for everything the loop collects. */
  lemma EntrySnoc(entries: seq<Entry>, last: Entry)
    ensures var all := entries + [last];
            && ItemsOf(all) == ItemsOf(entries)
                 + (match last.discarded case None => [] case Some(d) => [Discard(last.name, d.observation, d.diagnostic)])
            && WiresOf(all) == (match last.discarded case None => WiresOf(entries) case Some(d) => WiresOf(entries)[last.name := d.wire])
            && IntervalsOf(all) == IntervalsOf(entries) + [IdOf(last.observation)]
                 + (match last.discarded case None => [] case Some(d) => [IdOf(d.observation)])
            && Receipted(all) == Receipted(entries) + {ObservationFile(last.name), WireFile(last.name)}
                 + (if last.discarded.Some? then {ObservationFile(DiscardedName(last.name)), WireFile(DiscardedName(last.name))} else {})
            && NamesOf(all) == NamesOf(entries) + [last.name]
  {
    assert (entries + [last])[..|entries|] == entries;
  }
}
