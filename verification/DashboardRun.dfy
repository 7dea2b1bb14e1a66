/**
 The online side of a dashboard run: every case is observed once, or twice after a
 retryable first window, and its windows and receipt are written as it goes. What a
 completed run leaves behind is accepted by the offline replay.
 */
module DashboardRun {
  import opened Support
  import opened Values
  import opened RetryOnce
  import opened CaseWindows
  import opened CaseNames
  import opened RetainedWindows
  import opened RetainedEvidence

  /** Online a refusal is an unrelated error: only a retryable window is caught. */
  function OnlineAt(judge: Judge, name: string, wire: Value, observation: Value, retry: bool): Checked<(), Value> {
    if CaseExpectation(name).None? then Raised
    else
      match judge(wire, observation, retry, CaseExpectation(name).value)
      case Verifies => Passed(())
      case Rerun(count) => MayRerun(RetryDiagnostic(count))
      case _ => Raised
  }

  function OnlineCheck(judge: Judge): Check<(), Value> {
    (name, wire, observation, retry) => OnlineAt(judge, name, wire, observation, retry)
  }

  /** Online, a case passes or may be rerun as its check says; anything else raises. */
  lemma OnlineIs(judge: Judge, name: string, wire: Value, observation: Value, retry: bool)
    ensures var checked := OnlineAt(judge, name, wire, observation, retry);
            && (CaseExpectation(name).None? ==> checked == Raised)
            && (CaseExpectation(name).Some? ==>
                  match judge(wire, observation, retry, CaseExpectation(name).value)
                  case Verifies => checked == Passed(())
                  case Rerun(count) =>
                    checked == MayRerun(Dict(map["condition" := Str("retryable_delayed_save"),
                                                 "retryable_event_count" := Num(count as real)]))
                  case _ => checked == Raised)
  {}

  type Writer = Value -> Bytes

  /** The value is read back from the bytes it is written as. */
  ghost predicate ReadsBack(env: Env, write: Writer, value: Value) {
    env.parse(write(value)) == Some(value)
  }

  ghost predicate EntryReadsBack(env: Env, write: Writer, e: Entry) {
    && ReadsBack(env, write, e.observation) && ReadsBack(env, write, e.wire)
    && (e.discarded.Some? ==> ReadsBack(env, write, e.discarded.value.observation) && ReadsBack(env, write, e.discarded.value.wire))
  }

  /** Everything the run writes is read back: the windows of its entries, and its receipts. */
  ghost predicate RoundTrips(env: Env, write: Writer, entries: seq<Entry>) {
    && (forall i :: 0 <= i < |entries| ==> EntryReadsBack(env, write, entries[i]))
    && ReadsBack(env, write, List(RunReceipts(env, write, entries)))
  }

  function WindowFiles(write: Writer, name: string, observation: Value, wire: Value): Directory {
    map[ObservationFile(name) := File(write(observation)), WireFile(name) := File(write(wire))]
  }

  predicate IsKept(judge: Judge, slot: Slot) {
    AttemptAt(OnlineCheck(judge), slot).attempt.Kept?
  }

  /** What a kept case leaves behind. */
  function EntryOf(judge: Judge, slot: Slot): Entry
    requires IsKept(judge, slot)
  {
    var trace := AttemptAt(OnlineCheck(judge), slot);
    Entry(slot.name, trace.attempt.observation, trace.attempt.outcome,
          if trace.runs == 2 then Some(Discarded(slot.first.observation, slot.first.outcome, trace.discarded[0].diagnostic)) else None)
  }

  function FilesOf(write: Writer, e: Entry): Directory {
    WindowFiles(write, e.name, e.observation, e.wire)
    + match e.discarded
      case None => map[]
      case Some(d) => WindowFiles(write, DiscardedName(e.name), d.observation, d.wire)
  }

  function Sha(env: Env, write: Writer, value: Value): Value {
    Str(env.digest(write(value)))
  }

  function ReceiptOf(env: Env, write: Writer, e: Entry): Value {
    Dict(map[
      "case" := Str(e.name),
      "success" := Bool(CaseExpectation(e.name).Some? && CaseExpectation(e.name).value.success),
      "wire" := e.wire,
      "observation_sha256" := Sha(env, write, e.observation),
      "wire_sha256" := Sha(env, write, e.wire),
      "discarded_window" := (match e.discarded case None => Null case Some(d) => d.diagnostic),
      "discarded_sha256" := (match e.discarded
        case None => Null
        case Some(d) => Dict(map["observation_sha256" := Sha(env, write, d.observation), "wire_sha256" := Sha(env, write, d.wire)]))])
  }

  class Lane {
    const env: Env
    const write: Writer
    var out: Directory
    var receipts: seq<Value>

    constructor (env: Env, write: Writer, out: Directory)
      ensures this.env == env && this.write == write && this.out == out && receipts == []
    {
      this.env := env;
      this.write := write;
      this.out := out;
      receipts := [];
    }

    /** Save one window under a name. */
    method SaveWindow(name: string, run: RunResult)
      requires run.Ran?
      modifies this`out
      ensures out == old(out) + WindowFiles(write, name, run.observation, run.outcome)
    {
      out := out[ObservationFile(name) := File(write(run.observation))];
      out := out[WireFile(name) := File(write(run.outcome))];
    }

    /** Keep the first window aside: its observation is written again, its wire file renamed. */
    method Discard(name: string, run: RunResult)
      requires run.Ran? && WireFile(name) in out && out[WireFile(name)] == File(write(run.outcome))
      modifies this`out
      ensures out == (old(out) - {WireFile(name)}) + WindowFiles(write, DiscardedName(name), run.observation, run.outcome)
    {
      DiscardedFilesDiffer(name);
      out := out[ObservationFile(DiscardedName(name)) := File(write(run.observation))];
      var moved := out[WireFile(name)];
      out := (out - {WireFile(name)})[WireFile(DiscardedName(name)) := moved];
    }

    /** One case. It is receipted only if it is kept; otherwise the run raises there. */
    method Call(slot: Slot) returns (kept: bool)
      modifies this
      ensures kept <==> IsKept(env.judge, slot)
      ensures kept ==>
                var e := EntryOf(env.judge, slot);
                && receipts == old(receipts) + [ReceiptOf(env, write, e)]
                && out == (old(out) + FilesOf(write, e))[RECEIPTS := File(write(List(receipts)))]
    {
      ghost var before := out;
      if slot.first.RunRaised? {
        return false;
      }
      SaveWindow(slot.name, slot.first);
      var verdict := OnlineAt(env.judge, slot.name, slot.first.outcome, slot.first.observation, true);
      var run := slot.first;
      var discarded: Option<RetainedWindows.Discarded> := None;
      if verdict.MayRerun? {
        Discard(slot.name, run);
        discarded := Some(Discarded(run.observation, run.outcome, verdict.diagnostic));
        run := slot.second;
        if run.RunRaised? {
          return false;
        }
        SaveWindow(slot.name, run);
        verdict := OnlineAt(env.judge, slot.name, run.outcome, run.observation, false);
      }
      if !verdict.Passed? {
        return false;
      }
      var e := Entry(slot.name, run.observation, run.outcome, discarded);
      assert out == before + FilesOf(write, e) by {
        SavedFiles(write, before, slot, e);
      }
      receipts := receipts + [ReceiptOf(env, write, e)];
      out := out[RECEIPTS := File(write(List(receipts)))];
      return true;
    }
  }

  lemma DiscardedFilesDiffer(name: string)
    ensures ObservationFile(name) != ObservationFile(DiscardedName(name)) && WireFile(name) != WireFile(DiscardedName(name))
    ensures ObservationFile(name) != WireFile(DiscardedName(name)) && WireFile(name) != ObservationFile(DiscardedName(name))
  {
    WindowFilesDiffer(name, DiscardedName(name));
    WindowFilesDiffer(DiscardedName(name), name);
    assert |WireFile(DiscardedName(name))| > |WireFile(name)|;
    assert |ObservationFile(DiscardedName(name))| > |ObservationFile(name)|;
  }

  /** Moving a window's files elsewhere and saving others in their place. */
  lemma MovedAndSaved(before: Directory, o: string, w: string, od: string, wd: string, a: Node, b: Node, c: Node, d: Node)
    requires o != od && o != wd && w != od && w != wd
    ensures ((before + map[o := a, w := b]) - {w}) + map[od := a, wd := b] + map[o := c, w := d]
            == before + (map[o := c, w := d] + map[od := a, wd := b])
  {}

  /** Discarding and saving again leaves exactly the files of the entry. */
  lemma SavedFiles(write: Writer, before: Directory, slot: Slot, e: Entry)
    requires slot.first.Ran? && e.name == slot.name
    requires e.discarded.Some? ==> e.discarded.value.observation == slot.first.observation && e.discarded.value.wire == slot.first.outcome
    ensures var first := before + WindowFiles(write, e.name, slot.first.observation, slot.first.outcome);
            e.discarded.Some? ==>
              (first - {WireFile(e.name)})
              + WindowFiles(write, DiscardedName(e.name), slot.first.observation, slot.first.outcome)
              + WindowFiles(write, e.name, e.observation, e.wire)
              == before + FilesOf(write, e)
    ensures e.discarded.None? ==> before + WindowFiles(write, e.name, e.observation, e.wire) == before + FilesOf(write, e)
  {
    DiscardedFilesDiffer(e.name);
    MovedAndSaved(before, ObservationFile(e.name), WireFile(e.name),
                  ObservationFile(DiscardedName(e.name)), WireFile(DiscardedName(e.name)),
                  File(write(slot.first.observation)), File(write(slot.first.outcome)), File(write(e.observation)), File(write(e.wire)));
  }

  // ----- Whole runs -----

  function EntriesOf(judge: Judge, slots: seq<Slot>): (entries: seq<Entry>)
    requires forall i :: 0 <= i < |slots| ==> IsKept(judge, slots[i])
    ensures |entries| == |slots| && forall i :: 0 <= i < |entries| ==> entries[i] == EntryOf(judge, slots[i])
  {
    seq(|slots|, i requires 0 <= i < |slots| => EntryOf(judge, slots[i]))
  }

  function RunFiles(write: Writer, entries: seq<Entry>): Directory {
    if entries == [] then map[] else RunFiles(write, entries[..|entries| - 1]) + FilesOf(write, entries[|entries| - 1])
  }

  function RunReceipts(env: Env, write: Writer, entries: seq<Entry>): (r: seq<Value>)
    ensures |r| == |entries| && forall i :: 0 <= i < |r| ==> r[i] == ReceiptOf(env, write, entries[i])
  {
    seq(|entries|, i requires 0 <= i < |entries| => ReceiptOf(env, write, entries[i]))
  }

  /** The directory a run over these entries leaves behind. */
  function Evidence(env: Env, write: Writer, before: Directory, entries: seq<Entry>): Directory {
    (before + RunFiles(write, entries))[RECEIPTS := File(write(List(RunReceipts(env, write, entries))))]
  }

  /** The directory while the run is under way: untouched until the first case is receipted. */
  function Left(env: Env, write: Writer, before: Directory, entries: seq<Entry>): Directory {
    if entries == [] then before else Evidence(env, write, before, entries)
  }

  /** The driver's calls, one case after another; the first that raises ends the run. */
  method RunCases(lane: Lane, slots: seq<Slot>) returns (completed: bool)
    requires slots != [] && lane.receipts == []
    modifies lane
    ensures completed <==> forall i :: 0 <= i < |slots| ==> IsKept(lane.env.judge, slots[i])
    ensures completed ==> lane.out == Evidence(lane.env, lane.write, old(lane.out), EntriesOf(lane.env.judge, slots))
  {
    ghost var entries: seq<Entry> := [];
    for i := 0 to |slots|
      invariant forall j :: 0 <= j < i ==> IsKept(lane.env.judge, slots[j])
      invariant entries == EntriesOf(lane.env.judge, slots[..i])
      invariant lane.receipts == RunReceipts(lane.env, lane.write, entries)
      invariant lane.out == Left(lane.env, lane.write, old(lane.out), entries)
    {
      var kept := lane.Call(slots[i]);
      if !kept {
        return false;
      }
      LeftSnoc(lane.env, lane.write, old(lane.out), entries, EntryOf(lane.env.judge, slots[i]));
      entries := entries + [EntryOf(lane.env.judge, slots[i])];
      EntriesSnoc(lane.env.judge, slots, i);
    }
    assert slots[..|slots|] == slots;
    return true;
  }

  lemma EntriesSnoc(judge: Judge, slots: seq<Slot>, i: nat)
    requires i < |slots| && forall j :: 0 <= j <= i ==> IsKept(judge, slots[j])
    ensures EntriesOf(judge, slots[..i + 1]) == EntriesOf(judge, slots[..i]) + [EntryOf(judge, slots[i])]
  {}

  lemma WriteTwice(before: Directory, files: Directory, more: Directory, key: string, first: Node, second: Node)
    ensures ((before + files)[key := first] + more)[key := second] == (before + (files + more))[key := second]
  {}

  lemma LeftSnoc(env: Env, write: Writer, before: Directory, entries: seq<Entry>, e: Entry)
    ensures RunReceipts(env, write, entries + [e]) == RunReceipts(env, write, entries) + [ReceiptOf(env, write, e)]
    ensures Left(env, write, before, entries + [e])
            == (Left(env, write, before, entries) + FilesOf(write, e))
                 [RECEIPTS := File(write(List(RunReceipts(env, write, entries + [e]))))]
  {
    assert (entries + [e])[..|entries|] == entries;
    var files, more := RunFiles(write, entries), FilesOf(write, e);
    var receipts := File(write(List(RunReceipts(env, write, entries + [e]))));
    assert RunFiles(write, entries + [e]) == files + more;
    if entries == [] {
      assert files + more == more;
    } else {
      WriteTwice(before, files, more, RECEIPTS, File(write(List(RunReceipts(env, write, entries)))), receipts);
    }
  }

  /** Names that neither equal nor stand for each other's discarded window share no file. */
  lemma NoSharedFile(x: Entry, y: Entry, file: string)
    requires x.name != y.name && x.name != DiscardedName(y.name) && y.name != DiscardedName(x.name)
    requires ReceiptedAt(x, file)
    ensures !ReceiptedAt(y, file)
  {
    var xs, ys := [x.name, DiscardedName(x.name)], [y.name, DiscardedName(y.name)];
    WindowFilesDiffer(x.name, y.name);
    forall i, j | 0 <= i < 2 && 0 <= j < 2
      ensures ObservationFile(xs[i]) != ObservationFile(ys[j]) && WireFile(xs[i]) != WireFile(ys[j])
      ensures ObservationFile(xs[i]) != WireFile(ys[j]) && WireFile(xs[i]) != ObservationFile(ys[j])
    {
      WindowFilesDiffer(xs[i], ys[j]);
      WindowFilesDiffer(ys[j], xs[i]);
    }
    assert xs[0] == x.name && xs[1] == DiscardedName(x.name) && ys[0] == y.name && ys[1] == DiscardedName(y.name);
  }

  lemma FilesOfKeys(write: Writer, e: Entry, file: string)
    ensures file in FilesOf(write, e) <==> ReceiptedAt(e, file)
  {}

  lemma {:induction false} RunFilesAreReceipted(write: Writer, entries: seq<Entry>)
    ensures RunFiles(write, entries).Keys == Receipted(entries)
  {
    if entries != [] {
      RunFilesAreReceipted(write, entries[..|entries| - 1]);
      var last := entries[|entries| - 1];
      assert FilesOf(write, last).Keys == {ObservationFile(last.name), WireFile(last.name)}
        + if last.discarded.Some? then {ObservationFile(DiscardedName(last.name)), WireFile(DiscardedName(last.name))} else {};
    }
  }

  /** The entries of a run are its cases, in order. */
  ghost predicate OfCases(entries: seq<Entry>, pages: nat) {
    && 1 <= pages <= MAX_CONTINUATIONS && |entries| <= pages + 6
    && forall i :: 0 <= i < |entries| ==> entries[i].name == Cases(pages)[i]
  }

  lemma CasesShareNoFile(entries: seq<Entry>, pages: nat, i: nat, j: nat, file: string)
    requires OfCases(entries, pages) && i < j < |entries| && ReceiptedAt(entries[i], file)
    ensures !ReceiptedAt(entries[j], file)
  {
    CasesDiffer(pages, i, j);
    NoCaseIsDiscarded(pages, i, entries[j].name);
    NoCaseIsDiscarded(pages, j, entries[i].name);
    NoSharedFile(entries[i], entries[j], file);
  }

  lemma RunFilesStep(write: Writer, entries: seq<Entry>, file: string)
    requires entries != []
    ensures var shorter, last := RunFiles(write, entries[..|entries| - 1]), FilesOf(write, entries[|entries| - 1]);
            && (file in last ==> file in RunFiles(write, entries) && RunFiles(write, entries)[file] == last[file])
            && (file in shorter && file !in last ==>
                  file in RunFiles(write, entries) && RunFiles(write, entries)[file] == shorter[file])
  {}

  /** A file that no later entry has stays as its entry left it. */
  lemma {:induction false} LaterEntriesKeep(write: Writer, entries: seq<Entry>, i: nat, file: string)
    requires i < |entries| && file in FilesOf(write, entries[i])
    requires forall j :: i < j < |entries| ==> file !in FilesOf(write, entries[j])
    ensures file in RunFiles(write, entries) && RunFiles(write, entries)[file] == FilesOf(write, entries[i])[file]
  {
    var last := |entries| - 1;
    RunFilesStep(write, entries, file);
    if i < last {
      LaterEntriesKeep(write, entries[..last], i, file);
    }
  }

  lemma FilesAreKept(write: Writer, entries: seq<Entry>, pages: nat, i: nat, file: string)
    requires OfCases(entries, pages) && i < |entries| && ReceiptedAt(entries[i], file)
    ensures file in RunFiles(write, entries) && file in FilesOf(write, entries[i])
    ensures RunFiles(write, entries)[file] == FilesOf(write, entries[i])[file]
  {
    FilesOfKeys(write, entries[i], file);
    forall j | i < j < |entries|
      ensures file !in FilesOf(write, entries[j])
    {
      CasesShareNoFile(entries, pages, i, j, file);
      FilesOfKeys(write, entries[j], file);
    }
    LaterEntriesKeep(write, entries, i, file);
  }

  lemma ReceiptsAreNoWindow()
    ensures !IsWindowFile(RECEIPTS)
  {
    assert RECEIPTS[|RECEIPTS| - 6] == 's' && OBSERVATION[|OBSERVATION| - 6] == 'n' && WIRE[|WIRE| - 6] == 'e';
    assert RECEIPTS[|RECEIPTS| - |OBSERVATION|..][|OBSERVATION| - 6] == 's';
    assert RECEIPTS[|RECEIPTS| - |WIRE|..][|WIRE| - 6] == 's';
  }

  /** A saved file is present under the digest its receipt records. */
  lemma SavedIsPresent(env: Env, write: Writer, before: Directory, entries: seq<Entry>, pages: nat, i: nat, file: string, content: Value)
    requires OfCases(entries, pages) && i < |entries| && ReceiptedAt(entries[i], file) && ReadsBack(env, write, content)
    requires file in FilesOf(write, entries[i]) && FilesOf(write, entries[i])[file] == File(write(content))
    ensures Present(env, Evidence(env, write, before, entries), file, Sha(env, write, content), content)
  {
    FilesAreKept(write, entries, pages, i, file);
    ReceiptsAreNoWindow();
    ReceiptedIsWindow(entries[i], file);
    assert Evidence(env, write, before, entries)[file] == RunFiles(write, entries)[file];
  }

  /** An entry whose kept window verifies strictly and whose discarded one is retryable as recorded. */
  ghost predicate SoundEntry(env: Env, e: Entry) {
    && CaseExpectation(e.name).Some?
    && env.judge(e.wire, e.observation, false, CaseExpectation(e.name).value) == Verifies
    && (e.discarded.Some? ==> DiscardRetryable(env, e.name, e.discarded.value))
  }

  lemma KeptEntryIsSound(env: Env, slot: Slot)
    requires SoundJudge(env.judge) && IsKept(env.judge, slot)
    ensures SoundEntry(env, EntryOf(env.judge, slot))
  {
    OnlineModesAgree(env.judge);
    KeptIffCleanOnceOrAfterDiscard(OnlineCheck(env.judge), slot.name, slot.first, slot.second);
  }

  lemma OnlineModesAgree(judge: Judge)
    requires SoundJudge(judge)
    ensures ModesAgree(OnlineCheck(judge))
  {
    var check := OnlineCheck(judge);
    forall name, wire, observation
      ensures AgreesAt(check(name, wire, observation, true), check(name, wire, observation, false))
    {
      if CaseExpectation(name).Some? {
        var e := CaseExpectation(name).value;
        assert SoundAt(observation, judge(wire, observation, true, e), judge(wire, observation, false, e));
      }
    }
  }

  lemma ReceiptFields(env: Env, write: Writer, e: Entry)
    ensures var r := ReceiptOf(env, write, e);
            && WellFormed(r) && r.Get("case") == Str(e.name) && r.Get("wire") == e.wire
            && r.Get("success") == Bool(CaseExpectation(e.name).Some? && CaseExpectation(e.name).value.success)
            && r.Get("observation_sha256") == Sha(env, write, e.observation) && r.Get("wire_sha256") == Sha(env, write, e.wire)
            && match e.discarded
               case None => r.Get("discarded_window") == Null && r.Get("discarded_sha256") == Null
               case Some(d) =>
                 && r.Get("discarded_window") == d.diagnostic
                 && r.Get("discarded_sha256")
                    == Dict(map["observation_sha256" := Sha(env, write, d.observation), "wire_sha256" := Sha(env, write, d.wire)])
  {}

  /** The window saved under this name is present under its recorded digests. */
  ghost predicate BothPresent(env: Env, write: Writer, dir: Directory, name: string, observation: Value, wire: Value) {
    && Present(env, dir, ObservationFile(name), Sha(env, write, observation), observation)
    && Present(env, dir, WireFile(name), Sha(env, write, wire), wire)
  }

  lemma ReceiptMatches(env: Env, write: Writer, dir: Directory, e: Entry)
    requires SoundEntry(env, e) && BothPresent(env, write, dir, e.name, e.observation, e.wire)
    requires e.discarded.Some? ==>
               BothPresent(env, write, dir, DiscardedName(e.name), e.discarded.value.observation, e.discarded.value.wire)
    ensures AsReceipted(env, dir, ReceiptOf(env, write, e), e)
  {
    ReceiptFields(env, write, e);
    assert KeptAsReceipted(env, dir, ReceiptOf(env, write, e), e);
    if e.discarded.Some? {
      DiscardMatches(env, write, dir, ReceiptOf(env, write, e), e.name, e.discarded.value);
    }
  }

  lemma DiscardMatches(env: Env, write: Writer, dir: Directory, receipt: Value, name: string, d: Discarded)
    requires WellFormed(receipt) && DiscardRetryable(env, name, d)
    requires receipt.Get("discarded_window") == d.diagnostic
    requires receipt.Get("discarded_sha256")
             == Dict(map["observation_sha256" := Sha(env, write, d.observation), "wire_sha256" := Sha(env, write, d.wire)])
    requires BothPresent(env, write, dir, DiscardedName(name), d.observation, d.wire)
    ensures DiscardPresent(env, dir, receipt, name, d)
  {}

  lemma EntryIsAsReceipted(env: Env, write: Writer, before: Directory, entries: seq<Entry>, pages: nat, i: nat)
    requires OfCases(entries, pages) && i < |entries| && RoundTrips(env, write, entries) && SoundEntry(env, entries[i])
    ensures AsReceipted(env, Evidence(env, write, before, entries), ReceiptOf(env, write, entries[i]), entries[i])
  {
    var e := entries[i];
    var dir := Evidence(env, write, before, entries);
    SavedUnderBothNames(write, e);
    SavedIsPresent(env, write, before, entries, pages, i, ObservationFile(e.name), e.observation);
    SavedIsPresent(env, write, before, entries, pages, i, WireFile(e.name), e.wire);
    if e.discarded.Some? {
      var d := e.discarded.value;
      SavedIsPresent(env, write, before, entries, pages, i, ObservationFile(DiscardedName(e.name)), d.observation);
      SavedIsPresent(env, write, before, entries, pages, i, WireFile(DiscardedName(e.name)), d.wire);
    }
    ReceiptMatches(env, write, dir, e);
  }

  lemma SavedUnderBothNames(write: Writer, e: Entry)
    ensures WindowFiles(write, e.name, e.observation, e.wire).Items <= FilesOf(write, e).Items
    ensures e.discarded.Some? ==>
              WindowFiles(write, DiscardedName(e.name), e.discarded.value.observation, e.discarded.value.wire).Items
              <= FilesOf(write, e).Items
  {
    DiscardedFilesDiffer(e.name);
  }

  lemma EvidenceHoldsItsReceipts(env: Env, write: Writer, before: Directory, entries: seq<Entry>)
    requires RoundTrips(env, write, entries)
    ensures ReadReceipts(env, Evidence(env, write, before, entries)) == Ok(RunReceipts(env, write, entries))
  {
    var receipts := RunReceipts(env, write, entries);
    assert env.parse(write(List(receipts))) == Some(List(receipts));
    assert forall i :: 0 <= i < |receipts| ==> receipts[i].Dict?;
  }

  lemma ReceiptsAreInOrder(env: Env, write: Writer, entries: seq<Entry>, pages: nat)
    requires OfCases(entries, pages) && |entries| == pages + 6
    ensures InOrder(RunReceipts(env, write, entries), entries)
  {
    forall i | 0 <= i < |entries|
      ensures CaseOf(RunReceipts(env, write, entries)[i]) == Str(Cases(pages)[i])
    {
      ReceiptFields(env, write, entries[i]);
    }
  }

  lemma ReceiptedIsWindow(e: Entry, file: string)
    requires ReceiptedAt(e, file)
    ensures IsWindowFile(file)
  {
    SuffixRemains(e.name, OBSERVATION);
    SuffixRemains(e.name, WIRE);
    SuffixRemains(DiscardedName(e.name), OBSERVATION);
    SuffixRemains(DiscardedName(e.name), WIRE);
  }

  lemma EvidenceHoldsOnlyReceipted(env: Env, write: Writer, before: Directory, entries: seq<Entry>)
    requires Retained(before) == {}
    ensures HoldsExactly(Evidence(env, write, before, entries), entries)
  {
    ReceiptsAreNoWindow();
    RunFilesAreReceipted(write, entries);
    forall file
      ensures file in Evidence(env, write, before, entries) && IsWindowFile(file) <==> AccountedFor(entries, file)
    {
      ReceiptedIff(entries, file);
      assert file in before ==> file in Retained(before) || !IsWindowFile(file);
      if i :| 0 <= i < |entries| && ReceiptedAt(entries[i], file) {
        ReceiptedIsWindow(entries[i], file);
      }
    }
  }

  lemma RunIsAsReceipted(env: Env, write: Writer, before: Directory, entries: seq<Entry>, pages: nat)
    requires RoundTrips(env, write, entries) && OfCases(entries, pages)
    requires forall i :: 0 <= i < |entries| ==> SoundEntry(env, entries[i])
    ensures AllAsReceipted(env, Evidence(env, write, before, entries), RunReceipts(env, write, entries), entries)
  {
    forall i | 0 <= i < |entries|
      ensures AsReceipted(env, Evidence(env, write, before, entries), RunReceipts(env, write, entries)[i], entries[i])
    {
      EntryIsAsReceipted(env, write, before, entries, pages, i);
    }
  }

  lemma RunIsComplete(env: Env, write: Writer, before: Directory, entries: seq<Entry>, pages: nat)
    requires RoundTrips(env, write, entries) && Retained(before) == {}
    requires OfCases(entries, pages) && |entries| == pages + 6 && OwnIntervals(entries)
    requires forall i :: 0 <= i < |entries| ==> SoundEntry(env, entries[i])
    ensures Complete(env, Evidence(env, write, before, entries), entries)
  {
    EvidenceHoldsItsReceipts(env, write, before, entries);
    ReceiptsAreInOrder(env, write, entries, pages);
    EvidenceHoldsOnlyReceipted(env, write, before, entries);
    RunIsAsReceipted(env, write, before, entries, pages);
    CompleteFrom(env, Evidence(env, write, before, entries), RunReceipts(env, write, entries), entries);
  }

  /** The case of this name was rerun. */
  ghost predicate WasRerun(judge: Judge, slots: seq<Slot>, name: string) {
    exists i :: 0 <= i < |slots| && slots[i].name == name && AttemptAt(OnlineCheck(judge), slots[i]).runs == 2
  }

  lemma RerunIffDiscarded(judge: Judge, slots: seq<Slot>, name: string)
    requires forall i :: 0 <= i < |slots| ==> IsKept(judge, slots[i])
    ensures var entries := EntriesOf(judge, slots);
            WasRerun(judge, slots, name)
            <==> DiscardedIn(entries, name)
  {
    var entries := EntriesOf(judge, slots);
    if i :| 0 <= i < |entries| && entries[i].discarded.Some? && entries[i].name == name {
      assert slots[i].name == name && AttemptAt(OnlineCheck(judge), slots[i]).runs == 2;
    }
    if i :| 0 <= i < |slots| && slots[i].name == name && AttemptAt(OnlineCheck(judge), slots[i]).runs == 2 {
      assert entries[i].discarded.Some? && entries[i].name == name;
    }
  }

  /** A completed run over all cases, every window of it from an interval of its own. */
  ghost predicate CompletedRun(judge: Judge, slots: seq<Slot>, pages: nat) {
    && (forall i :: 0 <= i < |slots| ==> IsKept(judge, slots[i]))
    && |slots| == pages + 6 && OfCases(EntriesOf(judge, slots), pages) && OwnIntervals(EntriesOf(judge, slots))
  }

  /**
   Online and offline agree: a completed run over the cases, each window from an interval of its own, leaves
   evidence that the replay accepts, and the replay reports exactly the cases that were rerun.
   */
  lemma CompletedRunIsAccepted(env: Env, write: Writer, before: Directory, slots: seq<Slot>, pages: nat)
    requires SoundJudge(env.judge) && Retained(before) == {} && CompletedRun(env.judge, slots, pages)
    requires RoundTrips(env, write, EntriesOf(env.judge, slots))
    ensures var r := ReplayedDirectory(env, Evidence(env, write, before, EntriesOf(env.judge, slots)));
            r.Ok? && forall name :: name in r.value <==> WasRerun(env.judge, slots, name)
  {
    var entries := EntriesOf(env.judge, slots);
    forall i | 0 <= i < |entries|
      ensures SoundEntry(env, entries[i])
    {
      KeptEntryIsSound(env, slots[i]);
    }
    RunIsComplete(env, write, before, entries, pages);
    CompleteIsAccepted(env, Evidence(env, write, before, entries), entries);
    forall name
      ensures WasRerun(env.judge, slots, name) <==> DiscardedIn(entries, name)
    {
      RerunIffDiscarded(env.judge, slots, name);
    }
  }
}
