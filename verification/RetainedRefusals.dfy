/**
 Why the replay of an evidence directory refuses: the checks of the receipts, of each kept
 and each discarded window and of the whole, in their order, and the reason each one gives.
 */
module RetainedRefusals {
  import opened Support
  import opened Values
  import opened RetryOnce
  import opened CaseWindows
  import opened CaseNames
  import opened RetainedWindows

  /** A file is loaded when it is there with that digest and can be parsed; otherwise the first of these is the reason. */
  lemma LoadIs(env: Env, dir: Directory, name: string, sha256: Value)
    ensures var loaded := LoadRetained(env, dir, name, sha256);
            var there := sha256.Str? && name in dir && dir[name].File?;
            && (!there ==> loaded == Bad(WindowMissing))
            && (there && env.digest(dir[name].bytes) != sha256.s ==> loaded == Bad(WindowAltered))
            && (there && env.digest(dir[name].bytes) == sha256.s ==>
                  loaded == (match env.parse(dir[name].bytes) case None => Bad(Unusable) case Some(content) => Ok(content)))
  {}

  /** An interval can be collected unless it is missing or is a list or mapping. */
  lemma IntervalIs(observation: Value)
    ensures var id := Part(observation, "interval_id");
            if observation.Dict? && "interval_id" in observation.fields && !id.List? && !id.Dict?
            then IntervalOf(observation) == Ok(id) else IntervalOf(observation) == Bad(Unusable)
  {}

  /** What a load gave, or nothing. */
  ghost function Content(loaded: Outcome<Value>): Value {
    if loaded.Ok? then loaded.value else Null
  }

  ghost function ReasonOf<T>(outcome: Outcome<T>): Reason {
    if outcome.Bad? then outcome.reason else Unusable
  }

  ghost predicate Has(receipt: Value, name: string) {
    receipt.Dict? && name in receipt.fields
  }

  ghost function KeptObservation(env: Env, dir: Directory, receipt: Value, name: string): Outcome<Value> {
    LoadRetained(env, dir, name + "-observation.json", Part(receipt, "observation_sha256"))
  }

  ghost function KeptWire(env: Env, dir: Directory, receipt: Value, name: string): Outcome<Value> {
    LoadRetained(env, dir, name + "-wire.json", Part(receipt, "wire_sha256"))
  }

  ghost function Verdict(env: Env, dir: Directory, receipt: Value, name: string): CaseVerdict
    requires CaseExpectation(name).Some?
  {
    env.judge(Content(KeptWire(env, dir, receipt, name)), Content(KeptObservation(env, dir, receipt, name)), false,
              CaseExpectation(name).value)
  }

  /** The checks of a kept window, and what each is refused for. */
  ghost predicate KeptStep(k: nat, env: Env, dir: Directory, receipt: Value, name: string) {
    match k
    case 0 => CaseExpectation(name).Some?
    case 1 => Has(receipt, "success")
    case 2 => CaseExpectation(name).Some? && Part(receipt, "success") == Bool(CaseExpectation(name).value.success)
    case 3 => Has(receipt, "observation_sha256")
    case 4 => KeptObservation(env, dir, receipt, name).Ok?
    case 5 => Has(receipt, "wire_sha256")
    case 6 => KeptWire(env, dir, receipt, name).Ok?
    case 7 => Has(receipt, "wire")
    case 8 => Part(receipt, "wire") == Content(KeptWire(env, dir, receipt, name))
    case 9 => CaseExpectation(name).Some? && Verdict(env, dir, receipt, name) != Broken
    case 10 => CaseExpectation(name).Some? && Verdict(env, dir, receipt, name) == Verifies
    case 11 => IntervalOf(Content(KeptObservation(env, dir, receipt, name))).Ok?
    case _ => true
  }

  ghost function KeptReason(k: nat, env: Env, dir: Directory, receipt: Value, name: string): Reason {
    match k
    case 0 => UnknownCase
    case 2 => OutcomeMismatch
    case 4 => ReasonOf(KeptObservation(env, dir, receipt, name))
    case 6 => ReasonOf(KeptWire(env, dir, receipt, name))
    case 8 => WireMismatch
    case 10 => KeptRefused
    case _ => Unusable
  }

  ghost predicate KeptFailsAt(k: nat, env: Env, dir: Directory, receipt: Value, name: string) {
    k < 12 && !KeptStep(k, env, dir, receipt, name) && forall j: nat :: j < k ==> KeptStep(j, env, dir, receipt, name)
  }

  /** A kept window is refused for the first step that does not hold, and read when there is none. */
  lemma KeptIs(env: Env, dir: Directory, receipt: Value, name: string, k: nat)
    ensures KeptFailsAt(k, env, dir, receipt, name) ==>
              ReadKept(env, dir, receipt, name) == Bad(KeptReason(k, env, dir, receipt, name))
    ensures (forall j: nat :: !KeptFailsAt(j, env, dir, receipt, name)) ==>
              ReadKept(env, dir, receipt, name)
              == Ok((Content(KeptObservation(env, dir, receipt, name)), Content(KeptWire(env, dir, receipt, name))))
  {
    if KeptFailsAt(k, env, dir, receipt, name) {
      StepsBefore(k, env, dir, receipt, name);
    }
    if forall j: nat :: !KeptFailsAt(j, env, dir, receipt, name) {
      AllStepsHold(env, dir, receipt, name, 12);
      StepsBefore(12, env, dir, receipt, name);
    }
  }

  lemma {:induction false} AllStepsHold(env: Env, dir: Directory, receipt: Value, name: string, n: nat)
    requires n <= 12 && forall j: nat :: !KeptFailsAt(j, env, dir, receipt, name)
    ensures forall j: nat :: j < n ==> KeptStep(j, env, dir, receipt, name)
  {
    if n > 0 {
      AllStepsHold(env, dir, receipt, name, n - 1);
      assert !KeptFailsAt(n - 1, env, dir, receipt, name);
    }
  }

  lemma StepsBefore(k: nat, env: Env, dir: Directory, receipt: Value, name: string)
    requires k <= 12 && forall j: nat :: j < k ==> KeptStep(j, env, dir, receipt, name)
    ensures k > 0 ==> KeptStep(0, env, dir, receipt, name)
    ensures k > 1 ==> KeptStep(1, env, dir, receipt, name)
    ensures k > 2 ==> KeptStep(2, env, dir, receipt, name)
    ensures k > 3 ==> KeptStep(3, env, dir, receipt, name)
    ensures k > 4 ==> KeptStep(4, env, dir, receipt, name)
    ensures k > 5 ==> KeptStep(5, env, dir, receipt, name)
    ensures k > 6 ==> KeptStep(6, env, dir, receipt, name)
    ensures k > 7 ==> KeptStep(7, env, dir, receipt, name)
    ensures k > 8 ==> KeptStep(8, env, dir, receipt, name)
    ensures k > 9 ==> KeptStep(9, env, dir, receipt, name)
    ensures k > 10 ==> KeptStep(10, env, dir, receipt, name)
    ensures k > 11 ==> KeptStep(11, env, dir, receipt, name)
  {}

  ghost function OldObservation(env: Env, dir: Directory, receipt: Value, name: string): Outcome<Value> {
    LoadRetained(env, dir, name + "-discarded-observation.json", Part(Part(receipt, "discarded_sha256"), "observation_sha256"))
  }

  ghost function OldWire(env: Env, dir: Directory, receipt: Value, name: string): Outcome<Value> {
    LoadRetained(env, dir, name + "-discarded-wire.json", Part(Part(receipt, "discarded_sha256"), "wire_sha256"))
  }

  ghost predicate DeclaresDigests(hashes: Value) {
    hashes.Dict? && hashes.fields.Keys == {"observation_sha256", "wire_sha256"}
  }

  lemma DiscardedFileNames(name: string)
    ensures ObservationFile(DiscardedName(name)) == name + "-discarded-observation.json"
    ensures WireFile(DiscardedName(name)) == name + "-discarded-wire.json"
  {
    assert name + "-discarded" + "-observation.json" == name + ("-discarded" + "-observation.json");
    assert name + "-discarded" + "-wire.json" == name + ("-discarded" + "-wire.json");
    assert "-discarded" + "-observation.json" == "-discarded-observation.json";
    assert "-discarded" + "-wire.json" == "-discarded-wire.json";
  }

  /** A discarded window: undeclared ones leave nothing behind, declared ones are there with their digests. */
  lemma DiscardedIs(env: Env, dir: Directory, receipt: Value, name: string)
    ensures var read := ReadDiscarded(env, dir, receipt, name);
            var hashes := Part(receipt, "discarded_sha256");
            var before, wire := OldObservation(env, dir, receipt, name), OldWire(env, dir, receipt, name);
            if !Has(receipt, "discarded_window") || !Has(receipt, "discarded_sha256") then read == Bad(Unusable)
            else if Part(receipt, "discarded_window") == Null then
              read == if hashes == Null && name + "-discarded-observation.json" !in dir && name + "-discarded-wire.json" !in dir
                      then Ok(None) else Bad(UndeclaredDiscard)
            else
              && (!DeclaresDigests(hashes) ==> read == Bad(DigestsMissing))
              && (DeclaresDigests(hashes) && before.Bad? ==> read == Bad(before.reason))
              && (DeclaresDigests(hashes) && before.Ok? && wire.Bad? ==> read == Bad(wire.reason))
              && (DeclaresDigests(hashes) && before.Ok? && wire.Ok? ==>
                    read == if IntervalOf(before.value).Ok? then Ok(Some(Discarded(before.value, wire.value, Part(receipt, "discarded_window"))))
                            else Bad(Unusable))
  {
    DiscardedFileNames(name);
  }

  /** One receipt: its case is named, then its kept window is checked, then its discarded one. */
  lemma EntryIs(env: Env, dir: Directory, receipt: Value)
    ensures var read := ReadEntry(env, dir, receipt);
            var named := Part(receipt, "case");
            && (!Has(receipt, "case") ==> read == Bad(Unusable))
            && (Has(receipt, "case") && !named.Str? ==> read == Bad(UnknownCase))
            && (Has(receipt, "case") && named.Str? ==>
                  var kept, discarded := ReadKept(env, dir, receipt, named.s), ReadDiscarded(env, dir, receipt, named.s);
                  && (kept.Bad? ==> read == Bad(kept.reason))
                  && (kept.Ok? && discarded.Bad? ==> read == Bad(discarded.reason))
                  && (kept.Ok? && discarded.Ok? ==> read == Ok(Entry(named.s, kept.value.0, kept.value.1, discarded.value))))
  {}

  /** The receipts themselves: a readable file that holds a list of mappings. */
  lemma ReceiptsAre(env: Env, dir: Directory)
    ensures var read := ReadReceipts(env, dir);
            var there := "case-receipts.json" in dir && dir["case-receipts.json"].File?;
            && (!there ==> read == Bad(Unusable))
            && (there ==>
                  match env.parse(dir["case-receipts.json"].bytes)
                  case None => read == Bad(Unusable)
                  case Some(value) =>
                    if value.List? && (forall item :: item in value.items ==> item.Dict?) then read == Ok(value.items)
                    else read == Bad(ReceiptsMalformed))
  {
    if "case-receipts.json" in dir && dir["case-receipts.json"].File? {
      var parsed := env.parse(dir["case-receipts.json"].bytes);
      if parsed.Some? && parsed.value.List? {
        assert forall i :: 0 <= i < |parsed.value.items| ==> parsed.value.items[i] in parsed.value.items;
      }
    }
  }

  /** Exactly the sequences of cases that are accepted: the first case, one to twenty pages, and the refusals. */
  lemma SequenceIs(receipts: seq<Value>)
    ensures InSequence(receipts)
            <==> && 7 <= |receipts| <= 26
                 && (forall i :: 0 <= i < |receipts| ==>
                       receipts[i].Dict? && receipts[i].Get("case") == Str(Cases(|receipts| - 6)[i]))
  {}

  /** The window files are exactly the receipted ones. */
  ghost predicate ExactFiles(dir: Directory, entries: seq<Entry>) {
    forall file :: file in Receipted(entries)
      <==> file in dir && (EndsWith(file, "-observation.json") || EndsWith(file, "-wire.json"))
  }

  lemma ExactIff(dir: Directory, entries: seq<Entry>)
    ensures Retained(dir) == Receipted(entries) <==> ExactFiles(dir, entries)
  {
    assert forall file :: file in Retained(dir) <==> file in dir && IsWindowFile(file);
  }

  /** The intervals are texts, and as many as the windows. */
  ghost predicate DistinctIntervals(intervals: seq<Value>, windows: nat) {
    |(set id | id in intervals)| == windows && forall id :: id in intervals ==> id.Str?
  }

  lemma DistinctIff(intervals: seq<Value>, windows: nat)
    ensures |Members(intervals)| == windows && (forall id :: id in Members(intervals) ==> id.Str?)
            <==> DistinctIntervals(intervals, windows)
  {
    assert (set id | id in intervals) == Members(intervals);
  }

  /** The checks of the whole, in their order: distinct intervals, exactly the receipted files, the discarded windows. */
  lemma ConclusionIs(env: Env, dir: Directory, kept: nat, entries: seq<Entry>)
    ensures var concluded := Concluded(env, dir, kept, entries);
            var distinct := DistinctIntervals(IntervalsOf(entries), kept + |ItemsOf(entries)|);
            && (!distinct ==> concluded == Bad(IntervalReused))
            && (distinct && !ExactFiles(dir, entries) ==> concluded == Bad(UnreceiptedWindow))
            && (distinct && ExactFiles(dir, entries) ==>
                  match ReplayOf(env, entries)
                  case Accepted(cases) => concluded == Ok(cases)
                  case Rejected(_) => concluded == Bad(DiscardRefused))
  {
    DistinctIff(IntervalsOf(entries), kept + |ItemsOf(entries)|);
    ExactIff(dir, entries);
  }

  /** The whole replay: receipts, their sequence, every entry in turn, and the whole. */
  lemma ReplayIs(env: Env, dir: Directory)
    ensures var replayed := ReplayedDirectory(env, dir);
            var receipts := ReadReceipts(env, dir);
            && (receipts.Bad? ==> replayed == Bad(receipts.reason))
            && (receipts.Ok? && !InSequence(receipts.value) ==> replayed == Bad(SequenceMismatch))
            && (receipts.Ok? && InSequence(receipts.value) ==>
                  match ReadAll(ReaderOf(env, dir), receipts.value)
                  case Bad(reason) => replayed == Bad(reason)
                  case Ok(entries) => replayed == Concluded(env, dir, |receipts.value|, entries))
  {}

  lemma {:induction false} ReadInOrder(read: Value -> Outcome<Entry>, receipts: seq<Value>) returns (i: nat)
    ensures match ReadAll(read, receipts)
            case Ok(entries) => |entries| == |receipts| && forall k :: 0 <= k < |receipts| ==> read(receipts[k]) == Ok(entries[k])
            case Bad(reason) =>
              i < |receipts| && read(receipts[i]) == Bad(reason) && forall k :: 0 <= k < i ==> read(receipts[k]).Ok?
  {
    i := 0;
    if receipts != [] {
      var n := |receipts| - 1;
      i := ReadInOrder(read, receipts[..n]);
      assert forall k :: 0 <= k < n ==> receipts[..n][k] == receipts[k];
      if ReadAll(read, receipts[..n]).Ok? {
        i := n;
      }
    }
  }

  /** Entries are read in order, and the first that cannot be gives its reason. */
  lemma EntriesAreReadInOrder(env: Env, dir: Directory, receipts: seq<Value>) returns (i: nat)
    ensures match ReadAll(ReaderOf(env, dir), receipts)
            case Ok(entries) =>
              |entries| == |receipts| && forall k :: 0 <= k < |receipts| ==> ReadEntry(env, dir, receipts[k]) == Ok(entries[k])
            case Bad(reason) =>
              && i < |receipts| && ReadEntry(env, dir, receipts[i]) == Bad(reason)
              && forall k :: 0 <= k < i ==> ReadEntry(env, dir, receipts[k]).Ok?
  {
    i := ReadInOrder(ReaderOf(env, dir), receipts);
    var read := ReaderOf(env, dir);
    assert forall k :: 0 <= k < |receipts| ==> read(receipts[k]) == ReadEntry(env, dir, receipts[k]);
  }

  /** The diagnostic that a discarded window must have been recorded with, and what offline makes of each verdict. */
  lemma OfflineIs(env: Env, wires: map<string, Value>, name: string, observation: Value, retry: bool)
    ensures var checked := ReplayAt(env, wires, name, observation, retry);
            && (CaseExpectation(name).None? || name !in wires ==> checked == Raised)
            && (CaseExpectation(name).Some? && name in wires ==>
                  match env.judge(wires[name], observation, retry, CaseExpectation(name).value)
                  case Verifies => checked == Passed(())
                  case Rerun(count) =>
                    checked == MayRerun(Dict(map["condition" := Str("retryable_delayed_save"),
                                                 "retryable_event_count" := Num(count as real)]))
                  case Refused => checked == NotPassed(Dict(map["condition" := Str("window_refused")]))
                  case Broken => checked == Raised)
  {}
}
