/**
 What it means for a dashboard run's evidence directory to be accepted: it holds exactly
 the receipted windows, each of them verified, every one from an interval of its own.
 */
module RetainedEvidence {
  import opened Support
  import opened Values
  import opened RetryOnce
  import opened CaseWindows
  import opened CaseNames
  import opened RetainedWindows

  /** The file is there, its bytes have the receipted digest, and they hold this content. */
  ghost predicate Present(env: Env, dir: Directory, file: string, sha256: Value, content: Value) {
    && sha256.Str? && file in dir && dir[file].File?
    && env.digest(dir[file].bytes) == sha256.s && env.parse(dir[file].bytes) == Some(content)
  }

  const RECEIPT_FIELDS: set<string> := {
    "case", "success", "observation_sha256", "wire_sha256", "wire", "discarded_window", "discarded_sha256" }

  ghost predicate WellFormed(receipt: Value) {
    receipt.Dict? && RECEIPT_FIELDS <= receipt.fields.Keys
  }

  /** The kept window is the receipted one and verifies strictly. */
  ghost predicate KeptAsReceipted(env: Env, dir: Directory, receipt: Value, e: Entry)
    requires WellFormed(receipt)
  {
    && CaseExpectation(e.name).Some?
    && receipt.Get("success") == Bool(CaseExpectation(e.name).value.success)
    && Present(env, dir, ObservationFile(e.name), receipt.Get("observation_sha256"), e.observation)
    && Present(env, dir, WireFile(e.name), receipt.Get("wire_sha256"), e.wire)
    && receipt.Get("wire") == e.wire
    && env.judge(e.wire, e.observation, false, CaseExpectation(e.name).value) == Verifies
  }

  /** The discarded window is the receipted one, whatever it says. */
  ghost predicate DiscardPresent(env: Env, dir: Directory, receipt: Value, name: string, d: Discarded)
    requires WellFormed(receipt)
  {
    var hashes := receipt.Get("discarded_sha256");
    && receipt.Get("discarded_window") == d.diagnostic != Null
    && hashes.Dict? && hashes.fields.Keys == DISCARD_DIGESTS
    && Present(env, dir, ObservationFile(DiscardedName(name)), hashes.Get("observation_sha256"), d.observation)
    && Present(env, dir, WireFile(DiscardedName(name)), hashes.Get("wire_sha256"), d.wire)
  }

  /** It may be rerun, for the recorded number of delayed saves. */
  ghost predicate DiscardRetryable(env: Env, name: string, d: Discarded) {
    && CaseExpectation(name).Some?
    && var verdict := env.judge(d.wire, d.observation, true, CaseExpectation(name).value);
    verdict.Rerun? && d.diagnostic == RetryDiagnostic(verdict.count)
  }

  ghost predicate AsReceipted(env: Env, dir: Directory, receipt: Value, e: Entry) {
    && WellFormed(receipt) && KeptAsReceipted(env, dir, receipt, e)
    && match e.discarded
       case None => receipt.Get("discarded_window") == Null && receipt.Get("discarded_sha256") == Null
       case Some(d) => DiscardPresent(env, dir, receipt, e.name, d) && DiscardRetryable(env, e.name, d)
  }

  /** Neither window of the entry has this identifier. */
  predicate Avoids(e: Entry, id: Value) {
    id != Part(e.observation, "interval_id") && (e.discarded.Some? ==> id != Part(e.discarded.value.observation, "interval_id"))
  }

  /** The entry's identifiers are text, and differ if there are two. */
  predicate NamesItsIntervals(e: Entry) {
    && Part(e.observation, "interval_id").Str?
    && (e.discarded.Some? ==>
          var other := Part(e.discarded.value.observation, "interval_id");
          other.Str? && other != Part(e.observation, "interval_id"))
  }

  predicate ShareNoInterval(x: Entry, y: Entry) {
    Avoids(x, Part(y.observation, "interval_id")) && (y.discarded.Some? ==> Avoids(x, Part(y.discarded.value.observation, "interval_id")))
  }

  /** Every window, kept or discarded, comes from an interval of its own. */
  ghost predicate OwnIntervals(entries: seq<Entry>) {
    && (forall i :: 0 <= i < |entries| ==> NamesItsIntervals(entries[i]))
    && forall i, j :: 0 <= i < j < |entries| ==> ShareNoInterval(entries[i], entries[j])
  }

  /** This entry accounts for the file. */
  predicate ReceiptedAt(e: Entry, file: string) {
    || file == ObservationFile(e.name) || file == WireFile(e.name)
    || (e.discarded.Some? && (file == ObservationFile(DiscardedName(e.name)) || file == WireFile(DiscardedName(e.name))))
  }

  ghost predicate AccountedFor(entries: seq<Entry>, file: string) {
    exists i :: 0 <= i < |entries| && ReceiptedAt(entries[i], file)
  }

  /** The window files that lie in the directory are exactly those of the entries. */
  ghost predicate HoldsExactly(dir: Directory, entries: seq<Entry>) {
    forall file :: file in dir && IsWindowFile(file) <==> AccountedFor(entries, file)
  }

  /** The entries are those of the cases the receipts name, in order. */
  ghost predicate InOrder(receipts: seq<Value>, entries: seq<Entry>) {
    && InSequence(receipts) && |entries| == |receipts|
    && forall i :: 0 <= i < |entries| ==> entries[i].name == Cases(|receipts| - 6)[i]
  }

  ghost predicate AllAsReceipted(env: Env, dir: Directory, receipts: seq<Value>, entries: seq<Entry>) {
    |entries| == |receipts| && forall i :: 0 <= i < |entries| ==> AsReceipted(env, dir, receipts[i], entries[i])
  }

  /** The evidence is complete: what the receipts say lies there, verified, and no other window. */
  ghost predicate Complete(env: Env, dir: Directory, entries: seq<Entry>) {
    && ReadReceipts(env, dir).Ok?
    && var receipts := ReadReceipts(env, dir).value;
    && InOrder(receipts, entries) && AllAsReceipted(env, dir, receipts, entries)
    && OwnIntervals(entries)
    && HoldsExactly(dir, entries)
  }

  // ----- One receipt -----

  lemma LoadedIffPresent(env: Env, dir: Directory, file: string, sha256: Value, content: Value)
    ensures LoadRetained(env, dir, file, sha256) == Ok(content) <==> Present(env, dir, file, sha256, content)
  {}

  lemma KeptIff(env: Env, dir: Directory, receipt: Value, e: Entry)
    requires WellFormed(receipt)
    ensures ReadKept(env, dir, receipt, e.name) == Ok((e.observation, e.wire))
            <==> KeptAsReceipted(env, dir, receipt, e) && IntervalOf(e.observation).Ok?
  {
    LoadedIffPresent(env, dir, ObservationFile(e.name), receipt.fields["observation_sha256"], e.observation);
    LoadedIffPresent(env, dir, WireFile(e.name), receipt.fields["wire_sha256"], e.wire);
  }

  ghost predicate NoDiscardFiles(dir: Directory, name: string) {
    ObservationFile(DiscardedName(name)) !in dir && WireFile(DiscardedName(name)) !in dir
  }

  lemma NoDiscardIff(env: Env, dir: Directory, receipt: Value, name: string)
    requires WellFormed(receipt)
    ensures ReadDiscarded(env, dir, receipt, name) == Ok(None)
            <==> receipt.Get("discarded_window") == Null && receipt.Get("discarded_sha256") == Null && NoDiscardFiles(dir, name)
  {}

  lemma DiscardIff(env: Env, dir: Directory, receipt: Value, name: string, d: Discarded)
    requires WellFormed(receipt)
    ensures ReadDiscarded(env, dir, receipt, name) == Ok(Some(d))
            <==> DiscardPresent(env, dir, receipt, name, d) && IntervalOf(d.observation).Ok?
  {
    var hashes := receipt.fields["discarded_sha256"];
    if hashes.Dict? && hashes.fields.Keys == DISCARD_DIGESTS {
      LoadedIffPresent(env, dir, ObservationFile(DiscardedName(name)), hashes.fields["observation_sha256"], d.observation);
      LoadedIffPresent(env, dir, WireFile(DiscardedName(name)), hashes.fields["wire_sha256"], d.wire);
    }
  }

  /** What reading a receipt establishes, before anything is known of other receipts. */
  ghost predicate Readable(env: Env, dir: Directory, receipt: Value, e: Entry) {
    && WellFormed(receipt) && receipt.Get("case") == Str(e.name)
    && KeptAsReceipted(env, dir, receipt, e) && IntervalOf(e.observation).Ok?
    && match e.discarded
       case None => receipt.Get("discarded_window") == Null && receipt.Get("discarded_sha256") == Null && NoDiscardFiles(dir, e.name)
       case Some(d) => DiscardPresent(env, dir, receipt, e.name, d) && IntervalOf(d.observation).Ok?
  }

  lemma ReadFieldsAreThere(env: Env, dir: Directory, receipt: Value)
    requires ReadEntry(env, dir, receipt).Ok?
    ensures WellFormed(receipt)
  {}

  lemma ReadIffReadable(env: Env, dir: Directory, receipt: Value, e: Entry)
    ensures ReadEntry(env, dir, receipt) == Ok(e) <==> Readable(env, dir, receipt, e)
  {
    if ReadEntry(env, dir, receipt).Ok? {
      ReadFieldsAreThere(env, dir, receipt);
    }
    if WellFormed(receipt) {
      KeptIff(env, dir, receipt, e);
      match e.discarded {
        case None => NoDiscardIff(env, dir, receipt, e.name);
        case Some(d) => DiscardIff(env, dir, receipt, e.name, d);
      }
    }
  }

  // ----- All receipts -----

  ghost predicate AllRead(env: Env, dir: Directory, receipts: seq<Value>, entries: seq<Entry>) {
    |entries| == |receipts| && forall i :: 0 <= i < |entries| ==> Readable(env, dir, receipts[i], entries[i])
  }

  lemma {:induction false} ReadAllIff(read: Value -> Outcome<Entry>, receipts: seq<Value>, entries: seq<Entry>)
    ensures ReadAll(read, receipts) == Ok(entries)
            <==> |entries| == |receipts| && forall i :: 0 <= i < |entries| ==> read(receipts[i]) == Ok(entries[i])
  {
    if receipts != [] {
      var n := |receipts| - 1;
      if ReadAll(read, receipts).Ok? {
        ReadAllIff(read, receipts[..n], ReadAll(read, receipts[..n]).value);
      }
      if |entries| == |receipts| {
        ReadAllIff(read, receipts[..n], entries[..n]);
        assert entries == entries[..n] + [entries[n]];
      }
    }
  }

  lemma ReadIffAllRead(env: Env, dir: Directory, receipts: seq<Value>, entries: seq<Entry>)
    ensures ReadAll(ReaderOf(env, dir), receipts) == Ok(entries) <==> AllRead(env, dir, receipts, entries)
  {
    var read := ReaderOf(env, dir);
    ReadAllIff(read, receipts, entries);
    if |entries| == |receipts| {
      forall i | 0 <= i < |entries|
        ensures read(receipts[i]) == Ok(entries[i]) <==> Readable(env, dir, receipts[i], entries[i])
      {
        ReadIffReadable(env, dir, receipts[i], entries[i]);
      }
    }
  }

  // ----- Identities -----

  lemma {:induction false} SizeIffDistinct<T(!new)>(items: seq<T>)
    ensures |Members(items)| <= |items|
    ensures |Members(items)| == |items| <==> PairwiseDistinct(items)
  {
    if items == [] {
      assert Members(items) == {};
    } else {
      var n := |items| - 1;
      var shorter := items[..n];
      SizeIffDistinct(shorter);
      assert items == shorter + [items[n]];
      assert Members(items) == Members(shorter) + {items[n]};
      assert PairwiseDistinct(items) <==> PairwiseDistinct(shorter) && items[n] !in shorter by {
        DistinctSnoc(shorter, items[n]);
      }
    }
  }

  lemma DistinctSnoc<T>(items: seq<T>, last: T)
    ensures PairwiseDistinct(items + [last]) <==> PairwiseDistinct(items) && last !in items
  {
    var all := items + [last];
    if PairwiseDistinct(all) {
      forall i, j | 0 <= i < j < |items|
        ensures items[i] != items[j]
      {
        assert all[i] != all[j];
      }
      forall i | 0 <= i < |items|
        ensures items[i] != last
      {
        assert all[i] != all[|items|];
      }
    }
  }

  lemma {:induction false} CountOfIntervals(entries: seq<Entry>)
    ensures |IntervalsOf(entries)| == |entries| + |ItemsOf(entries)|
  {
    if entries != [] {
      CountOfIntervals(entries[..|entries| - 1]);
    }
  }

  /** An identifier that is text can be a member of the set. */
  lemma OwnIntervalsAreRead(entries: seq<Entry>, i: nat)
    requires OwnIntervals(entries) && i < |entries|
    ensures IntervalOf(entries[i].observation).Ok?
    ensures entries[i].discarded.Some? ==> IntervalOf(entries[i].discarded.value.observation).Ok?
  {
    assert NamesItsIntervals(entries[i]);
  }

  ghost predicate AllAvoid(entries: seq<Entry>, id: Value) {
    forall i :: 0 <= i < |entries| ==> Avoids(entries[i], id)
  }

  lemma {:induction false} UnlistedIffAvoided(entries: seq<Entry>, id: Value)
    ensures id !in IntervalsOf(entries) <==> AllAvoid(entries, id)
  {
    if entries != [] {
      var n := |entries| - 1;
      UnlistedIffAvoided(entries[..n], id);
      assert AllAvoid(entries, id) <==> AllAvoid(entries[..n], id) && Avoids(entries[n], id);
    }
  }

  ghost predicate DistinctTexts(items: seq<Value>) {
    PairwiseDistinct(items) && forall x :: x in items ==> x.Str?
  }

  lemma DistinctTextsSnoc(items: seq<Value>, last: Value)
    ensures DistinctTexts(items + [last]) <==> DistinctTexts(items) && last !in items && last.Str?
  {
    DistinctSnoc(items, last);
    assert last in items + [last];
    assert forall x :: x in items ==> x in items + [last];
  }

  lemma OwnIntervalsSnoc(entries: seq<Entry>, last: Entry)
    ensures OwnIntervals(entries + [last])
            <==> && OwnIntervals(entries) && NamesItsIntervals(last) && AllAvoid(entries, IdOf(last.observation))
                 && (last.discarded.Some? ==> AllAvoid(entries, IdOf(last.discarded.value.observation)))
  {
    var all := entries + [last];
    assert forall i :: 0 <= i < |entries| ==> all[i] == entries[i];
    if OwnIntervals(all) {
      assert NamesItsIntervals(all[|entries|]);
      assert forall i :: 0 <= i < |entries| ==> ShareNoInterval(all[i], all[|entries|]);
    }
  }

  lemma {:induction false} OwnIffDistinctTexts(entries: seq<Entry>)
    ensures OwnIntervals(entries) <==> DistinctTexts(IntervalsOf(entries))
  {
    if entries != [] {
      var n := |entries| - 1;
      var shorter, last := entries[..n], entries[n];
      OwnIffDistinctTexts(shorter);
      OwnIntervalsSnoc(shorter, last);
      assert entries == shorter + [last];
      var earlier := IntervalsOf(shorter);
      UnlistedIffAvoided(shorter, IdOf(last.observation));
      DistinctTextsSnoc(earlier, IdOf(last.observation));
      if last.discarded.Some? {
        UnlistedIffAvoided(shorter, IdOf(last.discarded.value.observation));
        DistinctTextsSnoc(earlier + [IdOf(last.observation)], IdOf(last.discarded.value.observation));
      } else {
        assert IntervalsOf(entries) == earlier + [IdOf(last.observation)];
      }
    }
  }

  lemma IdentityCheckIff(entries: seq<Entry>)
    ensures var ids := Members(IntervalsOf(entries));
            |ids| == |entries| + |ItemsOf(entries)| && (forall id :: id in ids ==> id.Str?) <==> OwnIntervals(entries)
  {
    SizeIffDistinct(IntervalsOf(entries));
    CountOfIntervals(entries);
    OwnIffDistinctTexts(entries);
  }

  // ----- Discarded windows -----

  ghost predicate DistinctNames(entries: seq<Entry>) {
    forall i, j :: 0 <= i < j < |entries| ==> entries[i].name != entries[j].name
  }

  lemma SequencedNamesAreDistinct(receipts: seq<Value>, entries: seq<Entry>)
    requires InOrder(receipts, entries)
    ensures DistinctNames(entries)
  {
    forall i, j | 0 <= i < j < |entries|
      ensures entries[i].name != entries[j].name
    {
      CasesDiffer(|receipts| - 6, i, j);
    }
  }

  function ItemOf(e: Entry): Item<Value>
    requires e.discarded.Some?
  {
    Discard(e.name, e.discarded.value.observation, e.discarded.value.diagnostic)
  }

  ghost predicate DiscardedIn(entries: seq<Entry>, name: string) {
    exists i :: 0 <= i < |entries| && entries[i].discarded.Some? && entries[i].name == name
  }

  lemma {:induction false} ItemNames(entries: seq<Entry>, name: string)
    ensures forall i :: 0 <= i < |ItemsOf(entries)| ==> ItemsOf(entries)[i].Discard?
    ensures name in Names(ItemsOf(entries)) <==> DiscardedIn(entries, name)
  {
    if entries != [] {
      var n := |entries| - 1;
      ItemNames(entries[..n], name);
      assert DiscardedIn(entries, name) <==> DiscardedIn(entries[..n], name) || (entries[n].discarded.Some? && entries[n].name == name);
      if entries[n].discarded.Some? {
        NamesSnoc(ItemsOf(entries[..n]), ItemOf(entries[n]));
      } else {
        assert ItemsOf(entries) == ItemsOf(entries[..n]);
      }
    }
  }

  lemma {:induction false} ItemsAreOncePerCase(entries: seq<Entry>)
    requires DistinctNames(entries)
    ensures OncePerWindow(ItemsOf(entries))
  {
    if entries != [] {
      var n := |entries| - 1;
      ItemsAreOncePerCase(entries[..n]);
      ItemNames(entries[..n], entries[n].name);
      if entries[n].discarded.Some? {
        OncePerWindowSnoc(ItemsOf(entries[..n]), ItemOf(entries[n]));
      } else {
        assert ItemsOf(entries) == ItemsOf(entries[..n]);
      }
    }
  }

  ghost predicate EachGenuine(entries: seq<Entry>, recheck: Recheck<(), Value>, names: set<string>) {
    forall i :: 0 <= i < |entries| && entries[i].discarded.Some? ==> Genuine(ItemOf(entries[i]), recheck, names)
  }

  lemma EachGenuineSnoc(entries: seq<Entry>, recheck: Recheck<(), Value>, names: set<string>)
    requires entries != []
    ensures var n := |entries| - 1;
            EachGenuine(entries, recheck, names)
            <==> EachGenuine(entries[..n], recheck, names)
                 && (entries[n].discarded.Some? ==> Genuine(ItemOf(entries[n]), recheck, names))
  {
    var n := |entries| - 1;
    assert forall i :: 0 <= i < n ==> entries[..n][i] == entries[i];
  }

  lemma {:induction false} AllGenuineIffEach(entries: seq<Entry>, recheck: Recheck<(), Value>, names: set<string>)
    ensures AllGenuine(ItemsOf(entries), recheck, names) <==> EachGenuine(entries, recheck, names)
  {
    if entries != [] {
      var n := |entries| - 1;
      AllGenuineIffEach(entries[..n], recheck, names);
      EachGenuineSnoc(entries, recheck, names);
      if entries[n].discarded.Some? {
        AllGenuineSnoc(ItemsOf(entries[..n]), ItemOf(entries[n]), recheck, names);
      } else {
        assert ItemsOf(entries) == ItemsOf(entries[..n]);
      }
    }
  }

  lemma {:induction false} WireIsItsOwn(entries: seq<Entry>, i: nat)
    requires DistinctNames(entries) && i < |entries| && entries[i].discarded.Some?
    ensures entries[i].name in WiresOf(entries) && WiresOf(entries)[entries[i].name] == entries[i].discarded.value.wire
  {
    if i < |entries| - 1 {
      WireIsItsOwn(entries[..|entries| - 1], i);
    }
  }

  /** Only an observation can be retryable, what is retryable is refused strictly, and both modes accept the same. */
  ghost predicate SoundJudge(judge: Judge) {
    forall wire, observation, e {:trigger judge(wire, observation, true, e)} {:trigger judge(wire, observation, false, e)} ::
      SoundAt(observation, judge(wire, observation, true, e), judge(wire, observation, false, e))
  }

  ghost predicate SoundAt(observation: Value, lenient: CaseVerdict, strict: CaseVerdict) {
    && (lenient.Rerun? ==> observation.Dict? && strict == Refused)
    && (lenient == Verifies <==> strict == Verifies) && !strict.Rerun?
  }

  lemma CaseJudgeIsSound(sourceHash: string)
    ensures SoundJudge(CaseJudge(sourceHash))
  {
    var judge := CaseJudge(sourceHash);
    forall wire, observation, e
      ensures SoundAt(observation, judge(wire, observation, true, e), judge(wire, observation, false, e))
    {
      CaseModesAgree(wire, observation, e, sourceHash);
    }
  }

  lemma ReplayRefusesRetryable(env: Env, wires: map<string, Value>)
    requires SoundJudge(env.judge)
    ensures RetryableIsRefused(ReplayOver(env, wires))
  {}

  lemma OfflineMayRerunIff(verdict: CaseVerdict, diagnostic: Value)
    ensures Offline(verdict) == MayRerun(diagnostic) <==> verdict.Rerun? && diagnostic == RetryDiagnostic(verdict.count)
  {}

  /** Under the wire it was retained with, a discarded window is genuine iff it is retryable as recorded. */
  lemma GenuineUnderItsWire(env: Env, wires: map<string, Value>, name: string, d: Discarded, names: set<string>)
    requires SoundJudge(env.judge)
    requires name in wires && wires[name] == d.wire && name in names
    ensures Genuine(Discard(name, d.observation, d.diagnostic), ReplayOver(env, wires), names) <==> DiscardRetryable(env, name, d)
  {
    if CaseExpectation(name).Some? {
      var expected := CaseExpectation(name).value;
      OfflineMayRerunIff(env.judge(d.wire, d.observation, true, expected), d.diagnostic);
    }
  }

  lemma GenuineIffRetryable(env: Env, entries: seq<Entry>, i: nat, names: set<string>)
    requires SoundJudge(env.judge)
    requires DistinctNames(entries) && i < |entries| && entries[i].discarded.Some? && entries[i].name in names
    ensures Genuine(ItemOf(entries[i]), ReplayOver(env, WiresOf(entries)), names)
            <==> DiscardRetryable(env, entries[i].name, entries[i].discarded.value)
  {
    WireIsItsOwn(entries, i);
    GenuineUnderItsWire(env, WiresOf(entries), entries[i].name, entries[i].discarded.value, names);
  }

  ghost predicate AllRetryable(env: Env, entries: seq<Entry>) {
    forall i :: 0 <= i < |entries| && entries[i].discarded.Some? ==>
      DiscardRetryable(env, entries[i].name, entries[i].discarded.value)
  }

  /** The discarded windows are accepted by the shared check iff each is retryable as recorded. */
  lemma DiscardsAcceptedIff(env: Env, entries: seq<Entry>)
    requires SoundJudge(env.judge)
    requires DistinctNames(entries)
    ensures var r := ReplayOf(env, entries);
            && (r.Accepted? <==> AllRetryable(env, entries))
            && (r.Accepted? ==> r.windows == Names(ItemsOf(entries)))
  {
    var recheck := ReplayOver(env, WiresOf(entries));
    var names := Members(NamesOf(entries));
    ReplayRefusesRetryable(env, WiresOf(entries));
    AcceptedIffGenuineOncePerWindow(Items(ItemsOf(entries)), recheck, names);
    ItemsAreOncePerCase(entries);
    AllGenuineIffEach(entries, recheck, names);
    forall i | 0 <= i < |entries| && entries[i].discarded.Some?
      ensures Genuine(ItemOf(entries[i]), recheck, names) <==> DiscardRetryable(env, entries[i].name, entries[i].discarded.value)
    {
      assert NamesOf(entries)[i] == entries[i].name;
      GenuineIffRetryable(env, entries, i, names);
    }
  }

  // ----- Files -----

  lemma {:induction false} ReceiptedIff(entries: seq<Entry>, file: string)
    ensures file in Receipted(entries) <==> AccountedFor(entries, file)
  {
    if entries != [] {
      var n := |entries| - 1;
      ReceiptedIff(entries[..n], file);
      assert forall i :: 0 <= i < n ==> entries[..n][i] == entries[i];
    }
  }

  lemma FileCheckIff(dir: Directory, entries: seq<Entry>)
    ensures Retained(dir) == Receipted(entries) <==> HoldsExactly(dir, entries)
  {
    forall file
      ensures file in Receipted(entries) <==> AccountedFor(entries, file)
    {
      ReceiptedIff(entries, file);
    }
  }

  /** A case without a receipted discard has no file that could be one: the exact file set says so already. */
  lemma {:induction false} UndeclaredIsUnreceipted(dir: Directory, receipts: seq<Value>, entries: seq<Entry>, i: nat)
    requires InOrder(receipts, entries)
    requires HoldsExactly(dir, entries) && i < |entries| && entries[i].discarded.None?
    ensures NoDiscardFiles(dir, entries[i].name)
  {
    forall file | file in {ObservationFile(DiscardedName(entries[i].name)), WireFile(DiscardedName(entries[i].name))}
      ensures file !in dir
    {
      SuffixRemains(DiscardedName(entries[i].name), OBSERVATION);
      SuffixRemains(DiscardedName(entries[i].name), WIRE);
      if file in dir {
        var j :| 0 <= j < |entries| && ReceiptedAt(entries[j], file);
        DiscardIsNotReceiptedElsewhere(receipts, entries, i, j, file);
      }
    }
  }

  lemma DiscardIsNotReceiptedElsewhere(receipts: seq<Value>, entries: seq<Entry>, i: nat, j: nat, file: string)
    requires InOrder(receipts, entries)
    requires i < |entries| && j < |entries| && entries[i].discarded.None?
    requires file in {ObservationFile(DiscardedName(entries[i].name)), WireFile(DiscardedName(entries[i].name))}
    ensures !ReceiptedAt(entries[j], file)
  {
    var mine, yours := entries[i].name, entries[j].name;
    NoCaseIsDiscarded(|receipts| - 6, j, mine);
    WindowFilesDiffer(DiscardedName(mine), yours);
    WindowFilesDiffer(yours, DiscardedName(mine));
    WindowFilesDiffer(DiscardedName(mine), DiscardedName(yours));
    WindowFilesDiffer(DiscardedName(yours), DiscardedName(mine));
    WindowFilesDiffer(mine, yours);
    SequencedNamesAreDistinct(receipts, entries);
  }

  // ----- The theorem -----

  lemma ReadInOrder(env: Env, dir: Directory, receipts: seq<Value>, entries: seq<Entry>)
    requires InSequence(receipts) && AllRead(env, dir, receipts, entries)
    ensures InOrder(receipts, entries)
  {
    forall i | 0 <= i < |entries|
      ensures entries[i].name == Cases(|receipts| - 6)[i]
    {
      assert Readable(env, dir, receipts[i], entries[i]);
    }
  }

  /** With its discard retryable, what was read is as receipted. */
  lemma ReadAndRetryable(env: Env, dir: Directory, receipts: seq<Value>, entries: seq<Entry>)
    requires AllRead(env, dir, receipts, entries) && AllRetryable(env, entries)
    ensures AllAsReceipted(env, dir, receipts, entries)
  {
    forall i | 0 <= i < |entries|
      ensures AsReceipted(env, dir, receipts[i], entries[i])
    {
      assert Readable(env, dir, receipts[i], entries[i]);
    }
  }

  lemma AsReceiptedIsReadable(env: Env, dir: Directory, receipt: Value, e: Entry)
    requires AsReceipted(env, dir, receipt, e) && receipt.Get("case") == Str(e.name) && IntervalOf(e.observation).Ok?
    requires e.discarded.Some? ==> IntervalOf(e.discarded.value.observation).Ok?
    requires e.discarded.None? ==> NoDiscardFiles(dir, e.name)
    ensures Readable(env, dir, receipt, e)
    ensures e.discarded.Some? ==> DiscardRetryable(env, e.name, e.discarded.value)
  {}

  lemma OrderedAt(receipts: seq<Value>, entries: seq<Entry>, i: nat)
    requires InOrder(receipts, entries) && i < |entries|
    ensures entries[i].name == Cases(|receipts| - 6)[i]
    ensures receipts[i].Dict? && receipts[i].Get("case") == Str(entries[i].name)
  {
    assert CaseOf(receipts[i]) == Str(Cases(|receipts| - 6)[i]);
  }

  lemma ReceiptedInFull(env: Env, dir: Directory, receipts: seq<Value>, entries: seq<Entry>, i: nat)
    requires AllAsReceipted(env, dir, receipts, entries) && i < |entries|
    ensures AsReceipted(env, dir, receipts[i], entries[i])
  {}

  lemma CompleteAt(env: Env, dir: Directory, entries: seq<Entry>, i: nat)
    requires Complete(env, dir, entries) && i < |entries|
    ensures var receipts := ReadReceipts(env, dir).value;
            && |entries| == |receipts| && AsReceipted(env, dir, receipts[i], entries[i])
            && entries[i].name == Cases(|receipts| - 6)[i] && receipts[i].Get("case") == Str(entries[i].name)
  {
    var receipts := ReadReceipts(env, dir).value;
    ReceiptedInFull(env, dir, receipts, entries, i);
    OrderedAt(receipts, entries, i);
  }

  lemma CompleteIsReadAt(env: Env, dir: Directory, entries: seq<Entry>, i: nat)
    requires Complete(env, dir, entries) && i < |entries|
    ensures |entries| == |ReadReceipts(env, dir).value| && Readable(env, dir, ReadReceipts(env, dir).value[i], entries[i])
    ensures entries[i].discarded.Some? ==> DiscardRetryable(env, entries[i].name, entries[i].discarded.value)
  {
    var receipts := ReadReceipts(env, dir).value;
    CompleteAt(env, dir, entries, i);
    OwnIntervalsAreRead(entries, i);
    if entries[i].discarded.None? {
      UndeclaredIsUnreceipted(dir, receipts, entries, i);
    }
    AsReceiptedIsReadable(env, dir, receipts[i], entries[i]);
  }

  lemma CompleteIsRead(env: Env, dir: Directory, entries: seq<Entry>)
    requires Complete(env, dir, entries)
    ensures AllRead(env, dir, ReadReceipts(env, dir).value, entries) && AllRetryable(env, entries)
  {
    forall i | 0 <= i < |entries|
      ensures |entries| == |ReadReceipts(env, dir).value| && Readable(env, dir, ReadReceipts(env, dir).value[i], entries[i])
      ensures entries[i].discarded.Some? ==> DiscardRetryable(env, entries[i].name, entries[i].discarded.value)
    {
      CompleteIsReadAt(env, dir, entries, i);
    }
  }

  lemma ConcludeIff(windows: nat, identities: set<Value>, retained: set<string>, receipted: set<string>, replay: Replay<Value>)
    ensures var r := Conclude(windows, identities, retained, receipted, replay);
            && (r.Ok? <==> && |identities| == windows && (forall id :: id in identities ==> id.Str?)
                           && retained == receipted && replay.Accepted?)
            && (r.Ok? ==> r.value == replay.windows)
  {}

  lemma ConcludedIsConclude(env: Env, dir: Directory, kept: nat, entries: seq<Entry>)
    ensures var r := Concluded(env, dir, kept, entries);
            && (r.Ok? <==> && |Members(IntervalsOf(entries))| == kept + |ItemsOf(entries)|
                           && (forall id :: id in Members(IntervalsOf(entries)) ==> id.Str?)
                           && Retained(dir) == Receipted(entries) && ReplayOf(env, entries).Accepted?)
            && (r.Ok? ==> r.value == ReplayOf(env, entries).windows)
  {
    ConcludeIff(kept + |ItemsOf(entries)|, Members(IntervalsOf(entries)), Retained(dir), Receipted(entries), ReplayOf(env, entries));
  }

  lemma ConcludedIffReplayed(env: Env, dir: Directory, entries: seq<Entry>)
    ensures Concluded(env, dir, |entries|, entries).Ok?
            <==> OwnIntervals(entries) && HoldsExactly(dir, entries) && ReplayOf(env, entries).Accepted?
  {
    ConcludedIsConclude(env, dir, |entries|, entries);
    IdentityCheckIff(entries);
    FileCheckIff(dir, entries);
  }

  /** Once everything is read, the checks after the loop accept iff the rest of completeness holds. */
  lemma ConcludedIff(env: Env, dir: Directory, entries: seq<Entry>)
    requires SoundJudge(env.judge)
    requires DistinctNames(entries)
    ensures Concluded(env, dir, |entries|, entries).Ok?
            <==> OwnIntervals(entries) && HoldsExactly(dir, entries) && AllRetryable(env, entries)
  {
    ConcludedIffReplayed(env, dir, entries);
    DiscardsAcceptedIff(env, entries);
  }

  lemma ConcludedNames(env: Env, dir: Directory, entries: seq<Entry>)
    requires SoundJudge(env.judge)
    requires DistinctNames(entries) && Concluded(env, dir, |entries|, entries).Ok?
    ensures Concluded(env, dir, |entries|, entries).value == Names(ItemsOf(entries))
  {
    ConcludedIsConclude(env, dir, |entries|, entries);
    DiscardsAcceptedIff(env, entries);
  }

  lemma CompleteFrom(env: Env, dir: Directory, receipts: seq<Value>, entries: seq<Entry>)
    requires ReadReceipts(env, dir) == Ok(receipts) && InOrder(receipts, entries)
    requires AllAsReceipted(env, dir, receipts, entries) && OwnIntervals(entries) && HoldsExactly(dir, entries)
    ensures Complete(env, dir, entries)
  {}

  lemma ReplayedMeansRead(env: Env, dir: Directory)
    requires ReplayedDirectory(env, dir).Ok?
    ensures ReadReceipts(env, dir).Ok? && InSequence(ReadReceipts(env, dir).value)
    ensures ReadAll(ReaderOf(env, dir), ReadReceipts(env, dir).value).Ok?
  {}

  lemma ReplayedWhenRead(env: Env, dir: Directory, receipts: seq<Value>, entries: seq<Entry>)
    requires ReadReceipts(env, dir) == Ok(receipts) && InSequence(receipts)
    requires ReadAll(ReaderOf(env, dir), receipts) == Ok(entries)
    ensures ReplayedDirectory(env, dir) == Concluded(env, dir, |receipts|, entries)
  {}

  lemma ReplayedIffConcluded(env: Env, dir: Directory, receipts: seq<Value>, entries: seq<Entry>)
    requires SoundJudge(env.judge)
    requires ReadReceipts(env, dir) == Ok(receipts) && InSequence(receipts) && AllRead(env, dir, receipts, entries)
    ensures InOrder(receipts, entries)
    ensures ReplayedDirectory(env, dir).Ok?
            <==> OwnIntervals(entries) && HoldsExactly(dir, entries) && AllRetryable(env, entries)
    ensures ReplayedDirectory(env, dir).Ok? ==> ReplayedDirectory(env, dir).value == Names(ItemsOf(entries))
  {
    ReadIffAllRead(env, dir, receipts, entries);
    ReplayedWhenRead(env, dir, receipts, entries);
    ReadInOrder(env, dir, receipts, entries);
    SequencedNamesAreDistinct(receipts, entries);
    ConcludedIff(env, dir, entries);
    if ReplayedDirectory(env, dir).Ok? {
      ConcludedNames(env, dir, entries);
    }
  }

  lemma AcceptedIsComplete(env: Env, dir: Directory) returns (entries: seq<Entry>)
    requires SoundJudge(env.judge)
    requires ReplayedDirectory(env, dir).Ok?
    ensures Complete(env, dir, entries) && ReplayedDirectory(env, dir).value == Names(ItemsOf(entries))
  {
    ReplayedMeansRead(env, dir);
    var receipts := ReadReceipts(env, dir).value;
    entries := ReadAll(ReaderOf(env, dir), receipts).value;
    ReadIffAllRead(env, dir, receipts, entries);
    ReplayedIffConcluded(env, dir, receipts, entries);
    ReadAndRetryable(env, dir, receipts, entries);
  }

  /** The windows reported are exactly the cases with a discarded window. */
  lemma CompleteIsAccepted(env: Env, dir: Directory, entries: seq<Entry>)
    requires SoundJudge(env.judge)
    requires Complete(env, dir, entries)
    ensures ReplayedDirectory(env, dir).Ok? && forall name :: name in ReplayedDirectory(env, dir).value <==> DiscardedIn(entries, name)
  {
    var receipts := ReadReceipts(env, dir).value;
    CompleteIsRead(env, dir, entries);
    ReplayedIffConcluded(env, dir, receipts, entries);
    forall name
      ensures name in Names(ItemsOf(entries)) <==> DiscardedIn(entries, name)
    {
      ItemNames(entries, name);
    }
  }

  /**
   An evidence directory is accepted iff it is complete: its window files are exactly the receipted ones,
   every kept window is the receipted one and verifies strictly, every discarded one is receipted and
   retryable as recorded, and every window has an interval of its own.
   */
  lemma AcceptedIffComplete(env: Env, dir: Directory)
    requires SoundJudge(env.judge)
    ensures ReplayedDirectory(env, dir).Ok? <==> exists entries :: Complete(env, dir, entries)
  {
    if ReplayedDirectory(env, dir).Ok? {
      var entries := AcceptedIsComplete(env, dir);
    }
    if entries :| Complete(env, dir, entries) {
      CompleteIsAccepted(env, dir, entries);
    }
  }

  /** In particular for the dashboard's own check of a window. */
  lemma DashboardEvidenceAcceptedIffComplete(env: Env, dir: Directory, sourceHash: string)
    requires env.judge == CaseJudge(sourceHash)
    ensures ReplayedDirectory(env, dir).Ok? <==> exists entries :: Complete(env, dir, entries)
  {
    CaseJudgeIsSound(sourceHash);
    AcceptedIffComplete(env, dir);
  }

  /** The digest gives different bytes different digests. */
  ghost predicate CollisionFree(env: Env) {
    forall a, b :: env.digest(a) == env.digest(b) ==> a == b
  }

  lemma PresentDeterminesBytes(env: Env, a: Directory, b: Directory, file: string, sha256: Value, x: Value, y: Value)
    requires CollisionFree(env) && Present(env, a, file, sha256, x) && Present(env, b, file, sha256, y)
    ensures a[file] == b[file] && x == y
  {
    assert env.digest(a[file].bytes) == env.digest(b[file].bytes);
  }

  /** Two directories hold the same bytes for this file. */
  ghost predicate SameFile(a: Directory, b: Directory, file: string) {
    file in a && file in b && a[file] == b[file]
  }

  lemma ReceiptDeterminesKept(env: Env, a: Directory, b: Directory, receipt: Value, x: Entry, y: Entry)
    requires CollisionFree(env) && x.name == y.name && WellFormed(receipt)
    requires KeptAsReceipted(env, a, receipt, x) && KeptAsReceipted(env, b, receipt, y)
    ensures x.observation == y.observation && x.wire == y.wire
    ensures SameFile(a, b, ObservationFile(x.name)) && SameFile(a, b, WireFile(x.name))
  {
    PresentDeterminesBytes(env, a, b, ObservationFile(x.name), receipt.Get("observation_sha256"), x.observation, y.observation);
    PresentDeterminesBytes(env, a, b, WireFile(x.name), receipt.Get("wire_sha256"), x.wire, y.wire);
  }

  lemma ReceiptDeterminesDiscard(env: Env, a: Directory, b: Directory, receipt: Value, name: string, d: Discarded, e: Discarded)
    requires CollisionFree(env) && WellFormed(receipt)
    requires DiscardPresent(env, a, receipt, name, d) && DiscardPresent(env, b, receipt, name, e)
    ensures d == e
    ensures SameFile(a, b, ObservationFile(DiscardedName(name))) && SameFile(a, b, WireFile(DiscardedName(name)))
  {
    var hashes := receipt.Get("discarded_sha256");
    PresentDeterminesBytes(env, a, b, ObservationFile(DiscardedName(name)), hashes.Get("observation_sha256"), d.observation, e.observation);
    PresentDeterminesBytes(env, a, b, WireFile(DiscardedName(name)), hashes.Get("wire_sha256"), d.wire, e.wire);
  }

  /** One receipt determines its windows. */
  lemma ReceiptDeterminesEntry(env: Env, a: Directory, b: Directory, receipt: Value, x: Entry, y: Entry, file: string)
    requires CollisionFree(env) && x.name == y.name
    requires AsReceipted(env, a, receipt, x) && AsReceipted(env, b, receipt, y)
    ensures x == y && (ReceiptedAt(x, file) ==> SameFile(a, b, file))
  {
    ReceiptDeterminesKept(env, a, b, receipt, x, y);
    if x.discarded.Some? && y.discarded.Some? {
      ReceiptDeterminesDiscard(env, a, b, receipt, x.name, x.discarded.value, y.discarded.value);
    }
  }

  lemma ReceiptsDetermineEntries(env: Env, a: Directory, b: Directory, x: seq<Entry>, y: seq<Entry>, i: nat, file: string)
    requires CollisionFree(env) && Complete(env, a, x) && Complete(env, b, y)
    requires ReadReceipts(env, a) == ReadReceipts(env, b) && i < |x|
    ensures |x| == |y| && x[i] == y[i] && (ReceiptedAt(x[i], file) ==> SameFile(a, b, file))
  {
    CompleteAt(env, a, x, i);
    CompleteAt(env, b, y, i);
    ReceiptDeterminesEntry(env, a, b, ReadReceipts(env, a).value[i], x[i], y[i], file);
  }

  lemma ReceiptsDetermineAll(env: Env, a: Directory, b: Directory, x: seq<Entry>, y: seq<Entry>)
    requires CollisionFree(env) && Complete(env, a, x) && Complete(env, b, y) && ReadReceipts(env, a) == ReadReceipts(env, b)
    ensures x == y
  {
    forall i | 0 <= i < |x|
      ensures |x| == |y| && x[i] == y[i]
    {
      ReceiptsDetermineEntries(env, a, b, x, y, i, "");
    }
  }

  lemma SameWindows(env: Env, a: Directory, b: Directory, entries: seq<Entry>, file: string)
    requires CollisionFree(env) && Complete(env, a, entries) && Complete(env, b, entries)
    requires ReadReceipts(env, a) == ReadReceipts(env, b) && file in a && IsWindowFile(file)
    ensures SameFile(a, b, file)
  {
    var i :| 0 <= i < |entries| && ReceiptedAt(entries[i], file);
    ReceiptsDetermineEntries(env, a, b, entries, entries, i, file);
  }

  lemma SameReceipts(env: Env, a: Directory, b: Directory)
    requires RECEIPTS in a && RECEIPTS in b && a[RECEIPTS] == b[RECEIPTS]
    ensures ReadReceipts(env, a) == ReadReceipts(env, b)
  {}

  /**
   With a collision-free digest the receipts determine the evidence: two complete directories with the same
   receipts file hold the same windows, and the same window files byte for byte.
   */
  lemma ReceiptsDetermineTheEvidence(env: Env, a: Directory, b: Directory, x: seq<Entry>, y: seq<Entry>)
    requires CollisionFree(env) && Complete(env, a, x) && Complete(env, b, y)
    requires RECEIPTS in a && RECEIPTS in b && a[RECEIPTS] == b[RECEIPTS]
    ensures x == y
    ensures forall file :: IsWindowFile(file) ==> (file in a <==> file in b) && (file in a ==> a[file] == b[file])
  {
    SameReceipts(env, a, b);
    ReceiptsDetermineAll(env, a, b, x, y);
    forall file | IsWindowFile(file)
      ensures (file in a <==> file in b) && (file in a ==> a[file] == b[file])
    {
      if file in a {
        SameWindows(env, a, b, x, file);
      }
      if file in b {
        SameWindows(env, b, a, x, file);
      }
    }
  }
}
