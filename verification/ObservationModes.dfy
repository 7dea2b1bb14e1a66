/**
 How the strict and the retrying verdict on the same receipt relate.
 */
module ObservationModes {
  import opened Support
  import opened Values
  import opened Observation

  /** The same receipt with its retryable events deleted. */
  function Cleaned(value: Value): Value
    requires value.Dict? && value.Get("events").List?
  {
    Dict(value.fields["events" := List(Stripped(value.fields["events"].items))])
  }

  lemma RetryableFault(e: Value)
    ensures IsRetryable(e) ==> EventFault(e, false) == Some(UntoleratedStore) && !IsCommand(e)
    ensures EventFault(e, true) == if IsRetryable(e) then None else EventFault(e, false)
  {
    if IsRetryable(e) {
      assert e.Get("kind") == Str("storage_delay_save") && e.Get("origin") == Str("background");
      assert e.Get("store") == Str("repairs.issue_registry");
    }
  }

  lemma StrippedSnoc(events: seq<Value>)
    requires events != []
    ensures var last := events[|events| - 1];
            var shorter := Stripped(events[..|events| - 1]);
            if IsRetryable(last) then Stripped(events) == shorter
            else Stripped(events) == shorter + [last] && Stripped(events)[..|Stripped(events)| - 1] == shorter
  {}

  /** Deleting retryable events keeps the commands and the bookkeeping, and leaves none. */
  lemma {:induction false} StrippingKeepsTheRest(events: seq<Value>)
    ensures Commands(Stripped(events)) == Commands(events)
    ensures Background(Stripped(events)) == Background(events)
    ensures RetryIndices(Stripped(events)) == []
  {
    if events != [] {
      StrippingKeepsTheRest(events[..|events| - 1]);
      StrippedSnoc(events);
    }
  }

  /** The lenient scan passes exactly when the strict scan of the stripped events does. */
  lemma {:induction false} StrippingKeepsFaults(events: seq<Value>)
    ensures FirstFault(Stripped(events), false).None? <==> FirstFault(events, true).None?
  {
    if events != [] {
      StrippingKeepsFaults(events[..|events| - 1]);
      StrippedSnoc(events);
      RetryableFault(events[|events| - 1]);
      FaultSnoc(Stripped(events), false);
    }
  }

  lemma FaultSnoc(events: seq<Value>, retry: bool)
    ensures events != [] ==>
              (FirstFault(events, retry).None?
               <==> FirstFault(events[..|events| - 1], retry).None? && EventFault(events[|events| - 1], retry).None?)
  {}

  /** The scan of the strict mode stops at the first retryable event unless it stopped before. */
  lemma {:induction false} StrictFirstFault(events: seq<Value>)
    ensures var lenient := FirstFault(events, true);
            var first := RetryIndices(events);
            FirstFault(events, false)
            == if first != [] && (lenient.None? || first[0] < lenient.value) then Some(first[0]) else lenient
  {
    if events != [] {
      StrictFirstFault(events[..|events| - 1]);
      RetryableFault(events[|events| - 1]);
    }
  }

  /** An event that may stand in an accepted window: a bare command, or tolerated background bookkeeping. */
  predicate Tolerable(e: Value) {
    && e.Dict?
    && (|| (e.fields.Keys == {"kind", "origin", "command"} && e.fields["kind"] == Str("command")
            && e.fields["command"].Str? && IsOneOf(e.fields["origin"], {"command", "background"}))
        || (e.fields.Keys == {"kind", "origin", "store"} && e.fields["origin"] == Str("background")
            && IsOneOf(e.fields["kind"], {"storage_save", "storage_delay_save", "storage_write"})
            && IsOneOf(e.fields["store"], {"auth", "core.restore_state"})))
  }

  lemma NoFaultIffTolerable(e: Value)
    ensures EventFault(e, false).None? <==> Tolerable(e)
  {}

  ghost function EventsOf(value: Value): seq<Value> {
    if Part(value, "events").List? then Part(value, "events").items else []
  }

  /** The four store hashes, each absent or of 64 hexadecimal digits. */
  ghost predicate StoreHashes(v: Value) {
    v.Dict? && v.fields.Keys == {"alarmo.storage", "core.config_entries", "core.entity_registry", "core.device_registry"}
    && forall k :: k in v.fields ==> v.fields[k] == Null || (v.fields[k].Str? && IsHex(v.fields[k].s, 64))
  }

  /** What each condition demands of the receipt. */
  ghost predicate Meets(c: Condition, w: Window, value: Value, identity: Value) {
    match c
    case ReceiptShape =>
      value.Dict? && value.fields.Keys == {
        "interval_id", "kind", "events", "overflow", "expired", "baseline_store_hashes", "model",
        "elapsed_seconds", "final_store_hashes", "coverage", "core_version", "observer_sha256" }
    case ObserverModel => Part(value, "model") == Str("alarmo-core-interval-v2")
    case CoreVersion => Part(value, "core_version") == Str(w.coreVersion)
    case IntervalIdentity => Part(value, "interval_id") == identity && identity.Str? && IsHex(identity.s, 32)
    case IntervalKind => Part(value, "kind") == Str(w.kind)
    case EventOverflow => Part(value, "overflow") == Bool(false)
    case IntervalExpired => Part(value, "expired") == Bool(false)
    case ElapsedSeconds => Part(value, "elapsed_seconds").Num? && 0.0 <= Part(value, "elapsed_seconds").r <= 45.0
    case ObserverSource => Part(value, "observer_sha256") == Str(w.sourceHash)
    case HookCoverage =>
      var hooks := {
        "ActiveConnection.async_handle", "ConfigEntriesFlowManager.async_init", "FlowManager.async_init",
        "FlowManager.async_configure", "FlowManager.async_abort", "ServiceRegistry.async_call",
        "Store.async_save", "Store.async_delay_save", "Store._async_write_data", "Store.async_remove" };
      Part(value, "coverage").Dict? && Part(value, "coverage").fields.Keys == hooks
      && forall hook :: hook in hooks ==> Part(value, "coverage").fields[hook] == Bool(true)
    case StoreHashShape => StoreHashes(Part(value, "baseline_store_hashes")) && StoreHashes(Part(value, "final_store_hashes"))
    case StoreHashChanged => Part(value, "baseline_store_hashes") == Part(value, "final_store_hashes")
    case EventsShape => Part(value, "events").List? && |EventsOf(value)| <= 128
    case _ => true
  }

  /** The order in which the conditions are checked: the receipt's, then those of each event. */
  ghost function Order(c: Condition): nat {
    match c
    case ReceiptShape => 0 case ObserverModel => 1 case CoreVersion => 2 case IntervalIdentity => 3
    case IntervalKind => 4 case EventOverflow => 5 case IntervalExpired => 6 case ElapsedSeconds => 7
    case ObserverSource => 8 case HookCoverage => 9 case StoreHashShape => 10 case StoreHashChanged => 11
    case EventsShape => 12 case EventShape => 13 case CommandEventShape => 14 case UnexpectedEventKind => 15
    case CommandOriginStorage => 16 case StorageEventShape => 17 case UntoleratedStore => 18
    case CommandsMismatch => 19 case RetryableDelayedSave => 20
  }

  /** Every receipt condition at once, in no particular order. */
  ghost predicate SoundReceipt(w: Window, value: Value, identity: Value) {
    forall c: Condition :: Meets(c, w, value, identity)
  }

  /** The receipt is refused for the first condition it does not meet. */
  lemma ReceiptFaultIsFirstUnmet(w: Window, value: Value, identity: Value)
    ensures match ReceiptFault(w, value, identity)
            case None => SoundReceipt(w, value, identity)
            case Some(c) =>
              !Meets(c, w, value, identity) && forall d :: Order(d) < Order(c) ==> Meets(d, w, value, identity)
  {}

  lemma NoFaultIffSound(w: Window, value: Value, identity: Value)
    ensures ReceiptFault(w, value, identity).None? <==> SoundReceipt(w, value, identity)
    ensures SoundReceipt(w, value, identity) ==>
              value.Dict? && "events" in value.fields && value.fields["events"].List? && |value.fields["events"].items| <= 128
  {
    ReceiptFaultIsFirstUnmet(w, value, identity);
    assert SoundReceipt(w, value, identity) ==>
      Meets(ReceiptShape, w, value, identity) && Meets(EventsShape, w, value, identity);
  }

  /** What each condition demands of one event. */
  ghost predicate EventMeets(c: Condition, e: Value, retry: bool) {
    var command := Part(e, "kind") == Str("command");
    match c
    case EventShape => e.Dict? && (Part(e, "origin") == Str("command") || Part(e, "origin") == Str("background"))
    case CommandEventShape =>
      command ==> e.Dict? && e.fields.Keys == {"kind", "origin", "command"} && e.fields["command"].Str?
    case UnexpectedEventKind =>
      command || Part(e, "kind") == Str("storage_save") || Part(e, "kind") == Str("storage_delay_save")
      || Part(e, "kind") == Str("storage_write")
    case CommandOriginStorage => command || Part(e, "origin") == Str("background")
    case StorageEventShape =>
      command || (e.Dict? && if Part(e, "store") == Str("other") then e.fields.Keys == {"kind", "origin", "store", "store_class"}
                             else e.fields.Keys == {"kind", "origin", "store"})
    case UntoleratedStore =>
      command || Part(e, "store") == Str("auth") || Part(e, "store") == Str("core.restore_state")
      || (retry && Part(e, "store") == Str("repairs.issue_registry") && Part(e, "kind") == Str("storage_delay_save"))
    case _ => true
  }

  /** An event is refused for the first condition it does not meet. */
  lemma EventFaultIsFirstUnmet(e: Value, retry: bool)
    ensures match EventFault(e, retry)
            case None => forall c :: EventMeets(c, e, retry)
            case Some(c) => !EventMeets(c, e, retry) && forall d :: Order(d) < Order(c) ==> EventMeets(d, e, retry)
  {}

  // ----- What the scan lists -----

  ghost predicate NamesCommand(e: Value) {
    Part(e, "kind") == Str("command")
  }

  ghost predicate HasText(e: Value, text: string) {
    Part(e, "command") == Str(text)
  }

  ghost predicate IsOther(e: Value) {
    !NamesCommand(e)
  }

  ghost predicate IsDelayedSave(e: Value) {
    && e.Dict? && e.fields.Keys == {"kind", "origin", "store"} && Part(e, "origin") == Str("background")
    && Part(e, "store") == Str("repairs.issue_registry") && Part(e, "kind") == Str("storage_delay_save")
  }

  ghost predicate Same(e: Value, f: Value) {
    e == f
  }

  /** The commands are the texts of the command events, one for each, in their order. */
  lemma {:induction false} CommandsListed(events: seq<Value>)
    requires forall e :: e in events && NamesCommand(e) ==> Part(e, "command").Str?
    ensures ListsExactly(events, NamesCommand, Commands(events), HasText)
  {
    if events != [] {
      var shorter := events[..|events| - 1];
      var last := events[|events| - 1];
      assert events == shorter + [last];
      assert last in events && forall e :: e in shorter ==> e in events;
      CommandsListed(shorter);
      ListsOneMore(shorter, NamesCommand, Commands(shorter), HasText, last, if IsCommand(last) then [CommandName(last)] else []);
    }
  }

  /** Without delayed saves, the bookkeeping is every other event, in order. */
  lemma {:induction false} BackgroundListed(events: seq<Value>)
    requires forall e :: e in events ==> !IsDelayedSave(e)
    ensures ListsExactly(events, IsOther, Background(events), Same)
  {
    if events != [] {
      var shorter := events[..|events| - 1];
      var last := events[|events| - 1];
      assert events == shorter + [last];
      assert last in events && forall e :: e in shorter ==> e in events;
      BackgroundListed(shorter);
      ListsOneMore(shorter, IsOther, Background(shorter), Same, last, if IsCommand(last) || IsRetryable(last) then [] else [last]);
    }
  }

  lemma {:induction false} DelayedSavesCounted(events: seq<Value>)
    ensures |RetryIndices(events)| == Rank(events, IsDelayedSave, |events|)
  {
    if events != [] {
      var shorter := events[..|events| - 1];
      var last := events[|events| - 1];
      assert events == shorter + [last];
      DelayedSavesCounted(shorter);
      RankOfPrefix(shorter, last, IsDelayedSave, |shorter|);
    }
  }

  /**
   What acceptance means, without order or scan: a sound receipt, nothing but commands and tolerated
   bookkeeping among its events, and exactly the expected commands, in order. The proof holds these
   commands and every other event.
   */
  lemma StrictProofIff(w: Window, value: Value, identity: Value)
    ensures Judge(w, value, identity, false).Proof?
            <==> && SoundReceipt(w, value, identity)
                 && (forall e :: e in EventsOf(value) ==> Tolerable(e))
                 && ListsExactly(EventsOf(value), NamesCommand, w.expected, HasText)
    ensures var verdict := Judge(w, value, identity, false);
            verdict.Proof? ==>
              verdict.commands == w.expected
              && ListsExactly(EventsOf(value), IsOther, verdict.background, Same)
  {
    NoFaultIffSound(w, value, identity);
    if SoundReceipt(w, value, identity) {
      var events := value.fields["events"].items;
      AllTolerableIff(events);
      if forall e :: e in events ==> Tolerable(e) {
        TolerableIsListed(events, w.expected);
      }
    }
  }

  lemma AllTolerableIff(events: seq<Value>)
    ensures FirstFault(events, false).None? <==> forall e :: e in events ==> Tolerable(e)
  {
    forall i | 0 <= i < |events|
      ensures EventFault(events[i], false).None? <==> Tolerable(events[i])
    {
      NoFaultIffTolerable(events[i]);
    }
    assert forall i :: 0 <= i < |events| ==> events[i] in events;
  }

  lemma TolerableIsListed(events: seq<Value>, expected: seq<string>)
    requires forall e :: e in events ==> Tolerable(e)
    ensures Commands(events) == expected <==> ListsExactly(events, NamesCommand, expected, HasText)
    ensures ListsExactly(events, IsOther, Background(events), Same)
  {
    CommandsListed(events);
    BackgroundListed(events);
    if ListsExactly(events, NamesCommand, expected, HasText) {
      ListsAreUnique(events, NamesCommand, Commands(events), expected, HasText);
    }
  }

  /** Every event before `i` meets the conditions, and `i` is refused for the first it does not meet. */
  ghost predicate StopsAt(events: seq<Value>, i: nat, c: Condition, retry: bool) {
    && i < |events| && !EventMeets(c, events[i], retry)
    && (forall d :: Order(d) < Order(c) ==> EventMeets(d, events[i], retry))
    && forall k, d :: 0 <= k < i ==> EventMeets(d, events[k], retry)
  }

  /** What every refusal and every rerun reports. */
  lemma DiagnosticIs(w: Window, value: Value, identity: Value, retry: bool)
    ensures match Judge(w, value, identity, retry)
            case Proof(_, _) => true
            case Refused(d) =>
              && d.window == w.name && d.retryableCount == 0
              && (match d.eventIndex
                  case Some(i) => SoundReceipt(w, value, identity) && StopsAt(EventsOf(value), i, d.condition, retry)
                  case None =>
                    if d.condition == CommandsMismatch then
                      && SoundReceipt(w, value, identity)
                      && !ListsExactly(EventsOf(value), NamesCommand, w.expected, HasText)
                    else
                      && !Meets(d.condition, w, value, identity)
                      && forall c :: Order(c) < Order(d.condition) ==> Meets(c, w, value, identity))
            case Retryable(d) =>
              && retry && d.window == w.name && d.condition == RetryableDelayedSave
              && SoundReceipt(w, value, identity)
              && d.retryableCount == Rank(EventsOf(value), IsDelayedSave, |EventsOf(value)|)
              && d.eventIndex.Some? && d.eventIndex.value < |EventsOf(value)|
              && IsDelayedSave(EventsOf(value)[d.eventIndex.value])
              && forall k :: 0 <= k < d.eventIndex.value ==> !IsDelayedSave(EventsOf(value)[k])
  {
    ReceiptFaultIsFirstUnmet(w, value, identity);
    NoFaultIffSound(w, value, identity);
    if SoundReceipt(w, value, identity) {
      var events := value.fields["events"].items;
      forall i | 0 <= i < |events|
        ensures match EventFault(events[i], retry)
                case None => forall c :: EventMeets(c, events[i], retry)
                case Some(c) => !EventMeets(c, events[i], retry) && forall d :: Order(d) < Order(c) ==> EventMeets(d, events[i], retry)
      {
        EventFaultIsFirstUnmet(events[i], retry);
      }
      if FirstFault(events, retry).None? {
        MismatchIsListed(events, w.expected, retry);
        DelayedSavesCounted(events);
        SomeRetryable(events);
      }
    }
  }

  lemma MismatchIsListed(events: seq<Value>, expected: seq<string>, retry: bool)
    requires FirstFault(events, retry).None?
    ensures Commands(events) == expected <==> ListsExactly(events, NamesCommand, expected, HasText)
  {
    forall e | e in events && NamesCommand(e)
      ensures Part(e, "command").Str?
    {
      var i :| 0 <= i < |events| && events[i] == e;
      assert EventFault(events[i], retry).None?;
    }
    CommandsListed(events);
    if ListsExactly(events, NamesCommand, expected, HasText) {
      ListsAreUnique(events, NamesCommand, Commands(events), expected, HasText);
    }
  }

  /** A lenient proof is a strict proof, and the other way round. */
  lemma ProofsCoincide(w: Window, value: Value, identity: Value)
    ensures Judge(w, value, identity, true).Proof? <==> Judge(w, value, identity, false).Proof?
    ensures Judge(w, value, identity, true).Proof? ==>
              Judge(w, value, identity, true) == Judge(w, value, identity, false)
  {
    if ReceiptFault(w, value, identity).None? {
      StrictFirstFault(value.fields["events"].items);
    }
  }

  /** What strict mode says whenever lenient mode does not prove the window. */
  lemma StrictFromLenient(w: Window, value: Value, identity: Value)
    ensures var lenient := Judge(w, value, identity, true);
            var strict := Judge(w, value, identity, false);
            match lenient
            case Proof(_, _) => strict == lenient
            case Retryable(d) => strict == Refused(Diagnostic(UntoleratedStore, w.name, d.eventIndex, 0))
            case Refused(d) =>
              || strict == lenient
              || (strict.Refused? && strict.diagnostic.condition == UntoleratedStore
                  && strict.diagnostic.eventIndex.Some?
                  && (d.eventIndex.Some? ==> strict.diagnostic.eventIndex.value < d.eventIndex.value)
                  && IsRetryable(value.fields["events"].items[strict.diagnostic.eventIndex.value]))
  {
    if ReceiptFault(w, value, identity).None? {
      var events := value.fields["events"].items;
      StrictFirstFault(events);
      if RetryIndices(events) != [] {
        RetryableFault(events[RetryIndices(events)[0]]);
      }
      if FirstFault(events, true).Some? {
        RetryableFault(events[FirstFault(events, true).value]);
      }
    }
  }

  /** Cleaning a receipt does not touch anything the receipt checks read, except the event count. */
  lemma CleaningKeepsTheReceipt(w: Window, value: Value, identity: Value)
    requires value.Dict? && value.fields.Keys == RECEIPT_KEYS && value.fields["events"].List?
    ensures ReceiptFault(w, value, identity).None?
            <==> |value.fields["events"].items| <= MAX_EVENTS && ReceiptFault(w, Cleaned(value), identity).None?
  {
    assert Cleaned(value).fields.Keys == RECEIPT_KEYS;
  }

  /** A receipt without its fields, or whose events are no list, is never retryable. */
  lemma MalformedIsNeverRetryable(w: Window, value: Value, identity: Value, retry: bool)
    requires !(value.Dict? && value.fields.Keys == RECEIPT_KEYS && value.fields["events"].List?)
    ensures Judge(w, value, identity, retry).Refused?
  {}

  /** Among receipts with their fields, those that are retryable. */
  lemma WellFormedRetryableIff(w: Window, value: Value, identity: Value)
    requires value.Dict? && value.fields.Keys == RECEIPT_KEYS && value.fields["events"].List?
    ensures var events := value.fields["events"].items;
            Judge(w, value, identity, true).Retryable?
            <==> && |events| <= MAX_EVENTS
                 && (exists i :: 0 <= i < |events| && IsRetryable(events[i]))
                 && Judge(w, Cleaned(value), identity, false) == Proof(Commands(events), Background(events))
  {
    var events := value.fields["events"].items;
    CleaningKeepsTheReceipt(w, value, identity);
    StrippingKeepsTheRest(events);
    StrippingKeepsFaults(events);
    SomeRetryable(events);
  }

  /** Some event of the receipt is a delayed save of the retryable store. */
  ghost predicate HoldsRetryable(value: Value) {
    value.Dict? && value.Get("events").List?
    && var events := value.Get("events").items; exists i :: 0 <= i < |events| && IsRetryable(events[i])
  }

  /**
   A window is retryable exactly when it is a receipt with a list of events that holds a delayed save
   of the retryable store, is not too long, and deleting those saves leaves a window strict mode accepts.
   */
  lemma RetryableIffCleanedIsValid(w: Window, value: Value, identity: Value)
    ensures Judge(w, value, identity, true).Retryable?
            <==> && HoldsRetryable(value)
                 && var events := value.Get("events").items;
                 && |events| <= MAX_EVENTS
                 && Judge(w, Cleaned(value), identity, false) == Proof(Commands(events), Background(events))
  {
    if !(value.Dict? && value.Get("events").List?) {
      MalformedIsNeverRetryable(w, value, identity, true);
    } else if value.fields.Keys != RECEIPT_KEYS {
      MalformedIsNeverRetryable(w, value, identity, true);
      assert Cleaned(value).fields.Keys == value.fields.Keys;
      MalformedIsNeverRetryable(w, Cleaned(value), identity, false);
    } else {
      WellFormedRetryableIff(w, value, identity);
    }
  }

  ghost predicate NoneRetryable(events: seq<Value>, n: nat)
    requires n <= |events|
  {
    forall i :: 0 <= i < n ==> !IsRetryable(events[i])
  }

  lemma NoneRetryableSnoc(events: seq<Value>, n: nat)
    requires events != [] && n < |events|
    ensures NoneRetryable(events, n) <==> NoneRetryable(events[..|events| - 1], n)
    ensures NoneRetryable(events, |events|)
            <==> NoneRetryable(events, |events| - 1) && !IsRetryable(events[|events| - 1])
  {}

  lemma RetryIndicesSnoc(events: seq<Value>)
    requires events != []
    ensures var earlier := RetryIndices(events[..|events| - 1]);
            RetryIndices(events) == if IsRetryable(events[|events| - 1]) then earlier + [|events| - 1] else earlier
  {}

  /** The diagnostic counts every retryable event and points at the first. */
  lemma {:induction false} SomeRetryable(events: seq<Value>)
    ensures RetryIndices(events) == [] <==> NoneRetryable(events, |events|)
    ensures RetryIndices(events) != [] ==> NoneRetryable(events, RetryIndices(events)[0])
    ensures |RetryIndices(events)| == |events| - |Stripped(events)|
  {
    if events != [] {
      var shorter := events[..|events| - 1];
      SomeRetryable(shorter);
      StrippedSnoc(events);
      RetryIndicesSnoc(events);
      NoneRetryableSnoc(events, |events| - 1);
      if RetryIndices(shorter) != [] {
        NoneRetryableSnoc(events, RetryIndices(shorter)[0]);
      }
    }
  }
}
