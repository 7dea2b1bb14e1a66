/**
 Verification of one observed interval of a disposable Core: ordered checks on the
 receipt, then one scan over its events. With `retry` the scan skips delayed saves
 of the one retryable store, and reports them only if everything else passed.
 */
module Observation {
  import opened Support
  import opened Values

  const RECEIPT_KEYS: set<string> := {
    "interval_id", "kind", "events", "overflow", "expired", "baseline_store_hashes", "model",
    "elapsed_seconds", "final_store_hashes", "coverage", "core_version", "observer_sha256" }
  const OBSERVER_MODEL := "alarmo-core-interval-v2"
  const OBSERVER_HOOKS: set<string> := {
    "ActiveConnection.async_handle", "ConfigEntriesFlowManager.async_init", "FlowManager.async_init",
    "FlowManager.async_configure", "FlowManager.async_abort", "ServiceRegistry.async_call",
    "Store.async_save", "Store.async_delay_save", "Store._async_write_data", "Store.async_remove" }
  const STORE_HASH_KEYS: set<string> := {
    "alarmo.storage", "core.config_entries", "core.entity_registry", "core.device_registry" }
  const STORAGE_KINDS: set<string> := {"storage_save", "storage_delay_save", "storage_write"}
  const TOLERATED_STORES: set<string> := {"auth", "core.restore_state"}
  const RETRY_STORE := "repairs.issue_registry"
  const RETRY_EVENT_KIND := "storage_delay_save"
  const MAX_EVENTS: nat := 128

  datatype Condition =
    | ReceiptShape | ObserverModel | CoreVersion | IntervalIdentity | IntervalKind
    | EventOverflow | IntervalExpired | ElapsedSeconds | ObserverSource | HookCoverage
    | StoreHashShape | StoreHashChanged | EventsShape
    | EventShape | CommandEventShape | UnexpectedEventKind | CommandOriginStorage
    | StorageEventShape | UntoleratedStore | CommandsMismatch | RetryableDelayedSave

  datatype Diagnostic = Diagnostic(condition: Condition, window: string, eventIndex: Option<nat>, retryableCount: nat)

  datatype Verdict =
    | Proof(commands: seq<string>, background: seq<Value>)
    | Refused(diagnostic: Diagnostic)
    | Retryable(diagnostic: Diagnostic)

  /** What one window is verified against; `sourceHash` is the observer's own source digest. */
  datatype Window = Window(name: string, kind: string, expected: seq<string>, coreVersion: string, sourceHash: string)

  predicate HashMap(v: Value) {
    v.Dict? && v.fields.Keys == STORE_HASH_KEYS
    && forall k :: k in v.fields ==> v.fields[k].Null? || (v.fields[k].Str? && IsHex(v.fields[k].s, 64))
  }

  /** The receipt checks that precede the scan, in the order they are made. */
  function ReceiptFault(w: Window, value: Value, identity: Value): Option<Condition> {
    if !(value.Dict? && value.fields.Keys == RECEIPT_KEYS) then Some(ReceiptShape)
    else
      var f := value.fields;
      if f["model"] != Str(OBSERVER_MODEL) then Some(ObserverModel)
      else if f["core_version"] != Str(w.coreVersion) then Some(CoreVersion)
      else if !(f["interval_id"] == identity && identity.Str? && IsHex(identity.s, 32)) then Some(IntervalIdentity)
      else if f["kind"] != Str(w.kind) then Some(IntervalKind)
      else if f["overflow"] != Bool(false) then Some(EventOverflow)
      else if f["expired"] != Bool(false) then Some(IntervalExpired)
      else if !(f["elapsed_seconds"].Num? && 0.0 <= f["elapsed_seconds"].r <= 45.0) then Some(ElapsedSeconds)
      else if f["observer_sha256"] != Str(w.sourceHash) then Some(ObserverSource)
      else if !(f["coverage"].Dict? && f["coverage"].fields.Keys == OBSERVER_HOOKS
                && forall k :: k in f["coverage"].fields ==> f["coverage"].fields[k] == Bool(true)) then Some(HookCoverage)
      else if !HashMap(f["baseline_store_hashes"]) || !HashMap(f["final_store_hashes"]) then Some(StoreHashShape)
      else if f["baseline_store_hashes"] != f["final_store_hashes"] then Some(StoreHashChanged)
      else if !(f["events"].List? && |f["events"].items| <= MAX_EVENTS) then Some(EventsShape)
      else None
  }

  predicate IsCommand(e: Value) {
    e.Dict? && e.Get("kind") == Str("command")
  }

  /** A background scheduling of a delayed save of the retryable store. */
  predicate IsRetryable(e: Value) {
    && e.Dict? && e.fields.Keys == {"kind", "origin", "store"}
    && e.fields["origin"] == Str("background")
    && e.fields["store"] == Str(RETRY_STORE) && e.fields["kind"] == Str(RETRY_EVENT_KIND)
  }

  /** Why the scan refuses an event, in the order the checks are made. */
  function EventFault(e: Value, retry: bool): Option<Condition> {
    if !(e.Dict? && IsOneOf(e.Get("origin"), {"command", "background"})) then Some(EventShape)
    else if e.Get("kind") == Str("command") then
      if e.fields.Keys == {"kind", "origin", "command"} && e.fields["command"].Str? then None
      else Some(CommandEventShape)
    else if !IsOneOf(e.Get("kind"), STORAGE_KINDS) then Some(UnexpectedEventKind)
    else if e.Get("origin") != Str("background") then Some(CommandOriginStorage)
    else if e.fields.Keys != (if e.Get("store") == Str("other") then {"kind", "origin", "store", "store_class"}
                              else {"kind", "origin", "store"}) then Some(StorageEventShape)
    else if retry && e.fields["store"] == Str(RETRY_STORE) && e.fields["kind"] == Str(RETRY_EVENT_KIND) then None
    else if !IsOneOf(e.fields["store"], TOLERATED_STORES) then Some(UntoleratedStore)
    else None
  }

  function CommandName(e: Value): string
    requires IsCommand(e)
  {
    if e.Get("command").Str? then e.Get("command").s else ""
  }

  /** The commands among events, in order. */
  function Commands(events: seq<Value>): seq<string> {
    if events == [] then []
    else
      var last := events[|events| - 1];
      Commands(events[..|events| - 1]) + if IsCommand(last) then [CommandName(last)] else []
  }

  /** The bookkeeping among events, in order. */
  function Background(events: seq<Value>): seq<Value> {
    if events == [] then []
    else
      var last := events[|events| - 1];
      Background(events[..|events| - 1]) + if IsCommand(last) || IsRetryable(last) then [] else [last]
  }

  /** The positions of retryable events, ascending. */
  function RetryIndices(events: seq<Value>): (r: seq<nat>)
    ensures forall i :: 0 <= i < |r| ==> r[i] < |events| && IsRetryable(events[r[i]])
  {
    if events == [] then []
    else
      RetryIndices(events[..|events| - 1]) + if IsRetryable(events[|events| - 1]) then [|events| - 1] else []
  }

  /** The events that are not retryable, in order. */
  function Stripped(events: seq<Value>): (r: seq<Value>)
    ensures |r| <= |events|
  {
    if events == [] then []
    else
      Stripped(events[..|events| - 1]) + if IsRetryable(events[|events| - 1]) then [] else [events[|events| - 1]]
  }

  function FirstFault(events: seq<Value>, retry: bool): (r: Option<nat>)
    ensures r.Some? ==> r.value < |events| && EventFault(events[r.value], retry).Some?
    ensures r.Some? ==> forall i :: 0 <= i < r.value ==> EventFault(events[i], retry).None?
    ensures r.None? ==> forall i :: 0 <= i < |events| ==> EventFault(events[i], retry).None?
  {
    if events == [] then None
    else
      var earlier := FirstFault(events[..|events| - 1], retry);
      if earlier.Some? then earlier
      else if EventFault(events[|events| - 1], retry).Some? then Some(|events| - 1)
      else None
  }

  /** The verdict on a receipt, without the loop. */
  function Judge(w: Window, value: Value, identity: Value, retry: bool): Verdict {
    match ReceiptFault(w, value, identity)
    case Some(c) => Refused(Diagnostic(c, w.name, None, 0))
    case None =>
      var events := value.fields["events"].items;
      match FirstFault(events, retry)
      case Some(i) => Refused(Diagnostic(EventFault(events[i], retry).value, w.name, Some(i), 0))
      case None =>
        if Commands(events) != w.expected then Refused(Diagnostic(CommandsMismatch, w.name, None, 0))
        else
          var retryable := RetryIndices(events);
          if retry && retryable != [] then
            Retryable(Diagnostic(RetryableDelayedSave, w.name, Some(retryable[0]), |retryable|))
          else Proof(Commands(events), Background(events))
  }

  /** The loop: one pass that collects as it checks, up to the first event it refuses. */
  method Scan(events: seq<Value>, retry: bool)
    returns (fault: Option<nat>, commands: seq<string>, background: seq<Value>, retryable: seq<nat>)
    ensures fault == FirstFault(events, retry)
    ensures fault.None? ==> commands == Commands(events) && background == Background(events)
    ensures fault.None? ==> retryable == if retry then RetryIndices(events) else []
  {
    commands, background, retryable := [], [], [];
    var index := 0;
    while index < |events|
      invariant 0 <= index <= |events|
      invariant FirstFault(events[..index], retry).None?
      invariant commands == Commands(events[..index])
      invariant background == Background(events[..index])
      invariant retryable == if retry then RetryIndices(events[..index]) else []
    {
      var event := events[index];
      ScanStep(events, index, retry);
      if EventFault(event, retry).Some? {
        FaultOfPrefix(events, index + 1, retry);
        return Some(index), commands, background, retryable;
      }
      if IsCommand(event) {
        commands := commands + [CommandName(event)];
      } else {
        PassedEvent(event, retry);
        if retry && event.fields["store"] == Str(RETRY_STORE) && event.fields["kind"] == Str(RETRY_EVENT_KIND) {
          retryable := retryable + [index];
        } else {
          background := background + [event];
        }
      }
      index := index + 1;
    }
    assert events[..index] == events;
    return None, commands, background, retryable;
  }

  /** The verifier itself. */
  method VerifyInterval(w: Window, value: Value, identity: Value, retry: bool) returns (verdict: Verdict)
    ensures verdict == Judge(w, value, identity, retry)
  {
    var fault := ReceiptFault(w, value, identity);
    if fault.Some? {
      return Refused(Diagnostic(fault.value, w.name, None, 0));
    }
    var events := value.fields["events"].items;
    var bad, commands, background, retryable := Scan(events, retry);
    if bad.Some? {
      return Refused(Diagnostic(EventFault(events[bad.value], retry).value, w.name, bad, 0));
    }
    if commands != w.expected {
      return Refused(Diagnostic(CommandsMismatch, w.name, None, 0));
    }
    if retryable != [] {
      return Retryable(Diagnostic(RetryableDelayedSave, w.name, Some(retryable[0]), |retryable|));
    }
    return Proof(commands, background);
  }

  /** One more event, for each of the lists the scan collects. */
  lemma ScanStep(events: seq<Value>, i: nat, retry: bool)
    requires i < |events| && FirstFault(events[..i], retry).None?
    ensures var e := events[i];
            && FirstFault(events[..i + 1], retry) == (if EventFault(e, retry).Some? then Some(i) else None)
            && Commands(events[..i + 1]) == (if IsCommand(e) then Commands(events[..i]) + [CommandName(e)] else Commands(events[..i]))
            && Background(events[..i + 1])
               == (if IsCommand(e) || IsRetryable(e) then Background(events[..i]) else Background(events[..i]) + [e])
            && RetryIndices(events[..i + 1])
               == (if IsRetryable(e) then RetryIndices(events[..i]) + [i] else RetryIndices(events[..i]))
  {
    assert events[..i + 1][..i] == events[..i];
  }

  /** An event that is not refused is a command, bookkeeping, or (only with `retry`) retryable. */
  lemma PassedEvent(e: Value, retry: bool)
    requires EventFault(e, retry).None? && !IsCommand(e)
    ensures e.Dict? && "store" in e.fields && "kind" in e.fields
    ensures IsRetryable(e) <==> e.fields["store"] == Str(RETRY_STORE) && e.fields["kind"] == Str(RETRY_EVENT_KIND)
    ensures IsRetryable(e) ==> retry
  {}

  lemma {:induction false} FaultOfPrefix(events: seq<Value>, n: nat, retry: bool)
    requires n <= |events| && FirstFault(events[..n], retry).Some?
    ensures FirstFault(events, retry) == FirstFault(events[..n], retry)
  {
    var i := FirstFault(events[..n], retry).value;
    assert EventFault(events[i], retry).Some?;
    assert forall j :: 0 <= j < i ==> EventFault(events[..n][j], retry).None?;
    assert forall j :: 0 <= j < i ==> events[..n][j] == events[j];
    var r := FirstFault(events, retry);
    assert r.Some?;
  }
}
