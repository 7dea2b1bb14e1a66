/**
 One window of the dashboard lane: its observation and its wire trace, checked alike
 online and offline. As in the interval verifier, the retrying mode skips delayed saves
 of the one retryable store and reports them only if everything else passed.
 */
module CaseWindows {
  import opened Support
  import opened Values
  import Observation

  const CASE_CORE_VERSION := "2026.9.4"
  const MAX_TOOL_CATALOG_PAGES: nat := 20
  const MAX_CONTINUATIONS: nat := 20

  /** A case's expected success and how many native and upstream reads it makes. */
  datatype Expectation = Expectation(success: bool, nativeReads: nat, upstreamRead: nat)

  datatype CaseVerdict = Verifies | Rerun(count: nat) | Refused | Broken

  /** One check of a value: it holds, it is refused, or looking at the value raises. */
  datatype Finding = Fine | Refuses | Raises

  predicate Bookkeeping(e: Value)
    requires e.Dict?
  {
    && e.Get("origin") == Str("background")
    && IsOneOf(e.Get("store"), Observation.TOLERATED_STORES) && IsOneOf(e.Get("kind"), Observation.STORAGE_KINDS)
  }

  predicate DelayedSave(e: Value)
    requires e.Dict?
  {
    && e.Get("origin") == Str("background")
    && e.Get("store") == Str(Observation.RETRY_STORE) && e.Get("kind") == Str(Observation.RETRY_EVENT_KIND)
  }

  datatype EventClass = Command(command: Value) | Save | Tolerated | Untolerated | Unreadable

  function ClassOf(e: Value, retry: bool): EventClass {
    if !(e.Dict? && "kind" in e.fields) then Unreadable
    else if e.fields["kind"] == Str("command") then
      if "command" in e.fields then Command(e.fields["command"]) else Unreadable
    else if retry && DelayedSave(e) then Save
    else if Bookkeeping(e) then Tolerated
    else Untolerated
  }

  /** The commands gathered and the retryable saves counted, or where gathering stopped. */
  datatype Gathering = Gathered(commands: seq<Value>, retryable: nat) | Stopped(finding: Finding)

  function Gather(events: seq<Value>, retry: bool): Gathering {
    if events == [] then Gathered([], 0)
    else
      match Gather(events[..|events| - 1], retry)
      case Stopped(finding) => Stopped(finding)
      case Gathered(commands, retryable) =>
        match ClassOf(events[|events| - 1], retry)
        case Command(command) => Gathered(commands + [command], retryable)
        case Save => Gathered(commands, retryable + 1)
        case Tolerated => Gathered(commands, retryable)
        case Untolerated => Stopped(Refuses)
        case Unreadable => Stopped(Raises)
  }

  method WindowCommands(events: seq<Value>, retry: bool) returns (g: Gathering)
    ensures g == Gather(events, retry)
  {
    var commands: seq<Value> := [];
    var retryable := 0;
    var i := 0;
    while i < |events|
      invariant 0 <= i <= |events|
      invariant Gather(events[..i], retry) == Gathered(commands, retryable)
    {
      GatherNext(events, i, retry);
      match ClassOf(events[i], retry) {
        case Command(command) => commands := commands + [command];
        case Save => retryable := retryable + 1;
        case Tolerated =>
        case Untolerated =>
          GatheringStops(events, i + 1, retry);
          return Stopped(Refuses);
        case Unreadable =>
          GatheringStops(events, i + 1, retry);
          return Stopped(Raises);
      }
      i := i + 1;
    }
    assert events[..i] == events;
    return Gathered(commands, retryable);
  }

  lemma GatherNext(events: seq<Value>, i: nat, retry: bool)
    requires i < |events| && Gather(events[..i], retry).Gathered?
    ensures var g := Gather(events[..i], retry);
            Gather(events[..i + 1], retry) ==
              match ClassOf(events[i], retry)
              case Command(command) => Gathered(g.commands + [command], g.retryable)
              case Save => Gathered(g.commands, g.retryable + 1)
              case Tolerated => g
              case Untolerated => Stopped(Refuses)
              case Unreadable => Stopped(Raises)
  {
    assert events[..i + 1][..i] == events[..i];
  }

  lemma {:induction false} GatheringStops(events: seq<Value>, n: nat, retry: bool)
    requires n <= |events| && Gather(events[..n], retry).Stopped?
    ensures Gather(events, retry) == Gather(events[..n], retry)
    decreases |events|
  {
    if n < |events| {
      var shorter := events[..|events| - 1];
      assert shorter[..n] == events[..n];
      GatheringStops(shorter, n, retry);
    } else {
      assert events[..n] == events;
    }
  }

  /** What a loop over a value visits; the items of a non-empty text or mapping are no events. */
  function Iterated(v: Value): Option<seq<Value>> {
    match v
    case List(items) => Some(items)
    case Str(s) => if s == "" then Some([]) else None
    case Dict(fields) => if fields.Keys == {} then Some([]) else None
    case _ => None
  }

  /** The checks of the observation that precede its events, in order. */
  function ObservedFinding(observed: Value, sourceHash: string): Finding {
    if !(observed.Dict? && "overflow" in observed.fields) then Raises
    else
      var f := observed.fields;
      if f["overflow"] != Bool(false) then Refuses
      else if "expired" !in f then Raises
      else if f["expired"] != Bool(false) then Refuses
      else if "core_version" !in f then Raises
      else if f["core_version"] != Str(CASE_CORE_VERSION) then Refuses
      else if !("coverage" in f && f["coverage"].Dict?) then Raises
      else if exists hook :: hook in f["coverage"].fields && !Truthy(f["coverage"].fields[hook]) then Refuses
      else if "observer_sha256" !in f then Raises
      else if f["observer_sha256"] != Str(sourceHash) then Refuses
      else if !("baseline_store_hashes" in f && "final_store_hashes" in f) then Raises
      else if f["baseline_store_hashes"] != f["final_store_hashes"] then Refuses
      else if !("events" in f && Iterated(f["events"]).Some?) then Raises
      else Fine
  }

  function ExpectedCommands(e: Expectation): seq<Value> {
    (if e.upstreamRead > 0 then [Str("lovelace/config")] else [])
    + (if e.nativeReads > 0 then [Str("config/entity_registry/list")] else [])
  }

  const PROTOCOL: set<string> := {"tools/call", "initialize", "notifications/initialized", "tools/list", "session_cleanup"}

  function CountOf(calls: seq<Value>, name: string): nat {
    multiset(calls)[Str(name)]
  }

  /** The count a mapping gives for a name; an absent one counts 0. */
  function Tally(counts: map<string, Value>, name: string): Value {
    if name in counts then counts[name] else Num(0.0)
  }

  /** A truth value compares as 0 or 1. */
  predicate Numeric(v: Value) {
    v.Num? || v.Bool? || v.NonFinite?
  }

  predicate AtMost(v: Value, bound: real) {
    match v
    case Num(r) => r <= bound
    case Bool(b) => (if b then 1.0 else 0.0) <= bound
    case NonFinite(below) => below
    case _ => false
  }

  predicate AtLeastOne(v: Value) {
    match v
    case Num(r) => r >= 1.0
    case Bool(b) => b
    case _ => false
  }

  predicate IsOnce(v: Value) {
    v == Num(1.0) || v == Bool(true)
  }

  /** A mapping in place of the calls is read as their counts. */
  function CountsFinding(counts: map<string, Value>): Finding {
    var listed, cleanup := Tally(counts, "tools/list"), Tally(counts, "session_cleanup");
    if !(IsOnce(Tally(counts, "tools/call")) && IsOnce(Tally(counts, "initialize"))
         && IsOnce(Tally(counts, "notifications/initialized"))) then Refuses
    else if !Numeric(listed) then Raises
    else if !(AtLeastOne(listed) && AtMost(listed, MAX_TOOL_CATALOG_PAGES as real)) then Refuses
    else if !Numeric(cleanup) then Raises
    else if !(AtMost(cleanup, 1.0) && counts.Keys <= PROTOCOL) then Refuses
    else Fine
  }

  /** The upstream calls of a case with an upstream read: one dispatch, one initialization, bounded listing. */
  function UpstreamFinding(mcp: Value): Finding {
    match mcp
    case List(calls) =>
      if exists i :: 0 <= i < |calls| && (calls[i].List? || calls[i].Dict?) then Raises
      else if !(CountOf(calls, "tools/call") == CountOf(calls, "initialize") == CountOf(calls, "notifications/initialized") == 1) then
        Refuses
      else if !(1 <= CountOf(calls, "tools/list") <= MAX_TOOL_CATALOG_PAGES && CountOf(calls, "session_cleanup") <= 1
                && forall i :: 0 <= i < |calls| ==> IsOneOf(calls[i], PROTOCOL)) then Refuses
      else Fine
    case Null => Refuses
    case Str(_) => Refuses
    case Dict(counts) => CountsFinding(counts)
    case _ => Raises
  }

  function Recorded(e: Expectation, names: seq<Value>): Value {
    List(if e.nativeReads > 0 then names else [])
  }

  function WireFinding(wire: Value, e: Expectation): Finding {
    if !(wire.Dict? && "mcp" in wire.fields) then Raises
    else
      var f := wire.fields;
      var upstream := if e.upstreamRead > 0 then UpstreamFinding(f["mcp"]) else if Truthy(f["mcp"]) then Refuses else Fine;
      if upstream != Fine then upstream
      else if "native_http" !in f then Raises
      else if f["native_http"] != Recorded(e, [Str("GET /api/states"), Str("GET /api/websocket")]) then Refuses
      else if "native_ws" !in f then Raises
      else if f["native_ws"] != Recorded(e, [Str("auth"), Str("config/entity_registry/list")]) then Refuses
      else Fine
  }

  function FromFinding(finding: Finding): CaseVerdict
    requires finding != Fine
  {
    if finding == Refuses then Refused else Broken
  }

  /** The verdict on one window, without the loop. */
  function Judged(wire: Value, observed: Value, retry: bool, e: Expectation, sourceHash: string): CaseVerdict {
    var head := ObservedFinding(observed, sourceHash);
    if head != Fine then FromFinding(head)
    else JudgedEvents(wire, Gather(Iterated(observed.fields["events"]).value, retry), e)
  }

  function JudgedEvents(wire: Value, g: Gathering, e: Expectation): CaseVerdict {
    match g
    case Stopped(finding) => if finding == Refuses then Refused else Broken
    case Gathered(commands, retryable) =>
      if commands != ExpectedCommands(e) then Refused
      else if WireFinding(wire, e) != Fine then FromFinding(WireFinding(wire, e))
      else if retryable > 0 then Rerun(retryable)
      else Verifies
  }

  method VerifyCaseWindow(wire: Value, observed: Value, retry: bool, e: Expectation, sourceHash: string)
    returns (verdict: CaseVerdict)
    ensures verdict == Judged(wire, observed, retry, e, sourceHash)
  {
    var head := ObservedFinding(observed, sourceHash);
    if head != Fine {
      return FromFinding(head);
    }
    var gathered := WindowCommands(Iterated(observed.fields["events"]).value, retry);
    return JudgedEvents(wire, gathered, e);
  }

  // ----- What the verdicts mean -----

  /** An event that may stand in an accepted window: a command, or tolerated background bookkeeping. */
  ghost predicate Allowed(e: Value) {
    && e.Dict? && "kind" in e.fields
    && if e.fields["kind"] == Str("command") then "command" in e.fields
       else
         && e.Get("origin") == Str("background") && IsOneOf(e.Get("store"), {"auth", "core.restore_state"})
         && IsOneOf(e.Get("kind"), {"storage_save", "storage_delay_save", "storage_write"})
  }

  /** A background delayed save of the store of repairs. */
  predicate Skippable(e: Value) {
    && e.Dict? && e.Get("origin") == Str("background")
    && e.Get("store") == Str("repairs.issue_registry") && e.Get("kind") == Str("storage_delay_save")
  }

  lemma ClassesByMode(e: Value)
    ensures var strict, lenient := ClassOf(e, false), ClassOf(e, true);
            && (Allowed(e) <==> strict.Command? || strict.Tolerated?)
            && (if Skippable(e) then lenient == Save && strict == Untolerated else lenient == strict)
  {
    if Skippable(e) {
      assert e.fields["kind"] == Str("storage_delay_save");
    }
  }

  /** The commands among the events, in order. */
  function CommandsOf(events: seq<Value>): seq<Value> {
    if events == [] then []
    else
      var last := events[|events| - 1];
      CommandsOf(events[..|events| - 1])
      + if last.Dict? && last.Get("kind") == Str("command") then [last.Get("command")] else []
  }

  /** The events without the delayed saves that may be skipped. */
  function Remaining(events: seq<Value>): (r: seq<Value>)
    ensures |r| <= |events|
  {
    if events == [] then []
    else
      Remaining(events[..|events| - 1]) + if Skippable(events[|events| - 1]) then [] else [events[|events| - 1]]
  }

  ghost predicate AllAllowed(events: seq<Value>) {
    forall i :: 0 <= i < |events| ==> Allowed(events[i])
  }

  lemma AllAllowedSnoc(events: seq<Value>)
    requires events != []
    ensures AllAllowed(events) <==> AllAllowed(events[..|events| - 1]) && Allowed(events[|events| - 1])
  {}

  lemma {:induction false} StrictGathering(events: seq<Value>)
    ensures Gather(events, false).Gathered? <==> AllAllowed(events)
    ensures AllAllowed(events) ==> Gather(events, false) == Gathered(CommandsOf(events), 0)
  {
    if events != [] {
      StrictGathering(events[..|events| - 1]);
      ClassesByMode(events[|events| - 1]);
      AllAllowedSnoc(events);
    }
  }

  lemma RemainingSnoc(events: seq<Value>)
    requires events != []
    ensures var last := events[|events| - 1];
            var shorter := Remaining(events[..|events| - 1]);
            if Skippable(last) then Remaining(events) == shorter
            else Remaining(events) == shorter + [last] && Remaining(events)[..|Remaining(events)| - 1] == shorter
  {}

  /** Lenient gathering is strict gathering of what remains, plus the number of events skipped. */
  lemma {:induction false} LenientGathering(events: seq<Value>)
    ensures var lenient, strict := Gather(events, true), Gather(Remaining(events), false);
            && (lenient.Gathered? <==> strict.Gathered?)
            && (lenient.Gathered? ==> lenient == Gathered(strict.commands, |events| - |Remaining(events)|))
  {
    if events != [] {
      LenientGathering(events[..|events| - 1]);
      RemainingSnoc(events);
      ClassesByMode(events[|events| - 1]);
      StrictGathering(Remaining(events));
    }
  }

  /** Where the lenient mode goes on past a save, the strict mode refuses at the first one. */
  lemma {:induction false} SaveIsRefusedStrictly(events: seq<Value>)
    requires Gather(events, true).Gathered?
    ensures Gather(events, false) == if Gather(events, true).retryable == 0 then Gather(events, true) else Stopped(Refuses)
  {
    if events != [] {
      SaveIsRefusedStrictly(events[..|events| - 1]);
      ClassesByMode(events[|events| - 1]);
    }
  }

  /** The event cannot be read: it has no kind, or is a command without its command. */
  ghost predicate CannotBeRead(e: Value) {
    !(e.Dict? && "kind" in e.fields) || (e.fields["kind"] == Str("command") && "command" !in e.fields)
  }

  /** The event is passed over or gathered. */
  ghost predicate Passes(e: Value, retry: bool) {
    Allowed(e) || (retry && Skippable(e))
  }

  /** Gathering stops at the first event that does not pass; an unreadable one raises, any other is refused. */
  lemma {:induction false} GatherStopsAtFirst(events: seq<Value>, retry: bool)
    ensures match Gather(events, retry)
            case Gathered(commands, retryable) =>
              && (forall k :: 0 <= k < |events| ==> Passes(events[k], retry))
              && commands == CommandsOf(events)
              && retryable == if retry then |events| - |Remaining(events)| else 0
            case Stopped(finding) =>
              exists k :: 0 <= k < |events| && !Passes(events[k], retry)
                          && (forall j :: 0 <= j < k ==> Passes(events[j], retry))
                          && finding == if CannotBeRead(events[k]) then Raises else Refuses
  {
    if events != [] {
      var shorter := events[..|events| - 1];
      var last := events[|events| - 1];
      GatherStopsAtFirst(shorter, retry);
      ClassesByMode(last);
      RemainingSnoc(events);
      assert forall k :: 0 <= k < |shorter| ==> shorter[k] == events[k];
      if Gather(shorter, retry).Gathered? && !Passes(last, retry) {
        assert events[|shorter|] == last;
      }
    }
  }

  /** A list gives its items; empty text and an empty mapping give none; anything else gives no events. */
  lemma IteratedIs(v: Value)
    ensures v.List? ==> Iterated(v) == Some(v.items)
    ensures v == Str("") || v == Dict(map[]) ==> Iterated(v) == Some([])
    ensures !v.List? && v != Str("") && v != Dict(map[]) ==> Iterated(v) == None
  {
    if v.Dict? && v.fields.Keys == {} {
      assert v.fields == map[];
    }
  }

  /** What step `k` of the observation's checks must read, and what it must find there. */
  ghost predicate Reads(k: nat, observed: Value) {
    match k
    case 0 => observed.Dict? && "overflow" in observed.fields
    case 1 => observed.Dict? && "expired" in observed.fields
    case 2 => observed.Dict? && "core_version" in observed.fields
    case 3 => Part(observed, "coverage").Dict?
    case 4 => observed.Dict? && "observer_sha256" in observed.fields
    case 5 => observed.Dict? && "baseline_store_hashes" in observed.fields && "final_store_hashes" in observed.fields
    case 6 => observed.Dict? && "events" in observed.fields && Iterated(observed.fields["events"]).Some?
    case _ => true
  }

  ghost predicate Finds(k: nat, observed: Value, sourceHash: string) {
    match k
    case 0 => Part(observed, "overflow") == Bool(false)
    case 1 => Part(observed, "expired") == Bool(false)
    case 2 => Part(observed, "core_version") == Str("2026.9.4")
    case 3 =>
      Part(observed, "coverage").Dict?
      && forall hook :: hook in Part(observed, "coverage").fields ==> Truthy(Part(observed, "coverage").fields[hook])
    case 4 => Part(observed, "observer_sha256") == Str(sourceHash)
    case 5 => Part(observed, "baseline_store_hashes") == Part(observed, "final_store_hashes")
    case _ => true
  }

  ghost predicate PassesUpTo(k: nat, observed: Value, sourceHash: string) {
    forall j: nat :: j < k ==> Reads(j, observed) && Finds(j, observed, sourceHash)
  }

  /** The first step that cannot be read raises, the first that finds something else refuses. */
  lemma ObservedFindingIs(observed: Value, sourceHash: string)
    ensures match ObservedFinding(observed, sourceHash)
            case Fine => PassesUpTo(7, observed, sourceHash)
            case Raises => exists k: nat :: k < 7 && PassesUpTo(k, observed, sourceHash) && !Reads(k, observed)
            case Refuses =>
              exists k: nat :: k < 7 && PassesUpTo(k, observed, sourceHash) && Reads(k, observed) && !Finds(k, observed, sourceHash)
  {
    if !Reads(0, observed) || !Finds(0, observed, sourceHash) {
      assert PassesUpTo(0, observed, sourceHash);
    } else if !Reads(1, observed) || !Finds(1, observed, sourceHash) {
      assert PassesUpTo(1, observed, sourceHash);
    } else if !Reads(2, observed) || !Finds(2, observed, sourceHash) {
      assert PassesUpTo(2, observed, sourceHash);
    } else if !Reads(3, observed) || !Finds(3, observed, sourceHash) {
      assert PassesUpTo(3, observed, sourceHash);
    } else if !Reads(4, observed) || !Finds(4, observed, sourceHash) {
      assert PassesUpTo(4, observed, sourceHash);
    } else if !Reads(5, observed) || !Finds(5, observed, sourceHash) {
      assert PassesUpTo(5, observed, sourceHash);
    } else {
      assert PassesUpTo(6, observed, sourceHash);
    }
  }

  /** Every condition on the observation at once. */
  ghost predicate SoundObservation(observed: Value, sourceHash: string) {
    && observed.Dict?
    && {"overflow", "expired", "core_version", "coverage", "observer_sha256", "baseline_store_hashes", "final_store_hashes",
        "events"} <= observed.fields.Keys
    && observed.Get("overflow") == Bool(false) && observed.Get("expired") == Bool(false)
    && observed.Get("core_version") == Str("2026.9.4") && observed.Get("observer_sha256") == Str(sourceHash)
    && observed.Get("coverage").Dict?
    && (forall hook :: hook in observed.Get("coverage").fields ==> Truthy(observed.Get("coverage").fields[hook]))
    && observed.Get("baseline_store_hashes") == observed.Get("final_store_hashes")
    && Iterated(observed.Get("events")).Some?
  }

  /** Every condition on the wire trace at once. */
  ghost predicate SoundWire(wire: Value, e: Expectation) {
    && wire.Dict? && {"mcp", "native_http", "native_ws"} <= wire.fields.Keys
    && (if e.upstreamRead > 0 then SoundUpstream(wire.Get("mcp")) else !Truthy(wire.Get("mcp")))
    && wire.Get("native_http") == List(if e.nativeReads > 0 then [Str("GET /api/states"), Str("GET /api/websocket")] else [])
    && wire.Get("native_ws") == List(if e.nativeReads > 0 then [Str("auth"), Str("config/entity_registry/list")] else [])
  }

  /** The calls of an upstream read, or a mapping of exactly their counts. */
  ghost predicate SoundUpstream(mcp: Value) {
    if mcp.Dict? then SoundCounts(mcp.fields) else SoundCalls(mcp)
  }

  ghost predicate SoundCounts(counts: map<string, Value>) {
    && counts.Keys <= {"tools/call", "initialize", "notifications/initialized", "tools/list", "session_cleanup"}
    && CalledOnce(counts) && ListedWithinBound(counts)
    && ("session_cleanup" in counts ==>
          var cleanup := counts["session_cleanup"];
          cleanup == NonFinite(true) || cleanup.Bool? || (cleanup.Num? && cleanup.r <= 1.0))
  }

  ghost predicate SoundCalls(mcp: Value) {
    && mcp.List?
    && (forall call :: call in mcp.items ==>
          IsOneOf(call, {"tools/call", "initialize", "notifications/initialized", "tools/list", "session_cleanup"}))
    && CountOf(mcp.items, "tools/call") == 1 && CountOf(mcp.items, "initialize") == 1
    && CountOf(mcp.items, "notifications/initialized") == 1
    && 1 <= CountOf(mcp.items, "tools/list") <= 20 && CountOf(mcp.items, "session_cleanup") <= 1
  }

  lemma FineUpstreamIff(mcp: Value)
    ensures UpstreamFinding(mcp) == Fine <==> SoundUpstream(mcp)
  {
    if mcp.List? {
      assert forall i :: 0 <= i < |mcp.items| ==> mcp.items[i] in mcp.items;
    } else if mcp.Dict? {
      FineCountsIff(mcp.fields);
    }
  }

  /** A count as a number; a truth value counts as 0 or 1. */
  ghost predicate IsNumber(v: Value) {
    v.Num? || v.Bool? || v.NonFinite?
  }

  ghost predicate CalledOnce(counts: map<string, Value>) {
    forall name :: name in {"tools/call", "initialize", "notifications/initialized"} ==>
      name in counts && (counts[name] == Num(1.0) || counts[name] == Bool(true))
  }

  ghost predicate ListedWithinBound(counts: map<string, Value>) {
    "tools/list" in counts && (counts["tools/list"] == Bool(true) || (counts["tools/list"].Num? && 1.0 <= counts["tools/list"].r <= 20.0))
  }

  /** Looking at the upstream calls raises: they are no collection, cannot be counted, or are counts that do not compare. */
  lemma UpstreamRaisesIff(mcp: Value)
    ensures UpstreamFinding(mcp) == Raises
            <==> match mcp
                 case List(calls) => exists call :: call in calls && (call.List? || call.Dict?)
                 case Dict(counts) =>
                   CalledOnce(counts)
                   && (|| ("tools/list" in counts && !IsNumber(counts["tools/list"]))
                       || (ListedWithinBound(counts) && "session_cleanup" in counts && !IsNumber(counts["session_cleanup"])))
                 case Null => false
                 case Str(_) => false
                 case _ => true
  {
    if mcp.List? {
      assert forall i :: 0 <= i < |mcp.items| ==> mcp.items[i] in mcp.items;
    }
  }

  /** Looking at the wire trace raises at the first part that is missing. */
  lemma WireRaisesIff(wire: Value, e: Expectation)
    ensures WireFinding(wire, e) == Raises
            <==> || !(wire.Dict? && "mcp" in wire.fields)
                 || (e.upstreamRead > 0 && UpstreamFinding(wire.fields["mcp"]) == Raises)
                 || ((if e.upstreamRead > 0 then SoundUpstream(wire.fields["mcp"]) else !Truthy(wire.fields["mcp"]))
                     && (|| "native_http" !in wire.fields
                         || (wire.fields["native_http"]
                             == List(if e.nativeReads > 0 then [Str("GET /api/states"), Str("GET /api/websocket")] else [])
                             && "native_ws" !in wire.fields)))
  {
    if wire.Dict? && "mcp" in wire.fields {
      FineUpstreamIff(wire.fields["mcp"]);
    }
  }

  /** A window cannot be judged exactly when the first check that fails, in the program's order, raises. */
  lemma BrokenIff(wire: Value, observed: Value, retry: bool, e: Expectation, sourceHash: string)
    ensures Judged(wire, observed, retry, e, sourceHash) == Broken
            <==> || ObservedFinding(observed, sourceHash) == Raises
                 || (SoundObservation(observed, sourceHash)
                     && match Gather(Iterated(observed.Get("events")).value, retry)
                        case Stopped(finding) => finding == Raises
                        case Gathered(commands, _) => commands == ExpectedCommands(e) && WireFinding(wire, e) == Raises)
  {
    FineObservationIff(observed, sourceHash);
    if SoundObservation(observed, sourceHash) {
      GatherStopsAtFirst(Iterated(observed.fields["events"]).value, retry);
    }
  }

  lemma FineCountsIff(counts: map<string, Value>)
    ensures CountsFinding(counts) == Fine <==> SoundCounts(counts)
  {}

  lemma FineWireIff(wire: Value, e: Expectation)
    ensures WireFinding(wire, e) == Fine <==> SoundWire(wire, e)
  {
    if wire.Dict? && "mcp" in wire.fields {
      FineUpstreamIff(wire.fields["mcp"]);
    }
  }

  lemma FineObservationIff(observed: Value, sourceHash: string)
    ensures ObservedFinding(observed, sourceHash) == Fine <==> SoundObservation(observed, sourceHash)
  {}

  /**
   What strict acceptance means, without order or loop: a sound observation whose events are only commands
   and tolerated bookkeeping, exactly the expected commands in order, and exactly the expected wire trace.
   */
  lemma VerifiedIff(wire: Value, observed: Value, e: Expectation, sourceHash: string)
    ensures Judged(wire, observed, false, e, sourceHash) == Verifies
            <==> && SoundObservation(observed, sourceHash) && SoundWire(wire, e)
                 && var events := Iterated(observed.fields["events"]).value;
                 && AllAllowed(events)
                 && CommandsOf(events) ==
                    if e.upstreamRead > 0 && e.nativeReads > 0 then [Str("lovelace/config"), Str("config/entity_registry/list")]
                    else if e.upstreamRead > 0 then [Str("lovelace/config")]
                    else if e.nativeReads > 0 then [Str("config/entity_registry/list")]
                    else []
  {
    FineObservationIff(observed, sourceHash);
    FineWireIff(wire, e);
    if SoundObservation(observed, sourceHash) {
      StrictGathering(Iterated(observed.fields["events"]).value);
    }
  }

  lemma EventsModesAgree(wire: Value, events: seq<Value>, e: Expectation)
    ensures var lenient, strict := JudgedEvents(wire, Gather(events, true), e), JudgedEvents(wire, Gather(events, false), e);
            && (lenient == Verifies <==> strict == Verifies)
            && !strict.Rerun? && (lenient.Rerun? ==> strict == Refused)
  {
    StrictGathering(events);
    if Gather(events, true).Gathered? {
      SaveIsRefusedStrictly(events);
    } else {
      LenientGathering(events);
      NothingSkipped(events);
    }
  }

  /** Both modes accept the same windows, strict mode allows no rerun, and it refuses what may be rerun. */
  lemma CaseModesAgree(wire: Value, observed: Value, e: Expectation, sourceHash: string)
    ensures var lenient, strict := Judged(wire, observed, true, e, sourceHash), Judged(wire, observed, false, e, sourceHash);
            && (lenient == Verifies <==> strict == Verifies)
            && !strict.Rerun? && (lenient.Rerun? ==> strict == Refused)
  {
    if ObservedFinding(observed, sourceHash) == Fine {
      EventsModesAgree(wire, Iterated(observed.fields["events"]).value, e);
    }
  }

  /** Events that are all allowed hold nothing to skip. */
  lemma {:induction false} NothingSkipped(events: seq<Value>)
    ensures AllAllowed(events) ==> Remaining(events) == events
  {
    if events != [] {
      NothingSkipped(events[..|events| - 1]);
      AllAllowedSnoc(events);
      ClassesByMode(events[|events| - 1]);
      RemainingSnoc(events);
      assert events == events[..|events| - 1] + [events[|events| - 1]];
    }
  }

  /** The same observation without the events that may be skipped. */
  function WithoutSaves(observed: Value): Value
    requires observed.Dict? && "events" in observed.fields && Iterated(observed.fields["events"]).Some?
  {
    Dict(observed.fields["events" := List(Remaining(Iterated(observed.fields["events"]).value))])
  }

  ghost predicate HasEvents(observed: Value) {
    observed.Dict? && "events" in observed.fields && Iterated(observed.fields["events"]).Some?
  }

  lemma WithoutSavesIsAsSound(observed: Value, sourceHash: string)
    requires HasEvents(observed)
    ensures SoundObservation(WithoutSaves(observed), sourceHash) <==> SoundObservation(observed, sourceHash)
  {
    assert WithoutSaves(observed).fields.Keys == observed.fields.Keys;
  }

  lemma EventsRerunIff(wire: Value, events: seq<Value>, e: Expectation, count: nat)
    ensures JudgedEvents(wire, Gather(events, true), e) == Rerun(count)
            <==> && count == |events| - |Remaining(events)| && count > 0
                 && JudgedEvents(wire, Gather(Remaining(events), false), e) == Verifies
  {
    LenientGathering(events);
    StrictGathering(Remaining(events));
    SkippingReruns(wire, Gather(events, true), Gather(Remaining(events), false), e, |events| - |Remaining(events)|, count);
  }

  /** A gathering that skipped `skipped` events is to be rerun iff it skipped some and would verify without them. */
  lemma SkippingReruns(wire: Value, lenient: Gathering, strict: Gathering, e: Expectation, skipped: nat, count: nat)
    requires lenient.Gathered? <==> strict.Gathered?
    requires lenient.Gathered? ==> lenient == Gathered(strict.commands, skipped) && strict.retryable == 0
    ensures JudgedEvents(wire, lenient, e) == Rerun(count)
            <==> count == skipped && count > 0 && JudgedEvents(wire, strict, e) == Verifies
  {}

  /**
   A window is to be rerun exactly when it holds delayed saves of the retryable store and is accepted
   strictly once those are deleted; the diagnostic counts exactly the deleted ones.
   */
  lemma RerunIffVerifiedWithoutSaves(wire: Value, observed: Value, e: Expectation, sourceHash: string, count: nat)
    ensures Judged(wire, observed, true, e, sourceHash) == Rerun(count)
            <==> && HasEvents(observed)
                 && var events := Iterated(observed.fields["events"]).value;
                 && count == |events| - |Remaining(events)| && count > 0
                 && Judged(wire, WithoutSaves(observed), false, e, sourceHash) == Verifies
  {
    FineObservationIff(observed, sourceHash);
    if HasEvents(observed) {
      WithoutSavesIsAsSound(observed, sourceHash);
      FineObservationIff(WithoutSaves(observed), sourceHash);
      EventsRerunIff(wire, Iterated(observed.fields["events"]).value, e, count);
    }
  }
}
