# Verified model of the Home Assistant MCP gateway and its release tooling

This project models, in Dafny, the parts of the repository whose behaviour spans many
calls, and proves what holds over all of their inputs and runs:

* the rate-limiting gateway: token buckets, the per-client and failed-authentication
  dictionaries, the shared bucket, path stripping, and body buffering with replay;
* the observation windows of a disposable Core: the interval verifier in its strict and
  retrying modes, the retry-once protocol, and the offline check of discarded windows;
* the Core evidence pipeline: release discovery and selection, the workflow as a state
  machine, inherited bindings with byte-identity proofs, capability withholding, and the
  journal that accepted candidates extend: its approval, signing, compaction and dry run;
* the advertised-image watchdog: the walk to the release commit and the single alert issue;
* the dashboard run: its windows, the evidence directory it leaves behind and the offline
  replay of that directory, and the framing under its report digest;
* the host admission loop.

Objects whose methods change their fields are classes (`TokenBucket`, `BucketDict`,
`Gateway`, `Channel`, `Replay`, `Observer`, `Lane`, `IssueAPI`); loops that collect as they go are
methods with invariants. Each is proved against a function on values, and the theorems are
lemmas about that function over whole runs.

| file | what it holds |
|---|---|
| `AdmissionWindows.dfy` | windows, the constant-time rule that implements them, prefix optimality |
| `TokenBucket.dfy`, `BucketStore.dfy` | one bucket; a dictionary of buckets with crude clearing |
| `Gateway.dfy`, `GatewayRuns.dfy`, `BodyReplay.dfy` | one gateway call; whole runs; the replayed body |
| `Observation.dfy`, `ObservationModes.dfy` | the interval verifier; its two modes |
| `RetryOnce.dfy`, `AlarmoWindows.dfy` | rerun and offline replay for any check of a window; the Alarmo lane's use of them |
| `CaseWindows.dfy`, `CaseNames.dfy` | the dashboard lane's check of a window; its cases and file names |
| `RetainedWindows.dfy`, `RetainedRefusals.dfy`, `RetainedEvidence.dfy` | replay of an evidence directory; its refusals; what acceptance means |
| `DashboardRun.dfy` | the run that writes the directory |
| `ReportFraming.dfy` | the length-prefixed preimage |
| `ReleaseSelection.dfy`, `ReleaseDiscovery.dfy`, `EvidenceWorkflow.dfy` | choosing a release; paging; the workflow machine |
| `WorkflowRefinement.dfy` | what the machine's steps stand for: fetched releases and signed journals |
| `Bindings.dfy`, `Capabilities.dfy` | inherited bindings; withholding |
| `RegistryJournal.dfy`, `RegistrySigning.dfy` | approving a candidate for the journal; signing it, compaction and the dry run |
| `ReleaseWalk.dfy`, `AlertIssue.dfy`, `AlertMachine.dfy` | release commit; one alert run; alerts over time |
| `HostAdmission.dfy` | the bounded wait |
| `Support.dfy` | options, bytes, hexadecimal text, exact lists, JSON-like values |

Reading notes:

* Time and tokens are reals. A gateway call reads the clock once; the program reads it at
  most three times within the same call.
* A token bucket's rate is assumed not negative, and clocks not to run backwards.
* Digests appear as parameters; a result that needs them collision-free says so.
* An open watchdog issue is a labelled one. The watchdog finds its issue by the label, so if
  others remove the label an unlabelled one can stay open beside a labelled second.
* An ASGI receive channel is the finite list of messages it will deliver, followed by
  disconnects (ASGI HTTP and WebSocket Message Format, "Request - receive event").
* Files the program reads and services it calls are parameters: the committed bindings, the
  listing of releases, the Git repository, the issue tracker.
* Where a property of the design holds only under a condition, the condition is exact and a
  failing input is given. Attempts are never repeated iff no detection skips, as created before
  the release's publication, one that stands in the way (`QueuedRefusalIsForgotten`).
  Release discovery refines a full search iff no unread page holds a higher version
  (`TieIsMissed`). Automated journal entries increase iff each is above the automated
  versions withdrawn before it (`WithdrawalLetsVersionsFall`). A completed bad report opens a
  second alert issue iff the open one is not on the page that is read
  (`HiddenBehindAHundred`); with fewer than a hundred other labelled issues that never happens.

## Model

| member | source | states |
|---|---|---|
| AdmissionWindows.LevelIsTightestWindow | hass_mcp_admin/server.py:639-646 | The lazily refilled level equals the tightest window since the bucket was last created, and some window attains it |
| AdmissionWindows.HoldsTokenIffFits | hass_mcp_admin/server.py:639-646 | Holding a token is the same as every window ending at the call having room for one more |
| AdmissionWindows.WindowBound | hass_mcp_admin/server.py:639-646 | Admissions in any window are at most one burst, one more per recreation inside it, plus the refill |
| AdmissionWindows.GreedyIsPrefixOptimal | hass_mcp_admin/server.py:639-646 | No other admission plan that respects every window is ahead in any prefix |
| TokenBuckets.TokenBucket.constructor | hass_mcp_admin/server.py:633-637 | A new bucket is full, with the per-second rate |
| TokenBuckets.TokenBucket.Allow | hass_mcp_admin/server.py:639-646 | The object's new state and answer are those of one step of the rule, and nothing else changes |
| TokenBuckets.TakeThenWait | hass_mcp_admin/server.py:639-646 | The level after a call and a pause, in terms of the level before it |
| TokenBuckets.AllowIffEveryWindowFits | hass_mcp_admin/server.py:639-646 | For every non-decreasing run, call n is admitted iff for every k up to n the admissions in k..n-1 plus one fit cap plus refill |
| TokenBuckets.BucketIsPrefixOptimal | hass_mcp_admin/server.py:639-646 | The bucket's decisions are ahead of, or level with, any other plan that fits all windows |
| BucketStores.AdmittedIffFitsSinceClear | hass_mcp_admin/server.py:690-695 | In a dictionary of buckets, a key's call is admitted iff it fits every window of that key since the last clear |
| BucketStores.KeyBound | hass_mcp_admin/server.py:690-695 | One key's admissions in a window with c clears are at most (c + 1) bursts plus refill |
| BucketStores.KeysAreConserved | hass_mcp_admin/server.py:691-694 | At most 1001 keys are stored, and insertions are exactly 1001 per clear plus the keys held |
| Gateways.BucketDict.BucketFor | hass_mcp_admin/server.py:690-695 | The dictionary after looking a key up: unchanged, or cleared if too large and extended by a full bucket |
| Gateways.BucketDict.Ask | hass_mcp_admin/server.py:715-716 | Finding the bucket and asking it charges that key and no other |
| Gateways.Gateway.constructor | hass_mcp_admin/server.py:672-677 | A new gateway has empty dictionaries and a full shared bucket of twice the configured rate and burst |
| Gateways.Gateway.Handle | hass_mcp_admin/server.py:703-728 | The new state and outcome of one call, branch by branch, and that no two buckets are shared |
| Gateways.Gateway.ApplyLimits | hass_mcp_admin/server.py:724-728 | The client is charged first and the shared bucket only if the client had a token |
| Gateways.StrippedPreimages | hass_mcp_admin/server.py:775-782 | Exactly which public paths map to an internal path; it always starts with a slash and only the two endpoint forms merge |
| Gateways.StrippedRawIs | hass_mcp_admin/server.py:783-789 | A raw path that starts with the credential is forwarded without it, both endpoint forms as "/mcp/"; any other raw path is forwarded unchanged |
| Gateways.UnlimitedTraffic | hass_mcp_admin/server.py:703-708 | Lifecycle events and health checks are answered at once and change nothing |
| GatewayRuns.StoresAreIndependent | hass_mcp_admin/server.py:714-726 | Over any run the two dictionaries evolve as if each were alone |
| GatewayRuns.ForwardedIffFitsBothLimits | hass_mcp_admin/server.py:724-789 | An authenticated call is forwarded iff it fits every window of its client since the last clear and every window of all forwarded traffic; otherwise it is limited, and says by which. What is forwarded is the path and the raw path without the credential |
| GatewayRuns.Limits | hass_mcp_admin/server.py:672-677 | Each client has the configured rate and burst, all together twice both |
| GatewayRuns.WrongPathAnsweredIffFits | hass_mcp_admin/server.py:712-722 | A wrong path is answered 404 iff it fits every window of burst 5 and 30 an hour over the 404s its address got since the failure store was last cleared, else throttled |
| GatewayRuns.FailureBound | hass_mcp_admin/server.py:712-722 | An address's 404s in a window with c clears are at most (c + 1) times 5 plus the refill at 30 an hour |
| GatewayRuns.FailureKeysAreConserved | hass_mcp_admin/server.py:690-695 | The failure dictionary never exceeds 1001 addresses and k clears need 1001 k insertions |
| GatewayRuns.ClientBound | hass_mcp_admin/server.py:724-728 | A client's forwarded calls in a window with c clears are at most (c + 1) bursts plus refill |
| GatewayRuns.TotalBound | hass_mcp_admin/server.py:676-676 | All forwarded calls in a window are at most twice the burst plus twice the refill, whatever was cleared |
| GatewayRuns.ClientKeysAreConserved | hass_mcp_admin/server.py:690-695 | The client dictionary never exceeds 1001 keys and k clears need 1001 k insertions |
| GatewayRuns.RoutesDoNotInterfere | hass_mcp_admin/server.py:703-728 | Deleting all other traffic leaves every authenticated decision unchanged, and likewise every wrong-path decision |
| BodyReplay.Buffer | hass_mcp_admin/server.py:734-742 | Buffering takes exactly the shortest start of the stream that ends the body or exceeds 2,000,000 bytes, and the audited body is its concatenation |
| BodyReplay.JoinedIs | hass_mcp_admin/server.py:742-742 | The audited body is empty at first and grows by exactly the body of each chunk |
| BodyReplay.BufferedIsUnique | hass_mcp_admin/server.py:735-741 | The stream alone determines what is buffered |
| BodyReplay.Replay.Receive | hass_mcp_admin/server.py:760-763 | A receive yields the next message of queue then channel and removes exactly that one |
| BodyReplay.ForApplication | hass_mcp_admin/server.py:730-765 | The channel given to the application delivers the original stream; only POST bodies are buffered |
| BodyReplay.ApplicationReceives | hass_mcp_admin/server.py:758-765 | The application's n-th receive is the n-th original message, for every stream and cut-off |
| BodyReplay.ShortBodyAuditedWhole | hass_mcp_admin/server.py:734-742 | A body that ends within the limit is audited whole |
| Observation.Scan | scripts/alarmo_inspection_contract_acceptance.py:362-383 | One pass finds the first refused event, or collects commands, bookkeeping and retryable positions exactly |
| Observation.VerifyInterval | scripts/alarmo_inspection_contract_acceptance.py:312-396 | The verifier's verdict: first failed condition, retryable, or proof |
| ObservationModes.StrictProofIff | scripts/alarmo_inspection_contract_acceptance.py:340-392 | Strict acceptance, order-free: every receipt condition holds, only commands and tolerated bookkeeping occur, and the expected list is exactly the texts of the command events in order; the proof holds these and every other event |
| ObservationModes.DiagnosticIs | scripts/alarmo_inspection_contract_acceptance.py:336-391 | Every refusal names the first condition, in the order of the checks, that the receipt or its first offending event does not meet; a rerun names the first delayed save and counts all |
| ObservationModes.ProofsCoincide | scripts/alarmo_inspection_contract_acceptance.py:320-324 | The retrying mode proves a window iff strict mode does, with the same proof |
| ObservationModes.StrictFromLenient | scripts/alarmo_inspection_contract_acceptance.py:379-391 | On a retryable window strict mode refuses `untolerated_store` at the same first event; otherwise the modes agree or strict mode stops earlier at a retryable event |
| ObservationModes.RetryableIffCleanedIsValid | scripts/alarmo_inspection_contract_acceptance.py:264-270 | For every receipt: it is retryable iff it holds a delayed save of the retry store, is not too long, and deleting those leaves a window strict mode accepts |
| ObservationModes.SomeRetryable | scripts/alarmo_inspection_contract_acceptance.py:388-391 | The retry diagnostic points at the first retryable event and counts all of them |
| RetryOnce.Observer.ObserveRetryOnceClean | scripts/alarmo_inspection_contract_acceptance.py:410-433 | For any check of a window: runs used, discards recorded and result of one observed window |
| RetryOnce.KeptIffCleanOnceOrAfterDiscard | scripts/alarmo_inspection_contract_acceptance.py:410-433 | For any check whose modes agree: kept iff the first run is clean, or only retryable with a clean second; what is kept passes strictly; any other refusal triggers no rerun |
| RetryOnce.VerifyDiscarded | scripts/alarmo_inspection_contract_acceptance.py:436-465 | For any recheck: the offline loop returns the first refusal, or the set of discarded windows |
| RetryOnce.ItemFaultIs | scripts/alarmo_inspection_contract_acceptance.py:444-464 | What a retained item is refused for, by its place, its lenient verdict, its diagnostic and its strict verdict |
| RetryOnce.ReplayedIs | scripts/alarmo_inspection_contract_acceptance.py:440-465 | Rejection is for the first item at fault given the windows before it; acceptance names every window |
| RetryOnce.AcceptedIffGenuineOncePerWindow | scripts/alarmo_inspection_contract_acceptance.py:436-465 | Offline acceptance iff every item is retryable with its recorded diagnostic, at most one per window; the result names exactly those windows |
| RetryOnce.GenuineIffNoFault | scripts/alarmo_inspection_contract_acceptance.py:452-464 | A retryable item never verifies strictly, so that refusal cannot occur |
| RetryOnce.SessionIsAcceptedOffline | scripts/alarmo_inspection_contract_acceptance.py:436-465 | For any check and a recheck that replays it: whatever a session over distinct windows discards is accepted offline, and all it keeps passes strictly offline with the recorded proof |
| AlarmoWindows.CheckIs | scripts/alarmo_inspection_contract_acceptance.py:404-407 | A known window passes, may be rerun or is refused as the interval verifier says under the run's identifier |
| AlarmoWindows.RecheckIs | scripts/alarmo_inspection_contract_acceptance.py:1193-1204 | Offline the identifier is the one retained in the observation |
| AlarmoWindows.OnlineEvidenceIsAcceptedOffline | scripts/alarmo_inspection_contract_acceptance.py:1193-1204 | The Alarmo lane: a session's discards are accepted offline, under the identifiers inside the observations, and all it keeps verifies offline with the recorded proof |
| AlarmoWindows.AcceptedEvidenceIsSomeSession | scripts/alarmo_inspection_contract_acceptance.py:436-465 | Conversely, every evidence list accepted offline is exactly what some session over distinct windows discards |
| CaseWindows.WindowCommands | scripts/dashboard_analysis_disposable_acceptance.py:92-104 | The loop gathers the commands and counts the retryable saves, or stops at the first event it refuses or cannot read |
| CaseWindows.IteratedIs | scripts/dashboard_analysis_disposable_acceptance.py:99-103 | A list gives its events, empty text or an empty mapping none, anything else cannot be read |
| CaseWindows.VerifyCaseWindow | scripts/dashboard_analysis_disposable_acceptance.py:121-148 | The check's verdict on one window: verified, to be rerun with its count, refused, or not readable |
| CaseWindows.VerifiedIff | scripts/dashboard_analysis_disposable_acceptance.py:121-148 | Strict acceptance, order-free: a sound observation of only commands and tolerated bookkeeping, exactly the expected commands in order for each of the four kinds of case, exactly the expected wire |
| CaseWindows.GatherStopsAtFirst | scripts/dashboard_analysis_disposable_acceptance.py:92-104 | Gathering stops at the first event that does not pass: unreadable ones raise, others are refused; otherwise it holds every command and the number of skipped saves |
| CaseWindows.ObservedFindingIs | scripts/dashboard_analysis_disposable_acceptance.py:128-131 | The observation is refused, or raises, at the first step that finds something else, or cannot be read |
| CaseWindows.UpstreamRaisesIff | scripts/dashboard_analysis_disposable_acceptance.py:135-142 | Counting the upstream calls raises exactly for no collection, uncountable items, or counts that do not compare |
| CaseWindows.WireRaisesIff | scripts/dashboard_analysis_disposable_acceptance.py:135-145 | The wire trace raises exactly at the first part that is missing or cannot be counted |
| Values.TruthyIs | scripts/dashboard_analysis_disposable_acceptance.py:129-129 | Null, false, zero and whatever is empty are false, everything else is true |
| CaseWindows.BrokenIff | scripts/dashboard_analysis_disposable_acceptance.py:121-148 | A window cannot be judged exactly when the first check that fails, in order, raises |
| CaseWindows.CaseModesAgree | scripts/dashboard_analysis_disposable_acceptance.py:121-148 | Both modes accept the same windows, strict mode allows no rerun, and what may be rerun is refused strictly |
| CaseWindows.RerunIffVerifiedWithoutSaves | scripts/dashboard_analysis_disposable_acceptance.py:87-104 | A window is to be rerun, with count c, iff it holds c > 0 delayed saves of the retry store and is accepted strictly once they are deleted |
| CaseNames.CasesDiffer | scripts/dashboard_analysis_disposable_acceptance.py:171-174 | The cases of a run, in their fixed order, are pairwise distinct |
| CaseNames.CaseTable | scripts/dashboard_analysis_disposable_acceptance.py:106-118 | Every case by its place: its name, expected success, native and upstream reads |
| CaseNames.DecimalIs | scripts/dashboard_analysis_disposable_acceptance.py:114-116 | Page numbers are written in decimal without leading zeros |
| CaseNames.OtherNamesAreNoCases | scripts/dashboard_analysis_disposable_acceptance.py:114-118 | No other name is a case |
| RetainedWindows.VerifyRetainedWindows | scripts/dashboard_analysis_disposable_acceptance.py:158-212 | The replay's result: the first refusal in order, or the cases with a discarded window |
| RetainedRefusals.ReceiptsAre | scripts/dashboard_analysis_disposable_acceptance.py:170-171 | The receipts are a readable file with a list of mappings, or the reason says which fails |
| RetainedRefusals.SequenceIs | scripts/dashboard_analysis_disposable_acceptance.py:172-175 | Exactly the accepted sequences of cases: the first, one to twenty pages, and the refusals |
| RetainedRefusals.LoadIs | scripts/dashboard_analysis_disposable_acceptance.py:151-155 | A retained file is loaded iff it is there, has its digest and parses; otherwise the first failure is the reason |
| RetainedRefusals.IntervalIs | scripts/dashboard_analysis_disposable_acceptance.py:185-185 | An interval is collected unless it is missing, a list or a mapping |
| RetainedRefusals.KeptIs | scripts/dashboard_analysis_disposable_acceptance.py:178-185 | A kept window is refused for the first of its checks that fails, in the program's order |
| RetainedRefusals.DiscardedIs | scripts/dashboard_analysis_disposable_acceptance.py:186-197 | An undeclared discard leaves nothing behind; a declared one is there with its digests, or the reason says why not |
| RetainedRefusals.EntryIs | scripts/dashboard_analysis_disposable_acceptance.py:176-197 | One receipt: its case is named, then its kept and then its discarded window are checked |
| RetainedRefusals.EntriesAreReadInOrder | scripts/dashboard_analysis_disposable_acceptance.py:176-197 | The first receipt that cannot be read gives the reason |
| RetainedRefusals.ConclusionIs | scripts/dashboard_analysis_disposable_acceptance.py:198-212 | Reused intervals, then unreceipted files, then the discarded windows decide the replay |
| RetainedRefusals.ReplayIs | scripts/dashboard_analysis_disposable_acceptance.py:158-212 | The whole replay, stage by stage |
| RetainedRefusals.OfflineIs | scripts/dashboard_analysis_disposable_acceptance.py:205-211 | What the offline check makes of each verdict, and the diagnostic a rerun must have recorded |
| RetainedEvidence.DashboardEvidenceAcceptedIffComplete | scripts/dashboard_analysis_disposable_acceptance.py:158-212 | A directory is accepted iff its window files are exactly the receipted ones, every kept window is the receipted one and verifies strictly, every discarded one is receipted and retryable as recorded, and every window has an interval of its own |
| RetainedEvidence.CompleteIsAccepted | scripts/dashboard_analysis_disposable_acceptance.py:158-212 | The replay of complete evidence reports exactly the cases with a discarded window |
| RetainedEvidence.IdentityCheckIff | scripts/dashboard_analysis_disposable_acceptance.py:198-199 | The one comparison of the identity set's size is the same as pairwise distinct textual identifiers |
| RetainedEvidence.UndeclaredIsUnreceipted | scripts/dashboard_analysis_disposable_acceptance.py:187-190 | That no undeclared discard lies there already follows from the exact set of window files |
| RetainedEvidence.ReceiptsDetermineTheEvidence | scripts/dashboard_analysis_disposable_acceptance.py:151-155 | With a collision-free digest, complete directories with the same receipts file hold the same windows, byte for byte |
| DashboardRun.Lane.Call | scripts/dashboard_analysis_disposable_acceptance.py:554-578 | One case writes its kept window, its discarded one aside if it was rerun, and its receipt, and is receipted only if kept |
| DashboardRun.OnlineIs | scripts/dashboard_analysis_disposable_acceptance.py:550-575 | Online a case passes, may be rerun with its recorded diagnostic, or raises |
| DashboardRun.RunCases | scripts/dashboard_analysis_disposable_acceptance.py:580-613 | A run over the cases completes iff every case is kept, and then leaves exactly their files and receipts |
| DashboardRun.CompletedRunIsAccepted | scripts/dashboard_analysis_disposable_acceptance.py:617-619 | What a completed run leaves behind, windows from distinct intervals whose own files read back as written, is accepted by the replay, which reports exactly the cases that were rerun |
| ReportFraming.Preimage | scripts/dashboard_analysis_disposable_acceptance.py:592-595 | The accumulator loop yields the framing of header and items, or raises when a length does not fit 8 bytes |
| ReportFraming.FrameIs | scripts/dashboard_analysis_disposable_acceptance.py:592-595 | A frame is its chunk behind its length in eight bytes, the highest first; a chunk of 2^64 bytes does not fit |
| ReportFraming.FramedDecodes | scripts/dashboard_analysis_disposable_acceptance.py:592-595 | The framing decodes back to the chunks, in order |
| ReportFraming.DecodedFrames | scripts/dashboard_analysis_disposable_acceptance.py:592-595 | Nothing but a framing decodes |
| ReportFraming.EqualPreimagesMeanEqualReports | scripts/dashboard_analysis_disposable_acceptance.py:592-595 | Equal preimages mean equal header and items |
| ReleaseSelection.WalkFindsGreatestOpen | scripts/core_release_evidence.py:118-134 | The descending walk returns the greatest eligible version that is not suppressed, and nothing iff there is none |
| ReleaseSelection.ScheduledPicksNewestOrNothing | scripts/core_evidence_workflow.py:241-283 | Scheduled detection picks the official version that none is later than by year, month and patch, iff it is later than everything signed, has no candidate branch, and no attempt since its publication is pending, successful or refused; never an older one |
| ReleaseSelection.RequestedPicksThatVersionOrNothing | scripts/core_evidence_workflow.py:241-283 | Requested detection picks that version under the same conditions or nothing, retries a refusal only by dispatch, and refuses an unofficial request |
| ReleaseDiscovery.Discover | scripts/core_evidence_workflow.py:178-203 | The paging loop's result: a prefix of the listing, or the first order fault, missing predecessor or page bound |
| ReleaseDiscovery.ListedAtIs | scripts/core_evidence_workflow.py:161-175 | A record is listed at its creation, at its publication only when it has no creation, and an unusable stamp never falls back |
| ReleaseDiscovery.NoFaultIffNewestFirst | scripts/core_evidence_workflow.py:193-197 | The adjacent comparisons accept exactly listings in newest-first order |
| ReleaseDiscovery.FoundHoldsPredecessorOrEverything | scripts/core_evidence_workflow.py:198-202 | What is found is a newest-first start of the listing holding the newest signed version, or the whole listing |
| ReleaseDiscovery.DiscoverySucceedsIffReached | scripts/core_evidence_workflow.py:191-203 | On an ordered listing discovery succeeds iff the predecessor or the end is within ten pages |
| ReleaseDiscovery.DiscoveryRefinesFullSearchIff | scripts/core_evidence_workflow.py:148-152 | Detection on the pages up to the end page is detection on the whole listing iff no later page holds a higher version |
| ReleaseDiscovery.CreatedAfterMeansNothingHigherLater | scripts/core_evidence_workflow.py:148-152 | That condition holds whenever higher versions were created strictly after the predecessor |
| ReleaseDiscovery.TieIsMissed | scripts/core_evidence_workflow.py:195-199 | A higher version created at the same moment falls on an unread page: detection finds nothing where the whole listing gives that version |
| EvidenceWorkflow.StepKeepsInvariants | scripts/core_evidence_workflow.py:241-288 | Every event, the owner's signings and withdrawals included, keeps one attempt live at a time, one branch per version, every attempt above what was signed, and every signed entry allowed |
| EvidenceWorkflow.WorkflowIsSafe | scripts/core_evidence_workflow.py:241-288 | Over every run at most one attempt is live, no version gets a second candidate branch, no withdrawn version is signed again, and each automated entry is above everything signed then |
| EvidenceWorkflow.PublishedIs | scripts/prepare_core_release_registry.py:220-235 | Exactly the versions whose last change is an entry are published |
| EvidenceWorkflow.DetectIs | scripts/core_evidence_workflow.py:238-292 | A detection starts one attempt bound to the current journal exactly at the version that may start: nothing live, later than everything published, no branch, newest or requested, and every attempt since its publication failed or was refused and is retried; else nothing |
| EvidenceWorkflow.FinishIs | scripts/core_evidence_workflow.py:330-345 | How a live attempt may end, and when it may leave a branch |
| EvidenceWorkflow.PublishIs | scripts/core_registry_one_tap.py:139-149 | A branch is published exactly onto the journal it is bound to |
| EvidenceWorkflow.OwnerStepsAre | scripts/prepare_core_release_registry.py:130-197 | The owner signs exactly undenied versions, and withdraws where that denies or removes something |
| EvidenceWorkflow.StepRepeatsNothingIff | scripts/core_evidence_workflow.py:256-258 | A detection starts no attempt after a success, and no automatic one after a refusal, iff each attempt at the version that it skips as older than the publication leaves room for the new one |
| EvidenceWorkflow.NeverRepeatsIffNeverForgets | scripts/core_evidence_workflow.py:256-258 | The same over every run: attempts are never repeated iff no detection skips one that stands in the way |
| EvidenceWorkflow.NeverRepeatsInView | scripts/core_release_evidence.py:124-134 | While every attempt's run was created no earlier than its release's publication, no version gets an attempt after a success or an automatic one after a refusal |
| EvidenceWorkflow.QueuedRefusalIsForgotten | scripts/core_evidence_workflow.py:256-258 | A run created at 9:41 and queued in its concurrency group attempts a release published at 9:50 and is refused; the next scheduled run skips it and attempts the release again |
| EvidenceWorkflow.AtMostOneSuccessOrLive | scripts/core_release_evidence.py:129-132 | Unless a detection forgets an attempt, a version has at most one that is live or successful |
| EvidenceWorkflow.PublishedWasAttempted | scripts/core_registry_one_tap.py:139-149 | Each automated entry came from an attempt with a candidate branch prepared against exactly the journal it extended |
| EvidenceWorkflow.AutomatedOnce | scripts/core_registry_one_tap.py:139-149 | No version is added twice by the automation |
| EvidenceWorkflow.AutomatedIncreaseIffClearOfWithdrawn | scripts/core_release_evidence.py:124-134 | Over every run, automated entries strictly increase iff each is above the automated versions withdrawn before it |
| EvidenceWorkflow.ComesNextIff | scripts/core_evidence_workflow.py:241-283 | Some future makes v the next automated entry iff it is above everything still signed, was never withdrawn and has no candidate branch bound to another journal |
| EvidenceWorkflow.NextFallsIffBelowWithdrawn | scripts/core_evidence_workflow.py:241-283 | A version not above an earlier automated entry can come next iff that entry was withdrawn and the version lies below it and can come next |
| EvidenceWorkflow.WithdrawalLetsVersionsFall | scripts/prepare_core_release_registry.py:226-233 | Publish 2026.11.0, withdraw it, dispatch 2026.10.5: the lower version is published after the higher one |
| WorkflowRefinement.FetchedRunIsSomeRun | scripts/core_evidence_workflow.py:178-203 | A run whose detections see only what discovery fetched is a run of the machine, whatever was left unread |
| WorkflowRefinement.RequestedFetchIsEnough | scripts/core_evidence_workflow.py:179-186 | A requested detection on the tag's one record is the detection on the whole listing |
| WorkflowRefinement.ScheduledFetchIsEnough | scripts/core_evidence_workflow.py:187-203 | A scheduled detection on the pages read is the detection on the whole listing when nothing higher is unread |
| WorkflowRefinement.SigningIsAStep | scripts/prepare_core_release_registry.py:130-197 | Every signing of a journal file is at most one step of the owner in the machine, with the same entries and denials |
| WorkflowRefinement.PublishingIsASigning | scripts/core_registry_one_tap.py:139-149 | Publishing a branch abstracts the signing of a candidate that adds its version to the journal it is bound to |
| WorkflowRefinement.SigningsAreARun | scripts/prepare_core_release_registry.py:266-337 | Every run of signings, compactions included, is a run of the owner's steps, with the same entries and denials throughout |
| WorkflowRefinement.SomeAbstraction | scripts/prepare_core_release_registry.py:101-107 | Every journal file without denied entries has a machine journal with its entries and denials |
| Bindings.EqualHashesIsPartialEquivalence | scripts/core_release_evidence.py:93-97 | Hash equality is symmetric and transitive, and reflexive exactly on absence and well-formed hashes |
| Bindings.ComparisonAcceptedIffIdentical | scripts/core_release_evidence.py:137-167 | The proof of a comparison is accepted iff it inherits iff every manifest path is identical |
| Bindings.LinkKeepsBytes | scripts/core_release_evidence.py:182-191 | A derived link keeps every manifest path byte-identical between its two commits |
| Bindings.ChainKeepsSemanticsAndBytes | scripts/core_release_evidence.py:182-191 | After any chain only the image digest and provenance differ from the anchor, and every manifest path is identical at first and last commit |
| Bindings.ComparedChainDerivesIff | scripts/core_release_evidence.py:137-191 | A chain of compared sources derives iff every step fits the release before it, has valid provenance and leaves every manifest path identical |
| Bindings.ComparedChainKeepsEverything | scripts/core_release_evidence.py:137-240 | For sources compared and derived one after another: final binding, manifest bytes from anchor to last commit, and an accepted context |
| Bindings.ChainContextIsAccepted | scripts/core_release_evidence.py:214-240 | Every derived release of a chain from a reviewed anchor has an accepted context |
| Bindings.DerivedContextIffDerivation | scripts/core_release_evidence.py:214-240 | A derived context is accepted iff it is of the expected run and manifest and one derived link away from a binding with its reviewed anchor's semantics |
| Bindings.ContextFaultIsFirstUnmet | scripts/core_release_evidence.py:214-240 | A context of any mode is refused for the first demand it does not meet, and accepted when it meets all |
| Bindings.MainContextIff | scripts/core_release_evidence.py:214-240 | A main context is accepted iff run, manifest and provenance are sound, its anchor is reviewed, its binding is the reviewed one with its own image digest, and its provenance is the committed lane's; no mode but main and derived ever is |
| Bindings.ProofFaultIsFirstUnmet | scripts/core_release_evidence.py:154-167 | A proof is refused for identity, coverage, bytes or verdict, whichever fails first |
| Bindings.ComparisonIs | scripts/core_release_evidence.py:137-151 | A comparison records both sides of every path and lists exactly the differing paths in order, iff both tags are pinned to their commits |
| Bindings.DerivationIs | scripts/core_release_evidence.py:182-191 | A derivation is refused for its provenance, then its proof, then the proof's predecessor commit; it changes only image digest and provenance |
| Capabilities.SelectionIff | scripts/core_release_evidence.py:194-207 | Selection yields s iff capabilities are distinct and mapped, result groups known, and s is the only order-preserving sublist of exactly the profiles whose group passed |
| Capabilities.AllowedIffItsGroupPassed | scripts/core_release_evidence.py:100-105 | A capability is allowed iff its one group passed |
| Capabilities.KeepIsExact | scripts/core_release_evidence.py:202-207 | The selected list is the order-preserving sublist of exactly the allowed profiles |
| Capabilities.SelectionIsMonotone | scripts/core_release_evidence.py:202-203 | More passing groups never select less |
| Capabilities.ChainsOnlyShrink | scripts/core_evidence_workflow.py:330-342 | Along a chain capabilities only shrink, and survivors passed in every release |
| Capabilities.SelectedAndWithheldPartition | scripts/core_evidence_workflow.py:334-335 | Selected and withheld partition the predecessor's profiles |
| Capabilities.EvidenceAndApprovalAgree | scripts/core_registry_one_tap.py:178-195 | The approval's withheld list equals the evidence's, and nothing is added |
| RegistryJournal.PredecessorIsNearest | scripts/core_registry_one_tap.py:114-122 | The predecessor entry is the same version's or the nearest lower one, and absent iff nothing is at or below |
| RegistryJournal.ByVersionIs | scripts/core_registry_one_tap.py:118-118 | Of several entries listed for a version the last counts |
| RegistryJournal.AcceptedIff | scripts/core_registry_one_tap.py:130-177 | Acceptance, order-free: digests, key, journal, next sequence and lifetime hold, and the entries are the tip's with the version withdrawn, or with some dropped and exactly its reviewed entry installed |
| RegistryJournal.RefusalIsFirstUnmet | scripts/core_registry_one_tap.py:125-177 | A request is refused for the first demand it does not meet, in the order of the checks |
| RegistryJournal.FactsAre | scripts/core_registry_one_tap.py:178-195 | An approval reports the new sequence, the predecessor's version and the target's capabilities |
| RegistryJournal.FactsAccountForEveryCapability | scripts/core_registry_one_tap.py:178-195 | The facts of an accepted request account for every capability: withheld and added are exactly the two differences, and a withdrawal withholds all |
| RegistryJournal.AdditionChangesOnlyTarget | scripts/core_registry_one_tap.py:172-177 | An accepted addition writes its target with the reviewed evidence and leaves every other surviving entry unchanged |
| RegistryJournal.AcceptedCandidatesStayLinked | scripts/core_registry_one_tap.py:145-149 | Along any requests the journal only grows and every envelope follows its predecessor |
| RegistryJournal.GapFree | scripts/core_registry_one_tap.py:145-149 | Sequence numbers have no gaps |
| RegistryJournal.TipDigestDeterminesHistory | scripts/core_registry_one_tap.py:145-149 | With an injective digest, equal tip digests mean equal histories |
| RegistryJournal.EntriesComeFromTheirLastRequest | scripts/core_registry_one_tap.py:164-177 | After any run of additions each entry was installed by the last accepted request for its version, with its reviewed evidence, or is the original |
| RegistryJournal.ApprovalReportsWhatEvidenceWithheld | scripts/core_registry_one_tap.py:178-195 | For a candidate assembled from the predecessor entry, approval reports exactly what the evidence withheld |
| RegistryJournal.ApprovalUsesDetectorPredecessor | scripts/core_evidence_workflow.py:284-287 | For a version above everything signed, approval compares with the entry the detector inherits from |
| RegistrySigning.TransitionIff | scripts/prepare_core_release_registry.py:130-197 | Exactly the allowed transitions: one version withdrawn, one entry written under the evidence, or one entry extended under new reviewed evidence, with the denials kept or one more |
| RegistrySigning.ParsesIff | hass_mcp_engineering_beta/ha_mcp_engineering/ha_mcp_readmission/registry.py:260-388 | Exactly the journals that parse: 1 to 64 consecutive bound envelopes and at most 8 sources apart from them |
| RegistrySigning.CompactedIs | hass_mcp_engineering_beta/ha_mcp_engineering/ha_mcp_readmission/registry.py:969-992 | The compacted journal: the last 32 envelopes, and exactly those older ones and sources that are the latest to deny some version under their identity |
| RegistrySigning.DenialIs | scripts/prepare_core_release_registry.py:101-107 | A retained denial is that of the last envelope denying its version |
| RegistrySigning.CompactionKeepsDenials | hass_mcp_engineering_beta/ha_mcp_engineering/ha_mcp_readmission/registry.py:969-992 | However much of the chain is dropped, the compacted journal denies exactly what the journal or the new envelope denies |
| RegistrySigning.SigningKeepsDenials | scripts/prepare_core_release_registry.py:101-107 | Whatever is signed parses again, and its tip carries every denial, old and new, with an entry for none of them |
| RegistrySigning.SigningKeepsEntries | scripts/prepare_core_release_registry.py:130-197 | Whatever is signed, each entry is gone only if denied, and otherwise keeps its identity while its references only grow |
| RegistrySigning.WithdrawnNeverReturns | scripts/prepare_core_release_registry.py:130-197 | Over every run of signings and compactions no denial is lost, no withdrawn version has an entry again, and every other entry stays with its identity and at least its references |
| RegistrySigning.FinalCheckNeverDecides | scripts/prepare_core_release_registry.py:325-336 | The checks of the signed result already follow from the transition check |
| RegistrySigning.CompactedParsesIff | hass_mcp_engineering_beta/ha_mcp_engineering/ha_mcp_readmission/registry.py:260-388 | A journal with the next envelope appended and compacted parses again iff the envelope is no older than the tip and at most eight sources are needed |
| RegistrySigning.SignsIff | scripts/prepare_core_release_registry.py:266-337 | Signing succeeds iff the envelope is the next, the transition allowed, the envelope current and no older than the tip, and sources and size fit |
| RegistrySigning.ApprovedSignsIff | scripts/prepare_core_release_registry.py:266-337 | A candidate approved at one moment is signed at another iff sources and size fit, it is current and no older than the tip, and an extension's predecessor is still current |
| RegistrySigning.RekeyingKeepsTheChain | scripts/core_registry_one_tap.py:270-281 | Re-keying succeeds exactly on journals that verify, keeps all their content, and the result verifies under the new key |
| RegistrySigning.SignFileIff | scripts/prepare_core_release_registry.py:266-337 | A candidate is signed iff its digest, key and journal are the bound ones, the file verifies and its content may be signed; the new file verifies and holds exactly that content |
| RegistrySigning.DryRunDecidesTheRealRun | scripts/core_registry_one_tap.py:284-302 | The real signing signs iff the candidate has the reviewed digest, is bound to the real key and journal, and the dry run signs; both results have the same content |
| ReleaseWalk.ConfigVersion | scripts/advertised_image_watchdog.py:194-213 | The cached reading equals the uncached one and keeps the cache sound |
| ReleaseWalk.AdvertisedIs | scripts/advertised_image_watchdog.py:194-213 | A version is known only from a regular file that names it, absence only from a missing path or a file without one; anything else is unknown |
| ReleaseWalk.ReleaseCommit | scripts/advertised_image_watchdog.py:216-233 | The last commit of the leading run advertising the version, iff that run's end is proven; none on any uncertainty or a cut walk |
| ReleaseWalk.ProvenRunIsUnique | scripts/advertised_image_watchdog.py:224-233 | At most one commit can be the answer |
| AlertIssue.BodyRecordsItsFingerprint | scripts/advertised_image_watchdog.py:499-514 | The first match of the fingerprint pattern in a body is that report's own, whatever follows |
| AlertIssue.BodyIs | scripts/advertised_image_watchdog.py:499-514 | A body starts with the marker line and the fingerprint comment |
| AlertIssue.SearchFinds | scripts/advertised_image_watchdog.py:576-576 | The recorded fingerprint is that of the first fingerprint comment in the body |
| AlertIssue.CommentIsFound | scripts/advertised_image_watchdog.py:576-576 | Every fingerprint comment of 64 hexadecimal digits is one the search stops at |
| AlertIssue.SeenIs | scripts/advertised_image_watchdog.py:543-551 | The issues seen are exactly the bot's own marked ones among the first hundred open labelled ones, in order |
| AlertIssue.PlanIs | scripts/advertised_image_watchdog.py:554-582 | Exit code, action and writes of a report, by its outcome and the issues seen |
| AlertIssue.AppliedIs | scripts/advertised_image_watchdog.py:533-541 | What the tracker does with each write |
| AlertIssue.Alert | scripts/advertised_image_watchdog.py:554-582 | An alert finishes exactly if every write is confirmed, and then performed its whole plan; interrupted it performed a first part of it |
| AlertIssue.CloseAll | scripts/advertised_image_watchdog.py:562-566 | The closing loop comments on and closes each issue in order |
| AlertMachine.BadReportEffect | scripts/advertised_image_watchdog.py:568-582 | A bad report opens at most one issue, keeps the rest in place, and when completed leaves the lowest open issue with its fingerprint |
| AlertMachine.SameReportAgainIsUnchangedIff | scripts/advertised_image_watchdog.py:576-578 | After a completed bad report the same report writes nothing iff an own issue was seen before, or fewer than a hundred labelled issues were open |
| AlertMachine.OkOnMainLeavesTheUnseen | scripts/advertised_image_watchdog.py:561-567 | A completed ok report on main leaves exactly the open watchdog issues beyond the page it read, so it closes all iff the page shows all |
| AlertMachine.OnlyOkOnMainCloses | scripts/advertised_image_watchdog.py:557-560 | Any other report leaves every open watchdog issue open |
| AlertMachine.AtMostOneOpenUncrowded | scripts/advertised_image_watchdog.py:554-582 | From at most one open watchdog issue and fewer than a hundred other open labelled ones, every sequence of reports, interrupted anywhere, keeps at most one open and visible |
| AlertMachine.AtMostOneOpen | scripts/advertised_image_watchdog.py:554-582 | In any tracker, the same as long as the open issue stays on the page that is read |
| AlertMachine.SecondIssueIffHidden | scripts/advertised_image_watchdog.py:543-551 | A second issue is opened iff the open one is not on the page that is read |
| AlertMachine.TwoOpenIffHiddenMet | scripts/advertised_image_watchdog.py:543-582 | Over every sequence of interrupted reports and changes by others, from at most one open watchdog issue, two are open at some moment iff some completed bad report met an open one off the page it read |
| AlertMachine.HiddenBehindAHundred | scripts/advertised_image_watchdog.py:544-544 | A hundred older labelled issues hide it |
| HostAdmission.WaitForAdmission | scripts/core_local_resources.py:114-148 | Ends within seven checks; admits iff the last sample meets the four host rules, all earlier ones refused; times out only after the hour; every save is a first part of the checks |
| HostAdmission.AtMostSevenChecks | scripts/core_local_resources.py:128-148 | With sleeps at least as long as asked there is no eighth check |
| HostAdmission.ExactSleepsCheckEveryTenMinutes | scripts/core_local_resources.py:138-148 | With exact sleeps and instantaneous observations the checks are at 0, 600, ..., 3600 seconds |

## Left out

- TokenBuckets.TokenBucket.Allow: floating-point rounding; times and tokens are reals, and the clock reading is a parameter.
- Gateways.Gateway.Handle: the several clock reads inside one call are one reading; audit entries, response bytes, the client-address lookup and asynchronous interleaving inside a call are not modelled.
- Path redaction in audit entries (`_redact_path`) and parsing of the audited body as JSON-RPC.
- Observation.VerifyInterval: the diagnostic keeps the condition, window, event position and retry count; the bounded event summaries and counts are functions of the same inputs and are omitted.
- RetryOnce.VerifyDiscarded: returns the set of windows, not its sorted list.
- The second check of the negative control, which follows from the expected commands being part of acceptance (`StrictProofIff`).
- CaseWindows.VerifyCaseWindow: JSON values are compared by structure, where Python also equates `true` with 1.
- RetainedWindows.VerifyRetainedWindows: all refusals by the shared discard check are one reason, as are all errors on unreadable content.
- DashboardRun.Lane.Call: what a case leaves behind when it is not kept, and receipt fields the replay does not read (timing, response digest, size).
- Waiting for disposable setup (`wait_disposable_setup`) and attributing a failed interval start.
- ReleaseSelection.WalkFindsGreatestOpen: versions are the three numbers of a tag; the tag grammar excludes leading zeros, so tags and versions correspond one to one, and the text form is not modelled.
- EvidenceWorkflow.WorkflowIsSafe: the pagination bounds on runs and jobs, which only refuse; the owner's additions, renewals and extensions are one event; publication stamps are moments, or unusable.
- EvidenceWorkflow.NeverRepeatsIffNeverForgets: re-running a finished workflow run is not an event; a re-run skips its own earlier attempt by run id, and re-running failed jobs resumes on the old binding.
- EvidenceWorkflow.StepRepeatsNothingIff: for the same reason, skips by creation date only.
- EvidenceWorkflow.NeverRepeatsInView: for the same reason, runs without re-runs.
- Bindings.DerivedContextIffDerivation: run identity is a map of named strings; manifest coverage validation and recovery of a predecessor's binding from its signed evidence are not modelled.
- Acceptance mode of the evidence workflow, its matrices, receipts on disk and candidate files.
- RegistryJournal.AcceptedIff: the candidate's fields are already parsed, and the transition check is a flag here; `RegistrySigning.ApprovedSignsIff` ties it to the check itself.
- RegistrySigning.SignsIff: the parser's checks of single fields, compiled contracts, the manifest that binds an extension, and the size of a file are parameters; the first journal, which has no predecessor, and the runtime verifier are not modelled.
- Signatures, SHA-256, JSON encoding, Git, container registries and GitHub calls.
- Registry and publish-run inspection in the watchdog (`registry_state`, `publish_runs`, `inspect_addon`), its severity maximum and its rendered text.
- AlertIssue.Alert: titles and comment texts; the label write happens iff the label is absent, and a failing read is an interruption before any further write.
- HostAdmission.WaitForAdmission: how a sample is taken, job classification, and the UTC stamps of the receipt.
