/**
 The alert issue over whole runs: reports, interrupted anywhere, interleaved with
 whatever others do to the tracker.
 */
module AlertMachine {
  import opened Support
  import opened AlertIssue

  /** An own issue that is open and labelled. */
  predicate Live(i: Issue) {
    i.open && i.labelled && IsOwn(i)
  }

  function LiveAmong(issues: seq<Issue>): seq<Issue> {
    if issues == [] then []
    else
      var last := issues[|issues| - 1];
      var earlier := LiveAmong(issues[..|issues| - 1]);
      if Live(last) then earlier + [last] else earlier
  }

  lemma LiveSnoc(issues: seq<Issue>, last: Issue)
    ensures LiveAmong(issues + [last]) == if Live(last) then LiveAmong(issues) + [last] else LiveAmong(issues)
  {
    assert (issues + [last])[..|issues|] == issues;
  }

  lemma OpenSnoc(issues: seq<Issue>, last: Issue)
    ensures OpenLabelled(issues + [last]) == if last.open && last.labelled then OpenLabelled(issues) + [last] else OpenLabelled(issues)
  {
    assert (issues + [last])[..|issues|] == issues;
  }

  lemma OwnSnoc(issues: seq<Issue>, last: Issue)
    ensures OwnAmong(issues + [last]) == if IsOwn(last) then OwnAmong(issues) + [last] else OwnAmong(issues)
  {
    assert (issues + [last])[..|issues|] == issues;
  }

  lemma {:induction false} LiveIsOpenOwn(issues: seq<Issue>)
    ensures OwnAmong(OpenLabelled(issues)) == LiveAmong(issues)
  {
    if issues != [] {
      var shorter := issues[..|issues| - 1];
      var last := issues[|issues| - 1];
      LiveIsOpenOwn(shorter);
      assert issues == shorter + [last];
      LiveSnoc(shorter, last);
      OpenSnoc(shorter, last);
      OwnSnoc(OpenLabelled(shorter), last);
    }
  }

  /** What is seen is the start of what there is, and everything while one page holds it all. */
  lemma {:induction false} OwnOfPrefix(issues: seq<Issue>, n: nat)
    requires n <= |issues|
    ensures OwnAmong(issues[..n]) <= OwnAmong(issues)
    decreases |issues|
  {
    if n < |issues| {
      var shorter := issues[..|issues| - 1];
      assert shorter[..n] == issues[..n];
      OwnOfPrefix(shorter, n);
    } else {
      assert issues[..n] == issues;
    }
  }

  predicate OnePage(t: Tracker) {
    |OpenLabelled(t.issues)| <= PAGE
  }

  lemma SeenIsAPrefix(t: Tracker)
    ensures Seen(t) <= OpenOwn(t)
    ensures OnePage(t) ==> Seen(t) == OpenOwn(t)
  {
    var all := OpenLabelled(t.issues);
    OwnOfPrefix(all, if |all| <= PAGE then |all| else PAGE);
    assert all[..|all|] == all;
  }

  function Retouched(issues: seq<Issue>, w: Write): (r: seq<Issue>)
    ensures |r| == |issues| && forall i :: 0 <= i < |r| ==> r[i] == Touched(issues[i], w)
  {
    seq(|issues|, i requires 0 <= i < |issues| => Touched(issues[i], w))
  }

  lemma RetouchedSnoc(issues: seq<Issue>, last: Issue, w: Write)
    ensures Retouched(issues + [last], w) == Retouched(issues, w) + [Touched(last, w)]
  {}

  /** The write keeps live issues live and dead ones dead. */
  ghost predicate KeepsLife(issues: seq<Issue>, w: Write) {
    forall i :: 0 <= i < |issues| ==> Live(Touched(issues[i], w)) == Live(issues[i])
  }

  /** Then it only rewrites the live list. */
  lemma {:induction false} LiveOfRetouched(issues: seq<Issue>, w: Write)
    requires KeepsLife(issues, w)
    ensures LiveAmong(Retouched(issues, w)) == Retouched(LiveAmong(issues), w)
  {
    if issues != [] {
      var shorter := issues[..|issues| - 1];
      var last := issues[|issues| - 1];
      assert issues == shorter + [last];
      assert KeepsLife(shorter, w) by {
        assert forall i :: 0 <= i < |shorter| ==> shorter[i] == issues[i];
      }
      LiveOfRetouched(shorter, w);
      LiveOfRetouchedStep(shorter, last, w);
    }
  }

  lemma LiveOfRetouchedStep(shorter: seq<Issue>, last: Issue, w: Write)
    requires LiveAmong(Retouched(shorter, w)) == Retouched(LiveAmong(shorter), w)
    requires Live(Touched(last, w)) == Live(last)
    ensures LiveAmong(Retouched(shorter + [last], w)) == Retouched(LiveAmong(shorter + [last]), w)
  {
    RetouchedSnoc(shorter, last, w);
    LiveSnoc(Retouched(shorter, w), Touched(last, w));
    LiveSnoc(shorter, last);
    RetouchedSnoc(LiveAmong(shorter), last, w);
  }

  /** Closing one number removes the live issues of that number and keeps the rest. */
  function Except(issues: seq<Issue>, number: nat): seq<Issue> {
    if issues == [] then []
    else
      var last := issues[|issues| - 1];
      var earlier := Except(issues[..|issues| - 1], number);
      if last.number == number then earlier else earlier + [last]
  }

  lemma ExceptSnoc(issues: seq<Issue>, last: Issue, number: nat)
    ensures Except(issues + [last], number) ==
            if last.number == number then Except(issues, number) else Except(issues, number) + [last]
  {
    assert (issues + [last])[..|issues|] == issues;
  }

  lemma {:induction false} LiveOfClosed(issues: seq<Issue>, number: nat)
    ensures LiveAmong(Retouched(issues, Close(number))) == Except(LiveAmong(issues), number)
  {
    if issues != [] {
      var shorter := issues[..|issues| - 1];
      var last := issues[|issues| - 1];
      LiveOfClosed(shorter, number);
      assert Retouched(issues, Close(number)) == Retouched(shorter, Close(number)) + [Touched(last, Close(number))];
      LiveSnoc(Retouched(shorter, Close(number)), Touched(last, Close(number)));
      LiveSnoc(shorter, last);
      assert issues == shorter + [last];
      ExceptSnoc(LiveAmong(shorter), last, number);
    }
  }

  /** The live list after one write. */
  lemma LiveAfterWrite(t: Tracker, w: Write)
    requires w.Open? ==> Contains(w.body, MARKER)
    requires w.Edit? ==> Contains(w.body, MARKER) && forall i :: i in t.issues && i.number == w.number ==> IsOwn(i)
    ensures var live := OpenOwn(t);
            OpenOwn(Applied(t, w)) ==
              match w
              case Open(body) => live + [Issue(NextNumber(t.issues), true, true, true, false, body)]
              case Close(number) => Except(live, number)
              case _ => Retouched(live, w)
  {
    LiveIsOpenOwn(t.issues);
    LiveIsOpenOwn(Applied(t, w).issues);
    match w {
      case Open(body) => LiveSnoc(t.issues, Issue(NextNumber(t.issues), true, true, true, false, body));
      case Close(number) =>
        assert Applied(t, w).issues == Retouched(t.issues, w);
        LiveOfClosed(t.issues, number);
      case CreateLabel => assert Retouched(LiveAmong(t.issues), w) == LiveAmong(t.issues);
      case Comment(_) =>
        assert Applied(t, w).issues == Retouched(t.issues, w);
        LiveOfRetouched(t.issues, w);
      case Edit(number, body) =>
        assert Applied(t, w).issues == Retouched(t.issues, w);
        assert KeepsLife(t.issues, w) by {
          assert forall i :: 0 <= i < |t.issues| ==> t.issues[i] in t.issues;
        }
        LiveOfRetouched(t.issues, w);
    }
  }

  lemma {:induction false} LiveMembers(issues: seq<Issue>, j: nat)
    requires j < |LiveAmong(issues)|
    ensures LiveAmong(issues)[j] in issues && Live(LiveAmong(issues)[j])
  {
    var shorter := issues[..|issues| - 1];
    var last := issues[|issues| - 1];
    assert issues == shorter + [last];
    LiveSnoc(shorter, last);
    if j < |LiveAmong(shorter)| {
      LiveMembers(shorter, j);
    }
  }

  /** The issue an update edits is own, and so is every issue of its number. */
  lemma EditedIsOwn(t: Tracker)
    requires Ordered(t) && Seen(t) != []
    ensures OpenOwn(t) != [] && OpenOwn(t)[0] == Seen(t)[0]
    ensures forall i :: i in t.issues && i.number == Seen(t)[0].number ==> IsOwn(i)
  {
    SeenIsAPrefix(t);
    LiveIsOpenOwn(t.issues);
    LiveMembers(t.issues, 0);
  }

  predicate Bad(r: Report) {
    r.outcome == Unknown || r.outcome == Mismatch
  }

  /** The tracker after the first `k` writes of an alert took effect. */
  function AfterAlert(r: Report, t: Tracker, k: nat): Tracker {
    var writes := Planned(r, t).writes;
    AllApplied(t, writes[..if k <= |writes| then k else |writes|])
  }

  predicate Completed(r: Report, t: Tracker, k: nat) {
    k >= |Planned(r, t).writes|
  }

  lemma AppliedOne(t: Tracker, w: Write)
    ensures AllApplied(t, []) == t && AllApplied(t, [w]) == Applied(t, w)
  {
    assert [w][..0] == [];
  }

  lemma AppliedTwo(t: Tracker, v: Write, w: Write)
    ensures AllApplied(t, [v, w]) == Applied(Applied(t, v), w)
  {
    assert [v, w][..1] == [v];
    AppliedOne(t, v);
  }

  /** Opening: exactly one live issue more once the last write took effect, none before. */
  lemma OpeningEffect(t: Tracker, body: string, k: nat)
    requires Contains(body, MARKER) && k <= |OpeningWrites(t.labelExists, body)|
    ensures var live := OpenOwn(AllApplied(t, OpeningWrites(t.labelExists, body)[..k]));
            if k < |OpeningWrites(t.labelExists, body)| then live == OpenOwn(t)
            else |live| == |OpenOwn(t)| + 1 && live[..|OpenOwn(t)|] == OpenOwn(t) && live[|OpenOwn(t)|].body == body
  {
    var writes := OpeningWrites(t.labelExists, body);
    assert writes[..0] == [] && writes[..1] == [writes[0]] && writes[..|writes|] == writes;
    AppliedOne(t, writes[0]);
    if t.labelExists {
      LiveAfterWrite(t, Open(body));
    } else {
      AppliedTwo(t, CreateLabel, Open(body));
      LabelIsNoIssue(t);
      LiveAfterWrite(Applied(t, CreateLabel), Open(body));
    }
  }

  lemma LabelIsNoIssue(t: Tracker)
    ensures OpenOwn(Applied(t, CreateLabel)) == OpenOwn(t)
  {}

  /** Editing: the same live issues, the first one with the new body once the edit took effect. */
  lemma EditingEffect(t: Tracker, body: string, k: nat)
    requires Contains(body, MARKER) && Ordered(t) && Seen(t) != [] && k <= 2
    ensures var number := Seen(t)[0].number;
            var live := OpenOwn(AllApplied(t, [Edit(number, body), Comment(number)][..k]));
            live == if k == 0 then OpenOwn(t) else Retouched(OpenOwn(t), Edit(number, body))
    ensures OpenOwn(t) != [] && Retouched(OpenOwn(t), Edit(Seen(t)[0].number, body))[0].body == body
  {
    var number := Seen(t)[0].number;
    var writes := [Edit(number, body), Comment(number)];
    EditedIsOwn(t);
    assert writes[..0] == [] && writes[..1] == [Edit(number, body)] && writes[..2] == writes;
    AppliedOne(t, Edit(number, body));
    AppliedTwo(t, Edit(number, body), Comment(number));
    LiveAfterWrite(t, Edit(number, body));
    LiveAfterWrite(Applied(t, Edit(number, body)), Comment(number));
    Comments(OpenOwn(Applied(t, Edit(number, body))), number);
  }

  lemma Comments(issues: seq<Issue>, number: nat)
    ensures Retouched(issues, Comment(number)) == issues
  {}

  /** An open watchdog issue, if there is one, is on the one page that is read. */
  predicate Visible(t: Tracker) {
    OpenOwn(t) == [] || Seen(t) != []
  }

  /**
   A bad report: while the open issue is visible no second one is opened, and a completed run leaves
   the lowest open issue carrying exactly the report's fingerprint.
   */
  lemma BadReportEffect(r: Report, t: Tracker, k: nat)
    requires Bad(r) && IsHex(r.fingerprint, FINGERPRINT_LENGTH) && Ordered(t)
    ensures var live := OpenOwn(AfterAlert(r, t, k));
            && |live| == |OpenOwn(t)| + (if Seen(t) == [] && Completed(r, t, k) then 1 else 0)
            && (Visible(t) && Completed(r, t, k) ==>
                  live != [] && RecordedFingerprint(live[0].body) == Some(r.fingerprint))
            && (Seen(t) != [] && k >= 1 ==> live != [] && RecordedFingerprint(live[0].body) == Some(r.fingerprint))
            && forall i :: 0 <= i < |OpenOwn(t)| ==> live[i].number == OpenOwn(t)[i].number
  {
    BodyRecordsItsFingerprint(r);
    SeenIsAPrefix(t);
    var writes := Planned(r, t).writes;
    var steps := if k <= |writes| then k else |writes|;
    if Seen(t) == [] {
      OpeningEffect(t, IssueBody(r), steps);
    } else if RecordedFingerprint(Seen(t)[0].body) == Some(r.fingerprint) {
      EditedIsOwn(t);
      assert writes[..steps] == [];
    } else {
      EditingEffect(t, IssueBody(r), steps);
    }
  }

  /** With exactly one watchdog issue open, a completed bad report opens a second iff the first is hidden. */
  lemma SecondIssueIffHidden(r: Report, t: Tracker, k: nat)
    requires Bad(r) && IsHex(r.fingerprint, FINGERPRINT_LENGTH) && Ordered(t)
    requires |OpenOwn(t)| == 1 && Completed(r, t, k)
    ensures |OpenOwn(AfterAlert(r, t, k))| == 2 <==> !Visible(t)
  {
    BadReportEffect(r, t, k);
  }

  /** An edit changes no membership of the page that is read. */
  lemma {:induction false} OpenLabelledOfEdited(issues: seq<Issue>, number: nat, body: string)
    ensures OpenLabelled(Retouched(issues, Edit(number, body))) == Retouched(OpenLabelled(issues), Edit(number, body))
  {
    if issues != [] {
      var shorter := issues[..|issues| - 1];
      var last := issues[|issues| - 1];
      assert issues == shorter + [last];
      OpenLabelledOfEdited(shorter, number, body);
      RetouchedSnoc(shorter, last, Edit(number, body));
      OpenSnoc(Retouched(shorter, Edit(number, body)), Touched(last, Edit(number, body)));
      OpenSnoc(shorter, last);
    }
  }

  lemma {:induction false} OwnOfEdited(issues: seq<Issue>, number: nat, body: string)
    requires Contains(body, MARKER) && forall i :: i in issues && i.number == number ==> IsOwn(i)
    ensures OwnAmong(Retouched(issues, Edit(number, body))) == Retouched(OwnAmong(issues), Edit(number, body))
  {
    if issues != [] {
      var shorter := issues[..|issues| - 1];
      var last := issues[|issues| - 1];
      assert issues == shorter + [last];
      OwnOfEdited(shorter, number, body);
      RetouchedSnoc(shorter, last, Edit(number, body));
      OwnSnoc(Retouched(shorter, Edit(number, body)), Touched(last, Edit(number, body)));
      OwnSnoc(shorter, last);
    }
  }

  lemma {:induction false} OpenLabelledMembers(issues: seq<Issue>)
    ensures forall i :: i in OpenLabelled(issues) ==> i in issues
  {
    if issues != [] {
      var shorter := issues[..|issues| - 1];
      assert issues == shorter + [issues[|issues| - 1]];
      OpenLabelledMembers(shorter);
    }
  }

  /** After an update the same issues are seen, the first one with the new body. */
  lemma SeenAfterUpdate(t: Tracker, body: string)
    requires Contains(body, MARKER) && Ordered(t) && Seen(t) != []
    ensures var number := Seen(t)[0].number;
            Seen(AllApplied(t, [Edit(number, body), Comment(number)])) == Retouched(Seen(t), Edit(number, body))
  {
    var number := Seen(t)[0].number;
    var edited := Applied(t, Edit(number, body));
    AppliedTwo(t, Edit(number, body), Comment(number));
    Comments(edited.issues, number);
    assert Applied(edited, Comment(number)).issues == edited.issues;
    assert edited.issues == Retouched(t.issues, Edit(number, body));
    OpenLabelledOfEdited(t.issues, number, body);
    assert FirstPage(edited) == Retouched(FirstPage(t), Edit(number, body));
    EditedIsOwn(t);
    OpenLabelledMembers(t.issues);
    OwnOfEdited(FirstPage(t), number, body);
  }

  /** After opening, the new issue is seen iff there was room for it on the page. */
  lemma SeenAfterOpening(t: Tracker, body: string)
    requires Contains(body, MARKER) && Seen(t) == []
    ensures var after := AllApplied(t, OpeningWrites(t.labelExists, body));
            if |OpenLabelled(t.issues)| < PAGE then |Seen(after)| == 1 && Seen(after)[0].body == body else Seen(after) == []
  {
    var added := Issue(NextNumber(t.issues), true, true, true, false, body);
    var all := OpenLabelled(t.issues);
    var after := AllApplied(t, OpeningWrites(t.labelExists, body));
    AppliedOne(t, Open(body));
    AppliedTwo(t, CreateLabel, Open(body));
    assert after.issues == t.issues + [added];
    OpenSnoc(t.issues, added);
    if |all| < PAGE {
      assert all[..|all|] == all;
      assert FirstPage(after) == all + [added];
      OwnSnoc(all, added);
    } else {
      assert FirstPage(after) == FirstPage(t);
    }
  }

  /** The same report again writes nothing iff an own issue was seen, or there was room to see a new one. */
  lemma SameReportAgainIsUnchangedIff(r: Report, t: Tracker, k: nat)
    requires Bad(r) && IsHex(r.fingerprint, FINGERPRINT_LENGTH) && Ordered(t) && Completed(r, t, k)
    ensures Planned(r, AfterAlert(r, t, k)) == Plan([], 1, Unchanged)
            <==> Seen(t) != [] || |OpenLabelled(t.issues)| < PAGE
  {
    BodyRecordsItsFingerprint(r);
    var writes := Planned(r, t).writes;
    assert writes[..|writes|] == writes;
    if Seen(t) == [] {
      SeenAfterOpening(t, IssueBody(r));
    } else if RecordedFingerprint(Seen(t)[0].body) != Some(r.fingerprint) {
      SeenAfterUpdate(t, IssueBody(r));
    }
  }

  /** Removing the numbers of `gone`, one after another. */
  function ExceptAll(issues: seq<Issue>, gone: seq<Issue>): seq<Issue> {
    if gone == [] then issues
    else Except(ExceptAll(issues, gone[..|gone| - 1]), gone[|gone| - 1].number)
  }

  lemma {:induction false} ClosingEffect(t: Tracker, issues: seq<Issue>)
    ensures OpenOwn(AllApplied(t, ClosingWrites(issues))) == ExceptAll(OpenOwn(t), issues)
  {
    if issues != [] {
      var shorter := issues[..|issues| - 1];
      var number := issues[|issues| - 1].number;
      ClosingEffect(t, shorter);
      var before := AllApplied(t, ClosingWrites(shorter));
      var writes := ClosingWrites(issues);
      assert writes == ClosingWrites(shorter) + [Comment(number)] + [Close(number)];
      assert writes[..|writes| - 1] == ClosingWrites(shorter) + [Comment(number)];
      assert writes[..|writes| - 1][..|writes| - 2] == ClosingWrites(shorter);
      LiveAfterWrite(before, Comment(number));
      Comments(OpenOwn(before), number);
      LiveAfterWrite(Applied(before, Comment(number)), Close(number));
    }
  }

  lemma {:induction false} ExceptMembers(issues: seq<Issue>, number: nat)
    ensures forall i :: i in Except(issues, number) ==> i in issues && i.number != number
    ensures |Except(issues, number)| <= |issues|
  {
    if issues != [] {
      var shorter := issues[..|issues| - 1];
      ExceptMembers(shorter, number);
      assert issues == shorter + [issues[|issues| - 1]];
      ExceptSnoc(shorter, issues[|issues| - 1], number);
    }
  }

  ghost predicate Ascending(issues: seq<Issue>) {
    forall i, j :: 0 <= i < j < |issues| ==> issues[i].number < issues[j].number
  }

  lemma {:induction false} LiveAscending(issues: seq<Issue>)
    requires Ascending(issues)
    ensures Ascending(LiveAmong(issues))
  {
    if issues != [] {
      var shorter := issues[..|issues| - 1];
      LiveAscending(shorter);
      forall j | 0 <= j < |LiveAmong(shorter)|
        ensures LiveAmong(shorter)[j].number < issues[|issues| - 1].number
      {
        LiveMembers(shorter, j);
      }
    }
  }

  lemma {:induction false} ExceptFirst(issues: seq<Issue>)
    requires issues != [] && Ascending(issues)
    ensures Except(issues, issues[0].number) == issues[1..]
  {
    var shorter := issues[..|issues| - 1];
    if |issues| > 1 {
      ExceptFirst(shorter);
      assert issues[1..] == shorter[1..] + [issues[|issues| - 1]];
    }
  }

  lemma {:induction false} ExceptPrefix(issues: seq<Issue>, n: nat)
    requires n <= |issues| && Ascending(issues)
    ensures ExceptAll(issues, issues[..n]) == issues[n..]
  {
    if n > 0 {
      ExceptPrefix(issues, n - 1);
      assert issues[..n][..n - 1] == issues[..n - 1];
      ExceptFirst(issues[n - 1..]);
    }
  }

  /**
   A completed `ok` report on main leaves exactly the open watchdog issues that it did not see; so it closes
   all of them exactly when the page it reads shows all of them.
   */
  lemma OkOnMainLeavesTheUnseen(r: Report, t: Tracker, k: nat)
    requires r.outcome == Ok && r.onMain && Completed(r, t, k) && Ordered(t)
    ensures Seen(t) <= OpenOwn(t)
    ensures OpenOwn(AfterAlert(r, t, k)) == OpenOwn(t)[|Seen(t)|..]
    ensures OpenOwn(AfterAlert(r, t, k)) == [] <==> Seen(t) == OpenOwn(t)
  {
    SeenIsAPrefix(t);
    var writes := Planned(r, t).writes;
    assert writes[..|writes|] == writes;
    ClosingEffect(t, Seen(t));
    LiveIsOpenOwn(t.issues);
    LiveAscending(t.issues);
    assert Seen(t) == OpenOwn(t)[..|Seen(t)|];
    ExceptPrefix(OpenOwn(t), |Seen(t)|);
  }

  /** However far it got, an `ok` report never adds a live issue. */
  lemma {:induction false} ClosingNeverAdds(t: Tracker, writes: seq<Write>)
    requires forall i :: 0 <= i < |writes| ==> writes[i].Comment? || writes[i].Close?
    ensures |OpenOwn(AllApplied(t, writes))| <= |OpenOwn(t)|
  {
    if writes != [] {
      var before := AllApplied(t, writes[..|writes| - 1]);
      ClosingNeverAdds(t, writes[..|writes| - 1]);
      LiveAfterWrite(before, writes[|writes| - 1]);
      if writes[|writes| - 1].Close? {
        ExceptMembers(OpenOwn(before), writes[|writes| - 1].number);
      }
    }
  }

  lemma {:induction false} ClosingKinds(issues: seq<Issue>)
    ensures forall i :: 0 <= i < |ClosingWrites(issues)| ==> ClosingWrites(issues)[i].Comment? || ClosingWrites(issues)[i].Close?
  {
    if issues != [] { ClosingKinds(issues[..|issues| - 1]); }
  }

  /** Only `ok` on main closes: any other report leaves every open watchdog issue open, in place. */
  lemma OnlyOkOnMainCloses(r: Report, t: Tracker, k: nat)
    requires Ordered(t) && IsHex(r.fingerprint, FINGERPRINT_LENGTH)
    requires !(r.outcome == Ok && r.onMain)
    ensures var live := OpenOwn(AfterAlert(r, t, k));
            |live| >= |OpenOwn(t)| && forall i :: 0 <= i < |OpenOwn(t)| ==> live[i].number == OpenOwn(t)[i].number
  {
    if Bad(r) {
      BadReportEffect(r, t, k);
    } else {
      assert Planned(r, t).writes == [];
    }
  }

  // ----- Whole runs -----

  /**
   One step: an alert of which the first writes took effect, or others changing the tracker. An open watchdog
   issue is a labelled one throughout: if others remove its label, the watchdog no longer finds it, and opens
   a labelled second one beside it.
   */
  datatype Event = Alerted(report: Report, effective: nat) | ByOthers(next: Tracker)

  /** Others may do anything but open or reopen a watchdog issue. */
  function Next(t: Tracker, e: Event): Tracker {
    match e
    case Alerted(report, effective) => AfterAlert(report, t, effective)
    case ByOthers(next) => next
  }

  ghost predicate Admissible(t: Tracker, e: Event) {
    match e
    case Alerted(report, _) => IsHex(report.fingerprint, FINGERPRINT_LENGTH)
    case ByOthers(next) => Ordered(next) && |OpenOwn(next)| <= |OpenOwn(t)|
  }

  function States(t: Tracker, events: seq<Event>, n: nat): Tracker
    requires n <= |events|
  {
    if n == 0 then t else Next(States(t, events, n - 1), events[n - 1])
  }

  /** Before each of the first `n` steps the open issue is visible, and the step is admissible. */
  ghost predicate Undisturbed(t: Tracker, events: seq<Event>, n: nat)
    requires n <= |events|
  {
    n > 0 ==>
      && Undisturbed(t, events, n - 1)
      && Visible(States(t, events, n - 1)) && Admissible(States(t, events, n - 1), events[n - 1])
  }

  lemma NumbersStayOrdered(t: Tracker, w: Write)
    requires Ordered(t)
    ensures Ordered(Applied(t, w))
  {}

  lemma {:induction false} WritesStayOrdered(t: Tracker, writes: seq<Write>)
    requires Ordered(t)
    ensures Ordered(AllApplied(t, writes))
  {
    if writes != [] {
      WritesStayOrdered(t, writes[..|writes| - 1]);
      NumbersStayOrdered(AllApplied(t, writes[..|writes| - 1]), writes[|writes| - 1]);
    }
  }

  lemma StepStaysOrdered(t: Tracker, e: Event)
    requires Ordered(t) && Admissible(t, e)
    ensures Ordered(Next(t, e))
  {
    if e.Alerted? {
      var writes := Planned(e.report, t).writes;
      WritesStayOrdered(t, writes[..if e.effective <= |writes| then e.effective else |writes|]);
    }
  }

  /** A completed bad report, while the open watchdog issue is off the page it reads. */
  predicate MeetsHidden(t: Tracker, e: Event) {
    e.Alerted? && Bad(e.report) && Completed(e.report, t, e.effective) && !Visible(t)
  }

  /** From at most one open watchdog issue, a step leaves more than one exactly when it meets a hidden one. */
  lemma StepOpensSecondIff(t: Tracker, e: Event)
    requires Ordered(t) && |OpenOwn(t)| <= 1 && Admissible(t, e)
    ensures |OpenOwn(Next(t, e))| > 1 <==> MeetsHidden(t, e)
  {
    if e.Alerted? {
      var writes := Planned(e.report, t).writes;
      var steps := if e.effective <= |writes| then e.effective else |writes|;
      if Bad(e.report) {
        BadReportEffect(e.report, t, e.effective);
      } else if e.report.outcome == Ok && e.report.onMain {
        ClosingKinds(Seen(t));
        ClosingNeverAdds(t, writes[..steps]);
      }
    }
  }

  /** Each of the first `n` steps is admissible where it happens. */
  ghost predicate AllAdmissible(t: Tracker, events: seq<Event>, n: nat)
    requires n <= |events|
  {
    n > 0 ==> AllAdmissible(t, events, n - 1) && Admissible(States(t, events, n - 1), events[n - 1])
  }

  ghost predicate SomeMeetsHidden(t: Tracker, events: seq<Event>, n: nat)
    requires n <= |events|
  {
    exists k :: 0 <= k < n && MeetsHidden(States(t, events, k), events[k])
  }

  ghost predicate SometimesTwo(t: Tracker, events: seq<Event>, n: nat)
    requires n <= |events|
  {
    exists k :: 0 <= k <= n && |OpenOwn(States(t, events, k))| > 1
  }

  lemma {:induction false} RunStaysOrdered(t: Tracker, events: seq<Event>, n: nat)
    requires Ordered(t) && n <= |events| && AllAdmissible(t, events, n)
    ensures Ordered(States(t, events, n))
  {
    if n > 0 {
      RunStaysOrdered(t, events, n - 1);
      StepStaysOrdered(States(t, events, n - 1), events[n - 1]);
    }
  }

  /**
   Over every sequence of reports, each interrupted anywhere, interleaved with others' changes, from at most
   one open watchdog issue: two are open at some moment exactly when some completed bad report met an open
   one that is off the page it reads.
   */
  lemma {:induction false} TwoOpenIffHiddenMet(t: Tracker, events: seq<Event>, n: nat)
    requires Ordered(t) && |OpenOwn(t)| <= 1 && n <= |events| && AllAdmissible(t, events, n)
    ensures SometimesTwo(t, events, n) <==> SomeMeetsHidden(t, events, n)
  {
    if n > 0 {
      TwoOpenIffHiddenMet(t, events, n - 1);
      LastOfSometimes(t, events, n);
      if !SometimesTwo(t, events, n - 1) {
        RunStaysOrdered(t, events, n - 1);
        StepOpensSecondIff(States(t, events, n - 1), events[n - 1]);
      }
    }
  }

  lemma LastOfSometimes(t: Tracker, events: seq<Event>, n: nat)
    requires 0 < n <= |events|
    ensures SometimesTwo(t, events, n) <==> SometimesTwo(t, events, n - 1) || |OpenOwn(States(t, events, n))| > 1
    ensures SomeMeetsHidden(t, events, n)
            <==> SomeMeetsHidden(t, events, n - 1) || MeetsHidden(States(t, events, n - 1), events[n - 1])
    ensures !SometimesTwo(t, events, n - 1) ==> |OpenOwn(States(t, events, n - 1))| <= 1
  {}

  /**
   At most one: from a tracker with at most one open watchdog issue, every sequence of reports, each
   interrupted anywhere, interleaved with others' changes, keeps at most one open, as long as the
   open one stays on the page that is read.
   */
  lemma {:induction false} AtMostOneOpen(t: Tracker, events: seq<Event>, n: nat)
    requires Ordered(t) && |OpenOwn(t)| <= 1 && n <= |events|
    requires Undisturbed(t, events, n)
    ensures Ordered(States(t, events, n)) && |OpenOwn(States(t, events, n))| <= 1
  {
    if n > 0 {
      AtMostOneOpen(t, events, n - 1);
      StepStaysOrdered(States(t, events, n - 1), events[n - 1]);
      StepOpensSecondIff(States(t, events, n - 1), events[n - 1]);
    }
  }

  /** Open labelled issues that are not the watchdog's. */
  function Others(issues: seq<Issue>): nat {
    if issues == [] then 0
    else
      var last := issues[|issues| - 1];
      Others(issues[..|issues| - 1]) + if last.open && last.labelled && !IsOwn(last) then 1 else 0
  }

  lemma OthersSnoc(issues: seq<Issue>, last: Issue)
    ensures Others(issues + [last]) == Others(issues) + if last.open && last.labelled && !IsOwn(last) then 1 else 0
  {
    assert (issues + [last])[..|issues|] == issues;
  }

  lemma {:induction false} OwnAndOthers(issues: seq<Issue>)
    ensures |OpenLabelled(issues)| == |LiveAmong(issues)| + Others(issues)
  {
    if issues != [] { OwnAndOthers(issues[..|issues| - 1]); }
  }

  /** A write that carries the marker in any body it sets. */
  predicate Marked(w: Write) {
    (w.Open? || w.Edit?) ==> Contains(w.body, MARKER)
  }

  lemma {:induction false} RetouchingAddsNoOthers(issues: seq<Issue>, w: Write)
    requires Marked(w)
    ensures Others(Retouched(issues, w)) <= Others(issues)
  {
    if issues != [] {
      var shorter := issues[..|issues| - 1];
      var last := issues[|issues| - 1];
      assert issues == shorter + [last];
      RetouchingAddsNoOthers(shorter, w);
      RetouchedSnoc(shorter, last, w);
      OthersSnoc(Retouched(shorter, w), Touched(last, w));
    }
  }

  lemma WriteAddsNoOthers(t: Tracker, w: Write)
    requires Marked(w)
    ensures Others(Applied(t, w).issues) <= Others(t.issues)
  {
    match w {
      case CreateLabel =>
      case Open(body) => OthersSnoc(t.issues, Issue(NextNumber(t.issues), true, true, true, false, body));
      case _ =>
        assert Applied(t, w).issues == Retouched(t.issues, w);
        RetouchingAddsNoOthers(t.issues, w);
    }
  }

  lemma {:induction false} WritesAddNoOthers(t: Tracker, writes: seq<Write>)
    requires forall i :: 0 <= i < |writes| ==> Marked(writes[i])
    ensures Others(AllApplied(t, writes).issues) <= Others(t.issues)
  {
    if writes != [] {
      WritesAddNoOthers(t, writes[..|writes| - 1]);
      WriteAddsNoOthers(AllApplied(t, writes[..|writes| - 1]), writes[|writes| - 1]);
    }
  }

  lemma PlansAreMarked(r: Report, t: Tracker)
    requires IsHex(r.fingerprint, FINGERPRINT_LENGTH)
    ensures forall i :: 0 <= i < |Planned(r, t).writes| ==> Marked(Planned(r, t).writes[i])
  {
    BodyRecordsItsFingerprint(r);
    ClosingKinds(Seen(t));
  }

  /** At most one watchdog issue is open, and fewer than a page of other labelled ones. */
  ghost predicate Uncrowded(t: Tracker) {
    Ordered(t) && |OpenOwn(t)| <= 1 && Others(t.issues) < PAGE
  }

  /** Then the one open issue is on the page that is read. */
  lemma UncrowdedIsVisible(t: Tracker)
    requires Uncrowded(t)
    ensures OnePage(t) && Visible(t)
  {
    OwnAndOthers(t.issues);
    LiveIsOpenOwn(t.issues);
    SeenIsAPrefix(t);
  }

  lemma AlertKeepsUncrowded(r: Report, t: Tracker, k: nat)
    requires Uncrowded(t) && IsHex(r.fingerprint, FINGERPRINT_LENGTH)
    ensures Uncrowded(AfterAlert(r, t, k))
  {
    UncrowdedIsVisible(t);
    StepStaysOrdered(t, Alerted(r, k));
    StepOpensSecondIff(t, Alerted(r, k));
    PlansAreMarked(r, t);
    var writes := Planned(r, t).writes;
    WritesAddNoOthers(t, writes[..if k <= |writes| then k else |writes|]);
  }

  /** What is asked of each event on its own, whatever the watchdog did before it. */
  ghost predicate Civil(e: Event) {
    match e
    case Alerted(report, _) => IsHex(report.fingerprint, FINGERPRINT_LENGTH)
    case ByOthers(next) => Uncrowded(next)
  }

  /**
   At most one, unconditionally in the watchdog: from a tracker with at most one open watchdog issue and
   fewer than a hundred other open labelled issues, every sequence of reports, each interrupted anywhere,
   keeps at most one open and always visible, as long as others do not crowd the label.
   */
  lemma {:induction false} AtMostOneOpenUncrowded(t: Tracker, events: seq<Event>, n: nat)
    requires Uncrowded(t) && n <= |events| && forall i :: 0 <= i < n ==> Civil(events[i])
    ensures Uncrowded(States(t, events, n)) && Visible(States(t, events, n))
  {
    if n == 0 {
      UncrowdedIsVisible(t);
    } else {
      AtMostOneOpenUncrowded(t, events, n - 1);
      if events[n - 1].Alerted? {
        AlertKeepsUncrowded(events[n - 1].report, States(t, events, n - 1), events[n - 1].effective);
      }
      UncrowdedIsVisible(States(t, events, n));
    }
  }

  lemma {:induction false} AllOpenLabelled(issues: seq<Issue>)
    requires forall i :: 0 <= i < |issues| ==> issues[i].open && issues[i].labelled
    ensures OpenLabelled(issues) == issues
  {
    if issues != [] {
      AllOpenLabelled(issues[..|issues| - 1]);
      assert issues == issues[..|issues| - 1] + [issues[|issues| - 1]];
    }
  }

  lemma {:induction false} NoneOwn(issues: seq<Issue>)
    requires forall i :: 0 <= i < |issues| ==> !issues[i].byBot
    ensures OwnAmong(issues) == []
  {
    if issues != [] { NoneOwn(issues[..|issues| - 1]); }
  }

  /** A hundred older labelled issues of others, then one of the watchdog's own. */
  function Crowded(body: string): Tracker {
    Tracker(true, seq(PAGE, i requires 0 <= i < PAGE => Issue(i + 1, true, true, false, false, ""))
                  + [Issue(PAGE + 1, true, true, true, false, body)])
  }

  lemma CrowdedHides(body: string)
    requires Contains(body, MARKER)
    ensures Ordered(Crowded(body)) && |OpenOwn(Crowded(body))| == 1 && Seen(Crowded(body)) == []
  {
    var t := Crowded(body);
    var others := t.issues[..PAGE];
    var own := t.issues[PAGE];
    AllOpenLabelled(t.issues);
    NoneOwn(others);
    assert t.issues == others + [own];
    OwnSnoc(others, own);
  }

  /**
   The visibility condition is needed: behind a hundred older labelled issues of others, the
   watchdog's one open issue is hidden, and the next bad report opens a second.
   */
  lemma HiddenBehindAHundred(r: Report)
    requires Bad(r) && IsHex(r.fingerprint, FINGERPRINT_LENGTH)
    ensures var t := Crowded(IssueBody(r));
            Ordered(t) && |OpenOwn(t)| == 1 && !Visible(t) && |OpenOwn(AfterAlert(r, t, 2))| == 2
  {
    BodyRecordsItsFingerprint(r);
    CrowdedHides(IssueBody(r));
    SecondIssueIffHidden(r, Crowded(IssueBody(r)), 2);
  }
}
