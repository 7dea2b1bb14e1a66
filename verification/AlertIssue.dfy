/**
 The watchdog's single alert issue: one report is turned into a few writes on an
 external issue tracker, any of which may be lost before or after it takes effect.
 */
module AlertIssue {
  import opened Support

  const MARKER := "<!-- hamcp-223-publication-watchdog -->"
  const OPENING := "<!-- fingerprint:"
  const CLOSING := " -->"
  const FINGERPRINT_LENGTH: nat := 64
  const PAGE: nat := 100

  datatype Outcome = Ok | Pending | Unknown | Mismatch

  /** A report: its outcome, whether it is for main, its fingerprint, and the text after the header lines. */
  datatype Report = Report(outcome: Outcome, onMain: bool, fingerprint: string, details: string)

  function Header(fingerprint: string): string {
    OPENING + fingerprint + CLOSING
  }

  function IssueBody(r: Report): string {
    MARKER + "\n" + Header(r.fingerprint) + "\n" + r.details
  }

  predicate OccursAt(text: string, part: string, i: nat) {
    i + |part| <= |text| && text[i..i + |part|] == part
  }

  predicate Contains(text: string, part: string) {
    ContainsFrom(text, part, 0)
  }

  predicate ContainsFrom(text: string, part: string, i: nat)
    requires i <= |text|
    decreases |text| - i
  {
    OccursAt(text, part, i) || (i < |text| && ContainsFrom(text, part, i + 1))
  }

  /** The fingerprint comment matches at position `i`. */
  predicate FingerprintAt(text: string, i: nat) {
    && OccursAt(text, OPENING, i)
    && i + |OPENING| + FINGERPRINT_LENGTH <= |text|
    && IsHex(text[i + |OPENING|..i + |OPENING| + FINGERPRINT_LENGTH], FINGERPRINT_LENGTH)
    && OccursAt(text, CLOSING, i + |OPENING| + FINGERPRINT_LENGTH)
  }

  /** The leftmost match at or after `i`, as a regular-expression search finds it. */
  function SearchFrom(text: string, i: nat): Option<string>
    requires i <= |text|
    decreases |text| - i
  {
    if FingerprintAt(text, i) then Some(text[i + |OPENING|..i + |OPENING| + FINGERPRINT_LENGTH])
    else if i == |text| then None
    else SearchFrom(text, i + 1)
  }

  function RecordedFingerprint(text: string): Option<string> {
    SearchFrom(text, 0)
  }

  lemma {:induction false} SearchSkips(text: string, i: nat, j: nat)
    requires i <= j <= |text|
    requires forall k :: i <= k < j ==> !FingerprintAt(text, k)
    ensures SearchFrom(text, i) == SearchFrom(text, j)
    decreases j - i
  {
    if i < j { SearchSkips(text, i + 1, j); }
  }

  /** A body always yields its own report's fingerprint, whatever follows the header. */
  lemma BodyRecordsItsFingerprint(r: Report)
    requires IsHex(r.fingerprint, FINGERPRINT_LENGTH)
    ensures RecordedFingerprint(IssueBody(r)) == Some(r.fingerprint)
    ensures Contains(IssueBody(r), MARKER)
  {
    var body := IssueBody(r);
    var at := |MARKER| + 1;
    assert body == MARKER + "\n" + (OPENING + (r.fingerprint + (CLOSING + "\n" + r.details)));
    assert OccursAt(body, MARKER, 0);
    assert OccursAt(body, OPENING, at);
    assert body[at + |OPENING|..at + |OPENING| + FINGERPRINT_LENGTH] == r.fingerprint;
    assert OccursAt(body, CLOSING, at + |OPENING| + FINGERPRINT_LENGTH);
    assert FingerprintAt(body, at);
    forall k | 0 <= k < at
      ensures !FingerprintAt(body, k)
    {
      MarkerHoldsNoFingerprint(body, k);
    }
    SearchSkips(body, 0, at);
  }

  lemma MarkerHoldsNoFingerprint(body: string, k: nat)
    requires |MARKER| + 1 <= |body| && body[..|MARKER| + 1] == MARKER + "\n" && k <= |MARKER|
    ensures !FingerprintAt(body, k)
  {
    var line := MARKER + "\n";
    assert body[k] == line[k];
    if k == 0 {
      assert body[5] == line[5];
      Differs(body, OPENING, 0, 5);
    } else {
      Differs(body, OPENING, k, 0);
    }
  }

  lemma Differs(text: string, part: string, i: nat, d: nat)
    requires d < |part| && i + d < |text| && text[i + d] != part[d]
    ensures !OccursAt(text, part, i)
  {
    if i + |part| <= |text| {
      assert text[i..i + |part|][d] == text[i + d];
    }
  }

  // ----- The tracker -----

  datatype Issue = Issue(number: nat, open: bool, labelled: bool, byBot: bool, pullRequest: bool, body: string)

  /** Issues in ascending order of number, which is also the order of creation. */
  datatype Tracker = Tracker(labelExists: bool, issues: seq<Issue>)

  ghost predicate Ordered(t: Tracker) {
    forall i, j :: 0 <= i < j < |t.issues| ==> t.issues[i].number < t.issues[j].number
  }

  /** Open issues carrying the label, oldest first. */
  function OpenLabelled(issues: seq<Issue>): seq<Issue> {
    if issues == [] then []
    else
      var last := issues[|issues| - 1];
      var earlier := OpenLabelled(issues[..|issues| - 1]);
      if last.open && last.labelled then earlier + [last] else earlier
  }

  /** The watchdog's own issues: written by the bot, carrying the marker, not pull requests. */
  predicate IsOwn(i: Issue) {
    !i.pullRequest && i.byBot && Contains(i.body, MARKER)
  }

  function OwnAmong(issues: seq<Issue>): seq<Issue> {
    if issues == [] then []
    else
      var last := issues[|issues| - 1];
      var earlier := OwnAmong(issues[..|issues| - 1]);
      if IsOwn(last) then earlier + [last] else earlier
  }

  /** What one listing request returns: the oldest hundred open labelled issues. */
  function FirstPage(t: Tracker): seq<Issue> {
    var all := OpenLabelled(t.issues);
    all[..if |all| <= PAGE then |all| else PAGE]
  }

  /** The open watchdog issues the program sees. */
  function Seen(t: Tracker): seq<Issue> {
    OwnAmong(FirstPage(t))
  }

  /** The open watchdog issues there are. */
  function OpenOwn(t: Tracker): seq<Issue> {
    OwnAmong(OpenLabelled(t.issues))
  }

  datatype Write =
    | CreateLabel
    | Comment(number: nat)
    | Close(number: nat)
    | Open(body: string)
    | Edit(number: nat, body: string)

  function NextNumber(issues: seq<Issue>): nat {
    if issues == [] then 1 else issues[|issues| - 1].number + 1
  }

  function Touched(i: Issue, w: Write): Issue {
    match w
    case Close(number) => if i.number == number then i.(open := false) else i
    case Edit(number, body) => if i.number == number then i.(body := body) else i
    case _ => i
  }

  function Applied(t: Tracker, w: Write): Tracker {
    match w
    case CreateLabel => t.(labelExists := true)
    case Open(body) => t.(issues := t.issues + [Issue(NextNumber(t.issues), true, true, true, false, body)])
    case _ => t.(issues := seq(|t.issues|, i requires 0 <= i < |t.issues| => Touched(t.issues[i], w)))
  }

  function AllApplied(t: Tracker, writes: seq<Write>): Tracker {
    if writes == [] then t else Applied(AllApplied(t, writes[..|writes| - 1]), writes[|writes| - 1])
  }

  datatype Action = NoChange | Closed | Opened | Unchanged | Updated

  /** Everything an uninterrupted alert writes, its exit code and its action. */
  datatype Plan = Plan(writes: seq<Write>, code: int, action: Action)

  function ClosingWrites(issues: seq<Issue>): seq<Write> {
    if issues == [] then []
    else
      var last := issues[|issues| - 1];
      ClosingWrites(issues[..|issues| - 1]) + [Comment(last.number), Close(last.number)]
  }

  function OpeningWrites(labelExists: bool, body: string): seq<Write> {
    if labelExists then [Open(body)] else [CreateLabel, Open(body)]
  }

  function Planned(r: Report, t: Tracker): Plan {
    var seen := Seen(t);
    if r.outcome == Pending || (r.outcome == Ok && !r.onMain) then Plan([], 0, NoChange)
    else if r.outcome == Ok then Plan(ClosingWrites(seen), 0, if seen != [] then Closed else NoChange)
    else if seen == [] then Plan(OpeningWrites(t.labelExists, IssueBody(r)), 1, Opened)
    else if RecordedFingerprint(seen[0].body) == Some(r.fingerprint) then Plan([], 1, Unchanged)
    else Plan([Edit(seen[0].number, IssueBody(r)), Comment(seen[0].number)], 1, Updated)
  }

  // ----- What is read and planned, in terms of the tracker -----

  ghost predicate IsOpenLabelled(i: Issue) {
    i.open && i.labelled
  }

  /** The bot's own issue, with the marker somewhere in its body; not a pull request. */
  ghost predicate IsOurs(i: Issue) {
    && i.byBot && !i.pullRequest
    && exists k :: 0 <= k <= |i.body| && OccursAt(i.body, "<!-- hamcp-223-publication-watchdog -->", k)
  }

  ghost predicate SameIssue(i: Issue, j: Issue) {
    i == j
  }

  lemma {:induction false} ContainsFromIff(text: string, part: string, i: nat)
    requires i <= |text|
    ensures ContainsFrom(text, part, i) <==> exists k :: i <= k <= |text| && OccursAt(text, part, k)
    decreases |text| - i
  {
    if !OccursAt(text, part, i) && i < |text| {
      ContainsFromIff(text, part, i + 1);
    }
  }

  lemma OursIff(i: Issue)
    ensures IsOwn(i) <==> IsOurs(i)
  {
    ContainsFromIff(i.body, MARKER, 0);
  }

  lemma {:induction false} OpenLabelledListed(issues: seq<Issue>)
    ensures ListsExactly(issues, IsOpenLabelled, OpenLabelled(issues), SameIssue)
  {
    if issues != [] {
      var shorter := issues[..|issues| - 1];
      var last := issues[|issues| - 1];
      OpenLabelledListed(shorter);
      assert issues == shorter + [last];
      ListsOneMore(shorter, IsOpenLabelled, OpenLabelled(shorter), SameIssue, last, if last.open && last.labelled then [last] else []);
    }
  }

  lemma {:induction false} OwnListed(issues: seq<Issue>)
    ensures ListsExactly(issues, IsOurs, OwnAmong(issues), SameIssue)
  {
    if issues != [] {
      var shorter := issues[..|issues| - 1];
      var last := issues[|issues| - 1];
      OwnListed(shorter);
      OursIff(last);
      assert issues == shorter + [last];
      ListsOneMore(shorter, IsOurs, OwnAmong(shorter), SameIssue, last, if IsOwn(last) then [last] else []);
    }
  }

  /** The issues seen are the watchdog's own among the oldest hundred that are open and labelled; all there are, without the bound. */
  lemma SeenIs(t: Tracker)
    ensures exists open: seq<Issue> ::
              && ListsExactly(t.issues, IsOpenLabelled, open, SameIssue)
              && ListsExactly(open[..if |open| <= 100 then |open| else 100], IsOurs, Seen(t), SameIssue)
              && ListsExactly(open, IsOurs, OpenOwn(t), SameIssue)
  {
    OpenLabelledListed(t.issues);
    OwnListed(FirstPage(t));
    OwnListed(OpenLabelled(t.issues));
  }

  /** What a report for an issue says first: the marker, then its fingerprint. */
  lemma BodyIs(r: Report)
    ensures IssueBody(r) == "<!-- hamcp-223-publication-watchdog -->\n" + "<!-- fingerprint:" + r.fingerprint + " -->" + "\n" + r.details
  {}

  /** From `i` on, the first fingerprint comment is at `k`. */
  ghost predicate FirstCommentAt(text: string, i: nat, k: int, found: string) {
    && i <= k <= |text| && IsComment(text, k, found)
    && forall j :: i <= j < k ==> !FingerprintAt(text, j)
  }

  /** A recorded fingerprint is the text of the first fingerprint comment. */
  lemma {:induction false} SearchFinds(text: string, i: nat) returns (k: nat)
    requires i <= |text|
    ensures SearchFrom(text, i).None? ==> forall j :: i <= j <= |text| ==> !FingerprintAt(text, j)
    ensures SearchFrom(text, i).Some? ==> FirstCommentAt(text, i, k, SearchFrom(text, i).value)
    decreases |text| - i
  {
    k := i;
    if FingerprintAt(text, i) {
      CommentIff(text, i);
    } else if i < |text| {
      k := SearchFinds(text, i + 1);
    }
  }

  /** At `k` the text goes on with the fingerprint comment of `digits`. */
  ghost predicate IsComment(text: string, k: nat, digits: string) {
    && |digits| == 64 && (forall d :: d in digits ==> '0' <= d <= '9' || 'a' <= d <= 'f')
    && k <= |text| && "<!-- fingerprint:" + digits + " -->" <= text[k..]
  }

  lemma CommentIff(text: string, k: nat)
    ensures FingerprintAt(text, k) ==> IsComment(text, k, text[k + |OPENING|..k + |OPENING| + FINGERPRINT_LENGTH])
  {
    if FingerprintAt(text, k) {
      var digits := text[k + |OPENING|..k + |OPENING| + FINGERPRINT_LENGTH];
      var comment := "<!-- fingerprint:" + digits + " -->";
      assert text[k..][..|comment|] == comment;
    }
  }

  lemma CommentIsFound(text: string, k: nat, digits: string)
    requires IsComment(text, k, digits)
    ensures FingerprintAt(text, k)
  {
    var comment := "<!-- fingerprint:" + digits + " -->";
    assert text[k..][..|comment|] == comment;
    assert forall d :: 0 <= d < 64 ==> digits[d] in digits;
    assert text[k..k + |OPENING|] == comment[..|OPENING|] == OPENING;
    assert text[k + |OPENING|..k + |OPENING| + 64] == comment[|OPENING|..|OPENING| + 64] == digits;
    assert text[k + |OPENING| + 64..k + |OPENING| + 64 + |CLOSING|] == comment[|OPENING| + 64..] == CLOSING;
  }

  ghost predicate IsBad(r: Report) {
    r.outcome == Unknown || r.outcome == Mismatch
  }

  /** Exit code and action of a report, and the writes it plans. */
  lemma PlanIs(r: Report, t: Tracker)
    ensures var plan, seen := Planned(r, t), Seen(t);
            var same := seen != [] && RecordedFingerprint(seen[0].body) == Some(r.fingerprint);
            && plan.code == (if IsBad(r) then 1 else 0)
            && (plan.action == Opened <==> IsBad(r) && seen == [])
            && (plan.action == Unchanged <==> IsBad(r) && same)
            && (plan.action == Updated <==> IsBad(r) && seen != [] && !same)
            && (plan.action == Closed <==> r.outcome == Ok && r.onMain && seen != [])
            && (plan.action == Opened ==>
                  plan.writes == (if t.labelExists then [] else [CreateLabel]) + [Open(IssueBody(r))])
            && (plan.action == Updated ==>
                  plan.writes == [Edit(seen[0].number, IssueBody(r))] + [Comment(seen[0].number)])
            && (plan.action == Unchanged || plan.action == NoChange ==> plan.writes == [])
            && (plan.action == Closed ==>
                  && |plan.writes| == 2 * |seen|
                  && forall i :: 0 <= i < |seen| ==>
                       plan.writes[2 * i] == Comment(seen[i].number) && plan.writes[2 * i + 1] == Close(seen[i].number))
  {
    ClosingWritesAre(Seen(t));
  }

  lemma {:induction false} ClosingWritesAre(issues: seq<Issue>)
    ensures |ClosingWrites(issues)| == 2 * |issues|
    ensures forall i :: 0 <= i < |issues| ==>
              ClosingWrites(issues)[2 * i] == Comment(issues[i].number) && ClosingWrites(issues)[2 * i + 1] == Close(issues[i].number)
  {
    if issues != [] {
      ClosingWritesAre(issues[..|issues| - 1]);
    }
  }

  /** What the tracker does with each write. */
  lemma AppliedIs(t: Tracker, w: Write)
    ensures var after := Applied(t, w);
            && (after.labelExists <==> t.labelExists || w == CreateLabel)
            && (w.Open? ==>
                  && |after.issues| == |t.issues| + 1 && after.issues[..|t.issues|] == t.issues
                  && var created := after.issues[|t.issues|];
                     && created.number == (if t.issues == [] then 1 else t.issues[|t.issues| - 1].number + 1)
                     && IsOpenLabelled(created) && created.byBot && !created.pullRequest && created.body == w.body)
            && (!w.Open? ==>
                  && |after.issues| == |t.issues|
                  && forall i :: 0 <= i < |t.issues| ==>
                       after.issues[i] ==
                         if w.Close? && w.number == t.issues[i].number then t.issues[i].(open := false)
                         else if w.Edit? && w.number == t.issues[i].number then t.issues[i].(body := w.body)
                         else t.issues[i])
  {}

  /** A write takes effect and is confirmed, or it is lost before or after it took effect. */
  datatype Fate = Confirmed | LostBefore | LostAfter

  class IssueAPI {
    var tracker: Tracker
    /** The tracker at construction and the writes that took effect since. */
    ghost const origin: Tracker
    ghost var done: seq<Write>
    const fate: nat -> Fate
    var attempts: nat

    ghost predicate Valid()
      reads this
    {
      tracker == AllApplied(origin, done)
    }

    constructor (tracker: Tracker, fate: nat -> Fate)
      ensures Valid() && this.tracker == origin == tracker && done == [] && this.fate == fate && attempts == 0
    {
      this.tracker := tracker;
      this.origin := tracker;
      this.fate := fate;
      done := [];
      attempts := 0;
    }

    /** Every write attempted since the `first` was confirmed. */
    ghost predicate ConfirmedSince(first: nat)
      reads this
    {
      first <= attempts && forall k :: first <= k < attempts ==> fate(k) == Confirmed
    }

    /** Writes are never retried: an unconfirmed write ends the run. */
    method Write(w: Write) returns (confirmed: bool)
      requires Valid()
      modifies this
      ensures Valid()
      ensures done == if fate(old(attempts)) == LostBefore then old(done) else old(done) + [w]
      ensures confirmed <==> fate(old(attempts)) == Confirmed
      ensures attempts == old(attempts) + 1
    {
      var f := fate(attempts);
      attempts := attempts + 1;
      if f != LostBefore {
        tracker := Applied(tracker, w);
        done := done + [w];
        assert done[..|done| - 1] == old(done);
      }
      return f == Confirmed;
    }
  }

  /** What an alert run amounts to: its exit code and action, or an interruption. */
  datatype Ended = Finished(code: int, action: Action) | Interrupted

  /** The loop of an `ok` report: comment on each issue, then close it. */
  method CloseAll(issues: seq<Issue>, api: IssueAPI) returns (confirmed: bool)
    requires api.Valid() && api.done == []
    modifies api
    ensures api.Valid() && api.done <= ClosingWrites(issues)
    ensures confirmed ==> api.done == ClosingWrites(issues)
    ensures confirmed <==> api.ConfirmedSince(old(api.attempts))
  {
    var i := 0;
    while i < |issues|
      invariant 0 <= i <= |issues|
      invariant api.Valid() && api.done == ClosingWrites(issues[..i])
      invariant api.ConfirmedSince(old(api.attempts))
    {
      ClosingStep(issues, i);
      confirmed := api.Write(Comment(issues[i].number));
      if !confirmed {
        return false;
      }
      confirmed := api.Write(Close(issues[i].number));
      if !confirmed {
        return false;
      }
      i := i + 1;
    }
    assert issues[..i] == issues;
    return true;
  }

  lemma ClosingStep(issues: seq<Issue>, i: nat)
    requires i < |issues|
    ensures ClosingWrites(issues[..i]) <= ClosingWrites(issues)
    ensures ClosingWrites(issues[..i]) + [Comment(issues[i].number)] <= ClosingWrites(issues)
    ensures ClosingWrites(issues[..i]) + [Comment(issues[i].number)] + [Close(issues[i].number)]
            == ClosingWrites(issues[..i + 1])
    ensures ClosingWrites(issues[..i + 1]) <= ClosingWrites(issues)
  {
    var before := ClosingWrites(issues[..i]);
    var first := [Comment(issues[i].number)];
    var second := [Close(issues[i].number)];
    ClosingSnoc(issues, i);
    ClosingPrefix(issues, i + 1);
    PartOfPrefix(before, first + second, ClosingWrites(issues));
    assert before + (first + second) == before + first + second;
    PartOfPrefix(before + first, second, ClosingWrites(issues));
  }

  lemma PartOfPrefix<T>(a: seq<T>, b: seq<T>, whole: seq<T>)
    requires a + b <= whole
    ensures a <= whole
  {
    assert (a + b)[..|a|] == a;
  }

  lemma ClosingSnoc(issues: seq<Issue>, i: nat)
    requires i < |issues|
    ensures ClosingWrites(issues[..i + 1])
            == ClosingWrites(issues[..i]) + ([Comment(issues[i].number)] + [Close(issues[i].number)])
  {
    assert issues[..i + 1][..i] == issues[..i];
  }

  lemma {:induction false} ClosingPrefix(issues: seq<Issue>, n: nat)
    requires n <= |issues|
    ensures ClosingWrites(issues[..n]) <= ClosingWrites(issues)
    decreases |issues|
  {
    if n < |issues| {
      var shorter := issues[..|issues| - 1];
      assert shorter[..n] == issues[..n];
      ClosingPrefix(shorter, n);
    } else {
      assert issues[..n] == issues;
    }
  }

  /** Nothing of ours is open: make sure the label exists, then open the issue. */
  method OpenIssue(body: string, api: IssueAPI) returns (confirmed: bool)
    requires api.Valid() && api.done == []
    modifies api
    ensures api.Valid() && api.done <= OpeningWrites(old(api.tracker.labelExists), body)
    ensures confirmed ==> api.done == OpeningWrites(old(api.tracker.labelExists), body)
    ensures confirmed <==> api.ConfirmedSince(old(api.attempts))
  {
    ghost var plan := OpeningWrites(api.tracker.labelExists, body);
    if !api.tracker.labelExists {
      assert plan == [CreateLabel] + [Open(body)];
      confirmed := api.Write(CreateLabel);
      assert api.done <= [CreateLabel] <= plan;
      if !confirmed {
        return false;
      }
    }
    confirmed := api.Write(Open(body));
    assert api.done == plan || api.done + [Open(body)] == plan;
  }

  method EditIssue(number: nat, body: string, api: IssueAPI) returns (confirmed: bool)
    requires api.Valid() && api.done == []
    modifies api
    ensures api.Valid() && api.done <= [Edit(number, body), Comment(number)]
    ensures confirmed ==> api.done == [Edit(number, body), Comment(number)]
    ensures confirmed <==> api.ConfirmedSince(old(api.attempts))
  {
    confirmed := api.Write(Edit(number, body));
    if !confirmed {
      return false;
    }
    confirmed := api.Write(Comment(number));
  }

  /** Apply one report. A run is interrupted exactly by an unconfirmed write, and has then performed some first part of its plan. */
  method Alert(r: Report, api: IssueAPI) returns (end: Ended)
    requires api.Valid() && api.done == [] && api.tracker == api.origin
    modifies api
    ensures api.Valid() && api.done <= Planned(r, api.origin).writes
    ensures end.Finished? ==> api.done == Planned(r, api.origin).writes
    ensures end.Finished? <==> api.ConfirmedSince(old(api.attempts))
    ensures end.Finished? ==> end == Finished(Planned(r, api.origin).code, Planned(r, api.origin).action)
  {
    if r.outcome == Pending || (r.outcome == Ok && !r.onMain) {
      return Finished(0, NoChange);
    }
    var issues := Seen(api.tracker);
    var confirmed;
    if r.outcome == Ok {
      confirmed := CloseAll(issues, api);
      return if confirmed then Finished(0, if issues != [] then Closed else NoChange) else Interrupted;
    }
    if issues == [] {
      confirmed := OpenIssue(IssueBody(r), api);
      return if confirmed then Finished(1, Opened) else Interrupted;
    }
    if RecordedFingerprint(issues[0].body) == Some(r.fingerprint) {
      return Finished(1, Unchanged);
    }
    confirmed := EditIssue(issues[0].number, IssueBody(r), api);
    return if confirmed then Finished(1, Updated) else Interrupted;
  }
}
