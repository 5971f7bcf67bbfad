/**
 The periodic report: one pass over the audit files, newest file first, that
 skips files wholly after the window and stops at the first that reaches back
 before it. It must equal the plain fold over every line of every file.
 */
module Reporting {
  import opened Sequences
  import opened Options
  import opened TextSearch
  import opened Lex
  import opened AuditTypes
  import opened LogFiles
  import opened Calendar
  import opened Buckets

  const MAX_SCAN_LINES := 2_000_000

  datatype Event = Event(kind: string, actor: string, createdAt: string, target: string)

  /** How a line is read; a blank line is never an event. */
  type Parser = string -> Option<Event>

  datatype Totals = Totals(
    events: nat, failures: nat, adminActions: nat, signIns: nat, signInFailures: nat,
    sessionsOpened: nat, sessionsClosed: nat, sessionsBlocked: nat,
    accessRequests: nat, accessApproved: nat, accessDenied: nat, commandBlocks: nat, incidents: nat)

  const NO_TOTALS := Totals(0, 0, 0, 0, 0, 0, 0, 0, 0, 0, 0, 0, 0)

  datatype Bucket = Bucket(name: string, events: nat, sessions: nat, failures: nat)

  predicate IsSignIn(kind: string) {
    kind == "auth.login.success" || kind == "auth.login.ldap.success" || kind == "auth.login.sso.success"
  }

  predicate IsSignInFailure(kind: string) {
    || kind == "auth.login.failure" || kind == "auth.login.2fa_failure" || kind == "auth.login.ldap.failure"
    || kind == "auth.login.sso.failure" || kind == "auth.login.rate_limited"
  }

  predicate IsSessionClose(kind: string) {
    kind == "session.close" || kind == "session.terminate" || kind == "session.expire"
  }

  predicate IsSessionBlocked(kind: string) {
    kind == "session.create.blocked.containment" || kind == "session.create.unjustified" || "access.denied." <= kind
  }

  function One(b: bool): nat { if b then 1 else 0 }

  function CountEvent(t: Totals, kind: string): Totals {
    Totals(
      t.events + 1, t.failures + One(IsFailure(kind)), t.adminActions + One(IsAdmin(kind)),
      t.signIns + One(IsSignIn(kind)), t.signInFailures + One(IsSignInFailure(kind)),
      t.sessionsOpened + One(kind == "session.create"), t.sessionsClosed + One(IsSessionClose(kind)),
      t.sessionsBlocked + One(IsSessionBlocked(kind)), t.accessRequests + One(kind == "access_request.create"),
      t.accessApproved + One(kind == "access_request.approve"), t.accessDenied + One(kind == "access_request.deny"),
      t.commandBlocks + One(kind == "command_guard.block"), t.incidents + One(kind == "security.incident.opened"))
  }

  type Tally = map<string, nat>

  function Tick(t: Tally, key: string): Tally {
    if key == "" then t else t[key := (if key in t then t[key] else 0) + 1]
  }

  /** What the scan has gathered so far. */
  datatype Acc = Acc(
    totals: Totals, previousTotals: Totals, buckets: seq<Bucket>,
    actors: Tally, targets: Tally, types: Tally, families: Tally,
    previousActors: set<string>, previousTargets: set<string>, firstAt: string, lastAt: string)

  /** The scan's fixed bounds: the window, and where the previous one starts. */
  datatype Scan = Scan(period: string, from: string, start: string, to: string)

  function BucketKey(period: string, createdAt: string): string {
    if |createdAt| < 13 then ""
    else if period == "day" then createdAt[11..13] + ":00"
    else if period == "year" then createdAt[..7]
    else createdAt[..10]
  }

  function SlotOf(buckets: seq<Bucket>, key: string): (i: nat)
    ensures i <= |buckets| && (i < |buckets| ==> buckets[i].name == key)
    ensures forall k :: 0 <= k < i ==> buckets[k].name != key
  {
    if buckets == [] || buckets[0].name == key then 0
    else
      var i := SlotOf(buckets[1..], key);
      assert forall k :: 1 <= k < i + 1 ==> buckets[k] == buckets[1..][k - 1];
      i + 1
  }

  function FillSlot(buckets: seq<Bucket>, key: string, kind: string): (r: seq<Bucket>)
    ensures |r| == |buckets|
  {
    var i := SlotOf(buckets, key);
    if i == |buckets| then buckets
    else
      var b := buckets[i];
      buckets[i := Bucket(b.name, b.events + 1, b.sessions + One(kind == "session.create"),
                          b.failures + One(IsFailure(kind)))]
  }

  function AddIfAny(s: set<string>, x: string): set<string> {
    if x == "" then s else s + {x}
  }

  /** An event of the window itself. */
  function CountCurrent(scan: Scan, a: Acc, e: Event): Acc {
    a.(totals := CountEvent(a.totals, e.kind),
       firstAt := if a.firstAt == "" || Less(e.createdAt, a.firstAt) then e.createdAt else a.firstAt,
       lastAt := if Less(a.lastAt, e.createdAt) then e.createdAt else a.lastAt,
       actors := Tick(a.actors, e.actor),
       types := Tick(a.types, e.kind),
       families := if e.kind == "" then a.families else TickFamily(a.families, FamilyOf(e.kind)),
       targets := Tick(a.targets, e.target),
       buckets := FillSlot(a.buckets, BucketKey(scan.period, e.createdAt), e.kind))
  }

  /** A family may be the empty text (a type that starts with a dot) and still counts. */
  function TickFamily(t: Tally, key: string): Tally {
    t[key := (if key in t then t[key] else 0) + 1]
  }

  /** An event of the period before: only its totals and who and what it touched. */
  function CountPrevious(a: Acc, e: Event): Acc {
    a.(previousTotals := CountEvent(a.previousTotals, e.kind),
       previousActors := AddIfAny(a.previousActors, e.actor),
       previousTargets := AddIfAny(a.previousTargets, e.target))
  }

  predicate InScan(scan: Scan, e: Event) {
    !Less(e.createdAt, scan.from) && !Less(scan.to, e.createdAt)
  }

  function Visit(parse: Parser, scan: Scan, a: Acc, line: string): Acc {
    match parse(line)
    case None => a
    case Some(e) =>
      if !InScan(scan, e) then a
      else if Less(e.createdAt, scan.start) then CountPrevious(a, e)
      else CountCurrent(scan, a, e)
  }

  // ---- the reference: every line of every file ----

  function Fold(parse: Parser, scan: Scan, a: Acc, lines: seq<string>): Acc {
    if lines == [] then a
    else Visit(parse, scan, Fold(parse, scan, a, lines[..|lines| - 1]), lines[|lines| - 1])
  }

  /** One std::getline: the line and what follows it. */
  function CutLine(data: string): (r: (string, string))
    requires data != ""
    ensures |r.1| < |data|
  {
    var nl := FindChar(data, '\n', 0);
    if nl == -1 then (data, "") else (data[..nl], data[nl + 1..])
  }

  predicate OverBudget(line: string, cap: Option<nat>) {
    cap.Some? && |line| + 1 > cap.value
  }

  function Spend(line: string, cap: Option<nat>): Option<nat>
    requires !OverBudget(line, cap)
  {
    if cap.Some? then Some(cap.value - |line| - 1) else None
  }

  /** The complete lines within a byte budget: a line being appended is left out. */
  function ReportLines(data: string, cap: Option<nat>): seq<string>
    decreases |data|
  {
    if data == "" then []
    else
      var (line, rest) := CutLine(data);
      if OverBudget(line, cap) then []
      else [StripReturn(line)] + ReportLines(rest, Spend(line, cap))
  }

  lemma WrittenLine(line: string, ret: bool, rest: string, cap: Option<nat>)
    requires IsLine(line)
    requires cap.Some? ==> |line| + (if ret then 2 else 1) <= cap.value
    ensures var end := if ret then "\r\n" else "\n";
      ReportLines(line + end + rest, cap) ==
        [line] + ReportLines(rest, if cap.Some? then Some(cap.value - |line| - |end|) else None)
  {
    hide ReportLines;
    var end := if ret then "\r\n" else "\n";
    var data := line + end + rest;
    var nl := |line| + |end| - 1;
    assert data[nl] == '\n';
    FindCharIs(data, '\n', 0, nl);
    assert data[..nl] == line + end[..|end| - 1] && data[nl + 1..] == rest;
    assert line + "" == line && (line + "\r")[..|line|] == line;
    ReportLinesStep(data, cap);
  }

  /** A budget takes the lines written as far as whole lines fit: up to `rest`, whose first line does not. */
  lemma {:induction false} LinesWithinBudget(lines: seq<string>, returns': seq<bool>, rest: string, cap: nat)
    requires |returns'| == |lines| && forall k :: 0 <= k < |lines| ==> IsLine(lines[k])
    requires |Written(lines, returns')| <= cap
    requires rest == "" || OverBudget(CutLine(rest).0, Some(cap - |Written(lines, returns')|))
    ensures ReportLines(Written(lines, returns') + rest, Some(cap)) == lines
    decreases |lines|
  {
    hide ReportLines, IsLine, CutLine, OverBudget;
    if lines == [] {
      assert "" + rest == rest;
      if rest == "" { ReportLinesNothing(Some(cap)); } else { ReportLinesStep(rest, Some(cap)); }
    } else {
      var end := if returns'[0] then "\r\n" else "\n";
      var more := Written(lines[1..], returns'[1..]);
      assert Written(lines, returns') + rest == lines[0] + end + (more + rest);
      assert |Written(lines, returns')| == |lines[0]| + |end| + |more|;
      LinesWithinBudget(lines[1..], returns'[1..], rest, cap - |lines[0]| - |end|);
      WrittenLine(lines[0], returns'[0], more + rest, Some(cap));
    }
  }

  /** Without one every line counts, a last one without its line end too. */
  lemma {:induction false} LinesOfWholeFile(lines: seq<string>, returns': seq<bool>, tail: string)
    requires |returns'| == |lines| && (forall k :: 0 <= k < |lines| ==> IsLine(lines[k])) && '\n' !in tail
    ensures ReportLines(Written(lines, returns') + tail, None) ==
      lines + if tail == "" then [] else [StripReturn(tail)]
    decreases |lines|
  {
    hide ReportLines, IsLine, StripReturn;
    if lines == [] {
      assert "" + tail == tail;
      ReportLinesNothing(None);
      if tail != "" { ReportLinesStep(tail, None); }
    } else {
      var end := if returns'[0] then "\r\n" else "\n";
      var more := Written(lines[1..], returns'[1..]);
      assert Written(lines, returns') + tail == lines[0] + end + (more + tail);
      LinesOfWholeFile(lines[1..], returns'[1..], tail);
      WrittenLine(lines[0], returns'[0], more + tail, None);
    }
  }

  datatype FileView = FileView(head: string, lines: seq<string>)

  function Views(files: seq<string>, cap: Option<nat>): (r: seq<FileView>)
    ensures |r| == |files|
    ensures forall i :: 0 <= i < |r| ==>
      r[i] == FileView(FirstLine(files[i]), ReportLines(files[i], if i == 0 then cap else None))
  {
    seq(|files|, i requires 0 <= i < |files| =>
      FileView(FirstLine(files[i]), ReportLines(files[i], if i == 0 then cap else None)))
  }

  function FoldFiles(parse: Parser, scan: Scan, a: Acc, files: seq<FileView>): Acc
    decreases |files|
  {
    if files == [] then a
    else FoldFiles(parse, scan, Fold(parse, scan, a, files[0].lines), files[1..])
  }

  function LineCount(files: seq<FileView>): nat {
    if files == [] then 0 else |files[0].lines| + LineCount(files[1..])
  }

  // ---- the order of the log ----

  ghost predicate NotBefore(parse: Parser, head: string, lines: seq<string>) {
    parse(head).Some? ==> forall k :: 0 <= k < |lines| && parse(lines[k]).Some? ==>
      AtMost(parse(head).value.createdAt, parse(lines[k]).value.createdAt)
  }

  ghost predicate NotAfter(parse: Parser, head: string, lines: seq<string>) {
    parse(head).Some? ==> forall k :: 0 <= k < |lines| && parse(lines[k]).Some? ==>
      AtMost(parse(lines[k]).value.createdAt, parse(head).value.createdAt)
  }

  /** createdAt never decreases: a file's first line is its oldest, and newer than older files. */
  ghost predicate Chronological(parse: Parser, files: seq<FileView>) {
    && (forall i :: 0 <= i < |files| ==> NotBefore(parse, files[i].head, files[i].lines))
    && (forall i, j :: 0 <= i < j < |files| ==> NotAfter(parse, files[i].head, files[j].lines))
  }

  ghost predicate NoneInScan(parse: Parser, scan: Scan, lines: seq<string>) {
    forall k :: 0 <= k < |lines| && parse(lines[k]).Some? ==> !InScan(scan, parse(lines[k]).value)
  }

  lemma {:induction false} FoldNothing(parse: Parser, scan: Scan, a: Acc, lines: seq<string>)
    requires NoneInScan(parse, scan, lines)
    ensures Fold(parse, scan, a, lines) == a
    decreases |lines|
  {
    hide InScan, CountCurrent, CountPrevious;
    if lines != [] {
      FoldNothing(parse, scan, a, lines[..|lines| - 1]);
      assert parse(lines[|lines| - 1]).Some? ==> !InScan(scan, parse(lines[|lines| - 1]).value);
    }
  }

  lemma AfterWindow(parse: Parser, scan: Scan, f: FileView)
    requires NotBefore(parse, f.head, f.lines)
    requires parse(f.head).Some? && Less(scan.to, parse(f.head).value.createdAt)
    ensures NoneInScan(parse, scan, f.lines)
  {
    hide Less;
    forall k | 0 <= k < |f.lines| && parse(f.lines[k]).Some? ensures !InScan(scan, parse(f.lines[k]).value) {
      LessAtMost(scan.to, parse(f.head).value.createdAt, parse(f.lines[k]).value.createdAt);
    }
  }

  lemma BeforeWindow(parse: Parser, scan: Scan, head: string, lines: seq<string>)
    requires NotAfter(parse, head, lines)
    requires parse(head).Some? && Less(parse(head).value.createdAt, scan.from)
    ensures NoneInScan(parse, scan, lines)
  {
    hide Less;
    forall k | 0 <= k < |lines| && parse(lines[k]).Some? ensures !InScan(scan, parse(lines[k]).value) {
      LessAtMost(parse(lines[k]).value.createdAt, parse(head).value.createdAt, scan.from);
    }
  }

  lemma {:induction false} RestBeforeWindow(parse: Parser, scan: Scan, a: Acc, files: seq<FileView>, i: nat)
    requires Chronological(parse, files) && i < |files|
    requires parse(files[i].head).Some? && Less(parse(files[i].head).value.createdAt, scan.from)
    ensures FoldFiles(parse, scan, a, files[i + 1..]) == a
  {
    hide Less, Fold;
    FoldAllNothing(parse, scan, a, files, i, i + 1);
  }

  lemma {:induction false} FoldAllNothing(parse: Parser, scan: Scan, a: Acc, files: seq<FileView>, i: nat, j: nat)
    requires Chronological(parse, files) && i < j <= |files|
    requires parse(files[i].head).Some? && Less(parse(files[i].head).value.createdAt, scan.from)
    ensures FoldFiles(parse, scan, a, files[j..]) == a
    decreases |files| - j
  {
    hide Less, Fold;
    if j < |files| {
      assert files[j..][1..] == files[j + 1..];
      BeforeWindow(parse, scan, files[i].head, files[j].lines);
      FoldNothing(parse, scan, a, files[j].lines);
      FoldAllNothing(parse, scan, a, files, i, j + 1);
    }
  }

  // ---- the scan ----

  method ScanFile(parse: Parser, scan: Scan, data: string, cap: Option<nat>, acc0: Acc, scanned0: nat)
    returns (acc: Acc, scanned: nat, truncated: bool)
    requires scanned0 <= MAX_SCAN_LINES
    ensures var lines := ReportLines(data, cap);
      var room := MAX_SCAN_LINES - scanned0;
      && scanned <= MAX_SCAN_LINES
      && (truncated <==> |lines| > room)
      && (!truncated ==> acc == Fold(parse, scan, acc0, lines) && scanned == scanned0 + |lines|)
  {
    hide Visit, StripReturn, ReportLines, CutLine, OverBudget, Spend;
    acc, scanned, truncated := acc0, scanned0, false;
    var rest: string, budget: Option<nat> := data, cap;
    ghost var lines := ReportLines(data, cap);
    ghost var done: seq<string> := [];
    ReportLinesNothing(budget);
    while rest != ""
      invariant lines == done + ReportLines(rest, budget) && !truncated
      invariant rest == "" ==> lines == done
      invariant scanned == scanned0 + |done| <= MAX_SCAN_LINES
      invariant acc == Fold(parse, scan, acc0, done)
      decreases |rest|
    {
      ReportLinesStep(rest, budget);
      var (line, rest') := CutLine(rest);
      if OverBudget(line, budget) {
        assert lines == done;
        break;
      }
      if scanned >= MAX_SCAN_LINES {
        truncated := true;
        break;
      }
      rest, budget := rest', Spend(line, budget);
      scanned := scanned + 1;
      acc := Visit(parse, scan, acc, StripReturn(line));
      assert (done + [StripReturn(line)])[..|done|] == done;
      Regroup(done, [StripReturn(line)], ReportLines(rest, budget));
      done := done + [StripReturn(line)];
      ReportLinesNothing(budget);
    }
  }

  lemma ReportLinesNothing(cap: Option<nat>)
    ensures ReportLines("", cap) == []
  {
  }

  lemma ReportLinesStep(data: string, cap: Option<nat>)
    requires data != ""
    ensures var (line, rest) := CutLine(data);
      ReportLines(data, cap) ==
        if OverBudget(line, cap) then [] else [StripReturn(line)] + ReportLines(rest, Spend(line, cap))
  {
    hide StripReturn, CutLine, OverBudget, Spend;
  }

  datatype ReportQuery = ReportQuery(period: string, anchor: string)

  datatype Report = Report(
    window: Window, previous: Window, acc: Acc,
    uniqueActors: nat, uniqueTargets: nat, previousUniqueActors: nat, previousUniqueTargets: nat,
    scannedLines: nat, scannedFiles: nat, truncated: bool)

  /** The anchor a report is for: its own, or today when it has none that reads. */
  function AnchorOf(q: ReportQuery, today: Civil): (c: Civil)
    requires FourDigitDay(today) && today.y >= 1970
    ensures FourDigitDay(c) && c.y >= 1970
  {
    match ParseAnchor(if q.anchor == "" then IsoDate(today) else q.anchor)
    case Some(c) => c
    case None => today
  }

  /** report_previous_window: the window of the day before this one's first day. */
  function PreviousWindow(period: string, c: Civil): Window
    requires FourDigitDay(c) && c.y >= 1970
  {
    WindowHoldsAnchor(period, c);
    PreviousWindowAdjacent(period, c);
    WindowOf(period, PreviousDay(FirstDay(period, c)))
  }

  function ScanOf(period: string, c: Civil): Scan
    requires FourDigitDay(c) && c.y >= 1970
  {
    Scan(period, PreviousWindow(period, c).from, WindowOf(period, c).from, WindowOf(period, c).to)
  }

  function EmptyAcc(labels: seq<string>): Acc {
    Acc(NO_TOTALS, NO_TOTALS, seq(|labels|, i requires 0 <= i < |labels| => Bucket(labels[i], 0, 0, 0)),
        map[], map[], map[], map[], {}, {}, "", "")
  }

  /** The labels bucket_labels may list for a window. */
  ghost predicate LabelsFor(labels: seq<string>, period: string, c: Civil)
    requires FourDigitDay(c) && c.y >= 1970
  {
    WindowHoldsAnchor(period, c);
    && (period == "day" ==> labels == HourLabels())
    && (period == "year" ==> labels == MonthLabels(c.y))
    && (period != "day" && period != "year" ==> DayTexts(FirstDay(period, c), LastDay(period, c)) <= labels)
  }

  /** All files, newest first, skipping and stopping by their first lines. */
  method ScanFiles(parse: Parser, scan: Scan, files: seq<string>, activeSize: Option<nat>, acc0: Acc)
    returns (acc: Acc, scannedLines: nat, scannedFiles: nat, truncated: bool)
    ensures LineCount(Views(files, activeSize)) <= MAX_SCAN_LINES ==> !truncated
    ensures !truncated && Chronological(parse, Views(files, activeSize)) ==>
      acc == FoldFiles(parse, scan, acc0, Views(files, activeSize))
  {
    hide Less, FoldFiles, Fold, LineCount, Chronological, Visit, ReportLines, FirstLine;
    ghost var views := Views(files, activeSize);
    acc, scannedLines, scannedFiles, truncated := acc0, 0, 0, false;
    var i := 0;
    assert views[0..] == views;
    while i < |files|
      invariant 0 <= i <= |files| && scannedLines <= MAX_SCAN_LINES && !truncated
      invariant scannedLines + LineCount(views[i..]) <= LineCount(views)
      invariant Chronological(parse, views) ==>
        FoldFiles(parse, scan, acc0, views) == FoldFiles(parse, scan, acc, views[i..])
    {
      var head := parse(FirstLine(files[i]));
      ViewsStep(parse, scan, acc, views, i);
      if head.Some? && Less(scan.to, head.value.createdAt) {
        i := i + 1;
        continue;  // wholly after the window
      }
      scannedFiles := scannedFiles + 1;
      acc, scannedLines, truncated := ScanFile(parse, scan, files[i], if i == 0 then activeSize else None, acc,
                                               scannedLines);
      if truncated { break; }
      i := i + 1;
      if head.Some? && Less(head.value.createdAt, scan.from) {
        RestSkipped(parse, scan, acc, views, i - 1);
        break;  // every older archive is before the window too
      }
    }
    NothingLeft(parse, scan, acc, views, i);
  }

  method BuildReport(parse: Parser, files: seq<string>, activeSize: Option<nat>, q: ReportQuery, today: Civil)
    returns (report: Report, ghost labels: seq<string>)
    requires FourDigitDay(today) && today.y >= 1970
    ensures var c := AnchorOf(q, today);
      && report.window == WindowOf(q.period, c) && report.previous == PreviousWindow(q.period, c)
      && LabelsFor(labels, q.period, c)
      && (LineCount(Views(files, activeSize)) <= MAX_SCAN_LINES ==> !report.truncated)
      && (!report.truncated && Chronological(parse, Views(files, activeSize)) ==>
            report.acc == FoldFiles(parse, ScanOf(q.period, c), EmptyAcc(labels), Views(files, activeSize)))
    ensures report.uniqueActors == |report.acc.actors| && report.uniqueTargets == |report.acc.targets|
    ensures report.previousUniqueActors == |report.acc.previousActors|
         && report.previousUniqueTargets == |report.acc.previousTargets|
  {
    hide Less, ParseAnchor, WindowOf, PreviousWindow, LabelsFor, FoldFiles, LineCount, Chronological,
         EmptyAcc, HourLabels, MonthLabels, DayTexts, AnchorOf, ScanOf, DaysInMonth, FirstDay, LastDay, Views;
    var c := AnchorOf(q, today);
    var window, previous := WindowOf(q.period, c), PreviousWindow(q.period, c);
    var labelsFound := BucketLabels(q.period, window, c);
    labels := labelsFound;
    LabelsFound(labels, q.period, c);
    ScanBounds(q.period, c);
    var scan := Scan(q.period, previous.from, window.from, window.to);
    var acc, scannedLines, scannedFiles, truncated := ScanFiles(parse, scan, files, activeSize, EmptyAcc(labelsFound));
    report := Report(window, previous, acc, |acc.actors|, |acc.targets|, |acc.previousActors|,
                     |acc.previousTargets|, scannedLines, scannedFiles, truncated);
  }

  lemma ScanBounds(period: string, c: Civil)
    requires FourDigitDay(c) && c.y >= 1970
    ensures ScanOf(period, c) ==
      Scan(period, PreviousWindow(period, c).from, WindowOf(period, c).from, WindowOf(period, c).to)
  {
  }

  lemma LabelsFound(labels: seq<string>, period: string, c: Civil)
    requires FourDigitDay(c) && c.y >= 1970
    requires period == "day" ==> labels == HourLabels()
    requires period == "year" ==> labels == MonthLabels(c.y)
    requires period != "day" && period != "year" ==>
      var first, last := FirstDay(period, c), LastDay(period, c);
      IsDay(first) && IsDay(last) && first.y >= 0 && DayTexts(first, last) <= labels
    ensures LabelsFor(labels, period, c)
  {
    WindowHoldsAnchor(period, c);
  }

  lemma ViewsStep(parse: Parser, scan: Scan, a: Acc, views: seq<FileView>, i: nat)
    requires i < |views|
    ensures LineCount(views[i..]) == |views[i].lines| + LineCount(views[i + 1..])
    ensures FoldFiles(parse, scan, a, views[i..]) ==
      FoldFiles(parse, scan, Fold(parse, scan, a, views[i].lines), views[i + 1..])
    ensures Chronological(parse, views) && parse(views[i].head).Some?
         && Less(scan.to, parse(views[i].head).value.createdAt)
         ==> Fold(parse, scan, a, views[i].lines) == a
  {
    hide Fold, Less;
    assert views[i..][1..] == views[i + 1..];
    var head := parse(views[i].head);
    if Chronological(parse, views) && head.Some? && Less(scan.to, head.value.createdAt) {
      AfterWindow(parse, scan, views[i]);
      FoldNothing(parse, scan, a, views[i].lines);
    }
  }

  lemma RestSkipped(parse: Parser, scan: Scan, a: Acc, views: seq<FileView>, i: nat)
    requires i < |views| && parse(views[i].head).Some? && Less(parse(views[i].head).value.createdAt, scan.from)
    ensures Chronological(parse, views) ==> FoldFiles(parse, scan, a, views[i + 1..]) == a
  {
    hide *;
    if Chronological(parse, views) {
      RestBeforeWindow(parse, scan, a, views, i);
    }
  }

  lemma NothingLeft(parse: Parser, scan: Scan, a: Acc, views: seq<FileView>, i: nat)
    requires i <= |views|
    ensures i == |views| ==> FoldFiles(parse, scan, a, views[i..]) == a
  {
  }
}
