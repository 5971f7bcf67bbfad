/**
 What the figures of a report are: counts over the log that do not depend on
 the order of the scan, and chart slots that add up to the totals.
 */
module ReportMeaning {
  import opened Numerals
  import opened Lex
  import opened AuditTypes
  import opened Calendar
  import opened Buckets
  import opened Reporting

  function AllLines(files: seq<FileView>): seq<string>
    decreases |files|
  {
    if files == [] then [] else files[0].lines + AllLines(files[1..])
  }

  lemma {:induction false} FoldAppend(parse: Parser, scan: Scan, a: Acc, x: seq<string>, y: seq<string>)
    ensures Fold(parse, scan, a, x + y) == Fold(parse, scan, Fold(parse, scan, a, x), y)
    decreases |y|
  {
    hide Visit;
    if y == [] {
      assert x + y == x;
    } else {
      assert (x + y)[..|x + y| - 1] == x + y[..|y| - 1];
      FoldAppend(parse, scan, a, x, y[..|y| - 1]);
    }
  }

  /** File by file or line by line, the fold is one pass over the whole log. */
  lemma {:induction false} FoldFilesIsFold(parse: Parser, scan: Scan, a: Acc, files: seq<FileView>)
    ensures FoldFiles(parse, scan, a, files) == Fold(parse, scan, a, AllLines(files))
    decreases |files|
  {
    hide Fold;
    if files == [] {
      FoldNone(parse, scan, a);
    } else {
      FoldFilesIsFold(parse, scan, Fold(parse, scan, a, files[0].lines), files[1..]);
      FoldAppend(parse, scan, a, files[0].lines, AllLines(files[1..]));
    }
  }

  lemma FoldNone(parse: Parser, scan: Scan, a: Acc)
    ensures Fold(parse, scan, a, []) == a
  {
  }

  // ---- totals are counts ----

  predicate Current(scan: Scan, e: Event) { InScan(scan, e) && !Less(e.createdAt, scan.start) }

  predicate Previous(scan: Scan, e: Event) { InScan(scan, e) && Less(e.createdAt, scan.start) }

  predicate Counted(scan: Scan, e: Event, current: bool) {
    if current then Current(scan, e) else Previous(scan, e)
  }

  /** How many lines are events of the window (or of the period before) whose event passes a test. */
  function Count(parse: Parser, scan: Scan, lines: seq<string>, current: bool, test: Event -> bool): nat {
    if lines == [] then 0
    else
      var e := parse(lines[|lines| - 1]);
      Count(parse, scan, lines[..|lines| - 1], current, test)
      + One(e.Some? && Counted(scan, e.value, current) && test(e.value))
  }

  function TotalsOf(parse: Parser, scan: Scan, lines: seq<string>, current: bool): Totals {
    Totals(
      Count(parse, scan, lines, current, (e: Event) => true),
      Count(parse, scan, lines, current, (e: Event) => IsFailure(e.kind)),
      Count(parse, scan, lines, current, (e: Event) => IsAdmin(e.kind)),
      Count(parse, scan, lines, current, (e: Event) => IsSignIn(e.kind)),
      Count(parse, scan, lines, current, (e: Event) => IsSignInFailure(e.kind)),
      Count(parse, scan, lines, current, (e: Event) => e.kind == "session.create"),
      Count(parse, scan, lines, current, (e: Event) => IsSessionClose(e.kind)),
      Count(parse, scan, lines, current, (e: Event) => IsSessionBlocked(e.kind)),
      Count(parse, scan, lines, current, (e: Event) => e.kind == "access_request.create"),
      Count(parse, scan, lines, current, (e: Event) => e.kind == "access_request.approve"),
      Count(parse, scan, lines, current, (e: Event) => e.kind == "access_request.deny"),
      Count(parse, scan, lines, current, (e: Event) => e.kind == "command_guard.block"),
      Count(parse, scan, lines, current, (e: Event) => e.kind == "security.incident.opened"))
  }

  /** One more line adds its event to every count it passes, or to none. */
  lemma TotalsOfLast(parse: Parser, scan: Scan, lines: seq<string>, current: bool)
    requires lines != []
    ensures var e := parse(lines[|lines| - 1]);
      var before := TotalsOf(parse, scan, lines[..|lines| - 1], current);
      TotalsOf(parse, scan, lines, current) ==
        if e.Some? && Counted(scan, e.value, current) then CountEvent(before, e.value.kind) else before
  {
    hide IsFailure, IsAdmin, IsSignIn, IsSignInFailure, IsSessionClose, IsSessionBlocked, Less, Current, Previous;
  }

  /** Every figure of both totals counts exactly the events its name says. */
  lemma {:induction false} TotalsAreCounts(parse: Parser, scan: Scan, labels: seq<string>, lines: seq<string>)
    ensures Fold(parse, scan, EmptyAcc(labels), lines).totals == TotalsOf(parse, scan, lines, true)
    ensures Fold(parse, scan, EmptyAcc(labels), lines).previousTotals == TotalsOf(parse, scan, lines, false)
    decreases |lines|
  {
    hide Less, FillSlot, EmptyAcc, FamilyOf, CountEvent, TotalsOf, Fold;
    if lines == [] {
      EmptyTotals(parse, scan, labels);
    } else {
      TotalsAreCounts(parse, scan, labels, lines[..|lines| - 1]);
      FoldLast(parse, scan, EmptyAcc(labels), lines);
      TotalsOfLast(parse, scan, lines, true);
      TotalsOfLast(parse, scan, lines, false);
    }
  }

  lemma EmptyTotals(parse: Parser, scan: Scan, labels: seq<string>)
    ensures Fold(parse, scan, EmptyAcc(labels), []).totals == NO_TOTALS == TotalsOf(parse, scan, [], true)
    ensures Fold(parse, scan, EmptyAcc(labels), []).previousTotals == NO_TOTALS == TotalsOf(parse, scan, [], false)
  {
  }

  function Ticks(t: Tally, key: string): nat { if key in t then t[key] else 0 }

  /** An actor's tally is the number of the window's events by that actor. */
  lemma {:induction false} ActorTallies(parse: Parser, scan: Scan, labels: seq<string>, lines: seq<string>, who: string)
    requires who != ""
    ensures Ticks(Fold(parse, scan, EmptyAcc(labels), lines).actors, who) ==
      Count(parse, scan, lines, true, (e: Event) => e.actor == who)
    decreases |lines|
  {
    hide IsFailure, IsAdmin, CountEvent, Less, FillSlot, FamilyOf;
    if lines != [] {
      ActorTallies(parse, scan, labels, lines[..|lines| - 1], who);
    }
  }

  lemma {:induction false} TypeTallies(parse: Parser, scan: Scan, labels: seq<string>, lines: seq<string>, kind: string)
    requires kind != ""
    ensures Ticks(Fold(parse, scan, EmptyAcc(labels), lines).types, kind) ==
      Count(parse, scan, lines, true, (e: Event) => e.kind == kind)
    decreases |lines|
  {
    hide IsFailure, IsAdmin, CountEvent, Less, FillSlot, FamilyOf;
    if lines != [] {
      TypeTallies(parse, scan, labels, lines[..|lines| - 1], kind);
    }
  }

  lemma {:induction false} TargetTallies(parse: Parser, scan: Scan, labels: seq<string>, lines: seq<string>,
                                         target: string)
    requires target != ""
    ensures Ticks(Fold(parse, scan, EmptyAcc(labels), lines).targets, target) ==
      Count(parse, scan, lines, true, (e: Event) => e.target == target)
    decreases |lines|
  {
    hide IsFailure, IsAdmin, CountEvent, Less, FillSlot, FamilyOf;
    if lines != [] {
      TargetTallies(parse, scan, labels, lines[..|lines| - 1], target);
    }
  }

  lemma {:induction false} FamilyTallies(parse: Parser, scan: Scan, labels: seq<string>, lines: seq<string>,
                                         family: string)
    ensures Ticks(Fold(parse, scan, EmptyAcc(labels), lines).families, family) ==
      Count(parse, scan, lines, true, (e: Event) => e.kind != "" && FamilyOf(e.kind) == family)
    decreases |lines|
  {
    hide IsFailure, IsAdmin, CountEvent, Less, FillSlot, FamilyOf;
    if lines != [] {
      FamilyTallies(parse, scan, labels, lines[..|lines| - 1], family);
    }
  }

  /** The names, blank ones left out, of the events of the window or of the period before. */
  function Names(parse: Parser, scan: Scan, lines: seq<string>, current: bool, name: Event -> string): set<string> {
    if lines == [] then {}
    else
      var e := parse(lines[|lines| - 1]);
      Names(parse, scan, lines[..|lines| - 1], current, name)
      + if e.Some? && Counted(scan, e.value, current) && name(e.value) != "" then {name(e.value)} else {}
  }

  /** A name is among them when some such event carries it. */
  lemma {:induction false} NamesExactly(parse: Parser, scan: Scan, lines: seq<string>, current: bool,
                                        name: Event -> string, x: string)
    ensures x in Names(parse, scan, lines, current, name) <==>
      x != "" && Count(parse, scan, lines, current, (e: Event) => name(e) == x) > 0
    decreases |lines|
  {
    hide Counted;
    if lines != [] {
      NamesExactly(parse, scan, lines[..|lines| - 1], current, name, x);
    }
  }

  /** Who and what the window's tallies and the period before hold, whence the four unique counts. */
  lemma {:induction false} NamesGathered(parse: Parser, scan: Scan, labels: seq<string>, lines: seq<string>)
    ensures var a := Fold(parse, scan, EmptyAcc(labels), lines);
      && a.actors.Keys == Names(parse, scan, lines, true, (e: Event) => e.actor)
      && a.targets.Keys == Names(parse, scan, lines, true, (e: Event) => e.target)
      && a.previousActors == Names(parse, scan, lines, false, (e: Event) => e.actor)
      && a.previousTargets == Names(parse, scan, lines, false, (e: Event) => e.target)
    decreases |lines|
  {
    hide IsFailure, IsAdmin, CountEvent, Less, FillSlot, FamilyOf;
    if lines != [] {
      NamesGathered(parse, scan, labels, lines[..|lines| - 1]);
    }
  }

  predicate CurrentAt(parse: Parser, scan: Scan, line: string, at: string) {
    parse(line).Some? && Current(scan, parse(line).value) && parse(line).value.createdAt == at
  }

  /** The times are those of the window's oldest and newest events, blank when it has none. */
  ghost predicate Ends(parse: Parser, scan: Scan, lines: seq<string>, firstAt: string, lastAt: string) {
    && Spanned(parse, scan, lines, firstAt, lastAt)
    && (firstAt == "" <==> lastAt == "")
    && (firstAt != "" ==> Seen(parse, scan, lines, firstAt) && Seen(parse, scan, lines, lastAt))
  }

  predicate Between(firstAt: string, at: string, lastAt: string) {
    firstAt != "" && AtMost(firstAt, at) && AtMost(at, lastAt)
  }

  ghost predicate Spanned(parse: Parser, scan: Scan, lines: seq<string>, firstAt: string, lastAt: string) {
    forall k, at :: 0 <= k < |lines| && CurrentAt(parse, scan, lines[k], at) ==> Between(firstAt, at, lastAt)
  }

  ghost predicate Seen(parse: Parser, scan: Scan, lines: seq<string>, at: string) {
    exists k :: 0 <= k < |lines| && CurrentAt(parse, scan, lines[k], at)
  }

  lemma SeenStill(parse: Parser, scan: Scan, before: seq<string>, line: string, at: string)
    ensures Seen(parse, scan, before, at) ==> Seen(parse, scan, before + [line], at)
    ensures CurrentAt(parse, scan, line, at) ==> Seen(parse, scan, before + [line], at)
  {
    hide CurrentAt;
    var lines := before + [line];
    if Seen(parse, scan, before, at) {
      var k :| 0 <= k < |before| && CurrentAt(parse, scan, before[k], at);
      assert CurrentAt(parse, scan, lines[k], at);
    }
    assert lines[|before|] == line;
  }

  function Sooner(firstAt: string, at: string): string {
    if firstAt == "" || Less(at, firstAt) then at else firstAt
  }

  function Later(lastAt: string, at: string): string {
    if Less(lastAt, at) then at else lastAt
  }

  lemma SpannedNext(parse: Parser, scan: Scan, before: seq<string>, line: string, firstAt: string, lastAt: string)
    requires Spanned(parse, scan, before, firstAt, lastAt)
    requires forall at :: CurrentAt(parse, scan, line, at) ==> Between(firstAt, at, lastAt)
    ensures Spanned(parse, scan, before + [line], firstAt, lastAt)
  {
    hide CurrentAt, Between;
    var lines := before + [line];
    forall k, at | 0 <= k < |lines| && CurrentAt(parse, scan, lines[k], at)
      ensures Between(firstAt, at, lastAt)
    {
      if k < |before| {
        assert lines[k] == before[k];
      } else {
        assert lines[k] == line;
      }
    }
  }

  lemma EndsSame(parse: Parser, scan: Scan, before: seq<string>, line: string, firstAt: string, lastAt: string)
    requires Ends(parse, scan, before, firstAt, lastAt)
    requires forall at :: !CurrentAt(parse, scan, line, at)
    ensures Ends(parse, scan, before + [line], firstAt, lastAt)
  {
    hide CurrentAt, Seen, Between, Spanned;
    SpannedNext(parse, scan, before, line, firstAt, lastAt);
    SeenStill(parse, scan, before, line, firstAt);
    SeenStill(parse, scan, before, line, lastAt);
  }

  lemma EndsGrow(parse: Parser, scan: Scan, before: seq<string>, line: string, at: string, firstAt: string,
                 lastAt: string)
    requires Ends(parse, scan, before, firstAt, lastAt)
    requires at != "" && forall t :: CurrentAt(parse, scan, line, t) <==> t == at
    ensures Ends(parse, scan, before + [line], Sooner(firstAt, at), Later(lastAt, at))
  {
    hide CurrentAt, Less, AtMost, Seen;
    var f, l := Sooner(firstAt, at), Later(lastAt, at);
    BlankIsLeast(at, lastAt);
    BlankIsLeast(lastAt, at);
    BlankIsLeast(at, at);
    assert Spanned(parse, scan, before, f, l) by {
      forall t ensures Between(firstAt, t, lastAt) ==> Between(f, t, l) { Bounds(firstAt, lastAt, at, t); }
    }
    Bounds(firstAt, lastAt, at, at);
    SpannedNext(parse, scan, before, line, f, l);
    SeenStill(parse, scan, before, line, firstAt);
    SeenStill(parse, scan, before, line, lastAt);
    SeenStill(parse, scan, before, line, at);
  }

  lemma Bounds(firstAt: string, lastAt: string, at: string, t: string)
    ensures t == at || (firstAt != "" && AtMost(firstAt, t) && AtMost(t, lastAt)) ==>
      AtMost(Sooner(firstAt, at), t) && AtMost(t, Later(lastAt, at))
  {
    hide Less;
    LessIrreflexive(at);
    LessAtMost(at, firstAt, t);
    LessAtMost(t, lastAt, at);
    AtMostOfLess(at, t);
    AtMostOfLess(t, at);
    AtMostOfLess(at, firstAt);
    AtMostOfLess(lastAt, at);
  }

  lemma EndsStep(parse: Parser, scan: Scan, before: seq<string>, line: string, a: Acc)
    requires scan.from != "" && Ends(parse, scan, before, a.firstAt, a.lastAt)
    ensures var b := Visit(parse, scan, a, line); Ends(parse, scan, before + [line], b.firstAt, b.lastAt)
  {
    hide Less, CountEvent, FillSlot, BucketKey, FamilyOf, Ends;
    if parse(line).Some? && Current(scan, parse(line).value) {
      var at := parse(line).value.createdAt;
      BlankIsLeast(at, scan.from);
      EndsGrow(parse, scan, before, line, at, a.firstAt, a.lastAt);
    } else {
      EndsSame(parse, scan, before, line, a.firstAt, a.lastAt);
    }
  }

  lemma BlankIsLeast(s: string, t: string)
    ensures !Less(s, "")
    ensures Less("", s) <==> s != ""
    ensures t != "" && !Less(s, t) ==> s != ""
  {
  }

  lemma AtMostOfLess(x: string, y: string)
    ensures Less(x, y) ==> AtMost(x, y)
  {
    if Less(x, y) { LessAsymmetric(x, y); }
  }

  lemma NoEnds(parse: Parser, scan: Scan, labels: seq<string>)
    ensures Ends(parse, scan, [], EmptyAcc(labels).firstAt, EmptyAcc(labels).lastAt)
  {
  }

  lemma {:induction false} FirstAndLast(parse: Parser, scan: Scan, labels: seq<string>, lines: seq<string>)
    requires scan.from != ""
    ensures var a := Fold(parse, scan, EmptyAcc(labels), lines); Ends(parse, scan, lines, a.firstAt, a.lastAt)
    decreases |lines|
  {
    hide Visit, Ends, EmptyAcc;
    if lines == [] {
      NoEnds(parse, scan, labels);
    } else {
      var before := lines[..|lines| - 1];
      FirstAndLast(parse, scan, labels, before);
      EndsStep(parse, scan, before, lines[|lines| - 1], Fold(parse, scan, EmptyAcc(labels), before));
      assert lines == before + [lines[|lines| - 1]];
    }
  }

  // ---- chart slots ----

  function SumEvents(b: seq<Bucket>): nat {
    if b == [] then 0 else SumEvents(b[..|b| - 1]) + b[|b| - 1].events
  }

  function SumSessions(b: seq<Bucket>): nat {
    if b == [] then 0 else SumSessions(b[..|b| - 1]) + b[|b| - 1].sessions
  }

  function SumFailures(b: seq<Bucket>): nat {
    if b == [] then 0 else SumFailures(b[..|b| - 1]) + b[|b| - 1].failures
  }

  lemma {:induction false} SumsOfUpdate(b: seq<Bucket>, i: nat, x: Bucket)
    requires i < |b|
    ensures SumEvents(b[i := x]) == SumEvents(b) - b[i].events + x.events
    ensures SumSessions(b[i := x]) == SumSessions(b) - b[i].sessions + x.sessions
    ensures SumFailures(b[i := x]) == SumFailures(b) - b[i].failures + x.failures
    decreases |b|
  {
    var n := |b| - 1;
    if i == n {
      assert b[i := x][..n] == b[..n];
    } else {
      SumsOfUpdate(b[..n], i, x);
      assert b[i := x][..n] == b[..n][i := x];
    }
  }

  predicate Labelled(b: seq<Bucket>, labels: seq<string>) {
    |b| == |labels| && forall k :: 0 <= k < |b| ==> b[k].name == labels[k]
  }

  lemma FillSlotSums(b: seq<Bucket>, labels: seq<string>, key: string, kind: string)
    requires Labelled(b, labels) && key in labels
    ensures Labelled(FillSlot(b, key, kind), labels)
    ensures SumEvents(FillSlot(b, key, kind)) == SumEvents(b) + 1
    ensures SumSessions(FillSlot(b, key, kind)) == SumSessions(b) + One(kind == "session.create")
    ensures SumFailures(FillSlot(b, key, kind)) == SumFailures(b) + One(IsFailure(kind))
  {
    hide IsFailure;
    var i := SlotOf(b, key);
    var k :| 0 <= k < |labels| && labels[k] == key;
    assert b[k].name == key;
    assert i < |b|;
    SumsOfUpdate(b, i, FillSlot(b, key, kind)[i]);
  }

  /** createdAt of every event of the window is a well-formed moment. */
  ghost predicate WellTimed(parse: Parser, scan: Scan, lines: seq<string>) {
    forall k :: 0 <= k < |lines| && parse(lines[k]).Some? && Current(scan, parse(lines[k]).value) ==>
      exists t :: IsMoment(t) && parse(lines[k]).value.createdAt == StampText(t)
  }

  /** A moment of the window falls in one of its chart slots. */
  lemma MomentHasSlot(period: string, c: Civil, labels: seq<string>, t: Moment)
    requires FourDigitDay(c) && c.y >= 1970 && LabelsFor(labels, period, c) && IsMoment(t)
    requires AtMost(WindowOf(period, c).from, StampText(t)) && AtMost(StampText(t), WindowOf(period, c).to)
    ensures BucketKey(period, StampText(t)) in labels
  {
    WindowHoldsAnchor(period, c);
    var first, last := FirstDay(period, c), LastDay(period, c);
    StampInWindow(t, first, last);
    StampPieces(t);
    if period == "day" {
      assert HourLabels()[t.hour] == Pad2(t.hour) + ":00";
    } else if period == "year" {
      assert MonthLabels(c.y)[t.day.m - 1] == ToText(c.y) + "-" + Pad2(t.day.m);
    } else {
      DayListIsWindow(first, last);
      DayTextsOfList(first, last);
      var k :| 0 <= k < |DayList(first, last)| && DayList(first, last)[k] == t.day;
      assert DayTexts(first, last)[k] == IsoDate(t.day);
      assert labels[k] == DayTexts(first, last)[k];
    }
  }

  lemma StampPieces(t: Moment)
    requires IsMoment(t)
    ensures |StampText(t)| == 20
    ensures StampText(t)[11..13] == Pad2(t.hour)
    ensures StampText(t)[..7] == ToText(t.day.y) + "-" + Pad2(t.day.m)
    ensures StampText(t)[..10] == IsoDate(t.day)
  {
    hide ToText, Pad2, IsoDate;
    IsoParts(t.day);
    Pad2Order(t.hour, t.minute);
    ClockBounds(t.hour, t.minute, t.second);
    var clock := ClockText(t.hour, t.minute, t.second);
    assert clock[1..3] == Pad2(t.hour);
    assert StampText(t)[11..13] == clock[1..3];
    assert StampText(t)[..7] == IsoDate(t.day)[..7];
  }

  /** In a report over well-formed times the slots add up to the totals. */
  lemma {:induction false} SlotsAddUp(parse: Parser, period: string, c: Civil, labels: seq<string>, lines: seq<string>)
    requires FourDigitDay(c) && c.y >= 1970 && LabelsFor(labels, period, c)
    requires WellTimed(parse, ScanOf(period, c), lines)
    ensures var a := Fold(parse, ScanOf(period, c), EmptyAcc(labels), lines);
      && Labelled(a.buckets, labels)
      && SumEvents(a.buckets) == a.totals.events
      && SumSessions(a.buckets) == a.totals.sessionsOpened
      && SumFailures(a.buckets) == a.totals.failures
    decreases |lines|
  {
    hide *;
    var scan := ScanOf(period, c);
    if lines == [] {
      FoldNone(parse, scan, EmptyAcc(labels));
      EmptySums(labels);
    } else {
      var before, line := lines[..|lines| - 1], lines[|lines| - 1];
      WellTimedInit(parse, scan, lines);
      SlotsAddUp(parse, period, c, labels, before);
      SlotsStep(parse, period, c, labels, Fold(parse, scan, EmptyAcc(labels), before), lines);
      FoldLast(parse, scan, EmptyAcc(labels), lines);
    }
  }

  lemma FoldLast(parse: Parser, scan: Scan, a: Acc, lines: seq<string>)
    requires lines != []
    ensures Fold(parse, scan, a, lines) ==
      Visit(parse, scan, Fold(parse, scan, a, lines[..|lines| - 1]), lines[|lines| - 1])
  {
  }

  lemma WellTimedInit(parse: Parser, scan: Scan, lines: seq<string>)
    requires lines != [] && WellTimed(parse, scan, lines)
    ensures WellTimed(parse, scan, lines[..|lines| - 1])
  {
    hide Current, StampText, IsMoment;
    assert forall k :: 0 <= k < |lines| - 1 ==> lines[..|lines| - 1][k] == lines[k];
  }

  lemma SlotsStep(parse: Parser, period: string, c: Civil, labels: seq<string>, a: Acc, lines: seq<string>)
    requires FourDigitDay(c) && c.y >= 1970 && LabelsFor(labels, period, c)
    requires lines != [] && WellTimed(parse, ScanOf(period, c), lines)
    requires Labelled(a.buckets, labels) && SumEvents(a.buckets) == a.totals.events
      && SumSessions(a.buckets) == a.totals.sessionsOpened && SumFailures(a.buckets) == a.totals.failures
    ensures var b := Visit(parse, ScanOf(period, c), a, lines[|lines| - 1]);
      && Labelled(b.buckets, labels) && SumEvents(b.buckets) == b.totals.events
      && SumSessions(b.buckets) == b.totals.sessionsOpened && SumFailures(b.buckets) == b.totals.failures
  {
    hide Labelled, FillSlot, SumEvents, SumSessions, SumFailures, IsFailure, IsAdmin, Less, BucketKey, StampText,
         PreviousWindow, WindowOf, LabelsFor, FamilyOf, FourDigitDay, IsMoment;
    var scan := ScanOf(period, c);
    var line := parse(lines[|lines| - 1]);
    if line.Some? && Current(scan, line.value) {
      var e := line.value;
      var t :| IsMoment(t) && e.createdAt == StampText(t);
      MomentHasSlot(period, c, labels, t);
      FillSlotSums(a.buckets, labels, BucketKey(period, e.createdAt), e.kind);
    }
  }

  lemma EmptySums(labels: seq<string>)
    ensures var a := EmptyAcc(labels);
      && Labelled(a.buckets, labels) && SumEvents(a.buckets) == a.totals.events
      && SumSessions(a.buckets) == a.totals.sessionsOpened && SumFailures(a.buckets) == a.totals.failures
  {
    ZeroSums(EmptyAcc(labels).buckets);
  }

  lemma {:induction false} ZeroSums(b: seq<Bucket>)
    requires forall k :: 0 <= k < |b| ==> b[k].events == b[k].sessions == b[k].failures == 0
    ensures SumEvents(b) == SumSessions(b) == SumFailures(b) == 0
    decreases |b|
  {
    if b != [] { ZeroSums(b[..|b| - 1]); }
  }
}
