/**
 The chart of a report, slot by slot, and the events its two windows take: said
 of the moments the events carry.
 */
module ReportChart {
  import opened Numerals
  import opened Lex
  import opened AuditTypes
  import opened Calendar
  import opened Buckets
  import opened Reporting
  import opened ReportMeaning

  // ---- which events a window takes ----

  /** The window takes the events of its period, and the one before those of the period before. */
  lemma WindowsTake(period: string, c: Civil, e: Event, t: Moment)
    requires FourDigitDay(c) && c.y >= 1970 && IsMoment(t) && e.createdAt == StampText(t)
    ensures Current(ScanOf(period, c), e) <==> SamePeriod(period, t.day, c)
    ensures IsDay(PreviousDay(FirstDay(period, c)))
    ensures Previous(ScanOf(period, c), e) <==> SamePeriod(period, t.day, PreviousDay(FirstDay(period, c)))
  {
    hide Less, IsoDate, StampText, DaysInMonth, FirstDay, LastDay, SamePeriod, PreviousDay;
    var first, last := FirstDay(period, c), LastDay(period, c);
    WindowHoldsAnchor(period, c);
    PreviousWindowAdjacent(period, c);
    var before := PreviousDay(first);
    NextPreviousInverse(first);
    BeforeFirst(period, c);
    WindowHoldsAnchor(period, before);
    WindowExactly(period, c, t.day);
    WindowExactly(period, before, t.day);
    ScanBounds(period, c);
    WindowBounds(period, c);
    WindowBounds(period, before);
    StampInWindow(t, first, last);
    StampInWindow(t, FirstDay(period, before), last);
    if Earlier(before, t.day) { NextIsNext(before, t.day); }
    EarlierOrder(before, t.day);
    EarlierOrder(first, t.day);
    EarlierOrder(FirstDay(period, before), t.day);
    EarlierChain(t.day, FirstDay(period, before), before);
    EarlierChain(before, first, last);
    EarlierChain(t.day, before, last);
    EarlierChain(FirstDay(period, before), first, t.day);
    EarlierChain(t.day, first, before);
    EarlierChain(FirstDay(period, before), before, first);
    EarlierChain(last, t.day, before);
  }

  lemma WindowBounds(period: string, c: Civil)
    requires IsDay(c) && c.y >= 0
    ensures IsDay(FirstDay(period, c)) && IsDay(LastDay(period, c))
    ensures FirstDay(period, c).y == LastDay(period, c).y == c.y
    ensures WindowOf(period, c).from == IsoDate(FirstDay(period, c)) + "T00:00:00Z"
    ensures WindowOf(period, c).to == IsoDate(LastDay(period, c)) + "T23:59:59Z"
  {
    WindowHoldsAnchor(period, c);
  }

  lemma BeforeFirst(period: string, c: Civil)
    requires IsDay(c) && IsDay(FirstDay(period, c))
    ensures PreviousDay(FirstDay(period, c)).y >= c.y - 1 && PreviousDay(FirstDay(period, c)).y <= c.y
  {
  }

  lemma EarlierOrder(a: Civil, b: Civil)
    ensures Earlier(a, b) ==> !Earlier(b, a) && a != b
    ensures a == b || Earlier(a, b) || Earlier(b, a)
  {
  }

  lemma EarlierChain(a: Civil, b: Civil, c: Civil)
    ensures Earlier(a, b) && Earlier(b, c) ==> Earlier(a, c)
    ensures Earlier(a, b) && !Earlier(c, b) ==> Earlier(a, c)
    ensures !Earlier(b, a) && Earlier(b, c) ==> Earlier(a, c)
  {
  }

  // ---- the slots ----

  /** The slot of a moment: its hour in a day, its month in a year, otherwise its day in the window. */
  predicate InSlot(period: string, c: Civil, k: nat, t: Moment)
    requires IsDay(c)
  {
    if period == "day" then t.hour == k
    else if period == "year" then t.day.m == k + 1
    else
      WindowHoldsAnchor(period, c);
      var days := DayList(FirstDay(period, c), LastDay(period, c));
      k < |days| && days[k] == t.day
  }

  /** How many slots the window has of its own. */
  function Slots(period: string, c: Civil): nat
    requires IsDay(c)
  {
    if period == "day" then 24
    else if period == "year" then 12
    else WindowHoldsAnchor(period, c); |DayList(FirstDay(period, c), LastDay(period, c))|
  }

  lemma HourSlot(k: nat, t: Moment)
    requires k < 24 && IsMoment(t)
    ensures HourLabels()[k] == BucketKey("day", StampText(t)) <==> t.hour == k
  {
    hide Pad2, StampText;
    StampPieces(t);
    Pad2Order(t.hour, k);
    assert HourLabels()[k] == Pad2(k) + ":00" && BucketKey("day", StampText(t)) == Pad2(t.hour) + ":00";
    assert (Pad2(k) + ":00")[..2] == Pad2(k) && (Pad2(t.hour) + ":00")[..2] == Pad2(t.hour);
  }

  lemma MonthSlot(y: int, k: nat, t: Moment)
    requires k < 12 && IsMoment(t) && t.day.y == y
    ensures MonthLabels(y)[k] == BucketKey("year", StampText(t)) <==> t.day.m == k + 1
  {
    hide Pad2, StampText, ToText;
    StampPieces(t);
    Pad2Order(t.day.m, k + 1);
    var head := ToText(y) + "-";
    assert MonthLabels(y)[k] == head + Pad2(k + 1) && BucketKey("year", StampText(t)) == head + Pad2(t.day.m);
    assert (head + Pad2(k + 1))[|head|..] == Pad2(k + 1) && (head + Pad2(t.day.m))[|head|..] == Pad2(t.day.m);
  }

  lemma DaySlot(period: string, c: Civil, k: nat, t: Moment)
    requires FourDigitDay(c) && IsMoment(t) && period != "day" && period != "year" && k < Slots(period, c)
    ensures IsDay(FirstDay(period, c)) && IsDay(LastDay(period, c)) && FirstDay(period, c).y == c.y
    ensures var texts := DayTexts(FirstDay(period, c), LastDay(period, c));
      k < |texts| && (texts[k] == BucketKey(period, StampText(t)) <==> InSlot(period, c, k, t))
  {
    hide IsoDate, StampText, DayTexts, DayList, FirstDay, LastDay;
    WindowHoldsAnchor(period, c);
    var first, last := FirstDay(period, c), LastDay(period, c);
    DayListIsWindow(first, last);
    DayTextsOfList(first, last);
    StampPieces(t);
    var d := DayList(first, last)[k];
    assert d in DayList(first, last);
    assert FourDigitDay(d);
    DateOrder(d, t.day);
  }

  /** The label of each of the window's own slots is the key of the moments in that slot. */
  lemma SlotLabel(period: string, c: Civil, labels: seq<string>, k: nat, t: Moment)
    requires FourDigitDay(c) && c.y >= 1970 && LabelsFor(labels, period, c) && IsMoment(t) && t.day.y == c.y
    requires k < Slots(period, c)
    ensures k < |labels| && (labels[k] == BucketKey(period, StampText(t)) <==> InSlot(period, c, k, t))
  {
    hide BucketKey, StampText, DayTexts, DayList, FirstDay, LastDay, IsoDate, Pad2, ToText;
    WindowHoldsAnchor(period, c);
    if period == "day" {
      HourSlot(k, t);
    } else if period == "year" {
      MonthSlot(c.y, k, t);
    } else {
      DaySlot(period, c, k, t);
      var texts := DayTexts(FirstDay(period, c), LastDay(period, c));
      assert labels[k] == texts[k];
    }
  }

  /** A moment of the period has one of the window's own slots, and only one. */
  lemma SlotFound(period: string, c: Civil, t: Moment) returns (k: nat)
    requires FourDigitDay(c) && IsMoment(t) && SamePeriod(period, t.day, c)
    ensures k < Slots(period, c) && InSlot(period, c, k, t)
    ensures forall j: nat :: InSlot(period, c, j, t) ==> j == k
  {
    WindowHoldsAnchor(period, c);
    if period == "day" {
      k := t.hour;
    } else if period == "year" {
      k := t.day.m - 1;
    } else {
      var first, last := FirstDay(period, c), LastDay(period, c);
      WindowExactly(period, c, t.day);
      DayListIsWindow(first, last);
      hide DayList, FirstDay, LastDay;
      var days := DayList(first, last);
      assert t.day in days;
      k :| 0 <= k < |days| && days[k] == t.day;
      forall j: nat | j < |days| && j != k ensures days[j] != t.day {
        assert Earlier(days[if j < k then j else k], days[if j < k then k else j]);
      }
    }
  }

  /** An event of the window is counted in the slot of its moment. */
  lemma CountedInItsSlot(period: string, c: Civil, labels: seq<string>, b: seq<Bucket>, t: Moment, k: nat)
    requires FourDigitDay(c) && c.y >= 1970 && LabelsFor(labels, period, c) && Labelled(b, labels)
    requires IsMoment(t) && SamePeriod(period, t.day, c) && k < |labels|
    ensures SlotOf(b, BucketKey(period, StampText(t))) == k <==> InSlot(period, c, k, t)
  {
    hide BucketKey, StampText, LabelsFor, InSlot, Slots, FourDigitDay, IsMoment;
    var key := BucketKey(period, StampText(t));
    var j := SlotFound(period, c, t);
    SlotLabel(period, c, labels, j, t);
    var i := SlotOf(b, key);
    assert b[j].name == key;
    assert i <= j;
    SlotLabel(period, c, labels, i, t);
    assert b[i].name == labels[i];
  }

  // ---- what each slot counts ----

  ghost predicate HappenedIn(period: string, c: Civil, k: nat, createdAt: string)
    requires IsDay(c)
  {
    exists t :: IsMoment(t) && createdAt == StampText(t) && InSlot(period, c, k, t)
  }

  lemma HappenedAt(period: string, c: Civil, k: nat, t: Moment)
    requires IsDay(c) && IsMoment(t)
    ensures HappenedIn(period, c, k, StampText(t)) <==> InSlot(period, c, k, t)
  {
    hide InSlot, StampText;
    if HappenedIn(period, c, k, StampText(t)) {
      var u :| IsMoment(u) && StampText(t) == StampText(u) && InSlot(period, c, k, u);
      StampOrder(t, u);
    }
  }

  ghost predicate SlotCounts(parse: Parser, period: string, c: Civil, lines: seq<string>, b: Bucket, k: nat)
    requires FourDigitDay(c) && c.y >= 1970
  {
    var scan := ScanOf(period, c);
    && b.events == Count(parse, scan, lines, true, (e: Event) => HappenedIn(period, c, k, e.createdAt))
    && b.sessions == Count(parse, scan, lines, true,
                           (e: Event) => HappenedIn(period, c, k, e.createdAt) && e.kind == "session.create")
    && b.failures == Count(parse, scan, lines, true,
                           (e: Event) => HappenedIn(period, c, k, e.createdAt) && IsFailure(e.kind))
  }

  lemma FilledSlot(b: seq<Bucket>, key: string, kind: string, k: nat)
    requires k < |b|
    ensures |FillSlot(b, key, kind)| == |b|
    ensures FillSlot(b, key, kind)[k] ==
      if SlotOf(b, key) == k
      then Bucket(b[k].name, b[k].events + 1, b[k].sessions + One(kind == "session.create"),
                  b[k].failures + One(IsFailure(kind)))
      else b[k]
  {
    hide IsFailure;
  }

  /** One more line: its event, if it is one of the window, counts in the slot of its moment and in no other. */
  lemma SlotCountsNext(parse: Parser, period: string, c: Civil, labels: seq<string>, a: Acc, lines: seq<string>, k: nat)
    requires FourDigitDay(c) && c.y >= 1970 && LabelsFor(labels, period, c)
    requires lines != [] && WellTimed(parse, ScanOf(period, c), lines)
    requires Labelled(a.buckets, labels) && k < |labels|
    requires SlotCounts(parse, period, c, lines[..|lines| - 1], a.buckets[k], k)
    ensures var b := Visit(parse, ScanOf(period, c), a, lines[|lines| - 1]);
      |b.buckets| == |labels| && SlotCounts(parse, period, c, lines, b.buckets[k], k)
  {
    hide FillSlot, IsFailure, IsAdmin, Less, BucketKey, StampText, PreviousWindow, WindowOf, LabelsFor, FamilyOf,
         IsMoment, ScanOf, HappenedIn, DaysInMonth, InSlot, CountEvent, InScan, SamePeriod;
    var scan := ScanOf(period, c);
    var line := parse(lines[|lines| - 1]);
    ScanPeriod(period, c);
    if line.Some? && Current(scan, line.value) {
      var e := line.value;
      var t :| IsMoment(t) && e.createdAt == StampText(t);
      WindowsTake(period, c, e, t);
      CountedInItsSlot(period, c, labels, a.buckets, t, k);
      HappenedAt(period, c, k, t);
      FilledSlot(a.buckets, BucketKey(period, e.createdAt), e.kind, k);
    }
  }

  lemma ScanPeriod(period: string, c: Civil)
    requires FourDigitDay(c) && c.y >= 1970
    ensures ScanOf(period, c).period == period
  {
  }

  lemma NothingCounted(parse: Parser, period: string, c: Civil, labels: seq<string>, k: nat)
    requires FourDigitDay(c) && c.y >= 1970 && k < |labels|
    ensures Labelled(EmptyAcc(labels).buckets, labels)
    ensures SlotCounts(parse, period, c, [], EmptyAcc(labels).buckets[k], k)
  {
  }

  /** Each slot counts the window's events whose moment falls in it, and of these the sessions and the failures. */
  lemma {:induction false} SlotsExactly(parse: Parser, period: string, c: Civil, labels: seq<string>,
                                        lines: seq<string>, k: nat)
    requires FourDigitDay(c) && c.y >= 1970 && LabelsFor(labels, period, c)
    requires WellTimed(parse, ScanOf(period, c), lines) && k < |labels|
    ensures var a := Fold(parse, ScanOf(period, c), EmptyAcc(labels), lines);
      |a.buckets| == |labels| && a.buckets[k].name == labels[k] && SlotCounts(parse, period, c, lines, a.buckets[k], k)
    decreases |lines|
  {
    hide *;
    var scan := ScanOf(period, c);
    SlotsAddUp(parse, period, c, labels, lines);
    LabelAt(Fold(parse, scan, EmptyAcc(labels), lines).buckets, labels, k);
    if lines == [] {
      FoldNone(parse, scan, EmptyAcc(labels));
      NothingCounted(parse, period, c, labels, k);
    } else {
      var before := lines[..|lines| - 1];
      WellTimedInit(parse, scan, lines);
      SlotsAddUp(parse, period, c, labels, before);
      LabelAt(Fold(parse, scan, EmptyAcc(labels), before).buckets, labels, k);
      SlotsExactly(parse, period, c, labels, before, k);
      SlotCountsNext(parse, period, c, labels, Fold(parse, scan, EmptyAcc(labels), before), lines, k);
      FoldLast(parse, scan, EmptyAcc(labels), lines);
    }
  }

  lemma LabelAt(b: seq<Bucket>, labels: seq<string>, k: nat)
    requires Labelled(b, labels) && k < |labels|
    ensures |b| == |labels| && b[k].name == labels[k]
  {
  }
}
