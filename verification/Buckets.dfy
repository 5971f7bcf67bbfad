/**
 Reading an anchor date back from its text, and listing the chart slots of a
 window by walking its days.
 */
module Buckets {
  import opened Sequences
  import opened Numerals
  import opened Options
  import opened Lex
  import opened Calendar

  // ---- parse_anchor ----

  /** "2026-10-30", "2026-10" (day 1) or "2026" (January 1st). */
  function ParseAnchor(text: string): (c: Option<Civil>)
    ensures c.Some? ==> IsDay(c.value) && 1970 <= c.value.y <= 9999
  {
    if |text| !in {4, 7, 10} || !AllDigits(text[..4]) then None
    else if |text| >= 7 && (text[4] != '-' || !AllDigits(text[5..7])) then None
    else if |text| == 10 && (text[7] != '-' || !AllDigits(text[8..10])) then None
    else
      var c := Civil(Value(text[..4]),
                     if |text| >= 7 then Value(text[5..7]) else 1,
                     if |text| == 10 then Value(text[8..10]) else 1);
      if 1970 <= c.y <= 9999 && IsDay(c) then Some(c) else None
  }

  lemma Pad2Value(n: nat)
    requires n < 100
    ensures |Pad2(n)| == 2 && AllDigits(Pad2(n)) && Value(Pad2(n)) == n
  {
    Pad2Digits(n);
    var s := Pad2(n);
    assert s[..1] == [Digit(n / 10)] && s[..1][..0] == "";
    assert Value(s[..1]) == n / 10;
  }

  lemma YearValue(y: nat)
    requires 1000 <= y <= 9999
    ensures |ToText(y)| == 4 && AllDigits(ToText(y)) && Value(ToText(y)) == y
  {
    YearDigits(y);
    Pad2Value(y / 100);
    Pad2Digits(y % 100);
    var a, s := Pad2(y / 100), ToText(y);
    Pad2Value(y % 100);
    assert s[..3] == a + [Digit(y % 100 / 10)] && s[..3][..2] == a;
    assert Value(s[..3]) == y / 100 * 10 + y % 100 / 10;
  }

  /** An ISO date reads back as the day it was written for. */
  lemma AnchorRoundTrip(c: Civil)
    requires FourDigitDay(c) && c.y >= 1970
    ensures ParseAnchor(IsoDate(c)) == Some(c)
  {
    hide ToText, Pad2, Value;
    var text := IsoDate(c);
    IsoParts(c);
    YearValue(c.y);
    Pad2Value(c.m);
    Pad2Value(c.d);
    MonthDayFields(text[4..], Pad2(c.m), Pad2(c.d));
    assert text[4] == text[4..][0] && text[7] == text[4..][3];
    assert text[5..7] == text[4..][1..3] && text[8..10] == text[4..][4..6];
    assert text[4..][0] == '-' && text[4..][3] == '-';
  }

  /** Digits that do not start with a zero are the text of their value. */
  lemma {:induction false} TextOfValue(s: string)
    requires s != "" && AllDigits(s) && s[0] != '0'
    ensures Value(s) > 0 && ToText(Value(s)) == s
    decreases |s|
  {
    var n := |s| - 1;
    var last := (s[n] - '0') as int;
    if n == 0 {
      assert s[..0] == "" && Value(s) == last;
      assert s == [Digit(last)];
    } else {
      var init := s[..n];
      assert AllDigits(init);
      TextOfValue(init);
      assert Value(s) == Value(init) * 10 + last;
      assert Value(s) / 10 == Value(init) && Value(s) % 10 == last;
      assert s == init + [Digit(last)];
    }
  }

  lemma TwoDigits(s: string, a: int, b: int)
    requires |s| == 2 && AllDigits(s) && a == (s[0] - '0') as int && b == (s[1] - '0') as int
    ensures 0 <= a <= 9 && 0 <= b <= 9 && Value(s) == a * 10 + b && Value(s) / 10 == a && Value(s) % 10 == b
  {
    assert s[..1] == [s[0]] && s[..1][..0] == "";
    assert Value(s[..1]) == a;
  }

  lemma Pad2OfValue(s: string)
    requires |s| == 2 && AllDigits(s)
    ensures Value(s) < 100 && Pad2(Value(s)) == s
  {
    hide Value, Pad2;
    var a, b := (s[0] - '0') as int, (s[1] - '0') as int;
    TwoDigits(s, a, b);
    Pad2Digits(Value(s));
    assert s == [Digit(a)] + [Digit(b)];
  }

  lemma YearOfValue(s: string)
    requires |s| == 4 && AllDigits(s) && Value(s) >= 1000
    ensures ToText(Value(s)) == s
  {
    assert s[..3][..2][..1][..0] == "";
    assert s[..3][..2] == s[..2] && s[..3][..2][..1] == s[..1];
    assert Value(s[..1]) == (s[0] - '0') as int;
    assert Value(s[..2]) == Value(s[..1]) * 10 + (s[1] - '0') as int;
    assert Value(s[..3]) == Value(s[..2]) * 10 + (s[2] - '0') as int;
    TextOfValue(s);
  }

  /** The texts of a day: the day itself, its month when it is the first, its year when it is January 1st. */
  predicate AnchorText(text: string, c: Civil)
    requires FourDigitDay(c)
  {
    || text == IsoDate(c)
    || (c.d == 1 && text == ToText(c.y) + "-" + Pad2(c.m))
    || (c.d == 1 && c.m == 1 && text == ToText(c.y))
  }

  lemma AnchorPieces(text: string)
    requires ParseAnchor(text).Some?
    ensures FourDigitDay(ParseAnchor(text).value) && AnchorText(text, ParseAnchor(text).value)
  {
    hide ToText, Pad2, Value;
    var c := ParseAnchor(text).value;
    YearOfValue(text[..4]);
    assert text == text[..4] + text[4..];
    if |text| == 4 {
      assert text[..4] == text;
    } else {
      Pad2OfValue(text[5..7]);
      assert text[..7] == text[..4] + "-" + text[5..7];
      if |text| == 7 {
        assert text[..7] == text;
      } else {
        Pad2OfValue(text[8..10]);
        assert text == text[..7] + "-" + text[8..10];
      }
    }
  }

  lemma AnchorRead(text: string, c: Civil)
    requires FourDigitDay(c) && c.y >= 1970 && AnchorText(text, c)
    ensures ParseAnchor(text) == Some(c)
  {
    hide ToText, Pad2, Value;
    YearValue(c.y);
    Pad2Value(c.m);
    if text == IsoDate(c) {
      AnchorRoundTrip(c);
    } else if |text| == 4 {
      assert text[..4] == text;
    } else {
      var year, month := ToText(c.y), Pad2(c.m);
      assert text == year + "-" + month;
      assert text[..4] == year && text[4] == '-' && text[5..7] == month;
    }
  }

  /** An anchor reads as a day exactly when it is one of that day's texts, from 1970 on. */
  lemma ParseAnchorExactly(text: string, c: Civil)
    ensures ParseAnchor(text) == Some(c) <==> FourDigitDay(c) && c.y >= 1970 && AnchorText(text, c)
  {
    hide ToText, Pad2, Value, ParseAnchor, AnchorText;
    if ParseAnchor(text) == Some(c) { AnchorPieces(text); }
    if FourDigitDay(c) && c.y >= 1970 && AnchorText(text, c) { AnchorRead(text, c); }
  }

  // ---- the days of a window ----

  function Ordinal(c: Civil): int { c.y * 372 + c.m * 31 + c.d }

  lemma OrdinalGrows(c: Civil)
    requires IsDay(c)
    ensures Ordinal(c) < Ordinal(NextDay(c)) && IsDay(NextDay(c))
  {
  }

  lemma OrdinalOrder(a: Civil, b: Civil)
    requires IsDay(a) && IsDay(b)
    ensures Earlier(a, b) <==> Ordinal(a) < Ordinal(b)
  {
  }

  function DayList(first: Civil, last: Civil): seq<Civil>
    requires IsDay(first) && IsDay(last)
    decreases Ordinal(last) - Ordinal(first) + 1
  {
    if Earlier(last, first) then []
    else
      OrdinalGrows(first); OrdinalOrder(last, first);
      [first] + DayList(NextDay(first), last)
  }

  /** Exactly the days from first to last, each once and in order. */
  lemma {:induction false} DayListIsWindow(first: Civil, last: Civil)
    requires IsDay(first) && IsDay(last)
    ensures forall d :: d in DayList(first, last) <==> IsDay(d) && !Earlier(d, first) && !Earlier(last, d)
    ensures forall i, j :: 0 <= i < j < |DayList(first, last)| ==>
      Earlier(DayList(first, last)[i], DayList(first, last)[j])
    decreases Ordinal(last) - Ordinal(first) + 1
  {
    if !Earlier(last, first) {
      OrdinalGrows(first);
      OrdinalOrder(last, first);
      var rest := DayList(NextDay(first), last);
      DayListIsWindow(NextDay(first), last);
      forall d | IsDay(d) && !Earlier(d, first) && !Earlier(last, d) && d != first ensures d in rest {
        NextIsNext(first, d);
      }
      forall d | d in rest ensures Earlier(first, d) {
        NextPreviousInverse(first);
      }
    }
  }

  /** Their texts: one chart slot a day. */
  function DayTexts(first: Civil, last: Civil): seq<string>
    requires IsDay(first) && IsDay(last) && first.y >= 0
    decreases Ordinal(last) - Ordinal(first) + 1
  {
    if Earlier(last, first) then []
    else
      OrdinalGrows(first); OrdinalOrder(last, first);
      [IsoDate(first)] + DayTexts(NextDay(first), last)
  }

  lemma {:induction false} DayTextsOfList(first: Civil, last: Civil)
    requires IsDay(first) && IsDay(last) && first.y >= 0
    ensures |DayTexts(first, last)| == |DayList(first, last)|
    ensures forall k :: 0 <= k < |DayList(first, last)| ==>
      var d := DayList(first, last)[k];
      IsDay(d) && d.y >= 0 && DayTexts(first, last)[k] == IsoDate(d)
    decreases Ordinal(last) - Ordinal(first) + 1
  {
    if !Earlier(last, first) {
      OrdinalGrows(first);
      OrdinalOrder(last, first);
      DayTextsOfList(NextDay(first), last);
    }
  }

  const LAST_DAY := Civil(9999, 12, 31)

  /** Past year 9999 the text order no longer follows the dates, until this year. */
  lemma FarYearStops(day: Civil, last: Civil)
    requires IsDay(day) && day.y == 99990 && FourDigitDay(last)
    ensures Less(IsoDate(last), IsoDate(day))
  {
    hide Less, Pad2;
    assert ToText(99990) == "9999" + "0" by {
      assert ToText(9) == "9" && ToText(99) == "99" && ToText(999) == "999" && ToText(9999) == "9999";
    }
    YearOrder(last.y, 9999);
    assert ToText(9999) == "9999" by { assert ToText(9) == "9" && ToText(99) == "99" && ToText(999) == "999"; }
    IsoParts(last);
    var md := "-" + Pad2(day.m) + "-" + Pad2(day.d);
    FarYearText(day);
    LessConcat(ToText(last.y), "9999", IsoDate(last)[4..], "0" + md);
    DashBeforeZero(IsoDate(last)[4..], "0" + md);
  }

  lemma FarYearText(day: Civil)
    requires IsDay(day) && day.y == 99990
    ensures IsoDate(day) == "9999" + ("0" + ("-" + Pad2(day.m) + "-" + Pad2(day.d)))
  {
    hide Pad2;
    assert ToText(99990) == "99990" by {
      assert ToText(9) == "9" && ToText(99) == "99" && ToText(999) == "999" && ToText(9999) == "9999";
    }
    assert "9999" + "0" == "99990";
  }

  lemma DashBeforeZero(a: string, b: string)
    requires a != "" && b != "" && a[0] == '-' && b[0] == '0'
    ensures Less(a, b)
  {
  }

  /** Day 10000-01-01 still sorts before 9999-12-31. */
  lemma TenThousandSortsFirst()
    ensures !Less(IsoDate(LAST_DAY), IsoDate(Civil(10000, 1, 1)))
    ensures NextDay(LAST_DAY) == Civil(10000, 1, 1)
  {
    YearOrder(9999, 9999);
    IsoParts(LAST_DAY);
    var a, b := IsoDate(LAST_DAY), IsoDate(Civil(10000, 1, 1));
    assert ToText(9) == "9" && ToText(99) == "99" && ToText(999) == "999" && ToText(9999) == "9999";
    assert ToText(1) == "1" && ToText(10) == "10" && ToText(100) == "100" && ToText(1000) == "1000";
    assert a[0] == a[..4][0] == '9';
    assert ToText(10000)[0] == '1';
    assert b[0] == ToText(10000)[0];
  }

  /** The labels already listed when the loop stands at `day`. */
  ghost predicate LabelsSoFar(labels: seq<string>, first: Civil, last: Civil, day: Civil)
    requires FourDigitDay(first) && FourDigitDay(last)
  {
    && IsDay(day) && first.y <= day.y <= 99990
    && (day.y <= 9999 ==> labels + DayTexts(day, last) == DayTexts(first, last))
    && (day.y > 9999 ==>
        && last == LAST_DAY && DayTexts(first, last) <= labels
        && (labels == DayTexts(first, last) ==> day == Civil(10000, 1, 1)))
  }

  lemma LabelsStep(labels: seq<string>, first: Civil, last: Civil, day: Civil)
    requires FourDigitDay(first) && FourDigitDay(last) && LabelsSoFar(labels, first, last, day)
    requires AtMost(IsoDate(day), IsoDate(last))
    ensures LabelsSoFar(labels + [IsoDate(day)], first, last, NextDay(day))
    ensures Ordinal(day) < Ordinal(NextDay(day))
  {
    hide Less, IsoDate, FourDigitDay;
    OrdinalGrows(day);
    if day.y == 99990 {
      FarYearStops(day, last);
    }
    assert day.y < 99990;
    if day.y <= 9999 {
      assert FourDigitDay(day) && FourDigitDay(first) by { Reveal4(day, first); }
      DateOrder(last, day);
      OneMoreText(labels, first, last, day);
      if NextDay(day).y > 9999 {
        assert day == LAST_DAY;
        assert last == LAST_DAY by { Reveal4(last, last); }
      }
    }
  }

  lemma Reveal4(a: Civil, b: Civil)
    requires FourDigitDay(b)
    ensures IsDay(a) && b.y <= a.y <= 9999 ==> FourDigitDay(a)
    ensures !Earlier(b, LAST_DAY) ==> b == LAST_DAY
  {
  }

  lemma OneMoreText(labels: seq<string>, first: Civil, last: Civil, day: Civil)
    requires FourDigitDay(first) && FourDigitDay(last) && FourDigitDay(day) && !Earlier(last, day)
    requires labels + DayTexts(day, last) == DayTexts(first, last)
    ensures IsDay(NextDay(day)) && labels + [IsoDate(day)] + DayTexts(NextDay(day), last) == DayTexts(first, last)
    ensures NextDay(day).y > 9999 ==> labels + [IsoDate(day)] == DayTexts(first, last)
  {
    hide IsoDate, DayTexts;
    OrdinalGrows(day);
    DayTextsStep(day, last);
    if NextDay(day).y > 9999 { DayTextsStep(NextDay(day), last); }
    Regroup(labels, [IsoDate(day)], DayTexts(NextDay(day), last));
    assert labels + [IsoDate(day)] + [] == labels + [IsoDate(day)];
  }

  lemma DayTextsStep(day: Civil, last: Civil)
    requires IsDay(day) && IsDay(last) && day.y >= 0
    ensures IsDay(NextDay(day))
    ensures DayTexts(day, last) == if Earlier(last, day) then [] else [IsoDate(day)] + DayTexts(NextDay(day), last)
  {
    OrdinalGrows(day);
  }

  /** At the end every day of the window is listed once, and nothing else unless it ends at 9999-12-31. */
  lemma LabelsDone(labels: seq<string>, first: Civil, last: Civil, day: Civil)
    requires FourDigitDay(first) && FourDigitDay(last) && LabelsSoFar(labels, first, last, day)
    requires Less(IsoDate(last), IsoDate(day))
    ensures DayTexts(first, last) <= labels
    ensures labels == DayTexts(first, last) <==> last != LAST_DAY
  {
    hide Less, IsoDate;
    TenThousandSortsFirst();
    if day.y <= 9999 {
      DateOrder(last, day);
      assert DayTexts(day, last) == [];
    }
  }

  method DayLabels(anchor: string, lastText: string, ghost first: Civil, ghost last: Civil)
    returns (labels: seq<string>)
    requires FourDigitDay(first) && first.y >= 1970 && FourDigitDay(last)
    requires anchor == IsoDate(first) && lastText == IsoDate(last)
    ensures DayTexts(first, last) <= labels
    ensures labels == DayTexts(first, last) <==> last != LAST_DAY
  {
    hide Less, ParseAnchor, DayTexts, DaysInMonth, ToText, Pad2, LabelsSoFar;
    AnchorRoundTrip(first);
    var day := ParseAnchor(anchor).value;
    labels := [];
    LabelsStart(first, last);
    while AtMost(IsoDate(day), lastText)
      invariant IsDay(day) && 0 <= day.y <= 99990 && LabelsSoFar(labels, first, last, day)
      decreases 99992 * 372 - Ordinal(day)
    {
      LabelsStep(labels, first, last, day);
      labels := labels + [IsoDate(day)];
      day := NextDay(day);
      LabelsBounds(labels, first, last, day);
    }
    LabelsDone(labels, first, last, day);
  }

  /** The two ends of the window are dates of four-digit years, and their texts stand at its ends. */
  lemma WindowTexts(period: string, c: Civil)
    requires FourDigitDay(c) && c.y >= 1970 && period != "day"
    ensures FourDigitDay(FirstDay(period, c)) && FourDigitDay(LastDay(period, c))
    ensures FirstDay(period, c).y >= 1970
    ensures var w := WindowOf(period, c);
      && |w.from| >= 4 && |w.to| >= 10
      && w.anchor == IsoDate(FirstDay(period, c)) && w.to[..10] == IsoDate(LastDay(period, c))
      && (period == "year" ==> w.from[..4] == ToText(c.y))
  {
    WindowHoldsAnchor(period, c);
    IsoParts(FirstDay(period, c));
    IsoParts(LastDay(period, c));
  }

  method BucketLabels(period: string, w: Window, ghost c: Civil) returns (labels: seq<string>)
    requires FourDigitDay(c) && c.y >= 1970 && w == WindowOf(period, c)
    ensures period == "day" ==> labels == HourLabels()
    ensures period == "year" ==> labels == MonthLabels(c.y)
    ensures period != "day" && period != "year" ==>
      var first, last := FirstDay(period, c), LastDay(period, c);
      && IsDay(first) && IsDay(last) && first.y >= 0
      && DayTexts(first, last) <= labels
      && (labels == DayTexts(first, last) <==> last != LAST_DAY)
  {
    hide DayTexts, Less, AtMost, IsoDate, Pad2, ToText, ParseAnchor;
    labels := [];
    if period == "day" {
      for hour := 0 to 24
        invariant labels == HourLabels()[..hour]
      {
        labels := labels + [Pad2(hour) + ":00"];
      }
      return;
    }
    WindowTexts(period, c);
    if period == "year" {
      var year := w.from[..4];
      for month := 1 to 13
        invariant labels == MonthLabels(c.y)[..month - 1]
      {
        labels := labels + [year + "-" + Pad2(month)];
      }
      return;
    }
    labels := DayLabels(w.anchor, w.to[..10], FirstDay(period, c), LastDay(period, c));
  }

  function HourLabels(): seq<string> {
    seq(24, h requires 0 <= h < 24 => Pad2(h) + ":00")
  }

  function MonthLabels(y: nat): seq<string> {
    seq(12, m requires 0 <= m < 12 => ToText(y) + "-" + Pad2(m + 1))
  }

  lemma LabelsBounds(labels: seq<string>, first: Civil, last: Civil, day: Civil)
    requires FourDigitDay(first) && FourDigitDay(last) && LabelsSoFar(labels, first, last, day)
    ensures IsDay(day) && 0 <= day.y <= 99990 && day.d <= 31
  {
  }

  lemma LabelsStart(first: Civil, last: Civil)
    requires FourDigitDay(first) && FourDigitDay(last)
    ensures LabelsSoFar([], first, last, first)
  {
    assert [] + DayTexts(first, last) == DayTexts(first, last);
  }
}
