/**
 The proleptic calendar of the periodic reports: days, the four kinds of
 window, and the text form whose byte order is the order of dates.
 */
module Calendar {
  import opened Sequences
  import opened Numerals
  import opened Lex

  datatype Civil = Civil(y: int, m: int, d: int)

  predicate LeapYear(y: int) { (y % 4 == 0 && y % 100 != 0) || y % 400 == 0 }

  function DaysInMonth(y: int, m: int): int {
    if m < 1 || m > 12 then 0
    else if m == 2 && LeapYear(y) then 29
    else [31, 28, 31, 30, 31, 30, 31, 31, 30, 31, 30, 31][m - 1]
  }

  lemma YearOfCentury(century: int, year: int)
    requires 0 <= year < 100
    ensures (century * 100 + year) % 100 == year
  {
  }

  lemma FourthYear(century: int, year: int)
    ensures (century * 100 + year) % 4 == year % 4
  {
    var q := century * 25;
    assert (q * 4 + year) % 4 == year % 4;
  }

  lemma FourthCentury(century: int)
    ensures (century * 100) % 400 == 0 <==> century % 4 == 0
  {
    var q, r := century / 4, century % 4;
    assert century * 100 == q * 400 + r * 100;
  }

  lemma WholeCenturies(y: int)
    requires y % 400 == 0
    ensures y % 100 == 0
  {
    var q := y / 400;
    assert y == q * 4 * 100;
  }

  /** Years go by four, except that those ending a century go by four centuries. */
  lemma FebruaryExactly(century: int, year: int)
    requires 0 <= year < 100
    ensures DaysInMonth(century * 100 + year, 2) ==
      if (year != 0 && year % 4 == 0) || (year == 0 && century % 4 == 0) then 29 else 28
  {
    YearOfCentury(century, year);
    FourthYear(century, year);
    FourthCentury(century);
    if year != 0 && (century * 100 + year) % 400 == 0 {
      WholeCenturies(century * 100 + year);
    }
  }

  predicate IsDay(c: Civil) { 1 <= c.m <= 12 && 1 <= c.d <= DaysInMonth(c.y, c.m) }

  function PreviousDay(c: Civil): Civil {
    if c.d > 1 then c.(d := c.d - 1)
    else
      var back := if c.m > 1 then c.(m := c.m - 1) else c.(m := 12, y := c.y - 1);
      back.(d := DaysInMonth(back.y, back.m))
  }

  function NextDay(c: Civil): Civil {
    if c.d < DaysInMonth(c.y, c.m) then c.(d := c.d + 1)
    else if c.m < 12 then Civil(c.y, c.m + 1, 1)
    else Civil(c.y + 1, 1, 1)
  }

  predicate Earlier(a: Civil, b: Civil) {
    a.y < b.y || (a.y == b.y && (a.m < b.m || (a.m == b.m && a.d < b.d)))
  }

  /** Stepping a day forward and back is the identity, both ways round. */
  lemma NextPreviousInverse(c: Civil)
    requires IsDay(c)
    ensures IsDay(NextDay(c)) && IsDay(PreviousDay(c))
    ensures PreviousDay(NextDay(c)) == c && NextDay(PreviousDay(c)) == c
    ensures Earlier(c, NextDay(c)) && Earlier(PreviousDay(c), c)
  {
  }

  /** No day lies strictly between a day and the next. */
  lemma NextIsNext(a: Civil, b: Civil)
    requires IsDay(a) && IsDay(b) && Earlier(a, b)
    ensures NextDay(a) == b || Earlier(NextDay(a), b)
  {
  }

  // ---- text ----

  function Pad2(n: nat): string { (if n < 10 then "0" else "") + ToText(n) }

  function IsoDate(c: Civil): string
    requires c.y >= 0 && c.m >= 0 && c.d >= 0
  {
    ToText(c.y) + "-" + Pad2(c.m) + "-" + Pad2(c.d)
  }

  predicate FourDigitDay(c: Civil) { IsDay(c) && 1000 <= c.y <= 9999 }

  lemma DigitOrder(a: int, b: int)
    requires 0 <= a <= 9 && 0 <= b <= 9
    ensures Digit(a) < Digit(b) <==> a < b
    ensures Digit(a) == Digit(b) <==> a == b
  {
  }

  lemma Pad2Digits(n: nat)
    requires n < 100
    ensures Pad2(n) == [Digit(n / 10)] + [Digit(n % 10)]
  {
    if n < 10 {
      assert Digit(n / 10) == '0';
    } else {
      assert ToText(n / 10) == [Digit(n / 10)];
      assert "" + ToText(n) == ToText(n);
    }
  }

  lemma LessChar(a: char, b: char)
    ensures Less([a], [b]) <==> a < b
  {
    assert [a][1..] == "" && [b][1..] == "";
  }

  lemma Pad2Order(a: nat, b: nat)
    requires a < 100 && b < 100
    ensures |Pad2(a)| == |Pad2(b)| == 2
    ensures Less(Pad2(a), Pad2(b)) <==> a < b
    ensures Pad2(a) == Pad2(b) <==> a == b
  {
    Pad2Digits(a);
    Pad2Digits(b);
    DigitOrder(a / 10, b / 10);
    DigitOrder(a % 10, b % 10);
    LessConcat([Digit(a / 10)], [Digit(b / 10)], [Digit(a % 10)], [Digit(b % 10)]);
    LessChar(Digit(a / 10), Digit(b / 10));
    LessChar(Digit(a % 10), Digit(b % 10));
    assert Pad2(a)[0] == Digit(a / 10) && Pad2(a)[1] == Digit(a % 10);
    assert Pad2(b)[0] == Digit(b / 10) && Pad2(b)[1] == Digit(b % 10);
  }

  lemma YearDigits(y: nat)
    requires 1000 <= y <= 9999
    ensures ToText(y) == Pad2(y / 100) + Pad2(y % 100)
  {
    Pad2Digits(y % 100);
    var head := ToText(y / 100);
    LastTwo(y);
    assert ToText(y) == head + [Digit(y % 100 / 10)] + [Digit(y % 100 % 10)];
    assert "" + head == head;
  }

  lemma LastTwo(y: nat)
    requires 1000 <= y <= 9999
    ensures ToText(y) == ToText(y / 100) + [Digit(y % 100 / 10)] + [Digit(y % 100 % 10)]
  {
    assert ToText(y) == ToText(y / 10) + [Digit(y % 10)];
    assert ToText(y / 10) == ToText(y / 10 / 10) + [Digit(y / 10 % 10)];
    assert y / 10 / 10 == y / 100 && y % 100 / 10 == y / 10 % 10 && y % 100 % 10 == y % 10;
  }

  lemma YearOrder(a: nat, b: nat)
    requires 1000 <= a <= 9999 && 1000 <= b <= 9999
    ensures |ToText(a)| == |ToText(b)| == 4
    ensures Less(ToText(a), ToText(b)) <==> a < b
    ensures ToText(a) == ToText(b) <==> a == b
  {
    YearDigits(a);
    YearDigits(b);
    Pad2Order(a / 100, b / 100);
    Pad2Order(a % 100, b % 100);
    LessConcat(Pad2(a / 100), Pad2(b / 100), Pad2(a % 100), Pad2(b % 100));
    assert ToText(a)[..2] == Pad2(a / 100) && ToText(a)[2..] == Pad2(a % 100);
    assert ToText(b)[..2] == Pad2(b / 100) && ToText(b)[2..] == Pad2(b % 100);
  }

  /** Byte order of ISO dates is date order, and the text determines the day. */
  lemma DateOrder(a: Civil, b: Civil)
    requires FourDigitDay(a) && FourDigitDay(b)
    ensures |IsoDate(a)| == |IsoDate(b)| == 10
    ensures Less(IsoDate(a), IsoDate(b)) <==> Earlier(a, b)
    ensures IsoDate(a) == IsoDate(b) <==> a == b
  {
    hide ToText, Pad2, Less;
    YearOrder(a.y, b.y);
    Pad2Order(a.m, b.m);
    Pad2Order(a.d, b.d);
    var am, bm := "-" + Pad2(a.m) + "-" + Pad2(a.d), "-" + Pad2(b.m) + "-" + Pad2(b.d);
    MonthDayOrder(Pad2(a.m), Pad2(a.d), Pad2(b.m), Pad2(b.d));
    MonthDayFields(am, Pad2(a.m), Pad2(a.d));
    MonthDayFields(bm, Pad2(b.m), Pad2(b.d));
    LessConcat(ToText(a.y), ToText(b.y), am, bm);
    IsoParts(a);
    IsoParts(b);
  }

  lemma IsoParts(c: Civil)
    requires FourDigitDay(c)
    ensures IsoDate(c) == ToText(c.y) + ("-" + Pad2(c.m) + "-" + Pad2(c.d))
    ensures |IsoDate(c)| == 10 && IsoDate(c)[..4] == ToText(c.y)
    ensures IsoDate(c)[4..] == "-" + Pad2(c.m) + "-" + Pad2(c.d)
    ensures IsoDate(c)[..7] == ToText(c.y) + "-" + Pad2(c.m)
  {
    hide ToText, Pad2;
    YearOrder(c.y, c.y);
    Pad2Order(c.m, c.d);
    assert ToText(c.y) + "-" + Pad2(c.m) + "-" + Pad2(c.d) == ToText(c.y) + ("-" + Pad2(c.m) + "-" + Pad2(c.d));
  }

  lemma MonthDayOrder(am: string, ad: string, bm: string, bd: string)
    requires |am| == |bm| == |ad| == |bd| == 2
    ensures Less("-" + am + "-" + ad, "-" + bm + "-" + bd) <==> Less(am, bm) || (am == bm && Less(ad, bd))
  {
    LessIrreflexive("-");
    SeparatedOrder("-", am, ad, bm, bd);
  }

  lemma SeparatedOrder(sep: string, am: string, ad: string, bm: string, bd: string)
    requires |am| == |bm| && !Less(sep, sep)
    ensures Less(sep + am + sep + ad, sep + bm + sep + bd) <==> Less(am, bm) || (am == bm && Less(ad, bd))
  {
    hide Less;
    RegroupFour(sep, am, sep, ad);
    RegroupFour(sep, bm, sep, bd);
    LessConcat(sep, sep, am + (sep + ad), bm + (sep + bd));
    LessConcat(am, bm, sep + ad, sep + bd);
    LessConcat(sep, sep, ad, bd);
  }

  lemma MonthDayFields(s: string, m: string, d: string)
    requires |m| == |d| == 2 && s == "-" + m + "-" + d
    ensures |s| == 6 && s[1..3] == m && s[4..6] == d
  {
  }

  // ---- moments: the createdAt of an event ----

  datatype Moment = Moment(day: Civil, hour: int, minute: int, second: int)

  predicate IsMoment(t: Moment) {
    FourDigitDay(t.day) && 0 <= t.hour < 24 && 0 <= t.minute < 60 && 0 <= t.second < 60
  }

  function ClockText(h: nat, m: nat, s: nat): string {
    "T" + Pad2(h) + ":" + Pad2(m) + ":" + Pad2(s) + "Z"
  }

  function StampText(t: Moment): string
    requires IsMoment(t)
  {
    IsoDate(t.day) + ClockText(t.hour, t.minute, t.second)
  }

  lemma ClockBounds(h: nat, m: nat, s: nat)
    requires h < 24 && m < 60 && s < 60
    ensures |ClockText(h, m, s)| == 10
    ensures AtMost("T00:00:00Z", ClockText(h, m, s)) && AtMost(ClockText(h, m, s), "T23:59:59Z")
  {
    hide Pad2, Less;
    Pad2Order(h, 0);
    Pad2Order(m, 0);
    Pad2Order(s, 0);
    ClockOrder(h, m, s, 0, 0, 0);
    ClockOrder(23, 59, 59, h, m, s);
    Pad2Order(23, h);
    Pad2Order(59, m);
    Pad2Order(59, s);
    EndClocks();
  }

  lemma EndClocks()
    ensures ClockText(0, 0, 0) == "T00:00:00Z" && ClockText(23, 59, 59) == "T23:59:59Z"
  {
    Pad2Digits(0);
    Pad2Digits(23);
    Pad2Digits(59);
  }

  /** Two clock texts differ in order exactly as their fields do. */
  lemma ClockOrder(h: nat, m: nat, s: nat, h': nat, m': nat, s': nat)
    requires h < 24 && m < 60 && s < 60 && h' < 24 && m' < 60 && s' < 60
    ensures Less(ClockText(h, m, s), ClockText(h', m', s')) <==> h < h' || (h == h' && (m < m' || (m == m' && s < s')))
  {
    hide Pad2, Less;
    Pad2Order(h, h');
    Pad2Order(m, m');
    Pad2Order(s, s');
    var r, r' := Pad2(s) + "Z", Pad2(s') + "Z";
    var q, q' := Pad2(m) + (":" + r), Pad2(m') + (":" + r');
    var p, p' := Pad2(h) + (":" + q), Pad2(h') + (":" + q');
    assert ClockText(h, m, s) == "T" + p && ClockText(h', m', s') == "T" + p';
    LessConcat("T", "T", p, p');
    LessConcat(Pad2(h), Pad2(h'), ":" + q, ":" + q');
    LessConcat(":", ":", q, q');
    LessConcat(Pad2(m), Pad2(m'), ":" + r, ":" + r');
    LessConcat(":", ":", r, r');
    LessConcat(Pad2(s), Pad2(s'), "Z", "Z");
    LessIrreflexive("T");
    LessIrreflexive(":");
    LessIrreflexive("Z");
  }

  /** A moment's text lies between a window's ends exactly when its day does. */
  lemma StampInWindow(t: Moment, first: Civil, last: Civil)
    requires IsMoment(t) && FourDigitDay(first) && FourDigitDay(last)
    ensures AtMost(IsoDate(first) + "T00:00:00Z", StampText(t)) <==> !Earlier(t.day, first)
    ensures AtMost(StampText(t), IsoDate(last) + "T23:59:59Z") <==> !Earlier(last, t.day)
  {
    hide IsoDate, ClockText, Less;
    DateOrder(t.day, first);
    DateOrder(last, t.day);
    ClockBounds(t.hour, t.minute, t.second);
    LessConcat(IsoDate(t.day), IsoDate(first), ClockText(t.hour, t.minute, t.second), "T00:00:00Z");
    LessConcat(IsoDate(last), IsoDate(t.day), "T23:59:59Z", ClockText(t.hour, t.minute, t.second));
  }

  predicate Before(t: Moment, u: Moment) {
    || Earlier(t.day, u.day)
    || (t.day == u.day && (t.hour < u.hour || (t.hour == u.hour &&
         (t.minute < u.minute || (t.minute == u.minute && t.second < u.second)))))
  }

  /** Byte order of stamps is the order of moments, and the text determines the moment. */
  lemma StampOrder(t: Moment, u: Moment)
    requires IsMoment(t) && IsMoment(u)
    ensures |StampText(t)| == 20
    ensures Less(StampText(t), StampText(u)) <==> Before(t, u)
    ensures StampText(t) == StampText(u) <==> t == u
  {
    hide IsoDate, ClockText, Less;
    DateOrder(t.day, u.day);
    ClockBounds(t.hour, t.minute, t.second);
    ClockOrder(t.hour, t.minute, t.second, u.hour, u.minute, u.second);
    ClockOrder(u.hour, u.minute, u.second, t.hour, t.minute, t.second);
    var x, y := ClockText(t.hour, t.minute, t.second), ClockText(u.hour, u.minute, u.second);
    LessConcat(IsoDate(t.day), IsoDate(u.day), x, y);
    assert StampText(t)[..10] == IsoDate(t.day) && StampText(u)[..10] == IsoDate(u.day);
    assert StampText(t)[10..] == x && StampText(u)[10..] == y;
    LessIrreflexive(x);
  }

  // ---- windows ----

  datatype Window = Window(name: string, from: string, to: string, anchor: string)

  function FirstDay(period: string, c: Civil): Civil {
    if period == "day" then c
    else if period == "month" then c.(d := 1)
    else if period == "quarter" then Civil(c.y, (c.m - 1) / 3 * 3 + 1, 1)
    else Civil(c.y, 1, 1)
  }

  function LastDay(period: string, c: Civil): Civil {
    if period == "day" then c
    else if period == "month" then c.(d := DaysInMonth(c.y, c.m))
    else if period == "quarter" then
      var m := (c.m - 1) / 3 * 3 + 3;
      Civil(c.y, m, DaysInMonth(c.y, m))
    else Civil(c.y, 12, 31)
  }

  function LabelOf(period: string, c: Civil): string
    requires IsDay(c) && c.y >= 0
  {
    if period == "day" then IsoDate(c)
    else if period == "month" then ToText(c.y) + "-" + Pad2(c.m)
    else if period == "quarter" then ToText(c.y) + "-Q" + ToText((c.m - 1) / 3 + 1)
    else ToText(c.y)
  }

  function WindowOf(period: string, c: Civil): Window
    requires IsDay(c) && c.y >= 0
  {
    Window(LabelOf(period, c),
           IsoDate(FirstDay(period, c)) + "T00:00:00Z",
           IsoDate(LastDay(period, c)) + "T23:59:59Z",
           IsoDate(FirstDay(period, c)))
  }

  /** The names of the four quarters. */
  lemma QuarterNames(c: Civil)
    requires IsDay(c) && c.y >= 0
    ensures LabelOf("quarter", c) ==
      ToText(c.y) + (if c.m <= 3 then "-Q1" else if c.m <= 6 then "-Q2" else if c.m <= 9 then "-Q3" else "-Q4")
  {
    assert ToText(1) == "1" && ToText(2) == "2" && ToText(3) == "3" && ToText(4) == "4";
    var q := (c.m - 1) / 3 + 1;
    assert ToText(c.y) + "-Q" + ToText(q) == ToText(c.y) + ("-Q" + ToText(q));
    assert "-Q" + "1" == "-Q1" && "-Q" + "2" == "-Q2" && "-Q" + "3" == "-Q3" && "-Q" + "4" == "-Q4";
  }

  /** The window holds its anchor, and every day of it has the same window. */
  lemma WindowHoldsAnchor(period: string, c: Civil)
    requires IsDay(c)
    ensures IsDay(FirstDay(period, c)) && IsDay(LastDay(period, c))
    ensures !Earlier(c, FirstDay(period, c)) && !Earlier(LastDay(period, c), c)
    ensures FirstDay(period, c).y == LastDay(period, c).y == c.y
  {
  }

  lemma SameWindow(period: string, c: Civil, x: Civil)
    requires IsDay(c) && IsDay(x) && !Earlier(x, FirstDay(period, c)) && !Earlier(LastDay(period, c), x)
    ensures FirstDay(period, x) == FirstDay(period, c) && LastDay(period, x) == LastDay(period, c)
  {
  }

  /** Two days of one period: the day, month, quarter or year they share. */
  predicate SamePeriod(period: string, a: Civil, b: Civil) {
    && a.y == b.y
    && (period == "day" ==> a == b)
    && (period == "month" ==> a.m == b.m)
    && (period == "quarter" ==>
        (a.m <= 3 <==> b.m <= 3) && (a.m <= 6 <==> b.m <= 6) && (a.m <= 9 <==> b.m <= 9))
  }

  /** The window of a day holds exactly the days of its period. */
  lemma WindowExactly(period: string, c: Civil, x: Civil)
    requires IsDay(c) && IsDay(x)
    ensures !Earlier(x, FirstDay(period, c)) && !Earlier(LastDay(period, c), x) <==> SamePeriod(period, x, c)
  {
  }

  /** The previous window ends the day before this one starts: no gap, no overlap. */
  lemma PreviousWindowAdjacent(period: string, c: Civil)
    requires IsDay(c)
    ensures var before := PreviousDay(FirstDay(period, c));
      IsDay(before) && LastDay(period, before) == before && NextDay(LastDay(period, before)) == FirstDay(period, c)
  {
    WindowHoldsAnchor(period, c);
    NextPreviousInverse(FirstDay(period, c));
  }
}
