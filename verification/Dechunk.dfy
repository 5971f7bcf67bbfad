/**
 The chunked transfer coding undone by the web proxy, and the encodings of
 section 7.1 of RFC 9112 it accepts.
 */
module Dechunk {
  import opened Ascii
  import opened Numerals
  import opened Options
  import opened Sequences
  import opened TextSearch

  /** One more than the largest size_t. */
  const WORD := 0x1_0000_0000_0000_0000

  /** std::string::find of a pattern from a position on; -1 stands for npos. */
  function Find(s: string, pat: string, start: nat): (r: int)
    ensures r == -1 || (start <= r && OccursAt(s, pat, r))
    ensures forall i :: start <= i && (r == -1 || i < r) ==> !OccursAt(s, pat, i)
    decreases |s| + 1 - start
  {
    if start > |s| then -1 else if OccursAt(s, pat, start) then start else Find(s, pat, start + 1)
  }

  // ---- std::stoul(text, nullptr, 16) ----

  function HexDigit(c: char): Option<nat> {
    if '0' <= c <= '9' then Some((c - '0') as nat)
    else if 'a' <= c <= 'f' then Some((c - 'a') as nat + 10)
    else if 'A' <= c <= 'F' then Some((c - 'A') as nat + 10)
    else None
  }

  const SMALL_DIGITS := "0123456789abcdef"
  const LARGE_DIGITS := "0123456789ABCDEF"

  /** A hexadecimal digit is one of sixteen, in either case, and is worth its place among them. */
  lemma HexDigitExactly(c: char, v: nat)
    ensures HexDigit(c) == Some(v) <==> v < 16 && (SMALL_DIGITS[v] == c || LARGE_DIGITS[v] == c)
  {
    if v < 16 {
      assert SMALL_DIGITS[v] == if v < 10 then '0' + v as char else 'a' + (v - 10) as char;
      assert LARGE_DIGITS[v] == if v < 10 then '0' + v as char else 'A' + (v - 10) as char;
    }
  }

  predicate IsHex(c: char) { HexDigit(c).Some? }

  /** The number of hexadecimal digits `s` starts with. */
  function HexRun(s: string): (n: nat)
    ensures n <= |s|
    ensures forall i :: 0 <= i < n ==> IsHex(s[i])
    ensures n < |s| ==> !IsHex(s[n])
  {
    if s != "" && IsHex(s[0]) then 1 + HexRun(s[1..]) else 0
  }

  function HexValue(s: string): nat
    requires forall i :: 0 <= i < |s| ==> IsHex(s[i])
    decreases |s|
  {
    if s == "" then 0
    else
      assert IsHex(s[|s| - 1]);
      HexValue(s[..|s| - 1]) * 16 + HexDigit(s[|s| - 1]).value
  }

  function SkipSpace(s: string): string {
    if s != "" && IsSpace(s[0]) then SkipSpace(s[1..]) else s
  }

  /** After any sign: an optional 0x before a digit, then digits. None when there is no digit. */
  function Magnitude(s: string): Option<nat> {
    var digits := if |s| > 2 && s[0] == '0' && (s[1] == 'x' || s[1] == 'X') && IsHex(s[2]) then s[2..] else s;
    var n := HexRun(digits);
    if n == 0 then None else Some(HexValue(digits[..n]))
  }

  /** None when stoul throws: nothing to convert, or out of range. A minus sign negates modulo the word. */
  function ParseSize(text: string): Option<nat> {
    var s := SkipSpace(text);
    var minus := s != "" && s[0] == '-';
    var m := Magnitude(if s != "" && (s[0] == '-' || s[0] == '+') then s[1..] else s);
    if m.None? || m.value >= WORD then None
    else if minus then Some((WORD - m.value) % WORD)
    else m
  }

  // ---- the loop ----

  datatype Line = NoLine | SizeLine(text: string, next: nat)

  /** The size line at `pos`, without its extensions, and the position after it. */
  function ReadLine(body: string, pos: nat): (l: Line)
    requires pos < |body|
    ensures l.SizeLine? ==> pos < l.next <= |body|
  {
    var crlf := Find(body, "\r\n", pos);
    var end := if crlf != -1 then crlf else Find(body, "\n", pos);
    if end == -1 then NoLine
    else
      var text := body[pos..end];
      var ext := FindChar(text, ';', 0);
      SizeLine(if ext == -1 then text else text[..ext], if crlf != -1 then end + 2 else end + 1)
  }

  /** Past the line break that ends a chunk's data, if there is one. */
  function SkipBreak(body: string, pos: nat): (next: nat)
    requires pos <= |body|
    ensures pos <= next <= |body|
  {
    if pos + 1 < |body| && body[pos] == '\r' && body[pos + 1] == '\n' then pos + 2
    else if pos < |body| && body[pos] == '\n' then pos + 1
    else pos
  }

  /** std::string::substr: `count` characters, or as many as there are. */
  function Substr(s: string, pos: nat, count: nat): string
    requires pos <= |s|
  {
    if pos + count <= |s| then s[pos..pos + count] else s[pos..]
  }

  /** What one turn of the loop does: stop, keeping the decoded text or not, or take a chunk and go on. */
  datatype Hop = Halt(complete: bool) | Chunked(piece: string, next: nat)

  /** One turn at `pos`; the end of the data is computed in size_t. */
  function HopAt(body: string, pos: nat): (h: Hop)
    requires pos <= |body|
    ensures h.Chunked? ==> pos < |body| && h.next <= |body|
  {
    if pos == |body| then Halt(true)
    else
      match ReadLine(body, pos)
      case NoLine => Halt(false)
      case SizeLine(text, next) =>
        var size := ParseSize(text);
        if size.None? then Halt(false)
        else if size.value == 0 then Halt(true)
        else
          var end := (next + size.value) % WORD;
          if end > |body| then Halt(false)
          else Chunked(Substr(body, next, size.value), SkipBreak(body, end))
  }

  /** The loop between turns: still at a position, or stopped; with the text decoded so far. */
  datatype Progress = Running(pos: nat, text: string) | Stopped(complete: bool, text: string)

  predicate Within(body: string, p: Progress) { p.Running? ==> p.pos <= |body| }

  function Turn(body: string, p: Progress): (next: Progress)
    requires Within(body, p)
    ensures Within(body, next)
  {
    if p.Stopped? then p
    else
      match HopAt(body, p.pos)
      case Halt(complete) => Stopped(complete, p.text)
      case Chunked(piece, next) => Running(next, p.text + piece)
  }

  /** The loop after `n` turns. */
  function After(body: string, n: nat): (p: Progress)
    ensures Within(body, p)
  {
    if n == 0 then Running(0, "") else Turn(body, After(body, n - 1))
  }

  /** `Endless`: the loop goes on for ever. */
  datatype Outcome = Done(body: string) | Kept | Endless

  /** What the loop comes to, on every body. */
  ghost predicate Yields(body: string, o: Outcome) {
    match o
    case Done(text) => exists n :: After(body, n) == Stopped(true, text)
    case Kept => exists n :: After(body, n).Stopped? && !After(body, n).complete
    case Endless => forall n :: After(body, n).Running?
  }

  lemma {:induction false} StaysStopped(body: string, n: nat, m: nat)
    requires After(body, n).Stopped? && n <= m
    ensures After(body, m) == After(body, n)
    decreases m
  {
    hide HopAt;
    if n < m {
      StaysStopped(body, n, m - 1);
      assert After(body, m) == Turn(body, After(body, m - 1));
    }
  }

  /** There is one outcome. */
  lemma YieldsOne(body: string, o: Outcome, other: Outcome)
    requires Yields(body, o) && Yields(body, other)
    ensures o == other
  {
    hide After;
    forall n: nat, m: nat | After(body, n).Stopped? && After(body, m).Stopped?
      ensures After(body, n) == After(body, m)
    {
      StaysStopped(body, n, if n < m then m else n);
      StaysStopped(body, m, if n < m then m else n);
    }
  }

  // ---- when it never ends ----

  /** The position is the same before turns `i` and `j`. */
  predicate Revisits(body: string, i: nat, j: nat) {
    i < j && After(body, i).Running? && After(body, j).Running? && After(body, i).pos == After(body, j).pos
  }

  /** What comes after a position does not depend on how it was reached. */
  lemma {:induction false} SamePath(body: string, i: nat, j: nat, d: nat)
    requires Revisits(body, i, j)
    ensures After(body, i + d).Running? <==> After(body, j + d).Running?
    ensures After(body, i + d).Running? ==> After(body, i + d).pos == After(body, j + d).pos
    decreases d
  {
    hide HopAt;
    if d > 0 {
      SamePath(body, i, j, d - 1);
      assert After(body, i + d) == Turn(body, After(body, i + d - 1));
      assert After(body, j + d) == Turn(body, After(body, j + d - 1));
    }
  }

  /** A position met twice is met for ever. */
  lemma {:induction false} RevisitedRunsOn(body: string, i: nat, j: nat, n: nat)
    requires Revisits(body, i, j)
    ensures After(body, n).Running?
    decreases n
  {
    hide After;
    if n <= j {
      if After(body, n).Stopped? { StaysStopped(body, n, j); }
    } else {
      var d := n - j;
      RevisitedRunsOn(body, i, j, i + d);
      SamePath(body, i, j, d);
    }
  }

  /** The positions before the first `n` turns. */
  ghost function Visited(body: string, n: nat): set<nat> {
    set i | 0 <= i < n && After(body, i).Running? :: After(body, i).pos
  }

  lemma {:induction false} BelowCount(s: set<nat>, n: nat)
    requires forall x :: x in s ==> x < n
    ensures |s| <= n
    decreases n
  {
    if n > 0 {
      BelowCount(s - {n - 1}, n - 1);
      assert s <= (s - {n - 1}) + {n - 1};
    } else {
      assert s == {};
    }
  }

  /** The turns of the loop, the guard on `seen` standing for the memory the code does not keep. */
  method DecodeBody(body: string) returns (o: Outcome)
    ensures Yields(body, o)
  {
    hide After, ReadLine, ParseSize, SkipBreak, Substr;
    var dechunked := "";
    var pos := 0;
    ghost var n := 0;
    var seen: set<nat> := {};
    FirstTurn(body);
    while pos < |body|
      invariant 0 <= pos <= |body| && After(body, n) == Running(pos, dechunked)
      invariant seen == Visited(body, n) && forall x :: x in seen ==> x < |body|
      decreases |body| - |seen|
    {
      if pos in seen {
        ComesBack(body, n, pos);
        return Endless;
      }
      NextTurn(body, n);
      BelowCount(seen + {pos}, |body|);
      seen := seen + {pos};
      var line := ReadLine(body, pos);
      if line.NoLine? { return Kept; }
      var size := ParseSize(line.text);
      if size.None? { return Kept; }
      pos := line.next;
      if size.value == 0 { return Done(dechunked); }
      var end := (pos + size.value) % WORD;
      if end > |body| { return Kept; }
      dechunked := dechunked + Substr(body, pos, size.value);
      pos := SkipBreak(body, end);
      n := n + 1;
    }
    NextTurn(body, n);
    o := Done(dechunked);
  }

  lemma FirstTurn(body: string)
    ensures After(body, 0) == Running(0, "") && Visited(body, 0) == {}
  {
  }

  lemma NextTurn(body: string, n: nat)
    requires After(body, n).Running?
    ensures After(body, n + 1) == Turn(body, After(body, n))
    ensures Visited(body, n + 1) == Visited(body, n) + {After(body, n).pos}
  {
    hide HopAt;
  }

  lemma ComesBack(body: string, n: nat, pos: nat)
    requires After(body, n).Running? && After(body, n).pos == pos && pos in Visited(body, n)
    ensures Yields(body, Endless)
  {
    hide After;
    var i :| 0 <= i < n && After(body, i).Running? && After(body, i).pos == pos;
    assert Revisits(body, i, n);
    forall m: nat ensures After(body, m).Running? { RevisitedRunsOn(body, i, n, m); }
  }

  /** The loop never ends exactly when it meets a position twice. */
  lemma EndlessExactly(body: string)
    ensures Yields(body, Endless) <==> exists i, j :: Revisits(body, i, j)
  {
    hide After;
    if exists i, j :: Revisits(body, i, j) {
      var i, j :| Revisits(body, i, j);
      forall m: nat ensures After(body, m).Running? { RevisitedRunsOn(body, i, j, m); }
    }
    if Yields(body, Endless) && !exists i, j :: Revisits(body, i, j) {
      AllDistinct(body, |body| + 1);
      HopsBelow(body, |body| + 1);
      BelowCount(Visited(body, |body| + 1), |body|);
    }
  }

  lemma {:induction false} AllDistinct(body: string, n: nat)
    requires Yields(body, Endless) && !exists i, j :: Revisits(body, i, j)
    ensures |Visited(body, n)| == n
    decreases n
  {
    hide After;
    if n == 0 {
      FirstTurn(body);
    } else {
      AllDistinct(body, n - 1);
      NextTurn(body, n - 1);
      forall i: nat | i < n - 1 ensures After(body, i).pos != After(body, n - 1).pos {
        assert !Revisits(body, i, n - 1);
      }
    }
  }

  lemma HopsBelow(body: string, n: nat)
    requires Yields(body, Endless)
    ensures forall x :: x in Visited(body, n) ==> x < |body|
  {
    hide After, HopAt;
    forall i: nat | i < n ensures After(body, i).pos < |body| {
      NextTurn(body, i);
      assert After(body, i + 1).Running?;
      var h := HopAt(body, After(body, i).pos);
    }
  }

  // ---- sizes that overflow ----

  /** The size line read at `pos` names a chunk whose end does not fit size_t. */
  predicate Overflows(body: string, pos: nat)
    requires pos <= |body|
  {
    pos < |body| && ReadLine(body, pos).SizeLine?
    && var l := ReadLine(body, pos);
       ParseSize(l.text).Some? && ParseSize(l.text).value > 0 && l.next + ParseSize(l.text).value >= WORD
  }

  /** Some turn of the loop reads such a line. */
  ghost predicate ReadsOverflow(body: string) {
    exists n :: After(body, n).Running? && Overflows(body, After(body, n).pos)
  }

  /** A turn's end of data lies before its beginning exactly when its size overflows; otherwise it goes forward. */
  lemma WrapsExactly(body: string, pos: nat)
    requires pos < |body| < WORD && ReadLine(body, pos).SizeLine?
    requires ParseSize(ReadLine(body, pos).text).Some? && ParseSize(ReadLine(body, pos).text).value > 0
    ensures var l := ReadLine(body, pos); var size := ParseSize(l.text).value;
      && ((l.next + size) % WORD < l.next <==> Overflows(body, pos))
      && (!Overflows(body, pos) && HopAt(body, pos).Chunked? ==> HopAt(body, pos).next > pos)
  {
    hide ReadLine, SkipBreak, Substr;
    var l := ReadLine(body, pos);
    SizeFits(l.text);
    var size := ParseSize(l.text).value;
    if l.next + size >= WORD {
      assert (l.next + size) % WORD == l.next + size - WORD;
    }
  }

  lemma SizeFits(text: string)
    requires ParseSize(text).Some?
    ensures ParseSize(text).value < WORD
  {
    hide Magnitude, SkipSpace;
  }

  lemma ForwardHop(body: string, pos: nat)
    requires pos <= |body| < WORD && HopAt(body, pos).Chunked? && !Overflows(body, pos)
    ensures HopAt(body, pos).next > pos
  {
    hide ReadLine, SkipBreak, Substr, ParseSize;
    WrapsExactly(body, pos);
  }

  /** Without such a size the position only grows. */
  lemma {:induction false} PositionsGrow(body: string, n: nat)
    requires |body| < WORD && !ReadsOverflow(body) && After(body, n).Running?
    ensures After(body, n).pos >= n
    decreases n
  {
    hide HopAt, Overflows;
    if n > 0 {
      NextTurn(body, n - 1);
      PositionsGrow(body, n - 1);
      assert !Overflows(body, After(body, n - 1).pos);
      ForwardHop(body, After(body, n - 1).pos);
    }
  }

  /** The loop ends on every body unless it reads a size that overflows. */
  lemma EndsUnlessOverflow(body: string)
    requires |body| < WORD && !ReadsOverflow(body)
    ensures After(body, |body| + 1).Stopped?
    ensures !Yields(body, Endless)
  {
    hide After;
    if After(body, |body| + 1).Running? {
      PositionsGrow(body, |body| + 1);
    }
  }

  lemma MinusFourLine()
    ensures var body := "-4\r\n";
      ReadLine(body, 0) == SizeLine("-4", 4) && ParseSize("-4") == Some(WORD - 4) && HopAt(body, 0) == Chunked("", 0)
  {
    hide ParseSize, Find;
    var body := "-4\r\n";
    MinusRead("4", 4);
    assert "-" + "4" == "-4";
    OccursStartsAt(body, "\r\n", 0);
    OccursStartsAt(body, "\r\n", 1);
    assert !OccursAt(body, "\r\n", 0) && !OccursAt(body, "\r\n", 1);
    assert body[2..4] == "\r\n";
    FindIs(body, "\r\n", 0, 2);
    assert body[0..2] == "-4" && FindChar("-4", ';', 0) == -1;
    assert body[4..] == "";
  }

  /** "-4" is read as 2^64 - 4, and the position after it is the start again: nothing is decoded, for ever. */
  lemma MinusFourNeverEnds()
    ensures Yields("-4\r\n", Endless)
  {
    hide HopAt, ReadLine, ParseSize;
    var body := "-4\r\n";
    MinusFourLine();
    FirstTurn(body);
    ChunkTurn(body, 0, 0, "", "", 0);
    assert Revisits(body, 0, 1);
    EndlessExactly(body);
  }

  lemma MinusOneLine()
    ensures var body := "-1\n";
      ReadLine(body, 0) == SizeLine("-1", 3) && ParseSize("-1") == Some(WORD - 1) && HopAt(body, 0) == Chunked("", 3)
  {
    hide ParseSize, Find;
    var body := "-1\n";
    MinusRead("1", 1);
    assert "-" + "1" == "-1";
    NoBreak(body);
    OccursStartsAt(body, "\n", 0);
    OccursStartsAt(body, "\n", 1);
    FindIs(body, "\n", 0, 2);
    assert body[0..2] == "-1" && FindChar("-1", ';', 0) == -1;
    assert body[3..] == "";
  }

  /** "-1" overflows too, but its end falls on its own line break, so the loop goes on and ends. */
  lemma MinusOneEnds()
    ensures ReadsOverflow("-1\n") && Yields("-1\n", Done(""))
  {
    hide ReadLine, ParseSize, HopAt;
    var body := "-1\n";
    MinusOneLine();
    FirstTurn(body);
    ChunkTurn(body, 0, 0, "", "", 3);
    NextTurn(body, 1);
    HaltsAtEnd(body);
    assert After(body, 2) == Stopped(true, "");
    assert Overflows(body, After(body, 0).pos);
  }

  lemma HaltsAtEnd(body: string)
    ensures HopAt(body, |body|) == Halt(true)
  {
  }

  lemma NoBreak(body: string)
    requires '\r' !in body
    ensures Find(body, "\r\n", 0) == -1
  {
    forall i: nat | i < |body| ensures !OccursAt(body, "\r\n", i) {
      OccursStartsAt(body, "\r\n", i);
    }
  }

  /** A minus sign negates modulo the word. */
  lemma MinusRead(digit: string, n: nat)
    requires |digit| == 1 && ChunkSize(digit, n) && 0 < n
    ensures ParseSize("-" + digit) == Some(WORD - n)
  {
    var s := "-" + digit;
    assert s[1..] == digit;
    HexRunIs(digit, "");
    assert digit + "" == digit && digit[..1] == digit;
    OneHex(digit);
  }

  lemma OneHex(digit: string)
    requires |digit| == 1 && IsHex(digit[0])
    ensures HexValue(digit) < 16
  {
    assert digit[..0] == "";
  }

  // ---- bodies that are not chunked text ----

  /** A size starts, after white space and a sign, with a hexadecimal digit. */
  lemma NoSize(text: string)
    requires text == "" || !(IsSpace(text[0]) || text[0] == '-' || text[0] == '+' || IsHex(text[0]))
    ensures ParseSize(text) == None
  {
  }

  /** A size of 2^64 or more is out of range. */
  lemma TooLarge(size: string, n: nat)
    requires ChunkSize(size, n) && n >= WORD
    ensures ParseSize(size) == None
  {
    hide HexValue;
    HexRunIs(size, "");
    assert size + "" == size;
    assert size[0] != '-' && size[0] != '+' && !IsSpace(size[0]);
    assert |size| > 1 ==> IsHex(size[1]);
    assert size[..|size|] == size;
    assert Magnitude(size) == Some(n);
  }

  /** A body is kept as received when a line that is read ends nowhere or holds no size. */
  lemma UnreadableIsKept(body: string, n: nat)
    requires After(body, n).Running? && After(body, n).pos < |body|
    requires var l := ReadLine(body, After(body, n).pos); l.SizeLine? ==> ParseSize(l.text).None?
    ensures Yields(body, Kept)
  {
    hide ReadLine, ParseSize;
    assert After(body, n + 1) == Turn(body, After(body, n));
    assert After(body, n + 1).Stopped? && !After(body, n + 1).complete;
  }

  datatype Response = Response(headers: map<string, string>, body: string)

  predicate IsChunked(r: Response) {
    "transfer-encoding" in r.headers && Find(r.headers["transfer-encoding"], "chunked", 0) != -1
  }

  lemma FindsExactly(s: string, pat: string)
    ensures Find(s, pat, 0) != -1 <==> StandsIn(s, pat)
  {
    var i := Find(s, pat, 0);
    if i != -1 {
      assert s[..i] + pat + s[i + |pat|..] == s;
    }
    if a, b :| s == a + pat + b {
      assert s[|a|..|a| + |pat|] == pat;
      assert OccursAt(s, pat, |a|);
    }
  }

  /** A response is chunked when its transfer coding names "chunked" anywhere. */
  lemma ChunkedExactly(r: Response)
    ensures IsChunked(r) <==>
      "transfer-encoding" in r.headers && StandsIn(r.headers["transfer-encoding"], "chunked")
  {
    if "transfer-encoding" in r.headers {
      FindsExactly(r.headers["transfer-encoding"], "chunked");
    }
  }

  function Replaced(r: Response, body: string): Response {
    Response((r.headers - {"transfer-encoding"})["content-length" := ToText(|body|)], body)
  }

  /** A decoded body replaces the coded one, with its length; otherwise nothing changes. */
  method DechunkResponse(r: Response) returns (out: Response, o: Option<Outcome>)
    ensures o.Some? <==> IsChunked(r)
    ensures o.Some? ==> Yields(r.body, o.value)
    ensures out == if o.Some? && o.value.Done? then Replaced(r, o.value.body) else r
    ensures o.Some? && o.value.Done? ==>
      && out.body == o.value.body && "transfer-encoding" !in out.headers
      && "content-length" in out.headers && out.headers["content-length"] == ToText(|out.body|)
      && forall h :: h != "transfer-encoding" && h != "content-length" ==>
        (h in out.headers <==> h in r.headers) && (h in r.headers ==> out.headers[h] == r.headers[h])
  {
    out, o := r, None;
    if IsChunked(r) {
      var outcome := DecodeBody(r.body);
      o := Some(outcome);
      if outcome.Done? {
        var headers := r.headers - {"transfer-encoding"};
        headers := headers["content-length" := ToText(|outcome.body|)];
        out := Response(headers, outcome.body);
      }
    }
  }

  // ---- section 7.1 of RFC 9112 ----

  /** `size` is the chunk-size text, `ext` the chunk extensions with the white space before them. */
  datatype Chunk = Chunk(size: string, ext: string, data: string)

  predicate Extension(ext: string) {
    && (ext != "" ==> ext[0] == ';' || ext[0] == ' ' || ext[0] == '\t')
    && '\r' !in ext && '\n' !in ext
  }

  ghost predicate ChunkSize(size: string, n: nat) {
    && size != "" && (forall i :: 0 <= i < |size| ==> IsHex(size[i]))
    && HexValue(size) == n
  }

  /** A size as it is written: its hexadecimal digits, in the letters of one case. */
  function SizeText(n: nat, digits: string): string
    requires |digits| == 16
  {
    if n < 16 then [digits[n]] else SizeText(n / 16, digits) + [digits[n % 16]]
  }

  lemma HexLast(s: string)
    requires forall i :: 0 <= i < |s| ==> IsHex(s[i])
    ensures HexValue("") == 0
    ensures s != "" ==>
      var init := s[..|s| - 1]; var last := s[|s| - 1];
      (forall i :: 0 <= i < |init| ==> IsHex(init[i])) && IsHex(last)
      && HexValue(s) == HexValue(init) * 16 + HexDigit(last).value
  {
    hide HexDigit;
  }

  lemma {:induction false} SizeWritten(n: nat, digits: string)
    requires digits == SMALL_DIGITS || digits == LARGE_DIGITS
    ensures ChunkSize(SizeText(n, digits), n)
    decreases n
  {
    hide HexDigit, HexValue;
    var s := SizeText(n, digits);
    var init, last := s[..|s| - 1], s[|s| - 1];
    HexDigitExactly(last, n % 16);
    assert last == digits[n % 16] && IsHex(last);
    if n >= 16 {
      SizeWritten(n / 16, digits);
      assert init == SizeText(n / 16, digits);
      assert HexValue(init) == n / 16;
    } else {
      assert init == "";
    }
    forall i | 0 <= i < |s| ensures IsHex(s[i]) {
      assert i < |init| ==> s[i] == init[i];
    }
    HexLast(s);
  }

  ghost predicate WellFormed(c: Chunk) {
    c.data != "" && ChunkSize(c.size, |c.data|) && Extension(c.ext)
  }

  function EncodeChunk(c: Chunk): string { c.size + c.ext + "\r\n" + (c.data + "\r\n") }

  /** The chunks, then `tail`: a last chunk and what follows it, or less. */
  function Encode(chunks: seq<Chunk>, tail: string): string
    decreases |chunks|
  {
    if chunks == [] then tail else EncodeChunk(chunks[0]) + Encode(chunks[1..], tail)
  }

  function Data(chunks: seq<Chunk>): string
    decreases |chunks|
  {
    if chunks == [] then "" else chunks[0].data + Data(chunks[1..])
  }

  lemma FindIs(s: string, pat: string, start: nat, at: int)
    requires start <= at && OccursAt(s, pat, at)
    requires forall i :: start <= i < at ==> !OccursAt(s, pat, i)
    ensures Find(s, pat, start) == at
  {}

  lemma {:induction false} HexRunIs(size: string, rest: string)
    requires forall i :: 0 <= i < |size| ==> IsHex(size[i])
    requires rest != "" ==> !IsHex(rest[0])
    ensures HexRun(size + rest) == |size|
    decreases |size|
  {
    if size == "" {
      assert size + rest == rest;
    } else {
      assert (size + rest)[1..] == size[1..] + rest;
      HexRunIs(size[1..], rest);
    }
  }

  /** A size text is read in full whatever white space follows it. */
  lemma SizeRead(size: string, n: nat, rest: string)
    requires ChunkSize(size, n) && n < WORD
    requires rest != "" ==> rest[0] == ' ' || rest[0] == '\t'
    ensures ParseSize(size + rest) == Some(n)
  {
    hide HexValue;
    var s := size + rest;
    assert s[0] == size[0] && IsHex(s[0]);
    assert |s| > 1 ==> s[1] == if |size| > 1 then size[1] else rest[0];
    assert |size| > 1 ==> IsHex(size[1]);
    HexRunIs(size, rest);
    assert s[..|size|] == size;
    assert Magnitude(s) == Some(n);
  }

  /** Cutting the extensions off at the first ';' leaves at most white space after the size. */
  lemma ExtensionCut(size: string, n: nat, ext: string)
    requires ChunkSize(size, n) && n < WORD && Extension(ext)
    ensures var text := size + ext; var at := FindChar(text, ';', 0);
      ParseSize(if at == -1 then text else text[..at]) == Some(n)
  {
    hide HexValue, ParseSize;
    var text := size + ext;
    var at := FindChar(text, ';', 0);
    if at == -1 {
      assert ext != "" ==> text[|size|] == ext[0];
      SizeRead(size, n, ext);
    } else {
      assert forall i :: 0 <= i < |size| ==> text[i] == size[i] && IsHex(size[i]);
      assert |size| <= at;
      assert text[..at] == size + ext[..at - |size|];
      SizeRead(size, n, ext[..at - |size|]);
    }
  }

  /** The size line of a chunk is read as its size, up to its line break. */
  lemma LineRead(body: string, pos: nat, size: string, n: nat, ext: string, rest: string)
    requires pos <= |body| && body[pos..] == size + ext + "\r\n" + rest
    requires ChunkSize(size, n) && n < WORD && Extension(ext)
    ensures pos < |body|
    ensures var l := ReadLine(body, pos);
      && l.SizeLine? && ParseSize(l.text) == Some(n)
      && l.next == pos + |size| + |ext| + 2 && body[l.next..] == rest
  {
    hide HexValue, ParseSize, OccursAt;
    var head := size + ext;
    var end := pos + |head|;
    assert body[pos..] == head + "\r\n" + rest;
    assert body[pos..end] == head by { assert body[pos..][..|head|] == head; }
    BreakAt(body, pos, head, rest);
    FindIs(body, "\r\n", pos, end);
    ExtensionCut(size, n, ext);
    assert body[end + 2..] == body[pos..][|head| + 2..] == rest;
  }

  lemma OccursStartsAt(s: string, pat: string, i: nat)
    requires i < |s| && pat != ""
    ensures OccursAt(s, pat, i) ==> s[i] == pat[0]
  {
    if OccursAt(s, pat, i) {
      assert s[i..i + |pat|][0] == s[i];
    }
  }

  /** The first line break is the one after a head without any. */
  lemma BreakAt(body: string, pos: nat, head: string, rest: string)
    requires pos <= |body| && body[pos..] == head + "\r\n" + rest && '\r' !in head
    ensures OccursAt(body, "\r\n", pos + |head|)
    ensures forall i :: pos <= i < pos + |head| ==> !OccursAt(body, "\r\n", i)
  {
    var end := pos + |head|;
    assert body[end..end + 2] == body[pos..][|head|..|head| + 2] == "\r\n";
    forall i | pos <= i < end ensures !OccursAt(body, "\r\n", i) {
      assert body[i] == body[pos..][i - pos] == head[i - pos];
      OccursStartsAt(body, "\r\n", i);
    }
  }

  /** The data of a chunk, and the line break after it, where the size line says. */
  lemma DataRead(body: string, next: nat, data: string, rest: string)
    requires next <= |body| && body[next..] == data + "\r\n" + rest
    ensures var end := next + |data|;
      && end + 2 <= |body| && body[next..end] == data
      && SkipBreak(body, end) == end + 2 && body[end + 2..] == rest
  {
    var end := next + |data|;
    assert body[next..end] == body[next..][..|data|];
    assert body[end] == body[next..][|data|] && body[end + 1] == body[next..][|data| + 1];
    assert body[end + 2..] == body[next..][|data| + 2..];
  }

  /** One chunk is taken whole, and the loop goes on right after it. */
  lemma ChunkTaken(body: string, pos: nat, c: Chunk, rest: string)
    requires pos <= |body| < WORD && body[pos..] == EncodeChunk(c) + rest && WellFormed(c)
    ensures pos + |EncodeChunk(c)| <= |body| && body[pos + |EncodeChunk(c)|..] == rest
    ensures HopAt(body, pos) == Chunked(c.data, pos + |EncodeChunk(c)|)
  {
    hide ReadLine, ParseSize, HexValue, SkipBreak;
    var after := c.data + "\r\n" + rest;
    assert body[pos..] == c.size + c.ext + "\r\n" + after;
    assert |c.data| <= |body[pos..]|;
    LineRead(body, pos, c.size, |c.data|, c.ext, after);
    DataRead(body, pos + |c.size| + |c.ext| + 2, c.data, rest);
  }

  lemma EncodeUnfolds(chunks: seq<Chunk>, tail: string)
    ensures chunks == [] ==> Encode(chunks, tail) == tail && Data(chunks) == ""
    ensures chunks != [] ==>
      && Encode(chunks, tail) == EncodeChunk(chunks[0]) + Encode(chunks[1..], tail)
      && Data(chunks) == chunks[0].data + Data(chunks[1..])
  {
  }

  lemma ChunkTurn(body: string, n: nat, pos: nat, text: string, data: string, next: nat)
    requires After(body, n) == Running(pos, text) && pos <= |body| && HopAt(body, pos) == Chunked(data, next)
    ensures After(body, n + 1) == Running(next, text + data)
  {
    hide HopAt;
  }

  /** The loop goes through all the chunks, a turn each, to their tail. */
  lemma {:induction false} ChunksTaken(body: string, n: nat, pos: nat, text: string, chunks: seq<Chunk>, tail: string)
    requires pos <= |body| < WORD && body[pos..] == Encode(chunks, tail)
    requires After(body, n) == Running(pos, text)
    requires forall c :: c in chunks ==> WellFormed(c)
    ensures |tail| <= |body| && body[|body| - |tail|..] == tail
    ensures After(body, n + |chunks|) == Running(|body| - |tail|, text + Data(chunks))
    decreases |chunks|
  {
    hide After, HopAt, Turn, WellFormed, EncodeChunk, Encode, Data, Within;
    EncodeUnfolds(chunks, tail);
    if chunks == [] {
      assert text + "" == text;
    } else {
      ChunkTaken(body, pos, chunks[0], Encode(chunks[1..], tail));
      ChunkTurn(body, n, pos, text, chunks[0].data, pos + |EncodeChunk(chunks[0])|);
      ChunksTaken(body, n + 1, pos + |EncodeChunk(chunks[0])|, text + chunks[0].data, chunks[1..], tail);
      Regroup(text, chunks[0].data, Data(chunks[1..]));
    }
  }

  /** All the chunks of an encoding are taken, from the start of the body. */
  lemma ToTail(chunks: seq<Chunk>, tail: string)
    requires forall c :: c in chunks ==> WellFormed(c)
    requires |Encode(chunks, tail)| < WORD
    ensures var body := Encode(chunks, tail);
      && |tail| <= |body| && body[|body| - |tail|..] == tail
      && After(body, |chunks|) == Running(|body| - |tail|, Data(chunks))
  {
    hide After, Encode, Data, WellFormed;
    var body := Encode(chunks, tail);
    FirstTurn(body);
    assert body[0..] == body && "" + Data(chunks) == Data(chunks);
    ChunksTaken(body, 0, 0, "", chunks, tail);
  }

  /**
   Any encoding of a body by the standard decodes to that body: sizes in either
   case or with leading zeros, extensions, and any trailer after the last chunk.
   */
  lemma DecodesEncoding(chunks: seq<Chunk>, zeros: string, ext: string, trailer: string)
    requires forall c :: c in chunks ==> WellFormed(c)
    requires ChunkSize(zeros, 0) && Extension(ext)
    requires |Encode(chunks, zeros + ext + "\r\n" + trailer)| < WORD
    ensures Yields(Encode(chunks, zeros + ext + "\r\n" + trailer), Done(Data(chunks)))
  {
    hide After, Encode, Data, ReadLine, ParseSize, HexValue, WellFormed;
    var tail := zeros + ext + "\r\n" + trailer;
    var body := Encode(chunks, tail);
    ToTail(chunks, tail);
    LineRead(body, |body| - |tail|, zeros, 0, ext, trailer);
    NextTurn(body, |chunks|);
    assert After(body, |chunks| + 1) == Stopped(true, Data(chunks));
  }

  /** A body cut between two chunks is taken as complete. */
  lemma CutBetweenChunks(chunks: seq<Chunk>)
    requires forall c :: c in chunks ==> WellFormed(c)
    requires |Encode(chunks, "")| < WORD
    ensures Yields(Encode(chunks, ""), Done(Data(chunks)))
  {
    hide After, Encode, Data, WellFormed;
    var body := Encode(chunks, "");
    ToTail(chunks, "");
    NextTurn(body, |chunks|);
    assert After(body, |chunks| + 1) == Stopped(true, Data(chunks));
  }

  /** A body cut inside a chunk's data is left as it came. */
  lemma CutInsideChunk(chunks: seq<Chunk>, c: Chunk, part: string)
    requires (forall d :: d in chunks ==> WellFormed(d)) && WellFormed(c)
    requires |part| < |c.data| && |Encode(chunks, c.size + c.ext + "\r\n" + part)| + |c.data| < WORD
    ensures Yields(Encode(chunks, c.size + c.ext + "\r\n" + part), Kept)
  {
    hide After, Encode, Data, ReadLine, ParseSize, HexValue, Substr, SkipBreak;
    var tail := c.size + c.ext + "\r\n" + part;
    var body := Encode(chunks, tail);
    ToTail(chunks, tail);
    LineRead(body, |body| - |tail|, c.size, |c.data|, c.ext, part);
    NextTurn(body, |chunks|);
    assert After(body, |chunks| + 1).Stopped? && !After(body, |chunks| + 1).complete;
  }
}
