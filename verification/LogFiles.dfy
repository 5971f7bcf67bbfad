/** Audit log files as their readers see them: complete lines, oldest first, under a first line. */
module LogFiles {
  import opened Sequences
  import opened Options
  import opened TextSearch

  datatype LogFile = LogFile(first: string, lines: seq<string>)

  function StripReturn(line: string): string {
    if line != "" && line[|line| - 1] == '\r' then line[..|line| - 1] else line
  }

  /** The lines of `data`, a last piece without its newline left out. */
  function CompleteLines(data: string): seq<string>
    decreases |data|
  {
    var nl := FindChar(data, '\n', 0);
    if nl == -1 then [] else [StripReturn(data[..nl])] + CompleteLines(data[nl + 1..])
  }

  function FirstLine(data: string): string {
    var nl := FindChar(data, '\n', 0);
    StripReturn(if nl == -1 then data else data[..nl])
  }

  function Capped(data: string, cap: Option<nat>): string {
    if cap.Some? && cap.value < |data| then data[..cap.value] else data
  }

  method ReadLines(data: string, cap: Option<nat>) returns (lines: seq<string>)
    ensures lines == CompleteLines(Capped(data, cap))
  {
    hide StripReturn, CompleteLines;
    var text := Capped(data, cap);
    lines := [];
    var start := 0;
    WholeText(text);
    while start < |text|
      invariant 0 <= start <= |text|
      invariant lines + CompleteLines(text[start..]) == CompleteLines(text)
    {
      var nl := FindChar(text, '\n', start);
      LinesFrom(text, start);
      if nl == -1 { break; }
      Regroup(lines, [StripReturn(text[start..nl])], CompleteLines(text[nl + 1..]));
      lines := lines + [StripReturn(text[start..nl])];
      start := nl + 1;
    }
    LinesFrom(text, start);
  }

  lemma WholeText(text: string)
    ensures [] + CompleteLines(text[0..]) == CompleteLines(text)
  {
    assert text[0..] == text;
  }

  lemma LinesFrom(text: string, start: nat)
    requires start <= |text|
    ensures var nl := FindChar(text, '\n', start);
      CompleteLines(text[start..]) ==
        if nl == -1 then [] else [StripReturn(text[start..nl])] + CompleteLines(text[nl + 1..])
  {
    FindInRest(text, start);
    var nl := FindChar(text, '\n', start);
    if nl != -1 {
      assert text[start..][..nl - start] == text[start..nl];
      assert text[start..][nl - start + 1..] == text[nl + 1..];
    }
  }

  lemma FindInRest(s: string, start: nat)
    requires start <= |s|
    ensures FindChar(s[start..], '\n', 0) ==
      if FindChar(s, '\n', start) == -1 then -1 else FindChar(s, '\n', start) - start
  {
    var nl := FindChar(s, '\n', start);
    if nl != -1 {
      FindCharIs(s[start..], '\n', 0, nl - start);
    }
  }

  // ---- lines as they were written ----

  /** A line that reads back: no line feed in it, and no carriage return at its end. */
  predicate IsLine(line: string) {
    '\n' !in line && (line != "" ==> line[|line| - 1] != '\r')
  }

  /** Lines as written, each with its own line end: a line feed, with or without a carriage return. */
  function Written(lines: seq<string>, returns': seq<bool>): string
    requires |returns'| == |lines|
    decreases |lines|
  {
    if lines == [] then ""
    else lines[0] + (if returns'[0] then "\r\n" else "\n") + Written(lines[1..], returns'[1..])
  }

  lemma LineCut(line: string, ret: bool, rest: string)
    requires IsLine(line)
    ensures var data := line + (if ret then "\r\n" else "\n") + rest;
      && FirstLine(data) == line
      && CompleteLines(data) == [line] + CompleteLines(rest)
  {
    hide CompleteLines;
    var end := if ret then "\r\n" else "\n";
    var data := line + end + rest;
    var nl := |line| + |end| - 1;
    assert data[nl] == '\n';
    FindCharIs(data, '\n', 0, nl);
    assert data[..nl] == line + end[..|end| - 1];
    assert data[nl + 1..] == rest;
    assert line + "" == line;
    assert (line + "\r")[..|line|] == line;
    CompleteNext(data);
  }

  lemma CompleteNext(data: string)
    ensures var nl := FindChar(data, '\n', 0);
      CompleteLines(data) == if nl == -1 then [] else [StripReturn(data[..nl])] + CompleteLines(data[nl + 1..])
  {
    hide StripReturn;
  }

  /** What was written line by line is read line by line; a piece without its line end is left out. */
  lemma {:induction false} LinesReadBack(lines: seq<string>, returns': seq<bool>, tail: string)
    requires |returns'| == |lines| && (forall k :: 0 <= k < |lines| ==> IsLine(lines[k])) && '\n' !in tail
    ensures CompleteLines(Written(lines, returns') + tail) == lines
    ensures lines != [] ==> FirstLine(Written(lines, returns') + tail) == lines[0]
    decreases |lines|
  {
    hide CompleteLines, FirstLine, IsLine;
    if lines == [] {
      assert "" + tail == tail;
      CompleteNext(tail);
    } else {
      var rest := Written(lines[1..], returns'[1..]) + tail;
      LinesReadBack(lines[1..], returns'[1..], tail);
      LineCut(lines[0], returns'[0], rest);
      var end := if returns'[0] then "\r\n" else "\n";
      assert Written(lines, returns') + tail == lines[0] + end + rest;
    }
  }

  /** The files with the newest first capped at the size seen under the lock. */
  function Opened(files: seq<string>, cap: Option<nat>): (r: seq<LogFile>)
    ensures |r| == |files|
    ensures forall i :: 0 <= i < |r| ==>
      r[i] == LogFile(FirstLine(files[i]), CompleteLines(Capped(files[i], if i == 0 then cap else None)))
  {
    seq(|files|, i requires 0 <= i < |files| =>
      LogFile(FirstLine(files[i]), CompleteLines(Capped(files[i], if i == 0 then cap else None))))
  }

  predicate SoundFile(f: LogFile) {
    f.lines != [] ==> f.first == f.lines[0]
  }

  /** A file with a complete line is named by that line, capped or not. */
  lemma OpenedSound(data: string, cap: Option<nat>)
    ensures SoundFile(LogFile(FirstLine(data), CompleteLines(Capped(data, cap))))
  {
    var text := Capped(data, cap);
    var nl := FindChar(text, '\n', 0);
    if nl != -1 {
      FindCharIs(data, '\n', 0, nl);
      assert text[..nl] == data[..nl];
    }
  }

  /**
   What can happen to the list between two reads: lines appended to the newest
   file, and newer files started above it (a rotation only renames a file).
   */
  ghost predicate Extends(before: seq<LogFile>, after: seq<LogFile>) {
    && |before| <= |after|
    && var k := |after| - |before|;
       forall i :: 0 <= i < |before| ==> Grown(before[i], after[k + i], i == 0)
  }

  predicate Grown(before: LogFile, after: LogFile, newest: bool) {
    && before.lines <= after.lines
    && (before.lines != [] ==> after.first == before.first)
    && (!newest ==> before == after)
  }

  lemma ExtendsRefl(a: seq<LogFile>)
    ensures Extends(a, a)
  {
  }

  lemma ExtendsTransitive(a: seq<LogFile>, b: seq<LogFile>, c: seq<LogFile>)
    requires Extends(a, b) && Extends(b, c)
    ensures Extends(a, c)
  {
    var j, k := |b| - |a|, |c| - |b|;
    forall i | 0 <= i < |a| ensures Grown(a[i], c[k + j + i], i == 0) {
      assert Grown(a[i], b[j + i], i == 0);
      assert Grown(b[j + i], c[k + (j + i)], j + i == 0);
    }
  }

  // ---- what happens to the bytes ----

  /** The files as frozen for one read: their bytes, newest first, and the size the newest is read up to. */
  datatype Frozen = Frozen(files: seq<string>, cap: Option<nat>)

  /** The bytes of file `i` that are read. */
  function Read(w: Frozen, i: nat): string
    requires i < |w.files|
  {
    Capped(w.files[i], if i == 0 then w.cap else None)
  }

  /**
   Between two reads bytes were appended to the newest file, its cap rose or was
   dropped, and newer files may have been started above it; no file went away.
   */
  ghost predicate BytesGrow(before: Frozen, after: Frozen) {
    && |before.files| <= |after.files|
    && var k := |after.files| - |before.files|;
       forall i :: 0 <= i < |before.files| ==>
         if i == 0 then before.files[0] <= after.files[k] && Read(before, 0) <= Read(after, k)
         else after.files[k + i] == before.files[i]
  }

  function View(w: Frozen): seq<LogFile> { Opened(w.files, w.cap) }

  lemma {:induction false} CompletePrefix(a: string, b: string)
    ensures CompleteLines(a) <= CompleteLines(a + b)
    decreases |a|
  {
    hide StripReturn;
    var nl := FindChar(a, '\n', 0);
    if nl != -1 {
      FindCharIs(a + b, '\n', 0, nl);
      assert (a + b)[..nl] == a[..nl] && (a + b)[nl + 1..] == a[nl + 1..] + b;
      CompletePrefix(a[nl + 1..], b);
    }
  }

  /** More bytes complete a half-written line and add others; they change no complete line. */
  lemma LinesOnlyGrow(a: string, b: string)
    requires a <= b
    ensures CompleteLines(a) <= CompleteLines(b)
    ensures CompleteLines(a) != [] ==> FirstLine(b) == FirstLine(a)
  {
    CompletePrefix(a, b[|a|..]);
    assert a + b[|a|..] == b;
    var nl := FindChar(a, '\n', 0);
    if nl != -1 {
      FindCharIs(b, '\n', 0, nl);
      assert b[..nl] == a[..nl];
    }
  }

  /** A file as it is seen; with a complete line read, it is named by the first of them. */
  lemma SeenAt(w: Frozen, i: nat)
    requires i < |w.files|
    ensures |View(w)| == |w.files|
    ensures View(w)[i] == LogFile(FirstLine(w.files[i]), CompleteLines(Read(w, i)))
    ensures SoundFile(View(w)[i])
  {
    OpenedSound(w.files[i], if i == 0 then w.cap else None);
  }

  lemma NewestGrown(a: string, readA: string, b: string, readB: string)
    requires readA <= readB && readA <= a && readB <= b && a <= b
    ensures Grown(LogFile(FirstLine(a), CompleteLines(readA)), LogFile(FirstLine(b), CompleteLines(readB)), true)
  {
    hide CompleteLines, FirstLine;
    LinesOnlyGrow(readA, readB);
    LinesOnlyGrow(readA, a);
    LinesOnlyGrow(readA, b);
  }

  lemma GrownAt(before: Frozen, after: Frozen, i: nat)
    requires BytesGrow(before, after) && i < |before.files|
    ensures var k := |after.files| - |before.files|;
      |View(before)| == |before.files| && |View(after)| == |after.files|
      && Grown(View(before)[i], View(after)[k + i], i == 0)
  {
    hide CompleteLines, FirstLine, SoundFile, View, Grown, Capped;
    var k := |after.files| - |before.files|;
    SeenAt(before, i);
    SeenAt(after, k + i);
    if i == 0 {
      ReadWithin(before.files[0], before.cap);
      ReadWithin(after.files[k], if k == 0 then after.cap else None);
      NewestGrown(before.files[0], Read(before, 0), after.files[k], Read(after, k));
    } else {
      ReadWhole(before.files[i]);
      GrownSame(View(before)[i]);
    }
  }

  lemma ReadWhole(data: string)
    ensures Capped(data, None) == data
  {
  }

  lemma GrownSame(f: LogFile)
    ensures Grown(f, f, false)
  {
  }

  /** Growth of the bytes is growth of what the readers see. */
  lemma BytesGrowExtends(before: Frozen, after: Frozen)
    requires BytesGrow(before, after)
    ensures Extends(View(before), View(after))
  {
    hide View, Grown, Read;
    var k := |after.files| - |before.files|;
    SeenLengths(before);
    SeenLengths(after);
    forall i | 0 <= i < |before.files| ensures Grown(View(before)[i], View(after)[k + i], i == 0) {
      GrownAt(before, after, i);
    }
  }

  lemma SeenLengths(w: Frozen)
    ensures |View(w)| == |w.files|
  {
  }

  lemma ReadWithin(data: string, cap: Option<nat>)
    ensures Capped(data, cap) <= data
  {
  }

  /** Bytes appended to the file being written, read up to a later size. */
  lemma AppendGrows(active: string, older: seq<string>, cap: Option<nat>, more: string, later: Option<nat>)
    requires later.Some? && later.value < |active + more| ==> cap.Some? && cap.value <= later.value
    ensures BytesGrow(Frozen([active] + older, cap), Frozen([active + more] + older, later))
  {
    var before, after := Frozen([active] + older, cap), Frozen([active + more] + older, later);
    assert active <= active + more;
    assert Read(before, 0) <= Read(after, 0);
  }

  /** A rotation renames the file and starts a new one above it; the old one is now read whole. */
  lemma RotationGrows(files: seq<string>, cap: Option<nat>, started: seq<string>, later: Option<nat>)
    requires started != []
    ensures BytesGrow(Frozen(files, cap), Frozen(started + files, later))
  {
    var before, after := Frozen(files, cap), Frozen(started + files, later);
    if files != [] {
      ReadWithin(files[0], cap);
      assert Read(after, |started|) == files[0];
    }
  }
}
