/**
 One line of the hash-chained audit log: how append_audit writes it and how
 verify_audit_chain takes it apart again.
 */
module AuditLine {
  import opened TextSearch

  const PREV_MARK := ",\"prevHash\":\""
  const HASH_MARK := "\"hash\":\""

  datatype Entry = Entry(canonical: string, prev: string, hash: string)

  datatype Parsed = Unchained | Damaged | Chained(entry: Entry)

  predicate QuoteFree(s: string) { forall k :: 0 <= k < |s| ==> s[k] != '"' }

  /** A canonical entry is a JSON object: it ends with its closing brace. */
  predicate IsObject(canonical: string) {
    canonical != "" && canonical[|canonical| - 1] == '}'
  }

  /** The chain fields, appended in place of the closing brace. */
  function Tail(prev: string, hash: string): string {
    PREV_MARK + prev + "\"," + HASH_MARK + hash + "\"}"
  }

  function Render(e: Entry): string {
    (if e.canonical == "" then "" else e.canonical[..|e.canonical| - 1]) + Tail(e.prev, e.hash)
  }

  function ParseLine(line: string): Parsed {
    var pp := RFind(line, PREV_MARK);
    var hp := RFind(line, HASH_MARK);
    if pp == -1 || hp == -1 || hp < pp then Unchained
    else
      var pvs := pp + |PREV_MARK|;
      var pve := FindChar(line, '"', pvs);
      var hvs := hp + |HASH_MARK|;
      var hve := FindChar(line, '"', hvs);
      if pve == -1 || hve == -1 then Damaged
      else Chained(Entry(line[..pp] + "}", line[pvs..pve], line[hvs..hve]))
  }

  // ---- what was written is what is read back, whatever the payload ----

  /** The characters of the tail, by position. */
  lemma TailAt(prev: string, hash: string, t: string)
    requires t == Tail(prev, hash)
    ensures |t| == 25 + |prev| + |hash|
    ensures t[..13] == PREV_MARK && t[13..13 + |prev|] == prev
    ensures t[13 + |prev|] == '"' && t[14 + |prev|] == ','
    ensures t[15 + |prev|..23 + |prev|] == HASH_MARK
    ensures t[23 + |prev|..23 + |prev| + |hash|] == hash
    ensures t[23 + |prev| + |hash|] == '"' && t[24 + |prev| + |hash|] == '}'
  {
    var a := PREV_MARK + prev;
    var b := a + "\",";
    var c := b + HASH_MARK;
    var d := c + hash;
    assert t == d + "\"}";
    assert t[..|d|] == d && d[..|c|] == c && c[..|b|] == b && b[..|a|] == a;
    assert t[..|c|] == c && t[..|b|] == b && t[..|a|] == a;
    assert t[13..13 + |prev|] == a[13..];
    assert t[15 + |prev|..23 + |prev|] == c[|b|..];
    assert t[23 + |prev|..23 + |prev| + |hash|] == d[|c|..];
    assert t[13 + |prev|] == b[|a|] && t[14 + |prev|] == b[|a| + 1];
    assert t[23 + |prev| + |hash|] == "\"}"[0];
  }

  /** Where the quotes of the tail are. */
  lemma TailQuotes(prev: string, hash: string, t: string, i: int)
    requires t == Tail(prev, hash) && QuoteFree(prev) && QuoteFree(hash)
    requires 0 <= i < |t|
    ensures t[i] == '"' ==>
      i in {1, 10, 12, 13 + |prev|, 15 + |prev|, 20 + |prev|, 22 + |prev|, 23 + |prev| + |hash|}
  {
    TailAt(prev, hash, t);
    var n := |prev|;
    assert i < 13 ==> t[i] == PREV_MARK[i];
    assert 13 <= i < 13 + n ==> t[i] == prev[i - 13];
    assert 15 + n <= i < 23 + n ==> t[i] == HASH_MARK[i - 15 - n];
    assert 23 + n <= i < 23 + n + |hash| ==> t[i] == hash[i - 23 - n];
  }

  /** The neighbours that tell those quotes apart. */
  lemma TailBeforeQuote(prev: string, hash: string, t: string)
    requires t == Tail(prev, hash)
    ensures |t| == 25 + |prev| + |hash|
    ensures t[9] == 'h' && t[11] == ':' && t[14 + |prev|] == ',' && t[16 + |prev|] == 'h'
    ensures t[19 + |prev|] == 'h' && t[21 + |prev|] == ':' && t[24 + |prev| + |hash|] == '}'
  {
    TailAt(prev, hash, t);
    var n := |prev|;
    assert t[9] == t[..13][9] && t[11] == t[..13][11];
    var m := t[15 + n..23 + n];
    assert t[16 + n] == m[1] && t[19 + n] == m[4] && t[21 + n] == m[6];
  }

  lemma OccurrenceChar(s: string, pat: string, i: int, k: nat)
    requires k < |pat|
    ensures OccursAt(s, pat, i) ==> s[i + k] == pat[k]
  {
    assert OccursAt(s, pat, i) ==> s[i..i + |pat|][k] == s[i + k];
  }

  /** No occurrence of the first marker after the one that was written. */
  lemma PrevMarkOnce(prev: string, hash: string, t: string, i: int)
    requires t == Tail(prev, hash) && QuoteFree(prev) && QuoteFree(hash) && 0 < i
    ensures !OccursAt(t, PREV_MARK, i)
  {
    TailBeforeQuote(prev, hash, t);
    if i + 13 <= |t| {
      OccurrenceChar(t, PREV_MARK, i, 0);
      OccurrenceChar(t, PREV_MARK, i, 1);
      OccurrenceChar(t, PREV_MARK, i, 2);
      TailQuotes(prev, hash, t, i + 1);
    }
  }

  lemma HashMarkOnce(prev: string, hash: string, t: string, i: int)
    requires t == Tail(prev, hash) && QuoteFree(prev) && QuoteFree(hash) && 15 + |prev| < i
    ensures !OccursAt(t, HASH_MARK, i)
  {
    TailBeforeQuote(prev, hash, t);
    if i + 8 <= |t| {
      OccurrenceChar(t, HASH_MARK, i, 0);
      OccurrenceChar(t, HASH_MARK, i, 1);
      OccurrenceChar(t, HASH_MARK, i, 5);
      OccurrenceChar(t, HASH_MARK, i, 6);
      TailQuotes(prev, hash, t, i);
      TailQuotes(prev, hash, t, i + 5);
    }
  }

  /** Where both markers of a rendered line are found. */
  lemma MarksOf(e: Entry, line: string)
    requires e.canonical != "" && QuoteFree(e.prev) && QuoteFree(e.hash) && line == Render(e)
    ensures RFind(line, PREV_MARK) == |e.canonical| - 1
    ensures RFind(line, HASH_MARK) == |e.canonical| - 1 + 15 + |e.prev|
  {
    var n, t := |e.canonical| - 1, Tail(e.prev, e.hash);
    TailAt(e.prev, e.hash, t);
    assert line[n..] == t;
    assert OccursAt(line, PREV_MARK, n) by { assert line[n..n + 13] == t[..13]; }
    var hp := n + 15 + |e.prev|;
    assert OccursAt(line, HASH_MARK, hp) by { assert line[hp..hp + 8] == t[15 + |e.prev|..23 + |e.prev|]; }
    forall i | n < i ensures !OccursAt(line, PREV_MARK, i) {
      PrevMarkOnce(e.prev, e.hash, t, i - n);
      OccursInSuffix(line, PREV_MARK, n, i);
    }
    forall i | hp < i ensures !OccursAt(line, HASH_MARK, i) {
      HashMarkOnce(e.prev, e.hash, t, i - n);
      OccursInSuffix(line, HASH_MARK, n, i);
    }
    RFindIs(line, PREV_MARK, n);
    RFindIs(line, HASH_MARK, hp);
  }

  lemma OccursInSuffix(s: string, pat: string, n: nat, i: int)
    requires n <= |s| && n <= i
    ensures OccursAt(s, pat, i) <==> OccursAt(s[n..], pat, i - n)
  {
    if i + |pat| <= |s| {
      assert s[n..][i - n..i - n + |pat|] == s[i..i + |pat|];
    }
  }

  /** The field that starts at `at` runs up to the next quote. */
  lemma FieldEnds(line: string, at: nat, field: string)
    requires at + |field| < |line| && QuoteFree(field)
    requires line[at..at + |field|] == field && line[at + |field|] == '"'
    ensures FindChar(line, '"', at) == at + |field|
  {
    forall i | at <= i < at + |field| ensures line[i] != '"' {
      assert line[i] == field[i - at];
    }
    FindCharIs(line, '"', at, at + |field|);
  }

  lemma FieldsOf(e: Entry, line: string, n: nat)
    requires n == |e.canonical| - 1 && line == Render(e)
    ensures |line| == n + 25 + |e.prev| + |e.hash| && line[..n] == e.canonical[..n]
    ensures line[n + 13..n + 13 + |e.prev|] == e.prev && line[n + 13 + |e.prev|] == '"'
    ensures line[n + 23 + |e.prev|..n + 23 + |e.prev| + |e.hash|] == e.hash
    ensures line[n + 23 + |e.prev| + |e.hash|] == '"'
  {
    var t := Tail(e.prev, e.hash);
    TailAt(e.prev, e.hash, t);
    assert line[n..] == t;
    assert line[n + 13..n + 13 + |e.prev|] == t[13..13 + |e.prev|];
    assert line[n + 23 + |e.prev|..n + 23 + |e.prev| + |e.hash|] == t[23 + |e.prev|..23 + |e.prev| + |e.hash|];
  }

  /** Verification recovers exactly what was appended, even when the payload holds the markers. */
  lemma ParseRendered(e: Entry)
    requires IsObject(e.canonical) && QuoteFree(e.prev) && QuoteFree(e.hash)
    ensures ParseLine(Render(e)) == Chained(e)
  {
    hide Render, RFind, FindChar, QuoteFree;
    var line, n := Render(e), |e.canonical| - 1;
    MarksOf(e, line);
    FieldsOf(e, line, n);
    FieldEnds(line, n + 13, e.prev);
    FieldEnds(line, n + 23 + |e.prev|, e.hash);
    assert e.canonical[..n] + "}" == e.canonical;
  }
}
