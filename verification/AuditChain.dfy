/**
 The audit hash chain: what verify_audit_chain accepts, and why two logs with
 the same ends cannot tell different stories.
 */
module AuditChain {
  import opened Sequences
  import opened Options
  import opened TextSearch
  import opened AuditLine

  /** audit_mac under the configured key; its output is hex, so in particular: */
  type Mac = string -> string

  ghost predicate PlainMac(mac: Mac) {
    forall s :: mac(s) != "" && QuoteFree(mac(s)) && '|' !in mac(s) && '\n' !in mac(s)
  }

  /** Two different inputs with one MAC. */
  ghost predicate Collision(mac: Mac) {
    exists x, y :: x != y && mac(x) == mac(y)
  }

  function Sealing(mac: Mac, prev: string, canonical: string): string {
    mac(prev + "|" + canonical)
  }

  datatype Check = Check(prev: string, first: bool, ok: bool, lines: nat, legacy: nat, firstBroken: int)

  const START := Check("", true, true, 0, 0, 0)

  function Broken(c: Check): Check {
    if c.ok then c.(ok := false, firstBroken := c.lines) else c
  }

  /** One turn of the verifier's loop. */
  function CheckLine(mac: Mac, c: Check, line: string): Check {
    if line == "" then c
    else
      var c := c.(lines := c.lines + 1);
      match ParseLine(line)
      case Unchained => if c.first then c.(legacy := c.legacy + 1) else Broken(c)
      case Damaged => Broken(c)
      case Chained(e) =>
        var prev := if c.first then e.prev else c.prev;
        var good := e.prev == prev && e.hash == Sealing(mac, e.prev, e.canonical);
        (if good then c else Broken(c)).(prev := e.hash, first := false)
  }

  function CheckLines(mac: Mac, lines: seq<string>): Check {
    if lines == [] then START
    else CheckLine(mac, CheckLines(mac, lines[..|lines| - 1]), lines[|lines| - 1])
  }

  /** verify_audit_chain over the bytes of the active file, if there is one. */
  method VerifyAuditChain(mac: Mac, file: Option<string>) returns (res: Check)
    ensures res == CheckLines(mac, if file.Some? then GetLines(file.value) else [])
  {
    hide CheckLine, ParseLine;
    res := START;
    if file.None? { return; }
    var rest := file.value;
    ghost var done: seq<string> := [];
    while rest != ""
      invariant done + GetLines(rest) == GetLines(file.value)
      invariant res == CheckLines(mac, done)
      decreases |rest|
    {
      var nl := FindChar(rest, '\n', 0);
      var line := if nl == -1 then rest else rest[..nl];
      rest := if nl == -1 then "" else rest[nl + 1..];
      res := CheckLine(mac, res, line);
      assert (done + [line])[..|done|] == done;
      Regroup(done, [line], GetLines(rest));
      done := done + [line];
    }
    assert done == GetLines(file.value);
  }

  // ---- what it accepts ----

  function Present(lines: seq<string>): seq<string> {
    if lines == [] then []
    else
      var last := lines[|lines| - 1];
      Present(lines[..|lines| - 1]) + if last == "" then [] else [last]
  }

  /** The chained entries of a log, oldest first. */
  function Entries(lines: seq<string>): seq<Entry> {
    if lines == [] then []
    else
      var last := lines[|lines| - 1];
      Entries(lines[..|lines| - 1]) +
      if last != "" && ParseLine(last).Chained? then [ParseLine(last).entry] else []
  }

  ghost predicate Linked(mac: Mac, es: seq<Entry>) {
    && (forall i :: 0 <= i < |es| ==> es[i].hash == Sealing(mac, es[i].prev, es[i].canonical))
    && (forall i :: 0 < i < |es| ==> es[i].prev == es[i - 1].hash)
  }

  /** Legacy lines without chain fields, then an unbroken chain and nothing else. */
  ghost predicate Intact(mac: Mac, present: seq<string>, legacy: nat, es: seq<Entry>) {
    && |present| == legacy + |es|
    && (forall i :: 0 <= i < legacy ==> ParseLine(present[i]).Unchained?)
    && (forall i :: legacy <= i < |present| ==> ParseLine(present[i]) == Chained(es[i - legacy]))
    && Linked(mac, es)
  }

  /** What one more line does to an intact log: keep it as legacy, extend the chain, or spoil it. */
  lemma IntactStep(mac: Mac, present: seq<string>, line: string, legacy: nat, es: seq<Entry>)
    requires Intact(mac, present, legacy, es)
    ensures ParseLine(line).Unchained? && es == [] ==> Intact(mac, present + [line], legacy + 1, es)
    ensures ParseLine(line).Chained? ==>
      var e := ParseLine(line).entry;
      (es == [] || e.prev == es[|es| - 1].hash) && e.hash == Sealing(mac, e.prev, e.canonical)
      ==> Intact(mac, present + [line], legacy, es + [e])
  {
    hide ParseLine, Sealing;
  }

  lemma IntactInit(mac: Mac, present: seq<string>, line: string, legacy: nat, es: seq<Entry>)
    requires Intact(mac, present + [line], legacy, es)
    ensures es == [] ==> legacy > 0 && ParseLine(line).Unchained? && Intact(mac, present, legacy - 1, es)
    ensures es != [] ==>
      var e := es[|es| - 1];
      && ParseLine(line) == Chained(e) && e.hash == Sealing(mac, e.prev, e.canonical)
      && (|es| > 1 ==> e.prev == es[|es| - 2].hash)
      && Intact(mac, present, legacy, es[..|es| - 1])
  {
    hide ParseLine, Sealing;
    assert (present + [line])[|present|] == line;
    assert forall i :: 0 <= i < |present| ==> present[i] == (present + [line])[i];
  }

  /** What the last line of a log adds to each reading of it. */
  lemma LastLine(mac: Mac, lines: seq<string>, before: seq<string>, last: string)
    requires lines == before + [last]
    ensures CheckLines(mac, lines) == CheckLine(mac, CheckLines(mac, before), last)
    ensures Present(lines) == if last == "" then Present(before) else Present(before) + [last]
    ensures Entries(lines) ==
      if last != "" && ParseLine(last).Chained? then Entries(before) + [ParseLine(last).entry] else Entries(before)
  {
    hide ParseLine, CheckLine;
    assert lines[..|lines| - 1] == before;
  }

  ghost predicate Sound(mac: Mac, c: Check, present: seq<string>, es: seq<Entry>) {
    && c.lines == |present|
    && (c.first <==> es == [])
    && (es != [] ==> c.prev == es[|es| - 1].hash)
    && (c.ok ==> Intact(mac, present, c.legacy, es))
  }

  lemma SoundStep(mac: Mac, c: Check, present: seq<string>, es: seq<Entry>, line: string)
    requires Sound(mac, c, present, es)
    ensures Sound(mac, CheckLine(mac, c, line),
      if line == "" then present else present + [line],
      if line != "" && ParseLine(line).Chained? then es + [ParseLine(line).entry] else es)
  {
    hide ParseLine, Sealing, Intact;
    if c.ok {
      IntactStep(mac, present, line, c.legacy, es);
    }
  }

  lemma SoundStart(mac: Mac)
    ensures Sound(mac, CheckLines(mac, []), Present([]), Entries([]))
  {
    assert Intact(mac, Present([]), 0, Entries([]));
  }

  lemma {:induction false} CheckSound(mac: Mac, lines: seq<string>)
    ensures Sound(mac, CheckLines(mac, lines), Present(lines), Entries(lines))
    decreases |lines|
  {
    hide ParseLine, CheckLine, Sound, CheckLines, Present, Entries;
    if lines == [] {
      SoundStart(mac);
    } else {
      var before, last := lines[..|lines| - 1], lines[|lines| - 1];
      CheckSound(mac, before);
      LastLine(mac, lines, before, last);
      SoundStep(mac, CheckLines(mac, before), Present(before), Entries(before), last);
    }
  }

  lemma CompleteStep(mac: Mac, c: Check, present: seq<string>, line: string, legacy: nat, es: seq<Entry>)
    requires line != "" && Intact(mac, present + [line], legacy, es)
    requires c.ok && Sound(mac, c, present, if es == [] then [] else es[..|es| - 1])
    requires c.legacy + (if es == [] then 1 else 0) == legacy
    ensures CheckLine(mac, c, line).ok && CheckLine(mac, c, line).legacy == legacy
    ensures es == [] ==> ParseLine(line).Unchained?
    ensures es != [] ==> ParseLine(line) == Chained(es[|es| - 1])
  {
    hide ParseLine, Sealing, Intact;
    IntactInit(mac, present, line, legacy, es);
  }

  lemma {:induction false} CheckComplete(mac: Mac, lines: seq<string>, legacy: nat, es: seq<Entry>)
    requires Intact(mac, Present(lines), legacy, es)
    ensures CheckLines(mac, lines).ok && CheckLines(mac, lines).legacy == legacy && Entries(lines) == es
    decreases |lines|
  {
    hide *;
    if lines == [] {
      CheckEmpty(mac, legacy, es);
    } else {
      var before, last := lines[..|lines| - 1], lines[|lines| - 1];
      LastLine(mac, lines, before, last);
      CheckSound(mac, before);
      if last == "" {
        CheckComplete(mac, before, legacy, es);
        CheckBlank(mac, CheckLines(mac, before));
      } else {
        IntactInit(mac, Present(before), last, legacy, es);
        var es' := if es == [] then [] else es[..|es| - 1];
        CheckComplete(mac, before, if es == [] then legacy - 1 else legacy, es');
        CompleteStep(mac, CheckLines(mac, before), Present(before), last, legacy, es);
        assert es != [] ==> es' + [es[|es| - 1]] == es;
      }
    }
  }

  lemma CheckEmpty(mac: Mac, legacy: nat, es: seq<Entry>)
    requires Intact(mac, Present([]), legacy, es)
    ensures CheckLines(mac, []).ok && CheckLines(mac, []).legacy == legacy && Entries([]) == es == []
  {
    assert |Present([])| == legacy + |es|;
  }

  lemma CheckBlank(mac: Mac, c: Check)
    ensures CheckLine(mac, c, "") == c
  {
  }

  /** The answer is "intact" exactly for logs that are a legacy prefix and one unbroken chain. */
  lemma VerifierExact(mac: Mac, lines: seq<string>)
    ensures CheckLines(mac, lines).ok <==> exists legacy: nat, es :: Intact(mac, Present(lines), legacy, es)
  {
    CheckSound(mac, lines);
    if legacy: nat, es :| Intact(mac, Present(lines), legacy, es) {
      CheckComplete(mac, lines, legacy, es);
    }
  }

  // ---- where it breaks ----

  /** Some first part of the log, up to a line that is not blank, is the shortest that is not intact. */
  ghost predicate BreaksAt(mac: Mac, lines: seq<string>, n: nat) {
    && n < |lines| && lines[n] != ""
    && Unbroken(mac, lines[..n]) && !Unbroken(mac, lines[..n + 1])
  }

  /** Legacy lines and then one chain. */
  ghost predicate Unbroken(mac: Mac, lines: seq<string>) {
    exists legacy: nat, es :: Intact(mac, Present(lines), legacy, es)
  }

  lemma BrokenNext(mac: Mac, c: Check, line: string)
    ensures var next := CheckLine(mac, c, line);
      && (!c.ok ==> !next.ok && next.firstBroken == c.firstBroken)
      && (c.ok && !next.ok ==> line != "" && next.firstBroken == c.lines + 1)
      && (c.ok && next.ok ==> next.firstBroken == c.firstBroken)
  {
    hide ParseLine, Sealing;
  }

  lemma BreaksStill(mac: Mac, before: seq<string>, last: string, n: nat)
    requires BreaksAt(mac, before, n)
    ensures BreaksAt(mac, before + [last], n)
  {
    hide Unbroken;
    assert (before + [last])[..n] == before[..n] && (before + [last])[..n + 1] == before[..n + 1];
  }

  /** The line reported as first broken is the one, counting those not blank, at which the log stops being intact. */
  lemma {:induction false} FirstBrokenExactly(mac: Mac, lines: seq<string>) returns (n: nat)
    ensures CheckLines(mac, lines).ok ==> CheckLines(mac, lines).firstBroken == 0
    ensures !CheckLines(mac, lines).ok ==>
      BreaksAt(mac, lines, n) && CheckLines(mac, lines).firstBroken == |Present(lines[..n + 1])|
    decreases |lines|
  {
    hide *;
    n := 0;
    if lines == [] {
      NothingBroken(mac);
    } else {
      var before, last := lines[..|lines| - 1], lines[|lines| - 1];
      assert lines == before + [last];
      n := FirstBrokenExactly(mac, before);
      LastLine(mac, lines, before, last);
      BrokenNext(mac, CheckLines(mac, before), last);
      if !CheckLines(mac, before).ok {
        BreaksStill(mac, before, last, n);
        BreakWithin(mac, before, n);
        assert lines[..n + 1] == before[..n + 1];
      } else if !CheckLines(mac, lines).ok {
        n := |before|;
        BreaksHere(mac, before, last);
        assert lines[..n + 1] == lines;
        LinesCounted(mac, before);
      }
    }
  }

  lemma BreakWithin(mac: Mac, lines: seq<string>, n: nat)
    requires BreaksAt(mac, lines, n)
    ensures n < |lines|
  {
  }

  lemma LinesCounted(mac: Mac, lines: seq<string>)
    ensures CheckLines(mac, lines).lines == |Present(lines)|
  {
    CheckSound(mac, lines);
  }

  lemma NothingBroken(mac: Mac)
    ensures CheckLines(mac, []) == START && START.ok && START.firstBroken == 0
  {
  }

  lemma BreaksHere(mac: Mac, before: seq<string>, last: string)
    requires CheckLines(mac, before).ok && !CheckLines(mac, before + [last]).ok && last != ""
    ensures BreaksAt(mac, before + [last], |before|)
  {
    hide CheckLines, Unbroken;
    var lines := before + [last];
    assert lines[|before|] == last;
    assert lines[..|before|] == before && lines[..|before| + 1] == lines;
    UnbrokenExactly(mac, before);
    UnbrokenExactly(mac, lines);
  }

  lemma UnbrokenExactly(mac: Mac, lines: seq<string>)
    ensures CheckLines(mac, lines).ok <==> Unbroken(mac, lines)
  {
    hide Present, Intact, CheckLine;
    CheckSound(mac, lines);
    if legacy: nat, es :| Intact(mac, Present(lines), legacy, es) {
      CheckComplete(mac, lines, legacy, es);
    }
  }

  // ---- tamper evidence ----

  /** prev + "|" + canonical splits one way only when prev holds no bar. */
  lemma BarSplits(p1: string, c1: string, p2: string, c2: string)
    requires p1 + "|" + c1 == p2 + "|" + c2
    requires |p1| == |p2| || ('|' !in p1 && '|' !in p2)
    ensures p1 == p2 && c1 == c2
  {
    var s := p1 + "|" + c1;
    if |p1| != |p2| {
      FindCharIs(s, '|', 0, |p1|);
      FindCharIs(s, '|', 0, |p2|);
    }
    assert s[..|p1|] == p1 && s[|p1| + 1..] == c1;
    assert s[..|p2|] == p2 && s[|p2| + 1..] == c2;
  }

  lemma {:induction false} SameEndsSameChain(mac: Mac, a: seq<Entry>, b: seq<Entry>)
    requires PlainMac(mac) && Linked(mac, a) && Linked(mac, b)
    requires |a| == |b| > 0
    requires a[0].prev == b[0].prev && a[|a| - 1].hash == b[|b| - 1].hash
    ensures a == b || Collision(mac)
    decreases |a|
  {
    var n := |a| - 1;
    var x, y := a[n].prev + "|" + a[n].canonical, b[n].prev + "|" + b[n].canonical;
    assert mac(x) == mac(y);
    if x == y {
      if n > 0 {
        assert a[n].prev == Sealing(mac, a[n - 1].prev, a[n - 1].canonical);
        assert b[n].prev == Sealing(mac, b[n - 1].prev, b[n - 1].canonical);
      }
      BarSplits(a[n].prev, a[n].canonical, b[n].prev, b[n].canonical);
      if n > 0 {
        SameEndsSameChain(mac, a[..n], b[..n]);
        assert a == a[..n] + [a[n]] && b == b[..n] + [b[n]];
      }
    }
  }

  /**
   Two logs that both verify, with as many chained lines, the same first prevHash
   and the same last hash, carry the same entries - or exhibit a MAC collision.
   */
  lemma TamperEvident(mac: Mac, a: seq<string>, b: seq<string>)
    requires PlainMac(mac)
    requires CheckLines(mac, a).ok && CheckLines(mac, b).ok
    requires |Entries(a)| == |Entries(b)| > 0
    requires Entries(a)[0].prev == Entries(b)[0].prev
    requires CheckLines(mac, a).prev == CheckLines(mac, b).prev
    ensures Entries(a) == Entries(b) || Collision(mac)
  {
    CheckSound(mac, a);
    CheckSound(mac, b);
    SameEndsSameChain(mac, Entries(a), Entries(b));
  }
}
