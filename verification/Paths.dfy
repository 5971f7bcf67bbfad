/**
 Slash-separated paths as `path.Clean`, `path.Join`, `path.Dir` and `underPath`
 treat them, and the segment view that gives them a meaning: a canonical path
 is a nonempty list of names joined by '/'.
 */
module Paths {
  import opened Sequences

  /** A name that can stand between two slashes of a cleaned path. */
  predicate IsName(name: string) {
    name != "" && name != "." && name != ".." && '/' !in name
  }

  predicate AreNames(segs: seq<string>) {
    forall k :: 0 <= k < |segs| ==> IsName(segs[k])
  }

  predicate SlashFree(segs: seq<string>) {
    forall k :: 0 <= k < |segs| ==> '/' !in segs[k]
  }

  /** The pieces of `s` between slashes; never empty. */
  function Split(s: string): (segs: seq<string>)
    ensures |segs| > 0 && SlashFree(segs)
    decreases |s|
  {
    if s == "" then [""]
    else if s[0] == '/' then [""] + Split(s[1..])
    else var rest := Split(s[1..]); [[s[0]] + rest[0]] + rest[1..]
  }

  function Join(segs: seq<string>): string
  {
    if |segs| == 0 then ""
    else if |segs| == 1 then segs[0]
    else segs[0] + "/" + Join(segs[1..])
  }

  lemma JoinGrowHead(c: string, segs: seq<string>)
    requires |segs| > 0
    ensures Join([c + segs[0]] + segs[1..]) == c + Join(segs)
  {
    var grown := [c + segs[0]] + segs[1..];
    if |segs| > 1 {
      assert grown[1..] == segs[1..];
      RegroupFour(c, segs[0], "/", Join(segs[1..]));
    }
  }

  lemma {:induction false} JoinSplit(s: string)
    ensures Join(Split(s)) == s
    decreases |s|
  {
    if s != "" {
      JoinSplit(s[1..]);
      var rest := Split(s[1..]);
      assert s == [s[0]] + s[1..];
      if s[0] == '/' {
        assert ([""] + rest)[1..] == rest;
        assert "" + "/" + s[1..] == s;
      } else {
        JoinGrowHead([s[0]], rest);
      }
    }
  }

  lemma {:induction false} SplitNameOnly(s: string)
    requires '/' !in s
    ensures Split(s) == [s]
    decreases |s|
  {
    if s == "" {
    } else {
      assert s[0] in s;
      forall c | c in s[1..] ensures c in s {}
      SplitNameOnly(s[1..]);
      assert s == [s[0]] + s[1..];
    }
  }

  lemma SplitFirst(s: string)
    ensures Split(s) ==
      if s == "" then [""]
      else if s[0] == '/' then [""] + Split(s[1..])
      else var rest := Split(s[1..]); [[s[0]] + rest[0]] + rest[1..]
  {
  }

  lemma {:induction false} SplitAppend(a: string, b: string)
    ensures Split(a + "/" + b) == Split(a) + Split(b)
    decreases |a|
  {
    var s := a + "/" + b;
    SplitFirst(s);
    SplitFirst(a);
    hide Split;
    if a == "" {
      assert s[1..] == b;
    } else {
      assert s[1..] == a[1..] + "/" + b;
      SplitAppend(a[1..], b);
    }
  }

  lemma {:induction false} SplitJoin(segs: seq<string>)
    requires |segs| > 0 && SlashFree(segs)
    ensures Split(Join(segs)) == segs
    decreases |segs|
  {
    if |segs| == 1 {
      SplitNameOnly(segs[0]);
    } else {
      SplitJoin(segs[1..]);
      SplitAppend(segs[0], Join(segs[1..]));
      SplitNameOnly(segs[0]);
      assert segs == [segs[0]] + segs[1..];
    }
  }

  lemma {:induction false} JoinAppend(a: seq<string>, b: seq<string>)
    requires |a| > 0 && |b| > 0
    ensures Join(a + b) == Join(a) + "/" + Join(b)
    decreases |a|
  {
    if |a| == 1 {
      assert (a + b)[1..] == b;
    } else {
      assert (a + b)[1..] == a[1..] + b;
      JoinAppend(a[1..], b);
      assert a[0] + "/" + (Join(a[1..]) + "/" + Join(b)) == (a[0] + "/" + Join(a[1..])) + "/" + Join(b);
    }
  }

  // ---- Go's path package ----

  /** The stack machine of path.Clean over the pieces of a path. */
  function CleanOnto(stack: seq<string>, segs: seq<string>, rooted: bool): seq<string>
    decreases |segs|
  {
    if segs == [] then stack
    else if segs[0] == "" || segs[0] == "." then CleanOnto(stack, segs[1..], rooted)
    else if segs[0] == ".." then
      if |stack| > 0 && stack[|stack| - 1] != ".." then CleanOnto(stack[..|stack| - 1], segs[1..], rooted)
      else if rooted then CleanOnto(stack, segs[1..], rooted)
      else CleanOnto(stack + [".."], segs[1..], rooted)
    else CleanOnto(stack + [segs[0]], segs[1..], rooted)
  }

  lemma {:induction false} CleanRootedNames(stack: seq<string>, segs: seq<string>)
    requires AreNames(stack) && SlashFree(segs)
    ensures AreNames(CleanOnto(stack, segs, true))
    decreases |segs|
  {
    if segs == [] {
    } else if segs[0] == "" || segs[0] == "." {
      CleanRootedNames(stack, segs[1..]);
    } else if segs[0] == ".." {
      CleanRootedNames(if |stack| > 0 then stack[..|stack| - 1] else stack, segs[1..]);
    } else {
      CleanRootedNames(stack + [segs[0]], segs[1..]);
    }
  }

  /** Cleaning leaves a list of proper names alone. */
  lemma {:induction false} CleanOfNames(stack: seq<string>, segs: seq<string>, rooted: bool)
    requires AreNames(segs)
    ensures CleanOnto(stack, segs, rooted) == stack + segs
    decreases |segs|
  {
    if segs != [] {
      CleanOfNames(stack + [segs[0]], segs[1..], rooted);
      assert stack + [segs[0]] + segs[1..] == stack + segs;
    } else {
      assert stack + segs == stack;
    }
  }

  /**
   The names a path below a root leads to, its pieces read from the last one back: each ".." takes
   away the nearest name before it that no other has taken, and blanks and "." count for nothing.
   */
  function Names(pieces: seq<string>, up: nat): seq<string>
    decreases |pieces|
  {
    if pieces == [] then []
    else
      var init, last := pieces[..|pieces| - 1], pieces[|pieces| - 1];
      if last == "" || last == "." then Names(init, up)
      else if last == ".." then Names(init, up + 1)
      else if up > 0 then Names(init, up - 1)
      else Names(init, 0) + [last]
  }

  lemma NamesLast(init: seq<string>, last: string, up: nat)
    ensures Names(init + [last], up) ==
      if last == "" || last == "." then Names(init, up)
      else if last == ".." then Names(init, up + 1)
      else if up > 0 then Names(init, up - 1)
      else Names(init, 0) + [last]
  {
    assert (init + [last])[..|init|] == init;
  }

  lemma {:induction false} CleanLast(stack: seq<string>, init: seq<string>, last: string)
    ensures CleanOnto(stack, init + [last], true) == CleanOnto(CleanOnto(stack, init, true), [last], true)
    decreases |init|
  {
    if init == [] {
      assert [] + [last] == [last];
    } else {
      var x, rest := init[0], init[1..];
      assert (init + [last])[0] == x && (init + [last])[1..] == rest + [last];
      var next :=
        if x == "" || x == "." then stack
        else if x != ".." then stack + [x]
        else if |stack| > 0 && stack[|stack| - 1] != ".." then stack[..|stack| - 1]
        else stack;
      CleanLast(next, rest, last);
    }
  }

  /** Cleaning below a root finds those names. */
  lemma {:induction false} CleanIsNames(pieces: seq<string>, up: nat)
    requires SlashFree(pieces)
    ensures var c := CleanOnto([], pieces, true);
      Names(pieces, up) == c[..if up <= |c| then |c| - up else 0]
    decreases |pieces|
  {
    if pieces != [] {
      var init, last := pieces[..|pieces| - 1], pieces[|pieces| - 1];
      assert pieces == init + [last];
      var c := CleanOnto([], init, true);
      CleanLast([], init, last);
      CleanRootedNames([], init);
      assert c != [] ==> IsName(c[|c| - 1]);
      LastStep(c, last);
      CleanIsNames(init, if last == ".." then up + 1 else if last == "" || last == "." || up == 0 then up else up - 1);
    }
  }

  lemma LastStep(stack: seq<string>, last: string)
    requires stack != [] ==> stack[|stack| - 1] != ".."
    ensures CleanOnto(stack, [last], true) ==
      if last == "" || last == "." then stack
      else if last == ".." then stack[..if stack == [] then 0 else |stack| - 1]
      else stack + [last]
  {
    assert forall s :: CleanOnto(s, [], true) == s;
    assert [last][1..] == [];
  }

  // ---- the laws of names ----

  lemma {:induction false} NamesOfNames(segs: seq<string>)
    requires AreNames(segs)
    ensures Names(segs, 0) == segs
    decreases |segs|
  {
    if segs != [] {
      NamesOfNames(segs[..|segs| - 1]);
      assert segs == segs[..|segs| - 1] + [segs[|segs| - 1]];
    }
  }

  /** A piece put in anywhere changes no names if it changes none at the end. */
  lemma {:induction false} NamesInside(a: seq<string>, x: seq<string>, b: seq<string>, up: nat)
    requires forall n: nat :: Names(a + x, n) == Names(a, n)
    ensures Names(a + x + b, up) == Names(a + b, up)
    decreases |b|
  {
    hide Names;
    if b == [] {
      assert a + x + b == a + x && a + b == a;
      assert Names(a + x, up) == Names(a, up);
    } else {
      var init, last := b[..|b| - 1], b[|b| - 1];
      assert a + x + b == (a + x + init) + [last] && a + b == (a + init) + [last];
      NamesLast(a + x + init, last, up);
      NamesLast(a + init, last, up);
      NamesInside(a, x, init, up);
      NamesInside(a, x, init, up + 1);
      NamesInside(a, x, init, if up > 0 then up - 1 else 0);
    }
  }

  lemma BlankNames(a: seq<string>, x: string, b: seq<string>, up: nat)
    requires x == "" || x == "."
    ensures Names(a + [x] + b, up) == Names(a + b, up)
  {
    forall n: nat ensures Names(a + [x], n) == Names(a, n) { NamesLast(a, x, n); }
    NamesInside(a, [x], b, up);
  }

  lemma TakenBack(a: seq<string>, name: string, b: seq<string>, up: nat)
    requires IsName(name)
    ensures Names(a + [name, ".."] + b, up) == Names(a + b, up)
  {
    forall n: nat ensures Names(a + [name, ".."], n) == Names(a, n) {
      assert a + [name, ".."] == (a + [name]) + [".."];
      NamesLast(a + [name], "..", n);
      NamesLast(a, name, n + 1);
    }
    NamesInside(a, [name, ".."], b, up);
  }

  /** Below the root there is nothing to take back. */
  lemma NothingAbove(b: seq<string>, up: nat)
    ensures Names([".."] + b, up) == Names(b, up)
  {
    forall n: nat ensures Names([] + [".."], n) == Names([], n) { NamesLast([], "..", n); }
    NamesInside([], [".."], b, up);
    assert [] + [".."] + b == [".."] + b && [] + b == b;
  }

  /** path.Clean of a relative path given by its pieces. */
  function CleanText(segs: seq<string>): string {
    var c := CleanOnto([], segs, false);
    if c == [] then "." else Join(c)
  }

  /** path.Join of two nonempty elements. */
  function PathJoin(dir: string, name: string): string {
    CleanText(Split(dir + "/" + name))
  }

  /** path.Dir: everything before the last slash, cleaned. */
  function PathDir(p: string): string {
    var segs := Split(p);
    CleanText(segs[..|segs| - 1])
  }

  /** path.Base of a cleaned relative path. */
  function PathBase(p: string): string {
    var segs := Split(p);
    segs[|segs| - 1]
  }

  // ---- the segment view ----

  /** The names of a root-relative path: "." is the root itself. */
  function Segs(rel: string): seq<string> {
    if rel == "." then [] else Split(rel)
  }

  function Text(segs: seq<string>): string {
    if segs == [] then "." else Join(segs)
  }

  predicate IsRel(rel: string) { AreNames(Segs(rel)) }

  /** A path a share may carry: at least one proper name, never ".". */
  predicate IsCanonical(p: string) { AreNames(Split(p)) }

  lemma TextSegs(segs: seq<string>)
    requires AreNames(segs)
    ensures IsRel(Text(segs)) && Segs(Text(segs)) == segs
    ensures segs != [] ==> Text(segs) != "." && IsCanonical(Text(segs)) && Split(Text(segs)) == segs
  {
    if segs != [] {
      assert SlashFree(segs);
      SplitJoin(segs);
      SplitNameOnly(".");
      assert IsName(segs[0]);
    }
  }

  lemma SegsText(rel: string)
    requires IsRel(rel)
    ensures Text(Segs(rel)) == rel
    ensures rel != "." ==> IsCanonical(rel)
  {
    JoinSplit(rel);
  }

  lemma {:induction false} PathJoinSegs(dir: string, name: string)
    requires IsRel(dir) && IsName(name)
    ensures PathJoin(dir, name) == Text(Segs(dir) + [name])
  {
    SplitAppend(dir, name);
    SplitNameOnly(name);
    var segs := Split(dir) + [name];
    if dir == "." {
      SplitNameOnly(".");
      assert segs[1..] == [name];
      CleanOfNames([], [name], false);
      assert [] + [name] == [name];
    } else {
      CleanOfNames([], segs, false);
      assert [] + segs == segs;
    }
  }

  lemma PathDirSegs(rel: string)
    requires IsRel(rel) && rel != "."
    ensures PathDir(rel) == Text(Segs(rel)[..|Segs(rel)| - 1])
    ensures IsRel(PathDir(rel)) && Segs(PathDir(rel)) == Segs(rel)[..|Segs(rel)| - 1]
  {
    var init := Split(rel)[..|Split(rel)| - 1];
    CleanOfNames([], init, false);
    assert [] + init == init;
    TextSegs(init);
  }

  // ---- underPath ----

  predicate UnderPath(p: string, base: string) {
    p == base || base + "/" <= p
  }

  /** strings.TrimPrefix. */
  function TrimPrefix(s: string, prefix: string): string {
    if prefix <= s then s[|prefix|..] else s
  }

  /** The string test is the segment test: "a" never claims "ab". */
  lemma UnderPathIsSegmentPrefix(p: string, base: string)
    ensures UnderPath(p, base) <==> Split(base) <= Split(p)
  {
    hide Split, Join;
    JoinSplit(p);
    JoinSplit(base);
    if base + "/" <= p {
      var rest := p[|base| + 1..];
      assert p == base + "/" + rest;
      SplitAppend(base, rest);
    }
    if Split(base) <= Split(p) {
      var rest := Split(p)[|Split(base)|..];
      assert Split(p) == Split(base) + rest;
      if rest == [] {
        assert Split(p) == Split(base);
      } else {
        JoinAppend(Split(base), rest);
      }
    }
  }

  /** What pathMoved writes for a share at or below the moved item. */
  lemma MovedPath(p: string, from: string, to: string)
    requires UnderPath(p, from)
    ensures Split(from) <= Split(p)
    ensures Split(to + TrimPrefix(p, from)) == Split(to) + Split(p)[|Split(from)|..]
  {
    hide Split;
    UnderPathIsSegmentPrefix(p, from);
    var rest := p[|from|..];
    assert p == from + rest && TrimPrefix(p, from) == rest;
    if p == from {
      assert to + rest == to;
      assert Split(p)[|Split(from)|..] == [];
    } else {
      MovedPathBelow(rest[1..], from, to);
      assert rest == "/" + rest[1..];
      assert from + rest == from + "/" + rest[1..];
      assert to + rest == to + "/" + rest[1..];
    }
  }

  lemma MovedPathBelow(rest: string, from: string, to: string)
    ensures Split(from + "/" + rest) == Split(from) + Split(rest)
    ensures Split(to + "/" + rest) == Split(to) + Split(rest)
    ensures Split(from + "/" + rest)[|Split(from)|..] == Split(rest)
  {
    hide Split;
    SplitAppend(from, rest);
    SplitAppend(to, rest);
  }
}
