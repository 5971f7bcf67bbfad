/**
 What an audit query selects: each criterion on its own, their conjunction, and
 the choices offered for the next query.
 */
module AuditCriteria {
  import opened Options
  import opened Ascii
  import opened TextSearch
  import opened Lex
  import opened AuditTypes
  import opened Calendar
  import opened LogFiles
  import opened AuditQuery

  const NO_CRITERIA := Query(1, None, false, "", "", "", "", "", "", 0)

  lemma NoCriteriaKeepAll(r: Reader, line: string)
    ensures Keeps(r, NO_CRITERIA, line) <==> r.parse(line).Some?
  {
  }

  /** The criteria of a query hold together exactly when each holds alone. */
  lemma TogetherIsEach(r: Reader, q: Query, line: string)
    ensures Keeps(r, q, line) <==>
      && Keeps(r, NO_CRITERIA.(actor := q.actor), line)
      && Keeps(r, NO_CRITERIA.(family := q.family), line)
      && Keeps(r, NO_CRITERIA.(category := q.category), line)
      && Keeps(r, NO_CRITERIA.(from := q.from), line)
      && Keeps(r, NO_CRITERIA.(to := q.to), line)
      && Keeps(r, NO_CRITERIA.(sessionId := q.sessionId), line)
      && Keeps(r, NO_CRITERIA.(text := q.text), line)
  {
    hide IsFailure, IsAdmin, FamilyOf, Contains, Less, Lower;
  }

  lemma ActorSelects(r: Reader, line: string, actor: string)
    ensures Keeps(r, NO_CRITERIA.(actor := actor), line) <==>
      r.parse(line).Some? && (actor == "" || r.parse(line).value.actor == actor)
  {
    hide IsFailure, IsAdmin, FamilyOf, Contains, Less;
  }

  lemma SessionSelects(r: Reader, line: string, id: int)
    ensures Keeps(r, NO_CRITERIA.(sessionId := id), line) <==>
      r.parse(line).Some? && (id <= 0 || r.parse(line).value.sessionId == Some(id))
  {
    hide IsFailure, IsAdmin, FamilyOf, Contains, Less;
  }

  /** A family is the part of a type before its first dot; a whole type selects itself. */
  lemma FamilySelects(r: Reader, line: string, family: string)
    requires family != ""
    ensures Keeps(r, NO_CRITERIA.(family := family), line) <==>
      && r.parse(line).Some?
      && var kind := r.parse(line).value.kind; kind == family || ('.' !in family && family + "." <= kind)
  {
    hide IsFailure, IsAdmin, FamilyOf, Contains, Less;
    if r.parse(line).Some? { FamilyIs(r.parse(line).value.kind, family); }
  }

  lemma FamilyIs(kind: string, family: string)
    ensures FamilyOf(kind) == family || kind == family <==>
      kind == family || ('.' !in family && family + "." <= kind)
  {
    hide FamilyOf;
    if '.' !in family && family + "." <= kind { FamilyOfDotted(kind, family); }
    if FamilyOf(kind) == family && kind != family { DottedFamily(kind, family); }
  }

  lemma FamilyOfDotted(kind: string, family: string)
    requires '.' !in family && family + "." <= kind
    ensures FamilyOf(kind) == family
  {
    hide FindChar;
    assert kind[|family|] == (family + ".")[|family|];
    forall i | 0 <= i < |family| ensures kind[i] != '.' {
      assert kind[i] == (family + ".")[i] == family[i];
    }
    FindCharIs(kind, '.', 0, |family|);
    assert kind[..|family|] == (family + ".")[..|family|] == family;
  }

  lemma DottedFamily(kind: string, family: string)
    requires FamilyOf(kind) == family && kind != family
    ensures '.' !in family && family + "." <= kind
  {
    hide FindChar;
    var dot := FindChar(kind, '.', 0);
    assert kind == family + "." + kind[dot + 1..];
    forall i | 0 <= i < |family| ensures family[i] != '.' {
      assert family[i] == kind[i];
    }
  }

  lemma ContainsExactly(s: string, part: string)
    ensures Contains(s, part) <==> StandsIn(s, part)
  {
    if Contains(s, part) {
      var i :| 0 <= i <= |s| && OccursAt(s, part, i);
      assert s == s[..i] + part + s[i + |part|..];
    }
    if a, b :| s == a + part + b {
      assert s[|a|..|a| + |part|] == part;
      assert OccursAt(s, part, |a|);
    }
  }

  /** A type of one of the administered families, a decision on a request, or a rotation. */
  ghost predicate AdminKind(kind: string) {
    || (exists k, rest :: 0 <= k < |ADMIN_FAMILIES| && kind == ADMIN_FAMILIES[k] + ("." + rest))
    || kind == "access_request.approve" || kind == "access_request.deny"
    || exists rest :: kind == "credential.rotat" + rest
  }

  lemma AdminIs(kind: string)
    ensures IsAdmin(kind) <==> AdminKind(kind)
  {
    forall k | 0 <= k < |ADMIN_FAMILIES|
      ensures ADMIN_FAMILIES[k] + "." <= kind <==> exists rest :: kind == ADMIN_FAMILIES[k] + ("." + rest)
    {
      PrefixIs(ADMIN_FAMILIES[k], ".", kind);
    }
    PrefixIs("credential.rotat", "", kind);
    assert "credential.rotat" + "" == "credential.rotat";
    assert forall rest: string :: "" + rest == rest;
  }

  lemma PrefixIs(a: string, b: string, s: string)
    ensures a + b <= s <==> exists rest :: s == a + (b + rest)
  {
    if a + b <= s {
      var rest := s[|a + b|..];
      assert s == a + b + rest;
      assert s == a + (b + rest);
    }
    if rest :| s == a + (b + rest) {
      assert s == a + b + rest;
    }
  }

  lemma FailureIs(kind: string)
    ensures IsFailure(kind) <==> exists k :: 0 <= k < |FAILURE_WORDS| && StandsIn(kind, FAILURE_WORDS[k])
  {
    hide Contains, StandsIn;
    forall k | 0 <= k < |FAILURE_WORDS|
      ensures Contains(kind, FAILURE_WORDS[k]) <==> StandsIn(kind, FAILURE_WORDS[k])
    {
      ContainsExactly(kind, FAILURE_WORDS[k]);
    }
  }

  /** Failures are the types one of the words stands in; other categories restrict nothing but "admin". */
  lemma CategorySelects(r: Reader, line: string, category: string)
    ensures Keeps(r, NO_CRITERIA.(category := category), line) <==>
      && r.parse(line).Some?
      && var kind := r.parse(line).value.kind;
         && (category == "failure" ==> exists k :: 0 <= k < |FAILURE_WORDS| && StandsIn(kind, FAILURE_WORDS[k]))
         && (category == "admin" ==> AdminKind(kind))
  {
    hide FamilyOf, Contains, Less, IsFailure, IsAdmin, AdminKind, StandsIn;
    if r.parse(line).Some? {
      FailureIs(r.parse(line).value.kind);
      AdminIs(r.parse(line).value.kind);
    }
  }

  predicate AnyCase(line: string, i: nat, text: string) {
    i + |text| <= |line| && forall k :: 0 <= k < |text| ==> LowerIs(text[k], line[i + k])
  }

  /** The text, given in lower case, stands in the line in any case. */
  lemma TextSelects(r: Reader, line: string, text: string)
    ensures Keeps(r, NO_CRITERIA.(text := text), line) <==>
      r.parse(line).Some? && (text == "" || exists i: nat :: AnyCase(line, i, text))
  {
    hide FamilyOf, IsFailure, IsAdmin, Less;
    var low := Lower(line);
    if Contains(low, text) {
      var i :| 0 <= i <= |low| && OccursAt(low, text, i);
      assert forall k :: 0 <= k < |text| ==> text[k] == low[i..i + |text|][k] == low[i + k];
      assert AnyCase(line, i, text);
    }
    if i: nat :| AnyCase(line, i, text) {
      forall k | 0 <= k < |text| ensures low[i..i + |text|][k] == text[k] {
        assert LowerIs(text[k], line[i + k]);
      }
      assert OccursAt(low, text, i);
    }
  }

  /** A day as lower bound keeps the events of that day and later. */
  lemma FromDaySelects(r: Reader, line: string, t: Moment, day: Civil)
    requires IsMoment(t) && FourDigitDay(day)
    requires r.parse(line).Some? && r.parse(line).value.createdAt == StampText(t)
    ensures Keeps(r, NO_CRITERIA.(from := IsoDate(day)), line) <==> !Earlier(t.day, day)
  {
    hide FamilyOf, IsFailure, IsAdmin, Contains, Less, IsoDate, StampText;
    DateOrder(day, day);
    StampInWindow(t, day, day);
  }

  /** A day as upper bound keeps the events of that day and earlier. */
  lemma ToDaySelects(r: Reader, line: string, t: Moment, day: Civil)
    requires IsMoment(t) && FourDigitDay(day)
    requires r.parse(line).Some? && r.parse(line).value.createdAt == StampText(t)
    ensures Keeps(r, NO_CRITERIA.(to := IsoDate(day)), line) <==> !Earlier(day, t.day)
  {
    hide FamilyOf, IsFailure, IsAdmin, Contains, Less, IsoDate, StampText;
    DateOrder(day, day);
    StampInWindow(t, day, day);
  }

  /** Times as bounds keep the events between them, ends included. */
  lemma TimesSelect(r: Reader, line: string, t: Moment, u: Moment)
    requires IsMoment(t) && IsMoment(u)
    requires r.parse(line).Some? && r.parse(line).value.createdAt == StampText(t)
    ensures Keeps(r, NO_CRITERIA.(from := StampText(u)), line) <==> !Before(t, u)
    ensures Keeps(r, NO_CRITERIA.(to := StampText(u)), line) <==> !Before(u, t)
  {
    hide FamilyOf, IsFailure, IsAdmin, Contains, Less, IsoDate, StampText;
    StampOrder(t, u);
    StampOrder(u, t);
  }

  // ---- facets ----

  /** Some readable line of the log is by this actor. */
  ghost predicate ActsIn(r: Reader, files: seq<LogFile>, actor: string) {
    exists i, k :: 0 <= i < |files| && 0 <= k < |files[i].lines| && ActsAt(r, files[i].lines[k], actor)
  }

  predicate ActsAt(r: Reader, line: string, actor: string) {
    actor != "" && r.parse(line).Some? && r.parse(line).value.actor == actor
  }

  ghost predicate FamilyIn(r: Reader, files: seq<LogFile>, family: string) {
    exists i, k :: 0 <= i < |files| && 0 <= k < |files[i].lines| && FamilyAt(r, files[i].lines[k], family)
  }

  predicate FamilyAt(r: Reader, line: string, family: string) {
    && r.parse(line).Some? && r.parse(line).value.kind != ""
    && FamilyOf(r.parse(line).value.kind) == family
  }

  lemma {:induction false} LineFacetsExactly(r: Reader, lines: seq<string>, x: string)
    ensures x in LineFacets(r, lines).actors <==> exists k :: 0 <= k < |lines| && ActsAt(r, lines[k], x)
    ensures x in LineFacets(r, lines).families <==> exists k :: 0 <= k < |lines| && FamilyAt(r, lines[k], x)
    decreases |lines|
  {
    hide FamilyOf;
    if lines != [] {
      var rest := lines[1..];
      LineFacetsExactly(r, rest, x);
      assert forall k :: 0 <= k < |rest| ==> rest[k] == lines[k + 1];
      assert forall k :: 1 <= k < |lines| ==> lines[k] == rest[k - 1];
    }
  }

  /** The choices offered are the actors and families of the whole log, and no others. */
  lemma {:induction false} FacetsExactly(r: Reader, files: seq<LogFile>, x: string)
    ensures x in AllFacets(r, files).actors <==> ActsIn(r, files, x)
    ensures x in AllFacets(r, files).families <==> FamilyIn(r, files, x)
    decreases |files|
  {
    hide LineFacets, ActsAt, FamilyAt;
    if files != [] {
      var rest := files[1..];
      FacetsExactly(r, rest, x);
      LineFacetsExactly(r, files[0].lines, x);
      assert forall i :: 0 <= i < |rest| ==> rest[i] == files[i + 1];
      assert forall i :: 1 <= i < |files| ==> files[i] == rest[i - 1];
    }
  }
}
