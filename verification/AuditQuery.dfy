/**
 Newest-first cursor paging over the audit files. A page is read by two nested
 loops; what a whole walk of pages returns is one filter of the log.
 */
module AuditQuery {
  import opened Options
  import opened Ascii
  import opened Lex
  import opened AuditTypes
  import opened LogFiles

  const MAX_LIMIT := 500

  datatype Row = Row(kind: string, actor: string, createdAt: string, sessionId: Option<int>)

  /** A row's key: the identity of its file and its line number there, from 1. */
  datatype Key = Key(file: string, line: int)

  datatype Item = Item(key: Key, row: Row)

  datatype Query = Query(
    limit: nat, cursor: Option<Key>, facets: bool, actor: string, family: string, category: string,
    from: string, to: string, text: string, sessionId: int)

  datatype Page = Page(items: seq<Item>, next: Option<Key>, cursorExpired: bool,
                       actors: set<string>, families: set<string>)

  /** How a line is read (JSON parsing) and how a first line names its file. */
  datatype Reader = Reader(parse: string -> Option<Row>, fileId: string -> string)

  function From(q: Query): string { if |q.from| == 10 then q.from + "T00:00:00Z" else q.from }

  function To(q: Query): string { if |q.to| == 10 then q.to + "T23:59:59Z" else q.to }

  predicate Matches(q: Query, row: Row, line: string) {
    && (q.actor != "" ==> row.actor == q.actor)
    && (q.family != "" ==> FamilyOf(row.kind) == q.family || row.kind == q.family)
    && (q.category == "failure" ==> IsFailure(row.kind))
    && (q.category == "admin" ==> IsAdmin(row.kind))
    && (From(q) != "" ==> !Less(row.createdAt, From(q)))
    && (To(q) != "" ==> !Less(To(q), row.createdAt))
    && (q.sessionId > 0 ==> row.sessionId == Some(q.sessionId))
    && (q.text != "" ==> Contains(Lower(line), q.text))
  }

  predicate Keeps(r: Reader, q: Query, line: string) {
    r.parse(line).Some? && Matches(q, r.parse(line).value, line)
  }

  // ---- the filter a walk must equal ----

  /** The matching lines up to line number `upto`, newest first. */
  function FileMatches(r: Reader, q: Query, f: LogFile, upto: nat): seq<Item>
    requires upto <= |f.lines|
  {
    if upto == 0 then []
    else
      (if Keeps(r, q, f.lines[upto - 1])
       then [Item(Key(r.fileId(f.first), upto), r.parse(f.lines[upto - 1]).value)] else [])
      + FileMatches(r, q, f, upto - 1)
  }

  /** Every matching line of every file, newest first. */
  function AllMatches(r: Reader, q: Query, files: seq<LogFile>): seq<Item> {
    if files == [] then []
    else FileMatches(r, q, files[0], |files[0].lines|) + AllMatches(r, q, files[1..])
  }

  /** Where a cursor points: the first file it names, and the line above its own. */
  function FindFile(r: Reader, files: seq<LogFile>, id: string): (i: nat)
    ensures i <= |files|
    ensures i < |files| ==> r.fileId(files[i].first) == id
    ensures forall k :: 0 <= k < i ==> r.fileId(files[k].first) != id
    decreases |files|
  {
    if files == [] || r.fileId(files[0].first) == id then 0
    else
      var i := FindFile(r, files[1..], id);
      assert forall k :: 1 <= k < i + 1 ==> files[k] == files[1..][k - 1];
      i + 1
  }

  /** The last line of file `f` still to be read; a negative start means its end. */
  function Upto(f: LogFile, startLine: int): (n: nat)
    ensures n <= |f.lines|
  {
    if startLine < 0 || startLine > |f.lines| then |f.lines| else startLine
  }

  /** The matches from the cursor on. */
  function Remaining(r: Reader, q: Query, files: seq<LogFile>, first: nat, startLine: int): seq<Item>
    requires first <= |files|
  {
    if first == |files| then []
    else FileMatches(r, q, files[first], Upto(files[first], startLine)) + AllMatches(r, q, files[first + 1..])
  }

  function Start(r: Reader, files: seq<LogFile>, cursor: Option<Key>): (nat, int) {
    if cursor.None? then (0, -1) else (FindFile(r, files, cursor.value.file), cursor.value.line - 1)
  }

  // ---- filling a page ----

  datatype Fill = Fill(items: seq<Item>, next: Option<Key>, full: bool)

  /** A page takes matches until it is full; one more only tells it has a successor. */
  function Absorb(fill: Fill, more: seq<Item>, limit: nat): Fill
    requires |fill.items| <= limit && 0 < limit
  {
    var total := fill.items + more;
    if fill.full then fill
    else if |total| <= limit then fill.(items := total)
    else Fill(total[..limit], Some(total[limit - 1].key), true)
  }

  lemma AbsorbAppend(fill: Fill, a: seq<Item>, b: seq<Item>, limit: nat)
    requires |fill.items| <= limit && 0 < limit
    ensures Absorb(Absorb(fill, a, limit), b, limit) == Absorb(fill, a + b, limit)
  {
    assert fill.items + a + b == fill.items + (a + b);
    if !fill.full && |fill.items + a| > limit {
      assert (fill.items + a)[..limit] == (fill.items + (a + b))[..limit];
    }
  }

  lemma AbsorbNothing(fill: Fill, limit: nat)
    requires |fill.items| <= limit && 0 < limit
    ensures Absorb(fill, [], limit) == fill
  {
    assert fill.items + [] == fill.items;
  }

  // ---- facets ----

  datatype Facets = Facets(actors: set<string>, families: set<string>)

  function AddFacets(f: Facets, row: Row): Facets {
    Facets(if row.actor != "" then f.actors + {row.actor} else f.actors,
           if row.kind != "" then f.families + {FamilyOf(row.kind)} else f.families)
  }

  function Union(a: Facets, b: Facets): Facets {
    Facets(a.actors + b.actors, a.families + b.families)
  }

  function LineFacets(r: Reader, lines: seq<string>): Facets {
    if lines == [] then Facets({}, {})
    else
      var rest := LineFacets(r, lines[1..]);
      if r.parse(lines[0]).Some? then AddFacets(rest, r.parse(lines[0]).value) else rest
  }

  /** Every actor and family of the whole log. */
  function AllFacets(r: Reader, files: seq<LogFile>): Facets {
    if files == [] then Facets({}, {})
    else Union(LineFacets(r, files[0].lines), AllFacets(r, files[1..]))
  }

  // ---- the loops ----

  /** One file, last line first: its candidates go to the page, all its rows to the facets. */
  method ScanFile(r: Reader, q: Query, lines: seq<string>, inPageRange: bool, startLine: int, fill0: Fill,
                  facets0: Facets, ghost f: LogFile)
    returns (fill: Fill, facets: Facets)
    requires 1 <= q.limit && |fill0.items| <= q.limit
    requires SoundFile(f) && f.lines == lines
    ensures |fill.items| <= q.limit
    ensures fill == if inPageRange then Absorb(fill0, FileMatches(r, q, f, Upto(f, startLine)), q.limit) else fill0
    ensures q.facets ==> facets == Union(facets0, LineFacets(r, lines))
  {
    hide Keeps, FamilyOf, Absorb, FileMatches, LineFacets, AddFacets, Union, SoundFile;
    fill, facets := fill0, facets0;
    FacetsOfNone(r, lines, facets0);
    NamedByFirst(f);
    NoMatches(r, q, f);
    AbsorbNothing(fill, q.limit);
    if lines == [] { return; }
    var id := r.fileId(lines[0]);
    var n := |lines|;
    ghost var upto := Upto(f, startLine);
    ghost var goal := Absorb(fill0, FileMatches(r, q, f, upto), q.limit);
    while n >= 1
      invariant 0 <= n <= |lines| && |fill.items| <= q.limit
      invariant !inPageRange ==> fill == fill0
      invariant inPageRange ==> goal == Absorb(fill, FileMatches(r, q, f, if n < upto then n else upto), q.limit)
      invariant q.facets ==> facets == Union(facets0, LineFacets(r, lines[n..]))
    {
      var line := lines[n - 1];
      var row := r.parse(line);
      var candidate := inPageRange && !fill.full && (startLine < 0 || n <= startLine);
      if q.facets && row.Some? {
        facets := AddFacets(facets, row.value);
      }
      FacetsOfLine(r, lines, n, facets0);
      if inPageRange && n <= upto {
        StepFill(r, q, f, n, fill);
      }
      if candidate && Keeps(r, q, line) {
        UnfoldKeeps(r, q, line);
        if |fill.items| == q.limit {
          // One more match exists: the page has a successor.
          fill := Fill(fill.items, Some(fill.items[|fill.items| - 1].key), true);
        } else {
          fill := fill.(items := fill.items + [Item(Key(id, n), row.value)]);
        }
      }
      n := n - 1;
    }
    AbsorbNothing(fill, q.limit);
    assert lines[0..] == lines;
  }

  lemma FacetsOfLine(r: Reader, lines: seq<string>, n: nat, facets0: Facets)
    requires 1 <= n <= |lines|
    ensures Union(facets0, LineFacets(r, lines[n - 1..])) ==
      var rest := Union(facets0, LineFacets(r, lines[n..]));
      if r.parse(lines[n - 1]).Some? then AddFacets(rest, r.parse(lines[n - 1]).value) else rest
  {
    hide FamilyOf;
    assert lines[n - 1..][1..] == lines[n..];
  }

  lemma FacetsOfNone(r: Reader, lines: seq<string>, facets0: Facets)
    ensures Union(facets0, LineFacets(r, lines[|lines|..])) == facets0
    ensures lines[0..] == lines
  {
  }

  lemma NamedByFirst(f: LogFile)
    requires SoundFile(f)
    ensures f.lines != [] ==> f.first == f.lines[0]
  {
  }

  lemma NoMatches(r: Reader, q: Query, f: LogFile)
    ensures FileMatches(r, q, f, 0) == []
  {
  }

  lemma UnfoldKeeps(r: Reader, q: Query, line: string)
    requires Keeps(r, q, line)
    ensures r.parse(line).Some?
  {
  }

  /** What line `n` does to a page that still has lines `n` and above to absorb. */
  lemma StepFill(r: Reader, q: Query, f: LogFile, n: nat, fill: Fill)
    requires 1 <= n <= |f.lines| && |fill.items| <= q.limit && 1 <= q.limit
    ensures var rest := FileMatches(r, q, f, n - 1);
      Absorb(fill, FileMatches(r, q, f, n), q.limit) ==
      if fill.full || !Keeps(r, q, f.lines[n - 1]) then Absorb(fill, rest, q.limit)
      else if |fill.items| == q.limit
        then Absorb(Fill(fill.items, Some(fill.items[|fill.items| - 1].key), true), rest, q.limit)
      else Absorb(fill.(items := fill.items + [Item(Key(r.fileId(f.first), n), r.parse(f.lines[n - 1]).value)]),
                  rest, q.limit)
  {
    hide Matches, Keeps, FileMatches, Absorb;
    var rest := FileMatches(r, q, f, n - 1);
    MatchesOfLine(r, q, f, n);
    if Keeps(r, q, f.lines[n - 1]) {
      var item := Item(Key(r.fileId(f.first), n), r.parse(f.lines[n - 1]).value);
      AbsorbAppend(fill, [item], rest, q.limit);
      AbsorbOne(fill, item, q.limit);
    }
    if fill.full {
      AbsorbFull(fill, rest, q.limit);
      AbsorbFull(fill, FileMatches(r, q, f, n), q.limit);
    }
  }

  lemma MatchesOfLine(r: Reader, q: Query, f: LogFile, n: nat)
    requires 1 <= n <= |f.lines|
    ensures Keeps(r, q, f.lines[n - 1]) ==> r.parse(f.lines[n - 1]).Some?
    ensures FileMatches(r, q, f, n) ==
      if Keeps(r, q, f.lines[n - 1])
      then [Item(Key(r.fileId(f.first), n), r.parse(f.lines[n - 1]).value)] + FileMatches(r, q, f, n - 1)
      else FileMatches(r, q, f, n - 1)
  {
    hide Matches;
    assert [] + FileMatches(r, q, f, n - 1) == FileMatches(r, q, f, n - 1);
  }

  lemma AbsorbOne(fill: Fill, item: Item, limit: nat)
    requires |fill.items| <= limit && 0 < limit
    ensures Absorb(fill, [item], limit) ==
      if fill.full then fill
      else if |fill.items| == limit then Fill(fill.items, Some(fill.items[|fill.items| - 1].key), true)
      else fill.(items := fill.items + [item])
  {
    if |fill.items| == limit {
      assert (fill.items + [item])[..limit] == fill.items;
    }
  }

  lemma AbsorbFull(fill: Fill, more: seq<Item>, limit: nat)
    requires |fill.items| <= limit && 0 < limit && fill.full
    ensures Absorb(fill, more, limit) == fill
  {
  }

  /** The matches from file `i` on, when the cursor stands in file `first`. */
  function RestAt(r: Reader, q: Query, files: seq<LogFile>, first: nat, startLine: int, i: nat): seq<Item>
    requires first <= |files| && i <= |files|
  {
    if i <= first then Remaining(r, q, files, first, startLine) else AllMatches(r, q, files[i..])
  }

  /** Reading file `i` takes its share of what the page still has to absorb. */
  lemma RestStep(r: Reader, q: Query, files: seq<LogFile>, first: nat, startLine: int, i: nat, fill: Fill)
    requires first <= |files| && i < |files| && |fill.items| <= q.limit && 1 <= q.limit
    ensures var start := if i == first then startLine else -1;
      var read :=
        if first <= i then Absorb(fill, FileMatches(r, q, files[i], Upto(files[i], start)), q.limit) else fill;
      Absorb(fill, RestAt(r, q, files, first, startLine, i), q.limit) ==
      Absorb(read, RestAt(r, q, files, first, startLine, i + 1), q.limit)
  {
    hide FileMatches, Absorb;
    if first <= i {
      assert files[i..][1..] == files[i + 1..];
      var start := if i == first then startLine else -1;
      var mine := FileMatches(r, q, files[i], Upto(files[i], start));
      assert RestAt(r, q, files, first, startLine, i) == mine + RestAt(r, q, files, first, startLine, i + 1);
      AbsorbAppend(fill, mine, RestAt(r, q, files, first, startLine, i + 1), q.limit);
    }
  }

  lemma FacetsStep(r: Reader, files: seq<LogFile>, i: nat, facets: Facets)
    requires i < |files|
    ensures Union(facets, AllFacets(r, files[i..])) ==
      Union(Union(facets, LineFacets(r, files[i].lines)), AllFacets(r, files[i + 1..]))
  {
    hide LineFacets;
    assert files[i..][1..] == files[i + 1..];
  }

  lemma FacetsEnds(r: Reader, files: seq<LogFile>, facets: Facets)
    ensures Union(facets, AllFacets(r, files[|files|..])) == facets
    ensures Union(Facets({}, {}), AllFacets(r, files[0..])) == AllFacets(r, files)
  {
    assert files[0..] == files;
  }

  /** The matches of a page and where the next one starts. */
  function PageOf(r: Reader, q: Query, files: seq<LogFile>, cursor: Option<Key>): (seq<Item>, Option<Key>)
    requires 1 <= q.limit
  {
    var (first, startLine) := Start(r, files, cursor);
    var fill := Absorb(Fill([], None, false), Remaining(r, q, files, first, startLine), q.limit);
    (fill.items, fill.next)
  }

  predicate Expired(r: Reader, q: Query, files: seq<LogFile>) {
    q.cursor.Some? && Start(r, files, q.cursor).0 == |files|
  }

  /** The answer to a query: a cursor whose file is gone has expired, and facets are those of the whole log. */
  ghost predicate Answers(r: Reader, q: Query, files: seq<LogFile>, page: Page)
    requires 1 <= q.limit
  {
    if Expired(r, q, files) then page == Page([], None, true, {}, {})
    else
      && !page.cursorExpired
      && (page.items, page.next) == PageOf(r, q, files, q.cursor)
      && Facets(page.actors, page.families) == if q.facets then AllFacets(r, files) else Facets({}, {})
  }

  method LocateCursor(r: Reader, files: seq<string>, id: string, ghost cap: Option<nat>) returns (i: nat)
    ensures i == FindFile(r, Opened(files, cap), id)
  {
    ghost var view := Opened(files, cap);
    i := 0;
    while i < |files| && r.fileId(FirstLine(files[i])) != id
      invariant i <= |files|
      invariant FindFile(r, view, id) == i + FindFile(r, view[i..], id)
    {
      assert view[i..][1..] == view[i + 1..];
      i := i + 1;
    }
  }

  method QueryAuditFiles(r: Reader, files: seq<string>, activeSize: Option<nat>, q: Query) returns (page: Page)
    requires 1 <= q.limit <= MAX_LIMIT
    ensures Answers(r, q, Opened(files, activeSize), page)
  {
    hide *;
    ghost var view := Opened(files, activeSize);
    var firstFile, startLine := 0, -1;
    StartOf(r, view, q.cursor);
    if q.cursor.Some? {
      firstFile := LocateCursor(r, files, q.cursor.value.file, activeSize);
      startLine := q.cursor.value.line - 1;
      if firstFile == |files| {
        page := Page([], None, true, {}, {});
        ExpiredAnswer(r, q, view, page);
        return;
      }
    }
    var fill, facets := Fill([], None, false), Facets({}, {});
    RestStarts(r, q, view, firstFile, startLine, if q.facets then 0 else firstFile);
    FacetsEnds(r, view, facets);
    ghost var goal := Absorb(fill, Remaining(r, q, view, firstFile, startLine), q.limit);
    var i := if q.facets then 0 else firstFile;
    while i < |files|
      invariant 0 <= i <= |files| && |fill.items| <= q.limit && (!q.facets ==> firstFile <= i)
      invariant goal == Absorb(fill, RestAt(r, q, view, firstFile, startLine, i), q.limit)
      invariant q.facets ==> Union(facets, AllFacets(r, view[i..])) == AllFacets(r, view)
    {
      var lines := ReadLines(files[i], if i == 0 then activeSize else None);
      ghost var f := view[i];
      OpenedSound(files[i], if i == 0 then activeSize else None);
      RestStep(r, q, view, firstFile, startLine, i, fill);
      FacetsStep(r, view, i, facets);
      fill, facets := ScanFile(r, q, lines, firstFile <= i, if i == firstFile then startLine else -1, fill, facets, f);
      i := i + 1;
      if fill.full && !q.facets {
        break;
      }
    }
    FillDone(r, q, view, firstFile, startLine, i, fill);
    FacetsEnds(r, view, facets);
    page := Page(fill.items, fill.next, false,
                 if q.facets then facets.actors else {}, if q.facets then facets.families else {});
    FullAnswer(r, q, view, page, fill, facets);
  }

  lemma ExpiredAnswer(r: Reader, q: Query, files: seq<LogFile>, page: Page)
    requires 1 <= q.limit && q.cursor.Some? && Start(r, files, q.cursor).0 == |files|
    requires page == Page([], None, true, {}, {})
    ensures Answers(r, q, files, page)
  {
  }

  lemma FullAnswer(r: Reader, q: Query, files: seq<LogFile>, page: Page, fill: Fill, facets: Facets)
    requires 1 <= q.limit && !(q.cursor.Some? && Start(r, files, q.cursor).0 == |files|)
    requires var (first, startLine) := Start(r, files, q.cursor);
      fill == Absorb(Fill([], None, false), Remaining(r, q, files, first, startLine), q.limit)
    requires q.facets ==> facets == AllFacets(r, files)
    requires page == Page(fill.items, fill.next, false, if q.facets then facets.actors else {},
                          if q.facets then facets.families else {})
    ensures Answers(r, q, files, page)
  {
    hide Absorb, Remaining, AllFacets, Start;
  }

  // ---- what the answer does not depend on ----

  /** Which lines match does not depend on the cursor or on whether facets are asked for. */
  lemma {:induction false} SameFileMatches(r: Reader, q: Query, b: bool, c: Option<Key>, f: LogFile, upto: nat)
    requires upto <= |f.lines|
    ensures FileMatches(r, q.(facets := b, cursor := c), f, upto) == FileMatches(r, q, f, upto)
    decreases upto
  {
    hide FileMatches, Matches;
    var q' := q.(facets := b, cursor := c);
    if upto == 0 {
      NoMatches(r, q, f);
      NoMatches(r, q', f);
    } else {
      SameFileMatches(r, q, b, c, f, upto - 1);
      MatchesOfLine(r, q, f, upto);
      MatchesOfLine(r, q', f, upto);
      SameKeeps(r, q, b, c, f.lines[upto - 1]);
    }
  }

  lemma SameKeeps(r: Reader, q: Query, b: bool, c: Option<Key>, line: string)
    ensures Keeps(r, q.(facets := b, cursor := c), line) == Keeps(r, q, line)
  {
    hide IsFailure, IsAdmin, FamilyOf, Contains, Lower, Less;
  }

  lemma {:induction false} SameMatches(r: Reader, q: Query, b: bool, c: Option<Key>, files: seq<LogFile>)
    ensures AllMatches(r, q.(facets := b, cursor := c), files) == AllMatches(r, q, files)
    decreases |files|
  {
    hide FileMatches;
    if files != [] {
      SameFileMatches(r, q, b, c, files[0], |files[0].lines|);
      SameMatches(r, q, b, c, files[1..]);
    }
  }

  lemma SamePage(r: Reader, q: Query, b: bool, c: Option<Key>, files: seq<LogFile>, cursor: Option<Key>)
    requires 1 <= q.limit
    ensures PageOf(r, q.(facets := b, cursor := c), files, cursor) == PageOf(r, q, files, cursor)
  {
    hide FileMatches, AllMatches, Absorb, FindFile;
    var (first, startLine) := Start(r, files, cursor);
    if first < |files| {
      SameFileMatches(r, q, b, c, files[first], Upto(files[first], startLine));
      SameMatches(r, q, b, c, files[first + 1..]);
    }
  }

  /** A cursor that has expired would leave nothing. */
  lemma ExpiredIsEmpty(r: Reader, q: Query, files: seq<LogFile>)
    requires 1 <= q.limit && Expired(r, q, files)
    ensures PageOf(r, q, files, q.cursor) == ([], None)
  {
    AbsorbNothing(Fill([], None, false), q.limit);
  }

  /** An answer, with or without facets, is the page at its cursor of the query that has neither. */
  lemma AnswerIsPage(r: Reader, q: Query, b: bool, c: Option<Key>, files: seq<LogFile>, page: Page)
    requires 1 <= q.limit && Answers(r, q.(facets := b, cursor := c), files, page)
    ensures (page.items, page.next) == PageOf(r, q, files, c)
    ensures page.cursorExpired == Expired(r, q.(cursor := c), files)
  {
    hide PageOf, AllFacets;
    var q' := q.(facets := b, cursor := c);
    SamePage(r, q, b, c, files, c);
    if Expired(r, q', files) {
      ExpiredIsEmpty(r, q', files);
    }
  }

  lemma StartOf(r: Reader, files: seq<LogFile>, cursor: Option<Key>)
    ensures Start(r, files, cursor) ==
      if cursor.None? then (0, -1) else (FindFile(r, files, cursor.value.file), cursor.value.line - 1)
  {
  }

  lemma RestStarts(r: Reader, q: Query, files: seq<LogFile>, first: nat, startLine: int, i: nat)
    requires i <= first <= |files|
    ensures RestAt(r, q, files, first, startLine, i) == Remaining(r, q, files, first, startLine)
  {
  }

  lemma FillDone(r: Reader, q: Query, files: seq<LogFile>, first: nat, startLine: int, i: nat, fill: Fill)
    requires first <= |files| && i <= |files| && |fill.items| <= q.limit && 0 < q.limit
    requires fill.full || i == |files|
    ensures Absorb(fill, RestAt(r, q, files, first, startLine, i), q.limit) == fill
  {
    if i == |files| {
      assert RestAt(r, q, files, first, startLine, i) == [];
      AbsorbNothing(fill, q.limit);
    }
  }
}
