/**
 Following `next` page after page while the log goes on growing: the pages put
 together are the matches that were there at the first page, once each.
 */
module AuditWalk {
  import opened Options
  import opened LogFiles
  import opened AuditQuery

  ghost predicate DistinctIds(r: Reader, files: seq<LogFile>) {
    forall i, j :: 0 <= i < j < |files| ==> r.fileId(files[i].first) != r.fileId(files[j].first)
  }

  /** A match's key tells its file and line, and what comes after it in the listing. */
  ghost predicate At(r: Reader, q: Query, files: seq<LogFile>, p: nat, i: nat, n: nat)
    requires 0 < p <= |AllMatches(r, q, files)|
  {
    && i < |files| && 1 <= n <= |files[i].lines|
    && AllMatches(r, q, files)[p - 1].key == Key(r.fileId(files[i].first), n)
    && AllMatches(r, q, files)[p..] == FileMatches(r, q, files[i], n - 1) + AllMatches(r, q, files[i + 1..])
  }

  lemma {:induction false} FilePosition(r: Reader, q: Query, f: LogFile, upto: nat, p: nat) returns (n: nat)
    requires 0 < upto <= |f.lines| && 0 < p <= |FileMatches(r, q, f, upto)|
    ensures 1 <= n <= upto
    ensures FileMatches(r, q, f, upto)[p - 1].key == Key(r.fileId(f.first), n)
    ensures FileMatches(r, q, f, upto)[p..] == FileMatches(r, q, f, n - 1)
    decreases upto
  {
    hide *;
    var rest := FileMatches(r, q, f, upto - 1);
    OneMore(r, q, f, upto);
    if Keeps(r, q, f.lines[upto - 1]) {
      assert FileMatches(r, q, f, upto)[1..] == rest;
      if p == 1 {
        n := upto;
      } else {
        n := FilePosition(r, q, f, upto - 1, p - 1);
        assert FileMatches(r, q, f, upto)[p..] == rest[p - 1..];
      }
    } else {
      n := FilePosition(r, q, f, upto - 1, p);
    }
  }

  lemma OneMore(r: Reader, q: Query, f: LogFile, upto: nat)
    requires 0 < upto <= |f.lines|
    ensures upto == 1 ==> FileMatches(r, q, f, upto - 1) == []
    ensures Keeps(r, q, f.lines[upto - 1]) ==>
      && r.parse(f.lines[upto - 1]).Some?
      && FileMatches(r, q, f, upto) ==
          [Item(Key(r.fileId(f.first), upto), r.parse(f.lines[upto - 1]).value)] + FileMatches(r, q, f, upto - 1)
    ensures !Keeps(r, q, f.lines[upto - 1]) ==> FileMatches(r, q, f, upto) == FileMatches(r, q, f, upto - 1)
  {
    hide Matches;
    assert [] + FileMatches(r, q, f, upto - 1) == FileMatches(r, q, f, upto - 1);
  }

  lemma {:induction false} Position(r: Reader, q: Query, files: seq<LogFile>, p: nat) returns (i: nat, n: nat)
    requires 0 < p <= |AllMatches(r, q, files)|
    ensures At(r, q, files, p, i, n)
    decreases |files|
  {
    var mine := FileMatches(r, q, files[0], |files[0].lines|);
    var others := AllMatches(r, q, files[1..]);
    assert AllMatches(r, q, files) == mine + others;
    if p <= |mine| {
      i := 0;
      n := FilePosition(r, q, files[0], |files[0].lines|, p);
      assert (mine + others)[p..] == mine[p..] + others;
    } else {
      i, n := Position(r, q, files[1..], p - |mine|);
      i := i + 1;
      assert (mine + others)[p..] == others[p - |mine|..];
      assert files[1..][i..] == files[i + 1..];
    }
  }

  /** Lines below an unchanged prefix match as before. */
  lemma {:induction false} PrefixMatches(r: Reader, q: Query, f: LogFile, g: LogFile, upto: nat)
    requires f.lines <= g.lines && f.first == g.first && upto <= |f.lines|
    ensures FileMatches(r, q, f, upto) == FileMatches(r, q, g, upto)
  {
    hide Keeps;
    if upto > 0 {
      assert f.lines[upto - 1] == g.lines[upto - 1];
      PrefixMatches(r, q, f, g, upto - 1);
    }
  }

  lemma FoundAt(r: Reader, files: seq<LogFile>, j: nat)
    requires DistinctIds(r, files) && j < |files|
    ensures FindFile(r, files, r.fileId(files[j].first)) == j
  {
    var k := FindFile(r, files, r.fileId(files[j].first));
    assert k < |files| ==> r.fileId(files[k].first) == r.fileId(files[j].first);
  }

  /** A page asked for after match number `p` starts at match `p`, however the log has grown. */
  lemma Resume(r: Reader, q: Query, before: seq<LogFile>, after: seq<LogFile>, p: nat)
    requires Extends(before, after) && DistinctIds(r, after)
    requires 0 < p <= |AllMatches(r, q, before)|
    ensures var (first, startLine) := Start(r, after, Some(AllMatches(r, q, before)[p - 1].key));
      first < |after| && Remaining(r, q, after, first, startLine) == AllMatches(r, q, before)[p..]
  {
    hide FileMatches, AllMatches, Keeps, FindFile, Extends, DistinctIds;
    var i, n := Position(r, q, before, p);
    var j := |after| - |before| + i;
    GrownFrom(before, after, i);
    FoundAt(r, after, j);
    PrefixMatches(r, q, before[i], after[j], n - 1);
  }

  /** From file `i` on, only the newest may have grown. */
  lemma GrownFrom(before: seq<LogFile>, after: seq<LogFile>, i: nat)
    requires Extends(before, after) && i < |before|
    ensures var j := |after| - |before| + i;
      && |before| <= |after| && Grown(before[i], after[j], i == 0)
      && after[j + 1..] == before[i + 1..]
  {
    var k := |after| - |before|;
    forall m | i + 1 <= m < |before| ensures before[m] == after[k + m] {
      assert Grown(before[m], after[k + m], false);
    }
  }

  /** The page that starts at match `p` of `all`. */
  lemma PageFrom(all: seq<Item>, p: nat, limit: nat)
    requires p <= |all| && 1 <= limit
    ensures var fill := Absorb(Fill([], None, false), all[p..], limit);
      var end := if p + limit <= |all| then p + limit else |all|;
      && fill.items == all[p..end]
      && fill.next == if end < |all| then Some(all[end - 1].key) else None
  {
    assert [] + all[p..] == all[p..];
    if p + limit < |all| {
      assert all[p..][..limit] == all[p..p + limit];
    }
  }

  /**
   The first `k` pages, the log being `logs(j)` when page `j` is read, and the
   cursor they leave; an empty cursor ends the walk.
   */
  function Walk(r: Reader, q: Query, logs: nat -> seq<LogFile>, k: nat): (seq<Item>, Option<Key>)
    requires 1 <= q.limit
  {
    if k == 0 then ([], None)
    else if k == 1 then PageOf(r, q, logs(0), None)
    else
      var (items, next) := Walk(r, q, logs, k - 1);
      if next.None? then (items, None)
      else
        var (more, next') := PageOf(r, q, logs(k - 1), next);
        (items + more, next')
  }

  ghost predicate Growing(r: Reader, logs: nat -> seq<LogFile>) {
    forall j: nat :: Extends(logs(j), logs(j + 1)) && DistinctIds(r, logs(j))
  }

  lemma {:induction false} GrowsFromStart(r: Reader, logs: nat -> seq<LogFile>, k: nat)
    requires Growing(r, logs)
    ensures Extends(logs(0), logs(k)) && DistinctIds(r, logs(k))
    decreases k
  {
    if k == 0 {
      ExtendsRefl(logs(0));
      assert DistinctIds(r, logs(0));
    } else {
      GrowsFromStart(r, logs, k - 1);
      assert Extends(logs(k - 1), logs(k - 1 + 1));
      assert Extends(logs(k), logs(k + 1)) && DistinctIds(r, logs(k));
      ExtendsTransitive(logs(0), logs(k - 1), logs(k));
    }
  }

  /** What the walk has to show after the first `p` matches were asked for. */
  ghost predicate Listed(all: seq<Item>, shown: (seq<Item>, Option<Key>), p: nat)
    requires 0 < p
  {
    var end := if p <= |all| then p else |all|;
    shown.0 == all[..end] && shown.1 == if p < |all| then Some(all[p - 1].key) else None
  }

  lemma NextPage(r: Reader, q: Query, first: seq<LogFile>, now: seq<LogFile>, items: seq<Item>, p: nat)
    requires 1 <= q.limit && Extends(first, now) && DistinctIds(r, now)
    requires 0 < p < |AllMatches(r, q, first)| && items == AllMatches(r, q, first)[..p]
    ensures var all := AllMatches(r, q, first);
      var (more, next) := PageOf(r, q, now, Some(all[p - 1].key));
      Listed(all, (items + more, next), p + q.limit)
  {
    hide AllMatches, FileMatches, Absorb, Extends, DistinctIds, FindFile, Remaining;
    var all := AllMatches(r, q, first);
    Resume(r, q, first, now, p);
    PageFrom(all, p, q.limit);
    var end := if p + q.limit <= |all| then p + q.limit else |all|;
    assert all[..p] + all[p..end] == all[..end];
  }

  /**
   After k pages the walk has listed exactly the first k * limit matches of the
   log as it was at the first page, and stops exactly when there are no more.
   */
  lemma {:induction false} WalkIsFilter(r: Reader, q: Query, logs: nat -> seq<LogFile>, k: nat)
    requires 1 <= q.limit && 1 <= k && Growing(r, logs)
    ensures 0 < k * q.limit && Listed(AllMatches(r, q, logs(0)), Walk(r, q, logs, k), k * q.limit)
    decreases k
  {
    hide AllMatches, PageOf, Growing, Extends, DistinctIds;
    var all := AllMatches(r, q, logs(0));
    if k == 1 {
      FirstPage(r, q, logs(0));
    } else {
      WalkIsFilter(r, q, logs, k - 1);
      var p := (k - 1) * q.limit;
      assert k * q.limit == p + q.limit;
      if p < |all| {
        GrowsFromStart(r, logs, k - 1);
        assert p > 0;
        NextPage(r, q, logs(0), logs(k - 1), Walk(r, q, logs, k - 1).0, p);
      }
    }
  }

  lemma FirstPage(r: Reader, q: Query, files: seq<LogFile>)
    requires 1 <= q.limit
    ensures Listed(AllMatches(r, q, files), PageOf(r, q, files, None), q.limit)
  {
    hide FileMatches, AllMatches, Absorb, Remaining;
    var all := AllMatches(r, q, files);
    FirstRemaining(r, q, files);
    PageFrom(all, 0, q.limit);
    assert all[0..] == all;
  }

  lemma FirstRemaining(r: Reader, q: Query, files: seq<LogFile>)
    ensures Remaining(r, q, files, 0, -1) == AllMatches(r, q, files)
  {
    hide FileMatches;
  }

  /** The walk ends, and then it has listed every match of the first page's log. */
  lemma WalkEnds(r: Reader, q: Query, logs: nat -> seq<LogFile>) returns (k: nat)
    requires 1 <= q.limit && Growing(r, logs)
    ensures 1 <= k <= |AllMatches(r, q, logs(0))| + 1
    ensures Walk(r, q, logs, k) == (AllMatches(r, q, logs(0)), None)
  {
    var all := AllMatches(r, q, logs(0));
    k := |all| + 1;
    assert k * q.limit >= k;
    WalkIsFilter(r, q, logs, k);
    assert all[..|all|] == all;
  }

  /** No match is listed twice: keys never repeat. */
  lemma {:induction false} KeysDistinct(r: Reader, q: Query, files: seq<LogFile>, a: nat, b: nat)
    requires DistinctIds(r, files) && a < b < |AllMatches(r, q, files)|
    ensures AllMatches(r, q, files)[a].key != AllMatches(r, q, files)[b].key
  {
    hide FileMatches, AllMatches, FindFile;
    ExtendsRefl(files);
    Resume(r, q, files, files, a + 1);
    Resume(r, q, files, files, b + 1);
    var all := AllMatches(r, q, files);
    assert |all[a + 1..]| != |all[b + 1..]|;
  }

  // ---- over the bytes of the files ----

  /** What each page reads: bytes only grow, and the files keep distinct identities. */
  ghost predicate BytesGrowing(r: Reader, frozen: nat -> Frozen) {
    forall j: nat :: BytesGrow(frozen(j), frozen(j + 1)) && DistinctIds(r, View(frozen(j)))
  }

  function CursorAt(pages: seq<Page>, j: nat): Option<Key>
    requires j <= |pages|
  {
    if j == 0 then None else pages[j - 1].next
  }

  /** Page `j` is asked of the files as frozen then, at the cursor page `j - 1` gave, with or without facets. */
  ghost predicate FollowedAt(r: Reader, q: Query, frozen: nat -> Frozen, facets: nat -> bool, pages: seq<Page>, j: nat)
    requires 1 <= q.limit && j < |pages|
  {
    && (j > 0 ==> CursorAt(pages, j).Some?)
    && Answers(r, q.(facets := facets(j), cursor := CursorAt(pages, j)), View(frozen(j)), pages[j])
  }

  /** Answers got by following `next`. */
  ghost predicate Followed(r: Reader, q: Query, frozen: nat -> Frozen, facets: nat -> bool, pages: seq<Page>)
    requires 1 <= q.limit
  {
    forall j: nat :: j < |pages| ==> FollowedAt(r, q, frozen, facets, pages, j)
  }

  function Shown(pages: seq<Page>): seq<Item>
    decreases |pages|
  {
    if pages == [] then [] else Shown(pages[..|pages| - 1]) + pages[|pages| - 1].items
  }

  /** The answers put together are the walk over the query that has neither cursor nor facets. */
  lemma {:induction false} FollowedIsWalk(r: Reader, q: Query, frozen: nat -> Frozen, facets: nat -> bool,
                                          pages: seq<Page>, logs: nat -> seq<LogFile>)
    requires 1 <= q.limit && Followed(r, q, frozen, facets, pages)
    requires forall j: nat :: logs(j) == View(frozen(j))
    ensures Walk(r, q, logs, |pages|) == (Shown(pages), CursorAt(pages, |pages|))
    decreases |pages|
  {
    hide View, Walk, PageOf, Followed, FollowedAt;
    WalkNext(r, q, logs, |pages|);
    if pages != [] {
      var k := |pages| - 1;
      var init := pages[..k];
      InitFollowed(r, q, frozen, facets, pages);
      FollowedIsWalk(r, q, frozen, facets, init, logs);
      LastAnswer(r, q, frozen, facets, pages);
      if k == 0 { assert Shown(init) + pages[0].items == pages[0].items; }
    }
  }

  lemma WalkNext(r: Reader, q: Query, logs: nat -> seq<LogFile>, k: nat)
    requires 1 <= q.limit
    ensures k == 0 ==> Walk(r, q, logs, k) == ([], None)
    ensures k == 1 ==> Walk(r, q, logs, k) == PageOf(r, q, logs(0), None)
    ensures k > 1 && Walk(r, q, logs, k - 1).1.Some? ==>
      var (items, next) := Walk(r, q, logs, k - 1);
      var (more, next') := PageOf(r, q, logs(k - 1), next);
      Walk(r, q, logs, k) == (items + more, next')
  {
    hide PageOf;
  }

  lemma LastAnswer(r: Reader, q: Query, frozen: nat -> Frozen, facets: nat -> bool, pages: seq<Page>)
    requires 1 <= q.limit && Followed(r, q, frozen, facets, pages) && pages != []
    ensures var k := |pages| - 1; var cursor := CursorAt(pages, k);
      && (k > 0 ==> cursor.Some?)
      && (pages[k].items, pages[k].next) == PageOf(r, q, View(frozen(k)), cursor)
      && pages[k].cursorExpired == Expired(r, q.(cursor := cursor), View(frozen(k)))
  {
    hide Answers, PageOf, View, Expired;
    var k := |pages| - 1;
    assert FollowedAt(r, q, frozen, facets, pages, k);
    AnswerIsPage(r, q, facets(k), CursorAt(pages, k), View(frozen(k)), pages[k]);
  }

  lemma InitFollowed(r: Reader, q: Query, frozen: nat -> Frozen, facets: nat -> bool, pages: seq<Page>)
    requires 1 <= q.limit && Followed(r, q, frozen, facets, pages) && pages != []
    ensures var init := pages[..|pages| - 1];
      Followed(r, q, frozen, facets, init) && CursorAt(init, |init|) == CursorAt(pages, |init|)
  {
    hide Answers, View;
    var init := pages[..|pages| - 1];
    forall j: nat | j < |init| ensures FollowedAt(r, q, frozen, facets, init, j) {
      assert FollowedAt(r, q, frozen, facets, pages, j);
      assert CursorAt(init, j) == CursorAt(pages, j) && init[j] == pages[j];
    }
  }

  lemma BytesGrowingLogs(r: Reader, frozen: nat -> Frozen, logs: nat -> seq<LogFile>)
    requires BytesGrowing(r, frozen) && forall j: nat :: logs(j) == View(frozen(j))
    ensures Growing(r, logs)
  {
    hide BytesGrow, Extends, DistinctIds, View;
    forall j: nat ensures Extends(logs(j), logs(j + 1)) && DistinctIds(r, logs(j)) {
      assert BytesGrow(frozen(j), frozen(j + 1)) && DistinctIds(r, View(frozen(j)));
      BytesGrowExtends(frozen(j), frozen(j + 1));
    }
  }

  /**
   While bytes are appended and files rotated between them, the pages list the matches of the first
   page's log in order and once each; there are no more pages than that takes, and no cursor expires.
   */
  lemma WalkOverBytes(r: Reader, q: Query, frozen: nat -> Frozen, facets: nat -> bool, pages: seq<Page>)
    requires 1 <= q.limit && BytesGrowing(r, frozen) && Followed(r, q, frozen, facets, pages) && pages != []
    ensures var all := AllMatches(r, q, View(frozen(0)));
      && 0 < |pages| * q.limit && Listed(all, (Shown(pages), pages[|pages| - 1].next), |pages| * q.limit)
      && (|pages| == 1 || (|pages| - 1) * q.limit < |all|)
      && !pages[|pages| - 1].cursorExpired
  {
    hide AllMatches, PageOf, Walk, BytesGrowing, Growing, View, Answers, Followed;
    var logs := (j: nat) => View(frozen(j));
    BytesGrowingLogs(r, frozen, logs);
    FollowedIsWalk(r, q, frozen, facets, pages, logs);
    WalkIsFilter(r, q, logs, |pages|);
    LastPage(r, q, frozen, facets, pages, logs);
  }

  /** The cursor of the last page was given by the page before, so its file is still there. */
  lemma LastPage(r: Reader, q: Query, frozen: nat -> Frozen, facets: nat -> bool, pages: seq<Page>,
                 logs: nat -> seq<LogFile>)
    requires 1 <= q.limit && Growing(r, logs) && Followed(r, q, frozen, facets, pages) && pages != []
    requires forall j: nat :: logs(j) == View(frozen(j))
    ensures var all := AllMatches(r, q, View(frozen(0)));
      |pages| == 1 || (|pages| - 1) * q.limit < |all|
    ensures !pages[|pages| - 1].cursorExpired
  {
    hide AllMatches, PageOf, Walk, Growing, View, Followed, Extends, DistinctIds, Start, Remaining;
    var k := |pages| - 1;
    LastAnswer(r, q, frozen, facets, pages);
    if k > 0 {
      var p := k * q.limit;
      InitFollowed(r, q, frozen, facets, pages);
      FollowedIsWalk(r, q, frozen, facets, pages[..k], logs);
      WalkIsFilter(r, q, logs, k);
      assert logs(0) == View(frozen(0)) && logs(k) == View(frozen(k));
      GrowsFromStart(r, logs, k);
      Resume(r, q, logs(0), logs(k), p);
    }
  }
}
