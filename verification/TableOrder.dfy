/**
 The load order of the SQLite-to-PostgreSQL migration: a depth-first walk over
 foreign keys that emits parents before children and breaks cycles.
 */
module TableOrder {
  import opened Lex

  type Deps = map<string, set<string>>

  /** For each table, the other tables of the list its foreign keys refer to. */
  function DepsOf(tables: set<string>, foreignKeys: map<string, set<string>>): Deps {
    map t | t in tables ::
      set p | p in (if t in foreignKeys then foreignKeys[t] else {}) && p in tables && p != t
  }

  /** A foreign key of table `t` refers to another table `p` of the list. */
  predicate RefersTo(tables: set<string>, foreignKeys: map<string, set<string>>, t: string, p: string) {
    t in tables && p in tables && t != p && t in foreignKeys && p in foreignKeys[t]
  }

  /** A walk along foreign keys from `a` to `b`. */
  ghost predicate LeadsTo(tables: set<string>, foreignKeys: map<string, set<string>>, a: string, b: string) {
    exists s: seq<string> :: Walk(tables, foreignKeys, s) && s[0] == a && s[|s| - 1] == b
  }

  ghost predicate Walk(tables: set<string>, foreignKeys: map<string, set<string>>, s: seq<string>) {
    |s| >= 2 && forall i :: 0 <= i < |s| - 1 ==> RefersTo(tables, foreignKeys, s[i], s[i + 1])
  }

  predicate Closed(deps: Deps) {
    forall t :: t in deps ==> forall p :: p in deps[t] ==> p in deps
  }

  // ---- sorted() ----

  predicate IsLeast(s: set<string>, m: string) {
    m in s && forall x :: x in s ==> AtMost(m, x)
  }

  lemma SmallerIsLeast(s: set<string>, y: string, m: string)
    requires y in s && IsLeast(s - {y}, m)
    ensures IsLeast(s, if Less(y, m) then y else m)
  {
    hide Less, AtMost;
    var l := if Less(y, m) then y else m;
    forall x | x in s ensures AtMost(l, x) {
      assert x == y || x in s - {y};
      SmallerAtMost(y, m, l, x);
    }
  }

  lemma SmallerAtMost(y: string, m: string, l: string, x: string)
    requires l == (if Less(y, m) then y else m)
    requires x == y || AtMost(m, x)
    ensures AtMost(l, x)
  {
    LessTotal(y, m);
    LessIrreflexive(y);
    if x != y {
      LessAtMost(y, m, x);
      if Less(y, m) && Less(x, y) { LessAsymmetric(x, y); }
    }
  }

  lemma SingleLeast(y: string)
    ensures IsLeast({y}, y)
  {
    LessIrreflexive(y);
  }

  lemma {:induction false} LeastExists(s: set<string>)
    requires s != {}
    ensures exists m :: IsLeast(s, m)
  {
    hide IsLeast;
    var y :| y in s;
    if s == {y} {
      SingleLeast(y);
    } else {
      assert s - {y} != {};
      LeastExists(s - {y});
      var m :| IsLeast(s - {y}, m);
      SmallerIsLeast(s, y, m);
    }
  }

  lemma LeastUnique(s: set<string>, a: string, b: string)
    requires IsLeast(s, a) && IsLeast(s, b)
    ensures a == b
  {
    LessTotal(a, b);
  }

  function Least(s: set<string>): (m: string)
    requires s != {}
    ensures IsLeast(s, m)
  {
    LeastExists(s);
    assert forall a, b | IsLeast(s, a) && IsLeast(s, b) :: a == b by {
      forall a, b | IsLeast(s, a) && IsLeast(s, b) ensures a == b {
        LeastUnique(s, a, b);
      }
    }
    var m :| IsLeast(s, m);
    m
  }

  /** Python's sorted() on the names of a set. */
  function Sorted(s: set<string>): (r: seq<string>)
    ensures forall x :: x in r <==> x in s
    ensures |r| == |s|
    ensures forall i, j :: 0 <= i < j < |r| ==> AtMost(r[i], r[j])
  {
    if s == {} then []
    else
      var m := Least(s);
      [m] + Sorted(s - {m})
  }

  // ---- paths and cycles ----

  /** A walk along foreign keys: each table refers to the next. */
  ghost predicate Path(deps: Deps, s: seq<string>) {
    && |s| >= 2
    && (forall i :: 0 <= i < |s| ==> s[i] in deps)
    && (forall i :: 0 <= i < |s| - 1 ==> s[i + 1] in deps[s[i]])
  }

  ghost predicate Reaches(deps: Deps, a: string, b: string) {
    exists s :: Path(deps, s) && s[0] == a && s[|s| - 1] == b
  }

  ghost predicate Acyclic(deps: Deps) {
    forall t :: !Reaches(deps, t, t)
  }

  lemma EdgeReaches(deps: Deps, t: string, p: string)
    requires Closed(deps) && t in deps && p in deps[t]
    ensures Reaches(deps, t, p)
  {
    var s := [t, p];
    assert Path(deps, s) && s[0] == t && s[|s| - 1] == p;
  }

  lemma ReachesStep(deps: Deps, a: string, t: string, p: string)
    requires Closed(deps) && Reaches(deps, a, t) && t in deps && p in deps[t]
    ensures Reaches(deps, a, p)
  {
    var s :| Path(deps, s) && s[0] == a && s[|s| - 1] == t;
    var r := s + [p];
    assert Path(deps, r) && r[0] == a && r[|r| - 1] == p;
  }

  lemma DepsExactly(tables: set<string>, foreignKeys: map<string, set<string>>, t: string, p: string)
    ensures var deps := DepsOf(tables, foreignKeys);
      && (t in deps <==> t in tables)
      && (t in deps && p in deps[t] <==> RefersTo(tables, foreignKeys, t, p))
  {
  }

  lemma WalksArePaths(tables: set<string>, foreignKeys: map<string, set<string>>, s: seq<string>)
    ensures Walk(tables, foreignKeys, s) <==> Path(DepsOf(tables, foreignKeys), s)
  {
    hide DepsOf, RefersTo;
    var deps := DepsOf(tables, foreignKeys);
    forall i | 0 <= i < |s| - 1
      ensures RefersTo(tables, foreignKeys, s[i], s[i + 1]) <==> s[i] in deps && s[i + 1] in deps[s[i]]
    {
      DepsExactly(tables, foreignKeys, s[i], s[i + 1]);
    }
    if Walk(tables, foreignKeys, s) {
      forall i | 0 <= i < |s| ensures s[i] in deps {
        WalkStays(tables, foreignKeys, s, i);
        DepsExactly(tables, foreignKeys, s[i], s[i]);
      }
    }
  }

  lemma WalkStays(tables: set<string>, foreignKeys: map<string, set<string>>, s: seq<string>, i: nat)
    requires Walk(tables, foreignKeys, s) && i < |s|
    ensures s[i] in tables
  {
    if i > 0 {
      assert RefersTo(tables, foreignKeys, s[i - 1], s[i - 1 + 1]);
    } else {
      assert RefersTo(tables, foreignKeys, s[0], s[0 + 1]);
    }
  }

  lemma LeadsExactly(tables: set<string>, foreignKeys: map<string, set<string>>, a: string, b: string)
    ensures LeadsTo(tables, foreignKeys, a, b) <==> Reaches(DepsOf(tables, foreignKeys), a, b)
  {
    hide DepsOf, RefersTo;
    if s: seq<string> :| Walk(tables, foreignKeys, s) && s[0] == a && s[|s| - 1] == b {
      WalksArePaths(tables, foreignKeys, s);
    }
    if s :| Path(DepsOf(tables, foreignKeys), s) && s[0] == a && s[|s| - 1] == b {
      WalksArePaths(tables, foreignKeys, s);
    }
  }

  // ---- what the order guarantees ----

  /** Each parent comes first, unless the edge to it lies on a cycle. */
  ghost predicate ParentsFirst(deps: Deps, order: seq<string>) {
    forall k, p :: 0 <= k < |order| && order[k] in deps && p in deps[order[k]] ==>
      p in order[..k] || Reaches(deps, p, order[k])
  }

  /** Each table a foreign key refers to comes before it, unless the key lies on a cycle. */
  ghost predicate ReferredFirst(tables: set<string>, foreignKeys: map<string, set<string>>, order: seq<string>) {
    forall k, p :: 0 <= k < |order| && RefersTo(tables, foreignKeys, order[k], p) ==>
      p in order[..k] || LeadsTo(tables, foreignKeys, p, order[k])
  }

  lemma ReferredExactly(tables: set<string>, foreignKeys: map<string, set<string>>, order: seq<string>)
    requires ParentsFirst(DepsOf(tables, foreignKeys), order)
    ensures ReferredFirst(tables, foreignKeys, order)
  {
    hide DepsOf, Reaches, LeadsTo, RefersTo;
    forall k, p | 0 <= k < |order| && RefersTo(tables, foreignKeys, order[k], p)
      ensures p in order[..k] || LeadsTo(tables, foreignKeys, p, order[k])
    {
      DepsExactly(tables, foreignKeys, order[k], p);
      LeadsExactly(tables, foreignKeys, p, order[k]);
    }
  }

  /** No cycles among the foreign keys: every table referred to comes first, and only then. */
  lemma ReferredIffAcyclic(tables: set<string>, foreignKeys: map<string, set<string>>, order: seq<string>)
    requires var deps := DepsOf(tables, foreignKeys); Topological(deps, order) <==> Acyclic(deps)
    ensures (forall k, p :: 0 <= k < |order| && RefersTo(tables, foreignKeys, order[k], p) ==> p in order[..k])
       <==> (forall t :: !LeadsTo(tables, foreignKeys, t, t))
  {
    hide DepsOf, Reaches, LeadsTo, RefersTo;
    var deps := DepsOf(tables, foreignKeys);
    forall t, p ensures t in deps && p in deps[t] <==> RefersTo(tables, foreignKeys, t, p) {
      DepsExactly(tables, foreignKeys, t, p);
    }
    forall t ensures LeadsTo(tables, foreignKeys, t, t) <==> Reaches(deps, t, t) {
      LeadsExactly(tables, foreignKeys, t, t);
    }
  }

  ghost predicate NoRepeats(order: seq<string>) {
    forall i, j :: 0 <= i < j < |order| ==> order[i] != order[j]
  }

  ghost predicate Topological(deps: Deps, order: seq<string>) {
    forall k, p :: 0 <= k < |order| && order[k] in deps && p in deps[order[k]] ==> p in order[..k]
  }

  lemma ParentsFirstAppend(deps: Deps, order: seq<string>, t: string)
    requires ParentsFirst(deps, order)
    requires t in deps && forall p :: p in deps[t] ==> p in order || Reaches(deps, p, t)
    ensures ParentsFirst(deps, order + [t])
  {
    var grown := order + [t];
    forall k, p | 0 <= k < |grown| && grown[k] in deps && p in deps[grown[k]]
      ensures p in grown[..k] || Reaches(deps, p, grown[k])
    {
      if k < |order| {
        assert grown[..k] == order[..k];
        assert p in order[..k] || Reaches(deps, p, order[k]);
      } else {
        assert grown[..k] == order;
      }
    }
  }

  lemma NoRepeatsAppend(order: seq<string>, t: string)
    requires NoRepeats(order) && t !in order
    ensures NoRepeats(order + [t])
  {}

  /** On an acyclic graph the order is topological; and only an acyclic graph has one. */
  lemma TopologicalIffAcyclic(deps: Deps, order: seq<string>)
    requires Closed(deps) && ParentsFirst(deps, order) && NoRepeats(order)
    requires forall t :: t in order <==> t in deps
    ensures Topological(deps, order) <==> Acyclic(deps)
  {
    if Acyclic(deps) {
      forall k, p | 0 <= k < |order| && order[k] in deps && p in deps[order[k]] ensures p in order[..k] {
        if Reaches(deps, p, order[k]) {
          ReachesStep(deps, p, order[k], p);
        }
      }
    }
    if Topological(deps, order) {
      forall t ensures !Reaches(deps, t, t) {
        if Reaches(deps, t, t) {
          var s :| Path(deps, s) && s[0] == t && s[|s| - 1] == t;
          assert s[0] in order;
          var k :| 0 <= k < |order| && order[k] == s[0];
          PathGoesUp(deps, order, s, k, |s| - 1);
        }
      }
    }
  }

  /** In a topological order every walk from position `k` stays before `k`. */
  lemma {:induction false} PathGoesUp(deps: Deps, order: seq<string>, s: seq<string>, k: nat, i: nat)
    requires Topological(deps, order) && NoRepeats(order) && Path(deps, s)
    requires k < |order| && order[k] == s[0] && 1 <= i < |s|
    ensures s[i] in order[..k] && s[i] != order[k]
    decreases i
  {
    if i == 1 {
      assert s[1] in deps[s[0]];
    } else {
      PathGoesUp(deps, order, s, k, i - 1);
      var j :| 0 <= j < k && order[j] == s[i - 1];
      assert s[i - 1 + 1] in deps[s[i - 1]];
      assert s[i] in order[..j];
      var m :| 0 <= m < j && order[m] == s[i];
      assert order[..k][m] == s[i];
    }
    var m :| 0 <= m < k && order[m] == s[i];
  }

  // ---- the walk ----

  /** What is listed once `t` was visited: parents in alphabetical order, then `t`, unless listed or under way. */
  function Walked(deps: Deps, t: string, trail: set<string>, ordered: seq<string>): seq<string>
    requires Closed(deps) && t in deps && trail <= deps.Keys
    decreases deps.Keys - trail, 0
  {
    if t in ordered || t in trail then ordered
    else
      assert t in deps.Keys - trail;
      WalkedAll(deps, Sorted(deps[t]), trail + {t}, ordered) + [t]
  }

  function WalkedAll(deps: Deps, tables: seq<string>, trail: set<string>, ordered: seq<string>): seq<string>
    requires Closed(deps) && trail <= deps.Keys && forall x :: x in tables ==> x in deps
    decreases deps.Keys - trail, 1 + |tables|
  {
    if tables == [] then ordered else WalkedAll(deps, tables[1..], trail, Walked(deps, tables[0], trail, ordered))
  }

  lemma WalkedOnce(deps: Deps, t: string, trail: set<string>, ordered: seq<string>)
    requires Closed(deps) && t in deps && trail <= deps.Keys
    ensures forall x :: x in Sorted(deps[t]) ==> x in deps
    ensures Walked(deps, t, trail, ordered) ==
      if t in ordered || t in trail then ordered
      else WalkedAll(deps, Sorted(deps[t]), trail + {t}, ordered) + [t]
  {
    hide WalkedAll;
  }

  lemma WalkedFrom(deps: Deps, tables: seq<string>, i: nat, trail: set<string>, ordered: seq<string>)
    requires Closed(deps) && trail <= deps.Keys && (forall x :: x in tables ==> x in deps) && i <= |tables|
    ensures WalkedAll(deps, tables[i..], trail, ordered) ==
      if i == |tables| then ordered
      else WalkedAll(deps, tables[i + 1..], trail, Walked(deps, tables[i], trail, ordered))
  {
    hide Walked;
    if i < |tables| {
      assert tables[i..][0] == tables[i] && tables[i..][1..] == tables[i + 1..];
    }
  }

  /** Where nothing refers to anything the walk lists the tables as they come. */
  lemma {:induction false} WalkedApart(deps: Deps, tables: seq<string>, ordered: seq<string>)
    requires Closed(deps) && (forall x :: x in tables ==> x in deps) && forall t :: t in deps ==> deps[t] == {}
    requires (forall x :: x in tables ==> x !in ordered) && NoRepeats(tables)
    ensures WalkedAll(deps, tables, {}, ordered) == ordered + tables
    decreases |tables|
  {
    if tables == [] {
      assert ordered + tables == ordered;
    } else {
      var t, rest := tables[0], tables[1..];
      assert deps[t] == {} && Sorted(deps[t]) == [];
      assert Walked(deps, t, {}, ordered) == ordered + [t];
      forall x | x in rest ensures x !in ordered + [t] {
        var k :| 0 <= k < |rest| && rest[k] == x;
        assert tables[0] != tables[k + 1];
      }
      forall i, j | 0 <= i < j < |rest| ensures rest[i] != rest[j] {
        assert tables[i + 1] != tables[j + 1];
      }
      WalkedApart(deps, rest, ordered + [t]);
      assert ordered + [t] + rest == ordered + tables;
    }
  }

  lemma {:induction false} SortedNoRepeats(s: set<string>)
    ensures NoRepeats(Sorted(s))
    decreases |s|
  {
    if s != {} {
      var m := Least(s);
      SortedNoRepeats(s - {m});
      var rest := Sorted(s - {m});
      assert forall k :: 0 <= k < |rest| ==> rest[k] in s - {m};
    }
  }

  class Orderer {
    const deps: Deps
    var ordered: seq<string>
    var seen: set<string>

    constructor (deps: Deps)
      ensures this.deps == deps && ordered == [] && seen == {}
    {
      this.deps := deps;
      ordered, seen := [], {};
    }

    ghost predicate Valid()
      reads this
    {
      && Closed(deps)
      && (forall t :: t in ordered <==> t in seen)
      && seen <= deps.Keys
      && NoRepeats(ordered)
      && ParentsFirst(deps, ordered)
    }

    method Visit(t: string, trail: set<string>)
      requires Valid() && t in deps && trail <= deps.Keys
      requires forall x :: x in trail ==> Reaches(deps, x, t)
      modifies this
      ensures Valid() && old(ordered) <= ordered && old(seen) <= seen
      ensures t in seen || t in trail
      ensures (seen - old(seen)) !! trail
      ensures ordered == Walked(deps, t, trail, old(ordered))
      decreases deps.Keys - trail, 0
    {
      hide NoRepeats, ParentsFirst, Reaches, AtMost, Walked, WalkedAll, Closed;
      WalkedOnce(deps, t, trail, ordered);
      if t in seen { return; }
      if t in trail { return; }  // cycle: break it here
      assert t in deps.Keys - trail;
      TrailReaches(deps, trail, t);
      VisitAll(Sorted(deps[t]), trail + {t});
      ParentsDone(deps, t, trail, ordered);
      ParentsFirstAppend(deps, ordered, t);
      NoRepeatsAppend(ordered, t);
      seen := seen + {t};
      ordered := ordered + [t];
    }

    /** Visits these tables one after the other. */
    method VisitAll(tables: seq<string>, trail: set<string>)
      requires Valid() && trail <= deps.Keys && forall x :: x in tables ==> x in deps
      requires forall x, y :: x in trail && y in tables ==> Reaches(deps, x, y)
      modifies this
      ensures Valid() && old(ordered) <= ordered && old(seen) <= seen
      ensures forall t :: t in tables ==> t in seen || t in trail
      ensures (seen - old(seen)) !! trail
      ensures ordered == WalkedAll(deps, tables, trail, old(ordered))
      decreases deps.Keys - trail, 1
    {
      hide NoRepeats, ParentsFirst, Reaches, Walked, WalkedAll, Closed;
      var i := 0;
      assert tables[0..] == tables;
      while i < |tables|
        invariant 0 <= i <= |tables| && Valid()
        invariant old(ordered) <= ordered && old(seen) <= seen
        invariant (seen - old(seen)) !! trail
        invariant forall k :: 0 <= k < i ==> tables[k] in seen || tables[k] in trail
        invariant WalkedAll(deps, tables, trail, old(ordered)) == WalkedAll(deps, tables[i..], trail, ordered)
      {
        WalkedFrom(deps, tables, i, trail, ordered);
        assert tables[i] in tables;
        Visit(tables[i], trail);
        i := i + 1;
      }
      WalkedFrom(deps, tables, i, trail, ordered);
    }

    method Order()
      requires Closed(deps) && ordered == [] && seen == {}
      modifies this
      ensures Valid() && seen == deps.Keys
      ensures ordered == WalkedAll(deps, Sorted(deps.Keys), {}, [])
    {
      hide Reaches, AtMost, NoRepeats, ParentsFirst, Walked, WalkedAll;
      NothingWalked(deps);
      VisitAll(Sorted(deps.Keys), {});
      forall t | t in deps.Keys ensures t in seen {
        assert t in Sorted(deps.Keys);
      }
    }
  }

  lemma ParentsDone(deps: Deps, t: string, trail: set<string>, ordered: seq<string>)
    requires Closed(deps) && t in deps && forall x :: x in trail ==> Reaches(deps, x, t)
    requires forall p :: p in Sorted(deps[t]) ==> p in ordered || p in trail + {t}
    ensures forall p :: p in deps[t] ==> p in ordered || Reaches(deps, p, t)
  {
    hide Reaches, AtMost;
    forall p | p in deps[t] ensures p in ordered || Reaches(deps, p, t) {
      assert p in Sorted(deps[t]);
      if p == t { EdgeReaches(deps, t, t); }
    }
  }

  lemma NothingWalked(deps: Deps)
    ensures NoRepeats([]) && ParentsFirst(deps, [])
  {
  }

  lemma TrailReaches(deps: Deps, trail: set<string>, t: string)
    requires Closed(deps) && t in deps && forall x :: x in trail ==> Reaches(deps, x, t)
    ensures forall x, p :: x in trail + {t} && p in Sorted(deps[t]) ==> Reaches(deps, x, p)
  {
    hide Reaches;
    forall x, p | x in trail + {t} && p in Sorted(deps[t]) ensures Reaches(deps, x, p) {
      if x in trail { ReachesStep(deps, x, t, p); } else { EdgeReaches(deps, t, p); }
    }
  }

  /** table_order: every table once, each parent before its child unless they are on a cycle. */
  method TableOrder(tables: set<string>, foreignKeys: map<string, set<string>>) returns (order: seq<string>)
    ensures var deps := DepsOf(tables, foreignKeys);
      && (forall t :: t in order <==> t in tables)
      && NoRepeats(order) && |order| == |tables|
      && ParentsFirst(deps, order)
      && (Topological(deps, order) <==> Acyclic(deps))
    ensures ReferredFirst(tables, foreignKeys, order)
    ensures (forall t, p :: !RefersTo(tables, foreignKeys, t, p)) ==> order == Sorted(tables)
    ensures (forall k, p :: 0 <= k < |order| && RefersTo(tables, foreignKeys, order[k], p) ==> p in order[..k])
       <==> (forall t :: !LeadsTo(tables, foreignKeys, t, t))
  {
    var deps := DepsOf(tables, foreignKeys);
    assert deps.Keys == tables;
    var o := new Orderer(deps);
    o.Order();
    order := o.ordered;
    assert forall t :: t in order <==> t in deps.Keys;
    TopologicalIffAcyclic(deps, order);
    LengthOfDistinct(order, tables);
    ReferredExactly(tables, foreignKeys, order);
    ReferredIffAcyclic(tables, foreignKeys, order);
    if forall t, p :: !RefersTo(tables, foreignKeys, t, p) {
      ApartIsAlphabetical(tables, foreignKeys);
    }
  }

  lemma ApartIsAlphabetical(tables: set<string>, foreignKeys: map<string, set<string>>)
    requires forall t, p :: !RefersTo(tables, foreignKeys, t, p)
    ensures var deps := DepsOf(tables, foreignKeys);
      deps.Keys == tables && Closed(deps) && WalkedAll(deps, Sorted(deps.Keys), {}, []) == Sorted(tables)
  {
    hide DepsOf, RefersTo, Walked, WalkedAll;
    var deps := DepsOf(tables, foreignKeys);
    forall t ensures t in deps <==> t in tables { DepsExactly(tables, foreignKeys, t, t); }
    forall t | t in deps ensures deps[t] == {} {
      forall p ensures p !in deps[t] { DepsExactly(tables, foreignKeys, t, p); }
    }
    assert deps.Keys == tables;
    SortedNoRepeats(tables);
    WalkedApart(deps, Sorted(tables), []);
    assert [] + Sorted(tables) == Sorted(tables);
  }

  lemma {:induction false} LengthOfDistinct(order: seq<string>, s: set<string>)
    requires NoRepeats(order) && forall t :: t in order <==> t in s
    ensures |order| == |s|
    decreases |order|
  {
    if order == [] {
      assert forall t :: t in s ==> t in order;
    } else {
      var n := |order| - 1;
      var last := order[n];
      assert last in s && order == order[..n] + [last];
      assert last !in order[..n];
      LengthOfDistinct(order[..n], s - {last});
    }
  }
}
