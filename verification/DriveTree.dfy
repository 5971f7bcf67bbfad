/**
 One user's drive: a finite tree of names, as the file service sees it through
 the root of the owner's home directory. The home itself is the empty path.
 */
module DriveTree {
  import opened Paths

  datatype Node = Dir | File(size: nat)

  type Tree = map<seq<string>, Node>

  predicate IsDirAt(t: Tree, p: seq<string>) {
    p == [] || (p in t && t[p].Dir?)
  }

  function Parent(p: seq<string>): seq<string>
    requires p != []
  {
    p[..|p| - 1]
  }

  /** Every item has a proper path and sits in an existing folder. */
  ghost predicate WellFormed(t: Tree) {
    forall p :: p in t ==> p != [] && AreNames(p) && IsDirAt(t, Parent(p))
  }

  /** An item that does not exist has nothing below it. */
  lemma {:induction false} NothingBelowAbsent(t: Tree, top: seq<string>, p: seq<string>)
    requires WellFormed(t) && top != [] && top !in t && top <= p
    ensures p !in t
    decreases |p|
  {
    if p in t && p != top {
      assert top <= Parent(p);
      NothingBelowAbsent(t, top, Parent(p));
    }
  }

  /** Nothing sits below a file. */
  lemma {:induction false} NothingBelowFile(t: Tree, top: seq<string>, p: seq<string>)
    requires WellFormed(t) && top in t && t[top].File? && top < p
    ensures p !in t
    decreases |p|
  {
    if p in t {
      assert top <= Parent(p);
      if Parent(p) != top {
        NothingBelowFile(t, top, Parent(p));
      }
    }
  }

  // ---- the three ways a drive changes ----

  /** Where an item ends up when `from` is renamed to `to`. */
  function Relocate(p: seq<string>, from: seq<string>, to: seq<string>): seq<string> {
    if from <= p then to + p[|from|..] else p
  }

  ghost predicate FreeBelow(t: Tree, to: seq<string>) {
    forall p :: p in t ==> !(to <= p)
  }

  lemma RelocateInjective(t: Tree, from: seq<string>, to: seq<string>, p: seq<string>, q: seq<string>)
    requires FreeBelow(t, to) && p in t && q in t
    requires Relocate(p, from, to) == Relocate(q, from, to)
    ensures p == q
  {
    assert from <= p ==> to <= Relocate(p, from, to);
    assert from <= q ==> to <= Relocate(q, from, to);
    if from <= p && from <= q {
      assert p == from + p[|from|..] && q == from + q[|from|..];
      assert p[|from|..] == (to + p[|from|..])[|to|..];
      assert q[|from|..] == (to + q[|from|..])[|to|..];
    }
  }

  function Renamed(t: Tree, from: seq<string>, to: seq<string>): Tree
    requires FreeBelow(t, to)
  {
    assert forall p, q :: p in t && q in t && Relocate(p, from, to) == Relocate(q, from, to) ==> p == q by {
      forall p, q | p in t && q in t && Relocate(p, from, to) == Relocate(q, from, to)
        ensures p == q
      {
        RelocateInjective(t, from, to, p, q);
      }
    }
    map p | p in t :: Relocate(p, from, to) := t[p]
  }

  /** A rename carries each item, content and all, to its new path; nothing else appears. */
  lemma RenamedItems(t: Tree, from: seq<string>, to: seq<string>)
    requires FreeBelow(t, to)
    ensures forall p :: p in t ==>
      Relocate(p, from, to) in Renamed(t, from, to) && Renamed(t, from, to)[Relocate(p, from, to)] == t[p]
    ensures forall q :: q in Renamed(t, from, to) ==> exists p :: p in t && q == Relocate(p, from, to)
  {
    forall p, q | p in t && q in t && Relocate(p, from, to) == Relocate(q, from, to)
      ensures p == q
    {
      RelocateInjective(t, from, to, p, q);
    }
  }

  function Without(t: Tree, top: seq<string>): Tree {
    map p | p in t && !(top <= p) :: t[p]
  }

  lemma PutWellFormed(t: Tree, p: seq<string>, node: Node)
    requires WellFormed(t) && p != [] && AreNames(p) && IsDirAt(t, Parent(p))
    requires p in t ==> t[p].Dir? == node.Dir?
    ensures WellFormed(t[p := node])
  {
  }

  lemma WithoutWellFormed(t: Tree, top: seq<string>)
    requires WellFormed(t)
    ensures WellFormed(Without(t, top))
  {
    var r := Without(t, top);
    forall p | p in r ensures IsDirAt(r, Parent(p)) {
      assert top <= Parent(p) ==> top <= p;
    }
  }

  /** Renaming an item inside its folder keeps the drive a tree. */
  lemma RenamedWellFormed(t: Tree, from: seq<string>, to: seq<string>)
    requires WellFormed(t) && from in t && to !in t
    requires to != [] && AreNames(to) && Parent(to) == Parent(from)
    ensures FreeBelow(t, to) && WellFormed(Renamed(t, from, to))
  {
    forall p | p in t ensures !(to <= p) {
      if to <= p { NothingBelowAbsent(t, to, p); }
    }
    var r := Renamed(t, from, to);
    RenamedItems(t, from, to);
    forall q | q in r ensures q != [] && AreNames(q) && IsDirAt(r, Parent(q)) {
      var p :| p in t && q == Relocate(p, from, to);
      assert AreNames(p) && IsDirAt(t, Parent(p));
      RenamedParent(p, from, to);
      if Parent(q) != [] {
        assert Relocate(Parent(p), from, to) == Parent(q);
      }
    }
  }

  lemma OldNameFree(t: Tree, from: seq<string>, to: seq<string>)
    requires FreeBelow(t, to) && |from| == |to| && from != to
    ensures FreeBelow(Renamed(t, from, to), from)
  {
    var r := Renamed(t, from, to);
    RenamedItems(t, from, to);
    forall q | q in r ensures !(from <= q) {
      var p :| p in t && q == Relocate(p, from, to);
      assert from <= p ==> q[..|to|] == to;
    }
  }

  lemma RenamedEnds(t: Tree, from: seq<string>, to: seq<string>)
    requires FreeBelow(t, to) && |from| == |to| && from != to && from in t
    ensures to in Renamed(t, from, to) && from !in Renamed(t, from, to)
  {
    OldNameFree(t, from, to);
    RenamedItems(t, from, to);
    assert Relocate(from, from, to) == to;
  }

  predicate Has(t: Tree, p: seq<string>, node: Node) { p in t && t[p] == node }

  lemma Relocated(p: seq<string>, from: seq<string>, to: seq<string>)
    ensures from <= p ==> to <= Relocate(p, from, to) && from + Relocate(p, from, to)[|to|..] == p
    ensures !(from <= p) ==> Relocate(p, from, to) == p
    ensures to <= p ==> Relocate(from + p[|to|..], from, to) == p
  {
    if from <= p {
      assert (to + p[|from|..])[|to|..] == p[|from|..];
      assert from + p[|from|..] == p;
    }
    if to <= p {
      assert (from + p[|to|..])[|from|..] == p[|to|..];
      assert to + p[|to|..] == p;
    }
  }

  /** After a rename the new path holds what the old one held, the old path nothing, and the rest is as it was. */
  lemma RenamedExactly(t: Tree, from: seq<string>, to: seq<string>, q: seq<string>, node: Node)
    requires FreeBelow(t, to) && |from| == |to| && from != to
    ensures Has(Renamed(t, from, to), q, node) <==>
      if to <= q then Has(t, from + q[|to|..], node) else Has(t, q, node) && !(from <= q)
  {
    RenamedItems(t, from, to);
    hide Relocate, Renamed;
    var r := Renamed(t, from, to);
    Relocated(q, from, to);
    if Has(r, q, node) {
      var p :| p in t && q == Relocate(p, from, to);
      Relocated(p, from, to);
      assert t[p] == node;
    }
    if to <= q {
      var p := from + q[|to|..];
      assert p in t ==> r[q] == t[p];
    } else if q in t && !(from <= q) {
      assert Relocate(q, from, to) in r;
    }
  }

  /** Renaming back puts every item where it was. */
  lemma RenamedBack(t: Tree, from: seq<string>, to: seq<string>)
    requires FreeBelow(t, to) && |from| == |to| && from != to
    ensures FreeBelow(Renamed(t, from, to), from)
    ensures Renamed(Renamed(t, from, to), to, from) == t
  {
    OldNameFree(t, from, to);
    var r := Renamed(t, from, to);
    var b := Renamed(r, to, from);
    assert forall p :: p in t ==> Relocate(Relocate(p, from, to), to, from) == p by {
      forall p | p in t ensures Relocate(Relocate(p, from, to), to, from) == p {
        RelocateBack(p, from, to);
      }
    }
    RenamedItems(t, from, to);
    RenamedItems(r, to, from);
    hide Relocate, Renamed;
    forall p | p in t ensures p in b && b[p] == t[p] {
      var q := Relocate(p, from, to);
      assert q in r && Relocate(q, to, from) == p;
    }
    forall k | k in b ensures k in t {
      var q :| q in r && k == Relocate(q, to, from);
      var p :| p in t && q == Relocate(p, from, to);
    }
  }

  lemma RelocateBack(p: seq<string>, from: seq<string>, to: seq<string>)
    ensures Relocate(Relocate(p, from, to), to, from) == p || to <= p
  {
    if from <= p {
      assert (to + p[|from|..])[|to|..] == p[|from|..];
      assert from + p[|from|..] == p;
    }
  }

  lemma RenamedParent(p: seq<string>, from: seq<string>, to: seq<string>)
    requires p != [] && from != [] && to != [] && Parent(to) == Parent(from)
    ensures Relocate(p, from, to) != []
    ensures Relocate(Parent(p), from, to) == Parent(Relocate(p, from, to))
    ensures AreNames(p) && AreNames(to) ==> AreNames(Relocate(p, from, to))
  {
    if from == p {
      assert !(from <= Parent(p));
      assert Relocate(p, from, to) == to;
    } else if from <= p {
      assert from <= Parent(p);
      assert Parent(p)[|from|..] == p[|from|..|p| - 1];
      assert to + p[|from|..|p| - 1] == (to + p[|from|..])[..|to| + |p| - |from| - 1];
    } else {
      assert from <= Parent(p) ==> from <= p;
    }
  }

  // ---- bytes used ----

  function NodeBytes(n: Node): nat {
    if n.File? then n.size else 0
  }

  ghost function Bytes(t: Tree): nat
    decreases |t|
  {
    if t == map[] then 0
    else
      var p :| p in t;
      NodeBytes(t[p]) + Bytes(t - {p})
  }

  lemma {:induction false} BytesTake(t: Tree, p: seq<string>)
    requires p in t
    ensures Bytes(t) == NodeBytes(t[p]) + Bytes(t - {p})
    decreases |t|
  {
    var q :| q in t && Bytes(t) == NodeBytes(t[q]) + Bytes(t - {q});
    if q != p {
      BytesTake(t - {q}, p);
      BytesTake(t - {p}, q);
      assert t - {q} - {p} == t - {p} - {q};
    }
  }

  lemma BytesPut(t: Tree, p: seq<string>, node: Node)
    ensures Bytes(t[p := node]) == Bytes(t - {p}) + NodeBytes(node)
    ensures Bytes(t[p := node]) <= Bytes(t) + NodeBytes(node)
  {
    BytesTake(t[p := node], p);
    assert t[p := node] - {p} == t - {p};
    if p in t {
      BytesTake(t, p);
    } else {
      assert t - {p} == t;
    }
  }

  /** An empty drive holds nothing; a new file adds its size and a new folder nothing. */
  lemma BytesExactly(t: Tree, p: seq<string>, size: nat)
    requires p !in t
    ensures Bytes(map[]) == 0
    ensures Bytes(t[p := File(size)]) == Bytes(t) + size && Bytes(t[p := Dir]) == Bytes(t)
  {
    assert t - {p} == t;
    BytesPut(t, p, File(size));
    BytesPut(t, p, Dir);
  }

  lemma {:induction false} BytesSub(t: Tree, r: Tree)
    requires r.Keys <= t.Keys && forall p :: p in r ==> r[p] == t[p]
    ensures Bytes(r) <= Bytes(t)
    decreases |t|
  {
    if t == map[] {
      assert r == map[];
    } else {
      var p :| p in t;
      BytesTake(t, p);
      if p in r { BytesTake(r, p); } else { assert r - {p} == r; }
      BytesSub(t - {p}, r - {p});
    }
  }

  lemma RenamedMinus(t: Tree, from: seq<string>, to: seq<string>, p: seq<string>)
    requires FreeBelow(t, to) && p in t
    ensures Renamed(t - {p}, from, to) == Renamed(t, from, to) - {Relocate(p, from, to)}
  {
    hide Relocate;
    assert FreeBelow(t - {p}, to);
    hide Renamed;
    var r, s, q := Renamed(t, from, to), Renamed(t - {p}, from, to), Relocate(p, from, to);
    RenamedItems(t, from, to);
    RenamedItems(t - {p}, from, to);
    forall k | k in r - {q} ensures k in s {
      var o :| o in t && k == Relocate(o, from, to);
      assert o in t - {p};
    }
    forall k | k in s ensures k in r - {q} && s[k] == r[k] {
      var o :| o in t - {p} && k == Relocate(o, from, to);
      if k == q { RelocateInjective(t, from, to, o, p); }
    }
  }

  /** A rename moves bytes, it does not make or lose any. */
  lemma {:induction false} RenamedBytes(t: Tree, from: seq<string>, to: seq<string>)
    requires FreeBelow(t, to)
    ensures Bytes(Renamed(t, from, to)) == Bytes(t)
    decreases |t|
  {
    if t == map[] {
      assert Renamed(t, from, to) == map[];
    } else {
      var p :| p in t;
      BytesTake(t, p);
      RenamedItems(t, from, to);
      BytesTake(Renamed(t, from, to), Relocate(p, from, to));
      RenamedMinus(t, from, to, p);
      RenamedBytes(t - {p}, from, to);
    }
  }
}
