/**
 A file space: every user's drive and the share table over them, changed one
 step at a time. What the share table must always say about the drives is an
 invariant of every run.
 */
module FileSpace {
  import opened Paths
  import opened DriveTree
  import opened ShareTable

  datatype Space = Space(drives: map<string, Tree>, shares: seq<Share>)

  function DriveOf(sp: Space, owner: string): Tree {
    if owner in sp.drives then sp.drives[owner] else map[]
  }

  /** The share names an existing item of its owner's drive, as what it is. */
  ghost predicate Tracked(sp: Space, sh: Share) {
    && IsCanonical(sh.path)
    && Split(sh.path) in DriveOf(sp, sh.owner)
    && sh.isDir == DriveOf(sp, sh.owner)[Split(sh.path)].Dir?
    && (sh.mode == "ro" || sh.mode == "rw")
    && (!sh.isDir ==> sh.mode == "ro")
  }

  ghost predicate Consistent(sp: Space) {
    && (forall owner :: owner in sp.drives ==> WellFormed(sp.drives[owner]))
    && (forall k :: 0 <= k < |sp.shares| ==> Tracked(sp, sp.shares[k]))
    && NoRepeatedGrant(sp.shares)
    && WithinCap(sp.shares)
  }

  datatype Change =
    | Write(owner: string, path: seq<string>, size: nat)
    | MakeDir(owner: string, path: seq<string>)
    | Move(owner: string, from: seq<string>, to: seq<string>)
    | Remove(owner: string, path: seq<string>)
    | Grant(share: Share, freshId: string)
    | Revoke(id: string, owner: string)

  function GrantIndex(list: seq<Share>, sh: Share): (i: nat)
    ensures FirstGrant(list, sh, i)
    decreases |list|
  {
    if list == [] then 0
    else if SameGrant(list[0], sh) then 0
    else
      var i := GrantIndex(list[1..], sh);
      assert forall k :: 1 <= k < i + 1 ==> list[k] == list[1..][k - 1];
      i + 1
  }

  function RevokeIndex(list: seq<Share>, id: string, owner: string): (i: nat)
    ensures i <= |list| && forall k :: 0 <= k < i ==> !(list[k].id == id && list[k].owner == owner)
    ensures i < |list| ==> list[i].id == id && list[i].owner == owner
    decreases |list|
  {
    if list == [] || (list[0].id == id && list[0].owner == owner) then 0
    else
      var i := RevokeIndex(list[1..], id, owner);
      assert forall k :: 1 <= k < i + 1 ==> list[k] == list[1..][k - 1];
      i + 1
  }

  /** What the file system and the handlers check before the change is made. */
  predicate Allowed(sp: Space, c: Change) {
    match c
    case Write(owner, p, _) =>
      && p != [] && AreNames(p)
      && IsDirAt(DriveOf(sp, owner), Parent(p))
      && (p in DriveOf(sp, owner) ==> DriveOf(sp, owner)[p].File?)
    case MakeDir(owner, p) =>
      && p != [] && AreNames(p)
      && IsDirAt(DriveOf(sp, owner), Parent(p))
      && p !in DriveOf(sp, owner)
    case Move(owner, from, to) =>
      && from != [] && from in DriveOf(sp, owner)
      && to != [] && AreNames(to) && Parent(to) == Parent(from)
      && to !in DriveOf(sp, owner)
    case Remove(owner, p) => p != [] && p in DriveOf(sp, owner)
    case Grant(sh, _) =>
      && IsCanonical(sh.path)
      && Split(sh.path) in DriveOf(sp, sh.owner)
      && sh.isDir == DriveOf(sp, sh.owner)[Split(sh.path)].Dir?
      && (sh.mode == "ro" || sh.mode == "rw")
      && (!sh.isDir ==> sh.mode == "ro")
      && (GrantIndex(sp.shares, sh) == |sp.shares| ==> OwnedBy(sp.shares, sh.owner) < MAX_SHARES_PER_OWNER)
    case Revoke(id, owner) => RevokeIndex(sp.shares, id, owner) < |sp.shares|
  }

  ghost function Apply(sp: Space, c: Change): Space
    requires Consistent(sp) && Allowed(sp, c)
  {
    match c
    case Write(owner, p, size) => sp.(drives := sp.drives[owner := DriveOf(sp, owner)[p := File(size)]])
    case MakeDir(owner, p) => sp.(drives := sp.drives[owner := DriveOf(sp, owner)[p := Dir]])
    case Move(owner, from, to) =>
      RenamedWellFormed(DriveOf(sp, owner), from, to);
      Space(sp.drives[owner := Renamed(DriveOf(sp, owner), from, to)], Moved(sp.shares, owner, from, to))
    case Remove(owner, p) =>
      Space(sp.drives[owner := Without(DriveOf(sp, owner), p)], Kept(sp.shares, owner, p))
    case Grant(sh, freshId) =>
      var i := GrantIndex(sp.shares, sh);
      sp.(shares := if i < |sp.shares| then sp.shares[i := sh.(id := sp.shares[i].id)]
                    else sp.shares + [sh.(id := freshId)])
    case Revoke(id, owner) =>
      var i := RevokeIndex(sp.shares, id, owner);
      sp.(shares := sp.shares[..i] + sp.shares[i + 1..])
  }

  // ---- each change keeps the table true ----

  lemma TrackedElsewhere(sp: Space, after: Space, sh: Share)
    requires Tracked(sp, sh)
    requires Split(sh.path) in DriveOf(after, sh.owner)
    requires DriveOf(after, sh.owner)[Split(sh.path)].Dir? == DriveOf(sp, sh.owner)[Split(sh.path)].Dir?
    ensures Tracked(after, sh)
  {
  }

  lemma PutConsistent(sp: Space, owner: string, p: seq<string>, node: Node)
    requires Consistent(sp) && p != [] && AreNames(p)
    requires IsDirAt(DriveOf(sp, owner), Parent(p))
    requires p in DriveOf(sp, owner) ==> DriveOf(sp, owner)[p].Dir? == node.Dir?
    ensures Consistent(sp.(drives := sp.drives[owner := DriveOf(sp, owner)[p := node]]))
  {
    var after := sp.(drives := sp.drives[owner := DriveOf(sp, owner)[p := node]]);
    PutWellFormed(DriveOf(sp, owner), p, node);
    forall k | 0 <= k < |sp.shares| ensures Tracked(after, sp.shares[k]) {
      TrackedElsewhere(sp, after, sp.shares[k]);
    }
  }

  /** After a rename every share still points at the very item it pointed at. */
  lemma ShareFollowsItem(sp: Space, owner: string, from: seq<string>, to: seq<string>, k: nat)
    requires Consistent(sp) && Allowed(sp, Move(owner, from, to)) && k < |sp.shares|
    ensures var after := Apply(sp, Move(owner, from, to));
      var old', new' := sp.shares[k], after.shares[k];
      && new' == old'.(path := new'.path)
      && Split(new'.path) == (if old'.owner == owner then Relocate(Split(old'.path), from, to) else Split(old'.path))
      && IsCanonical(new'.path)
      && Split(new'.path) in DriveOf(after, old'.owner)
      && DriveOf(after, old'.owner)[Split(new'.path)] == DriveOf(sp, old'.owner)[Split(old'.path)]
  {
    var sh := sp.shares[k];
    assert Tracked(sp, sh);
    RenamedWellFormed(DriveOf(sp, owner), from, to);
    RenamedItems(DriveOf(sp, owner), from, to);
    var p := Split(sh.path);
    if sh.owner == owner && from <= p {
      assert AreNames(to + p[|from|..]);
      TextSegs(to + p[|from|..]);
    }
  }

  lemma MovedNotRepeated(sp: Space, owner: string, from: seq<string>, to: seq<string>)
    requires Consistent(sp) && Allowed(sp, Move(owner, from, to))
    ensures NoRepeatedGrant(Moved(sp.shares, owner, from, to))
  {
    var t := DriveOf(sp, owner);
    RenamedWellFormed(t, from, to);
    var after := Apply(sp, Move(owner, from, to)).shares;
    forall i, j | 0 <= i < j < |after| ensures !SameGrant(after[i], after[j]) {
      ShareFollowsItem(sp, owner, from, to, i);
      ShareFollowsItem(sp, owner, from, to, j);
      var a, b := sp.shares[i], sp.shares[j];
      assert Tracked(sp, a) && Tracked(sp, b) && !SameGrant(a, b);
      if SameGrant(after[i], after[j]) {
        if a.owner == owner {
          RelocateInjective(t, from, to, Split(a.path), Split(b.path));
        }
        JoinSplit(a.path);
        JoinSplit(b.path);
      }
    }
  }

  lemma MoveTracked(sp: Space, owner: string, from: seq<string>, to: seq<string>, k: nat)
    requires Consistent(sp) && Allowed(sp, Move(owner, from, to)) && k < |sp.shares|
    ensures Tracked(Apply(sp, Move(owner, from, to)), Apply(sp, Move(owner, from, to)).shares[k])
  {
    assert Tracked(sp, sp.shares[k]);
    ShareFollowsItem(sp, owner, from, to, k);
  }

  lemma MoveConsistent(sp: Space, owner: string, from: seq<string>, to: seq<string>)
    requires Consistent(sp) && Allowed(sp, Move(owner, from, to))
    ensures Consistent(Apply(sp, Move(owner, from, to)))
  {
    var after := Apply(sp, Move(owner, from, to));
    assert forall o :: o in after.drives ==> WellFormed(after.drives[o]) by {
      RenamedWellFormed(DriveOf(sp, owner), from, to);
    }
    assert forall k :: 0 <= k < |after.shares| ==> Tracked(after, after.shares[k]) by {
      forall k | 0 <= k < |after.shares| ensures Tracked(after, after.shares[k]) {
        MoveTracked(sp, owner, from, to, k);
      }
    }
    MovedNotRepeated(sp, owner, from, to);
    assert WithinCap(after.shares) by {
      forall o ensures OwnedBy(after.shares, o) <= MAX_SHARES_PER_OWNER {
        OwnedByPoint(after.shares, sp.shares, o);
      }
    }
  }

  lemma SharesComeBack(sp: Space, owner: string, from: seq<string>, to: seq<string>, k: nat)
    requires Consistent(sp) && Allowed(sp, Move(owner, from, to)) && k < |sp.shares|
    requires var after := Apply(sp, Move(owner, from, to));
      Consistent(after) && Allowed(after, Move(owner, to, from))
    ensures Apply(Apply(sp, Move(owner, from, to)), Move(owner, to, from)).shares[k] == sp.shares[k]
  {
    var after := Apply(sp, Move(owner, from, to));
    assert Tracked(sp, sp.shares[k]);
    ShareFollowsItem(sp, owner, from, to, k);
    ShareFollowsItem(after, owner, to, from, k);
    if sp.shares[k].owner == owner {
      RenamedWellFormed(DriveOf(sp, owner), from, to);
      RelocateBack(Split(sp.shares[k].path), from, to);
    }
    JoinSplit(sp.shares[k].path);
    JoinSplit(Apply(after, Move(owner, to, from)).shares[k].path);
  }

  lemma RenameBackAllowed(sp: Space, owner: string, from: seq<string>, to: seq<string>)
    requires Consistent(sp) && Allowed(sp, Move(owner, from, to))
    ensures var after := Apply(sp, Move(owner, from, to));
      Consistent(after) && Allowed(after, Move(owner, to, from))
  {
    var t := DriveOf(sp, owner);
    MoveConsistent(sp, owner, from, to);
    RenamedWellFormed(t, from, to);
    assert AreNames(from);
    hide Consistent, WellFormed, FreeBelow, Renamed, Moved, AreNames;
    RenamedEnds(t, from, to);
  }

  /** A rename followed by the rename back is no change at all: drives and shares. */
  lemma RenameBackRestores(sp: Space, owner: string, from: seq<string>, to: seq<string>)
    requires Consistent(sp) && Allowed(sp, Move(owner, from, to))
    ensures var after := Apply(sp, Move(owner, from, to));
      Consistent(after) && Allowed(after, Move(owner, to, from)) && Apply(after, Move(owner, to, from)) == sp
  {
    hide Consistent, Apply, Allowed;
    var after := Apply(sp, Move(owner, from, to));
    RenameBackAllowed(sp, owner, from, to);
    var back := Apply(after, Move(owner, to, from));
    SharesCount(sp, owner, from, to);
    forall k | 0 <= k < |sp.shares| ensures back.shares[k] == sp.shares[k] {
      SharesComeBack(sp, owner, from, to, k);
    }
    DrivesComeBack(sp, owner, from, to);
    assert back == Space(back.drives, back.shares);
  }

  lemma SharesCount(sp: Space, owner: string, from: seq<string>, to: seq<string>)
    requires Consistent(sp) && Allowed(sp, Move(owner, from, to))
    requires var after := Apply(sp, Move(owner, from, to));
      Consistent(after) && Allowed(after, Move(owner, to, from))
    ensures |Apply(Apply(sp, Move(owner, from, to)), Move(owner, to, from)).shares| == |sp.shares|
  {
  }

  lemma DrivesComeBack(sp: Space, owner: string, from: seq<string>, to: seq<string>)
    requires Consistent(sp) && Allowed(sp, Move(owner, from, to))
    requires var after := Apply(sp, Move(owner, from, to));
      Consistent(after) && Allowed(after, Move(owner, to, from))
    ensures Apply(Apply(sp, Move(owner, from, to)), Move(owner, to, from)).drives == sp.drives
  {
    hide Consistent, Relocate, Renamed, WellFormed, AreNames;
    var t := DriveOf(sp, owner);
    var after := Apply(sp, Move(owner, from, to));
    RenamedFree(sp, owner, from, to);
    assert after.drives == sp.drives[owner := Renamed(t, from, to)];
    RenamedFree(after, owner, to, from);
    RenamedBack(t, from, to);
    assert DriveOf(after, owner) == Renamed(t, from, to);
    assert Apply(after, Move(owner, to, from)).drives == after.drives[owner := t];
  }

  lemma RenamedFree(sp: Space, owner: string, from: seq<string>, to: seq<string>)
    requires Consistent(sp) && Allowed(sp, Move(owner, from, to))
    ensures FreeBelow(DriveOf(sp, owner), to)
  {
    RenamedWellFormed(DriveOf(sp, owner), from, to);
  }

  lemma RemoveConsistent(sp: Space, owner: string, p: seq<string>)
    requires Consistent(sp) && Allowed(sp, Remove(owner, p))
    ensures Consistent(Apply(sp, Remove(owner, p)))
  {
    var after := Apply(sp, Remove(owner, p));
    WithoutWellFormed(DriveOf(sp, owner), p);
    KeptIsSublist(sp.shares, owner, p);
    forall k | 0 <= k < |after.shares| ensures Tracked(after, after.shares[k]) {
      var sh := after.shares[k];
      assert sh in sp.shares && !Dropped(sh, owner, p);
      TrackedElsewhere(sp, after, sh);
    }
    forall o ensures OwnedBy(after.shares, o) <= MAX_SHARES_PER_OWNER {
      assert OwnedBy(after.shares, o) <= OwnedBy(sp.shares, o);
    }
  }

  lemma GrantConsistent(sp: Space, sh: Share, freshId: string)
    requires Consistent(sp) && Allowed(sp, Grant(sh, freshId))
    ensures Consistent(Apply(sp, Grant(sh, freshId)))
  {
    var after := Apply(sp, Grant(sh, freshId));
    var i := GrantIndex(sp.shares, sh);
    forall k | 0 <= k < |after.shares| ensures Tracked(after, after.shares[k]) {
      if k != i {
        assert Tracked(sp, sp.shares[k]);
        TrackedElsewhere(sp, after, sp.shares[k]);
      }
    }
    forall a, b | 0 <= a < b < |after.shares| ensures !SameGrant(after.shares[a], after.shares[b]) {
      if a != i && b != i {
        assert !SameGrant(sp.shares[a], sp.shares[b]);
      } else if i < |sp.shares| {
        var other := if a == i then b else a;
        assert !SameGrant(sp.shares[if a == i then i else other], sp.shares[if a == i then other else i]);
      }
    }
    forall o ensures OwnedBy(after.shares, o) <= MAX_SHARES_PER_OWNER {
      if i < |sp.shares| {
        OwnedByPoint(after.shares, sp.shares, o);
      } else {
        assert after.shares[..|sp.shares|] == sp.shares;
      }
    }
  }

  lemma RevokeConsistent(sp: Space, id: string, owner: string)
    requires Consistent(sp) && Allowed(sp, Revoke(id, owner))
    ensures Consistent(Apply(sp, Revoke(id, owner)))
  {
    hide Consistent, OwnedBy;
    CutConsistent(sp, Apply(sp, Revoke(id, owner)), RevokeIndex(sp.shares, id, owner));
  }

  lemma TrackedSame(sp: Space, after: Space, sh: Share)
    requires Tracked(sp, sh) && after.drives == sp.drives
    ensures Tracked(after, sh)
  {
  }

  /** One share less, the drives as they were. */
  lemma CutConsistent(sp: Space, after: Space, i: nat)
    requires Consistent(sp) && i < |sp.shares|
    requires after.drives == sp.drives && after.shares == sp.shares[..i] + sp.shares[i + 1..]
    ensures Consistent(after)
  {
    hide Tracked, OwnedBy, WellFormed, SameGrant;
    forall k | 0 <= k < |after.shares| ensures Tracked(after, after.shares[k]) {
      TrackedSame(sp, after, sp.shares[if k < i then k else k + 1]);
    }
    forall a, b | 0 <= a < b < |after.shares| ensures !SameGrant(after.shares[a], after.shares[b]) {
      assert !SameGrant(sp.shares[if a < i then a else a + 1], sp.shares[if b < i then b else b + 1]);
    }
    forall o ensures OwnedBy(after.shares, o) <= MAX_SHARES_PER_OWNER {
      OwnedByRemove(sp.shares, i, o);
    }
  }

  lemma ApplyConsistent(sp: Space, c: Change)
    requires Consistent(sp) && Allowed(sp, c)
    ensures Consistent(Apply(sp, c))
  {
    match c
    case Write(owner, p, size) => PutConsistent(sp, owner, p, File(size));
    case MakeDir(owner, p) => PutConsistent(sp, owner, p, Dir);
    case Move(owner, from, to) => MoveConsistent(sp, owner, from, to);
    case Remove(owner, p) => RemoveConsistent(sp, owner, p);
    case Grant(sh, freshId) => GrantConsistent(sp, sh, freshId);
    case Revoke(id, owner) => RevokeConsistent(sp, id, owner);
  }

  // ---- what each change does, item by item and share by share ----

  predicate Holds(sp: Space, owner: string, p: seq<string>, node: Node) { Has(DriveOf(sp, owner), p, node) }

  /** A write or a new folder puts one item and leaves every other item and all shares. */
  lemma PutExactly(sp: Space, c: Change, o: string, q: seq<string>, node: Node)
    requires Consistent(sp) && Allowed(sp, c) && (c.Write? || c.MakeDir?)
    ensures Holds(Apply(sp, c), o, q, node) <==>
      if o == c.owner && q == c.path then node == (if c.Write? then File(c.size) else Dir) else Holds(sp, o, q, node)
    ensures Apply(sp, c).shares == sp.shares
  {
  }

  /** A rename carries the item and all below it to the new name and leaves every other item. */
  lemma MoveExactly(sp: Space, owner: string, from: seq<string>, to: seq<string>, o: string, q: seq<string>, node: Node)
    requires Consistent(sp) && Allowed(sp, Move(owner, from, to))
    ensures Holds(Apply(sp, Move(owner, from, to)), o, q, node) <==>
      if o == owner && to <= q then Holds(sp, o, from + q[|to|..], node)
      else Holds(sp, o, q, node) && !(o == owner && from <= q)
  {
    hide Consistent, WellFormed, AreNames, Renamed, Has, FreeBelow;
    RenamedFree(sp, owner, from, to);
    if o == owner {
      assert from != to && |from| == |to|;
      RenamedExactly(DriveOf(sp, owner), from, to, q, node);
      assert DriveOf(Apply(sp, Move(owner, from, to)), owner) == Renamed(DriveOf(sp, owner), from, to);
    } else {
      assert DriveOf(Apply(sp, Move(owner, from, to)), o) == DriveOf(sp, o);
    }
  }

  /** A removal takes the item and all below it, with its owner's shares there, and nothing else. */
  lemma RemoveExactly(sp: Space, owner: string, p: seq<string>, o: string, q: seq<string>, node: Node, sh: Share)
    requires Consistent(sp) && Allowed(sp, Remove(owner, p))
    ensures Holds(Apply(sp, Remove(owner, p)), o, q, node) <==> Holds(sp, o, q, node) && !(o == owner && p <= q)
    ensures sh in Apply(sp, Remove(owner, p)).shares <==>
      sh in sp.shares && !(sh.owner == owner && p <= Split(sh.path))
  {
    hide Consistent, Split;
    KeptIsSublist(sp.shares, owner, p);
  }

  // ---- every run ----

  /**
   The space after a run of requests, refused ones leaving it alone. Whatever
   the run, the share table it ends with is true of the drives it ends with.
   */
  ghost function Execute(start: Space, run: seq<Change>): (end: Space)
    requires Consistent(start)
    ensures Consistent(end)
    decreases |run|
  {
    if run == [] then start
    else
      var before := Execute(start, run[..|run| - 1]);
      var c := run[|run| - 1];
      if Allowed(before, c) then ApplyConsistent(before, c); Apply(before, c) else before
  }
}
