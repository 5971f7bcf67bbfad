/**
 The share table of one file space: who shares which path with whom.
 The value functions say what each operation means; class Store does the work
 with the service's own loops over the list.
 */
module ShareTable {
  import opened Options
  import opened Paths

  const MAX_SHARES_PER_OWNER := 500

  datatype Share = Share(
    id: string, owner: string, path: string, isDir: bool,
    grantee: string, mode: string, createdAt: int, expiresAt: Option<int>)
  {
    predicate Expired(now: int) { expiresAt.Some? && expiresAt.value <= now }
  }

  predicate SameGrant(a: Share, b: Share) {
    a.owner == b.owner && a.path == b.path && a.grantee == b.grantee
  }

  function OwnedBy(list: seq<Share>, owner: string): nat {
    if list == [] then 0
    else OwnedBy(list[..|list| - 1], owner) + if list[|list| - 1].owner == owner then 1 else 0
  }

  function OwnedAt(list: seq<Share>, owner: string): set<nat> {
    set k: nat | k < |list| && list[k].owner == owner
  }

  /** The number of entries of this owner. */
  lemma {:induction false} OwnedByExactly(list: seq<Share>, owner: string)
    ensures OwnedBy(list, owner) == |OwnedAt(list, owner)|
    decreases |list|
  {
    if list == [] {
      assert OwnedAt(list, owner) == {};
    } else {
      var n := |list| - 1;
      OwnedByExactly(list[..n], owner);
      assert OwnedAt(list, owner) == OwnedAt(list[..n], owner) + if list[n].owner == owner then {n} else {};
    }
  }

  /** The first entry that grants the same item to the same person, or |list|. */
  ghost predicate FirstGrant(list: seq<Share>, sh: Share, i: nat) {
    && i <= |list|
    && (forall k :: 0 <= k < i ==> !SameGrant(list[k], sh))
    && (i < |list| ==> SameGrant(list[i], sh))
  }

  ghost predicate NoRepeatedGrant(list: seq<Share>) {
    forall i, j :: 0 <= i < j < |list| ==> !SameGrant(list[i], list[j])
  }

  ghost predicate WithinCap(list: seq<Share>) {
    forall owner :: OwnedBy(list, owner) <= MAX_SHARES_PER_OWNER
  }

  function FirstWithId(list: seq<Share>, id: string): (sh: Option<Share>)
    ensures sh.Some? ==> sh.value in list && sh.value.id == id
    ensures sh.None? <==> forall k :: 0 <= k < |list| ==> list[k].id != id
  {
    if list == [] then None
    else if list[0].id == id then Some(list[0])
    else FirstWithId(list[1..], id)
  }

  // ---- what renaming and deleting mean for the table ----

  function MovedShare(sh: Share, owner: string, from: seq<string>, to: seq<string>): Share {
    if sh.owner == owner && from <= Split(sh.path)
    then sh.(path := Text(to + Split(sh.path)[|from|..]))
    else sh
  }

  function Moved(list: seq<Share>, owner: string, from: seq<string>, to: seq<string>): (r: seq<Share>)
    ensures |r| == |list|
    ensures forall k :: 0 <= k < |r| ==> r[k] == MovedShare(list[k], owner, from, to)
  {
    seq(|list|, k requires 0 <= k < |list| => MovedShare(list[k], owner, from, to))
  }

  predicate Dropped(sh: Share, owner: string, top: seq<string>) {
    sh.owner == owner && top <= Split(sh.path)
  }

  function Kept(list: seq<Share>, owner: string, top: seq<string>): seq<Share> {
    if list == [] then []
    else
      var last := list[|list| - 1];
      Kept(list[..|list| - 1], owner, top) + if Dropped(last, owner, top) then [] else [last]
  }

  // ---- counting and uniqueness survive ----

  lemma {:induction false} OwnedByPoint(list: seq<Share>, other: seq<Share>, owner: string)
    requires |list| == |other|
    requires forall k :: 0 <= k < |list| ==> list[k].owner == other[k].owner
    ensures OwnedBy(list, owner) == OwnedBy(other, owner)
    decreases |list|
  {
    if list != [] {
      OwnedByPoint(list[..|list| - 1], other[..|other| - 1], owner);
    }
  }

  lemma {:induction false} OwnedByRemove(list: seq<Share>, i: nat, owner: string)
    requires i < |list|
    ensures OwnedBy(list[..i] + list[i + 1..], owner) <= OwnedBy(list, owner)
    decreases |list|
  {
    var n := |list| - 1;
    var cut := list[..i] + list[i + 1..];
    if i == n {
      assert cut == list[..n];
    } else {
      OwnedByRemove(list[..n], i, owner);
      assert cut[..|cut| - 1] == list[..n][..i] + list[..n][i + 1..];
    }
  }

  lemma {:induction false} KeptIsSublist(list: seq<Share>, owner: string, top: seq<string>)
    ensures forall sh :: sh in Kept(list, owner, top) <==> sh in list && !Dropped(sh, owner, top)
    ensures forall o :: OwnedBy(Kept(list, owner, top), o) <= OwnedBy(list, o)
    ensures NoRepeatedGrant(list) ==> NoRepeatedGrant(Kept(list, owner, top))
    decreases |list|
  {
    hide SameGrant, Dropped;
    if list != [] {
      var n := |list| - 1;
      var init, last := list[..n], list[n];
      assert list == init + [last];
      KeptIsSublist(init, owner, top);
      var kept := Kept(init, owner, top);
      assert (kept + [last])[..|kept|] == kept;
      forall o ensures OwnedBy(Kept(list, owner, top), o) <= OwnedBy(list, o) {
        assert OwnedBy(kept, o) <= OwnedBy(init, o);
        if Dropped(last, owner, top) {
          assert Kept(list, owner, top) == kept;
        }
      }
      if NoRepeatedGrant(list) {
        forall i | 0 <= i < |kept| ensures !SameGrant(kept[i], last) {
          assert kept[i] in init;
        }
      }
    }
  }

  // ---- the store ----

  class Store {
    var shares: map<int, seq<Share>>  // per resource, loaded lazily

    constructor ()
      ensures shares == map[]
    {
      shares := map[];
    }

    function List(rid: int): seq<Share>
      reads this
    {
      if rid in shares then shares[rid] else []
    }

    method FindShare(rid: int, id: string) returns (sh: Option<Share>)
      ensures sh == FirstWithId(List(rid), id)
    {
      var list := List(rid);
      for i := 0 to |list|
        invariant FirstWithId(list, id) == FirstWithId(list[i..], id)
      {
        if list[i].id == id {
          return Some(list[i]);
        }
      }
      sh := None;
    }

    /** Grants `sh`, or refreshes the grant already there; None means too many. */
    method AddShare(rid: int, sh: Share, freshId: string) returns (stored: Option<Share>)
      modifies this
      ensures shares - {rid} == old(shares) - {rid}
      ensures stored.None? ==> shares == old(shares)
      ensures stored.None? <==>
        FirstGrant(old(List(rid)), sh, |old(List(rid))|) && OwnedBy(old(List(rid)), sh.owner) >= MAX_SHARES_PER_OWNER
      ensures stored.Some? ==>
        exists i: nat {:trigger FirstGrant(old(List(rid)), sh, i)} ::
          FirstGrant(old(List(rid)), sh, i) &&
          if i < |old(List(rid))|
          then stored.value == sh.(id := old(List(rid))[i].id) && List(rid) == old(List(rid))[i := stored.value]
          else stored.value == sh.(id := freshId) && List(rid) == old(List(rid)) + [stored.value]
    {
      var list := List(rid);
      var owned := 0;
      for i := 0 to |list|
        invariant owned == OwnedBy(list[..i], sh.owner)
        invariant forall k :: 0 <= k < i ==> !SameGrant(list[k], sh)
        invariant shares == old(shares)
      {
        assert list[..i + 1][..i] == list[..i];
        if list[i].owner == sh.owner {
          owned := owned + 1;
          if list[i].path == sh.path && list[i].grantee == sh.grantee {
            var updated := sh.(id := list[i].id);
            assert FirstGrant(old(List(rid)), sh, i);
            shares := shares[rid := list[i := updated]];
            return Some(updated);
          }
        }
      }
      assert list[..|list|] == list;
      if owned >= MAX_SHARES_PER_OWNER {
        return None;
      }
      var added := sh.(id := freshId);
      assert FirstGrant(old(List(rid)), sh, |list|);
      shares := shares[rid := list + [added]];
      assert List(rid) == old(List(rid)) + [added];
      stored := Some(added);
    }

    method RemoveShare(rid: int, id: string, owner: string) returns (removed: Option<Share>)
      modifies this
      ensures shares - {rid} == old(shares) - {rid}
      ensures removed.None? ==> shares == old(shares)
      ensures removed.None? <==>
        forall k :: 0 <= k < |old(List(rid))| ==> !(old(List(rid))[k].id == id && old(List(rid))[k].owner == owner)
      ensures removed.Some? ==> removed.value.id == id && removed.value.owner == owner
      ensures removed.Some? ==>
        exists i: nat ::
          i < |old(List(rid))| && old(List(rid))[i] == removed.value &&
          (forall k :: 0 <= k < i ==> !(old(List(rid))[k].id == id && old(List(rid))[k].owner == owner)) &&
          List(rid) == old(List(rid))[..i] + old(List(rid))[i + 1..]
    {
      var list := List(rid);
      for i := 0 to |list|
        invariant forall k :: 0 <= k < i ==> !(list[k].id == id && list[k].owner == owner)
        invariant shares == old(shares)
      {
        if list[i].id == id && list[i].owner == owner {
          shares := shares[rid := list[..i] + list[i + 1..]];
          return Some(list[i]);
        }
      }
      removed := None;
    }

    /** Keeps the owner's shares on a renamed item, in the list's own order. */
    method PathMoved(rid: int, owner: string, from: string, to: string)
      requires IsCanonical(from) && IsCanonical(to)
      requires forall k :: 0 <= k < |List(rid)| ==> IsCanonical(List(rid)[k].path)
      modifies this
      ensures shares - {rid} == old(shares) - {rid}
      ensures List(rid) == Moved(old(List(rid)), owner, Split(from), Split(to))
    {
      hide MovedShare, UnderPath, IsCanonical, Split, TrimPrefix;
      var list := List(rid);
      var changed := false;
      var next := list;
      for i := 0 to |list|
        invariant |next| == |list|
        invariant forall k :: 0 <= k < i ==> next[k] == MovedShare(list[k], owner, Split(from), Split(to))
        invariant forall k :: i <= k < |list| ==> next[k] == list[k]
        invariant !changed ==> next == list
        invariant shares == old(shares)
      {
        MovedShareIs(next[i], owner, from, to);
        if next[i].owner == owner && UnderPath(next[i].path, from) {
          next := next[i := next[i].(path := to + TrimPrefix(next[i].path, from))];
          changed := true;
        }
      }
      if changed {
        shares := shares[rid := next];
      }
    }

    /** Drops the owner's shares on an item that no longer exists. */
    method PathDeleted(rid: int, owner: string, removed: string)
      modifies this
      ensures shares - {rid} == old(shares) - {rid}
      ensures List(rid) == Kept(old(List(rid)), owner, Split(removed))
    {
      hide Dropped, UnderPath, Split, Kept;
      var list := List(rid);
      var next: seq<Share> := [];
      KeptStep([], owner, removed);
      for i := 0 to |list|
        invariant next == Kept(list[..i], owner, Split(removed))
        invariant |next| <= i
        invariant |next| == i ==> next == list[..i]
        invariant shares == old(shares)
      {
        KeptStep(list[..i + 1], owner, removed);
        assert list[..i + 1][..i] == list[..i];
        if !(list[i].owner == owner && UnderPath(list[i].path, removed)) {
          next := next + [list[i]];
        }
      }
      assert list[..|list|] == list;
      if |next| != |list| {
        shares := shares[rid := next];
      }
    }
  }

  lemma KeptStep(list: seq<Share>, owner: string, removed: string)
    ensures Kept(list, owner, Split(removed)) ==
      if list == [] then []
      else
        var last := list[|list| - 1];
        Kept(list[..|list| - 1], owner, Split(removed))
        + if last.owner == owner && UnderPath(last.path, removed) then [] else [last]
  {
    hide UnderPath, Split;
    if list != [] {
      UnderPathIsSegmentPrefix(list[|list| - 1].path, removed);
    }
  }

  lemma MovedShareIs(sh: Share, owner: string, from: string, to: string)
    requires IsCanonical(from) && IsCanonical(to) && IsCanonical(sh.path)
    ensures MovedShare(sh, owner, Split(from), Split(to)) ==
      if sh.owner == owner && UnderPath(sh.path, from) then sh.(path := to + TrimPrefix(sh.path, from)) else sh
  {
    hide UnderPath, IsCanonical, Split, TrimPrefix;
    UnderPathIsSegmentPrefix(sh.path, from);
    if UnderPath(sh.path, from) {
      MovedTextIsJoin(sh.path, from, to);
    }
  }

  lemma MovedTextIsJoin(p: string, from: string, to: string)
    requires IsCanonical(p) && IsCanonical(from) && IsCanonical(to) && UnderPath(p, from)
    ensures Split(from) <= Split(p)
    ensures to + TrimPrefix(p, from) == Text(Split(to) + Split(p)[|Split(from)|..])
  {
    MovedPath(p, from, to);
    JoinSplit(to + TrimPrefix(p, from));
  }
}
