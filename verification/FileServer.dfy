/**
 The handlers of the file service that change a drive or its shares. Each one
 is the service's own sequence of checks and writes on string paths; its
 contract says which change of the space it made, when it refuses, and that
 the share table, the cached usage and the quota stay right.
 */
module FileServer {
  import opened Ascii
  import opened Numerals
  import opened Options
  import opened Paths
  import opened DriveTree
  import opened ShareTable
  import opened FileSpace

  const UPLOAD_TEMP_PREFIX := ".ef-upload-"
  const MAX_SHARE_DAYS := 365
  const DAY := 86_400 * SECOND
  const USAGE_TTL := 30 * SECOND

  // ---- names and paths ----

  predicate PlainPath(p: string) { '\0' !in p && '\\' !in p }

  /** The names a client path leads to below the root of the view. */
  function Named(p: string): seq<string> { Names(Split(p), 0) }

  /** cleanRel: a client path made relative to the root of the view. */
  function CleanRel(p: string): (rel: Option<string>)
    ensures rel.Some? <==> PlainPath(p)
    ensures rel.Some? ==> IsRel(rel.value) && Segs(rel.value) == Named(p) && rel.value == Text(Named(p))
    ensures rel.Some? ==> AreNames(Named(p)) && (rel.value == "." <==> Named(p) == [])
  {
    if '\0' in p || '\\' in p then None
    else
      var segs := CleanOnto([], Split("/" + p), true);
      CleanRootedNames([], Split("/" + p));
      TextSegs(segs);
      RootedNames(p);
      Some(Text(segs))
  }

  lemma RootedNames(p: string)
    ensures CleanOnto([], Split("/" + p), true) == Named(p)
  {
    assert ("/" + p)[1..] == p;
    assert Split("/" + p) == [""] + Split(p);
    CleanIsNames(Split("/" + p), 0);
    BlankNames([], "", Split(p), 0);
    assert [] + [""] + Split(p) == [""] + Split(p) && [] + Split(p) == Split(p);
  }

  // ---- the laws of client paths ----

  lemma NamedOfPieces(pieces: seq<string>)
    requires SlashFree(pieces)
    ensures Named(Join(pieces)) == Names(pieces, 0)
  {
    if pieces == [] {
      assert Split("") == [""] && [""][..0] == [];
    } else {
      SplitJoin(pieces);
    }
  }

  /** Names with slashes between them lead to the item of those names; the empty path to the root. */
  lemma RelOfNames(segs: seq<string>)
    requires AreNames(segs) && PlainPath(Join(segs))
    ensures CleanRel(Join(segs)) == Some(Text(segs))
  {
    hide CleanRel;
    NamedOfPieces(segs);
    NamesOfNames(segs);
  }

  /** A blank piece or "." put in anywhere changes nothing. */
  lemma RelSkipsBlank(a: seq<string>, x: string, b: seq<string>)
    requires SlashFree(a) && SlashFree(b) && (x == "" || x == ".")
    requires PlainPath(Join(a + [x] + b)) && PlainPath(Join(a + b))
    ensures CleanRel(Join(a + [x] + b)) == CleanRel(Join(a + b))
  {
    hide CleanRel;
    NamedOfPieces(a + [x] + b);
    NamedOfPieces(a + b);
    BlankNames(a, x, b, 0);
  }

  /** A name followed by ".." put in anywhere changes nothing. */
  lemma RelTakesBack(a: seq<string>, name: string, b: seq<string>)
    requires SlashFree(a) && SlashFree(b) && IsName(name)
    requires PlainPath(Join(a + [name, ".."] + b)) && PlainPath(Join(a + b))
    ensures CleanRel(Join(a + [name, ".."] + b)) == CleanRel(Join(a + b))
  {
    hide CleanRel;
    NamedOfPieces(a + [name, ".."] + b);
    NamedOfPieces(a + b);
    TakenBack(a, name, b, 0);
  }

  /** No path leads above the root: a ".." in front is dropped. */
  lemma RelStaysBelow(b: seq<string>)
    requires SlashFree(b) && PlainPath(Join([".."] + b)) && PlainPath(Join(b))
    ensures CleanRel(Join([".."] + b)) == CleanRel(Join(b))
  {
    hide CleanRel;
    NamedOfPieces([".."] + b);
    NamedOfPieces(b);
    NothingAbove(b, 0);
  }

  function Utf8Length(s: string): nat {
    if s == "" then 0
    else
      (if s[0] < '\U{80}' then 1 else if s[0] < '\U{800}' then 2 else if s[0] < '\U{10000}' then 3 else 4)
      + Utf8Length(s[1..])
  }

  predicate IsControl(c: char) {
    c < ' ' || ('\U{7f}' <= c <= '\U{9f}')
  }

  predicate IsSpace(c: char) {
    || '\t' <= c <= '\r' || c == ' ' || c == '\U{85}' || c == '\U{a0}' || c == '\U{1680}'
    || '\U{2000}' <= c <= '\U{200a}' || c == '\U{2028}' || c == '\U{2029}'
    || c == '\U{202f}' || c == '\U{205f}' || c == '\U{3000}'
  }

  predicate ValidName(name: string) {
    && name != "" && name != "." && name != ".."
    && Utf8Length(name) <= 255
    && !(UPLOAD_TEMP_PREFIX <= name)
    && (forall k :: 0 <= k < |name| ==> name[k] != '/' && name[k] != '\\' && !IsControl(name[k]))
    && (exists k :: 0 <= k < |name| && !IsSpace(name[k]))
  }

  function TrimSpace(s: string): string { TrimBoth(s, IsSpace) }

  // ---- which names are refused ----

  lemma {:induction false} Utf8Adds(a: string, b: string)
    ensures Utf8Length(a + b) == Utf8Length(a) + Utf8Length(b)
    decreases |a|
  {
    if a == "" {
      assert a + b == b;
    } else {
      assert (a + b)[1..] == a[1..] + b;
      Utf8Adds(a[1..], b);
    }
  }

  /** A character takes one byte below U+0080, two below U+0800, three below U+10000, else four. */
  lemma Utf8One(c: char)
    ensures Utf8Length([c]) ==
      if c as int < 0x80 then 1 else if c as int < 0x800 then 2 else if c as int < 0x1_0000 then 3 else 4
  {
    assert [c][1..] == "" && Utf8Length("") == 0;
  }

  /** Each reason a name is refused for, whatever stands around it. */
  lemma NamesRefused(a: string, c: char, b: string, name: string)
    ensures c == '/' || c == '\\' || c as int < 0x20 || 0x7f <= c as int <= 0x9f ==> !ValidName(a + [c] + b)
    ensures !ValidName(".ef-upload-" + a)
    ensures name in {"", ".", ".."} || Utf8Length(name) > 255 ==> !ValidName(name)
    ensures (forall k :: 0 <= k < |name| ==> IsSpace(name[k])) ==> !ValidName(name)
  {
    hide Utf8Length;
    assert (a + [c] + b)[|a|] == c;
    assert UPLOAD_TEMP_PREFIX <= ".ef-upload-" + a;
  }

  /** A name that starts with a letter or digit and holds none of those characters passes, up to 255 bytes. */
  lemma NamesAccepted(name: string)
    requires name != "" && Utf8Length(name) <= 255
    requires 'a' <= name[0] <= 'z' || 'A' <= name[0] <= 'Z' || '0' <= name[0] <= '9'
    requires forall k :: 0 <= k < |name| ==>
      name[k] != '/' && name[k] != '\\' && 0x20 <= name[k] as int && !(0x7f <= name[k] as int <= 0x9f)
    ensures ValidName(name)
  {
    hide Utf8Length;
    assert !IsSpace(name[0]);
    assert UPLOAD_TEMP_PREFIX[0] == '.';
  }

  // ---- views ----

  datatype View = View(owner: string, base: string, writable: bool, onlyName: string)

  datatype Outcome = Done | BadPath | NotFound | Forbidden | Exists | NotAllowed
                   | LengthRequired | TooLarge | OverQuota | Incomplete | BadRequest | TooManyShares

  datatype Opened = Open(view: View) | Denied(why: Outcome)

  /** Where a view is rooted in its owner's drive. */
  function BaseOf(v: View): seq<string> {
    if v.base == "" then [] else Split(v.base)
  }

  /** The item of the owner's drive that a view-relative path names. */
  function At(v: View, rel: string): seq<string> {
    BaseOf(v) + Segs(rel)
  }

  /** The item a client path names in a view. */
  function Item(v: View, path: string): seq<string> { BaseOf(v) + Named(path) }

  lemma ItemAt(v: View, path: string, rel: string)
    requires CleanRel(path) == Some(rel)
    ensures At(v, rel) == Item(v, path)
  {
    hide CleanRel;
  }

  function OwnerPath(v: View, rel: string): string {
    if v.onlyName != "" then v.base
    else if rel == "." then v.base
    else if v.base == "" then rel
    else v.base + "/" + rel
  }

  function ViewOfShare(sp: Space, user: string, sh: Share, now: int): (o: Opened)
    ensures o.Denied? ==> o.why == NotFound
  {
    if sh.grantee != user || sh.Expired(now) then Denied(NotFound)
    else if sh.isDir then
      if IsDirAt(DriveOf(sp, sh.owner), Split(sh.path))
      then Open(View(sh.owner, sh.path, sh.mode == "rw", ""))
      else Denied(NotFound)
    else
      if IsDirAt(DriveOf(sp, sh.owner), Segs(PathDir(sh.path)))
      then Open(View(sh.owner, sh.path, false, PathBase(sh.path)))
      else Denied(NotFound)
  }

  /** openView: the caller's home, or a share given to the caller. */
  function ViewFor(sp: Space, user: string, root: string, now: int): (o: Opened)
    ensures o.Denied? ==> o.why == BadPath || o.why == NotFound
  {
    if root == "" || root == "home" then Open(View(user, "", true, ""))
    else if !("share:" <= root) || root == "share:" then Denied(BadPath)
    else
      match FirstWithId(sp.shares, root[6..])
      case None => Denied(NotFound)
      case Some(sh) => ViewOfShare(sp, user, sh, now)
  }

  /** A writable view is a whole home, or a folder the owner's table shares read-write. */
  lemma WritableView(sp: Space, user: string, root: string, now: int)
    requires Consistent(sp) && ViewFor(sp, user, root, now).Open? && ViewFor(sp, user, root, now).view.writable
    ensures var v := ViewFor(sp, user, root, now).view;
      && v.onlyName == ""
      && AreNames(BaseOf(v))
      && IsDirAt(DriveOf(sp, v.owner), BaseOf(v))
      && (v.owner != user ==> exists sh :: sh in sp.shares && sh.owner == v.owner && sh.path == v.base
                                           && sh.grantee == user && sh.mode == "rw" && sh.isDir && !sh.Expired(now))
  {
    if root != "" && root != "home" {
      var sh := FirstWithId(sp.shares, root[6..]).value;
      assert Tracked(sp, sh);
    }
  }

  /** Share `k` is the one asked for, was given to the caller, has not expired, and what it opens is there. */
  predicate Offered(sp: Space, user: string, root: string, now: int, k: nat)
    requires k < |sp.shares|
  {
    var sh := sp.shares[k];
    && sh.id != "" && root == "share:" + sh.id && (forall j :: 0 <= j < k ==> sp.shares[j].id != sh.id)
    && sh.grantee == user && (sh.expiresAt.Some? ==> now < sh.expiresAt.value)
    && var p := Split(sh.path);
       IsDirAt(DriveOf(sp, sh.owner), if sh.isDir then p else p[..|p| - 1])
  }

  /** The view a share gives: a folder, read-write if it says so, or one file of its folder. */
  function ViewThrough(sh: Share): View {
    var p := Split(sh.path);
    View(sh.owner, sh.path, sh.isDir && sh.mode == "rw", if sh.isDir then "" else p[|p| - 1])
  }

  lemma {:induction false} FirstIs(list: seq<Share>, id: string, k: nat)
    requires k < |list| && list[k].id == id && forall j :: 0 <= j < k ==> list[j].id != id
    ensures FirstWithId(list, id) == Some(list[k])
    decreases |list|
  {
    if k > 0 { FirstIs(list[1..], id, k - 1); }
  }

  lemma {:induction false} FirstAt(list: seq<Share>, id: string) returns (k: nat)
    requires FirstWithId(list, id).Some?
    ensures k < |list| && list[k].id == id && forall j :: 0 <= j < k ==> list[j].id != id
    decreases |list|
  {
    if list[0].id == id {
      k := 0;
    } else {
      k := FirstAt(list[1..], id);
      assert forall j :: 1 <= j < k + 1 ==> list[j] == list[1..][j - 1];
      k := k + 1;
    }
  }

  lemma ShareOpens(sp: Space, user: string, sh: Share, now: int)
    requires IsCanonical(sh.path)
    ensures var p := Split(sh.path);
      ViewOfShare(sp, user, sh, now) ==
        if && sh.grantee == user && (sh.expiresAt.Some? ==> now < sh.expiresAt.value)
           && IsDirAt(DriveOf(sp, sh.owner), if sh.isDir then p else p[..|p| - 1])
        then Open(ViewThrough(sh)) else Denied(NotFound)
  {
    hide Split;
    SplitDot();
    PathDirSegs(sh.path);
  }

  lemma SplitDot()
    ensures Split(".") == ["."] && !IsCanonical(".")
  {
    SplitNameOnly(".");
    assert Split(".") == ["."] && !IsName(Split(".")[0]);
  }

  lemma OfferedOpens(sp: Space, user: string, root: string, now: int, k: nat)
    requires Consistent(sp) && k < |sp.shares| && Offered(sp, user, root, now, k)
    ensures ViewFor(sp, user, root, now) == Open(ViewThrough(sp.shares[k]))
  {
    hide Consistent, ViewOfShare, FirstWithId, Split, ViewThrough, IsDirAt;
    assert root[6..] == sp.shares[k].id && root != "share:";
    FirstIs(sp.shares, root[6..], k);
    ShareCanonical(sp, k);
    ShareOpens(sp, user, sp.shares[k], now);
  }

  lemma OpenIsOffered(sp: Space, user: string, root: string, now: int) returns (k: nat)
    requires Consistent(sp) && ViewFor(sp, user, root, now).Open? && root != "" && root != "home"
    ensures k < |sp.shares| && Offered(sp, user, root, now, k)
  {
    hide Consistent, ViewOfShare, FirstWithId, Split, ViewThrough, IsDirAt;
    assert root == "share:" + root[6..];
    k := FirstAt(sp.shares, root[6..]);
    FirstIs(sp.shares, root[6..], k);
    ShareCanonical(sp, k);
    ShareOpens(sp, user, sp.shares[k], now);
  }

  /** Which drive a root opens, and for whom: exactly the caller's own, or one offered by a share. */
  lemma ViewExactly(sp: Space, user: string, root: string, now: int)
    requires Consistent(sp)
    ensures root == "" || root == "home" ==> ViewFor(sp, user, root, now) == Open(View(user, "", true, ""))
    ensures forall k :: 0 <= k < |sp.shares| && Offered(sp, user, root, now, k) ==>
      ViewFor(sp, user, root, now) == Open(ViewThrough(sp.shares[k]))
    ensures ViewFor(sp, user, root, now).Open? ==>
      root == "" || root == "home" || exists k :: 0 <= k < |sp.shares| && Offered(sp, user, root, now, k)
  {
    HomeOpens(sp, user, root, now);
    hide *;
    forall k | 0 <= k < |sp.shares| && Offered(sp, user, root, now, k)
      ensures ViewFor(sp, user, root, now) == Open(ViewThrough(sp.shares[k]))
    {
      OfferedOpens(sp, user, root, now, k);
    }
    if ViewFor(sp, user, root, now).Open? && root != "" && root != "home" {
      var k := OpenIsOffered(sp, user, root, now);
    }
  }

  lemma HomeOpens(sp: Space, user: string, root: string, now: int)
    ensures root == "" || root == "home" ==> ViewFor(sp, user, root, now) == Open(View(user, "", true, ""))
  {
  }

  lemma ShareCanonical(sp: Space, k: nat)
    requires Consistent(sp) && k < |sp.shares|
    ensures IsCanonical(sp.shares[k].path)
  {
    assert Tracked(sp, sp.shares[k]);
  }

  lemma OwnerPathNames(v: View, rel: string)
    requires v.onlyName == "" && AreNames(BaseOf(v)) && IsRel(rel) && rel != "."
    ensures IsCanonical(OwnerPath(v, rel)) && Split(OwnerPath(v, rel)) == At(v, rel)
  {
    if v.base == "" {
      assert [] + Segs(rel) == Segs(rel);
    } else {
      SplitAppend(v.base, rel);
    }
  }

  lemma AtJoin(v: View, dir: string, name: string)
    requires IsRel(dir) && IsName(name)
    ensures IsRel(PathJoin(dir, name)) && PathJoin(dir, name) != "."
    ensures At(v, PathJoin(dir, name)) == At(v, dir) + [name]
    ensures Parent(At(v, PathJoin(dir, name))) == At(v, dir)
  {
    PathJoinSegs(dir, name);
    assert AreNames(Segs(dir) + [name]);
    TextSegs(Segs(dir) + [name]);
    assert BaseOf(v) + (Segs(dir) + [name]) == BaseOf(v) + Segs(dir) + [name];
  }

  // ---- all the spaces of the service ----

  /** The home directory of one user in one space. */
  datatype Home = Home(rid: int, owner: string)

  datatype Usage = Usage(bytes: nat, at: int)

  type Drives = map<int, map<string, Tree>>

  datatype State = State(drives: Drives, shares: map<int, seq<Share>>)

  function DrivesOf(drives: Drives, rid: int): map<string, Tree> {
    if rid in drives then drives[rid] else map[]
  }

  function SpaceAt(st: State, rid: int): Space {
    Space(DrivesOf(st.drives, rid), if rid in st.shares then st.shares[rid] else [])
  }

  function TreeAt(drives: Drives, h: Home): Tree {
    if h.owner in DrivesOf(drives, h.rid) then DrivesOf(drives, h.rid)[h.owner] else map[]
  }

  function WithTree(drives: Drives, h: Home, t: Tree): Drives {
    drives[h.rid := DrivesOf(drives, h.rid)[h.owner := t]]
  }

  ghost predicate AllConsistent(st: State) {
    forall rid :: Consistent(SpaceAt(st, rid))
  }

  /** Every cached usage is the true size of its drive. */
  ghost predicate UsageExact(drives: Drives, usage: map<Home, Usage>) {
    forall h :: h in usage ==> usage[h].bytes == Bytes(TreeAt(drives, h))
  }

  /** No drive grew past the quota. */
  ghost predicate QuotaKept(quota: int, before: Drives, after: Drives) {
    forall h: Home ::
      quota > 0 && Bytes(TreeAt(after, h)) > quota ==> Bytes(TreeAt(after, h)) <= Bytes(TreeAt(before, h))
  }

  /** Exactly the change `c` was made, in space `rid` and nowhere else. */
  ghost predicate Changed(before: State, after: State, rid: int, c: Change) {
    && Consistent(SpaceAt(before, rid)) && Allowed(SpaceAt(before, rid), c)
    && SpaceAt(after, rid) == Apply(SpaceAt(before, rid), c)
    && forall r :: r != rid ==> SpaceAt(after, r) == SpaceAt(before, r)
  }

  lemma ChangedConsistent(before: State, after: State, rid: int, c: Change)
    requires AllConsistent(before) && Changed(before, after, rid, c)
    ensures AllConsistent(after)
  {
    ApplyConsistent(SpaceAt(before, rid), c);
    forall r ensures Consistent(SpaceAt(after, r)) {
      assert Consistent(SpaceAt(before, r));
    }
  }

  /** Replacing one drive: nobody else's bytes move. */
  lemma DriveReplaced(drives: Drives, h: Home, t: Tree)
    ensures TreeAt(WithTree(drives, h, t), h) == t
    ensures forall other: Home :: other != h ==> TreeAt(WithTree(drives, h, t), other) == TreeAt(drives, other)
  {
  }

  lemma UsageStaysExact(drives: Drives, usage: map<Home, Usage>, h: Home, t: Tree)
    requires UsageExact(drives, usage)
    ensures UsageExact(WithTree(drives, h, t), usage - {h})
    ensures Bytes(t) == Bytes(TreeAt(drives, h)) ==> UsageExact(WithTree(drives, h, t), usage)
  {
    DriveReplaced(drives, h, t);
  }

  lemma QuotaStaysKept(quota: int, drives: Drives, h: Home, t: Tree)
    requires quota > 0 && Bytes(t) > quota ==> Bytes(t) <= Bytes(TreeAt(drives, h))
    ensures QuotaKept(quota, drives, WithTree(drives, h, t))
  {
    DriveReplaced(drives, h, t);
  }

  /** What the store's contract and the file system add up to: one space changed. */
  lemma OnlySpaceChanged(before: State, after: State, h: Home, t: Tree)
    requires after.drives == WithTree(before.drives, h, t)
    requires after.shares - {h.rid} == before.shares - {h.rid}
    ensures forall r :: r != h.rid ==> SpaceAt(after, r) == SpaceAt(before, r)
    ensures SpaceAt(after, h.rid).drives == SpaceAt(before, h.rid).drives[h.owner := t]
  {
    forall r | r != h.rid ensures SpaceAt(after, r) == SpaceAt(before, r) {
      assert r in after.shares - {h.rid} <==> r in before.shares - {h.rid};
      assert r in after.shares ==> (after.shares - {h.rid})[r] == (before.shares - {h.rid})[r];
    }
  }

  lemma MoveIsSafe(st: State, h: Home, from: seq<string>, to: seq<string>)
    requires AllConsistent(st) && Allowed(SpaceAt(st, h.rid), Move(h.owner, from, to))
    ensures FreeBelow(TreeAt(st.drives, h), to)
    ensures Bytes(Renamed(TreeAt(st.drives, h), from, to)) == Bytes(TreeAt(st.drives, h))
    ensures forall k :: 0 <= k < |SpaceAt(st, h.rid).shares| ==> IsCanonical(SpaceAt(st, h.rid).shares[k].path)
  {
    var sp := SpaceAt(st, h.rid);
    assert Consistent(sp);
    RenamedWellFormed(TreeAt(st.drives, h), from, to);
    RenamedBytes(TreeAt(st.drives, h), from, to);
    forall k | 0 <= k < |sp.shares| ensures IsCanonical(sp.shares[k].path) {
      assert Tracked(sp, sp.shares[k]);
    }
  }

  lemma MoveMade(before: State, after: State, h: Home, from: seq<string>, to: seq<string>)
    requires AllConsistent(before) && Allowed(SpaceAt(before, h.rid), Move(h.owner, from, to))
    requires FreeBelow(TreeAt(before.drives, h), to)
    requires after.drives == WithTree(before.drives, h, Renamed(TreeAt(before.drives, h), from, to))
    requires after.shares - {h.rid} == before.shares - {h.rid}
    requires SpaceAt(after, h.rid).shares == Moved(SpaceAt(before, h.rid).shares, h.owner, from, to)
    ensures AllConsistent(after) && Changed(before, after, h.rid, Move(h.owner, from, to))
  {
    OnlySpaceChanged(before, after, h, Renamed(TreeAt(before.drives, h), from, to));
    assert Consistent(SpaceAt(before, h.rid));
    ChangedConsistent(before, after, h.rid, Move(h.owner, from, to));
  }

  /** filepath.WalkDir adding up the regular files of a drive. */
  method WalkBytes(t: Tree) returns (bytes: nat)
    ensures bytes == Bytes(t)
  {
    var rest := t;
    bytes := 0;
    while rest != map[]
      invariant bytes + Bytes(rest) == Bytes(t)
      decreases |rest|
    {
      var p :| p in rest;
      BytesTake(rest, p);
      bytes := bytes + NodeBytes(rest[p]);
      rest := rest - {p};
    }
  }

  /** What an upload must satisfy, the quota and the arrival of its body apart. */
  predicate UploadAccepted(st: State, maxUpload: int, rid: int, user: string, root: string, path: string,
                           name: string, length: int, overwrite: bool, suffix: string, now: int)
  {
    var v := ViewFor(SpaceAt(st, rid), user, root, now);
    && v.Open? && v.view.writable && PlainPath(path) && ValidName(name)
    && 0 <= length <= maxUpload
    && var t := TreeAt(st.drives, Home(rid, v.view.owner));
       var dir := Item(v.view, path);
       && (dir + [name] in t ==> t[dir + [name]].File? && overwrite)
       && IsDirAt(t, dir) && dir + [UPLOAD_TEMP_PREFIX + suffix] !in t
  }

  /** Not empty, not too long, not oneself, and without control characters. */
  predicate ValidGrantee(grantee: string, user: string) {
    grantee != "" && Utf8Length(grantee) <= 255 && grantee != user
    && !exists k :: 0 <= k < |grantee| && grantee[k] < ' '
  }

  /** The owner already shares this path with this grantee. */
  predicate Granted(list: seq<Share>, owner: string, path: string, grantee: string) {
    exists k :: 0 <= k < |list| && list[k].owner == owner && list[k].path == path && list[k].grantee == grantee
  }

  /** The share a request describes. */
  function ShareOf(st: State, rid: int, user: string, path: string, grantee: string, mode: string, days: int,
                   now: int): Share {
    var t := TreeAt(st.drives, Home(rid, user));
    var isDir := Named(path) in t && t[Named(path)].Dir?;
    Share("", user, Text(Named(path)), isDir, grantee, if isDir then mode else "ro", now,
          if days > 0 then Some(now + days * DAY) else None)
  }

  /** A share of this item with this person, read-write only for a folder, for this many days or for ever. */
  predicate AsAsked(sh: Share, user: string, path: string, isDir: bool, grantee: string, mode: string, days: int,
                    now: int)
  {
    && sh.owner == user && Split(sh.path) == Named(path) && sh.isDir == isDir && sh.grantee == grantee
    && sh.mode == (if isDir then mode else "ro") && sh.createdAt == now
    && sh.expiresAt == (if days > 0 then Some(now + days * DAY) else None)
  }

  /** What a share request is answered, and exactly when it is stored. */
  function ShareVerdict(st: State, rid: int, user: string, path: string, rawGrantee: string, mode: string,
                        days: int): (v: Outcome)
    ensures v == Done <==>
      && ValidGrantee(TrimSpace(rawGrantee), user)
      && (mode == "ro" || mode == "rw") && 0 <= days <= MAX_SHARE_DAYS
      && PlainPath(path) && Named(path) != [] && Named(path) in TreeAt(st.drives, Home(rid, user))
      && (OwnedBy(SpaceAt(st, rid).shares, user) < MAX_SHARES_PER_OWNER
          || Granted(SpaceAt(st, rid).shares, user, Text(Named(path)), TrimSpace(rawGrantee)))
  {
    var grantee := TrimSpace(rawGrantee);
    if !ValidGrantee(grantee, user) then BadPath
    else if (mode != "ro" && mode != "rw") || days < 0 || days > MAX_SHARE_DAYS then BadRequest
    else if !PlainPath(path) || Named(path) == [] then BadPath
    else if Named(path) !in TreeAt(st.drives, Home(rid, user)) then NotFound
    else if !Granted(SpaceAt(st, rid).shares, user, Text(Named(path)), grantee)
         && OwnedBy(SpaceAt(st, rid).shares, user) >= MAX_SHARES_PER_OWNER then TooManyShares
    else Done
  }

  lemma RelSplits(path: string)
    requires PlainPath(path) && Named(path) != []
    ensures CleanRel(path).Some? && Split(CleanRel(path).value) == Named(path)
  {
    hide CleanRel, Named;
    var rel := CleanRel(path);
    TextSegs(Named(path));
  }

  lemma SameGrantOnly(list: seq<Share>, sh: Share, owner: string, path: string, grantee: string)
    requires sh.owner == owner && sh.path == path && sh.grantee == grantee
    ensures FirstGrant(list, sh, |list|) <==> !Granted(list, owner, path, grantee)
  {
  }

  class Server {
    const store: Store
    const quota: int      // per drive, 0 = unlimited
    const maxUpload: int
    var drives: Drives
    var usage: map<Home, Usage>

    constructor (quota: int, maxUpload: int)
      ensures Valid() && fresh(store) && drives == map[] && this.quota == quota && this.maxUpload == maxUpload
    {
      this.quota, this.maxUpload := quota, maxUpload;
      store := new Store();
      drives, usage := map[], map[];
      new;
      forall rid ensures Consistent(SpaceAt(Spaces(), rid)) {
        assert SpaceAt(Spaces(), rid) == Space(map[], []);
      }
    }

    function Spaces(): State
      reads this, store
    {
      State(drives, store.shares)
    }

    ghost predicate Valid()
      reads this, store
    {
      AllConsistent(Spaces()) && UsageExact(drives, usage)
    }

    /** The bytes of a drive; a cached answer is never stale. */
    method UsageOf(h: Home, now: int) returns (bytes: nat)
      requires UsageExact(drives, usage)
      modifies this`usage
      ensures UsageExact(drives, usage) && bytes == Bytes(TreeAt(drives, h))
    {
      if h in usage && now - usage[h].at < USAGE_TTL {
        return usage[h].bytes;
      }
      bytes := WalkBytes(TreeAt(drives, h));
      usage := usage[h := Usage(bytes, now)];
    }

    method OpenView(rid: int, user: string, root: string, now: int) returns (o: Opened)
      ensures o == ViewFor(SpaceAt(Spaces(), rid), user, root, now)
    {
      if root == "" || root == "home" {
        return Open(View(user, "", true, ""));
      }
      if !("share:" <= root) || root == "share:" {
        return Denied(BadPath);
      }
      var sh := store.FindShare(rid, root[6..]);
      if sh.None? {
        return Denied(NotFound);
      }
      o := ViewOfShare(SpaceAt(Spaces(), rid), user, sh.value, now);
    }

    // ---- the changes of a space ----

    /** Writing a file or making a folder: one node of one drive. */
    method PutNode(h: Home, p: seq<string>, node: Node, ghost c: Change)
      requires Valid() && Allowed(SpaceAt(Spaces(), h.rid), c)
      requires c == match node case File(n) => Write(h.owner, p, n) case Dir => MakeDir(h.owner, p)
      requires quota > 0 ==> node.Dir? || Bytes(TreeAt(drives, h)) + node.size <= quota
      modifies this
      ensures Valid() && Changed(old(Spaces()), Spaces(), h.rid, c)
      ensures QuotaKept(quota, old(drives), drives)
    {
      hide Consistent, QuotaKept, UsageExact;
      var t := TreeAt(drives, h);
      BytesPut(t, p, node);
      assert node.Dir? ==> t - {p} == t;
      UsageStaysExact(drives, usage, h, t[p := node]);
      QuotaStaysKept(quota, drives, h, t[p := node]);
      drives := WithTree(drives, h, t[p := node]);
      if node.File? {
        usage := usage - {h};
      }
      ChangedConsistent(old(Spaces()), Spaces(), h.rid, c);
    }

    method MoveNode(h: Home, from: string, to: string)
      requires IsCanonical(from) && IsCanonical(to)
      requires Valid() && Allowed(SpaceAt(Spaces(), h.rid), Move(h.owner, Split(from), Split(to)))
      modifies this, store
      ensures Valid() && Changed(old(Spaces()), Spaces(), h.rid, Move(h.owner, Split(from), Split(to)))
      ensures QuotaKept(quota, old(drives), drives)
    {
      hide Consistent, Allowed, Apply, QuotaKept, UsageExact, IsCanonical, WithTree;
      ghost var before := Spaces();
      var t := TreeAt(drives, h);
      MoveIsSafe(before, h, Split(from), Split(to));
      var t' := Renamed(t, Split(from), Split(to));
      UsageStaysExact(drives, usage, h, t');
      QuotaStaysKept(quota, drives, h, t');
      drives := WithTree(drives, h, t');
      store.PathMoved(h.rid, h.owner, from, to);
      MoveMade(before, Spaces(), h, Split(from), Split(to));
    }

    method RemoveNode(h: Home, top: string)
      requires Valid() && Allowed(SpaceAt(Spaces(), h.rid), Remove(h.owner, Split(top)))
      modifies this, store
      ensures Valid() && Changed(old(Spaces()), Spaces(), h.rid, Remove(h.owner, Split(top)))
      ensures QuotaKept(quota, old(drives), drives)
    {
      ghost var before := Spaces();
      var t := TreeAt(drives, h);
      var t' := Without(t, Split(top));
      BytesSub(t, t');
      UsageStaysExact(drives, usage, h, t');
      QuotaStaysKept(quota, drives, h, t');
      drives := WithTree(drives, h, t');
      usage := usage - {h};
      store.PathDeleted(h.rid, h.owner, top);
      OnlySpaceChanged(before, Spaces(), h, t');
      ChangedConsistent(before, Spaces(), h.rid, Remove(h.owner, Split(top)));
    }

    /** A new or refreshed grant, unless its owner has too many. */
    method AddGrant(rid: int, sh: Share, freshId: string) returns (ok: bool)
      requires Valid() && IsCanonical(sh.path) && Split(sh.path) in TreeAt(drives, Home(rid, sh.owner))
      requires sh.isDir == TreeAt(drives, Home(rid, sh.owner))[Split(sh.path)].Dir?
      requires (sh.mode == "ro" || sh.mode == "rw") && (!sh.isDir ==> sh.mode == "ro")
      modifies store
      ensures Valid() && drives == old(drives)
      ensures !ok ==> Spaces() == old(Spaces())
      ensures !ok <==>
        var list := SpaceAt(old(Spaces()), rid).shares;
        FirstGrant(list, sh, |list|) && OwnedBy(list, sh.owner) >= MAX_SHARES_PER_OWNER
      ensures ok ==> Changed(old(Spaces()), Spaces(), rid, Grant(sh, freshId))
      ensures ok ==> exists k :: 0 <= k < |store.List(rid)| && store.List(rid)[k] == sh.(id := store.List(rid)[k].id)
    {
      hide Consistent, Apply, UsageExact, IsCanonical, Split, Changed;
      ghost var before := Spaces();
      var stored := store.AddShare(rid, sh, freshId);
      if stored.None? { return false; }
      GrantMade(before, Spaces(), rid, sh, freshId);
      GrantStored(before, Spaces(), rid, sh, freshId);
      ok := true;
    }

    /** The body written beside the target and renamed over it when it is whole, removed when it is not. */
    method Receive(h: Home, target: seq<string>, tmp: seq<string>, length: nat, received: nat) returns (whole: bool)
      requires Valid() && Allowed(SpaceAt(Spaces(), h.rid), Write(h.owner, target, length))
      requires tmp !in TreeAt(drives, h) && tmp != target
      requires quota > 0 ==> Bytes(TreeAt(drives, h)) + length <= quota
      modifies this
      ensures Valid() && QuotaKept(quota, old(drives), drives)
      ensures whole <==> received == length
      ensures !whole ==> Spaces() == old(Spaces())
      ensures whole ==> Changed(old(Spaces()), Spaces(), h.rid, Write(h.owner, target, length))
    {
      hide Consistent, Apply, UsageExact, Changed, AreNames, IsDirAt;
      var t := TreeAt(drives, h);
      var written := t[tmp := File(received)];
      if received != length {
        assert written - {tmp} == t;
        return false;
      }
      assert (written - {tmp})[target := written[tmp]] == t[target := File(length)];
      PutNode(h, target, written[tmp], Write(h.owner, target, length));
      whole := true;
    }

    // ---- handlers ----

    method Upload(rid: int, user: string, root: string, path: string, name: string, length: int,
                  overwrite: bool, received: nat, suffix: string, now: int) returns (out: Outcome)
      requires Valid() && '/' !in suffix && (0 <= length ==> received <= length)
      modifies this
      ensures Valid() && QuotaKept(quota, old(drives), drives)
      ensures out != Done ==> Spaces() == old(Spaces())
      ensures out == Done <==>
        && UploadAccepted(old(Spaces()), maxUpload, rid, user, root, path, name, length, overwrite, suffix, now)
        && received == length
        && var owner := ViewFor(SpaceAt(old(Spaces()), rid), user, root, now).view.owner;
           (quota > 0 ==> Bytes(TreeAt(old(drives), Home(rid, owner))) + length <= quota)
      ensures out == Done ==>
        var v := ViewFor(SpaceAt(old(Spaces()), rid), user, root, now).view;
        Changed(old(Spaces()), Spaces(), rid, Write(v.owner, Item(v, path) + [name], length))
    {
      hide Consistent, Apply, UsageExact, ValidName, ViewFor, CleanRel, Named, PathJoin, Segs, At, Item, AreNames,
           IsDirAt, Changed, Text, Names;
      var got := OpenView(rid, user, root, now);
      if got.Denied? { return got.why; }
      var view := got.view;
      if !view.writable { return Forbidden; }
      var dir := CleanRel(path);
      if dir.None? || !ValidName(name) { return BadPath; }
      if length < 0 { return LengthRequired; }
      if length > maxUpload { return TooLarge; }
      ItemAt(view, path, dir.value);
      var h := Home(rid, view.owner);
      if quota > 0 {
        var used := UsageOf(h, now);
        if used + length > quota { return OverQuota; }
      }
      var t := TreeAt(drives, h);
      var target := At(view, PathJoin(dir.value, name));
      UploadPaths(SpaceAt(Spaces(), rid), user, root, now, dir.value, name, suffix);
      if target in t && (t[target].Dir? || !overwrite) { return Exists; }
      // Write beside the target, then rename: a cut upload leaves no trace.
      var tmp := At(view, PathJoin(dir.value, UPLOAD_TEMP_PREFIX + suffix));
      if !IsDirAt(t, Parent(tmp)) || tmp in t { return NotAllowed; }
      var whole := Receive(h, target, tmp, length, received);
      out := if whole then Done else Incomplete;
    }

    method Mkdir(rid: int, user: string, root: string, path: string, name: string, now: int) returns (out: Outcome)
      requires Valid()
      modifies this
      ensures Valid() && QuotaKept(quota, old(drives), drives)
      ensures out != Done ==> Spaces() == old(Spaces())
      ensures out == Done <==>
        var v := ViewFor(SpaceAt(old(Spaces()), rid), user, root, now);
        && v.Open? && v.view.writable && ValidName(name) && PlainPath(path)
        && Allowed(SpaceAt(old(Spaces()), rid), MakeDir(v.view.owner, Item(v.view, path) + [name]))
      ensures out == Done ==>
        var v := ViewFor(SpaceAt(old(Spaces()), rid), user, root, now).view;
        Changed(old(Spaces()), Spaces(), rid, MakeDir(v.owner, Item(v, path) + [name]))
    {
      hide Consistent, Apply, UsageExact, ValidName, ViewFor, CleanRel, Named, PathJoin, Segs, At, Item, AreNames,
           IsDirAt, Changed, Text, Names;
      var got := OpenView(rid, user, root, now);
      if got.Denied? { return got.why; }
      var view := got.view;
      if !view.writable { return Forbidden; }
      var dir := CleanRel(path);
      if dir.None? || !ValidName(name) { return BadPath; }
      ItemAt(view, path, dir.value);
      var h := Home(rid, view.owner);
      var target := At(view, PathJoin(dir.value, name));
      UploadPaths(SpaceAt(Spaces(), rid), user, root, now, dir.value, name, "");
      if !IsDirAt(TreeAt(drives, h), Parent(target)) || target in TreeAt(drives, h) { return NotAllowed; }
      PutNode(h, target, Dir, MakeDir(view.owner, target));
      out := Done;
    }

    method Rename(rid: int, user: string, root: string, path: string, newName: string, now: int) returns (out: Outcome)
      requires Valid()
      modifies this, store
      ensures Valid() && QuotaKept(quota, old(drives), drives)
      ensures out != Done ==> Spaces() == old(Spaces())
      ensures out == Done <==>
        var v := ViewFor(SpaceAt(old(Spaces()), rid), user, root, now);
        && v.Open? && v.view.writable && ValidName(newName) && PlainPath(path) && Named(path) != []
        && var from := Item(v.view, path);
           Allowed(SpaceAt(old(Spaces()), rid), Move(v.view.owner, from, Parent(from) + [newName]))
      ensures out == Done ==>
        var v := ViewFor(SpaceAt(old(Spaces()), rid), user, root, now).view;
        var from := Item(v, path);
        Changed(old(Spaces()), Spaces(), rid, Move(v.owner, from, Parent(from) + [newName]))
    {
      hide Consistent, Apply, UsageExact, ValidName, ViewFor, CleanRel, Named, At, Item, PathJoin, PathDir,
           IsCanonical, Split;
      var got := OpenView(rid, user, root, now);
      if got.Denied? { return got.why; }
      var view := got.view;
      if !view.writable { return Forbidden; }
      var rel := CleanRel(path);
      if rel.None? || rel.value == "." || !ValidName(newName) { return BadPath; }
      ItemAt(view, path, rel.value);
      var h := Home(rid, view.owner);
      var target := PathJoin(PathDir(rel.value), newName);
      RenamePaths(SpaceAt(Spaces(), rid), user, root, now, rel.value, newName);
      if At(view, target) in TreeAt(drives, h) { return Exists; }
      if At(view, rel.value) !in TreeAt(drives, h) { return NotFound; }
      MoveNode(h, OwnerPath(view, rel.value), OwnerPath(view, target));
      out := Done;
    }

    method Delete(rid: int, user: string, root: string, path: string, now: int) returns (out: Outcome)
      requires Valid()
      modifies this, store
      ensures Valid() && QuotaKept(quota, old(drives), drives)
      ensures out != Done ==> Spaces() == old(Spaces())
      ensures out == Done <==>
        var v := ViewFor(SpaceAt(old(Spaces()), rid), user, root, now);
        && v.Open? && v.view.writable && PlainPath(path) && Named(path) != []
        && Allowed(SpaceAt(old(Spaces()), rid), Remove(v.view.owner, Item(v.view, path)))
      ensures out == Done ==>
        var v := ViewFor(SpaceAt(old(Spaces()), rid), user, root, now).view;
        Changed(old(Spaces()), Spaces(), rid, Remove(v.owner, Item(v, path)))
    {
      hide Consistent, Apply, UsageExact, ViewFor, CleanRel, Named, At, Item, IsCanonical, Split;
      var got := OpenView(rid, user, root, now);
      if got.Denied? { return got.why; }
      var view := got.view;
      if !view.writable { return Forbidden; }
      var rel := CleanRel(path);
      if rel.None? || rel.value == "." { return BadPath; }
      ItemAt(view, path, rel.value);
      var h := Home(rid, view.owner);
      ItemPath(SpaceAt(Spaces(), rid), user, root, now, rel.value);
      if At(view, rel.value) !in TreeAt(drives, h) { return NotFound; }
      RemoveNode(h, OwnerPath(view, rel.value));
      out := Done;
    }

    /** A share of one's own item: stored, or refused for the first reason that applies. */
    method CreateShare(rid: int, user: string, path: string, rawGrantee: string, mode: string,
                       expiresInDays: int, freshId: string, now: int) returns (out: Outcome)
      requires Valid()
      modifies store
      ensures Valid() && drives == old(drives)
      ensures out == ShareVerdict(old(Spaces()), rid, user, path, rawGrantee, mode, expiresInDays)
      ensures out != Done ==> Spaces() == old(Spaces())
      ensures out == Done ==>
        var sh := ShareOf(old(Spaces()), rid, user, path, TrimSpace(rawGrantee), mode, expiresInDays, now);
        Changed(old(Spaces()), Spaces(), rid, Grant(sh, freshId))
      ensures out == Done ==>
        var isDir := TreeAt(old(drives), Home(rid, user))[Named(path)].Dir?;
        exists k :: 0 <= k < |store.List(rid)| && AsAsked(store.List(rid)[k], user, path, isDir, TrimSpace(rawGrantee),
                                                          mode, expiresInDays, now)
    {
      hide Consistent, Apply, UsageExact, CleanRel, TrimSpace, Utf8Length, IsCanonical, Split, QuotaKept, IsRel,
           Text, Named, ValidGrantee, Changed;
      var grantee := TrimSpace(rawGrantee);
      if !ValidGrantee(grantee, user) { return BadPath; }
      if mode != "ro" && mode != "rw" { return BadRequest; }
      if expiresInDays < 0 || expiresInDays > MAX_SHARE_DAYS { return BadRequest; }
      var rel := CleanRel(path);
      if rel.None? || rel.value == "." { return BadPath; }
      var t := TreeAt(drives, Home(rid, user));
      if Split(rel.value) !in t { return NotFound; }
      var isDir := t[Split(rel.value)].Dir?;
      var sh := Share("", user, rel.value, isDir, grantee, if isDir then mode else "ro", now,
                      if expiresInDays > 0 then Some(now + expiresInDays * DAY) else None);
      SegsText(rel.value);
      RelSplits(path);
      SameGrantOnly(store.List(rid), sh, user, rel.value, grantee);
      var stored := AddGrant(rid, sh, freshId);
      if !stored { return TooManyShares; }
      out := Done;
    }

    method DeleteShare(rid: int, user: string, id: string) returns (out: Outcome)
      requires Valid()
      modifies store
      ensures Valid() && drives == old(drives)
      ensures out == Done <==> Allowed(SpaceAt(old(Spaces()), rid), Revoke(id, user))
      ensures out != Done ==> Spaces() == old(Spaces())
      ensures out == Done ==> Changed(old(Spaces()), Spaces(), rid, Revoke(id, user))
    {
      hide Consistent, Apply, UsageExact, Allowed, Changed;
      ghost var before := Spaces();
      RevokeAllowed(SpaceAt(before, rid), id, user);
      assert SpaceAt(before, rid).shares == store.List(rid);
      var removed := store.RemoveShare(rid, id, user);
      if removed.None? { return NotFound; }
      RevokeMade(before, Spaces(), rid, id, user);
      out := Done;
    }
  }

  lemma RevokeAllowed(sp: Space, id: string, owner: string)
    ensures !Allowed(sp, Revoke(id, owner)) <==>
      forall k :: 0 <= k < |sp.shares| ==> !(sp.shares[k].id == id && sp.shares[k].owner == owner)
  {
    var i := RevokeIndex(sp.shares, id, owner);
    assert i < |sp.shares| ==> sp.shares[i].id == id && sp.shares[i].owner == owner;
  }

  lemma ItemPath(sp: Space, user: string, root: string, now: int, rel: string)
    requires Consistent(sp) && ViewFor(sp, user, root, now).Open? && ViewFor(sp, user, root, now).view.writable
    requires IsRel(rel) && rel != "."
    ensures var v := ViewFor(sp, user, root, now).view;
      && IsCanonical(OwnerPath(v, rel)) && Split(OwnerPath(v, rel)) == At(v, rel) != []
  {
    WritableView(sp, user, root, now);
    OwnerPathNames(ViewFor(sp, user, root, now).view, rel);
  }

  lemma RenamePaths(sp: Space, user: string, root: string, now: int, rel: string, newName: string)
    requires Consistent(sp) && ViewFor(sp, user, root, now).Open? && ViewFor(sp, user, root, now).view.writable
    requires IsRel(rel) && rel != "." && ValidName(newName)
    ensures var v := ViewFor(sp, user, root, now).view;
      var target := PathJoin(PathDir(rel), newName);
      && IsCanonical(OwnerPath(v, rel)) && Split(OwnerPath(v, rel)) == At(v, rel) != []
      && IsCanonical(OwnerPath(v, target)) && Split(OwnerPath(v, target)) == At(v, target)
      && At(v, target) == Parent(At(v, rel)) + [newName]
      && AreNames(At(v, target))
  {
    hide Split, ViewFor;
    var v := ViewFor(sp, user, root, now).view;
    ItemPath(sp, user, root, now, rel);
    PathDirSegs(rel);
    assert IsName(newName);
    AtJoin(v, PathDir(rel), newName);
    assert Parent(At(v, rel)) == At(v, PathDir(rel));
    ItemPath(sp, user, root, now, PathJoin(PathDir(rel), newName));
  }

  lemma GrantMade(before: State, after: State, rid: int, sh: Share, freshId: string)
    requires AllConsistent(before) && after.drives == before.drives
    requires after.shares - {rid} == before.shares - {rid}
    requires IsCanonical(sh.path) && Split(sh.path) in TreeAt(before.drives, Home(rid, sh.owner))
    requires sh.isDir == TreeAt(before.drives, Home(rid, sh.owner))[Split(sh.path)].Dir?
    requires (sh.mode == "ro" || sh.mode == "rw") && (!sh.isDir ==> sh.mode == "ro")
    requires var list := SpaceAt(before, rid).shares;
      && !(FirstGrant(list, sh, |list|) && OwnedBy(list, sh.owner) >= MAX_SHARES_PER_OWNER)
      && exists i: nat {:trigger FirstGrant(list, sh, i)} ::
          FirstGrant(list, sh, i) &&
          SpaceAt(after, rid).shares ==
            if i < |list| then list[i := sh.(id := list[i].id)] else list + [sh.(id := freshId)]
    ensures AllConsistent(after) && Changed(before, after, rid, Grant(sh, freshId))
  {
    SharesOnly(before, after, rid);
    var list := SpaceAt(before, rid).shares;
    var i: nat :| FirstGrant(list, sh, i) &&
      SpaceAt(after, rid).shares ==
        if i < |list| then list[i := sh.(id := list[i].id)] else list + [sh.(id := freshId)];
    FirstGrantUnique(list, sh, i, GrantIndex(list, sh));
    assert Consistent(SpaceAt(before, rid));
    ChangedConsistent(before, after, rid, Grant(sh, freshId));
  }

  lemma GrantStored(before: State, after: State, rid: int, sh: Share, freshId: string)
    requires Changed(before, after, rid, Grant(sh, freshId))
    ensures var list := SpaceAt(after, rid).shares;
      exists k :: 0 <= k < |list| && list[k] == sh.(id := list[k].id)
  {
    hide Consistent;
    var old', list := SpaceAt(before, rid).shares, SpaceAt(after, rid).shares;
    var i := GrantIndex(old', sh);
    assert list[i] == sh.(id := list[i].id);
  }

  lemma RevokeMade(before: State, after: State, rid: int, id: string, owner: string)
    requires AllConsistent(before) && after.drives == before.drives
    requires after.shares - {rid} == before.shares - {rid}
    requires var list := SpaceAt(before, rid).shares;
      exists i: nat ::
        i < |list| && list[i].id == id && list[i].owner == owner &&
        (forall k :: 0 <= k < i ==> !(list[k].id == id && list[k].owner == owner)) &&
        SpaceAt(after, rid).shares == list[..i] + list[i + 1..]
    ensures AllConsistent(after) && Changed(before, after, rid, Revoke(id, owner))
  {
    SharesOnly(before, after, rid);
    assert Consistent(SpaceAt(before, rid));
    ChangedConsistent(before, after, rid, Revoke(id, owner));
  }

  lemma SharesOnly(before: State, after: State, rid: int)
    requires after.drives == before.drives
    requires after.shares - {rid} == before.shares - {rid}
    ensures forall r :: r != rid ==> SpaceAt(after, r) == SpaceAt(before, r)
  {
    forall r | r != rid ensures SpaceAt(after, r) == SpaceAt(before, r) {
      assert r in after.shares - {rid} <==> r in before.shares - {rid};
      assert r in after.shares ==> (after.shares - {rid})[r] == (before.shares - {rid})[r];
    }
  }

  lemma FirstGrantUnique(list: seq<Share>, sh: Share, i: nat, j: nat)
    requires FirstGrant(list, sh, i) && FirstGrant(list, sh, j)
    ensures i == j
  {
  }

  /** The temporary file sits beside the target and is never the target. */
  lemma UploadPaths(sp: Space, user: string, root: string, now: int, dir: string, name: string, suffix: string)
    requires Consistent(sp) && ViewFor(sp, user, root, now).Open? && ViewFor(sp, user, root, now).view.writable
    requires IsRel(dir) && ValidName(name) && '/' !in suffix
    ensures var v := ViewFor(sp, user, root, now).view;
      var tmpName := UPLOAD_TEMP_PREFIX + suffix;
      var target, tmp := At(v, PathJoin(dir, name)), At(v, PathJoin(dir, tmpName));
      && target == At(v, dir) + [name] && tmp == At(v, dir) + [tmpName]
      && AreNames(target) && target != tmp && Parent(target) == Parent(tmp)
  {
    var v := ViewFor(sp, user, root, now).view;
    WritableView(sp, user, root, now);
    AtJoin(v, dir, name);
    assert UPLOAD_TEMP_PREFIX <= UPLOAD_TEMP_PREFIX + suffix;
    assert name != UPLOAD_TEMP_PREFIX + suffix;
    TempName(suffix);
    AtJoin(v, dir, UPLOAD_TEMP_PREFIX + suffix);
    assert (At(v, dir) + [name])[|At(v, dir)|] != (At(v, dir) + [UPLOAD_TEMP_PREFIX + suffix])[|At(v, dir)|];
  }

  lemma TempName(suffix: string)
    requires '/' !in suffix
    ensures IsName(UPLOAD_TEMP_PREFIX + suffix)
  {
    forall c | c in UPLOAD_TEMP_PREFIX + suffix ensures c != '/' {
      assert c in UPLOAD_TEMP_PREFIX || c in suffix;
    }
  }
}