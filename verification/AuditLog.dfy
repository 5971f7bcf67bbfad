/**
 The audit log over time: append with its size-based rotation, purge of old
 archives, and restart. Class AuditLog is the code's own state, byte for byte;
 Log is what it means.
 */
module AuditLog {
  import opened Sequences
  import opened Options
  import opened TextSearch
  import opened AuditLine
  import opened AuditChain

  const GENESIS := "GENESIS"

  /** A file's worth of entries, chained on from `base`. */
  datatype Segment = Segment(base: string, entries: seq<string>, restarted: bool)

  /** The name of a sealed file: the log's own name and the epoch second it was sealed at. */
  datatype Archive = Archive(epoch: int)

  /** The files sealed so far in order, the second each was sealed at, and the file being written. */
  datatype Log = Log(sealed: seq<Segment>, seals: seq<int>, current: Segment)

  function Head(mac: Mac, base: string, cs: seq<string>): string {
    if cs == [] then base else Sealing(mac, Head(mac, base, cs[..|cs| - 1]), cs[|cs| - 1])
  }

  function EntryOf(mac: Mac, head: string, c: string): Entry {
    Entry(c, head, Sealing(mac, head, c))
  }

  function EntryList(mac: Mac, base: string, cs: seq<string>): seq<Entry> {
    if cs == [] then []
    else EntryList(mac, base, cs[..|cs| - 1]) + [EntryOf(mac, Head(mac, base, cs[..|cs| - 1]), cs[|cs| - 1])]
  }

  /** The bytes append_audit has written for these entries. */
  function FileText(mac: Mac, base: string, cs: seq<string>): string {
    if cs == [] then ""
    else
      FileText(mac, base, cs[..|cs| - 1])
      + (Render(EntryOf(mac, Head(mac, base, cs[..|cs| - 1]), cs[|cs| - 1])) + "\n")
  }

  predicate LineSafe(c: string) { IsObject(c) && '\n' !in c }

  predicate AllSafe(cs: seq<string>) { forall k :: 0 <= k < |cs| ==> LineSafe(cs[k]) }

  predicate PlainHead(h: string) { QuoteFree(h) && '\n' !in h }

  ghost predicate Proper(seg: Segment) {
    PlainHead(seg.base) && AllSafe(seg.entries)
  }

  lemma {:induction false} HeadPlain(mac: Mac, base: string, cs: seq<string>)
    requires PlainMac(mac) && PlainHead(base)
    ensures PlainHead(Head(mac, base, cs))
    ensures cs != [] ==> Head(mac, base, cs) != ""
  {
    if cs != [] {
      var x := Head(mac, base, cs[..|cs| - 1]) + "|" + cs[|cs| - 1];
      assert QuoteFree(mac(x));
    }
  }

  lemma RenderNoNewline(e: Entry)
    requires LineSafe(e.canonical) && PlainHead(e.prev) && PlainHead(e.hash)
    ensures '\n' !in Render(e) && Render(e) != ""
  {
    var t := Tail(e.prev, e.hash);
    TailAt(e.prev, e.hash, t);
    forall i | 0 <= i < |t| ensures t[i] != '\n' {
      assert i < 13 ==> t[i] == PREV_MARK[i];
      assert 13 <= i < 13 + |e.prev| ==> t[i] == e.prev[i - 13];
      assert 15 + |e.prev| <= i < 23 + |e.prev| ==> t[i] == HASH_MARK[i - 15 - |e.prev|];
      assert 23 + |e.prev| <= i < 23 + |e.prev| + |e.hash| ==> t[i] == e.hash[i - 23 - |e.prev|];
    }
    forall c | c in Render(e) ensures c != '\n' {
      assert c in e.canonical[..|e.canonical| - 1] || c in t;
    }
  }

  /** One appended entry is one more line, and reads back as that entry. */
  lemma AppendedLine(mac: Mac, text: string, head: string, c: string)
    requires PlainMac(mac) && EndsLine(text) && PlainHead(head) && LineSafe(c)
    ensures var e := EntryOf(mac, head, c);
      && GetLines(text + (Render(e) + "\n")) == GetLines(text) + [Render(e)]
      && EndsLine(text + (Render(e) + "\n"))
      && Render(e) != "" && ParseLine(Render(e)) == Chained(e)
  {
    hide ParseLine, Render, GetLines;
    var e := EntryOf(mac, head, c);
    assert PlainHead(e.hash) && QuoteFree(mac(head + "|" + c));
    RenderNoNewline(e);
    ParseRendered(e);
    GetLinesOne(Render(e));
    GetLinesAppend(text, Render(e) + "\n");
  }

  /** A file of one segment verifies: right count, no legacy line, every entry recovered. */
  lemma {:induction false} FileVerifies(mac: Mac, base: string, cs: seq<string>)
    requires PlainMac(mac) && PlainHead(base) && AllSafe(cs)
    ensures var lines := GetLines(FileText(mac, base, cs));
      && EndsLine(FileText(mac, base, cs))
      && CheckLines(mac, lines) == Check(if cs == [] then "" else Head(mac, base, cs), cs == [], true, |cs|, 0, 0)
      && Entries(lines) == EntryList(mac, base, cs)
    decreases |cs|
  {
    hide ParseLine, Render, GetLines, CheckLines, Entries, EndsLine, LineSafe;
    if cs == [] {
      EmptyFile(mac);
    } else {
      var init, c := cs[..|cs| - 1], cs[|cs| - 1];
      FileVerifies(mac, base, init);
      HeadPlain(mac, base, init);
      var text, head := FileText(mac, base, init), Head(mac, base, init);
      AppendedLine(mac, text, head, c);
      LastLine(mac, GetLines(FileText(mac, base, cs)), GetLines(text), Render(EntryOf(mac, head, c)));
    }
  }

  lemma EmptyFile(mac: Mac)
    ensures CheckLines(mac, GetLines("")) == START && Entries(GetLines("")) == [] && EndsLine("")
  {
  }

  // ---- reading the head back after a restart ----

  /** The hash init_audit_chain takes from one line, if it finds one. */
  function HashOf(line: string): Option<string> {
    var p := RFind(line, HASH_MARK);
    if p == -1 then None
    else
      var e := FindChar(line, '"', p + |HASH_MARK|);
      if e == -1 then None else Some(line[p + |HASH_MARK|..e])
  }

  function LastHash(lines: seq<string>): string {
    if lines == [] then ""
    else if HashOf(lines[|lines| - 1]).Some? then HashOf(lines[|lines| - 1]).value
    else LastHash(lines[..|lines| - 1])
  }

  lemma HashOfRendered(e: Entry)
    requires e.canonical != "" && QuoteFree(e.prev) && QuoteFree(e.hash)
    ensures HashOf(Render(e)) == Some(e.hash)
  {
    hide Render, RFind, FindChar, QuoteFree;
    var line, n := Render(e), |e.canonical| - 1;
    MarksOf(e, line);
    FieldsOf(e, line, n);
    FieldEnds(line, n + 23 + |e.prev|, e.hash);
  }

  lemma LastHashOfFile(mac: Mac, base: string, cs: seq<string>)
    requires PlainMac(mac) && PlainHead(base) && AllSafe(cs)
    requires cs != []
    ensures LastHash(GetLines(FileText(mac, base, cs))) == Head(mac, base, cs) != ""
  {
    hide ParseLine, Render, GetLines, HashOf;
    var init, c := cs[..|cs| - 1], cs[|cs| - 1];
    FileVerifies(mac, base, init);
    HeadPlain(mac, base, init);
    HeadPlain(mac, base, cs);
    AppendedLine(mac, FileText(mac, base, init), Head(mac, base, init), c);
    HashOfRendered(EntryOf(mac, Head(mac, base, init), c));
  }

  // ---- every run ----

  /** An append at a clock reading, or a restart of the process. */
  datatype Op = Append(canonical: string, now: int) | Restart

  function Text(mac: Mac, seg: Segment): string {
    FileText(mac, seg.base, seg.entries)
  }

  function End(mac: Mac, seg: Segment): string {
    Head(mac, seg.base, seg.entries)
  }

  predicate Rotates(mac: Mac, maxFileBytes: int, seg: Segment) {
    maxFileBytes > 0 && |Text(mac, seg)| >= maxFileBytes
  }

  function Step(mac: Mac, maxFileBytes: int, log: Log, op: Op): Log {
    match op
    case Append(c, now) =>
      var grown := log.current.(entries := log.current.entries + [c]);
      if Rotates(mac, maxFileBytes, grown) then
        Log(log.sealed + [grown], log.seals + [now], Segment(End(mac, grown), [], false))
      else log.(current := grown)
    case Restart =>
      // A restart that finds no file being written starts over from GENESIS.
      if log.current.entries == [] then log.(current := Segment(GENESIS, [], true)) else log
  }

  function Files(log: Log): seq<Segment> { log.sealed + [log.current] }

  predicate Follows(mac: Mac, before: Segment, after: Segment) {
    after.base == if after.restarted then GENESIS else End(mac, before)
  }

  /** Files follow on from one another, except where a restart found no active file. */
  ghost predicate Joined(mac: Mac, log: Log) {
    var files := Files(log);
    && (forall i :: 0 <= i < |files| ==> Proper(files[i]))
    && |log.seals| == |log.sealed|
    && (forall i :: 0 <= i < |log.sealed| ==> log.sealed[i].entries != [])
    && files[0].base == GENESIS
    && forall i :: 0 < i < |files| ==> Follows(mac, files[i - 1], files[i])
  }

  const NEW_LOG := Log([], [], Segment(GENESIS, [], true))

  lemma GenesisPlain()
    ensures PlainHead(GENESIS)
  {
  }

  lemma StepJoined(mac: Mac, maxFileBytes: int, log: Log, op: Op)
    requires PlainMac(mac) && Joined(mac, log)
    requires op.Append? ==> LineSafe(op.canonical)
    ensures Joined(mac, Step(mac, maxFileBytes, log, op))
  {
    GenesisPlain();
    var after := Step(mac, maxFileBytes, log, op);
    var n := |log.sealed|;
    assert Files(log)[n] == log.current;
    if op.Append? {
      var grown := log.current.(entries := log.current.entries + [op.canonical]);
      assert Proper(grown);
      HeadPlain(mac, grown.base, grown.entries);
      assert Files(after)[n] == grown;
    } else {
      assert Files(after)[n] == after.current;
    }
    forall i | 0 <= i < n ensures Files(after)[i] == Files(log)[i] {}
    assert Files(after)[0].base == GENESIS;
    forall i | 0 <= i < |Files(after)| ensures Proper(Files(after)[i]) {
      if i <= n { assert Proper(Files(log)[i]); }
    }
    forall i | 0 <= i < |after.sealed| ensures after.sealed[i].entries != [] {
      if i < n { assert log.sealed[i].entries != []; }
    }
    forall i | 0 < i < |Files(after)| ensures Follows(mac, Files(after)[i - 1], Files(after)[i]) {
      if i <= n {
        assert Files(after)[i - 1] == Files(log)[i - 1];
        assert Follows(mac, Files(log)[i - 1], Files(log)[i]);
      }
    }
  }

  ghost predicate SafeOps(ops: seq<Op>) {
    forall k :: 0 <= k < |ops| ==> ops[k].Append? ==> LineSafe(ops[k].canonical)
  }

  ghost function Run(mac: Mac, maxFileBytes: int, ops: seq<Op>): (log: Log)
    requires PlainMac(mac) && SafeOps(ops)
    ensures Joined(mac, log)
    decreases |ops|
  {
    if ops == [] then GenesisPlain(); NEW_LOG
    else
      var before := Run(mac, maxFileBytes, ops[..|ops| - 1]);
      StepJoined(mac, maxFileBytes, before, ops[|ops| - 1]);
      Step(mac, maxFileBytes, before, ops[|ops| - 1])
  }

  /** A file is sealed by the entry that takes it to the limit, not before and not after. */
  ghost predicate FillsUp(mac: Mac, maxFileBytes: int, seg: Segment) {
    && seg.entries != []
    && |Text(mac, seg)| >= maxFileBytes
    && |Text(mac, seg.(entries := seg.entries[..|seg.entries| - 1]))| < maxFileBytes
  }

  /** In every run the file being written is below the limit, and each sealed one just reached it. */
  lemma {:induction false} SealedAtLimit(mac: Mac, maxFileBytes: int, ops: seq<Op>)
    requires PlainMac(mac) && SafeOps(ops)
    ensures var log := Run(mac, maxFileBytes, ops);
      && (maxFileBytes <= 0 ==> log.sealed == [])
      && (maxFileBytes > 0 ==> |Text(mac, log.current)| < maxFileBytes)
      && forall i :: 0 <= i < |log.sealed| ==> FillsUp(mac, maxFileBytes, log.sealed[i])
    decreases |ops|
  {
    hide LineSafe, Joined, PlainMac;
    if ops != [] {
      var init, op := ops[..|ops| - 1], ops[|ops| - 1];
      SealedAtLimit(mac, maxFileBytes, init);
      var before := Run(mac, maxFileBytes, init);
      if op.Append? {
        assert (before.current.entries + [op.canonical])[..|before.current.entries|] == before.current.entries;
      }
    }
  }

  /** In every run each file verifies, with all its entries and only them. */
  lemma EveryFileVerifies(mac: Mac, maxFileBytes: int, ops: seq<Op>, i: nat)
    requires PlainMac(mac) && SafeOps(ops) && i < |Files(Run(mac, maxFileBytes, ops))|
    ensures var seg := Files(Run(mac, maxFileBytes, ops))[i];
      var lines := GetLines(Text(mac, seg));
      var c := CheckLines(mac, lines);
      && c.ok && c.lines == |seg.entries| && c.legacy == 0
      && |Entries(lines)| == |seg.entries|
      && forall k :: 0 <= k < |seg.entries| ==> Entries(lines)[k].canonical == seg.entries[k]
  {
    var seg := Files(Run(mac, maxFileBytes, ops))[i];
    assert Proper(seg);
    FileVerifies(mac, seg.base, seg.entries);
    EntryListAt(mac, seg.base, seg.entries);
  }

  lemma {:induction false} EntryListAt(mac: Mac, base: string, cs: seq<string>)
    ensures |EntryList(mac, base, cs)| == |cs|
    ensures forall k :: 0 <= k < |cs| ==> EntryList(mac, base, cs)[k].canonical == cs[k]
    ensures cs != [] ==> EntryList(mac, base, cs)[0].prev == base
  {
    if cs != [] {
      EntryListAt(mac, base, cs[..|cs| - 1]);
    }
  }

  /** The first prevHash of a file is the last hash of the file before it, unless a restart came between. */
  lemma FilesStayLinked(mac: Mac, maxFileBytes: int, ops: seq<Op>, i: nat)
    requires PlainMac(mac) && SafeOps(ops) && i + 1 < |Files(Run(mac, maxFileBytes, ops))|
    requires Files(Run(mac, maxFileBytes, ops))[i + 1].entries != []
    ensures var a, b := Files(Run(mac, maxFileBytes, ops))[i], Files(Run(mac, maxFileBytes, ops))[i + 1];
      && Entries(GetLines(Text(mac, b))) != []
      && Entries(GetLines(Text(mac, b)))[0].prev ==
        if b.restarted then GENESIS else CheckLines(mac, GetLines(Text(mac, a))).prev
  {
    var log := Run(mac, maxFileBytes, ops);
    var a, b := Files(log)[i], Files(log)[i + 1];
    assert Proper(a) && Proper(b) && a == log.sealed[i];
    assert Follows(mac, Files(log)[i + 1 - 1], b);
    FileVerifies(mac, a.base, a.entries);
    FileVerifies(mac, b.base, b.entries);
    EntryListAt(mac, b.base, b.entries);
  }

  // ---- the newline condition is exact ----

  /** Where a line splits at its last newline. */
  function AfterLastNewline(s: string): string
    decreases |s|
  {
    var nl := FindChar(s, '\n', 0);
    if nl == -1 then s else AfterLastNewline(s[nl + 1..])
  }

  lemma {:induction false} LastPiece(s: string, line: string)
    requires '\n' !in line
    ensures var lines := GetLines(s + (line + "\n"));
      lines != [] && lines[|lines| - 1] == AfterLastNewline(s) + line
    ensures '\n' in s ==> |AfterLastNewline(s)| < |s|
    decreases |s|
  {
    hide GetLines;
    var nl := FindChar(s, '\n', 0);
    if nl == -1 {
      OnePiece(s, line);
    } else {
      LastPiece(s[nl + 1..], line);
      FirstLineOf(s, line + "\n", nl);
      LastOfCons(s[..nl], GetLines(s[nl + 1..] + (line + "\n")));
      AfterLastShort(s[nl + 1..]);
    }
  }

  lemma OnePiece(s: string, line: string)
    requires '\n' !in s && '\n' !in line
    ensures GetLines(s + (line + "\n")) == [s + line]
  {
    hide GetLines;
    assert forall c :: c in s + line ==> c in s || c in line;
    GetLinesOne(s + line);
    Regroup(s, line, "\n");
  }

  lemma LastOfCons(first: string, rest: seq<string>)
    requires rest != []
    ensures var all := [first] + rest; all != [] && all[|all| - 1] == rest[|rest| - 1]
  {
  }

  lemma {:induction false} AfterLastShort(s: string)
    ensures |AfterLastNewline(s)| <= |s|
    decreases |s|
  {
    var nl := FindChar(s, '\n', 0);
    if nl != -1 { AfterLastShort(s[nl + 1..]); }
  }

  ghost predicate Injective(mac: Mac) {
    forall x, y :: mac(x) == mac(y) ==> x == y
  }

  /**
   A raw JSON body is stored as sent. The log still verifies after such an entry
   if and only if the entry holds no newline.
   */
  lemma VerifiesIffNoNewline(mac: Mac, base: string, cs: seq<string>, c: string)
    requires PlainMac(mac) && Injective(mac) && PlainHead(base) && AllSafe(cs) && IsObject(c)
    ensures CheckLines(mac, GetLines(FileText(mac, base, cs + [c]))).ok <==> '\n' !in c
  {
    hide ParseLine, Render, GetLines, CheckLines, EndsLine, LineSafe;
    var head := Head(mac, base, cs);
    assert (cs + [c])[..|cs|] == cs;
    FileVerifies(mac, base, cs);
    HeadPlain(mac, base, cs);
    if '\n' !in c {
      assert AllSafe(cs + [c]) by { NewSafe(c); }
      FileVerifies(mac, base, cs + [c]);
    } else {
      var text := FileText(mac, base, cs);
      BrokenTail(mac, text, head, c);
    }
  }

  lemma NewSafe(c: string)
    requires IsObject(c) && '\n' !in c
    ensures LineSafe(c)
  {
  }

  /** The last piece of a cut entry keeps the seal of the whole, which is not its own. */
  lemma BrokenTail(mac: Mac, text: string, head: string, c: string)
    requires PlainMac(mac) && Injective(mac) && EndsLine(text) && PlainHead(head) && IsObject(c) && '\n' in c
    ensures !CheckLines(mac, GetLines(text + (Render(EntryOf(mac, head, c)) + "\n"))).ok
  {
    hide ParseLine, GetLines, CheckLines, EndsLine;
    var e := EntryOf(mac, head, c);
    assert PlainHead(e.hash) && QuoteFree(mac(head + "|" + c));
    var body, t := c[..|c| - 1], Tail(head, e.hash);
    assert '\n' in body by { assert c == body + "}"; }
    TailNoNewline(head, e.hash);
    LastPiece(body, t);
    assert Render(e) + "\n" == body + (t + "\n");
    GetLinesAppend(text, Render(e) + "\n");
    var lines := GetLines(text + (Render(e) + "\n"));
    var cut := Entry(AfterLastNewline(body) + "}", head, e.hash);
    assert cut.canonical[..|cut.canonical| - 1] == AfterLastNewline(body);
    assert lines[|lines| - 1] == Render(cut);
    LastBroken(mac, lines, cut, c);
  }

  lemma TailNoNewline(prev: string, hash: string)
    requires PlainHead(prev) && PlainHead(hash)
    ensures '\n' !in Tail(prev, hash) && Tail(prev, hash) != ""
  {
    var e := Entry("}", prev, hash);
    RenderNoNewline(e);
    assert Render(e) == Tail(prev, hash);
  }

  lemma LastBroken(mac: Mac, lines: seq<string>, cut: Entry, c: string)
    requires Injective(mac) && QuoteFree(cut.prev) && QuoteFree(cut.hash) && IsObject(cut.canonical)
    requires lines != [] && lines[|lines| - 1] == Render(cut)
    requires cut.hash == Sealing(mac, cut.prev, c) && |cut.canonical| < |c|
    ensures !CheckLines(mac, lines).ok
  {
    hide ParseLine, Render, CheckLines, Injective, IsObject, QuoteFree, Sealing;
    ParseRendered(cut);
    NotBlank(cut);
    LongerSealsOtherwise(mac, cut.prev, cut.canonical, c);
    LastLine(mac, lines, lines[..|lines| - 1], Render(cut));
  }

  lemma LongerSealsOtherwise(mac: Mac, prev: string, short: string, long: string)
    requires Injective(mac) && |short| < |long|
    ensures Sealing(mac, prev, short) != Sealing(mac, prev, long)
  {
    assert |prev + "|" + short| != |prev + "|" + long|;
  }

  lemma NotBlank(e: Entry)
    ensures Render(e) != ""
  {
    TailAt(e.prev, e.hash, Tail(e.prev, e.hash));
  }

  // ---- the code's own state ----

  /** Archives sealed before the retention period are gone, the others untouched. */
  function Purged<T>(archives: map<Archive, T>, retentionDays: int, now: int): map<Archive, T> {
    if retentionDays <= 0 then archives
    else map t | t in archives && t.epoch >= now - retentionDays * 86400 :: archives[t]
  }

  /**
   Which sealed file each archive name holds after the given seal seconds: a later one overwrites, old
   ones are purged.
   */
  function Index(seals: seq<int>, retentionDays: int): map<Archive, nat>
    decreases |seals|
  {
    if seals == [] then map[]
    else
      var n := |seals| - 1;
      Purged(Index(seals[..n], retentionDays)[Archive(seals[n]) := n], retentionDays, seals[n])
  }

  lemma IndexNext(seals: seq<int>, now: int, retentionDays: int)
    ensures Index(seals + [now], retentionDays) ==
      Purged(Index(seals, retentionDays)[Archive(now) := |seals|], retentionDays, now)
  {
    hide Purged;
    assert (seals + [now])[..|seals|] == seals;
  }

  /** The archives are exactly the sealed files the index names, under those names. */
  ghost predicate OnDisk(mac: Mac, retentionDays: int, log: Log, archives: map<Archive, string>) {
    var index := Index(log.seals, retentionDays);
    && archives.Keys == index.Keys
    && forall t :: t in index ==> index[t] < |log.sealed| && archives[t] == Text(mac, log.sealed[index[t]])
  }

  /** The bytes on disk and the head in memory are those of `log`. */
  ghost predicate Stored(mac: Mac, retentionDays: int, log: Log, active: Option<string>, archives: map<Archive, string>,
                         chainHash: string) {
    && PlainMac(mac) && Joined(mac, log)
    && chainHash == End(mac, log.current)
    && active == (if log.current.entries == [] then None else Some(Text(mac, log.current)))
    && OnDisk(mac, retentionDays, log, archives)
  }

  lemma SealingOnDisk(mac: Mac, retentionDays: int, before: Log, after: Log, archives: map<Archive, string>,
                      grown: Segment, now: int)
    requires OnDisk(mac, retentionDays, before, archives) && |before.seals| == |before.sealed|
    requires after.sealed == before.sealed + [grown] && after.seals == before.seals + [now]
    ensures OnDisk(mac, retentionDays, after, Purged(archives[Archive(now) := Text(mac, grown)], retentionDays, now))
  {
    hide Text, Index;
    IndexNext(before.seals, now, retentionDays);
    var index := Index(before.seals, retentionDays);
    var added := index[Archive(now) := |before.seals|];
    var texts := archives[Archive(now) := Text(mac, grown)];
    assert forall t :: t in added ==> added[t] < |after.sealed| && texts[t] == Text(mac, after.sealed[added[t]]);
  }

  lemma GrownText(mac: Mac, base: string, cs: seq<string>, c: string)
    ensures FileText(mac, base, cs + [c]) ==
      FileText(mac, base, cs) + (Render(EntryOf(mac, Head(mac, base, cs), c)) + "\n")
    ensures Head(mac, base, cs + [c]) == Sealing(mac, Head(mac, base, cs), c)
    ensures FileText(mac, base, []) == ""
  {
    assert (cs + [c])[..|cs|] == cs;
  }

  /** The active file, created if need be, with one more line. */
  function AppendedText(mac: Mac, active: Option<string>, head: string, c: string): string {
    (if active.Some? then active.value else "") + (Render(EntryOf(mac, head, c)) + "\n")
  }

  predicate Full(maxFileBytes: int, text: string) { maxFileBytes > 0 && |text| >= maxFileBytes }

  /** Where the chain goes on from the file found at startup. */
  function ResumedHead(active: Option<string>): string {
    if active.None? || LastHash(GetLines(active.value)) == "" then GENESIS else LastHash(GetLines(active.value))
  }

  lemma NewFileEnd(mac: Mac, head: string)
    ensures End(mac, Segment(head, [], false)) == head
  {
  }

  lemma AppendedIsText(mac: Mac, retentionDays: int, log: Log, active: Option<string>, archives: map<Archive, string>,
                       c: string)
    requires Stored(mac, retentionDays, log, active, archives, End(mac, log.current))
    ensures var grown := log.current.(entries := log.current.entries + [c]);
      && AppendedText(mac, active, End(mac, log.current), c) == Text(mac, grown)
      && Sealing(mac, End(mac, log.current), c) == End(mac, grown)
  {
    hide Render, Joined, PlainMac, OnDisk, Sealing;
    GrownText(mac, log.current.base, log.current.entries, c);
  }

  lemma AppendIsStep(mac: Mac, maxFileBytes: int, retentionDays: int, log: Log, active: Option<string>,
                     archives: map<Archive, string>, c: string, now: int)
    requires Stored(mac, retentionDays, log, active, archives, End(mac, log.current)) && LineSafe(c)
    ensures var head := End(mac, log.current);
      var text := AppendedText(mac, active, head, c);
      var full := Full(maxFileBytes, text);
      Stored(mac, retentionDays, Step(mac, maxFileBytes, log, Op.Append(c, now)), if full then None else Some(text),
             if full then Purged(archives[Archive(now) := text], retentionDays, now) else archives,
             Sealing(mac, head, c))
  {
    hide ParseLine, Render, LineSafe, PlainMac, AppendedText, Text, End, Sealing, OnDisk, Purged, Proper, Follows;
    StepJoined(mac, maxFileBytes, log, Op.Append(c, now));
    var grown := log.current.(entries := log.current.entries + [c]);
    AppendedIsText(mac, retentionDays, log, active, archives, c);
    NewFileEnd(mac, End(mac, grown));
    var after := Step(mac, maxFileBytes, log, Op.Append(c, now));
    if Rotates(mac, maxFileBytes, grown) {
      SealingOnDisk(mac, retentionDays, log, after, archives, grown, now);
    } else {
      SameOnDisk(mac, retentionDays, log, after, archives);
    }
  }

  lemma SameOnDisk(mac: Mac, retentionDays: int, before: Log, after: Log, archives: map<Archive, string>)
    requires OnDisk(mac, retentionDays, before, archives)
    requires before.sealed == after.sealed && before.seals == after.seals
    ensures OnDisk(mac, retentionDays, after, archives)
  {
  }

  /** A restart resumes the chain where the abstract log stands. */
  lemma RestartIsStep(mac: Mac, maxFileBytes: int, retentionDays: int, log: Log, active: Option<string>,
                      archives: map<Archive, string>, chainHash: string)
    requires Stored(mac, retentionDays, log, active, archives, chainHash)
    ensures Stored(mac, retentionDays, Step(mac, maxFileBytes, log, Restart), active, archives, ResumedHead(active))
  {
    hide ParseLine, Render, HashOf, PlainMac, LineSafe, OnDisk, GetLines;
    StepJoined(mac, maxFileBytes, log, Restart);
    SameOnDisk(mac, retentionDays, log, Step(mac, maxFileBytes, log, Restart), archives);
    if log.current.entries != [] {
      assert Files(log)[|log.sealed|] == log.current && Proper(log.current);
      LastHashOfFile(mac, log.current.base, log.current.entries);
    }
  }

  class AuditLog {
    const mac: Mac
    const maxFileBytes: int
    const retentionDays: int
    var active: Option<string>        // bytes of the file being written, if it exists
    var archives: map<Archive, string>    // sealed files by their epoch suffix
    var chainHash: string
    ghost var log: Log

    ghost predicate Valid()
      reads this
    {
      Stored(mac, retentionDays, log, active, archives, chainHash)
    }

    constructor (mac: Mac, maxFileBytes: int, retentionDays: int)
      requires PlainMac(mac)
      ensures Valid() && log == NEW_LOG && archives == map[]
      ensures this.mac == mac && this.maxFileBytes == maxFileBytes && this.retentionDays == retentionDays
    {
      this.mac, this.maxFileBytes, this.retentionDays := mac, maxFileBytes, retentionDays;
      active, archives, chainHash := None, map[], GENESIS;
      log := NEW_LOG;
      GenesisPlain();
    }

    /** append_audit: one line, the new head, and rotation when the file is full; any payload is written as sent. */
    method Append(canonical: string, now: int)
      modifies this
      ensures chainHash == Sealing(mac, old(chainHash), canonical)
      ensures var text := AppendedText(mac, old(active), old(chainHash), canonical);
        if Full(maxFileBytes, text)
        then active == None && archives == Purged(old(archives)[Archive(now) := text], retentionDays, now)
        else active == Some(text) && archives == old(archives)
      ensures old(Valid()) && LineSafe(canonical) ==>
        Valid() && log == Step(mac, maxFileBytes, old(log), Op.Append(canonical, now))
    {
      hide Render, Joined, Text, FileText, Head, Step, Purged, OnDisk, PlainMac, LineSafe;
      var text := AppendedText(mac, active, chainHash, canonical);
      active := Some(text);
      chainHash := Sealing(mac, chainHash, canonical);
      MaybeRotate(now);
      if old(Valid()) && LineSafe(canonical) {
        AppendIsStep(mac, maxFileBytes, retentionDays, old(log), old(active), old(archives), canonical, now);
        log := Step(mac, maxFileBytes, log, Op.Append(canonical, now));
      }
    }

    /** maybe_rotate_audit_locked: seal the file under the current epoch, then purge. */
    method MaybeRotate(now: int)
      requires active.Some?
      modifies this`active, this`archives
      ensures if Full(maxFileBytes, old(active).value)
        then active == None && archives == Purged(old(archives)[Archive(now) := old(active).value], retentionDays, now)
        else active == old(active) && archives == old(archives)
    {
      if maxFileBytes <= 0 || |active.value| < maxFileBytes { return; }
      archives := archives[Archive(now) := active.value];
      active := None;
      if retentionDays <= 0 { return; }
      var cutoff := now - retentionDays * 86400;
      archives := PurgeBefore(archives, cutoff);
    }

    /** init_audit_chain: the head is the last hash in the active file, or GENESIS. */
    method InitChain()
      modifies this`chainHash, this`log
      ensures chainHash == ResumedHead(active)
      ensures old(Valid()) ==> Valid() && log == Step(mac, maxFileBytes, old(log), Restart)
    {
      hide ParseLine, Render, HashOf, PlainMac, LineSafe, Joined, OnDisk, Step, GetLines, LastHash;
      if old(Valid()) {
        RestartIsStep(mac, maxFileBytes, retentionDays, log, active, archives, chainHash);
        log := Step(mac, maxFileBytes, log, Restart);
      }
      chainHash := GENESIS;
      if active.None? { return; }
      var last := LastHashIn(active.value);
      if last != "" {
        chainHash := last;
      }
    }

    /** verify_audit_chain on the file being written. */
    method Verify() returns (res: Check)
      ensures res == CheckLines(mac, if active.Some? then GetLines(active.value) else [])
      ensures Valid() ==> res.ok && res.lines == |log.current.entries| && res.legacy == 0
    {
      hide CheckLine, GetLines, ParseLine;
      res := VerifyAuditChain(mac, active);
      if Valid() {
        assert Files(log)[|log.sealed|] == log.current && Proper(log.current);
        FileVerifies(mac, log.current.base, log.current.entries);
      }
    }
  }

  /** The directory walk that removes archives sealed before the cutoff. */
  method PurgeBefore(archives: map<Archive, string>, cutoff: int) returns (kept: map<Archive, string>)
    ensures kept == map t | t in archives && t.epoch >= cutoff :: archives[t]
  {
    kept := archives;
    var todo := archives.Keys;
    while todo != {}
      invariant todo <= archives.Keys
      invariant kept == map t | t in archives && (t in todo || t.epoch >= cutoff) :: archives[t]
      decreases |todo|
    {
      var t :| t in todo;
      todo := todo - {t};
      if t.epoch < cutoff {
        kept := kept - {t};
      }
    }
  }

  method LastHashIn(text: string) returns (last: string)
    ensures last == LastHash(GetLines(text))
  {
    hide HashOf, FindChar;
    last := "";
    var rest := text;
    ghost var done: seq<string> := [];
    while rest != ""
      invariant done + GetLines(rest) == GetLines(text)
      invariant last == LastHash(done)
      decreases |rest|
    {
      var nl := FindChar(rest, '\n', 0);
      var line := if nl == -1 then rest else rest[..nl];
      rest := if nl == -1 then "" else rest[nl + 1..];
      var h := HashOf(line);
      if h.Some? { last := h.value; }
      assert (done + [line])[..|done|] == done;
      Regroup(done, [line], GetLines(rest));
      done := done + [line];
    }
    assert done == GetLines(text);
  }
}
