/**
 The audit files as they lie on disk after any run of appends, rotations, purges
 and restarts: which are there, in what order, and whether they link.
 */
module AuditDisk {
  import opened Options
  import opened TextSearch
  import opened AuditLine
  import opened AuditChain
  import opened AuditLog

  // ---- runs of the bytes ----

  /** The active file, the archives by name, and the chain head in memory. */
  datatype Disk = Disk(active: Option<string>, archives: map<Archive, string>, chainHash: string)

  datatype Config = Config(mac: Mac, maxFileBytes: int, retentionDays: int)

  function DiskStep(cfg: Config, disk: Disk, op: Op): Disk {
    match op
    case Append(c, now) =>
      var text := AppendedText(cfg.mac, disk.active, disk.chainHash, c);
      var head := Sealing(cfg.mac, disk.chainHash, c);
      if Full(cfg.maxFileBytes, text)
      then Disk(None, Purged(disk.archives[Archive(now) := text], cfg.retentionDays, now), head)
      else Disk(Some(text), disk.archives, head)
    case Restart => disk.(chainHash := ResumedHead(disk.active))
  }

  function DiskRun(cfg: Config, ops: seq<Op>): Disk
    decreases |ops|
  {
    if ops == [] then Disk(None, map[], GENESIS)
    else DiskStep(cfg, DiskRun(cfg, ops[..|ops| - 1]), ops[|ops| - 1])
  }

  ghost function LogRun(cfg: Config, ops: seq<Op>): Log
    requires PlainMac(cfg.mac) && SafeOps(ops)
  {
    Run(cfg.mac, cfg.maxFileBytes, ops)
  }

  /** Whatever is run, the bytes on disk are those of the abstract log. */
  lemma {:induction false} RunIsStored(cfg: Config, ops: seq<Op>)
    requires PlainMac(cfg.mac) && SafeOps(ops)
    ensures var disk := DiskRun(cfg, ops);
      Stored(cfg.mac, cfg.retentionDays, LogRun(cfg, ops), disk.active, disk.archives, disk.chainHash)
    decreases |ops|
  {
    hide LineSafe, Joined, OnDisk, Text, End, AppendedText, Purged, Full, ResumedHead, Step;
    if ops == [] {
      FirstStored(cfg);
    } else {
      var init, op := ops[..|ops| - 1], ops[|ops| - 1];
      RunIsStored(cfg, init);
      var disk, log := DiskRun(cfg, init), LogRun(cfg, init);
      match op
      case Append(c, now) =>
        AppendIsStep(cfg.mac, cfg.maxFileBytes, cfg.retentionDays, log, disk.active, disk.archives, c, now);
      case Restart =>
        RestartIsStep(cfg.mac, cfg.maxFileBytes, cfg.retentionDays, log, disk.active, disk.archives, disk.chainHash);
    }
  }

  lemma FirstStored(cfg: Config)
    requires PlainMac(cfg.mac)
    ensures Stored(cfg.mac, cfg.retentionDays, NEW_LOG, None, map[], GENESIS)
  {
    GenesisPlain();
  }

  // ---- which files are there ----

  predicate Increasing(seals: seq<int>) {
    forall i, j :: 0 <= i < j < |seals| ==> seals[i] < seals[j]
  }

  /** A later rotation came more than the retention period after file `i` was sealed. */
  predicate Expired(seals: seq<int>, retentionDays: int, i: nat)
    requires i < |seals|
  {
    retentionDays > 0 && exists j :: i < j < |seals| && seals[i] < seals[j] - retentionDays * 86400
  }

  /** The archives in name order are the files sealed from number `k` on, and just those before have expired. */
  ghost predicate KeptFrom(seals: seq<int>, retentionDays: int, k: nat) {
    var index := Index(seals, retentionDays);
    && k <= |seals|
    && (forall t :: t in index ==> k <= index[t] < |seals| && t == Archive(seals[index[t]]))
    && (forall i :: k <= i < |seals| ==> Archive(seals[i]) in index && index[Archive(seals[i])] == i)
    && (forall i, j :: k <= i < j < |seals| ==> seals[i] < seals[j])
    && (forall i :: 0 <= i < |seals| ==> (i < k <==> Expired(seals, retentionDays, i)))
  }

  /** The first of the files from `k` on that the purge at `now` leaves. */
  function Survivor(seals: seq<int>, k: nat, cutoff: int): (m: nat)
    requires k <= |seals|
    ensures k <= m <= |seals|
    ensures forall i :: k <= i < m ==> seals[i] < cutoff
    ensures m < |seals| ==> seals[m] >= cutoff
    decreases |seals| - k
  {
    if k < |seals| && seals[k] < cutoff then Survivor(seals, k + 1, cutoff) else k
  }

  lemma KeptNext(seals: seq<int>, now: int, retentionDays: int, k: nat) returns (m: nat)
    requires KeptFrom(seals, retentionDays, k) && Increasing(seals + [now])
    ensures KeptFrom(seals + [now], retentionDays, m)
  {
    hide Index, Expired;
    var grown := seals + [now];
    m := if retentionDays <= 0 then k else Survivor(seals, k, now - retentionDays * 86400);
    BelowNext(seals, now);
    forall i | 0 <= i < |grown| ensures i < m <==> Expired(grown, retentionDays, i) {
      if i < |seals| {
        ExpiredNext(seals, now, retentionDays, i);
      } else {
        NewestStays(seals, now, retentionDays);
      }
    }
    IndexedNext(seals, now, retentionDays, k, m);
    assert m <= |grown|;
    assert forall i, j :: m <= i < j < |grown| ==> grown[i] < grown[j];
  }

  lemma ExpiredNext(seals: seq<int>, now: int, retentionDays: int, i: nat)
    requires i < |seals|
    ensures Expired(seals + [now], retentionDays, i) <==>
      Expired(seals, retentionDays, i) || (retentionDays > 0 && seals[i] < now - retentionDays * 86400)
  {
    var grown := seals + [now];
    if Expired(seals, retentionDays, i) {
      var j :| i < j < |seals| && seals[i] < seals[j] - retentionDays * 86400;
      assert grown[i] < grown[j] - retentionDays * 86400;
    }
    if retentionDays > 0 && seals[i] < now - retentionDays * 86400 {
      assert grown[i] < grown[|seals|] - retentionDays * 86400;
    }
  }

  lemma NewestStays(seals: seq<int>, now: int, retentionDays: int)
    ensures !Expired(seals + [now], retentionDays, |seals|)
  {
  }

  lemma BelowNext(seals: seq<int>, now: int)
    requires Increasing(seals + [now])
    ensures var grown := seals + [now];
      forall i :: 0 <= i < |seals| ==> grown[i] == seals[i] && grown[i] < now
  {
    var grown := seals + [now];
    forall i | 0 <= i < |seals| ensures grown[i] < now {
      assert grown[i] < grown[|seals|];
    }
  }

  /** One more rotation adds its own name and the purge takes the oldest. */
  lemma IndexedNext(seals: seq<int>, now: int, retentionDays: int, k: nat, m: nat)
    requires KeptFrom(seals, retentionDays, k) && Increasing(seals + [now]) && k <= m <= |seals|
    requires retentionDays <= 0 ==> m == k
    requires retentionDays > 0 ==> var cutoff := now - retentionDays * 86400;
      (forall i :: k <= i < m ==> seals[i] < cutoff) && (m < |seals| ==> seals[m] >= cutoff)
    ensures var index, grown := Index(seals + [now], retentionDays), seals + [now];
      && (forall t :: t in index ==> m <= index[t] < |grown| && t == Archive(grown[index[t]]))
      && (forall i :: m <= i < |grown| ==> Archive(grown[i]) in index && index[Archive(grown[i])] == i)
  {
    hide Index, Expired;
    var grown := seals + [now];
    IndexNext(seals, now, retentionDays);
    var index := Index(grown, retentionDays);
    BelowNext(seals, now);
    forall i | m <= i < |grown| ensures Archive(grown[i]) in index && index[Archive(grown[i])] == i {
      if i < |seals| && retentionDays > 0 {
        assert m < i ==> grown[m] < grown[i];
      }
    }
  }

  lemma {:induction false} KeptWhenIncreasing(seals: seq<int>, retentionDays: int) returns (k: nat)
    requires Increasing(seals)
    ensures KeptFrom(seals, retentionDays, k)
    decreases |seals|
  {
    if seals == [] {
      k := 0;
    } else {
      var init, now := seals[..|seals| - 1], seals[|seals| - 1];
      assert seals == init + [now];
      k := KeptWhenIncreasing(init, retentionDays);
      k := KeptNext(init, now, retentionDays, k);
    }
  }

  ghost predicate InOrder(seals: seq<int>, retentionDays: int) {
    exists k: nat :: KeptFrom(seals, retentionDays, k)
  }

  /** At every rotation of a run the archives are in order, with only expired files missing. */
  ghost predicate AlwaysInOrder(seals: seq<int>, retentionDays: int) {
    forall n :: 0 <= n <= |seals| ==> InOrder(seals[..n], retentionDays)
  }

  /**
   At every point of a run the archives in name order are the last files sealed,
   all but the expired ones, if and only if each rotation reads a later second
   than the one before.
   */
  lemma InOrderExactly(seals: seq<int>, retentionDays: int)
    ensures AlwaysInOrder(seals, retentionDays) <==> Increasing(seals)
  {
    hide KeptFrom;
    if Increasing(seals) {
      forall n | 0 <= n <= |seals| ensures InOrder(seals[..n], retentionDays) {
        var k := KeptWhenIncreasing(seals[..n], retentionDays);
      }
    }
    if AlwaysInOrder(seals, retentionDays) {
      forall i | 0 <= i < |seals| - 1 ensures seals[i] < seals[i + 1] {
        var past := seals[..i + 2];
        assert InOrder(past, retentionDays);
        var k: nat :| KeptFrom(past, retentionDays, k);
        StepForward(past, retentionDays, k);
      }
      StepsIncrease(seals);
    }
  }

  lemma StepForward(past: seq<int>, retentionDays: int, k: nat)
    requires |past| >= 2 && KeptFrom(past, retentionDays, k)
    ensures past[|past| - 2] < past[|past| - 1]
  {
    hide Index;
    var i := |past| - 2;
    if k > i {
      assert Expired(past, retentionDays, i);
    }
  }

  lemma {:induction false} StepsIncrease(seals: seq<int>)
    requires forall i :: 0 <= i < |seals| - 1 ==> seals[i] < seals[i + 1]
    ensures Increasing(seals)
    decreases |seals|
  {
    if |seals| > 1 {
      var n := |seals| - 1;
      StepsIncrease(seals[..n]);
      assert forall i :: 0 <= i < n ==> seals[..n][i] == seals[i];
      assert seals[n - 1] < seals[n - 1 + 1];
      assert forall i, j :: 0 <= i < j < n ==> seals[..n][i] < seals[..n][j];
    }
  }

  lemma SealsStep(cfg: Config, ops: seq<Op>)
    requires PlainMac(cfg.mac) && SafeOps(ops) && ops != []
    ensures SafeOps(ops[..|ops| - 1])
    ensures var before, after := LogRun(cfg, ops[..|ops| - 1]).seals, LogRun(cfg, ops).seals;
      before <= after && |after| <= |before| + 1
  {
    hide Text, LineSafe;
  }

  /** Each point of a run has sealed a first part of what the whole run seals. */
  lemma {:induction false} SealsSoFar(cfg: Config, ops: seq<Op>, n: nat)
    requires PlainMac(cfg.mac) && SafeOps(ops) && n <= |ops|
    ensures SafeOps(ops[..n]) && LogRun(cfg, ops[..n]).seals <= LogRun(cfg, ops).seals
    decreases |ops|
  {
    hide Run, LineSafe;
    if n < |ops| {
      SealsStep(cfg, ops);
      SealsSoFar(cfg, ops[..|ops| - 1], n);
      assert ops[..|ops| - 1][..n] == ops[..n];
    } else {
      assert ops[..n] == ops;
    }
  }

  /** Every first part of the seals is all that some point of the run has sealed. */
  lemma {:induction false} SealsReached(cfg: Config, ops: seq<Op>, m: nat) returns (n: nat)
    requires PlainMac(cfg.mac) && SafeOps(ops) && m <= |LogRun(cfg, ops).seals|
    ensures n <= |ops| && SafeOps(ops[..n]) && LogRun(cfg, ops[..n]).seals == LogRun(cfg, ops).seals[..m]
    decreases |ops|
  {
    hide Run, LineSafe;
    n := |ops|;
    assert ops[..n] == ops;
    if m < |LogRun(cfg, ops).seals| {
      NothingSealed(cfg);
      assert ops != [];
      SealsStep(cfg, ops);
      n := SealsReached(cfg, ops[..|ops| - 1], m);
      assert ops[..|ops| - 1][..n] == ops[..n];
    }
  }

  lemma NothingSealed(cfg: Config)
    requires PlainMac(cfg.mac)
    ensures LogRun(cfg, []).seals == []
  {
  }

  /**
   The condition over whole runs: at every point of the run the archives are in order, with only
   expired ones missing.
   */
  lemma RunInOrderExactly(cfg: Config, ops: seq<Op>)
    requires PlainMac(cfg.mac) && SafeOps(ops)
    ensures (forall n :: 0 <= n <= |ops| ==>
      SafeOps(ops[..n]) && InOrder(LogRun(cfg, ops[..n]).seals, cfg.retentionDays))
       <==> Increasing(LogRun(cfg, ops).seals)
  {
    hide Run, LineSafe, KeptFrom, InOrder, SafeOps, Increasing;
    var seals := LogRun(cfg, ops).seals;
    InOrderExactly(seals, cfg.retentionDays);
    if AlwaysInOrder(seals, cfg.retentionDays) {
      forall n | 0 <= n <= |ops| ensures SafeOps(ops[..n]) && InOrder(LogRun(cfg, ops[..n]).seals, cfg.retentionDays) {
        SealsSoFar(cfg, ops, n);
        var m := |LogRun(cfg, ops[..n]).seals|;
        assert seals[..m] == LogRun(cfg, ops[..n]).seals;
        assert InOrder(seals[..m], cfg.retentionDays);
      }
    }
    if forall n :: 0 <= n <= |ops| ==> SafeOps(ops[..n]) && InOrder(LogRun(cfg, ops[..n]).seals, cfg.retentionDays) {
      forall m | 0 <= m <= |seals| ensures InOrder(seals[..m], cfg.retentionDays) {
        var n := SealsReached(cfg, ops, m);
        assert InOrder(LogRun(cfg, ops[..n]).seals, cfg.retentionDays);
      }
    }
  }

  // ---- what a reader of the directory finds ----

  /** Names in ascending order, as the files are listed. */
  ghost predicate NameOrder(names: seq<Archive>, archives: map<Archive, string>) {
    && (forall i, j :: 0 <= i < j < |names| ==> names[i].epoch < names[j].epoch)
    && (forall t :: t in names <==> t in archives)
  }

  /** The files in name order, then the one being written. */
  function Listed(names: seq<Archive>, disk: Disk): seq<string>
    requires forall t :: t in names ==> t in disk.archives
  {
    seq(|names|, i requires 0 <= i < |names| => disk.archives[names[i]])
    + if disk.active.Some? then [disk.active.value] else []
  }

  /** The texts of the files of the log from number `k` on, an empty one being written left out. */
  function Texts(mac: Mac, log: Log, k: nat): seq<string>
    requires k <= |log.sealed|
  {
    seq(|log.sealed| - k, i requires 0 <= i < |log.sealed| - k => Text(mac, log.sealed[k + i]))
    + if log.current.entries == [] then [] else [Text(mac, log.current)]
  }

  function NamesFrom(seals: seq<int>, k: nat): seq<Archive>
    requires k <= |seals|
  {
    seq(|seals| - k, i requires 0 <= i < |seals| - k => Archive(seals[k + i]))
  }

  lemma NameFrom(seals: seq<int>, k: nat, i: nat)
    requires k <= i < |seals|
    ensures Archive(seals[i]) in NamesFrom(seals, k)
  {
    assert NamesFrom(seals, k)[i - k] == Archive(seals[i]);
  }

  lemma NamesInOrder(retentionDays: int, log: Log, archives: map<Archive, string>, k: nat)
    requires KeptFrom(log.seals, retentionDays, k) && archives.Keys == Index(log.seals, retentionDays).Keys
    ensures NameOrder(NamesFrom(log.seals, k), archives)
  {
    hide Index, Expired;
    var seals := log.seals;
    var names, index := NamesFrom(seals, k), Index(seals, retentionDays);
    forall t | t in names ensures t in archives {
      var i :| 0 <= i < |names| && names[i] == t;
      assert Archive(seals[k + i]) in index.Keys;
    }
    forall t | t in archives ensures t in names {
      assert t in index.Keys;
      NameFrom(seals, k, index[t]);
    }
  }

  /** The archive named by the second a file was sealed at holds that file. */
  lemma ArchiveHolds(cfg: Config, log: Log, archives: map<Archive, string>, k: nat, i: nat)
    requires KeptFrom(log.seals, cfg.retentionDays, k) && OnDisk(cfg.mac, cfg.retentionDays, log, archives)
    requires |log.seals| == |log.sealed| && k <= i < |log.seals|
    ensures Archive(log.seals[i]) in archives && archives[Archive(log.seals[i])] == Text(cfg.mac, log.sealed[i])
  {
    hide Index, Text, Expired;
    assert Archive(log.seals[i]) in Index(log.seals, cfg.retentionDays);
  }

  lemma FilesListed(cfg: Config, log: Log, disk: Disk, k: nat)
    requires KeptFrom(log.seals, cfg.retentionDays, k) && |log.seals| == |log.sealed|
    requires OnDisk(cfg.mac, cfg.retentionDays, log, disk.archives)
    requires disk.active == (if log.current.entries == [] then None else Some(Text(cfg.mac, log.current)))
    ensures NameOrder(NamesFrom(log.seals, k), disk.archives)
    ensures Listed(NamesFrom(log.seals, k), disk) == Texts(cfg.mac, log, k)
  {
    hide Index, Text, KeptFrom;
    KeptBound(log.seals, cfg.retentionDays, k);
    NamesInOrder(cfg.retentionDays, log, disk.archives, k);
    var names := NamesFrom(log.seals, k);
    forall i | 0 <= i < |names|
      ensures names[i] in disk.archives && disk.archives[names[i]] == Text(cfg.mac, log.sealed[k + i])
    {
      ArchiveHolds(cfg, log, disk.archives, k, k + i);
    }
  }

  lemma KeptBound(seals: seq<int>, retentionDays: int, k: nat)
    requires KeptFrom(seals, retentionDays, k)
    ensures k <= |seals|
  {
  }

  /** The first entry of `b` goes on from the last hash of `a`, or from GENESIS after a restart without a file. */
  predicate Links(mac: Mac, a: string, b: string, restarted: bool) {
    && Entries(GetLines(b)) != []
    && Entries(GetLines(b))[0].prev == if restarted then GENESIS else CheckLines(mac, GetLines(a)).prev
  }

  /**
   After any run whose rotations read increasing seconds, the files found on disk,
   in name order and then the active one, are the last ones written with only
   expired ones missing; each verifies, and each links to the one before it.
   */
  lemma DiskFilesLinked(cfg: Config, ops: seq<Op>) returns (k: nat)
    requires PlainMac(cfg.mac) && SafeOps(ops) && Increasing(LogRun(cfg, ops).seals)
    ensures var log, disk := LogRun(cfg, ops), DiskRun(cfg, ops);
      && k <= |log.sealed| == |log.seals|
      && NameOrder(NamesFrom(log.seals, k), disk.archives)
      && Listed(NamesFrom(log.seals, k), disk) == Texts(cfg.mac, log, k)
      && (forall i :: 0 <= i < |log.seals| ==> (i < k <==> Expired(log.seals, cfg.retentionDays, i)))
      && (forall i :: 0 <= i < |Texts(cfg.mac, log, k)| ==> CheckLines(cfg.mac, GetLines(Texts(cfg.mac, log, k)[i])).ok)
      && forall i :: 0 <= i < |Texts(cfg.mac, log, k)| - 1 ==>
        Links(cfg.mac, Texts(cfg.mac, log, k)[i], Texts(cfg.mac, log, k)[i + 1], Files(log)[k + i + 1].restarted)
  {
    hide Index, Text, Expired, OnDisk, Joined, Links, Run, SafeOps, CheckLines, GetLines, KeptFrom, NameOrder, Listed,
      Entries;
    var log, disk := LogRun(cfg, ops), DiskRun(cfg, ops);
    RunIsStored(cfg, ops);
    SameCounts(cfg.mac, log);
    k := KeptWhenIncreasing(log.seals, cfg.retentionDays);
    ExpiredBefore(log.seals, cfg.retentionDays, k);
    FilesListed(cfg, log, disk, k);
    var texts := Texts(cfg.mac, log, k);
    forall i | 0 <= i < |texts| ensures CheckLines(cfg.mac, GetLines(texts[i])).ok {
      TextOf(cfg.mac, log, k, i);
      EveryFileVerifies(cfg.mac, cfg.maxFileBytes, ops, k + i);
    }
    forall i | 0 <= i < |texts| - 1 ensures Links(cfg.mac, texts[i], texts[i + 1], Files(log)[k + i + 1].restarted) {
      LinkedAt(cfg, ops, k, i);
    }
  }

  lemma SameCounts(mac: Mac, log: Log)
    requires Joined(mac, log)
    ensures |log.sealed| == |log.seals| && |Files(log)| == |log.sealed| + 1
  {
  }

  lemma ExpiredBefore(seals: seq<int>, retentionDays: int, k: nat)
    requires KeptFrom(seals, retentionDays, k)
    ensures k <= |seals| && forall i :: 0 <= i < |seals| ==> (i < k <==> Expired(seals, retentionDays, i))
  {
  }

  /** The listed texts are those of the log's files. */
  lemma TextOf(mac: Mac, log: Log, k: nat, i: nat)
    requires k <= |log.sealed| && i < |Texts(mac, log, k)|
    ensures k + i < |Files(log)| && Texts(mac, log, k)[i] == Text(mac, Files(log)[k + i])
    ensures k + i == |log.sealed| ==> log.current.entries != []
  {
    hide Text;
  }

  lemma LinkedAt(cfg: Config, ops: seq<Op>, k: nat, i: nat)
    requires PlainMac(cfg.mac) && SafeOps(ops)
    requires k <= |LogRun(cfg, ops).sealed| && i + 1 < |Texts(cfg.mac, LogRun(cfg, ops), k)|
    ensures var log := LogRun(cfg, ops); var texts := Texts(cfg.mac, log, k);
      k + i + 1 < |Files(log)| && Links(cfg.mac, texts[i], texts[i + 1], Files(log)[k + i + 1].restarted)
  {
    hide Text, CheckLines, GetLines, Entries, SafeOps, Texts, Run, Proper, Follows;
    var log := LogRun(cfg, ops);
    TextOf(cfg.mac, log, k, i);
    TextOf(cfg.mac, log, k, i + 1);
    SealedNotEmpty(cfg.mac, log, k + i + 1);
    FilesStayLinked(cfg.mac, cfg.maxFileBytes, ops, k + i);
  }

  lemma SealedNotEmpty(mac: Mac, log: Log, i: nat)
    requires Joined(mac, log) && i < |Files(log)| && (i == |log.sealed| ==> log.current.entries != [])
    ensures Files(log)[i].entries != []
  {
  }

  lemma LastIsGreatest(names: seq<Archive>, archives: map<Archive, string>, t: Archive)
    requires NameOrder(names, archives) && t in archives
    ensures names != [] && names[|names| - 1] in archives && t.epoch <= names[|names| - 1].epoch
  {
    assert t in names;
    var i :| 0 <= i < |names| && names[i] == t;
    assert names[|names| - 1] in names;
  }

  lemma NoNames(names: seq<Archive>, archives: map<Archive, string>)
    requires NameOrder(names, archives)
    ensures names == [] <==> archives == map[]
  {
    if names != [] {
      assert names[0] in archives;
    } else {
      assert forall t :: t in archives ==> t in names;
    }
  }

  /** There is one listing in name order. */
  lemma {:induction false} NameOrderUnique(a: seq<Archive>, b: seq<Archive>, archives: map<Archive, string>)
    requires NameOrder(a, archives) && NameOrder(b, archives)
    ensures a == b
    decreases |archives|
  {
    hide NameOrder;
    NoNames(a, archives);
    NoNames(b, archives);
    if a != [] {
      var last := a[|a| - 1];
      LastIsLast(a, archives);
      LastIsLast(b, archives);
      LastIsGreatest(a, archives, b[|b| - 1]);
      LastIsGreatest(b, archives, last);
      assert b[|b| - 1] == last;
      LastDropped(a, archives);
      LastDropped(b, archives);
      NameOrderUnique(a[..|a| - 1], b[..|b| - 1], archives - {last});
      assert a == a[..|a| - 1] + [last] && b == b[..|b| - 1] + [last];
    }
  }

  lemma LastIsLast(names: seq<Archive>, archives: map<Archive, string>)
    requires NameOrder(names, archives) && names != []
    ensures names[|names| - 1] in archives
  {
    assert names[|names| - 1] in names;
  }

  lemma LastDropped(names: seq<Archive>, archives: map<Archive, string>)
    requires NameOrder(names, archives) && names != []
    ensures NameOrder(names[..|names| - 1], archives - {names[|names| - 1]})
    ensures |archives - {names[|names| - 1]}| < |archives|
  {
    var n := |names| - 1;
    var init := names[..n];
    assert names[n] in archives;
    assert (archives - {names[n]}).Keys == archives.Keys - {names[n]};
    forall t ensures t in init <==> t in archives - {names[n]} {
      if t in archives && t != names[n] {
        assert t in names;
        var i :| 0 <= i < |names| && names[i] == t;
        assert init[i] == t;
      }
    }
  }

  // ---- two rotations in one second ----

  /** With a limit of one byte each append fills its file. */
  lemma EachAppendSeals(cfg: Config, disk: Disk, c: string, now: int)
    requires cfg.maxFileBytes == 1 && disk.active.None?
    ensures var text := Render(EntryOf(cfg.mac, disk.chainHash, c)) + "\n";
      DiskStep(cfg, disk, Op.Append(c, now)) ==
        Disk(None, Purged(disk.archives[Archive(now) := text], cfg.retentionDays, now),
             Sealing(cfg.mac, disk.chainHash, c))
  {
    hide Render;
    assert "" + (Render(EntryOf(cfg.mac, disk.chainHash, c)) + "\n") ==
      Render(EntryOf(cfg.mac, disk.chainHash, c)) + "\n";
  }

  /** The file of one entry, by its first previous hash and its last hash. */
  lemma OneEntryFile(mac: Mac, head: string, c: string)
    requires PlainMac(mac) && PlainHead(head) && LineSafe(c)
    ensures var text := Render(EntryOf(mac, head, c)) + "\n";
      && CheckLines(mac, GetLines(text)).prev == Sealing(mac, head, c)
      && Entries(GetLines(text)) != [] && Entries(GetLines(text))[0].prev == head
  {
    hide Render, GetLines, CheckLines, Entries, LineSafe, PlainHead;
    var text := Render(EntryOf(mac, head, c)) + "\n";
    GrownText(mac, head, [], c);
    assert FileText(mac, head, [c]) == text by { assert [] + [c] == [c] && "" + text == text; }
    assert AllSafe([c]);
    FileVerifies(mac, head, [c]);
    EntryListAt(mac, head, [c]);
    HeadOfOne(mac, head, c);
  }

  lemma HeadOfOne(mac: Mac, head: string, c: string)
    ensures Head(mac, head, [c]) == Sealing(mac, head, c) && Head(mac, head, []) == head
  {
    assert [c][..0] == [];
  }

  /**
   Three files sealed at seconds t, t + 1 and t + 1: the second is overwritten, and
   the two left on disk do not link although no restart took place.
   */
  lemma SameSecondLosesAFile(cfg: Config, c0: string, c1: string, c2: string, t: int)
    requires PlainMac(cfg.mac) && Injective(cfg.mac) && cfg.maxFileBytes == 1
    requires LineSafe(c0) && LineSafe(c1) && LineSafe(c2) && c0 != c1
    ensures var disk := DiskRun(cfg, [Op.Append(c0, t), Op.Append(c1, t + 1), Op.Append(c2, t + 1)]);
      var names := [Archive(t), Archive(t + 1)];
      && NameOrder(names, disk.archives)
      && disk.active.None?
      && !Links(cfg.mac, disk.archives[names[0]], disk.archives[names[1]], false)
  {
    hide Render, GetLines, CheckLines, Entries, Injective, LineSafe, DiskStep, PlainHead, Sealing, PlainMac;
    var ops := [Op.Append(c0, t), Op.Append(c1, t + 1), Op.Append(c2, t + 1)];
    var first := Disk(None, map[], GENESIS);
    ThreeSteps(cfg, ops);
    EachAppendSeals(cfg, first, c0, t);
    var d1 := DiskStep(cfg, first, ops[0]);
    EachAppendSeals(cfg, d1, c1, t + 1);
    var d2 := DiskStep(cfg, d1, ops[1]);
    EachAppendSeals(cfg, d2, c2, t + 1);
    var d3 := DiskStep(cfg, d2, ops[2]);
    var h0 := Sealing(cfg.mac, GENESIS, c0);
    var h1 := Sealing(cfg.mac, h0, c1);
    GenesisPlain();
    SealPlain(cfg.mac, GENESIS, c0);
    SealPlain(cfg.mac, h0, c1);
    OneEntryFile(cfg.mac, GENESIS, c0);
    OneEntryFile(cfg.mac, h1, c2);
    SealsDiffer(cfg.mac, c0, c1);
    var text0, text2 := Render(EntryOf(cfg.mac, GENESIS, c0)) + "\n", Render(EntryOf(cfg.mac, h1, c2)) + "\n";
    assert d3.archives == map[Archive(t) := text0, Archive(t + 1) := text2];
    var names := [Archive(t), Archive(t + 1)];
    assert names[0] == Archive(t) && names[1] == Archive(t + 1);
  }

  lemma ThreeSteps(cfg: Config, ops: seq<Op>)
    requires |ops| == 3
    ensures DiskRun(cfg, ops) ==
      DiskStep(cfg, DiskStep(cfg, DiskStep(cfg, Disk(None, map[], GENESIS), ops[0]), ops[1]), ops[2])
  {
    hide DiskStep;
    assert ops[..2][..1] == ops[..1] && ops[..1][..0] == [];
    assert DiskRun(cfg, ops[..1]) == DiskStep(cfg, DiskRun(cfg, []), ops[0]);
    assert DiskRun(cfg, ops[..2]) == DiskStep(cfg, DiskRun(cfg, ops[..1]), ops[1]);
  }

  lemma SealPlain(mac: Mac, head: string, c: string)
    requires PlainMac(mac)
    ensures PlainHead(Sealing(mac, head, c)) && '|' !in Sealing(mac, head, c)
  {
    assert PlainHead(mac(head + "|" + c));
  }

  lemma SealsDiffer(mac: Mac, c0: string, c1: string)
    requires PlainMac(mac) && Injective(mac) && c0 != c1
    ensures var h0 := Sealing(mac, GENESIS, c0); Sealing(mac, h0, c1) != h0
  {
    var h0 := Sealing(mac, GENESIS, c0);
    SealPlain(mac, GENESIS, c0);
    if Sealing(mac, h0, c1) == h0 {
      assert h0 + "|" + c1 == GENESIS + "|" + c0;
      BarSplits(h0, c1, GENESIS, c0);
    }
  }
}
