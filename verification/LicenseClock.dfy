/**
 The license clock: a watermark over every clock reading, kept in memory and
 persisted about once an hour, so that a rolled-back clock cannot un-expire a
 license; and the sequence number that keeps old revocation lists out.
 */
module LicenseClock {
  import opened Numerals

  /** A backward jump beyond this is an anomaly, not a correction. */
  const ROLLBACK_SKEW := 24 * 3600
  const PERSIST_EVERY := 3600
  const DAY := 86400

  datatype Claims = Claims(licenseId: string, tier: string, notBefore: int, notAfter: int)

  datatype Status = NoLicense | Valid(daysRemaining: int) | Expired | NotYetValid | Invalid | Revoked | ClockAnomaly

  function Evaluate(c: Claims, now: int, watermark: int, denylist: set<string>): Status {
    if watermark > 0 && now + ROLLBACK_SKEW < watermark then ClockAnomaly
    else
      var effective := Max(now, watermark);
      if c.notBefore > 0 && effective < c.notBefore then NotYetValid
      else if c.notAfter > 0 && effective >= c.notAfter then Expired
      else if c.licenseId != "" && c.licenseId in denylist then Revoked
      else Valid(if c.notAfter > 0 then (c.notAfter - effective) / DAY else 0)
  }

  /**
   A status is the first of these that holds: the clock is more than a day behind the watermark, the
   license has not begun, it is over, it is revoked. A valid one tells its whole days left.
   */
  lemma EvaluateExactly(c: Claims, now: int, watermark: int, denylist: set<string>)
    ensures var status := Evaluate(c, now, watermark, denylist);
      var behind := 0 < watermark && now < watermark - 86_400;
      var early := 0 < c.notBefore && now < c.notBefore && watermark < c.notBefore;
      var late := 0 < c.notAfter && (c.notAfter <= now || c.notAfter <= watermark);
      && (status == ClockAnomaly <==> behind)
      && (status == NotYetValid <==> !behind && early)
      && (status == Expired <==> !behind && !early && late)
      && (status == Revoked <==> !behind && !early && !late && c.licenseId != "" && c.licenseId in denylist)
      && (status.Valid? <==> !behind && !early && !late && !(c.licenseId != "" && c.licenseId in denylist))
    ensures var status := Evaluate(c, now, watermark, denylist);
      status.Valid? && 0 < c.notAfter ==>
        && status.daysRemaining * 86_400 <= c.notAfter - now && status.daysRemaining * 86_400 <= c.notAfter - watermark
        && ((status.daysRemaining + 1) * 86_400 > c.notAfter - now
            || (status.daysRemaining + 1) * 86_400 > c.notAfter - watermark)
    ensures var status := Evaluate(c, now, watermark, denylist);
      status.Valid? && c.notAfter <= 0 ==> status.daysRemaining == 0
  {
    var left := c.notAfter - Max(now, watermark);
    assert left / DAY * 86_400 <= left < (left / DAY + 1) * 86_400;
  }

  /** What the license file yields: nothing, something that does not verify, or signed claims. */
  datatype Token = Absent | Unverifiable | Signed(claims: Claims)

  /** The revocation list file, once its signature is checked. */
  datatype RevocationList = NoList | Revoking(seqNo: int, revoked: set<string>)

  /** `persisted` and `crlSeq` are the rows of the license_state table; the rest is process memory. */
  datatype State = State(
    watermark: int,
    lastPersist: int,
    token: Token,
    denylist: set<string>,
    persisted: int,
    crlSeq: int)

  datatype Event =
    | Reload(token: Token, list: RevocationList, now: int)
    | Ask(now: int)
    | Restart

  function ReloadStep(st: State, token: Token, list: RevocationList, now: int): State {
    var watermark := Max(st.persisted, now);
    var applied := list.Revoking? && list.seqNo >= st.crlSeq;
    State(watermark, now, token, if applied then list.revoked else {},
          watermark, if applied then list.seqNo else st.crlSeq)
  }

  function Advanced(st: State, now: int): State {
    if now <= st.watermark then st
    else if now - st.lastPersist >= PERSIST_EVERY then st.(watermark := now, lastPersist := now, persisted := now)
    else st.(watermark := now)
  }

  function AskStep(st: State, now: int): (Status, State) {
    match st.token
    case Absent => (NoLicense, st)
    case Unverifiable => (Invalid, st)
    case Signed(c) => (Evaluate(c, now, Advanced(st, now).watermark, st.denylist), Advanced(st, now))
  }

  /** A new process has only the table. */
  function RestartStep(st: State): State { State(0, 0, Unverifiable, {}, st.persisted, st.crlSeq) }

  function Step(st: State, e: Event): State {
    match e
    case Reload(token, list, now) => ReloadStep(st, token, list, now)
    case Ask(now) => AskStep(st, now).1
    case Restart => RestartStep(st)
  }

  function After(st: State, events: seq<Event>): State
    decreases |events|
  {
    if events == [] then st else After(Step(st, events[0]), events[1..])
  }

  class License {
    var watermark: int
    var lastPersist: int
    var token: Token
    var denylist: set<string>
    var persisted: int
    var crlSeq: int

    constructor (persisted: int, crlSeq: int)
      ensures Contents() == State(0, 0, Unverifiable, {}, persisted, crlSeq)
    {
      watermark, lastPersist, token, denylist := 0, 0, Unverifiable, {};
      this.persisted, this.crlSeq := persisted, crlSeq;
    }

    ghost function Contents(): State
      reads this
    {
      State(watermark, lastPersist, token, denylist, persisted, crlSeq)
    }

    /** reload_license, reading the files again. */
    method Reload(token: Token, list: RevocationList, now: int)
      modifies this
      ensures Contents() == ReloadStep(old(Contents()), token, list, now)
    {
      var highest := if persisted < now then now else persisted;
      persisted := highest;
      var revoked := {};
      if list.Revoking? && !(list.seqNo < crlSeq) {
        revoked := revoked + list.revoked;
        crlSeq := list.seqNo;
      }
      watermark, lastPersist := highest, now;
      denylist := revoked;
      this.token := token;
    }

    /** current_license_status. */
    method CurrentStatus(now: int) returns (status: Status)
      modifies this
      ensures (status, Contents()) == AskStep(old(Contents()), now)
    {
      if token.Absent? { return NoLicense; }
      if token.Unverifiable? { return Invalid; }
      if now > watermark {
        watermark := now;
        if now - lastPersist >= PERSIST_EVERY {
          lastPersist := now;
          persisted := watermark;
        }
      }
      status := Evaluate(token.claims, now, watermark, denylist);
    }
  }

  // ---- the watermark ----

  /** Memory is never behind the table, and ahead of it only since the last write. */
  predicate Settled(st: State) {
    && st.lastPersist <= st.persisted <= st.watermark
    && (st.watermark > st.persisted ==> st.watermark - st.lastPersist < PERSIST_EVERY)
  }

  /** Before its first reload a process has no license to judge. */
  predicate Sound(st: State) { st.token.Signed? ==> Settled(st) }

  lemma StepKeepsSound(st: State, e: Event)
    requires Sound(st)
    ensures Sound(Step(st, e))
    ensures st.persisted <= Step(st, e).persisted
  {}

  /** Whatever the clock does, the stored watermark only grows and memory is less than an hour ahead. */
  lemma {:induction false} PersistedNeverDecreases(st: State, events: seq<Event>)
    requires Sound(st)
    ensures var after := After(st, events);
      && st.persisted <= after.persisted
      && Sound(after)
      && (after.token.Signed? ==> after.persisted <= after.watermark < after.persisted + PERSIST_EVERY)
    decreases |events|
  {
    if events != [] {
      StepKeepsSound(st, events[0]);
      PersistedNeverDecreases(Step(st, events[0]), events[1..]);
    }
  }

  /** The highest of some clock readings and a first value. */
  function Highest(first: int, readings: seq<int>): int
    decreases |readings|
  {
    if readings == [] then first else Highest(Max(first, readings[0]), readings[1..])
  }

  function Asked(readings: seq<int>): seq<Event> {
    seq(|readings|, i requires 0 <= i < |readings| => Ask(readings[i]))
  }

  /** Between reloads the watermark is the highest reading seen; claims and denylist stay. */
  lemma {:induction false} WatermarkIsHighest(st: State, readings: seq<int>)
    requires st.token.Signed?
    ensures var after := After(st, Asked(readings));
      after.watermark == Highest(st.watermark, readings) && after.token == st.token && after.denylist == st.denylist
    decreases |readings|
  {
    if readings != [] {
      var events := Asked(readings);
      assert events[0] == Ask(readings[0]);
      assert events[1..] == Asked(readings[1..]);
      assert Step(st, events[0]).watermark == Max(st.watermark, readings[0]);
      WatermarkIsHighest(Step(st, events[0]), readings[1..]);
    } else {
      assert Asked(readings) == [];
    }
  }

  lemma {:induction false} HighestGrows(first: int, readings: seq<int>)
    ensures Highest(first, readings) >= first
    decreases |readings|
  {
    if readings != [] { HighestGrows(Max(first, readings[0]), readings[1..]); }
  }

  /** Once a status was Expired, every later one until the next reload is Expired or a clock anomaly. */
  lemma ExpiredStays(st: State, now: int, readings: seq<int>, later: int)
    requires AskStep(st, now).0 == Expired
    ensures var before := After(AskStep(st, now).1, Asked(readings));
      AskStep(before, later).0 ==
        if Highest(Max(st.watermark, now), readings) > later + ROLLBACK_SKEW then ClockAnomaly else Expired
  {
    var first := AskStep(st, now).1;
    assert first.watermark == Max(st.watermark, now);
    WatermarkIsHighest(first, readings);
    HighestGrows(first.watermark, readings);
    if Highest(first.watermark, readings) > later + ROLLBACK_SKEW {
      WatermarkPositive(st, now);
    }
  }

  lemma WatermarkPositive(st: State, now: int)
    requires AskStep(st, now).0 == Expired
    ensures Max(st.watermark, now) > 0
  {}

  // ---- across reloads and restarts ----

  /** Nothing that reads the table again can go below it. */
  lemma {:induction false} FloorHolds(st: State, events: seq<Event>, floor: int)
    requires Sound(st) && st.persisted >= floor
    ensures var after := After(st, events); Sound(after) && after.persisted >= floor
    decreases |events|
  {
    PersistedNeverDecreases(st, events);
  }

  /**
   Once the watermark is 3599 s past the end of a license, that license is never
   Valid again, whatever reloads, restarts and clock readings follow.
   */
  lemma NeverValidAgain(st: State, notAfter: int, events: seq<Event>, now: int)
    requires Sound(st) && st.token.Signed? && 0 < notAfter && st.watermark >= notAfter + PERSIST_EVERY - 1
    ensures var after := After(st, events);
      after.token.Signed? && after.token.claims.notAfter == notAfter ==> !AskStep(after, now).0.Valid?
  {
    assert st.persisted >= notAfter;
    FloorHolds(st, events, notAfter);
  }

  /** A second less is not enough: a restart on an earlier clock brings the license back. */
  lemma OneSecondLessIsNotEnough(c: Claims, denylist: set<string>)
    requires c.notAfter > c.notBefore && c.notAfter > 1
    ensures var st := State(c.notAfter + 3598, c.notAfter - 1, Signed(c), denylist, c.notAfter - 1, 0);
      var later := After(st, [Restart, Reload(Signed(c), NoList, c.notAfter - 1)]);
      && Sound(st) && st.watermark == c.notAfter + PERSIST_EVERY - 2
      && AskStep(later, c.notAfter - 1).0.Valid?
  {
    var st := State(c.notAfter + 3598, c.notAfter - 1, Signed(c), denylist, c.notAfter - 1, 0);
    var events := [Restart, Reload(Signed(c), NoList, c.notAfter - 1)];
    assert events[1..] == [Reload(Signed(c), NoList, c.notAfter - 1)];
    assert events[1..][1..] == [];
    var restarted := Step(st, events[0]);
    assert After(st, events) == After(restarted, events[1..]);
    assert After(restarted, events[1..]) == After(Step(restarted, events[1]), []);
  }

  /** A reload can make a license valid on some clock exactly while the table is before its end. */
  lemma ValidAgainExactly(st: State, c: Claims)
    requires c.notAfter > 0
    ensures (exists now :: AskStep(ReloadStep(st, Signed(c), NoList, now), now).0.Valid?)
        <==> st.persisted < c.notAfter && c.notBefore < c.notAfter
  {
    if st.persisted < c.notAfter && c.notBefore < c.notAfter {
      var now := Max(st.persisted, c.notBefore);
      assert AskStep(ReloadStep(st, Signed(c), NoList, now), now).0.Valid?;
    }
  }

  // ---- revocation lists ----

  /** The highest sequence number among the lists presented at reloads. */
  function HighestList(first: int, events: seq<Event>): int
    decreases |events|
  {
    if events == [] then first
    else
      var e := events[0];
      HighestList(if e.Reload? && e.list.Revoking? then Max(first, e.list.seqNo) else first, events[1..])
  }

  lemma {:induction false} StoredSeqIsHighest(st: State, events: seq<Event>)
    ensures After(st, events).crlSeq == HighestList(st.crlSeq, events)
    decreases |events|
  {
    if events != [] { StoredSeqIsHighest(Step(st, events[0]), events[1..]); }
  }

  /** A list is in force after a reload exactly when no earlier one had a higher number. */
  lemma OldListsRefused(st: State, events: seq<Event>, token: Token, list: RevocationList, now: int)
    requires list.Revoking?
    ensures ReloadStep(After(st, events), token, list, now).denylist ==
      if list.seqNo >= HighestList(st.crlSeq, events) then list.revoked else {}
  {
    StoredSeqIsHighest(st, events);
  }

  /** The clock stands within the dates of a license and not far behind the watermark. */
  predicate InDates(c: Claims, now: int, watermark: int) {
    && (watermark > 0 ==> watermark <= now + ROLLBACK_SKEW)
    && (c.notBefore > 0 ==> c.notBefore <= Max(now, watermark))
    && (c.notAfter > 0 ==> Max(now, watermark) < c.notAfter)
  }

  /**
   A reload starts from an empty denylist: a license found Revoked is so afterwards if and only if the
   list then presented names it and none presented earlier had a higher number. Within its dates it is
   otherwise Valid again.
   */
  lemma RevokedSurvivesExactly(st: State, events: seq<Event>, asked: int, list: RevocationList, now: int)
    requires AskStep(After(st, events), asked).0 == Revoked
    ensures var before := AskStep(After(st, events), asked).1;
      var after := ReloadStep(before, before.token, list, now);
      var listed := list.Revoking? && before.token.claims.licenseId in list.revoked
        && list.seqNo >= HighestList(st.crlSeq, events);
      var inDates := InDates(before.token.claims, now, Max(before.persisted, now));
      && (AskStep(after, now).0 == Revoked <==> inDates && listed)
      && (AskStep(after, now).0.Valid? <==> inDates && !listed)
  {
    hide After, HighestList;
    StoredSeqIsHighest(st, events);
  }

  /** Revoked by list 2, the license is Valid again after a reload that refuses list 1, or finds none. */
  lemma RefusedListRevives(c: Claims, older: RevocationList, now: int)
    requires c.licenseId != "" && InDates(c, now, Max(0, now))
    requires older == Revoking(1, {c.licenseId}) || older == NoList
    ensures var events := [Reload(Signed(c), Revoking(2, {c.licenseId}), now)];
      var start := State(0, 0, Unverifiable, {}, 0, 0);
      && AskStep(After(start, events), now).0 == Revoked
      && AskStep(ReloadStep(After(start, events), Signed(c), older, now), now).0.Valid?
  {
    var events := [Reload(Signed(c), Revoking(2, {c.licenseId}), now)];
    var start := State(0, 0, Unverifiable, {}, 0, 0);
    assert After(start, events) == After(Step(start, events[0]), []);
  }
}
