/**
 Drive sessions of the file service, and the bastion that mints their tickets:
 how long a drive can be reached.
 */
module DriveSessions {
  import opened Numerals
  import opened Options
  import opened Tickets

  // ---- the file service ----

  datatype FileSession = FileSession(user: string, userId: int, resource: int, sessionId: int, expires: int)

  type Table = map<string, FileSession>

  datatype State = State(seen: Seen, sessions: Table)

  /** The session a ticket opens: it lasts `ttl`, and never beyond the bastion session. */
  function SessionFor(ttl: int, c: Claims, now: int): FileSession {
    var end := c.sessionExpires * SECOND;
    FileSession(c.user, c.userId, c.resource, c.sessionId, if end < now + ttl then end else now + ttl)
  }

  /** A renewal replaces the previous cookie of the same browser. */
  function Renewed(sessions: Table, cookie: Option<string>, token: string, s: FileSession): Table {
    var previous := cookie.Some? && cookie.value in sessions
      && sessions[cookie.value].user == s.user && sessions[cookie.value].resource == s.resource;
    (if previous then sessions - {cookie.value} else sessions)[token := s]
  }

  function OpenStep(codec: Codec, ttl: int, st: State, ticket: string, resource: int,
                    cookie: Option<string>, token: string, now: int): (Checked, State)
  {
    var (r, seen) := Exchange(codec, st.seen, Attempt(false, ticket, resource, now));
    if r.Bad? then (r, State(seen, st.sessions))
    else (r, State(seen, Renewed(st.sessions, cookie, token, SessionFor(ttl, r.claims, now))))
  }

  /** Who a request acts for: the live session of its cookie on this resource. */
  function Authed(sessions: Table, cookie: string, resource: int, now: int): Option<FileSession> {
    if cookie == "" || cookie !in sessions then None
    else if sessions[cookie].resource != resource || sessions[cookie].expires < now then None
    else Some(sessions[cookie])
  }

  function CloseStep(sessions: Table, cookie: string, resource: int, now: int): Table {
    if Authed(sessions, cookie, resource, now).Some? then sessions - {cookie} else sessions
  }

  function Alive(sessions: Table, now: int): Table {
    map t | t in sessions && sessions[t].expires >= now :: sessions[t]
  }

  function Elsewhere(sessions: Table, resource: int): Table {
    map t | t in sessions && sessions[t].resource != resource :: sessions[t]
  }

  function PurgeStep(codec: Codec, st: State, order: string, resource: int, now: int): (Checked, State) {
    var (r, seen) := Exchange(codec, st.seen, Attempt(true, order, resource, now));
    (r, State(seen, if r.Bad? then st.sessions else Elsewhere(st.sessions, resource)))
  }

  /**
   An accepted ticket opens one session, the ticket's own, up to the TTL or the end of the bastion
   session; of the others only the one this browser had on the resource is closed.
   */
  lemma OpenedExactly(codec: Codec, ttl: int, st: State, ticket: string, resource: int, cookie: Option<string>,
                      token: string, now: int, other: string)
    ensures var (r, after) := OpenStep(codec, ttl, st, ticket, resource, cookie, token, now);
      && (r.Bad? ==> after.sessions == st.sessions)
      && (r.Good? ==>
        && token in after.sessions
        && after.sessions[token] == FileSession(r.claims.user, r.claims.userId, resource, r.claims.sessionId,
                                                Min(now + ttl, r.claims.sessionExpires * SECOND)))
      && (r.Good? && other != token ==>
        && (other in after.sessions <==>
              other in st.sessions && !(cookie == Some(other) && st.sessions[other].user == r.claims.user
                                        && st.sessions[other].resource == resource))
        && (other in after.sessions ==> after.sessions[other] == st.sessions[other]))
  {
    hide VerifyTicket, Use;
  }

  /** Which sessions stay: those not over, those of other resources, and all but the one closed. */
  lemma KeptExactly(sessions: Table, t: string, now: int, resource: int, cookie: string)
    ensures t in Alive(sessions, now) <==> t in sessions && now <= sessions[t].expires
    ensures t in Elsewhere(sessions, resource) <==> t in sessions && sessions[t].resource != resource
    ensures t in CloseStep(sessions, cookie, resource, now) <==>
      && t in sessions
      && !(t == cookie && cookie != "" && sessions[t].resource == resource && now <= sessions[t].expires)
    ensures t in Alive(sessions, now) ==> Alive(sessions, now)[t] == sessions[t]
    ensures t in Elsewhere(sessions, resource) ==> Elsewhere(sessions, resource)[t] == sessions[t]
    ensures t in CloseStep(sessions, cookie, resource, now) ==>
      CloseStep(sessions, cookie, resource, now)[t] == sessions[t]
  {
  }

  class Drive {
    const codec: Codec
    const ttl: int
    const guard: ReplayGuard
    var sessions: Table

    constructor (codec: Codec, ttl: int)
      ensures this.codec == codec && this.ttl == ttl && fresh(guard)
      ensures Contents() == State(map[], map[])
    {
      this.codec, this.ttl := codec, ttl;
      guard := new ReplayGuard();
      sessions := map[];
    }

    ghost function Contents(): State
      reads this, guard
    {
      State(guard.seen, sessions)
    }

    /** handleOpenSession: a ticket against a cookie. */
    method Open(ticket: string, resource: int, cookie: Option<string>, token: string, now: int) returns (r: Checked)
      modifies this, guard
      ensures (r, Contents()) == OpenStep(codec, ttl, old(Contents()), ticket, resource, cookie, token, now)
    {
      r := Verified(codec, Attempt(false, ticket, resource, now));
      if r.Bad? { return; }
      var first := guard.TryUse(r.claims.nonce, r.claims.expires * SECOND, now);
      if !first { return Bad(Replayed); }
      var expires := now + ttl;
      var end := r.claims.sessionExpires * SECOND;
      if end < expires {
        expires := end;
      }
      var session := FileSession(r.claims.user, r.claims.userId, resource, r.claims.sessionId, expires);
      if cookie.Some? && cookie.value in sessions {
        var previous := sessions[cookie.value];
        if previous.user == session.user && previous.resource == resource {
          sessions := sessions - {cookie.value};
        }
      }
      sessions := sessions[token := session];
    }

    /** handleCloseSession, behind authed. */
    method Close(cookie: string, resource: int, now: int)
      modifies this
      ensures sessions == CloseStep(old(sessions), cookie, resource, now)
    {
      if Authed(sessions, cookie, resource, now).Some? {
        sessions := sessions - {cookie};
      }
    }

    /** One turn of reapLoop. */
    method Reap(now: int)
      modifies this
      ensures sessions == Alive(old(sessions), now)
    {
      var tokens := sessions.Keys;
      while tokens != {}
        invariant tokens <= sessions.Keys <= old(sessions).Keys
        invariant forall t :: t in sessions ==> sessions[t] == old(sessions)[t]
        invariant forall t :: t in old(sessions) && t !in tokens ==>
          (t in sessions <==> old(sessions)[t].expires >= now)
        decreases |tokens|
      {
        var token :| token in tokens;
        if sessions[token].expires < now {
          sessions := sessions - {token};
        }
        tokens := tokens - {token};
      }
    }

    /** dropSessions: the drive sessions of a purged space are cut. */
    method DropSessions(resource: int)
      modifies `sessions
      ensures sessions == Elsewhere(old(sessions), resource)
    {
      var tokens := sessions.Keys;
      while tokens != {}
        invariant tokens <= sessions.Keys <= old(sessions).Keys
        invariant forall t :: t in sessions ==> sessions[t] == old(sessions)[t]
        invariant forall t :: t in old(sessions) && t !in tokens ==>
          (t in sessions <==> old(sessions)[t].resource != resource)
        decreases |tokens|
      {
        var token :| token in tokens;
        if sessions[token].resource == resource {
          sessions := sessions - {token};
        }
        tokens := tokens - {token};
      }
    }

    /** handlePurge, as far as sessions go: a signed order of the bastion, accepted once. */
    method Purge(order: string, resource: int, now: int) returns (r: Checked)
      modifies this, guard
      ensures (r, Contents()) == PurgeStep(codec, old(Contents()), order, resource, now)
    {
      r := Verified(codec, Attempt(true, order, resource, now));
      if r.Bad? { return; }
      var first := guard.TryUse(r.claims.nonce, r.claims.expires * SECOND, now);
      if !first { return Bad(Replayed); }
      DropSessions(resource);
    }
  }

  // ---- the bastion ----

  const TICKET_TTL := 60
  /** Without a policy duration a drive session lasts a working day at most. */
  const DEFAULT_SESSION := 8 * 3600

  /** `createdAt` is the parsed start time; `endedAt` the instant the session stopped being active. */
  datatype BastionSession = BastionSession(
    user: string,
    resource: int,
    createdAt: Option<int>,
    maxDuration: int,
    endedAt: Option<int>)

  datatype Minted = Refused | TimedOut | Ticket(claims: Claims)

  predicate Limited(s: BastionSession) { s.maxDuration > 0 && s.createdAt.Some? }

  function Deadline(s: BastionSession): int
    requires Limited(s)
  {
    s.createdAt.value + s.maxDuration
  }

  /** The ticket handler, `permitted` standing for its owner, protocol and grant checks. */
  function Mint(s: BastionSession, id: int, userId: int, nonce: string, permitted: bool, now: int): Minted {
    if !permitted || s.endedAt.Some? then Refused
    else
      var seconds := UnixSeconds(now);
      var end := if Limited(s) then Deadline(s) else seconds + DEFAULT_SESSION;
      if end <= seconds then TimedOut
      else Ticket(Claims(1, "", s.user, userId, s.resource, id, seconds, seconds + TICKET_TTL, end, nonce))
  }

  /**
   A ticket is signed exactly for a permitted user of a session still active and not past its maximum
   duration; it is dated the current second, good for 60 s, and ends with the session.
   */
  lemma MintExactly(s: BastionSession, id: int, userId: int, nonce: string, permitted: bool, now: int)
    ensures var m := Mint(s, id, userId, nonce, permitted, now);
      && (m.Refused? <==> !permitted || s.endedAt.Some?)
      && (m.TimedOut? <==>
            permitted && s.endedAt.None? && Limited(s) && (s.createdAt.value + s.maxDuration) * SECOND <= now)
      && (m.Ticket? ==>
            var c := m.claims;
            && c.issuedAt * SECOND <= now < (c.issuedAt + 1) * SECOND && c.expires == c.issuedAt + 60
            && (c.version, c.kind, c.user, c.userId, c.resource, c.sessionId, c.nonce) ==
                 (1, "", s.user, userId, s.resource, id, nonce)
            && c.sessionExpires ==
                 if Limited(s) then s.createdAt.value + s.maxDuration else c.issuedAt + 8 * 3600)
  {
    assert now / SECOND * SECOND <= now < (now / SECOND + 1) * SECOND;
  }

  // ---- both together ----

  /** `minted` holds every session ticket the bastion ever signed. */
  datatype World = World(now: int, bastion: map<int, BastionSession>, minted: set<Claims>, drive: State)

  datatype Event =
    | Tick(to: int)
    | Start(id: int, session: BastionSession)
    | End(id: int)
    | Sign(id: int, userId: int, nonce: string, permitted: bool)
    | OpenDrive(ticket: string, resource: int, previous: Option<string>, token: string)
    | CloseDrive(cookie: string, resource: int)
    | Reaped
    | PurgeSpace(order: string, resource: int)

  /** The clock does not go back, ids are new, and session tickets carry claims the bastion signed. */
  predicate Possible(codec: Codec, w: World, e: Event) {
    match e
    case Tick(to) => w.now <= to
    case Start(id, s) => id !in w.bastion && s.endedAt.None?
    case End(id) => id in w.bastion && w.bastion[id].endedAt.None?
    case Sign(id, _, _, _) => id in w.bastion
    case OpenDrive(ticket, _, _, _) =>
      DecodeSigned(codec, ticket).Good? && DecodeSigned(codec, ticket).claims.kind == "" ==>
        DecodeSigned(codec, ticket).claims in w.minted
    case _ => true
  }

  function Ended(w: World, id: int): World
    requires id in w.bastion
  {
    w.(bastion := w.bastion[id := w.bastion[id].(endedAt := Some(w.now))])
  }

  function SignStep(w: World, id: int, userId: int, nonce: string, permitted: bool): World
    requires id in w.bastion
  {
    match Mint(w.bastion[id], id, userId, nonce, permitted, w.now)
    case Refused => w
    case TimedOut => Ended(w, id)
    case Ticket(c) => w.(minted := w.minted + {c})
  }

  function Step(codec: Codec, ttl: int, w: World, e: Event): World
    requires Possible(codec, w, e)
  {
    match e
    case Tick(to) => w.(now := to)
    case Start(id, s) => w.(bastion := w.bastion[id := s])
    case End(id) => Ended(w, id)
    case Sign(id, userId, nonce, permitted) => SignStep(w, id, userId, nonce, permitted)
    case OpenDrive(ticket, resource, cookie, token) =>
      w.(drive := OpenStep(codec, ttl, w.drive, ticket, resource, cookie, token, w.now).1)
    case CloseDrive(cookie, resource) =>
      w.(drive := State(w.drive.seen, CloseStep(w.drive.sessions, cookie, resource, w.now)))
    case Reaped => w.(drive := State(w.drive.seen, Alive(w.drive.sessions, w.now)))
    case PurgeSpace(order, resource) => w.(drive := PurgeStep(codec, w.drive, order, resource, w.now).1)
  }

  /** How late a ticket may still be exchanged: 30 s, and up to a second more when readings are finer. */
  function Lag(whole: bool): int { if whole then SKEW else SKEW + SECOND - 1 }

  /** What a ticket owes to the session it was signed for. */
  predicate Honest(w: World, c: Claims) {
    && c.sessionId in w.bastion
    && var s := w.bastion[c.sessionId];
       && c.user == s.user && c.resource == s.resource
       && c.expires == c.issuedAt + TICKET_TTL
       && c.issuedAt * SECOND <= w.now
       && (s.endedAt.Some? ==> c.issuedAt * SECOND <= s.endedAt.value)
       && (Limited(s) ==> c.sessionExpires == Deadline(s))
  }

  /** What a drive session owes to the bastion session behind it. */
  predicate Bounded(w: World, whole: bool, ttl: int, f: FileSession) {
    && f.sessionId in w.bastion
    && var s := w.bastion[f.sessionId];
       && f.user == s.user && f.resource == s.resource
       && (Limited(s) ==> f.expires <= Deadline(s) * SECOND)
       && f.expires <= (if s.endedAt.Some? then s.endedAt.value else w.now) + TICKET_TTL * SECOND + Lag(whole) + ttl
  }

  predicate Sound(w: World, whole: bool, ttl: int) {
    && (whole ==> w.now % SECOND == 0)
    && (forall id :: id in w.bastion && w.bastion[id].endedAt.Some? ==> w.bastion[id].endedAt.value <= w.now)
    && (forall c :: c in w.minted ==> Honest(w, c))
    && (forall t :: t in w.drive.sessions ==> Bounded(w, whole, ttl, w.drive.sessions[t]))
  }

  lemma OpenedIsBounded(codec: Codec, ttl: int, w: World, whole: bool, ticket: string, resource: int)
    requires Sound(w, whole, ttl)
    requires var v := Verified(codec, Attempt(false, ticket, resource, w.now)); v.Good? && v.claims in w.minted
    ensures var v := Verified(codec, Attempt(false, ticket, resource, w.now));
      Bounded(w, whole, ttl, SessionFor(ttl, v.claims, w.now))
  {
    var a := Attempt(false, ticket, resource, w.now);
    VerifiedInTime(codec, a);
    var c := Verified(codec, a).claims;
    assert Honest(w, c);
  }

  lemma SignKeepsSound(ttl: int, w: World, whole: bool, id: int, userId: int, nonce: string, permitted: bool)
    requires Sound(w, whole, ttl) && id in w.bastion
    ensures Sound(SignStep(w, id, userId, nonce, permitted), whole, ttl)
  {
    var m := Mint(w.bastion[id], id, userId, nonce, permitted, w.now);
    if m.TimedOut? {
      EndKeepsSound(ttl, w, whole, id);
    } else if m.Ticket? {
      assert Honest(w, m.claims);
      var v := SignStep(w, id, userId, nonce, permitted);
      assert forall c :: Honest(w, c) ==> Honest(v, c);
      assert forall f :: Bounded(w, whole, ttl, f) ==> Bounded(v, whole, ttl, f);
    }
  }

  lemma EndKeepsSound(ttl: int, w: World, whole: bool, id: int)
    requires Sound(w, whole, ttl) && id in w.bastion && w.bastion[id].endedAt.None?
    ensures Sound(Ended(w, id), whole, ttl)
  {
    var v := Ended(w, id);
    assert forall c :: Honest(w, c) ==> Honest(v, c);
    assert forall f :: Bounded(w, whole, ttl, f) ==> Bounded(v, whole, ttl, f);
  }

  lemma OpenKeepsSound(codec: Codec, ttl: int, w: World, whole: bool, e: Event)
    requires Sound(w, whole, ttl) && e.OpenDrive? && Possible(codec, w, e)
    ensures Sound(Step(codec, ttl, w, e), whole, ttl)
  {
    var (r, st) := OpenStep(codec, ttl, w.drive, e.ticket, e.resource, e.previous, e.token, w.now);
    if r.Good? {
      var a := Attempt(false, e.ticket, e.resource, w.now);
      VerifiedInTime(codec, a);
      OpenedIsBounded(codec, ttl, w, whole, e.ticket, e.resource);
    }
    var v := Step(codec, ttl, w, e);
    assert forall c :: Honest(w, c) ==> Honest(v, c);
    assert forall f :: Bounded(w, whole, ttl, f) ==> Bounded(v, whole, ttl, f);
  }

  lemma StepKeepsSound(codec: Codec, ttl: int, w: World, whole: bool, e: Event)
    requires Sound(w, whole, ttl) && Possible(codec, w, e)
    requires whole && e.Tick? ==> e.to % SECOND == 0
    ensures Sound(Step(codec, ttl, w, e), whole, ttl)
  {
    match e
    case Sign(id, userId, nonce, permitted) => SignKeepsSound(ttl, w, whole, id, userId, nonce, permitted);
    case End(id) => EndKeepsSound(ttl, w, whole, id);
    case OpenDrive(_, _, _, _) => OpenKeepsSound(codec, ttl, w, whole, e);
    case _ =>
      var v := Step(codec, ttl, w, e);
      assert forall c :: Honest(w, c) ==> Honest(v, c);
      assert forall f :: Bounded(w, whole, ttl, f) ==> Bounded(v, whole, ttl, f);
  }

  // ---- runs ----

  predicate PossibleRun(codec: Codec, ttl: int, w: World, events: seq<Event>)
    decreases |events|
  {
    events != [] ==>
      && Possible(codec, w, events[0])
      && PossibleRun(codec, ttl, Step(codec, ttl, w, events[0]), events[1..])
  }

  function After(codec: Codec, ttl: int, w: World, events: seq<Event>): World
    requires PossibleRun(codec, ttl, w, events)
    decreases |events|
  {
    if events == [] then w else After(codec, ttl, Step(codec, ttl, w, events[0]), events[1..])
  }

  ghost predicate WholeTicks(events: seq<Event>) {
    forall e :: e in events && e.Tick? ==> e.to % SECOND == 0
  }

  lemma {:induction false} RunKeepsSound(codec: Codec, ttl: int, w: World, whole: bool, events: seq<Event>)
    requires Sound(w, whole, ttl) && PossibleRun(codec, ttl, w, events)
    requires whole ==> WholeTicks(events)
    ensures Sound(After(codec, ttl, w, events), whole, ttl)
    decreases |events|
  {
    if events != [] {
      StepKeepsSound(codec, ttl, w, whole, events[0]);
      RunKeepsSound(codec, ttl, Step(codec, ttl, w, events[0]), whole, events[1..]);
    }
  }

  /**
   In every run a served drive request belongs to a bastion session of that user
   and resource, comes no later than its maximum duration, and no later than 60 s
   plus the exchange lag plus the session TTL after it ended.
   */
  lemma ServedInBounds(codec: Codec, ttl: int, start: int, events: seq<Event>, whole: bool, cookie: string,
                       resource: int)
    requires PossibleRun(codec, ttl, World(start, map[], {}, State(map[], map[])), events)
    requires whole ==> start % SECOND == 0 && WholeTicks(events)
    ensures var w := After(codec, ttl, World(start, map[], {}, State(map[], map[])), events);
      var served := Authed(w.drive.sessions, cookie, resource, w.now);
      served.Some? ==>
        && served.value.sessionId in w.bastion
        && var s := w.bastion[served.value.sessionId];
           && s.user == served.value.user && s.resource == resource
           && (Limited(s) ==> w.now <= Deadline(s) * SECOND)
           && (s.endedAt.Some? ==> w.now <= s.endedAt.value + TICKET_TTL * SECOND + Lag(whole) + ttl)
  {
    var empty := World(start, map[], {}, State(map[], map[]));
    RunKeepsSound(codec, ttl, empty, whole, events);
    var w := After(codec, ttl, empty, events);
    var served := Authed(w.drive.sessions, cookie, resource, w.now);
    assert served.Some? ==> Bounded(w, whole, ttl, served.value);
  }

  // ---- the bounds are reached ----

  lemma RunNext(codec: Codec, ttl: int, w: World, e: Event, rest: seq<Event>)
    requires Possible(codec, w, e) && PossibleRun(codec, ttl, Step(codec, ttl, w, e), rest)
    ensures PossibleRun(codec, ttl, w, [e] + rest)
    ensures After(codec, ttl, w, [e] + rest) == After(codec, ttl, Step(codec, ttl, w, e), rest)
  {
    hide Possible, Step;
    assert ([e] + rest)[1..] == rest;
  }

  const EMPTY := World(0, map[], {}, State(map[], map[]))

  /** The ticket of a session that may last `d` seconds, signed when it starts. */
  function FirstClaims(d: int): Claims { Claims(1, "", "u", 7, 3, 1, 0, TICKET_TTL, d, "n") }

  /** The bastion session of `d` seconds, ended the instant its ticket was signed. */
  function EndedAtOnce(d: int): World {
    World(0, map[1 := BastionSession("u", 3, Some(0), d, Some(0))], {FirstClaims(d)}, State(map[], map[]))
  }

  function SignedAndEnded(d: int): seq<Event> {
    [Start(1, BastionSession("u", 3, Some(0), d, None))] + ([Sign(1, 7, "n", true)] + [End(1)])
  }

  lemma SignedThenEnded(codec: Codec, ttl: int, d: int, rest: seq<Event>)
    requires d > 0 && PossibleRun(codec, ttl, EndedAtOnce(d), rest)
    ensures PossibleRun(codec, ttl, EMPTY, SignedAndEnded(d) + rest)
    ensures After(codec, ttl, EMPTY, SignedAndEnded(d) + rest) == After(codec, ttl, EndedAtOnce(d), rest)
  {
    hide PossibleRun, After;
    var s := BastionSession("u", 3, Some(0), d, None);
    var w1 := Step(codec, ttl, EMPTY, Start(1, s));
    var w2 := Step(codec, ttl, w1, Sign(1, 7, "n", true));
    assert w2.minted == {FirstClaims(d)};
    assert Step(codec, ttl, w2, End(1)) == EndedAtOnce(d);
    RunNext(codec, ttl, w2, End(1), rest);
    RunNext(codec, ttl, w1, Sign(1, 7, "n", true), [End(1)] + rest);
    RunNext(codec, ttl, EMPTY, Start(1, s), [Sign(1, 7, "n", true)] + ([End(1)] + rest));
    assert SignedAndEnded(d) + rest == [Start(1, s)] + ([Sign(1, 7, "n", true)] + ([End(1)] + rest));
  }

  /** The last instant the ticket is exchanged, and the last one the drive session it opens is served. */
  function LastOpening(whole: bool, d: int): int { Min(d * SECOND, TICKET_TTL * SECOND + Lag(whole)) }

  function LastServed(whole: bool, d: int, ttl: int): int {
    Min(d * SECOND, TICKET_TTL * SECOND + Lag(whole) + ttl)
  }

  lemma LateOpening(codec: Codec, ttl: int, whole: bool, d: int, ticket: string)
    requires 0 <= ttl && 0 < d && DecodeSigned(codec, ticket) == Good(FirstClaims(d))
    ensures OpenStep(codec, ttl, State(map[], map[]), ticket, 3, None, "t", LastOpening(whole, d)).1.sessions
         == map["t" := FileSession("u", 7, 3, 1, LastServed(whole, d, ttl))]
  {
    hide DecodeSigned;
    var now := LastOpening(whole, d);
    var c := FirstClaims(d);
    ExpiryIsTruncated(TICKET_TTL, now);
    assert UnixSeconds(now) <= d;
    assert VerifyTicket(codec, ticket, now) == Good(c);
    assert Exchange(codec, map[], Attempt(false, ticket, 3, now)).0 == Good(c);
  }

  function OpenedAndServed(whole: bool, d: int, ttl: int, ticket: string): seq<Event> {
    [Tick(LastOpening(whole, d))] + ([OpenDrive(ticket, 3, None, "t")] + ([Tick(LastServed(whole, d, ttl))] + []))
  }

  lemma OpenedThenServed(codec: Codec, ttl: int, whole: bool, d: int, ticket: string)
    requires 0 <= ttl && 0 < d && DecodeSigned(codec, ticket) == Good(FirstClaims(d))
    ensures var events := OpenedAndServed(whole, d, ttl, ticket);
      && PossibleRun(codec, ttl, EndedAtOnce(d), events)
      && var w := After(codec, ttl, EndedAtOnce(d), events);
         && w.now == LastServed(whole, d, ttl) && w.bastion == EndedAtOnce(d).bastion
         && w.drive.sessions == map["t" := FileSession("u", 7, 3, 1, LastServed(whole, d, ttl))]
  {
    hide PossibleRun, After, OpenStep, DecodeSigned;
    var open, last := OpenDrive(ticket, 3, None, "t"), Tick(LastServed(whole, d, ttl));
    var w0 := EndedAtOnce(d);
    var w1 := Step(codec, ttl, w0, Tick(LastOpening(whole, d)));
    var w2 := Step(codec, ttl, w1, open);
    LateOpening(codec, ttl, whole, d, ticket);
    NothingRun(codec, ttl, Step(codec, ttl, w2, last));
    RunNext(codec, ttl, w2, last, []);
    RunNext(codec, ttl, w1, open, [last] + []);
    RunNext(codec, ttl, w0, Tick(LastOpening(whole, d)), [open] + ([last] + []));
  }

  lemma NothingRun(codec: Codec, ttl: int, w: World)
    ensures PossibleRun(codec, ttl, w, []) && After(codec, ttl, w, []) == w
  {
  }

  /**
   For every duration of a session and every TTL a run is served at the earlier of the two bounds, in
   both kinds of clock.
   */
  lemma BoundIsReached(codec: Codec, ttl: int, whole: bool, d: int, ticket: string)
    requires 0 <= ttl && 0 < d && DecodeSigned(codec, ticket) == Good(FirstClaims(d))
    ensures var events := SignedAndEnded(d) + OpenedAndServed(whole, d, ttl, ticket);
      && PossibleRun(codec, ttl, EMPTY, events)
      && (whole && ttl % SECOND == 0 ==> WholeTicks(events))
      && var w := After(codec, ttl, EMPTY, events);
         && Authed(w.drive.sessions, "t", 3, w.now).Some?
         && 1 in w.bastion && Limited(w.bastion[1]) && w.bastion[1].maxDuration == d && w.bastion[1].endedAt.Some?
         && w.now == Min(Deadline(w.bastion[1]) * SECOND,
                         w.bastion[1].endedAt.value + TICKET_TTL * SECOND + Lag(whole) + ttl)
  {
    hide PossibleRun, After, DecodeSigned, SignedAndEnded, OpenedAndServed;
    var events := OpenedAndServed(whole, d, ttl, ticket);
    OpenedThenServed(codec, ttl, whole, d, ticket);
    SignedThenEnded(codec, ttl, d, events);
    if whole && ttl % SECOND == 0 {
      TicksAreWhole(ttl, d, ticket);
    }
  }

  lemma WholeTimes(ttl: int, d: int)
    requires ttl % SECOND == 0
    ensures LastOpening(true, d) % SECOND == 0 && LastServed(true, d, ttl) % SECOND == 0
  {
    assert d * SECOND % SECOND == 0;
    assert ttl == ttl / SECOND * SECOND;
    assert (TICKET_TTL * SECOND + SKEW + ttl) % SECOND == 0;
  }

  lemma TicksAreWhole(ttl: int, d: int, ticket: string)
    requires ttl % SECOND == 0
    ensures WholeTicks(SignedAndEnded(d) + OpenedAndServed(true, d, ttl, ticket))
  {
    hide LastOpening, LastServed;
    WholeTimes(ttl, d);
    var first, later := SignedAndEnded(d), OpenedAndServed(true, d, ttl, ticket);
    forall e: Event | e in first + later && e.Tick? ensures e.to % SECOND == 0 {
      assert e in first || e in later;
    }
  }
}
