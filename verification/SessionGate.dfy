/**
 Opening a session: the checks a request passes, in the order they are made,
 and what holds of every session they let through.
 */
module SessionGate {
  import opened Ascii
  import opened Options
  import opened AccessDecision

  const APPROVAL_TTL := 3600
  const MIN_GRANT := 300

  datatype Auth = Auth(user: string, mayReview: bool, mayManage: bool)

  datatype Resource = Resource(target: string, protocol: string, port: int, protection: Protection)

  datatype Ask = Ask(
    target: string,
    user: string,
    protocol: string,
    port: int,
    justification: string,
    ticketId: string,
    purpose: string,
    purposeEvidence: string,
    resourceId: int,
    accessRequestId: int)

  /** `reviewedAt` is the review time when it parses. */
  datatype AccessRequest = AccessRequest(status: string, requester: string, resourceId: int, reviewedAt: Option<int>)

  datatype Session = Session(resourceId: int, grant: int, target: string, user: string, protocol: string, port: int,
                             maxDuration: int, createdAt: int)

  datatype Grant = Grant(policy: int, resourceId: int, approvalRef: int, subject: string, expiresAt: int,
                         routing: string, mfa: string)

  /** What surrounds one call: who asks, from which account, when, and what the ticketing system says. */
  datatype Scene = Scene(
    auth: Auth,
    account: Account,
    permitted: set<int>,
    applies: Policy -> bool,
    inWindow: string -> bool,
    ticketOpen: string -> bool,
    now: int)

  datatype Refusal =
    | MissingField | BadPort | TooLong | NoResource | UnknownResource | Forbidden | Mismatch
    | OutsideWindow | JustificationRequired | ApprovalRequired | UnknownRequest | NotApproved | ScopeMismatch
    | TicketRequired | TicketRefused | PurposeRequired | FactorRequired | RelayRequired | Contained

  datatype Outcome = Opened(id: int) | Turned(reason: Refusal)

  /** The tables the handler reads. */
  datatype Desk = Desk(
    resources: map<int, Resource>,
    policies: seq<Policy>,
    requests: map<int, AccessRequest>,
    relays: set<int>,
    contained: bool)

  // ---- the checks ----

  function Address(desk: Desk, a: Ask, s: Scene): Option<Refusal> {
    if a.target == "" || a.user == "" || a.protocol == "" then Some(MissingField)
    else if a.port <= 0 || a.port > 65535 then Some(BadPort)
    else if |a.justification| > 280 || |a.ticketId| > 80 || |a.purpose| > 120 || |a.purposeEvidence| > 280 then
      Some(TooLong)
    else if a.resourceId <= 0 then Some(NoResource)
    else if a.resourceId !in desk.resources then Some(UnknownResource)
    else if !s.auth.mayManage && a.resourceId !in s.permitted then Some(Forbidden)
    else
      var r := desk.resources[a.resourceId];
      if r.target != a.target || r.protocol != a.protocol || r.port != a.port then Some(Mismatch) else None
  }

  /** An approval older than an hour is expired when it is next used. */
  function Aged(q: AccessRequest, now: int): AccessRequest {
    if q.status == "approved" && q.reviewedAt.Some? && now - q.reviewedAt.value > APPROVAL_TTL
    then q.(status := "expired")
    else q
  }

  predicate NeedsApproval(d: Decision, s: Scene) { d.approvalRequired && !s.auth.mayReview }

  function Approval(requests: map<int, AccessRequest>, a: Ask, s: Scene): Option<Refusal> {
    if a.accessRequestId <= 0 then Some(ApprovalRequired)
    else if a.accessRequestId !in requests then Some(UnknownRequest)
    else
      var q := Aged(requests[a.accessRequestId], s.now);
      if q.status != "approved" then Some(NotApproved)
      else if q.requester != s.auth.user || q.resourceId != a.resourceId then Some(ScopeMismatch)
      else None
  }

  function First(d: Decision, a: Ask): Option<Refusal> {
    if d.denied.Some? then Some(OutsideWindow)
    else if d.requireJustification && a.justification == "" then Some(JustificationRequired)
    else None
  }

  function Last(d: Decision, relays: set<int>, contained: bool, a: Ask, s: Scene): Option<Refusal> {
    if d.ticketRequired && a.ticketId == "" then Some(TicketRequired)
    else if a.ticketId != "" && !s.ticketOpen(a.ticketId) then Some(TicketRefused)
    else if d.purposeRequired && a.purpose == "" then Some(PurposeRequired)
    else if !Meets(s.account, d.mfa) then Some(FactorRequired)
    else if d.routing == "relay" && a.resourceId !in relays then Some(RelayRequired)
    else if contained && a.justification == "" then Some(Contained)
    else None
  }

  /** The first check of the decision a request fails. */
  function Unmet(d: Decision, desk: Desk, a: Ask, s: Scene): Option<Refusal> {
    if First(d, a).Some? then First(d, a)
    else if NeedsApproval(d, s) && Approval(desk.requests, a, s).Some? then Approval(desk.requests, a, s)
    else Last(d, desk.relays, desk.contained, a, s)
  }

  function DecisionFor(desk: Desk, a: Ask, s: Scene): Decision
    requires a.resourceId in desk.resources
  {
    Decide(desk.resources[a.resourceId].protection, Applied(desk.policies, s.applies), s.inWindow)
  }

  /** Why a request is refused, or None. */
  function Verdict(desk: Desk, a: Ask, s: Scene): Option<Refusal> {
    if Address(desk, a, s).Some? then Address(desk, a, s) else Unmet(DecisionFor(desk, a, s), desk, a, s)
  }

  /** The requests after the call: reaching the approval check may expire the one presented. */
  function RequestsAfter(desk: Desk, a: Ask, s: Scene): map<int, AccessRequest> {
    if Address(desk, a, s).Some? then desk.requests
    else
      var d := DecisionFor(desk, a, s);
      if First(d, a).None? && NeedsApproval(d, s) && a.accessRequestId > 0 && a.accessRequestId in desk.requests then
        desk.requests[a.accessRequestId := Aged(desk.requests[a.accessRequestId], s.now)]
      else desk.requests
  }

  function SessionOf(d: Decision, a: Ask, s: Scene, grant: int): Session {
    Session(a.resourceId, grant, a.target, a.user, a.protocol, a.port, d.maxDuration, s.now)
  }

  function GrantOf(d: Decision, a: Ask, s: Scene): Grant {
    Grant(d.selected, a.resourceId, a.accessRequestId, s.auth.user,
          s.now + (if d.maxDuration < MIN_GRANT then MIN_GRANT else d.maxDuration), d.routing, d.mfa)
  }

  // ---- what is stored ----

  /** The session stored is the one asked for, from now on. */
  predicate AsAsked(x: Session, a: Ask, s: Scene) {
    && x.resourceId == a.resourceId && x.target == a.target && x.user == a.user
    && x.protocol == a.protocol && x.port == a.port && x.createdAt == s.now
  }

  /** The grant is the caller's, for that resource and request, and lasts as long as the session, at least 300 s. */
  predicate IssuedTo(g: Grant, a: Ask, s: Scene, duration: int) {
    && g.subject == s.auth.user && g.resourceId == a.resourceId && g.approvalRef == a.accessRequestId
    && g.expiresAt == s.now + (if duration < 300 then 300 else duration)
  }

  /** The least of 3600 s and the positive maxima of these policies. */
  ghost predicate Shortest(applied: seq<Policy>, duration: int) {
    && 0 < duration <= 3600
    && (forall p :: p in applied && p.maxDuration > 0 ==> duration <= p.maxDuration)
    && (duration < 3600 ==> exists p :: p in applied && p.maxDuration == duration)
  }

  /** The grant names the policy its duration comes from, and the route and factor the policies ask for. */
  ghost predicate Attributed(g: Grant, applied: seq<Policy>, s: Scene, duration: int) {
    && (duration < 3600 ==> exists p :: p in applied && p.id == g.policy && p.maxDuration == duration)
    && (g.routing == "relay" <==> RoutesFirst(applied, s.inWindow, "relay"))
    && (Rank(g.mfa) == 3 <==> AsksRank(applied, s.inWindow, 3))
    && (Rank(g.mfa) == 2 <==> AsksRank(applied, s.inWindow, 2) && !AsksRank(applied, s.inWindow, 3))
  }

  /** Session and grant are what was asked for, and honour every applied policy of a table whose ids are positive. */
  ghost predicate StoredRight(x: Session, g: Grant, desk: Desk, a: Ask, s: Scene) {
    && AsAsked(x, a, s) && IssuedTo(g, a, s, x.maxDuration)
    && ((forall p :: p in desk.policies ==> p.id > 0) ==>
          var applied := Applied(desk.policies, s.applies);
          && Shortest(applied, x.maxDuration)
          && (forall p :: p in applied ==> Honoured(p, desk, a, s, x.maxDuration))
          && Attributed(g, applied, s, x.maxDuration))
  }

  lemma StoredAsDecided(desk: Desk, a: Ask, s: Scene, grant: int)
    requires Verdict(desk, a, s).None?
    ensures a.resourceId in desk.resources
    ensures var d := DecisionFor(desk, a, s); var x := SessionOf(d, a, s, grant);
      x.grant == grant && StoredRight(x, GrantOf(d, a, s), desk, a, s)
  {
    hide Address, Unmet, Decide, Applied, Honoured, Shortest, Attributed, AsAsked, IssuedTo, SessionOf, GrantOf;
    Known(desk, a, s);
    StoredAsAsked(DecisionFor(desk, a, s), a, s, grant);
    if forall p :: p in desk.policies ==> p.id > 0 {
      StoredHonoursAll(desk, a, s, grant);
    }
  }

  lemma StoredAsAsked(d: Decision, a: Ask, s: Scene, grant: int)
    ensures AsAsked(SessionOf(d, a, s, grant), a, s) && SessionOf(d, a, s, grant).grant == grant
    ensures IssuedTo(GrantOf(d, a, s), a, s, SessionOf(d, a, s, grant).maxDuration)
  {
  }

  lemma StoredHonoursAll(desk: Desk, a: Ask, s: Scene, grant: int)
    requires Verdict(desk, a, s).None? && forall p :: p in desk.policies ==> p.id > 0
    ensures a.resourceId in desk.resources
    ensures var d := DecisionFor(desk, a, s); var applied := Applied(desk.policies, s.applies);
      var x := SessionOf(d, a, s, grant);
      && Shortest(applied, x.maxDuration)
      && (forall p :: p in applied ==> Honoured(p, desk, a, s, x.maxDuration))
      && Attributed(GrantOf(d, a, s), applied, s, x.maxDuration)
  {
    hide Decide, Applied, Rank, Honoured, Unmet, RoutesFirst, AsksRank, Address;
    Known(desk, a, s);
    var applied := Applied(desk.policies, s.applies);
    var r := desk.resources[a.resourceId].protection;
    OpenedHonoursAll(desk, a, s);
    AppliedMembers(desk.policies, s.applies);
    DurationIsShortest(r, applied, s.inWindow);
    RelayExactly(r, applied, s.inWindow);
    RankExactly(r, applied, s.inWindow);
    AllLive(desk, a, s);
  }

  lemma Known(desk: Desk, a: Ask, s: Scene)
    requires Address(desk, a, s).None?
    ensures a.resourceId in desk.resources
  {
  }

  lemma AllLive(desk: Desk, a: Ask, s: Scene)
    requires Verdict(desk, a, s).None?
    ensures var applied := Applied(desk.policies, s.applies); forall p :: p in applied ==> Live(p, applied, s.inWindow)
  {
    hide Decide, Applied, Address;
    Known(desk, a, s);
    var d := DecisionFor(desk, a, s);
    DecisionMeans(desk.resources[a.resourceId].protection, Applied(desk.policies, s.applies), s.inWindow);
    assert d.denied.None?;
  }

  class Registry {
    var resources: map<int, Resource>
    var policies: seq<Policy>
    var requests: map<int, AccessRequest>
    var relays: set<int>
    var contained: bool
    var sessions: map<int, Session>
    var grants: map<int, Grant>
    var nextSession: int
    var nextGrant: int

    constructor ()
      ensures sessions == map[] && grants == map[] && Valid()
    {
      resources, policies, requests, relays, contained := map[], [], map[], {}, false;
      sessions, grants, nextSession, nextGrant := map[], map[], 1, 1;
    }

    ghost predicate Valid()
      reads this
    {
      && nextSession > 0 && nextGrant > 0
      && (forall id :: id in sessions ==> 0 < id < nextSession)
      && (forall id :: id in grants ==> 0 < id < nextGrant)
    }

    ghost function Contents(): Desk
      reads this
    {
      Desk(resources, policies, requests, relays, contained)
    }

    method CheckApproval(a: Ask, s: Scene) returns (refusal: Option<Refusal>)
      modifies `requests
      ensures refusal == Approval(old(requests), a, s)
      ensures requests == if a.accessRequestId > 0 && a.accessRequestId in old(requests)
        then old(requests)[a.accessRequestId := Aged(old(requests)[a.accessRequestId], s.now)] else old(requests)
    {
      if a.accessRequestId <= 0 { return Some(ApprovalRequired); }
      if a.accessRequestId !in requests { return Some(UnknownRequest); }
      var q := requests[a.accessRequestId];
      if q.status == "approved" && q.reviewedAt.Some? && s.now - q.reviewedAt.value > APPROVAL_TTL {
        q := q.(status := "expired");
        requests := requests[a.accessRequestId := q];
      }
      if q.status != "approved" { return Some(NotApproved); }
      if q.requester != s.auth.user || q.resourceId != a.resourceId { return Some(ScopeMismatch); }
      refusal := None;
    }

    /** open_session_impl. */
    method Open(a: Ask, s: Scene) returns (o: Outcome)
      requires Valid()
      modifies this
      ensures Valid()
      ensures Contents() == old(Contents()).(requests := RequestsAfter(old(Contents()), a, s))
      ensures Verdict(old(Contents()), a, s) == if o.Opened? then None else Some(o.reason)
      ensures o.Turned? ==> sessions == old(sessions) && grants == old(grants)
      ensures o.Opened? ==> var d := DecisionFor(old(Contents()), a, s);
        && o.id !in old(sessions) && old(nextGrant) !in old(grants)
        && sessions == old(sessions)[o.id := SessionOf(d, a, s, old(nextGrant))]
        && grants == old(grants)[old(nextGrant) := GrantOf(d, a, s)]
      ensures o.Opened? ==>
        && o.id in sessions && sessions[o.id].grant == old(nextGrant) && old(nextGrant) in grants
        && StoredRight(sessions[o.id], grants[old(nextGrant)], old(Contents()), a, s)
    {
      hide Applied, Decide, Meets, Approval, Last, Aged, SessionOf, GrantOf, StoredRight;
      var addressed := Address(Desk(resources, policies, requests, relays, contained), a, s);
      if addressed.Some? { return Turned(addressed.value); }
      ghost var desk := Contents();
      var d := BuildAccessDecision(resources[a.resourceId].protection, policies, s.applies, s.inWindow);
      assert d == DecisionFor(desk, a, s);
      if d.denied.Some? { return Turned(OutsideWindow); }
      if d.requireJustification && a.justification == "" { return Turned(JustificationRequired); }
      if d.approvalRequired && !s.auth.mayReview {
        var refusal := CheckApproval(a, s);
        if refusal.Some? { return Turned(refusal.value); }
      }
      var last := Last(d, relays, contained, a, s);
      if last.Some? { return Turned(last.value); }
      var grant := nextGrant;
      nextGrant := nextGrant + 1;
      grants := grants[grant := GrantOf(d, a, s)];
      var id := nextSession;
      nextSession := nextSession + 1;
      sessions := sessions[id := SessionOf(d, a, s, grant)];
      StoredAsDecided(desk, a, s, grant);
      o := Opened(id);
    }
  }

  // ---- what an open session has met ----

  /** An approval for this requester and resource, and fresh when its review time parses. */
  predicate Approved(requests: map<int, AccessRequest>, a: Ask, s: Scene) {
    && a.accessRequestId > 0 && a.accessRequestId in requests
    && var q := requests[a.accessRequestId];
       && q.status == "approved" && q.requester == s.auth.user && q.resourceId == a.resourceId
       && (q.reviewedAt.Some? ==> s.now - q.reviewedAt.value <= APPROVAL_TTL)
  }

  predicate Demands(d: Decision, desk: Desk, a: Ask, s: Scene) {
    && d.denied.None?
    && (d.requireJustification || desk.contained ==> a.justification != "")
    && (d.approvalRequired ==> s.auth.mayReview || Approved(desk.requests, a, s))
    && (d.ticketRequired ==> a.ticketId != "")
    && (a.ticketId != "" ==> s.ticketOpen(a.ticketId))
    && (d.purposeRequired ==> a.purpose != "")
    && Meets(s.account, d.mfa)
    && (d.routing == "relay" ==> a.resourceId in desk.relays)
  }

  /** The checks made one after another are the demands, in any order. */
  lemma UnmetExactly(d: Decision, desk: Desk, a: Ask, s: Scene)
    ensures Unmet(d, desk, a, s).None? <==> Demands(d, desk, a, s)
  {
    hide Meets;
  }

  /** The one request a call may change: an approval over an hour old that is presented and needed expires. */
  lemma ExpiredExactly(desk: Desk, a: Ask, s: Scene, id: int)
    ensures var after := RequestsAfter(desk, a, s);
      && (id in after <==> id in desk.requests)
      && (id in after ==>
            var q := desk.requests[id];
            var expires :=
              && Address(desk, a, s).None? && id == a.accessRequestId > 0
              && NeedsApproval(DecisionFor(desk, a, s), s)
              && !Fails(OutsideWindow, desk, a, s) && !Fails(JustificationRequired, desk, a, s)
              && q.status == "approved" && q.reviewedAt.Some? && q.reviewedAt.value + 3600 < s.now;
            after[id] == if expires then q.(status := "expired") else q)
  {
    hide Decide, Applied, NeedsApproval;
  }

  // ---- which refusal is given ----

  /** Whether the check behind a refusal fails, each said on its own. */
  predicate Fails(why: Refusal, desk: Desk, a: Ask, s: Scene) {
    match why
    case MissingField => a.target == "" || a.user == "" || a.protocol == ""
    case BadPort => !(1 <= a.port <= 65535)
    case TooLong => |a.justification| > 280 || |a.ticketId| > 80 || |a.purpose| > 120 || |a.purposeEvidence| > 280
    case NoResource => a.resourceId <= 0
    case UnknownResource => a.resourceId !in desk.resources
    case Forbidden => !(s.auth.mayManage || a.resourceId in s.permitted)
    case Mismatch =>
      && a.resourceId in desk.resources
      && var r := desk.resources[a.resourceId]; (r.target, r.protocol, r.port) != (a.target, a.protocol, a.port)
    case _ => a.resourceId in desk.resources && Denies(why, DecisionFor(desk, a, s), desk, a, s)
  }

  predicate Denies(why: Refusal, d: Decision, desk: Desk, a: Ask, s: Scene) {
    var known := a.accessRequestId in desk.requests;
    match why
    case OutsideWindow => d.denied.Some?
    case JustificationRequired => d.requireJustification && a.justification == ""
    case ApprovalRequired => NeedsApproval(d, s) && a.accessRequestId <= 0
    case UnknownRequest => NeedsApproval(d, s) && !known
    case NotApproved =>
      NeedsApproval(d, s) && known
      && var q := desk.requests[a.accessRequestId];
         q.status != "approved" || (q.reviewedAt.Some? && q.reviewedAt.value + 3600 < s.now)
    case ScopeMismatch =>
      NeedsApproval(d, s) && known
      && var q := desk.requests[a.accessRequestId]; q.requester != s.auth.user || q.resourceId != a.resourceId
    case TicketRequired => d.ticketRequired && a.ticketId == ""
    case TicketRefused => a.ticketId != "" && !s.ticketOpen(a.ticketId)
    case PurposeRequired => d.purposeRequired && a.purpose == ""
    case FactorRequired => !Meets(s.account, d.mfa)
    case RelayRequired => d.routing == "relay" && a.resourceId !in desk.relays
    case Contained => desk.contained && a.justification == ""
    case _ => false
  }

  /** The order the checks are made in. */
  function Place(why: Refusal): nat {
    match why
    case MissingField => 0
    case BadPort => 1
    case TooLong => 2
    case NoResource => 3
    case UnknownResource => 4
    case Forbidden => 5
    case Mismatch => 6
    case OutsideWindow => 7
    case JustificationRequired => 8
    case ApprovalRequired => 9
    case UnknownRequest => 10
    case NotApproved => 11
    case ScopeMismatch => 12
    case TicketRequired => 13
    case TicketRefused => 14
    case PurposeRequired => 15
    case FactorRequired => 16
    case RelayRequired => 17
    case Contained => 18
  }

  /** The refusal given is that of the first check that fails, and there is none when no check does. */
  lemma FirstFailed(desk: Desk, a: Ask, s: Scene)
    ensures Verdict(desk, a, s).None? <==> forall why :: !Fails(why, desk, a, s)
    ensures Verdict(desk, a, s).Some? ==>
      var why := Verdict(desk, a, s).value;
      Fails(why, desk, a, s) && forall other :: Place(other) < Place(why) ==> !Fails(other, desk, a, s)
  {
    hide Address, Unmet, Denies, Decide, Applied;
    AddressFirst(desk, a, s);
    if Address(desk, a, s).None? {
      Known(desk, a, s);
      var d := DecisionFor(desk, a, s);
      DenialFirst(d, desk, a, s);
      forall why ensures Fails(why, desk, a, s) <==> Denies(why, d, desk, a, s) {
        AddressedDenies(why, desk, a, s);
      }
    }
  }

  lemma AddressFirst(desk: Desk, a: Ask, s: Scene)
    ensures Address(desk, a, s).None? <==> forall why :: Place(why) <= 6 ==> !Fails(why, desk, a, s)
    ensures Address(desk, a, s).Some? ==>
      var why := Address(desk, a, s).value;
      && Place(why) <= 6 && Fails(why, desk, a, s)
      && forall other :: Place(other) < Place(why) ==> !Fails(other, desk, a, s)
  {
    hide Denies, Decide, Applied;
  }

  lemma AddressedDenies(why: Refusal, desk: Desk, a: Ask, s: Scene)
    requires Address(desk, a, s).None?
    ensures a.resourceId in desk.resources
    ensures Fails(why, desk, a, s) <==> Denies(why, DecisionFor(desk, a, s), desk, a, s)
  {
    hide Decide, Applied, Meets;
    if Place(why) <= 6 { AddressFirst(desk, a, s); }
  }

  lemma DenialFirst(d: Decision, desk: Desk, a: Ask, s: Scene)
    ensures Unmet(d, desk, a, s).None? <==> forall why :: !Denies(why, d, desk, a, s)
    ensures Unmet(d, desk, a, s).Some? ==>
      var why := Unmet(d, desk, a, s).value;
      Denies(why, d, desk, a, s) && forall other :: Place(other) < Place(why) ==> !Denies(other, d, desk, a, s)
  {
    hide Meets, NeedsApproval, Aged, Approval, First, Last;
    FirstDenial(d, desk, a, s);
    ApprovalDenial(d, desk, a, s);
    LastDenial(d, desk, a, s);
    if Unmet(d, desk, a, s).None? {
      forall why ensures !Denies(why, d, desk, a, s) {
        if Place(why) < 7 { assert !Denies(why, d, desk, a, s); }
      }
    } else {
      var why := Unmet(d, desk, a, s).value;
      forall other | Place(other) < Place(why) ensures !Denies(other, d, desk, a, s) {
        if Place(other) < 7 { assert !Denies(other, d, desk, a, s); }
      }
    }
  }

  /** `refusal` is the first of the denials of places `from` to `to`, or there is none. */
  ghost predicate FirstOf(refusal: Option<Refusal>, from: nat, to: nat, d: Decision, desk: Desk, a: Ask, s: Scene) {
    match refusal
    case None => forall why :: from <= Place(why) <= to ==> !Denies(why, d, desk, a, s)
    case Some(why) =>
      && from <= Place(why) <= to && Denies(why, d, desk, a, s)
      && forall other :: from <= Place(other) < Place(why) ==> !Denies(other, d, desk, a, s)
  }

  lemma FirstDenial(d: Decision, desk: Desk, a: Ask, s: Scene)
    ensures FirstOf(First(d, a), 7, 8, d, desk, a, s)
  {
  }

  lemma ApprovalDenial(d: Decision, desk: Desk, a: Ask, s: Scene)
    ensures FirstOf(if NeedsApproval(d, s) then Approval(desk.requests, a, s) else None, 9, 12, d, desk, a, s)
  {
    hide NeedsApproval;
  }

  lemma LastDenial(d: Decision, desk: Desk, a: Ask, s: Scene)
    ensures FirstOf(Last(d, desk.relays, desk.contained, a, s), 13, 18, d, desk, a, s)
  {
    hide Meets;
  }

  /** What one applied policy asks of the request. */
  predicate Honoured(p: Policy, desk: Desk, a: Ask, s: Scene, duration: int) {
    && s.inWindow(p.timeWindow)
    && (p.requireJustification ==> a.justification != "")
    && (p.ticketRequired ==> a.ticketId != "" && s.ticketOpen(a.ticketId))
    && (ForcesApproval(p) ==> s.auth.mayReview || Approved(desk.requests, a, s))
    && (p.maxDuration > 0 ==> duration <= p.maxDuration)
  }

  /** A session is opened only when the resource and every applied policy, whatever their order, are honoured. */
  lemma OpenedHonoursAll(desk: Desk, a: Ask, s: Scene)
    requires Verdict(desk, a, s).None? && forall p :: p in desk.policies ==> p.id > 0
    ensures var d := DecisionFor(desk, a, s); var r := desk.resources[a.resourceId].protection;
      && (forall p :: p in Applied(desk.policies, s.applies) ==> Honoured(p, desk, a, s, d.maxDuration))
      && 0 < d.maxDuration <= DEFAULT_DURATION
      && (r.justification ==> a.justification != "")
      && (r.dualApproval ==> s.auth.mayReview || Approved(desk.requests, a, s))
      && (Risky(r) ==> a.purpose != "" && (r.adaptive ==> a.ticketId != ""))
  {
    hide Decide, Applied, Meets, ForcesApproval, Unmet, Approved, Risky;
    var d := DecisionFor(desk, a, s);
    var r := desk.resources[a.resourceId].protection;
    var applied := Applied(desk.policies, s.applies);
    UnmetExactly(d, desk, a, s);
    AppliedMembers(desk.policies, s.applies);
    DecisionMeans(r, applied, s.inWindow);
    DurationIsShortest(r, applied, s.inWindow);
    forall p | p in applied ensures Honoured(p, desk, a, s, d.maxDuration) {
      assert Live(p, applied, s.inWindow);
    }
  }

  /** Of the policies in force the first with a routing constraint asks for `route`. */
  ghost predicate RoutesFirst(applied: seq<Policy>, inWindow: string -> bool, route: string) {
    exists i :: 0 <= i < |applied| && RoutedNow(applied[i], inWindow) && Lower(applied[i].routing) == route
      && forall j :: 0 <= j < i ==> !RoutedNow(applied[j], inWindow)
  }

  /** A decision is routed through a relay exactly when the first routed policy says so. */
  lemma RelayExactly(r: Protection, applied: seq<Policy>, inWindow: string -> bool)
    ensures Decide(r, applied, inWindow).routing == "relay" <==> RoutesFirst(applied, inWindow, "relay")
  {
    hide Lower, Decide;
    RoutingIsFirst(r, applied, inWindow);
    if RoutesFirst(applied, inWindow, "relay") {
      var i :| 0 <= i < |applied| && RoutedNow(applied[i], inWindow) && Lower(applied[i].routing) == "relay"
        && forall j :: 0 <= j < i ==> !RoutedNow(applied[j], inWindow);
      forall k |
        && 0 <= k < |applied| && RoutedNow(applied[k], inWindow)
        && forall j :: 0 <= j < k ==> !RoutedNow(applied[j], inWindow)
        ensures k == i
      {
      }
    }
  }

  /** The factor a decision demands, by what its policies ask for. */
  lemma RankExactly(r: Protection, applied: seq<Policy>, inWindow: string -> bool)
    ensures Rank(Decide(r, applied, inWindow).mfa) == 3 <==> AsksRank(applied, inWindow, 3)
    ensures Rank(Decide(r, applied, inWindow).mfa) == 2 <==>
      AsksRank(applied, inWindow, 2) && !AsksRank(applied, inWindow, 3)
  {
    hide Rank, Live, Decide;
    var d := Decide(r, applied, inWindow);
    FactorIsStrongest(r, applied, inWindow);
    AnyRanksOne();
    RankBound(d.mfa);
    forall p | Live(p, applied, inWindow) ensures Rank(p.mfa) <= 3 { RankBound(p.mfa); }
  }

  /**
   With more policies a request is let through that fewer refuse exactly where a
   policy asking for a security key came to stand for the code it lacks, or one
   with another routing comes before the relay it is not bound to.
   */
  lemma MorePoliciesRefuseMore(desk: Desk, r: Protection, p: seq<Policy>, q: seq<Policy>, a: Ask, s: Scene)
    requires Subset(p, q) && forall x :: x in q ==> x.id > 0
    requires Unmet(Decide(r, q, s.inWindow), desk, a, s).None?
    ensures Unmet(Decide(r, p, s.inWindow), desk, a, s).Some? <==>
      || (AsksRank(p, s.inWindow, 2) && !AsksRank(p, s.inWindow, 3) && AsksRank(q, s.inWindow, 3) && !s.account.totp)
      || (RoutesFirst(p, s.inWindow, "relay") && !RoutesFirst(q, s.inWindow, "relay") && a.resourceId !in desk.relays)
  {
    hide Decide, Meets, Rank, Unmet, Approved, AsksRank, RoutesFirst, Live;
    var fewer, more := Decide(r, p, s.inWindow), Decide(r, q, s.inWindow);
    MoreDemandMore(r, p, q, s.inWindow);
    UnmetExactly(fewer, desk, a, s);
    UnmetExactly(more, desk, a, s);
    FactorIsStrongest(r, p, s.inWindow);
    FactorIsStrongest(r, q, s.inWindow);
    KeptFactor(r, p, s.inWindow);
    KeptFactor(r, q, s.inWindow);
    MeetsByRank(s.account, fewer.mfa);
    MeetsByRank(s.account, more.mfa);
    RankBound(fewer.mfa);
    RankBound(more.mfa);
    RankExactly(r, p, s.inWindow);
    RankExactly(r, q, s.inWindow);
    RelayExactly(r, p, s.inWindow);
    RelayExactly(r, q, s.inWindow);
  }

  lemma KeptFactor(r: Protection, applied: seq<Policy>, inWindow: string -> bool)
    ensures var d := Decide(r, applied, inWindow); d.mfa == "any" || Rank(d.mfa) >= 2
  {
    hide Decide, Rank, Live;
    FactorIsStrongest(r, applied, inWindow);
  }

  // ---- a policy that lets a refused request through ----

  const CODE_POLICY := Policy(1, "code", false, false, "inherit", "totp", "any", 0, "any")
  const KEY_POLICY := Policy(2, "key", false, false, "inherit", "webauthn", "any", 0, "any")
  const OPEN_DESK := Desk(map[], [], map[], {}, false)

  function KeyHolder(): Scene {
    Scene(Auth("u", false, false), Account(false, 1), {}, (p: Policy) => true, (w: string) => true,
          (t: string) => true, 0)
  }

  lemma FactorRanks()
    ensures Rank("any") == 1 && Rank("totp") == 2 && Rank("webauthn") == 3
  {
    AnyRanksOne();
    assert Trim("totp") == "totp" && Lower("totp") == "totp";
    assert Trim("webauthn") == "webauthn" && Lower("webauthn") == "webauthn";
  }

  lemma PlainDecisions()
    ensures var r := Protection(false, false, "low", false); var now := KeyHolder().inWindow;
      var one, two := Decide(r, [CODE_POLICY], now), Decide(r, [CODE_POLICY, KEY_POLICY], now);
      && one.mfa == "totp" && two.mfa == "webauthn"
      && one.denied.None? && two.denied.None? && one.routing == two.routing == "any"
      && !one.requireJustification && !one.ticketRequired && !one.approvalRequired && !one.purposeRequired
      && !two.requireJustification && !two.ticketRequired && !two.approvalRequired && !two.purposeRequired
  {
    hide Rank;
    var r := Protection(false, false, "low", false);
    var now := KeyHolder().inWindow;
    FactorRanks();
    assert Lower("low") == "low" && Lower("any") == "any" && Lower("inherit") == "inherit";
    assert [CODE_POLICY, KEY_POLICY][..1] == [CODE_POLICY] && [CODE_POLICY][..0] == [];
    assert Base(r).mfa == "any" && !Risky(r);
    DecideNext(r, [], CODE_POLICY, now);
    assert [] + [CODE_POLICY] == [CODE_POLICY];
    DecideNext(r, [CODE_POLICY], KEY_POLICY, now);
    assert [CODE_POLICY] + [KEY_POLICY] == [CODE_POLICY, KEY_POLICY];
  }

  /**
   A user with a security key and no code is refused under a code policy, and let through once a key
   policy is added.
   */
  lemma AddedPolicyOpens()
    ensures var r := Protection(false, false, "low", false);
      var s, a := KeyHolder(), Ask("t", "u", "ssh", 22, "", "", "", "", 1, 0);
      && Unmet(Decide(r, [CODE_POLICY], s.inWindow), OPEN_DESK, a, s) == Some(FactorRequired)
      && Unmet(Decide(r, [CODE_POLICY, KEY_POLICY], s.inWindow), OPEN_DESK, a, s).None?
  {
    hide Decide, Rank;
    PlainDecisions();
    FactorRanks();
    var s := KeyHolder();
    MeetsByRank(s.account, "totp");
    MeetsByRank(s.account, "webauthn");
  }
}
