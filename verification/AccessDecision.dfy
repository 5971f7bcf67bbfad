/**
 The fold of access policies into one decision, and what it demands of whoever
 opens a session.
 */
module AccessDecision {
  import opened Ascii
  import opened Options

  datatype Policy = Policy(
    id: int,
    name: string,
    requireJustification: bool,
    ticketRequired: bool,
    approvalMode: string,
    mfa: string,
    timeWindow: string,
    maxDuration: int,
    routing: string)

  datatype Protection = Protection(justification: bool, dualApproval: bool, riskLevel: string, adaptive: bool)

  datatype Decision = Decision(
    requireJustification: bool,
    ticketRequired: bool,
    approvalRequired: bool,
    purposeRequired: bool,
    mfa: string,
    routing: string,
    maxDuration: int,
    selected: int,
    matched: seq<int>,
    denied: Option<Policy>)

  const DEFAULT_DURATION := 3600

  // ---- second factors ----

  datatype Account = Account(totp: bool, webauthnCredentials: nat)

  function Rank(requirement: string): nat {
    var r := Normalized(requirement);
    if r == "webauthn" then 3 else if r == "totp" then 2 else if r == "any" || r == "required" then 1 else 0
  }

  function Stronger(a: string, b: string): string { if Rank(b) > Rank(a) then b else a }

  predicate Meets(account: Account, requirement: string) {
    var r := Normalized(requirement);
    if r == "" || r == "any" then true
    else if r == "required" then account.totp || account.webauthnCredentials > 0
    else if r == "totp" then account.totp
    else if r == "webauthn" then account.webauthnCredentials > 0
    else true
  }

  // ---- the fold ----

  function Ids(policies: seq<Policy>): set<int> { set p | p in policies :: p.id }

  /** The policies that concern the request, each id once. */
  function Applied(policies: seq<Policy>, applies: Policy -> bool): seq<Policy>
    decreases |policies|
  {
    if policies == [] then []
    else
      var n := |policies| - 1;
      var before := Applied(policies[..n], applies);
      if applies(policies[n]) && policies[n].id !in Ids(before) then before + [policies[n]] else before
  }

  predicate Risky(r: Protection) { Lower(r.riskLevel) == "high" || Lower(r.riskLevel) == "critical" }

  function Base(r: Protection): Decision {
    Decision(r.justification, r.adaptive && Risky(r), r.dualApproval, Risky(r), "any", "any", DEFAULT_DURATION, 0, [],
             None)
  }

  predicate Routed(p: Policy) { Lower(p.routing) != "" && Lower(p.routing) != "any" }

  predicate ForcesApproval(p: Policy) { Lower(p.approvalMode) == "required" }

  function Absorb(d: Decision, p: Policy): Decision {
    var shorter := p.maxDuration > 0 && (d.maxDuration <= 0 || p.maxDuration < d.maxDuration);
    Decision(
      d.requireJustification || p.requireJustification,
      d.ticketRequired || p.ticketRequired,
      d.approvalRequired || ForcesApproval(p),
      d.purposeRequired,
      Stronger(d.mfa, p.mfa),
      if Routed(p) && d.routing == "any" then Lower(p.routing) else d.routing,
      if shorter then p.maxDuration else d.maxDuration,
      if shorter || d.selected == 0 then p.id else d.selected,
      d.matched + [p.id],
      d.denied)
  }

  /** Outside its window a policy only closes the access. */
  function Deny(d: Decision, p: Policy): Decision {
    if d.denied.None? then d.(denied := Some(p)) else d
  }

  function Decide(r: Protection, applied: seq<Policy>, inWindow: string -> bool): Decision
    decreases |applied|
  {
    if applied == [] then Base(r)
    else
      var n := |applied| - 1;
      var before := Decide(r, applied[..n], inWindow);
      if inWindow(applied[n].timeWindow) then Absorb(before, applied[n]) else Deny(before, applied[n])
  }

  /** What one applied policy changes. */
  method Apply(d0: Decision, p: Policy, inWindow: string -> bool) returns (d: Decision)
    ensures d == if inWindow(p.timeWindow) then Absorb(d0, p) else Deny(d0, p)
  {
    hide Lower, Stronger, Routed, ForcesApproval;
    if !inWindow(p.timeWindow) {
      return if d0.denied.None? then d0.(denied := Some(p)) else d0;
    }
    var requireJustification, ticketRequired, approvalRequired :=
      d0.requireJustification, d0.ticketRequired, d0.approvalRequired;
    var routing, maxDuration, selected := d0.routing, d0.maxDuration, d0.selected;
    if selected == 0 {
      selected := p.id;
    }
    if p.requireJustification {
      requireJustification := true;
    }
    if p.ticketRequired {
      ticketRequired := true;
    }
    if ForcesApproval(p) {
      approvalRequired := true;
    }
    if p.maxDuration > 0 && (maxDuration <= 0 || p.maxDuration < maxDuration) {
      maxDuration, selected := p.maxDuration, p.id;
    }
    if Routed(p) && (routing == "any" || routing == Lower(p.routing)) {
      routing := Lower(p.routing);
    }
    d := Decision(requireJustification, ticketRequired, approvalRequired, d0.purposeRequired,
                  Stronger(d0.mfa, p.mfa), routing, maxDuration, selected, d0.matched + [p.id], d0.denied);
  }

  lemma AppliedNext(policies: seq<Policy>, applies: Policy -> bool, i: nat)
    requires i < |policies|
    ensures var before := Applied(policies[..i], applies);
      Applied(policies[..i + 1], applies) ==
        if applies(policies[i]) && policies[i].id !in Ids(before) then before + [policies[i]] else before
  {
    assert policies[..i + 1][..i] == policies[..i];
  }

  lemma DecideNext(r: Protection, applied: seq<Policy>, p: Policy, inWindow: string -> bool)
    ensures var before := Decide(r, applied, inWindow);
      Decide(r, applied + [p], inWindow) == if inWindow(p.timeWindow) then Absorb(before, p) else Deny(before, p)
  {
    hide Absorb, Deny;
    assert (applied + [p])[..|applied|] == applied;
  }

  lemma IdsNext(applied: seq<Policy>, p: Policy)
    ensures Ids(applied + [p]) == Ids(applied) + {p.id}
  {}

  /** build_access_decision, in the order the policies are stored. */
  method BuildAccessDecision(r: Protection, policies: seq<Policy>, applies: Policy -> bool, inWindow: string -> bool)
    returns (d: Decision)
    ensures d == Decide(r, Applied(policies, applies), inWindow)
  {
    hide Applied, Decide, Absorb, Deny, Ids, Base;
    Nothing(r, applies, inWindow);
    d := Base(r);
    var appliedIds: set<int> := {};
    var i := 0;
    while i < |policies|
      invariant 0 <= i <= |policies|
      invariant appliedIds == Ids(Applied(policies[..i], applies))
      invariant d == Decide(r, Applied(policies[..i], applies), inWindow)
    {
      var p := policies[i];
      AppliedNext(policies, applies, i);
      if applies(p) && p.id !in appliedIds {
        ghost var before := Applied(policies[..i], applies);
        DecideNext(r, before, p, inWindow);
        IdsNext(before, p);
        appliedIds := appliedIds + {p.id};
        d := Apply(d, p, inWindow);
      }
      i := i + 1;
    }
    assert policies[..i] == policies;
  }

  lemma Nothing(r: Protection, applies: Policy -> bool, inWindow: string -> bool)
    ensures Applied([], applies) == [] && Ids([]) == {} && Decide(r, [], inWindow) == Base(r)
  {}

  // ---- what the decision means ----

  lemma {:induction false} AppliedMembers(policies: seq<Policy>, applies: Policy -> bool)
    ensures forall p :: p in Applied(policies, applies) ==> p in policies && applies(p)
    ensures Ids(Applied(policies, applies)) == set p | p in policies && applies(p) :: p.id
    decreases |policies|
  {
    if policies != [] {
      var n := |policies| - 1;
      AppliedMembers(policies[..n], applies);
      assert policies == policies[..n] + [policies[n]];
      var before := Applied(policies[..n], applies);
      IdsNext(before, policies[n]);
    }
  }

  /** With ids a key, as in the policy table, every policy that applies is applied. */
  lemma AppliedExactly(policies: seq<Policy>, applies: Policy -> bool, p: Policy)
    requires forall a, b :: a in policies && b in policies && a.id == b.id ==> a == b
    ensures p in Applied(policies, applies) <==> p in policies && applies(p)
  {
    AppliedMembers(policies, applies);
    if p in policies && applies(p) {
      assert p.id in Ids(Applied(policies, applies));
    }
  }

  predicate Live(p: Policy, applied: seq<Policy>, inWindow: string -> bool) {
    p in applied && inWindow(p.timeWindow)
  }

  ghost predicate AllInWindow(applied: seq<Policy>, inWindow: string -> bool) {
    forall p :: p in applied ==> inWindow(p.timeWindow)
  }

  ghost predicate AsksJustification(applied: seq<Policy>, inWindow: string -> bool) {
    exists p :: Live(p, applied, inWindow) && p.requireJustification
  }

  ghost predicate AsksTicket(applied: seq<Policy>, inWindow: string -> bool) {
    exists p :: Live(p, applied, inWindow) && p.ticketRequired
  }

  ghost predicate AsksApproval(applied: seq<Policy>, inWindow: string -> bool) {
    exists p :: Live(p, applied, inWindow) && ForcesApproval(p)
  }

  /** Every demand of the decision is one of the resource or of an applied policy, and the converse. */
  ghost predicate Means(d: Decision, r: Protection, applied: seq<Policy>, inWindow: string -> bool) {
    && (d.denied.None? <==> AllInWindow(applied, inWindow))
    && (d.requireJustification <==> r.justification || AsksJustification(applied, inWindow))
    && (d.ticketRequired <==> (r.adaptive && Risky(r)) || AsksTicket(applied, inWindow))
    && (d.approvalRequired <==> r.dualApproval || AsksApproval(applied, inWindow))
    && (d.purposeRequired <==> Risky(r))
  }

  ghost predicate ShortestOf(d: Decision, applied: seq<Policy>, inWindow: string -> bool) {
    && 0 < d.maxDuration <= DEFAULT_DURATION
    && (forall p :: Live(p, applied, inWindow) && p.maxDuration > 0 ==> d.maxDuration <= p.maxDuration)
    && (d.maxDuration < DEFAULT_DURATION ==>
        exists p :: Live(p, applied, inWindow) && p.maxDuration == d.maxDuration && 0 < p.id == d.selected)
  }

  ghost predicate StrongestOf(d: Decision, applied: seq<Policy>, inWindow: string -> bool) {
    && (forall p :: Live(p, applied, inWindow) ==> Rank(p.mfa) <= Rank(d.mfa))
    && (d.mfa == "any" || exists p :: Live(p, applied, inWindow) && p.mfa == d.mfa && Rank(p.mfa) >= 2)
  }

  lemma LiveNext(applied: seq<Policy>, p: Policy, q: Policy, inWindow: string -> bool)
    ensures Live(q, applied + [p], inWindow) <==> Live(q, applied, inWindow) || (q == p && inWindow(p.timeWindow))
  {}

  lemma LiveNextAll(applied: seq<Policy>, p: Policy, inWindow: string -> bool)
    ensures forall q :: Live(q, applied + [p], inWindow) <==>
      Live(q, applied, inWindow) || (q == p && inWindow(p.timeWindow))
  {
    forall q { LiveNext(applied, p, q, inWindow); }
  }

  lemma AllInWindowNext(applied: seq<Policy>, p: Policy, inWindow: string -> bool)
    ensures AllInWindow(applied + [p], inWindow) <==> AllInWindow(applied, inWindow) && inWindow(p.timeWindow)
  {
    assert AllInWindow(applied + [p], inWindow) ==>
      p in applied + [p] && forall q :: q in applied ==> q in applied + [p];
  }

  lemma AsksNext(applied: seq<Policy>, p: Policy, inWindow: string -> bool)
    ensures var next, now := applied + [p], inWindow(p.timeWindow);
      && (AsksJustification(next, inWindow) <==>
        AsksJustification(applied, inWindow) || (now && p.requireJustification))
      && (AsksTicket(next, inWindow) <==> AsksTicket(applied, inWindow) || (now && p.ticketRequired))
      && (AsksApproval(next, inWindow) <==> AsksApproval(applied, inWindow) || (now && ForcesApproval(p)))
  {
    hide Live, ForcesApproval;
    LiveNextAll(applied, p, inWindow);
  }

  lemma {:induction false} DecisionMeans(r: Protection, applied: seq<Policy>, inWindow: string -> bool)
    ensures Means(Decide(r, applied, inWindow), r, applied, inWindow)
    decreases |applied|
  {
    hide AllInWindow, AsksJustification, AsksTicket, AsksApproval, ForcesApproval, Stronger, Lower, Routed, Decide;
    if applied == [] {
      NothingAsked(r, inWindow);
    } else {
      var n := |applied| - 1;
      var before, p := applied[..n], applied[n];
      assert applied == before + [p];
      DecisionMeans(r, before, inWindow);
      DecideNext(r, before, p, inWindow);
      AllInWindowNext(before, p, inWindow);
      AsksNext(before, p, inWindow);
    }
  }

  lemma NothingAsked(r: Protection, inWindow: string -> bool)
    ensures Means(Base(r), r, [], inWindow) && Decide(r, [], inWindow) == Base(r)
  {
    hide Lower;
  }

  lemma NobodyLive(inWindow: string -> bool)
    ensures forall q :: !Live(q, [], inWindow)
  {}

  /** Some policy in force has this id. */
  ghost predicate LiveId(applied: seq<Policy>, inWindow: string -> bool, id: int) {
    exists p :: Live(p, applied, inWindow) && p.id == id
  }

  /**
   The ids recorded as matched are those in force, and the policy blamed for a denial is an applied one
   out of its window.
   */
  ghost predicate Records(d: Decision, applied: seq<Policy>, inWindow: string -> bool) {
    && (forall id :: id in d.matched <==> LiveId(applied, inWindow, id))
    && (d.denied.Some? ==> d.denied.value in applied && !inWindow(d.denied.value.timeWindow))
  }

  lemma LiveIdNext(applied: seq<Policy>, p: Policy, inWindow: string -> bool, id: int)
    ensures LiveId(applied + [p], inWindow, id) <==>
      LiveId(applied, inWindow, id) || (inWindow(p.timeWindow) && p.id == id)
  {
    hide Live;
    LiveNextAll(applied, p, inWindow);
  }

  lemma {:induction false} DecisionRecords(r: Protection, applied: seq<Policy>, inWindow: string -> bool)
    ensures Records(Decide(r, applied, inWindow), applied, inWindow)
    decreases |applied|
  {
    hide LiveId, Live, ForcesApproval, Stronger, Lower, Routed, Decide;
    if applied == [] {
      NothingAsked(r, inWindow);
      NoLiveId(inWindow);
    } else {
      var n := |applied| - 1;
      var before, p := applied[..n], applied[n];
      assert applied == before + [p];
      DecisionRecords(r, before, inWindow);
      DecideNext(r, before, p, inWindow);
      forall id
        ensures LiveId(applied, inWindow, id) <==>
          LiveId(before, inWindow, id) || (inWindow(p.timeWindow) && p.id == id)
      {
        LiveIdNext(before, p, inWindow, id);
      }
    }
  }

  lemma NoLiveId(inWindow: string -> bool)
    ensures forall id :: !LiveId([], inWindow, id)
  {}

  /** The duration is the least of 3600 and the positive maxima, and names the policy it comes from. */
  lemma {:induction false} DurationIsShortest(r: Protection, applied: seq<Policy>, inWindow: string -> bool)
    requires forall p :: p in applied ==> p.id > 0
    ensures ShortestOf(Decide(r, applied, inWindow), applied, inWindow)
    decreases |applied|
  {
    hide Live, ForcesApproval, Stronger, Lower;
    if applied != [] {
      var n := |applied| - 1;
      assert applied == applied[..n] + [applied[n]];
      DurationIsShortest(r, applied[..n], inWindow);
      LiveNextAll(applied[..n], applied[n], inWindow);
    } else {
      NobodyLive(inWindow);
    }
  }

  lemma AnyRanksOne()
    ensures Rank("any") == 1
  {
    assert Trim("any") == "any";
    assert Lower("any") == "any";
  }

  /** The second factor is the highest ranked, "any" and "required" being equals. */
  lemma {:induction false} FactorIsStrongest(r: Protection, applied: seq<Policy>, inWindow: string -> bool)
    ensures StrongestOf(Decide(r, applied, inWindow), applied, inWindow)
    decreases |applied|
  {
    hide Live, ForcesApproval, Rank, Lower;
    AnyRanksOne();
    if applied != [] {
      var n := |applied| - 1;
      assert applied == applied[..n] + [applied[n]];
      FactorIsStrongest(r, applied[..n], inWindow);
      LiveNextAll(applied[..n], applied[n], inWindow);
      var before := Decide(r, applied[..n], inWindow);
      assert Rank(before.mfa) >= 1;
    } else {
      NobodyLive(inWindow);
    }
  }

  // ---- second factors: what is demanded, exactly ----

  lemma MeetsByRank(account: Account, requirement: string)
    requires requirement == "any" || Rank(requirement) >= 2
    ensures Meets(account, requirement) <==>
      (Rank(requirement) == 3 ==> account.webauthnCredentials > 0) && (Rank(requirement) == 2 ==> account.totp)
  {
    if requirement == "any" {
      AnyRanksOne();
      assert Normalized("any") == "any" by { assert Trim("any") == "any" && Lower("any") == "any"; }
    }
  }

  lemma MeetsOwn(account: Account, requirement: string)
    ensures Rank(requirement) == 3 ==> (Meets(account, requirement) <==> account.webauthnCredentials > 0)
    ensures Rank(requirement) == 2 ==> (Meets(account, requirement) <==> account.totp)
    ensures Rank(requirement) <= 1 ==> (Meets(account, requirement) <==>
      (Required(requirement) ==> account.totp || account.webauthnCredentials > 0))
    ensures Required(requirement) ==> Rank(requirement) == 1
  {}

  predicate Required(requirement: string) { Normalized(requirement) == "required" }

  /** Some policy in force asks for the given rank. */
  ghost predicate AsksRank(applied: seq<Policy>, inWindow: string -> bool, rank: nat) {
    exists p :: Live(p, applied, inWindow) && Rank(p.mfa) == rank
  }

  ghost predicate AsksRequired(applied: seq<Policy>, inWindow: string -> bool) {
    exists p :: Live(p, applied, inWindow) && Required(p.mfa)
  }

  /** Passing the decision's check means meeting every policy's own requirement. */
  ghost predicate FactorsCovered(d: Decision, applied: seq<Policy>, inWindow: string -> bool) {
    forall account, p :: Meets(account, d.mfa) && Live(p, applied, inWindow) ==> Meets(account, p.mfa)
  }

  lemma CoveredIf(d: Decision, applied: seq<Policy>, inWindow: string -> bool, account: Account, p: Policy)
    requires StrongestOf(d, applied, inWindow) && Live(p, applied, inWindow) && Meets(account, d.mfa)
    requires !(AsksRank(applied, inWindow, 3) && AsksRank(applied, inWindow, 2))
    requires AsksRequired(applied, inWindow) ==> AsksRank(applied, inWindow, 3) || AsksRank(applied, inWindow, 2)
    ensures Meets(account, p.mfa)
  {
    hide Live, Rank, Meets, Required;
    AnyRanksOne();
    RankBound(p.mfa);
    RankBound(d.mfa);
    MeetsOwn(account, p.mfa);
    MeetsByRank(account, d.mfa);
  }

  lemma OnlyIfCovered(d: Decision, applied: seq<Policy>, inWindow: string -> bool)
    requires StrongestOf(d, applied, inWindow) && FactorsCovered(d, applied, inWindow)
    ensures !(AsksRank(applied, inWindow, 3) && AsksRank(applied, inWindow, 2))
    ensures AsksRequired(applied, inWindow) ==> AsksRank(applied, inWindow, 3) || AsksRank(applied, inWindow, 2)
  {
    hide Live, Rank, Meets, Required;
    AnyRanksOne();
    RankBound(d.mfa);
    if AsksRank(applied, inWindow, 3) && AsksRank(applied, inWindow, 2) {
      var p :| Live(p, applied, inWindow) && Rank(p.mfa) == 2;
      var keyOnly := Account(false, 1);
      MeetsOwn(keyOnly, p.mfa);
      MeetsByRank(keyOnly, d.mfa);
    }
    if AsksRequired(applied, inWindow) && d.mfa == "any" {
      var p :| Live(p, applied, inWindow) && Required(p.mfa);
      var nothing := Account(false, 0);
      MeetsOwn(nothing, p.mfa);
      MeetsByRank(nothing, d.mfa);
    }
  }

  /**
   The one requirement kept covers all of them, except when both "webauthn" and
   "totp" are asked for (the first replaces the second) or only "required" is
   (which ranks with "any" and so is dropped).
   */
  lemma FactorsCoveredExactly(r: Protection, applied: seq<Policy>, inWindow: string -> bool)
    ensures FactorsCovered(Decide(r, applied, inWindow), applied, inWindow) <==>
      && !(AsksRank(applied, inWindow, 3) && AsksRank(applied, inWindow, 2))
      && (AsksRequired(applied, inWindow) ==> AsksRank(applied, inWindow, 3) || AsksRank(applied, inWindow, 2))
  {
    hide Live, Rank, Meets, Required, Decide, AsksRank, AsksRequired, StrongestOf;
    var d := Decide(r, applied, inWindow);
    FactorIsStrongest(r, applied, inWindow);
    if FactorsCovered(d, applied, inWindow) {
      OnlyIfCovered(d, applied, inWindow);
    } else {
      var account, p :| Meets(account, d.mfa) && Live(p, applied, inWindow) && !Meets(account, p.mfa);
      if && !(AsksRank(applied, inWindow, 3) && AsksRank(applied, inWindow, 2))
         && (AsksRequired(applied, inWindow) ==> AsksRank(applied, inWindow, 3) || AsksRank(applied, inWindow, 2))
      {
        CoveredIf(d, applied, inWindow, account, p);
      }
    }
  }

  lemma RankBound(requirement: string)
    ensures Rank(requirement) <= 3
  {}

  // ---- routing ----

  predicate RoutedNow(p: Policy, inWindow: string -> bool) { inWindow(p.timeWindow) && Routed(p) }

  /** The constraint kept is that of the first policy in force that has one. */
  ghost predicate FirstRouting(d: Decision, applied: seq<Policy>, inWindow: string -> bool) {
    || (d.routing == "any" && forall i :: 0 <= i < |applied| ==> !RoutedNow(applied[i], inWindow))
    || exists i :: 0 <= i < |applied| && RoutedNow(applied[i], inWindow) && Lower(applied[i].routing) == d.routing
         && forall j :: 0 <= j < i ==> !RoutedNow(applied[j], inWindow)
  }

  lemma {:induction false} RoutingIsFirst(r: Protection, applied: seq<Policy>, inWindow: string -> bool)
    ensures FirstRouting(Decide(r, applied, inWindow), applied, inWindow)
    decreases |applied|
  {
    hide ForcesApproval, Stronger, Lower, Base;
    BaseRouting(r);
    if applied != [] {
      var n := |applied| - 1;
      RoutingIsFirst(r, applied[..n], inWindow);
      var before := Decide(r, applied[..n], inWindow);
      if before.routing == "any" {
        assert forall i :: 0 <= i < n ==> applied[..n][i] == applied[i];
        assert forall i :: 0 <= i < n ==> !RoutedNow(applied[..n][i], inWindow);
      } else {
        var i :| 0 <= i < n && RoutedNow(applied[..n][i], inWindow) && Lower(applied[..n][i].routing) == before.routing
         && forall j :: 0 <= j < i ==> !RoutedNow(applied[..n][j], inWindow);
        assert RoutedNow(applied[i], inWindow);
        assert forall j :: 0 <= j < i ==> applied[..n][j] == applied[j];
      }
    }
  }

  lemma BaseRouting(r: Protection)
    ensures Base(r).routing == "any"
  {}

  // ---- order, and more policies ----

  /** What two decisions demand, routing apart. */
  ghost predicate SameDemands(c: Decision, d: Decision) {
    && (c.denied.None? <==> d.denied.None?)
    && c.requireJustification == d.requireJustification && c.ticketRequired == d.ticketRequired
    && c.approvalRequired == d.approvalRequired && c.purposeRequired == d.purposeRequired
    && c.maxDuration == d.maxDuration
    && Rank(c.mfa) == Rank(d.mfa) && forall account :: Meets(account, c.mfa) == Meets(account, d.mfa)
  }

  ghost predicate Subset(a: seq<Policy>, b: seq<Policy>) { forall p :: p in a ==> p in b }

  lemma LiveSubset(a: seq<Policy>, b: seq<Policy>, inWindow: string -> bool)
    requires Subset(a, b)
    ensures forall p :: Live(p, a, inWindow) ==> Live(p, b, inWindow)
  {}

  /** Every demand of the first decision is one of the second, which may last less. */
  ghost predicate Within(c: Decision, d: Decision) {
    && (d.denied.None? ==> c.denied.None?)
    && (c.requireJustification ==> d.requireJustification) && (c.ticketRequired ==> d.ticketRequired)
    && (c.approvalRequired ==> d.approvalRequired) && c.purposeRequired == d.purposeRequired
    && d.maxDuration <= c.maxDuration
    && Rank(c.mfa) <= Rank(d.mfa)
  }

  /** More policies, wherever they come in the order, only add demands and shorten the session. */
  lemma MoreDemandMore(r: Protection, a: seq<Policy>, b: seq<Policy>, inWindow: string -> bool)
    requires Subset(a, b) && forall p :: p in b ==> p.id > 0
    ensures Within(Decide(r, a, inWindow), Decide(r, b, inWindow))
  {
    hide Live, Rank, ForcesApproval, Decide, Base;
    LiveSubset(a, b, inWindow);
    DecisionMeans(r, a, inWindow);
    DecisionMeans(r, b, inWindow);
    DurationIsShortest(r, a, inWindow);
    DurationIsShortest(r, b, inWindow);
    FactorIsStrongest(r, a, inWindow);
    FactorIsStrongest(r, b, inWindow);
    AnyRanksOne();
  }

  /** The demands are those of the set of policies, not of their order. */
  lemma OrderIndependent(r: Protection, a: seq<Policy>, b: seq<Policy>, inWindow: string -> bool)
    requires Subset(a, b) && Subset(b, a) && forall p :: p in b ==> p.id > 0
    ensures SameDemands(Decide(r, a, inWindow), Decide(r, b, inWindow))
  {
    hide Live, Rank, Meets, Decide;
    MoreDemandMore(r, a, b, inWindow);
    MoreDemandMore(r, b, a, inWindow);
    FactorIsStrongest(r, a, inWindow);
    FactorIsStrongest(r, b, inWindow);
    forall account ensures Meets(account, Decide(r, a, inWindow).mfa) == Meets(account, Decide(r, b, inWindow).mfa) {
      MeetsByRank(account, Decide(r, a, inWindow).mfa);
      MeetsByRank(account, Decide(r, b, inWindow).mfa);
    }
  }

  /** Routing is the exception: of two policies with different constraints the first wins. */
  lemma RoutingDependsOnOrder(r: Protection, p: Policy, q: Policy, inWindow: string -> bool)
    requires RoutedNow(p, inWindow) && RoutedNow(q, inWindow) && Lower(p.routing) != Lower(q.routing)
    ensures Decide(r, [p, q], inWindow).routing == Lower(p.routing)
    ensures Decide(r, [p, q], inWindow).routing != Decide(r, [q, p], inWindow).routing
  {
    RoutingIsFirst(r, [p, q], inWindow);
    RoutingIsFirst(r, [q, p], inWindow);
  }
}
