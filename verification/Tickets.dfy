/**
 Signed tickets of the file share service: their verification, and the replay
 guard that lets each one be exchanged once.
 Times are nanoseconds since the epoch; claims hold whole seconds.
 */
module Tickets {
  import opened Numerals
  import opened Options

  /** Clock drift allowed between the bastion and the file service. */
  const SKEW := 30 * SECOND

  /** time.Unix(): whole seconds, rounded down, also before the epoch. */
  function UnixSeconds(t: int): int { t / SECOND }

  datatype Claims = Claims(
    version: int,
    kind: string,
    user: string,
    userId: int,
    resource: int,
    sessionId: int,
    issuedAt: int,
    expires: int,
    sessionExpires: int,
    nonce: string)

  datatype Error = Malformed | BadSignature | Expired | OtherResource | Replayed

  datatype Checked = Good(claims: Claims) | Bad(error: Error)

  /** What decoding a ticket relies on: hex, the keyed MAC, base64url and JSON. */
  datatype Codec = Codec(
    unhex: string -> Option<string>,
    mac: string -> string,
    unbase64: string -> Option<string>,
    parse: string -> Option<Claims>)

  /** Position of the first '.', or the length when there is none. */
  function Dot(s: string): (n: nat)
    ensures n <= |s|
    ensures n < |s| ==> s[n] == '.'
    ensures forall i :: 0 <= i < n ==> s[i] != '.'
  {
    if s == "" || s[0] == '.' then 0 else 1 + Dot(s[1..])
  }

  /** The signed part of a ticket. */
  function Body(ticket: string): string { ticket[..Dot(ticket)] }

  function DecodeSigned(codec: Codec, ticket: string): Checked {
    var n := Dot(ticket);
    if |ticket| > 4096 then Bad(Malformed)
    else if n == |ticket| || n == 0 || n + 1 == |ticket| then Bad(Malformed)
    else
      var given := codec.unhex(ticket[n + 1..]);
      if given.None? then Bad(Malformed)
      else if given.value != codec.mac(Body(ticket)) then Bad(BadSignature)
      else
        var raw := codec.unbase64(Body(ticket));
        if raw.None? then Bad(Malformed)
        else
          var claims := codec.parse(raw.value);
          if claims.None? then Bad(Malformed) else Good(claims.value)
  }

  function VerifyTicket(codec: Codec, ticket: string, now: int): Checked {
    var decoded := DecodeSigned(codec, ticket);
    if decoded.Bad? then decoded
    else
      var c := decoded.claims;
      if c.version != 1 || c.kind != "" || c.user == "" || c.resource <= 0 || c.sessionId <= 0 || c.nonce == "" then
        Bad(Malformed)
      else if
        || c.issuedAt > UnixSeconds(now + SKEW)
        || c.expires < UnixSeconds(now - SKEW)
        || c.sessionExpires < UnixSeconds(now)
      then Bad(Expired)
      else decoded
  }

  function VerifyPurge(codec: Codec, ticket: string, now: int): Checked {
    var decoded := DecodeSigned(codec, ticket);
    if decoded.Bad? then decoded
    else
      var c := decoded.claims;
      if c.version != 1 || c.kind != "purge" || c.user == "" || c.resource <= 0 || c.nonce == "" then
        Bad(Malformed)
      else if c.issuedAt > UnixSeconds(now + SKEW) || c.expires < UnixSeconds(now - SKEW) then
        Bad(Expired)
      else decoded
  }

  /** A signed text is a body and its seal with a '.' between, and decodes to what the body says. */
  lemma SignedExactly(codec: Codec, ticket: string, c: Claims)
    ensures DecodeSigned(codec, ticket) == Good(c) <==>
      exists body, seal :: Sealed(codec, ticket, body, seal, c)
  {
    var n := Dot(ticket);
    if DecodeSigned(codec, ticket) == Good(c) {
      assert ticket == ticket[..n] + "." + ticket[n + 1..];
      assert Sealed(codec, ticket, ticket[..n], ticket[n + 1..], c);
    }
    if body, seal :| Sealed(codec, ticket, body, seal, c) {
      assert ticket[|body|] == '.';
      assert forall i :: 0 <= i < |body| ==> ticket[i] == body[i];
      assert n == |body| && ticket[..n] == body && ticket[n + 1..] == seal;
    }
  }

  ghost predicate Sealed(codec: Codec, ticket: string, body: string, seal: string, c: Claims) {
    && ticket == body + "." + seal && body != "" && seal != "" && '.' !in body && |ticket| <= 4096
    && codec.unhex(seal) == Some(codec.mac(body))
    && codec.unbase64(body).Some? && codec.parse(codec.unbase64(body).value) == Some(c)
  }

  lemma SecondsBefore(t: int, second: int)
    ensures second > UnixSeconds(t) <==> t < second * SECOND
  {
    assert t / SECOND * SECOND <= t < (t / SECOND + 1) * SECOND;
  }

  /** A session ticket passes exactly when its claims are complete and the clock within its times. */
  lemma TicketPassesExactly(codec: Codec, ticket: string, now: int, c: Claims)
    ensures VerifyTicket(codec, ticket, now) == Good(c) <==>
      && DecodeSigned(codec, ticket) == Good(c)
      && c.version == 1 && c.kind == "" && c.user != "" && c.resource > 0 && c.sessionId > 0 && c.nonce != ""
      && c.issuedAt * SECOND <= now + 30 * SECOND && now < (c.expires + 31) * SECOND
      && now < (c.sessionExpires + 1) * SECOND
  {
    hide DecodeSigned;
    SecondsBefore(now + SKEW, c.issuedAt);
    ExpiryIsTruncated(c.expires, now);
    SecondsBefore(now, c.sessionExpires + 1);
  }

  /** So does a purge order, without a session. */
  lemma PurgePassesExactly(codec: Codec, ticket: string, now: int, c: Claims)
    ensures VerifyPurge(codec, ticket, now) == Good(c) <==>
      && DecodeSigned(codec, ticket) == Good(c)
      && c.version == 1 && c.kind == "purge" && c.user != "" && c.resource > 0 && c.nonce != ""
      && c.issuedAt * SECOND <= now + 30 * SECOND && now < (c.expires + 31) * SECOND
  {
    hide DecodeSigned;
    SecondsBefore(now + SKEW, c.issuedAt);
    ExpiryIsTruncated(c.expires, now);
  }

  /** The last instant, exclusive, at which a ticket expiring at second `expires` still verifies. */
  lemma ExpiryIsTruncated(expires: int, now: int)
    ensures expires < UnixSeconds(now - SKEW) <==> (expires + 31) * SECOND <= now
    ensures now % SECOND == 0 ==> (expires < UnixSeconds(now - SKEW) <==> expires * SECOND + SKEW < now)
  {
    var q := (now - SKEW) / SECOND;
    assert q * SECOND <= now - SKEW < (q + 1) * SECOND;
  }

  // ---- the replay guard ----

  type Seen = map<string, int>

  function Pruned(seen: Seen, now: int): Seen {
    map k | k in seen && seen[k] >= now :: seen[k]
  }

  function Use(seen: Seen, nonce: string, until: int, now: int): (bool, Seen) {
    var kept := Pruned(seen, now);
    if nonce in kept then (false, kept) else (true, kept[nonce := until + SKEW])
  }

  class ReplayGuard {
    var seen: Seen

    constructor ()
      ensures seen == map[]
    {
      seen := map[];
    }

    method TryUse(nonce: string, until: int, now: int) returns (first: bool)
      modifies this
      ensures (first, seen) == Use(old(seen), nonce, until, now)
    {
      var keys := seen.Keys;
      while keys != {}
        invariant keys <= seen.Keys <= old(seen).Keys
        invariant forall k :: k in seen ==> seen[k] == old(seen)[k]
        invariant forall k :: k in old(seen) && k !in keys ==> (k in seen <==> old(seen)[k] >= now)
        decreases |keys|
      {
        var key :| key in keys;
        if seen[key] < now {
          seen := seen - {key};
        }
        keys := keys - {key};
      }
      assert seen == Pruned(old(seen), now);
      if nonce in seen { return false; }
      seen := seen[nonce := until + SKEW];
      return true;
    }
  }

  // ---- exchanging tickets ----

  /** One call of the session or the purge endpoint. */
  datatype Attempt = Attempt(purge: bool, ticket: string, resource: int, now: int)

  function Verified(codec: Codec, a: Attempt): Checked {
    var checked := if a.purge then VerifyPurge(codec, a.ticket, a.now) else VerifyTicket(codec, a.ticket, a.now);
    if checked.Good? && checked.claims.resource != a.resource then Bad(OtherResource) else checked
  }

  function Exchange(codec: Codec, seen: Seen, a: Attempt): (Checked, Seen) {
    var checked := Verified(codec, a);
    if checked.Bad? then (checked, seen)
    else
      var (first, next) := Use(seen, checked.claims.nonce, checked.claims.expires * SECOND, a.now);
      (if first then checked else Bad(Replayed), next)
  }

  /** What the guard remembers after the first `n` attempts of a run. */
  function SeenAfter(codec: Codec, run: seq<Attempt>, n: nat): Seen
    requires n <= |run|
  {
    if n == 0 then map[] else Exchange(codec, SeenAfter(codec, run, n - 1), run[n - 1]).1
  }

  function Answer(codec: Codec, run: seq<Attempt>, n: nat): Checked
    requires n < |run|
  {
    Exchange(codec, SeenAfter(codec, run, n), run[n]).0
  }

  ghost predicate ClockForward(run: seq<Attempt>) {
    forall i, j :: 0 <= i < j < |run| ==> run[i].now <= run[j].now
  }

  ghost predicate WholeSeconds(run: seq<Attempt>) {
    forall i :: 0 <= i < |run| ==> run[i].now % SECOND == 0
  }

  lemma AnswerIsVerified(codec: Codec, run: seq<Attempt>, i: nat)
    requires i < |run| && Answer(codec, run, i).Good?
    ensures Answer(codec, run, i) == Verified(codec, run[i])
    ensures var c := Answer(codec, run, i).claims;
      SeenAfter(codec, run, i + 1) == Pruned(SeenAfter(codec, run, i), run[i].now)[c.nonce := c.expires * SECOND + SKEW]
  {}

  /** The nonce of an accepted ticket stays known until 30 s after its expiry. */
  lemma {:induction false} Remembered(codec: Codec, run: seq<Attempt>, i: nat, n: nat)
    requires i < n <= |run| && ClockForward(run)
    requires Answer(codec, run, i).Good?
    requires var c := Answer(codec, run, i).claims; i + 1 < n ==> run[n - 1].now <= c.expires * SECOND + SKEW
    ensures var c := Answer(codec, run, i).claims; var seen := SeenAfter(codec, run, n);
      c.nonce in seen && seen[c.nonce] == c.expires * SECOND + SKEW
    decreases n
  {
    hide Verified;
    AnswerIsVerified(codec, run, i);
    if i + 1 < n {
      assert i + 1 < n - 1 ==> run[n - 2].now <= run[n - 1].now;
      Remembered(codec, run, i, n - 1);
    }
  }

  lemma VerifiedInTime(codec: Codec, a: Attempt)
    requires Verified(codec, a).Good?
    ensures a.now < (Verified(codec, a).claims.expires + 31) * SECOND
    ensures a.now % SECOND == 0 ==> a.now <= Verified(codec, a).claims.expires * SECOND + SKEW
    ensures Verified(codec, a) == DecodeSigned(codec, a.ticket)
  {
    ExpiryIsTruncated(DecodeSigned(codec, a.ticket).claims.expires, a.now);
  }

  lemma SameBodySameClaims(codec: Codec, s: string, t: string)
    requires Body(s) == Body(t) && DecodeSigned(codec, s).Good? && DecodeSigned(codec, t).Good?
    ensures DecodeSigned(codec, s) == DecodeSigned(codec, t)
  {}

  /**
   Between two exchanges of one signed body the clock has passed its expiry by
   more than 30 s and less than 31 s.
   */
  lemma SecondExchangeWindow(codec: Codec, run: seq<Attempt>, i: nat, j: nat)
    requires i < j < |run| && ClockForward(run)
    requires Answer(codec, run, i).Good? && Answer(codec, run, j).Good?
    requires Body(run[i].ticket) == Body(run[j].ticket)
    ensures var expires := Answer(codec, run, i).claims.expires;
      (expires + 30) * SECOND < run[j].now < (expires + 31) * SECOND
  {
    AnswerIsVerified(codec, run, i);
    AnswerIsVerified(codec, run, j);
    VerifiedInTime(codec, run[i]);
    VerifiedInTime(codec, run[j]);
    SameBodySameClaims(codec, run[i].ticket, run[j].ticket);
    if run[j].now <= Answer(codec, run, i).claims.expires * SECOND + SKEW {
      assert j - 1 > i ==> run[j - 1].now <= run[j].now;
      Remembered(codec, run, i, j);
    }
  }

  /** On a clock of whole seconds a signed body is exchanged at most once. */
  lemma ExchangedOnce(codec: Codec, run: seq<Attempt>, i: nat, j: nat)
    requires i < j < |run| && ClockForward(run) && WholeSeconds(run)
    requires Answer(codec, run, i).Good? && Body(run[i].ticket) == Body(run[j].ticket)
    ensures Answer(codec, run, j).Bad?
  {
    if Answer(codec, run, j).Good? {
      SecondExchangeWindow(codec, run, i, j);
      AnswerIsVerified(codec, run, i);
      AnswerIsVerified(codec, run, j);
      VerifiedInTime(codec, run[i]);
      VerifiedInTime(codec, run[j]);
      SameBodySameClaims(codec, run[i].ticket, run[j].ticket);
    }
  }

  /** No attempt strictly between `i` and `j` passed the checks with this nonce. */
  ghost predicate Untouched(codec: Codec, run: seq<Attempt>, nonce: string, i: nat, j: nat)
    requires j <= |run|
  {
    forall m :: i < m < j ==> Verified(codec, run[m]).Bad? || Verified(codec, run[m]).claims.nonce != nonce
  }

  lemma {:induction false} OnlyOldEntry(codec: Codec, run: seq<Attempt>, i: nat, n: nat)
    requires i < n <= |run| && Answer(codec, run, i).Good?
    requires Untouched(codec, run, Answer(codec, run, i).claims.nonce, i, n)
    ensures var c := Answer(codec, run, i).claims; var seen := SeenAfter(codec, run, n);
      c.nonce in seen ==> seen[c.nonce] == c.expires * SECOND + SKEW
    decreases n
  {
    hide Verified;
    AnswerIsVerified(codec, run, i);
    if i + 1 < n {
      OnlyOldEntry(codec, run, i, n - 1);
    }
  }

  /** Exactly when the next presentation of an exchanged ticket works again. */
  lemma RepeatExactly(codec: Codec, run: seq<Attempt>, i: nat, j: nat)
    requires i < j < |run| && ClockForward(run) && Answer(codec, run, i).Good?
    requires Body(run[i].ticket) == Body(run[j].ticket)
    requires Untouched(codec, run, Answer(codec, run, i).claims.nonce, i, j)
    ensures Answer(codec, run, j).Good? <==>
      Verified(codec, run[j]).Good? && run[j].now > (Answer(codec, run, i).claims.expires + 30) * SECOND
  {
    AnswerIsVerified(codec, run, i);
    VerifiedInTime(codec, run[i]);
    if Answer(codec, run, j).Good? {
      SecondExchangeWindow(codec, run, i, j);
      AnswerIsVerified(codec, run, j);
    }
    if Verified(codec, run[j]).Good? {
      VerifiedInTime(codec, run[j]);
      SameBodySameClaims(codec, run[i].ticket, run[j].ticket);
      OnlyOldEntry(codec, run, i, j);
    }
  }

  /** An attempt that passes the checks later than `until` makes the guard forget what ends then. */
  ghost predicate Forgets(codec: Codec, run: seq<Attempt>, k: nat, until: int)
    requires k < |run|
  {
    Verified(codec, run[k]).Good? && run[k].now > until
  }

  ghost predicate Forgotten(codec: Codec, run: seq<Attempt>, i: nat, n: nat, until: int)
    requires n <= |run|
  {
    exists k: nat :: i < k < n && Forgets(codec, run, k, until)
  }

  lemma ForgottenNext(codec: Codec, run: seq<Attempt>, i: nat, n: nat, until: int)
    requires i + 1 < n <= |run|
    ensures Forgotten(codec, run, i, n, until) <==>
      Forgotten(codec, run, i, n - 1, until) || Forgets(codec, run, n - 1, until)
  {
    hide Forgets;
  }

  lemma NoneBetween(codec: Codec, run: seq<Attempt>, i: nat, until: int)
    requires i < |run|
    ensures !Forgotten(codec, run, i, i + 1, until)
  {
  }

  /** Whatever the clock does, the nonce is known until such an attempt comes. */
  lemma {:induction false} KnownExactly(codec: Codec, run: seq<Attempt>, i: nat, n: nat)
    requires i < n <= |run| && Answer(codec, run, i).Good?
    requires Untouched(codec, run, Answer(codec, run, i).claims.nonce, i, n)
    ensures var c := Answer(codec, run, i).claims;
      c.nonce in SeenAfter(codec, run, n) <==> !Forgotten(codec, run, i, n, c.expires * SECOND + SKEW)
    decreases n
  {
    hide Verified, Forgotten;
    AnswerIsVerified(codec, run, i);
    var c := Answer(codec, run, i).claims;
    if i + 1 < n {
      KnownExactly(codec, run, i, n - 1);
      OnlyOldEntry(codec, run, i, n - 1);
      ForgottenNext(codec, run, i, n, c.expires * SECOND + SKEW);
    } else {
      NoneBetween(codec, run, i, c.expires * SECOND + SKEW);
    }
  }

  /**
   On any clock, one that goes back included: the next presentation works again exactly when it
   verifies and the guard has forgotten the nonce by then.
   */
  lemma RepeatOnAnyClock(codec: Codec, run: seq<Attempt>, i: nat, j: nat)
    requires i < j < |run| && Answer(codec, run, i).Good?
    requires Body(run[i].ticket) == Body(run[j].ticket)
    requires Untouched(codec, run, Answer(codec, run, i).claims.nonce, i, j)
    ensures Answer(codec, run, j).Good? <==>
      && Verified(codec, run[j]).Good?
      && Forgotten(codec, run, i, j + 1, (Answer(codec, run, i).claims.expires + 30) * SECOND)
  {
    hide Forgotten;
    AnswerIsVerified(codec, run, i);
    VerifiedInTime(codec, run[i]);
    if Verified(codec, run[j]).Good? {
      VerifiedInTime(codec, run[j]);
      SameBodySameClaims(codec, run[i].ticket, run[j].ticket);
      OnlyOldEntry(codec, run, i, j);
      KnownExactly(codec, run, i, j);
      ForgottenNext(codec, run, i, j + 1, (Answer(codec, run, i).claims.expires + 30) * SECOND);
    }
  }

  /** A session ticket does pass the checks throughout that last second, unless the session ended. */
  lemma LastSecondVerifies(codec: Codec, ticket: string, t: int, now: int)
    requires VerifyTicket(codec, ticket, t).Good? && t <= now
    ensures var c := VerifyTicket(codec, ticket, t).claims;
      (c.expires + 30) * SECOND < now < (c.expires + 31) * SECOND && c.sessionExpires >= c.expires + 30 ==>
        VerifyTicket(codec, ticket, now) == Good(c)
  {
    var c := VerifyTicket(codec, ticket, t).claims;
    assert UnixSeconds(t + SKEW) <= UnixSeconds(now + SKEW);
    ExpiryIsTruncated(c.expires, now);
    assert (c.expires + 30) * SECOND < now < (c.expires + 31) * SECOND ==> UnixSeconds(now) == c.expires + 30;
  }

  /**
   Such a run exists: a ticket expiring at second 60 is exchanged at second 10,
   and again half a second after 90.
   */
  lemma ExchangedTwice(codec: Codec, ticket: string)
    requires DecodeSigned(codec, ticket) == Good(Claims(1, "", "u", 7, 3, 1, 0, 60, 28800, "n"))
    ensures var run := [Attempt(false, ticket, 3, 10 * SECOND), Attempt(false, ticket, 3, 90 * SECOND + SECOND / 2)];
      && ClockForward(run)
      && Answer(codec, run, 0) == Answer(codec, run, 1) == DecodeSigned(codec, ticket)
  {
    hide DecodeSigned;
    var c := Claims(1, "", "u", 7, 3, 1, 0, 60, 28800, "n");
    var run := [Attempt(false, ticket, 3, 10 * SECOND), Attempt(false, ticket, 3, 90 * SECOND + SECOND / 2)];
    assert Verified(codec, run[0]) == Good(c);
    assert Verified(codec, run[1]) == Good(c);
    assert SeenAfter(codec, run, 0) == map[];
    assert Answer(codec, run, 0) == Good(c);
    assert Untouched(codec, run, c.nonce, 0, 1);
    RepeatExactly(codec, run, 0, 1);
    AnswerIsVerified(codec, run, 1);
  }

  /** A ticket of any claims exists, with the plainest of codecs. */
  lemma SuchATicket(claims: Claims) returns (codec: Codec, ticket: string)
    ensures DecodeSigned(codec, ticket) == Good(claims)
  {
    codec := Codec((s: string) => Some(s), (s: string) => s, (s: string) => Some(s), (s: string) => Some(claims));
    ticket := "b.b";
    assert ticket[1..] == ".b" && Dot(".b") == 0 && Dot(ticket) == 1;
    assert ticket[2..] == "b" && Body(ticket) == "b";
  }
}
