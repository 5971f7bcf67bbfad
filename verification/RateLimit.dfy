/**
 The sign-in rate limiter: a sliding window of attempts and a failure backoff
 per key, with a periodic sweep that drops entries holding nothing back.
 Times are nanoseconds of the steady clock.
 */
module RateLimit {
  import opened Numerals
  import opened Sequences

  const IDLE_FORGET := 3600 * SECOND
  const SWEEP_EVERY := 256

  datatype Limits = Limits(maxAttempts: nat, window: nat)

  datatype Entry = Entry(attempts: seq<nat>, failures: nat, lastFailure: nat, blockUntil: nat)

  const FRESH := Entry([], 0, 0, 0)

  type Entries = map<string, Entry>

  datatype State = State(entries: Entries, checks: nat)

  function Get(entries: Entries, key: string): Entry { if key in entries then entries[key] else FRESH }

  /** The attempts left once those older than the window are popped from the front. */
  function Trimmed(l: Limits, attempts: seq<nat>, now: nat): seq<nat>
    decreases |attempts|
  {
    if attempts != [] && now - attempts[0] > l.window then Trimmed(l, attempts[1..], now) else attempts
  }

  predicate Idle(l: Limits, e: Entry, now: nat) {
    && (e.attempts == [] || now - e.attempts[|e.attempts| - 1] > l.window)
    && (e.failures == 0 || now - e.lastFailure > IDLE_FORGET)
    && e.blockUntil <= now
  }

  function Swept(l: Limits, entries: Entries, now: nat): Entries {
    map k | k in entries && !Idle(l, entries[k], now) :: entries[k]
  }

  function Backoff(failures: nat): nat {
    if failures >= 30 then 1800 * SECOND
    else if failures >= 20 then 300 * SECOND
    else if failures >= 10 then 30 * SECOND
    else 0
  }

  function Judge(l: Limits, e: Entry, now: nat): (bool, Entry) {
    if e.blockUntil > now then (false, e)
    else
      var kept := Trimmed(l, e.attempts, now);
      if |kept| >= l.maxAttempts then (false, e.(attempts := kept)) else (true, e.(attempts := kept + [now]))
  }

  function CheckStep(l: Limits, st: State, key: string, now: nat, sweeping: bool): (bool, State) {
    var checks := st.checks + 1;
    var entries := if sweeping && checks % SWEEP_EVERY == 0 then Swept(l, st.entries, now) else st.entries;
    var (ok, e) := Judge(l, Get(entries, key), now);
    (ok, State(entries[key := e], checks))
  }

  function Failed(e: Entry, now: nat): Entry {
    var failures := e.failures + 1;
    Entry(e.attempts, failures, now, if Backoff(failures) > 0 then now + Backoff(failures) else e.blockUntil)
  }

  function FailStep(st: State, key: string, now: nat): State {
    st.(entries := st.entries[key := Failed(Get(st.entries, key), now)])
  }

  function ClearStep(st: State, key: string): State { st.(entries := st.entries - {key}) }

  predicate Blocked(st: State, key: string, now: nat) { Get(st.entries, key).blockUntil > now }

  class Limiter {
    const limits: Limits
    var entries: Entries
    var checks: nat

    constructor (limits: Limits)
      ensures this.limits == limits && Contents() == State(map[], 0)
    {
      this.limits := limits;
      entries, checks := map[], 0;
    }

    ghost function Contents(): State
      reads this
    {
      State(entries, checks)
    }

    method Sweep(now: nat)
      modifies `entries
      ensures entries == Swept(limits, old(entries), now)
    {
      var keys := entries.Keys;
      while keys != {}
        invariant keys <= entries.Keys <= old(entries).Keys
        invariant forall k :: k in entries ==> entries[k] == old(entries)[k]
        invariant forall k :: k in old(entries) && k !in keys ==>
          (k in entries <==> !Idle(limits, old(entries)[k], now))
        decreases |keys|
      {
        var key :| key in keys;
        var e := entries[key];
        var attemptsExpired := e.attempts == [] || now - e.attempts[|e.attempts| - 1] > limits.window;
        var failuresForgotten := e.failures == 0 || now - e.lastFailure > IDLE_FORGET;
        if attemptsExpired && failuresForgotten && e.blockUntil <= now {
          entries := entries - {key};
        }
        keys := keys - {key};
      }
    }

    /** check_rate_limit: may this key try now? */
    method Check(key: string, now: nat) returns (ok: bool)
      modifies this
      ensures (ok, Contents()) == CheckStep(limits, old(Contents()), key, now, true)
    {
      checks := checks + 1;
      if checks % SWEEP_EVERY == 0 {
        Sweep(now);
      }
      var e := Get(entries, key);
      if e.blockUntil > now {
        entries := entries[key := e];
        return false;
      }
      var attempts := e.attempts;
      while attempts != [] && now - attempts[0] > limits.window
        invariant Trimmed(limits, attempts, now) == Trimmed(limits, e.attempts, now)
        decreases |attempts|
      {
        attempts := attempts[1..];
      }
      ok := |attempts| < limits.maxAttempts;
      if ok {
        attempts := attempts + [now];
      }
      entries := entries[key := e.(attempts := attempts)];
    }

    method RecordFailure(key: string, now: nat)
      modifies `entries
      ensures Contents() == FailStep(old(Contents()), key, now)
    {
      var e := Get(entries, key);
      e := e.(failures := e.failures + 1, lastFailure := now);
      var backoff := 0;
      if e.failures >= 30 {
        backoff := 1800 * SECOND;
      } else if e.failures >= 20 {
        backoff := 300 * SECOND;
      } else if e.failures >= 10 {
        backoff := 30 * SECOND;
      }
      if backoff > 0 {
        e := e.(blockUntil := now + backoff);
      }
      entries := entries[key := e];
    }

    method Clear(key: string)
      modifies `entries
      ensures Contents() == ClearStep(old(Contents()), key)
    {
      entries := entries - {key};
    }

    method IsBlocked(key: string, now: nat) returns (blocked: bool)
      ensures blocked <==> Blocked(Contents(), key, now)
    {
      blocked := key in entries && entries[key].blockUntil > now;
    }
  }

  // ---- runs ----

  datatype Event = Checked(key: string, now: nat) | Failure(key: string, now: nat) | Cleared(key: string)

  function Step(l: Limits, st: State, e: Event, sweeping: bool): State {
    match e
    case Checked(key, now) => CheckStep(l, st, key, now, sweeping).1
    case Failure(key, now) => FailStep(st, key, now)
    case Cleared(key) => ClearStep(st, key)
  }

  function Clock(clock: nat, e: Event): nat { if e.Cleared? then clock else e.now }

  /** A steady clock: no reading is before an earlier one. */
  predicate Steady(clock: nat, run: seq<Event>)
    decreases |run|
  {
    run != [] ==> clock <= Clock(clock, run[0]) && Steady(Clock(clock, run[0]), run[1..])
  }

  /** The times at which the checks of one key were admitted. */
  function Admitted(l: Limits, st: State, run: seq<Event>, key: string): seq<nat>
    decreases |run|
  {
    if run == [] then []
    else Admission(l, st, run[0], key) + Admitted(l, Step(l, st, run[0], true), run[1..], key)
  }

  /** No closed interval as long as the window holds more than the allowed number. */
  ghost predicate Spaced(l: Limits, times: seq<nat>) {
    forall i, j :: 0 <= i <= j < |times| && times[j] - times[i] <= l.window ==> j - i + 1 <= l.maxAttempts
  }

  ghost predicate Ascending(times: seq<nat>, clock: nat) {
    && (forall i, j :: 0 <= i <= j < |times| ==> times[i] <= times[j])
    && (forall i :: 0 <= i < |times| ==> times[i] <= clock)
  }

  /** The queue ends with the admissions from `m` on; those before `m` have left the window. */
  ghost predicate Tracks(l: Limits, times: seq<nat>, m: nat, queue: seq<nat>, clock: nat) {
    && m <= |times| <= m + |queue|
    && queue[|queue| - (|times| - m)..] == times[m..]
    && (forall i :: 0 <= i < m ==> clock - times[i] > l.window)
  }

  lemma {:induction false} TrimmedIsSuffix(l: Limits, queue: seq<nat>, now: nat)
    ensures var kept := Trimmed(l, queue, now);
      && |kept| <= |queue| && kept == queue[|queue| - |kept|..]
      && forall i :: 0 <= i < |queue| - |kept| ==> now - queue[i] > l.window
    decreases |queue|
  {
    if queue != [] && now - queue[0] > l.window {
      TrimmedIsSuffix(l, queue[1..], now);
    }
  }

  /** Trimming keeps track: what it pops has left the window. */
  lemma TrimTracks(l: Limits, times: seq<nat>, m: nat, queue: seq<nat>, clock: nat, now: nat) returns (n: nat)
    requires Tracks(l, times, m, queue, clock) && clock <= now
    ensures var kept := Trimmed(l, queue, now); Tracks(l, times, n, kept, now) && |times| - |kept| <= n
  {
    hide Trimmed;
    TrimmedIsSuffix(l, queue, now);
    var kept := Trimmed(l, queue, now);
    n := if m >= |times| - |kept| then m else |times| - |kept|;
    forall i | 0 <= i < n ensures now - times[i] > l.window {
      if i >= m {
        var at := |queue| - (|times| - m) + (i - m);
        assert times[m..][i - m] == queue[|queue| - (|times| - m)..][i - m] == queue[at];
      }
    }
    forall k | 0 <= k < |times| - n
      ensures kept[|kept| - (|times| - n)..][k] == times[n..][k]
    {
      assert kept[|kept| - (|times| - n)..][k] == queue[|queue| - (|times| - n) + k];
      assert times[m..][n - m + k] == queue[|queue| - (|times| - m)..][n - m + k];
    }
  }

  /** An admission next to the earlier ones: the one `maxAttempts` back has left the window. */
  lemma AdmissionIsSpaced(l: Limits, times: seq<nat>, n: nat, kept: seq<nat>, now: nat)
    requires Spaced(l, times) && Ascending(times, now) && Tracks(l, times, n, kept, now)
    requires |times| - |kept| <= n && |kept| < l.maxAttempts
    ensures Spaced(l, times + [now]) && Ascending(times + [now], now) && Tracks(l, times + [now], n, kept + [now], now)
  {
    var grown := times + [now];
    forall i, j | 0 <= i <= j < |grown| && grown[j] - grown[i] <= l.window
      ensures j - i + 1 <= l.maxAttempts
    {
      if j < |times| {
        assert times[j] - times[i] <= l.window;
      } else {
        assert i >= n;
      }
    }
    var queue := kept + [now];
    assert queue[|queue| - (|grown| - n)..] == kept[|kept| - (|times| - n)..] + [now];
    assert grown[n..] == times[n..] + [now];
  }

  /** What a run is followed with: the admissions so far, and what the queue still holds of them. */
  ghost predicate Watched(l: Limits, times: seq<nat>, m: nat, queue: seq<nat>, clock: nat) {
    Spaced(l, times) && Ascending(times, clock) && Tracks(l, times, m, queue, clock)
  }

  lemma WatchedLater(l: Limits, times: seq<nat>, m: nat, queue: seq<nat>, clock: nat, now: nat)
    requires Watched(l, times, m, queue, clock) && clock <= now
    ensures Watched(l, times, m, queue, now)
  {}

  lemma WatchedSwept(l: Limits, times: seq<nat>, m: nat, e: Entry, now: nat)
    requires Watched(l, times, m, e.attempts, now) && Idle(l, e, now)
    ensures Watched(l, times, |times|, [], now)
  {
    forall i | 0 <= i < |times| ensures now - times[i] > l.window {
      if i >= m {
        var last := |times| - 1;
        assert times[m..][last - m] == e.attempts[|e.attempts| - 1];
        assert times[i] <= times[last];
      }
    }
  }

  lemma WatchedJudged(l: Limits, times: seq<nat>, m: nat, e: Entry, now: nat) returns (n: nat)
    requires Watched(l, times, m, e.attempts, now)
    ensures var (ok, judged) := Judge(l, e, now);
      Watched(l, times + (if ok then [now] else []), n, judged.attempts, now)
  {
    n := m;
    assert times + [] == times;
    if e.blockUntil <= now {
      n := TrimTracks(l, times, m, e.attempts, now, now);
      if Judge(l, e, now).0 {
        AdmissionIsSpaced(l, times, n, Trimmed(l, e.attempts, now), now);
      }
    }
  }

  function Queue(st: State, key: string): seq<nat> { Get(st.entries, key).attempts }

  /** What one event adds to the admissions of a key. */
  function Admission(l: Limits, st: State, e: Event, key: string): seq<nat> {
    if e.Checked? && e.key == key && CheckStep(l, st, key, e.now, true).0 then [e.now] else []
  }

  /** One event of a run keeps track of the admissions of a key. */
  lemma StepWatched(l: Limits, st: State, e: Event, key: string, times: seq<nat>, m: nat, clock: nat) returns (n: nat)
    requires Watched(l, times, m, Queue(st, key), clock)
    requires clock <= Clock(clock, e) && e != Cleared(key)
    ensures Watched(l, times + Admission(l, st, e, key), n, Queue(Step(l, st, e, true), key), Clock(clock, e))
  {
    hide Watched, Judge;
    var now := Clock(clock, e);
    n := m;
    assert times + [] == times;
    WatchedLater(l, times, m, Queue(st, key), clock, now);
    if e.Checked? {
      var sweeps := (st.checks + 1) % SWEEP_EVERY == 0;
      var entries := if sweeps then Swept(l, st.entries, now) else st.entries;
      if sweeps && key in st.entries && Idle(l, st.entries[key], now) {
        WatchedSwept(l, times, m, st.entries[key], now);
        n := |times|;
        assert Get(entries, key) == FRESH;
      }
      if e.key == key {
        n := WatchedJudged(l, times, n, Get(entries, key), now);
      }
    }
  }

  /** What follows a tracked start stays spaced. */
  lemma {:induction false} RunIsSpaced(l: Limits, st: State, run: seq<Event>, key: string, times: seq<nat>, m: nat,
                                       clock: nat)
    requires Watched(l, times, m, Queue(st, key), clock)
    requires Steady(clock, run) && Cleared(key) !in run
    ensures Spaced(l, times + Admitted(l, st, run, key))
    decreases |run|
  {
    hide Spaced, Ascending, Tracks, Admission, Step;
    if run == [] {
      assert times + [] == times;
    } else {
      var e := run[0];
      var n := StepWatched(l, st, e, key, times, m, clock);
      var first := Admission(l, st, e, key);
      RunIsSpaced(l, Step(l, st, e, true), run[1..], key, times + first, n, Clock(clock, e));
      Regroup(times, first, Admitted(l, Step(l, st, e, true), run[1..], key));
    }
  }

  lemma NothingWatched(l: Limits, queue: seq<nat>, clock: nat)
    ensures Watched(l, [], 0, queue, clock)
  {
    assert queue[|queue|..] == [];
  }

  /**
   Whatever the state it starts from and the other keys do, between clears of a
   key no closed interval of the window's length admits more than the maximum.
   */
  lemma AtMostMaxPerWindow(l: Limits, st: State, run: seq<Event>, key: string, clock: nat)
    requires Steady(clock, run) && Cleared(key) !in run
    ensures Spaced(l, Admitted(l, st, run, key))
  {
    hide Spaced, Watched, Admitted, Queue, Steady;
    NothingWatched(l, Queue(st, key), clock);
    RunIsSpaced(l, st, run, key, [], 0, clock);
    assert [] + Admitted(l, st, run, key) == Admitted(l, st, run, key);
  }

  // ---- what the sweep may forget ----

  /** The block is a function of the failures; attempts are in order. */
  predicate Kept(e: Entry, clock: nat) {
    && e.lastFailure <= clock
    && e.blockUntil == (if e.failures >= 10 then e.lastFailure + Backoff(e.failures) else 0)
    && (forall i :: 0 <= i < |e.attempts| ==> e.attempts[i] <= clock)
    && (forall i, j :: 0 <= i < j < |e.attempts| ==> e.attempts[i] <= e.attempts[j])
  }

  predicate Coherent(st: State, clock: nat) {
    forall k :: k in st.entries ==> Kept(st.entries[k], clock)
  }

  lemma JudgeKeeps(l: Limits, e: Entry, clock: nat, now: nat)
    requires Kept(e, clock) && clock <= now
    ensures Kept(Judge(l, e, now).1, now)
  {
    TrimmedIsSuffix(l, e.attempts, now);
  }

  lemma CoherentLater(st: State, clock: nat, now: nat)
    requires Coherent(st, clock) && clock <= now
    ensures Coherent(st, now)
  {}

  lemma PutCoherent(entries: Entries, checks: nat, key: string, e: Entry, clock: nat)
    requires (forall k :: k in entries ==> Kept(entries[k], clock)) && Kept(e, clock)
    ensures Coherent(State(entries[key := e], checks), clock)
  {}

  lemma StepCoherent(l: Limits, st: State, e: Event, sweeping: bool, clock: nat)
    requires Coherent(st, clock) && clock <= Clock(clock, e)
    ensures Coherent(Step(l, st, e, sweeping), Clock(clock, e))
  {
    hide Kept, Judge, Idle;
    var now := Clock(clock, e);
    CoherentLater(st, clock, now);
    FreshKept(now);
    match e
    case Checked(key, _) =>
      var entries := if sweeping && (st.checks + 1) % SWEEP_EVERY == 0 then Swept(l, st.entries, now) else st.entries;
      assert Kept(Get(entries, key), now);
      JudgeKeeps(l, Get(entries, key), now, now);
      PutCoherent(entries, st.checks + 1, key, Judge(l, Get(entries, key), now).1, now);
    case Failure(key, _) =>
      FailedKept(Get(st.entries, key), now);
      PutCoherent(st.entries, st.checks, key, Failed(Get(st.entries, key), now), now);
    case Cleared(_) =>
  }

  lemma FreshKept(now: nat)
    ensures Kept(FRESH, now)
  {}

  lemma FailedKept(e: Entry, now: nat)
    requires Kept(e, now)
    ensures Kept(Failed(e, now), now)
  {}

  /** A recorded failure never moves the end of a block earlier. */
  lemma BlockNeverEarlier(st: State, key: string, clock: nat, now: nat)
    requires Coherent(st, clock) && clock <= now
    ensures Get(FailStep(st, key, now).entries, key).blockUntil >= Get(st.entries, key).blockUntil
  {
    assert key in st.entries ==> Kept(st.entries[key], clock);
  }

  /** Two entries no question from `now` on can tell apart. */
  predicate Alike(l: Limits, a: Entry, b: Entry, now: nat) {
    && Trimmed(l, a.attempts, now) == Trimmed(l, b.attempts, now)
    && (a.blockUntil == b.blockUntil || (a.blockUntil <= now && b.blockUntil <= now))
  }

  lemma {:induction false} TrimAgain(l: Limits, queue: seq<nat>, now: nat, later: nat)
    requires now <= later
    ensures Trimmed(l, Trimmed(l, queue, now), later) == Trimmed(l, queue, later)
    decreases |queue|
  {
    if queue != [] && now - queue[0] > l.window { TrimAgain(l, queue[1..], now, later); }
  }

  lemma AlikeLater(l: Limits, a: Entry, b: Entry, now: nat, later: nat)
    requires Alike(l, a, b, now) && now <= later
    ensures Alike(l, a, b, later)
  {
    TrimAgain(l, a.attempts, now, later);
    TrimAgain(l, b.attempts, now, later);
  }

  lemma AlikeJudged(l: Limits, a: Entry, b: Entry, now: nat)
    requires Alike(l, a, b, now)
    ensures Judge(l, a, now).0 == Judge(l, b, now).0
    ensures Alike(l, Judge(l, a, now).1, Judge(l, b, now).1, now)
  {
    TrimAgain(l, a.attempts, now, now);
    TrimAgain(l, b.attempts, now, now);
    var kept := Trimmed(l, a.attempts, now);
    assert Trimmed(l, kept + [now], now) == Trimmed(l, kept + [now], now);
  }

  lemma IdleIsFresh(l: Limits, e: Entry, clock: nat, now: nat)
    requires Kept(e, clock) && clock <= now && Idle(l, e, now)
    ensures Alike(l, e, FRESH, now)
  {
    TrimmedIsSuffix(l, e.attempts, now);
    var kept := Trimmed(l, e.attempts, now);
    if kept != [] {
      assert kept[0] == e.attempts[|e.attempts| - |kept|];
      TrimmedFrontStays(l, e.attempts, now);
    }
  }

  lemma {:induction false} TrimmedFrontStays(l: Limits, queue: seq<nat>, now: nat)
    ensures var kept := Trimmed(l, queue, now); kept != [] ==> now - kept[0] <= l.window
    decreases |queue|
  {
    if queue != [] && now - queue[0] > l.window { TrimmedFrontStays(l, queue[1..], now); }
  }

  lemma AlikeStep(l: Limits, swept: State, plain: State, e: Event, key: string, clock: nat)
    requires Coherent(swept, clock) && clock <= Clock(clock, e)
    requires swept.checks == plain.checks && Alike(l, Get(swept.entries, key), Get(plain.entries, key), clock)
    requires !(e.Failure? && e.key == key)
    ensures var s, p := Step(l, swept, e, true), Step(l, plain, e, false);
      s.checks == p.checks && Alike(l, Get(s.entries, key), Get(p.entries, key), Clock(clock, e))
    ensures e.Checked? && e.key == key ==>
      CheckStep(l, swept, key, e.now, true).0 == CheckStep(l, plain, key, e.now, false).0
  {
    hide Trimmed, Judge, Idle, Kept;
    var now := Clock(clock, e);
    AlikeLater(l, Get(swept.entries, key), Get(plain.entries, key), clock, now);
    if e.Checked? {
      var sweeps := (swept.checks + 1) % SWEEP_EVERY == 0;
      var entries := if sweeps then Swept(l, swept.entries, now) else swept.entries;
      if sweeps && key in swept.entries && Idle(l, swept.entries[key], now) {
        IdleIsFresh(l, swept.entries[key], clock, now);
        assert Get(entries, key) == FRESH;
      }
      assert Alike(l, Get(entries, key), Get(plain.entries, key), now);
      if e.key == key {
        AlikeJudged(l, Get(entries, key), Get(plain.entries, key), now);
      }
    }
  }

  function After(l: Limits, st: State, run: seq<Event>, sweeping: bool): State
    decreases |run|
  {
    if run == [] then st else After(l, Step(l, st, run[0], sweeping), run[1..], sweeping)
  }

  function LastClock(clock: nat, run: seq<Event>): nat
    decreases |run|
  {
    if run == [] then clock else LastClock(Clock(clock, run[0]), run[1..])
  }

  lemma {:induction false} RunsAlike(l: Limits, swept: State, plain: State, run: seq<Event>, key: string, clock: nat)
    requires Coherent(swept, clock) && Steady(clock, run)
    requires swept.checks == plain.checks && Alike(l, Get(swept.entries, key), Get(plain.entries, key), clock)
    requires forall e :: e in run ==> !(e.Failure? && e.key == key)
    ensures var s, p := After(l, swept, run, true), After(l, plain, run, false);
      s.checks == p.checks && Alike(l, Get(s.entries, key), Get(p.entries, key), LastClock(clock, run))
    ensures Coherent(After(l, swept, run, true), LastClock(clock, run))
    decreases |run|
  {
    hide Coherent, Alike, Step;
    if run != [] {
      StepCoherent(l, swept, run[0], true, clock);
      AlikeStep(l, swept, plain, run[0], key, clock);
      RunsAlike(l, Step(l, swept, run[0], true), Step(l, plain, run[0], false), run[1..], key, Clock(clock, run[0]));
    }
  }

  /**
   Until the next recorded failure of a key, a limiter that sweeps answers every
   check and every block question about it as one that never sweeps.
   */
  lemma SweepChangesNoAnswer(l: Limits, st: State, run: seq<Event>, key: string, clock: nat, now: nat)
    requires Coherent(st, clock) && Steady(clock, run) && LastClock(clock, run) <= now
    requires forall e :: e in run ==> !(e.Failure? && e.key == key)
    ensures var s, p := After(l, st, run, true), After(l, st, run, false);
      && CheckStep(l, s, key, now, true).0 == CheckStep(l, p, key, now, false).0
      && (Blocked(s, key, now) <==> Blocked(p, key, now))
  {
    hide Coherent, Judge, Trimmed, Swept;
    RunsAlike(l, st, st, run, key, clock);
    var s, p := After(l, st, run, true), After(l, st, run, false);
    AlikeStep(l, s, p, Checked(key, now), key, LastClock(clock, run));
    AlikeLater(l, Get(s.entries, key), Get(p.entries, key), LastClock(clock, run), now);
  }

  /** From an empty limiter every block is the one its failures call for. */
  lemma {:induction false} BlockedExactly(l: Limits, st: State, run: seq<Event>, clock: nat, key: string, now: nat)
    requires Coherent(st, clock) && Steady(clock, run)
    ensures var after := After(l, st, run, true); var e := Get(after.entries, key);
      && Coherent(after, LastClock(clock, run))
      && (Blocked(after, key, now) <==> e.failures >= 10 && now < e.lastFailure + Backoff(e.failures))
    decreases |run|
  {
    if run != [] {
      hide Step;
      StepCoherent(l, st, run[0], true, clock);
      BlockedExactly(l, Step(l, st, run[0], true), run[1..], Clock(clock, run[0]), key, now);
    }
  }

  // ---- exactly who is admitted ----

  /** A blocked key is refused, whatever its attempts. */
  lemma BlockedIsRefused(l: Limits, st: State, key: string, now: nat, sweeping: bool)
    requires Blocked(st, key, now)
    ensures !CheckStep(l, st, key, now, sweeping).0
  {
  }

  /** The times at which checks of a key were admitted since it was last cleared. */
  function Recent(l: Limits, st: State, run: seq<Event>, key: string, times: seq<nat>): seq<nat>
    decreases |run|
  {
    if run == [] then times
    else Recent(l, Step(l, st, run[0], true), run[1..], key, RecentNext(l, st, run[0], key, times))
  }

  function RecentNext(l: Limits, st: State, e: Event, key: string, times: seq<nat>): seq<nat> {
    if e == Cleared(key) then [] else times + Admission(l, st, e, key)
  }

  /** How many of these times lie within the closed window that ends now. */
  function Within(times: seq<nat>, now: nat, window: nat): nat {
    if times == [] then 0
    else Within(times[..|times| - 1], now, window) + if now - times[|times| - 1] <= window then 1 else 0
  }

  lemma {:induction false} WithinFrom(times: seq<nat>, now: nat, window: nat, n: nat)
    requires n <= |times|
    requires forall i :: 0 <= i < |times| ==> (now - times[i] <= window <==> n <= i)
    ensures Within(times, now, window) == |times| - n
    decreases |times|
  {
    if times != [] {
      var init := times[..|times| - 1];
      assert forall i :: 0 <= i < |init| ==> init[i] == times[i];
      WithinFrom(init, now, window, if n == |times| then n - 1 else n);
    }
  }

  /** The queue holds the latest of the admissions, and those before have left the window. */
  ghost predicate Holds(l: Limits, times: seq<nat>, queue: seq<nat>, clock: nat) {
    && |queue| <= |times| && queue == times[|times| - |queue|..]
    && Ascending(times, clock)
    && forall i :: 0 <= i < |times| - |queue| ==> clock - times[i] > l.window
  }

  lemma HoldsLater(l: Limits, times: seq<nat>, queue: seq<nat>, clock: nat, now: nat)
    requires Holds(l, times, queue, clock) && clock <= now
    ensures Holds(l, times, queue, now)
  {
  }

  /** Trimmed, it holds exactly the admissions within the window. */
  lemma HoldsTrimmed(l: Limits, times: seq<nat>, queue: seq<nat>, now: nat)
    requires Holds(l, times, queue, now)
    ensures var kept := Trimmed(l, queue, now);
      Holds(l, times, kept, now) && |kept| == Within(times, now, l.window)
  {
    hide Trimmed;
    TrimmedIsSuffix(l, queue, now);
    TrimmedFrontStays(l, queue, now);
    var kept := Trimmed(l, queue, now);
    var n := |times| - |kept|;
    forall i | 0 <= i < n ensures now - times[i] > l.window {
      if i >= |times| - |queue| {
        assert times[i] == queue[i - (|times| - |queue|)];
      }
    }
    assert kept == times[n..] by {
      forall k | 0 <= k < |kept| ensures kept[k] == times[n..][k] {
        assert kept[k] == queue[|queue| - |kept| + k];
      }
    }
    forall i | n <= i < |times| ensures now - times[i] <= l.window {
      assert kept[0] == times[n] <= times[i];
    }
    WithinFrom(times, now, l.window, n);
  }

  lemma HoldsAdmitted(l: Limits, times: seq<nat>, queue: seq<nat>, now: nat)
    requires Holds(l, times, queue, now)
    ensures Holds(l, times + [now], queue + [now], now)
  {
    assert (times + [now])[|times| - |queue|..] == queue + [now];
  }

  lemma HoldsSwept(l: Limits, times: seq<nat>, e: Entry, now: nat)
    requires Holds(l, times, e.attempts, now) && Idle(l, e, now)
    ensures Holds(l, times, [], now)
  {
    forall i | 0 <= i < |times| ensures now - times[i] > l.window {
      if e.attempts != [] {
        assert e.attempts[|e.attempts| - 1] == times[|times| - 1];
      }
    }
    assert times[|times|..] == [];
  }

  lemma HoldsJudged(l: Limits, times: seq<nat>, e: Entry, now: nat)
    requires Holds(l, times, e.attempts, now)
    ensures var (ok, judged) := Judge(l, e, now);
      && (ok <==> e.blockUntil <= now && Within(times, now, l.window) < l.maxAttempts)
      && Holds(l, times + (if ok then [now] else []), judged.attempts, now)
  {
    hide Holds, Trimmed, Within;
    assert times + [] == times;
    HoldsTrimmed(l, times, e.attempts, now);
    HoldsAdmitted(l, times, Trimmed(l, e.attempts, now), now);
  }

  /** The entry a check judges: the key's own, unless the sweep has just dropped it. */
  lemma HoldsAtCheck(l: Limits, st: State, key: string, times: seq<nat>, now: nat)
    requires Holds(l, times, Queue(st, key), now)
    ensures CheckStep(l, st, key, now, true).0 <==>
      !Blocked(st, key, now) && Within(times, now, l.window) < l.maxAttempts
    ensures var (ok, after) := CheckStep(l, st, key, now, true);
      Holds(l, times + (if ok then [now] else []), Queue(after, key), now)
  {
    hide Holds, Judge, Idle, Within;
    var sweeps := (st.checks + 1) % SWEEP_EVERY == 0;
    var entries := if sweeps then Swept(l, st.entries, now) else st.entries;
    if sweeps && key in st.entries && Idle(l, st.entries[key], now) {
      HoldsSwept(l, times, st.entries[key], now);
      IdleUnblocked(l, st.entries[key], now);
      assert Get(entries, key) == FRESH;
    } else {
      assert Get(entries, key) == Get(st.entries, key);
    }
    HoldsJudged(l, times, Get(entries, key), now);
  }

  lemma IdleUnblocked(l: Limits, e: Entry, now: nat)
    requires Idle(l, e, now)
    ensures e.blockUntil <= now
  {
  }

  lemma HoldsNext(l: Limits, st: State, e: Event, key: string, times: seq<nat>, clock: nat)
    requires Holds(l, times, Queue(st, key), clock) && clock <= Clock(clock, e)
    ensures Holds(l, RecentNext(l, st, e, key, times), Queue(Step(l, st, e, true), key), Clock(clock, e))
  {
    hide Holds, Judge, Idle;
    var now := Clock(clock, e);
    HoldsLater(l, times, Queue(st, key), clock, now);
    assert times + [] == times;
    match e
    case Checked(k, _) =>
      if k == key {
        HoldsAtCheck(l, st, key, times, now);
      } else if key in st.entries && Idle(l, st.entries[key], now) {
        HoldsSwept(l, times, st.entries[key], now);
      }
    case Failure(_, _) =>
    case Cleared(k) =>
      if k == key { HoldsNothing(l, clock); }
  }

  lemma HoldsNothing(l: Limits, clock: nat)
    ensures Holds(l, [], [], clock)
  {
  }

  lemma {:induction false} HoldsAfter(l: Limits, st: State, run: seq<Event>, key: string, times: seq<nat>, clock: nat)
    requires Holds(l, times, Queue(st, key), clock) && Steady(clock, run)
    ensures Holds(l, Recent(l, st, run, key, times), Queue(After(l, st, run, true), key), LastClock(clock, run))
    decreases |run|
  {
    hide Holds, Step, RecentNext;
    if run != [] {
      HoldsNext(l, st, run[0], key, times, clock);
      HoldsAfter(l, Step(l, st, run[0], true), run[1..], key, RecentNext(l, st, run[0], key, times),
                 Clock(clock, run[0]));
    }
  }

  const EMPTY := State(map[], 0)

  /**
   In every run from an empty limiter a check is admitted exactly when its key is not blocked and fewer
   than the maximum of its checks were admitted within the window since it was last cleared.
   */
  lemma AdmittedExactly(l: Limits, run: seq<Event>, key: string, clock: nat, now: nat)
    requires Steady(clock, run) && LastClock(clock, run) <= now
    ensures var st := After(l, EMPTY, run, true);
      CheckStep(l, st, key, now, true).0 <==>
        !Blocked(st, key, now) && Within(Recent(l, EMPTY, run, key, []), now, l.window) < l.maxAttempts
  {
    hide Holds, After, Recent, Within, LastClock, Steady, CheckStep;
    HoldsNothing(l, clock);
    HoldsAfter(l, EMPTY, run, key, [], clock);
    var st := After(l, EMPTY, run, true);
    HoldsLater(l, Recent(l, EMPTY, run, key, []), Queue(st, key), LastClock(clock, run), now);
    HoldsAtCheck(l, st, key, Recent(l, EMPTY, run, key, []), now);
  }

  // ---- exactly who is blocked ----

  /** The failures recorded for a key since it was last cleared: how many, and when the last one was. */
  datatype Record = Record(failures: nat, last: nat)

  function RecordNext(e: Event, key: string, r: Record): Record {
    if e == Cleared(key) then Record(0, 0)
    else if e.Failure? && e.key == key then Record(r.failures + 1, e.now)
    else r
  }

  function Recorded(run: seq<Event>, key: string, r: Record): Record
    decreases |run|
  {
    if run == [] then r else Recorded(run[1..], key, RecordNext(run[0], key, r))
  }

  /** No failure of the key comes more than an hour after the one before. */
  predicate Close(run: seq<Event>, key: string, r: Record)
    decreases |run|
  {
    run != [] ==>
      && (run[0].Failure? && run[0].key == key && r.failures > 0 ==> run[0].now - r.last <= IDLE_FORGET)
      && Close(run[1..], key, RecordNext(run[0], key, r))
  }

  /** Ten failures block for 30 s from the last one, twenty for 300 s, thirty for 1800 s. */
  predicate Barred(r: Record, now: nat) {
    || (r.failures >= 30 && now < r.last + 1800 * SECOND)
    || (r.failures >= 20 && now < r.last + 300 * SECOND)
    || (r.failures >= 10 && now < r.last + 30 * SECOND)
  }

  /** The entry carries the record, or was swept more than an hour after the last failure. */
  predicate Carries(e: Entry, r: Record, clock: nat, sweeping: bool) {
    || (e.failures == r.failures && (r.failures > 0 ==> e.lastFailure == r.last)
        && e.blockUntil == (if r.failures >= 10 then r.last + Backoff(r.failures) else 0))
    || (sweeping && e.failures == 0 && e.blockUntil == 0 && clock > r.last + IDLE_FORGET)
  }

  lemma JudgeFields(l: Limits, e: Entry, now: nat)
    ensures Judge(l, e, now).1 == e.(attempts := Judge(l, e, now).1.attempts)
  {
  }

  lemma CarriesNext(l: Limits, st: State, e: Event, key: string, r: Record, clock: nat, sweeping: bool)
    requires Carries(Get(st.entries, key), r, clock, sweeping) && clock <= Clock(clock, e)
    requires sweeping && e.Failure? && e.key == key && r.failures > 0 ==> e.now - r.last <= IDLE_FORGET
    requires r.failures == 0 ==> r.last == 0
    ensures Carries(Get(Step(l, st, e, sweeping).entries, key), RecordNext(e, key, r), Clock(clock, e), sweeping)
  {
    hide Judge;
    var now := Clock(clock, e);
    match e
    case Checked(k, _) =>
      var sweeps := sweeping && (st.checks + 1) % SWEEP_EVERY == 0;
      var entries := if sweeps then Swept(l, st.entries, now) else st.entries;
      JudgeFields(l, Get(entries, k), now);
      assert Carries(Get(entries, key), r, now, sweeping);
    case Failure(_, _) =>
    case Cleared(_) =>
  }

  lemma {:induction false} CarriesAfter(l: Limits, st: State, run: seq<Event>, key: string, r: Record, clock: nat,
                                        sweeping: bool)
    requires Carries(Get(st.entries, key), r, clock, sweeping) && Steady(clock, run)
    requires (sweeping ==> Close(run, key, r)) && (r.failures == 0 ==> r.last == 0)
    ensures Carries(Get(After(l, st, run, sweeping).entries, key), Recorded(run, key, r), LastClock(clock, run),
                    sweeping)
    decreases |run|
  {
    hide Carries, Step;
    if run != [] {
      CarriesNext(l, st, run[0], key, r, clock, sweeping);
      CarriesAfter(l, Step(l, st, run[0], sweeping), run[1..], key, RecordNext(run[0], key, r), Clock(clock, run[0]),
                   sweeping);
    }
  }

  /**
   In every run from an empty limiter a key is blocked exactly as its recorded failures since its last
   clear say; a limiter that sweeps may forget them only once an hour passes between two of them.
   */
  lemma BarredExactly(l: Limits, run: seq<Event>, key: string, clock: nat, now: nat, sweeping: bool)
    requires Steady(clock, run) && LastClock(clock, run) <= now
    requires sweeping ==> Close(run, key, Record(0, 0))
    ensures Blocked(After(l, EMPTY, run, sweeping), key, now) <==> Barred(Recorded(run, key, Record(0, 0)), now)
  {
    hide After, Recorded, Close, Steady;
    CarriesAfter(l, EMPTY, run, key, Record(0, 0), clock, sweeping);
  }
}
