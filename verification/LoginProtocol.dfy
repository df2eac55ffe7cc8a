/** How logins drive the rate limiter (internal/server/tcp.go, the SSH password callback): every
    attempt asks Allow, authenticates, and then records the verdict, while other attempts run in
    between. From this protocol follows a bound on how many failures any short interval can hold. */
module LoginProtocol {
  import opened RateLimiting
  import opened Sequences

  // ---- Attempts in flight ----

  predicate Granted(cfg: Config, calls: seq<Call>, call: Call) {
    call.Allow? && Answer(cfg, Run(cfg, calls), call).allowed
  }

  /** Attempts on `key` that were let through and have not recorded their verdict yet. */
  function InFlight(cfg: Config, calls: seq<Call>, key: Key): int {
    if calls == [] then 0
    else
      var init, call := calls[..|calls| - 1], calls[|calls| - 1];
      InFlight(cfg, init, key) +
      if call.key != key then 0
      else if call.Allow? then (if Granted(cfg, init, call) then 1 else 0)
      else -1
  }

  /** Verdicts on `key` are only recorded by attempts in flight, and at most `k` of those ever
      overlap. Calls on other keys are unconstrained. */
  predicate Obeys(cfg: Config, calls: seq<Call>, key: Key, k: nat) {
    calls == [] ||
    var init, call := calls[..|calls| - 1], calls[|calls| - 1];
    && Obeys(cfg, init, key, k)
    && (call.key == key && !call.Allow? ==> InFlight(cfg, init, key) > 0)
    && InFlight(cfg, calls, key) <= k
  }

  /** Failures of `key` recorded at times in [a, b). */
  function FailuresIn(calls: seq<Call>, key: Key, a: Time, b: Time): nat {
    if calls == [] then 0
    else
      var call := calls[|calls| - 1];
      FailuresIn(calls[..|calls| - 1], key, a, b) +
      if call.RecordFailure? && call.key == key && a <= call.now < b then 1 else 0
  }

  /** No success on `key` falls between its failures in [a, b). */
  predicate Unbroken(calls: seq<Call>, key: Key, a: Time, b: Time) {
    calls == [] ||
    var init, call := calls[..|calls| - 1], calls[|calls| - 1];
    && Unbroken(init, key, a, b)
    && (call == RecordSuccess(key) ==> FailuresIn(init, key, a, b) == 0 || LastReading(init) >= b)
  }

  // ---- The throughput bound ----

  lemma RunAfter(cfg: Config, calls: seq<Call>, call: Call)
    ensures Run(cfg, calls + [call]) == After(cfg, Run(cfg, calls), call)
  {
    hide After;
    assert (calls + [call])[..|calls|] == calls;
  }

  /** What holds while the clock is still before `b`: the entry remembers every failure of the
      interval, and once there are maxFailures of them the lock covers the rest of it. */
  ghost predicate Counted(cfg: Config, e: Entry, c: nat, f: int, k: nat, a: Time, b: Time, t: Time) {
    && c == |Recent(e.failures, a)|
    && (c > 0 ==> a <= t)
    && (c >= cfg.maxFailures ==> e.blockedUntil >= b && c + f <= cfg.maxFailures + k - 1)
  }

  lemma AllowCounted(cfg: Config, e: Entry, c: nat, f: int, k: nat, a: Time, b: Time, t: Time, now: Time)
    requires cfg.Normal() && b - a <= cfg.window
    requires t <= now < b && Counted(cfg, e, c, f, k, a, b, t)
    ensures Counted(cfg, Pruned(cfg, e, now), c, f, k, a, b, now)
    ensures c >= cfg.maxFailures && ZERO_TIME <= now ==> Blocked(Pruned(cfg, e, now), now)
    ensures Pruned(cfg, e, now).failures == [] ==> c == 0
  {
    assert Recent([], a) == [];
    hide Recent;
    RecentRecent(e.failures, now - cfg.window, a);
  }

  lemma FailCounted(cfg: Config, e: Entry, c: nat, f: int, k: nat, a: Time, b: Time, t: Time, now: Time)
    requires cfg.Normal() && b - a <= cfg.window && b - a <= cfg.lockout
    requires t <= now < b && Counted(cfg, e, c, f, k, a, b, t)
    requires f <= k
    ensures Counted(cfg, Failed(cfg, e, now), if a <= now then c + 1 else c, f - 1, k, a, b, now)
  {
    var kept := Recent(e.failures, now - cfg.window);
    hide Recent;
    RecentRecent(e.failures, now - cfg.window, a);
    RecentSnoc(kept, now, a);
  }

  lemma {:induction false} RunCounted(cfg: Config, calls: seq<Call>, key: Key, k: nat, a: Time, b: Time)
    requires cfg.Normal() && cfg.enabled && b - a <= cfg.window && b - a <= cfg.lockout
    requires Clocked(calls) && Obeys(cfg, calls, key, k) && k >= 1 && Unbroken(calls, key, a, b)
    ensures var c, f := FailuresIn(calls, key, a, b), InFlight(cfg, calls, key);
            var t := LastReading(calls);
            && c <= cfg.maxFailures + k - 1 && 0 <= f <= k && ZERO_TIME <= t
            && (t < b ==> Counted(cfg, Lookup(Run(cfg, calls), key), c, f, k, a, b, t))
  {
    if calls == [] {
    } else {
      var init, call := calls[..|calls| - 1], calls[|calls| - 1];
      RunCounted(cfg, init, key, k, a, b);
      var e, t, now := Lookup(Run(cfg, init), key), LastReading(init), LastReading(calls);
      var c, f := FailuresIn(init, key, a, b), InFlight(cfg, init, key);
      if now < b {
        if call.key == key {
          match call
          case Allow(_, _) => AllowCounted(cfg, e, c, f, k, a, b, t, now);
          case RecordFailure(_, _) => FailCounted(cfg, e, c, f, k, a, b, t, now);
          case RecordSuccess(_) =>
        }
      }
    }
  }

  /** The throughput bound: an interval no longer than the window and the lockout holds at most
      maxFailures + k - 1 failures of a key with at most k attempts in flight. */
  lemma ThroughputBound(cfg: Config, calls: seq<Call>, key: Key, k: nat, a: Time, b: Time)
    requires cfg.Normal() && cfg.enabled && b - a <= cfg.window && b - a <= cfg.lockout
    requires Clocked(calls) && Obeys(cfg, calls, key, k) && k >= 1 && Unbroken(calls, key, a, b)
    ensures FailuresIn(calls, key, a, b) <= cfg.maxFailures + k - 1
  {
    RunCounted(cfg, calls, key, k, a, b);
  }

  lemma {:induction false} FailuresSplit(calls: seq<Call>, key: Key, a: Time, b: Time, c: Time)
    requires a <= b <= c
    ensures FailuresIn(calls, key, a, c) == FailuresIn(calls, key, a, b) + FailuresIn(calls, key, b, c)
  {
    if calls == [] {
    } else {
      FailuresSplit(calls[..|calls| - 1], key, a, b, c);
    }
  }

  /** A part of an unbroken interval is unbroken. */
  lemma {:induction false} UnbrokenPart(calls: seq<Call>, key: Key, a: Time, b: Time, a': Time, b': Time)
    requires Unbroken(calls, key, a, b) && a <= a' <= b' <= b
    ensures Unbroken(calls, key, a', b')
  {
    if calls == [] {
    } else {
      var init := calls[..|calls| - 1];
      UnbrokenPart(init, key, a, b, a', b');
      FailuresSplit(init, key, a, a', b);
      FailuresSplit(init, key, a', b', b);
    }
  }

  /** The rate over any time: n intervals, each no longer than window and lockout, hold at most n times as
      many failures. */
  lemma {:induction false} RateBound(cfg: Config, calls: seq<Call>, key: Key, k: nat, a: Time, step: nat, n: nat)
    requires cfg.Normal() && cfg.enabled && step <= cfg.window && step <= cfg.lockout
    requires Clocked(calls) && Obeys(cfg, calls, key, k) && k >= 1 && Unbroken(calls, key, a, a + n * step)
    ensures FailuresIn(calls, key, a, a + n * step) <= n * (cfg.maxFailures + k - 1)
  {
    if n == 0 {
      NoTimeNoFailures(calls, key, a);
    } else {
      var b, c := a + (n - 1) * step, a + n * step;
      var most := cfg.maxFailures + k - 1;
      assert c == b + step && a <= b && n * most == (n - 1) * most + most;
      hide *;
      UnbrokenPart(calls, key, a, c, a, b);
      UnbrokenPart(calls, key, a, c, b, c);
      RateBound(cfg, calls, key, k, a, step, n - 1);
      ThroughputBound(cfg, calls, key, k, b, c);
      FailuresSplit(calls, key, a, b, c);
    }
  }

  lemma {:induction false} NoTimeNoFailures(calls: seq<Call>, key: Key, a: Time)
    ensures FailuresIn(calls, key, a, a) == 0
  {
    if calls == [] {
    } else {
      NoTimeNoFailures(calls[..|calls| - 1], key, a);
    }
  }

  // ---- The bound is attained ----

  lemma RecentKeepsAll(s: seq<Time>, cutoff: Time)
    requires forall i :: 0 <= i < |s| ==> s[i] >= cutoff
    ensures Recent(s, cutoff) == s
  {
    FilterAll(s, NotBefore(cutoff));
  }

  /** `n` failures all recorded at the zero time, not locked. */
  ghost predicate AtStart(e: Entry, n: nat) {
    |e.failures| == n && e.blockedUntil == ZERO_TIME && forall i :: 0 <= i < n ==> e.failures[i] == ZERO_TIME
  }

  /** The facts a run at the zero time accumulates. */
  ghost predicate Burst(cfg: Config, calls: seq<Call>, key: Key, k: nat, failures: nat, flying: nat) {
    && Clocked(calls) && LastReading(calls) == ZERO_TIME
    && Obeys(cfg, calls, key, k) && Unbroken(calls, key, 0, 1)
    && FailuresIn(calls, key, 0, 1) == failures && InFlight(cfg, calls, key) == flying
  }

  /** One more question or failure at the zero time. */
  lemma BurstMore(cfg: Config, calls: seq<Call>, key: Key, k: nat, n: nat, flying: nat, call: Call)
    requires Burst(cfg, calls, key, k, n, flying) && !call.RecordSuccess? && call.key == key && call.now == ZERO_TIME
    requires if call.Allow? then Granted(cfg, calls, call) && flying < k else 0 < flying <= k
    ensures if call.Allow? then Burst(cfg, calls + [call], key, k, n, flying + 1)
            else Burst(cfg, calls + [call], key, k, n + 1, flying - 1)
  {
    hide Granted;
    assert (calls + [call])[..|calls|] == calls;
  }

  /** Asking at the zero time is granted and changes nothing. */
  lemma AskAtStart(cfg: Config, es: Entries, key: Key, n: nat)
    requires cfg.Normal() && cfg.enabled && AtStart(Lookup(es, key), n)
    ensures Answer(cfg, es, Allow(key, 0)).allowed && AtStart(Lookup(After(cfg, es, Allow(key, 0)), key), n)
  {
    RecentKeepsAll(Lookup(es, key).failures, -cfg.window);
    hide Recent;
  }

  lemma FailAtStart(cfg: Config, es: Entries, key: Key, n: nat)
    requires cfg.Normal() && cfg.enabled && AtStart(Lookup(es, key), n) && n + 1 < cfg.maxFailures
    ensures AtStart(Lookup(After(cfg, es, RecordFailure(key, 0)), key), n + 1)
  {
    RecentKeepsAll(Lookup(es, key).failures, -cfg.window);
    hide Recent;
  }

  lemma BurstAsk(cfg: Config, calls: seq<Call>, key: Key, k: nat, n: nat, flying: nat)
    requires cfg.Normal() && cfg.enabled && flying < k
    requires Burst(cfg, calls, key, k, n, flying) && AtStart(Lookup(Run(cfg, calls), key), n)
    ensures Burst(cfg, calls + [Allow(key, 0)], key, k, n, flying + 1)
    ensures AtStart(Lookup(Run(cfg, calls + [Allow(key, 0)]), key), n)
  {
    hide Run, After, Answer, Burst, AtStart, Lookup;
    RunAfter(cfg, calls, Allow(key, 0));
    AskAtStart(cfg, Run(cfg, calls), key, n);
    BurstMore(cfg, calls, key, k, n, flying, Allow(key, 0));
  }

  lemma BurstFail(cfg: Config, calls: seq<Call>, key: Key, k: nat, n: nat, flying: nat)
    requires cfg.Normal() && cfg.enabled && 0 < flying <= k
    requires Burst(cfg, calls, key, k, n, flying)
    ensures Burst(cfg, calls + [RecordFailure(key, 0)], key, k, n + 1, flying - 1)
    ensures AtStart(Lookup(Run(cfg, calls), key), n) && n + 1 < cfg.maxFailures ==>
              AtStart(Lookup(Run(cfg, calls + [RecordFailure(key, 0)]), key), n + 1)
  {
    hide Run, After, Answer, Burst, AtStart, Lookup;
    RunAfter(cfg, calls, RecordFailure(key, 0));
    if AtStart(Lookup(Run(cfg, calls), key), n) && n + 1 < cfg.maxFailures {
      FailAtStart(cfg, Run(cfg, calls), key, n);
    }
    BurstMore(cfg, calls, key, k, n, flying, RecordFailure(key, 0));
  }

  lemma BurstPairs(cfg: Config, key: Key, k: nat, n: nat) returns (calls: seq<Call>)
    requires cfg.Normal() && cfg.enabled && k >= 1 && n < cfg.maxFailures
    ensures Burst(cfg, calls, key, k, n, 0) && AtStart(Lookup(Run(cfg, calls), key), n)
  {
    calls := [];
    for i := 0 to n
      invariant Burst(cfg, calls, key, k, i, 0) && AtStart(Lookup(Run(cfg, calls), key), i)
    {
      BurstAsk(cfg, calls, key, k, i, 0);
      BurstFail(cfg, calls + [Allow(key, 0)], key, k, i, 1);
      calls := calls + [Allow(key, 0)] + [RecordFailure(key, 0)];
    }
  }

  /** No smaller bound holds: for every configuration and every k some run that obeys the protocol
      records exactly maxFailures + k - 1 failures within one nanosecond. */
  lemma BoundIsAttained(cfg: Config, key: Key, k: nat) returns (calls: seq<Call>)
    requires cfg.Normal() && cfg.enabled && k >= 1
    ensures Clocked(calls) && Obeys(cfg, calls, key, k) && Unbroken(calls, key, 0, 1)
    ensures FailuresIn(calls, key, 0, 1) == cfg.maxFailures + k - 1
  {
    var n := cfg.maxFailures - 1;
    calls := BurstPairs(cfg, key, k, n);
    for i := 0 to k
      invariant Burst(cfg, calls, key, k, n, i) && AtStart(Lookup(Run(cfg, calls), key), n)
    {
      BurstAsk(cfg, calls, key, k, n, i);
      calls := calls + [Allow(key, 0)];
    }
    for i := 0 to k
      invariant Burst(cfg, calls, key, k, n + i, k - i)
    {
      BurstFail(cfg, calls, key, k, n + i, k - i);
      calls := calls + [RecordFailure(key, 0)];
    }
  }

  // ---- When the recorded answer is the truth ----

  /** RecordFailure's answer differs from what Allow would say at the same moment exactly when the key
      was locked already and the window holds too few failures to lock it again; it then says
      "allowed" although the lock still runs. */
  lemma FailureAnswerExactly(cfg: Config, es: Entries, key: Key, now: Time)
    requires cfg.Normal() && cfg.enabled && ZERO_TIME <= now
    ensures var recorded := Answer(cfg, es, RecordFailure(key, now)).allowed;
            var asked := Answer(cfg, After(cfg, es, RecordFailure(key, now)), Allow(key, now)).allowed;
            && (asked ==> recorded)
            && (asked != recorded <==>
                Blocked(Lookup(es, key), now)
                && |Recent(Lookup(es, key).failures, now - cfg.window)| + 1 < cfg.maxFailures)
  {
    var e := Failed(cfg, Lookup(es, key), now);
    assert After(cfg, es, RecordFailure(key, now))[key] == e;
    hide Recent;
  }

  lemma {:induction false} SoleAttemptUnlocked(cfg: Config, calls: seq<Call>, key: Key)
    requires cfg.Normal() && cfg.enabled && Clocked(calls) && Obeys(cfg, calls, key, 1)
    ensures InFlight(cfg, calls, key) == 1 ==> !Blocked(Lookup(Run(cfg, calls), key), LastReading(calls))
  {
    if calls == [] {
    } else {
      SoleAttemptUnlocked(cfg, calls[..|calls| - 1], key);
      hide Recent;
    }
  }

  /** With one attempt in flight, RecordFailure answers "allowed" exactly when an attempt made at
      that same moment would be let through. */
  lemma FailureAnswerIsHonest(cfg: Config, calls: seq<Call>, key: Key, now: Time)
    requires cfg.Normal() && cfg.enabled && Clocked(calls + [RecordFailure(key, now)])
    requires Obeys(cfg, calls + [RecordFailure(key, now)], key, 1)
    ensures Answer(cfg, Run(cfg, calls), RecordFailure(key, now)).allowed <==>
            Answer(cfg, Run(cfg, calls + [RecordFailure(key, now)]), Allow(key, now)).allowed
  {
    var after := calls + [RecordFailure(key, now)];
    assert after[..|calls|] == calls;
    ClockStarts(calls);
    SoleAttemptUnlocked(cfg, calls, key);
    hide Recent;
  }

  // ---- Which configurations let the recorded answer contradict the lock ----

  predicate Contradicts(cfg: Config, calls: seq<Call>, key: Key, now: Time) {
    var record := RecordFailure(key, now);
    Answer(cfg, Run(cfg, calls), record).allowed && !Answer(cfg, Run(cfg, calls + [record]), Allow(key, now)).allowed
  }

  /** The lock must outlast some of the failures that caused it. */
  predicate LockOutlastsFailures(cfg: Config) {
    || (cfg.maxFailures == 2 && cfg.lockout >= cfg.window + 2)
    || (cfg.maxFailures >= 3 && cfg.lockout >= 2)
  }

  /** A running lock was set by a failure that had maxFailures in its window. */
  lemma {:induction false} LockHasCause(cfg: Config, h: seq<Time>, now: Time) returns (i: nat)
    requires ZERO_TIME <= now < LockEnd(cfg, h)
    ensures i < |h| && h[i] + cfg.lockout > now
    ensures FailuresSince(h[..i + 1], h[i] - cfg.window) >= cfg.maxFailures
  {
    var n := |h| - 1;
    if FailuresSince(h, h[n] - cfg.window) >= cfg.maxFailures {
      i := n;
      assert h[..n + 1] == h;
    } else {
      i := LockHasCause(cfg, h[..n], now);
      assert h[..n][..i + 1] == h[..i + 1];
    }
  }

  lemma FailuresSinceGrows(h: seq<Time>, n: nat, a: Time, b: Time)
    requires n <= |h| && b <= a
    ensures FailuresSince(h[..n], a) <= FailuresSince(h, b)
  {
    var some := set i | 0 <= i < |h[..n]| && h[..n][i] >= a;
    var more := set i | 0 <= i < |h| && h[i] >= b;
    assert some <= more;
    SubsetIsSmaller(some, more);
  }

  lemma SubsetIsSmaller(a: set<int>, b: set<int>)
    requires a <= b
    ensures |a| <= |b|
  {
    assert b == a + (b - a);
  }

  /** The times in a history are no later than the clock. */
  lemma {:induction false} HistoryIsPast(calls: seq<Call>, key: Key)
    requires Clocked(calls)
    ensures forall i :: 0 <= i < |History(calls, key)| ==> History(calls, key)[i] <= LastReading(calls)
  {
    if calls == [] {
    } else {
      HistoryIsPast(calls[..|calls| - 1], key);
    }
  }

  lemma CountedSince(h: seq<Time>, i: nat, cutoff: Time)
    requires i < |h| && h[i] >= cutoff
    ensures FailuresSince(h, cutoff) >= 1
  {
    var all := set j | 0 <= j < |h| && h[j] >= cutoff;
    assert i in all;
    SubsetIsSmaller({i}, all);
  }

  /** There, while a lock runs, the window still holds enough failures to lock again. */
  lemma LockedWindowIsFull(cfg: Config, h: seq<Time>, now: Time)
    requires cfg.Normal() && !LockOutlastsFailures(cfg) && ZERO_TIME <= now < LockEnd(cfg, h)
    requires forall i :: 0 <= i < |h| ==> h[i] <= now
    ensures FailuresSince(h, now - cfg.window) + 1 >= cfg.maxFailures
  {
    var i := LockHasCause(cfg, h, now);
    hide LockEnd, FailuresSince;
    if cfg.lockout == 1 {
      FailuresSinceGrows(h, i + 1, h[i] - cfg.window, now - cfg.window);
    } else if h[i] >= now - cfg.window {
      CountedSince(h, i, now - cfg.window);
    }
  }

  lemma ContradictsIff(cfg: Config, calls: seq<Call>, key: Key, now: Time)
    requires cfg.Normal() && cfg.enabled && ZERO_TIME <= now
    ensures Contradicts(cfg, calls, key, now) <==>
            Blocked(Lookup(Run(cfg, calls), key), now)
            && |Recent(Lookup(Run(cfg, calls), key).failures, now - cfg.window)| + 1 < cfg.maxFailures
  {
    RunAfter(cfg, calls, RecordFailure(key, now));
    hide Run, Answer, After, Recent;
    FailureAnswerExactly(cfg, Run(cfg, calls), key, now);
  }

  lemma ClockedUpTo(calls: seq<Call>, key: Key, now: Time)
    ensures Clocked(calls + [RecordFailure(key, now)]) <==> Clocked(calls) && LastReading(calls) <= now
  {
    assert (calls + [RecordFailure(key, now)])[..|calls|] == calls;
  }

  /** In every other configuration no run, obeying the protocol or not, meets the contradiction. */
  lemma NoContradiction(cfg: Config, calls: seq<Call>, key: Key, now: Time)
    requires cfg.Normal() && cfg.enabled && Clocked(calls + [RecordFailure(key, now)])
    requires !LockOutlastsFailures(cfg)
    ensures !Contradicts(cfg, calls, key, now)
  {
    ClockedUpTo(calls, key, now);
    hide Run, History, LockEnd, Recent, FailuresSince, Contradicts, Clocked, LastReading;
    RunTracks(cfg, calls, key);
    HistoryIsPast(calls, key);
    var e, h := Lookup(Run(cfg, calls), key), History(calls, key);
    TracksLater(cfg, e, h, LastReading(calls), now);
    ContradictsIff(cfg, calls, key, now);
    RecentCounts(h, now - cfg.window);
    if Blocked(e, now) {
      LockedWindowIsFull(cfg, h, now);
    }
  }

  lemma RecentDropsAll(s: seq<Time>, cutoff: Time)
    requires forall i :: 0 <= i < |s| ==> s[i] < cutoff
    ensures Recent(s, cutoff) == []
  {
    FilterNone(s, NotBefore(cutoff));
  }

  /** The failure that locks, recorded `x` after the others and still within their window. */
  lemma BurstLocks(cfg: Config, calls: seq<Call>, key: Key, x: Time)
    requires cfg.Normal() && cfg.enabled && 0 <= x <= cfg.window
    requires Burst(cfg, calls, key, 2, cfg.maxFailures - 1, 2)
    requires AtStart(Lookup(Run(cfg, calls), key), cfg.maxFailures - 1)
    ensures var locked := calls + [RecordFailure(key, x)];
            && Clocked(locked) && LastReading(locked) == x
            && Obeys(cfg, locked, key, 2) && InFlight(cfg, locked, key) == 1
            && Lookup(Run(cfg, locked), key) == Entry(Lookup(Run(cfg, calls), key).failures + [x], x + cfg.lockout)
  {
    assert (calls + [RecordFailure(key, x)])[..|calls|] == calls;
    RecentKeepsAll(Lookup(Run(cfg, calls), key).failures, x - cfg.window);
  }

  /** Recorded by the last attempt in flight, just after the window of those first failures has closed. */
  lemma LateFailureContradicts(cfg: Config, calls: seq<Call>, key: Key, zeros: seq<Time>, x: Time)
    requires cfg.Normal() && cfg.enabled && (x == 0 || x == cfg.window)
    requires LockOutlastsFailures(cfg) && (cfg.maxFailures == 2 ==> x == 0) && (cfg.maxFailures > 2 ==> x == cfg.window)
    requires forall i :: 0 <= i < |zeros| ==> zeros[i] == ZERO_TIME
    requires Lookup(Run(cfg, calls), key) == Entry(zeros + [x], x + cfg.lockout)
    ensures Contradicts(cfg, calls, key, cfg.window + 1)
  {
    RecentDropsAll(zeros, 1);
    RecentSnoc(zeros, x, 1);
    hide Run, Recent, Contradicts;
    ContradictsIff(cfg, calls, key, cfg.window + 1);
  }

  lemma ObeysOneMore(cfg: Config, calls: seq<Call>, key: Key, now: Time)
    requires Clocked(calls) && LastReading(calls) <= now
    requires Obeys(cfg, calls, key, 2) && InFlight(cfg, calls, key) == 1
    ensures Clocked(calls + [RecordFailure(key, now)]) && Obeys(cfg, calls + [RecordFailure(key, now)], key, 2)
  {
    assert (calls + [RecordFailure(key, now)])[..|calls|] == calls;
    hide Run, Answer;
  }

  /** And in each of these configurations two attempts in flight are enough to meet it: one failure locks
      the key, and the other is recorded when the failures before it have left the window. */
  lemma ContradictionReached(cfg: Config, key: Key) returns (calls: seq<Call>, now: Time)
    requires cfg.Normal() && cfg.enabled && LockOutlastsFailures(cfg)
    ensures Clocked(calls + [RecordFailure(key, now)]) && Obeys(cfg, calls + [RecordFailure(key, now)], key, 2)
    ensures Contradicts(cfg, calls, key, now)
  {
    hide Run, Burst, Obeys, Clocked, InFlight, Contradicts, LastReading, LockOutlastsFailures, Lookup;
    OutlastingNeedsTwo(cfg);
    var n, x := cfg.maxFailures - 1, if cfg.maxFailures == 2 then 0 else cfg.window;
    now := cfg.window + 1;
    calls := BurstPairs(cfg, key, 2, n);
    BurstAsk(cfg, calls, key, 2, n, 0);
    calls := calls + [Allow(key, 0)];
    BurstAsk(cfg, calls, key, 2, n, 1);
    calls := calls + [Allow(key, 0)];
    var zeros := Lookup(Run(cfg, calls), key).failures;
    BurstLocks(cfg, calls, key, x);
    calls := calls + [RecordFailure(key, x)];
    ObeysOneMore(cfg, calls, key, now);
    LateFailureContradicts(cfg, calls, key, zeros, x);
  }

  lemma OutlastingNeedsTwo(cfg: Config)
    requires LockOutlastsFailures(cfg)
    ensures cfg.maxFailures >= 2
  {
  }

  lemma {:induction false} ClockStarts(calls: seq<Call>)
    requires Clocked(calls)
    ensures LastReading(calls) >= ZERO_TIME
  {
    if calls == [] {
    } else {
      ClockStarts(calls[..|calls| - 1]);
    }
  }
}
