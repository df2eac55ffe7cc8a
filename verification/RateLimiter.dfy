/** The login rate limiter of internal/auth/ratelimiter.go: its state transitions as functions,
    a reference limiter that only looks at the history of recorded calls, and the theorem that
    lazy pruning and deletion never change a decision.

    Times are nanoseconds since Go's zero time, so `ZERO_TIME` is `time.Time{}`. Every clock
    reading is a parameter; calls are taken in the order in which they get the lock. */
module RateLimiting {
  import opened Sequences

  type Time = int

  /** What auth.Key makes of an address and a user name. */
  datatype Key = Key(text: string)

  const ZERO_TIME: Time := 0
  const MINUTE: int := 60_000_000_000

  datatype Config = Config(enabled: bool, maxFailures: int, window: int, lockout: int) {
    predicate Normal() {
      maxFailures > 0 && window > 0 && lockout > 0
    }
  }

  /** The defaults NewRateLimiter fills in. */
  function Defaulted(c: Config): (r: Config)
    ensures r.Normal() && r.enabled == c.enabled
    ensures c.maxFailures > 0 ==> r.maxFailures == c.maxFailures
    ensures c.maxFailures <= 0 ==> r.maxFailures == 5
    ensures c.window > 0 ==> r.window == c.window
    ensures c.window <= 0 ==> r.window == 60_000_000_000
    ensures c.lockout > 0 ==> r.lockout == c.lockout
    ensures c.lockout <= 0 ==> r.lockout == 60_000_000_000
  {
    Config(c.enabled,
           if c.maxFailures <= 0 then 5 else c.maxFailures,
           if c.window <= 0 then MINUTE else c.window,
           if c.lockout <= 0 then MINUTE else c.lockout)
  }

  datatype Decision = Decision(allowed: bool, retryAfter: int, failures: nat)
  datatype Entry = Entry(failures: seq<Time>, blockedUntil: Time)
  type Entries = map<Key, Entry>

  datatype Call =
    | Allow(key: Key, now: Time)
    | RecordFailure(key: Key, now: Time)
    | RecordSuccess(key: Key)

  // ---- What the code does, call by call ----

  function NotBefore(cutoff: Time): Time -> bool {
    (t: Time) => t >= cutoff
  }

  /** The order-preserving filter that keepRecent computes. */
  function Recent(values: seq<Time>, cutoff: Time): (r: seq<Time>)
    ensures |r| <= |values|
  {
    Filter(values, NotBefore(cutoff))
  }

  predicate Blocked(e: Entry, now: Time) {
    e.blockedUntil != ZERO_TIME && now < e.blockedUntil
  }

  const NO_ENTRY := Entry([], ZERO_TIME)

  function Lookup(es: Entries, key: Key): Entry {
    if key in es then es[key] else NO_ENTRY
  }

  /** The entry Allow works on once it has pruned it. */
  function Pruned(cfg: Config, e: Entry, now: Time): Entry {
    Entry(Recent(e.failures, now - cfg.window), e.blockedUntil)
  }

  /** The entry RecordFailure leaves behind. */
  function Failed(cfg: Config, e: Entry, now: Time): Entry {
    var fs := Recent(e.failures, now - cfg.window) + [now];
    Entry(fs, if |fs| >= cfg.maxFailures then now + cfg.lockout else e.blockedUntil)
  }

  /** Allow drops an entry that has nothing left to say. */
  predicate Idle(e: Entry, now: Time) {
    !Blocked(e, now) && e.failures == []
  }

  function AfterAllow(cfg: Config, es: Entries, key: Key, now: Time): Entries {
    if key !in es then es
    else
      var e := Pruned(cfg, es[key], now);
      if Idle(e, now) then es - {key} else es[key := e]
  }

  function AfterFailure(cfg: Config, es: Entries, key: Key, now: Time): Entries {
    es[key := Failed(cfg, Lookup(es, key), now)]
  }

  function After(cfg: Config, es: Entries, call: Call): Entries {
    if !cfg.enabled then es
    else match call
      case Allow(key, now) => AfterAllow(cfg, es, key, now)
      case RecordFailure(key, now) => AfterFailure(cfg, es, key, now)
      case RecordSuccess(key) => es - {key}
  }

  function AllowDecision(e: Entry, now: Time): Decision {
    if Blocked(e, now) then Decision(false, e.blockedUntil - now, |e.failures|)
    else Decision(true, 0, |e.failures|)
  }

  function FailureDecision(cfg: Config, e: Entry): Decision {
    if |e.failures| >= cfg.maxFailures then Decision(false, cfg.lockout, |e.failures|)
    else Decision(true, 0, |e.failures|)
  }

  /** RecordSuccess returns nothing; it is given the answer of a limiter that has nothing to say. */
  function Answer(cfg: Config, es: Entries, call: Call): Decision {
    if !cfg.enabled then Decision(true, 0, 0)
    else match call
      case Allow(key, now) =>
        if key !in es then Decision(true, 0, 0) else AllowDecision(Pruned(cfg, es[key], now), now)
      case RecordFailure(key, now) => FailureDecision(cfg, Failed(cfg, Lookup(es, key), now))
      case RecordSuccess(_) => Decision(true, 0, 0)
  }

  function Run(cfg: Config, calls: seq<Call>): Entries {
    if calls == [] then map[]
    else After(cfg, Run(cfg, calls[..|calls| - 1]), calls[|calls| - 1])
  }

  // ---- The reference: decisions read off the call history alone ----

  /** Failure times of `key` since its last success. Nothing is ever pruned. */
  function History(calls: seq<Call>, key: Key): seq<Time> {
    if calls == [] then []
    else
      var h := History(calls[..|calls| - 1], key);
      match calls[|calls| - 1]
      case RecordFailure(k, now) => if k == key then h + [now] else h
      case RecordSuccess(k) => if k == key then [] else h
      case Allow(_, _) => h
  }

  ghost function FailuresSince(h: seq<Time>, cutoff: Time): nat {
    |set i | 0 <= i < |h| && h[i] >= cutoff|
  }

  /** When the lock set by the latest locking failure ends. */
  ghost function LockEnd(cfg: Config, h: seq<Time>): Time {
    if h == [] then ZERO_TIME
    else
      var last := h[|h| - 1];
      if FailuresSince(h, last - cfg.window) >= cfg.maxFailures then last + cfg.lockout
      else LockEnd(cfg, h[..|h| - 1])
  }

  ghost function ReferenceAnswer(cfg: Config, h: seq<Time>, call: Call): Decision {
    if !cfg.enabled then Decision(true, 0, 0)
    else match call
      case Allow(_, now) =>
        var n := FailuresSince(h, now - cfg.window);
        if now < LockEnd(cfg, h) then Decision(false, LockEnd(cfg, h) - now, n)
        else Decision(true, 0, n)
      case RecordFailure(_, now) =>
        var n := FailuresSince(h + [now], now - cfg.window);
        if n >= cfg.maxFailures then Decision(false, cfg.lockout, n) else Decision(true, 0, n)
      case RecordSuccess(_) => Decision(true, 0, 0)
  }

  // ---- Clocks ----

  function LastReading(calls: seq<Call>): Time {
    if calls == [] then ZERO_TIME
    else match calls[|calls| - 1]
      case RecordSuccess(_) => LastReading(calls[..|calls| - 1])
      case Allow(_, now) => now
      case RecordFailure(_, now) => now
  }

  /** Readings never go back, and none is before the zero time. */
  predicate Clocked(calls: seq<Call>) {
    calls == [] ||
    (Clocked(calls[..|calls| - 1]) &&
     (calls[|calls| - 1].RecordSuccess? || LastReading(calls[..|calls| - 1]) <= calls[|calls| - 1].now))
  }

  // ---- The filter ----

  lemma {:induction false} RecentRecent(s: seq<Time>, a: Time, b: Time)
    requires a <= b
    ensures Recent(Recent(s, a), b) == Recent(s, b)
  {
    if s == [] {
    } else {
      var init, last := s[..|s| - 1], s[|s| - 1];
      assert s == init + [last];
      hide Recent;
      RecentRecent(init, a, b);
      RecentSnoc(init, last, a);
      RecentSnoc(init, last, b);
      RecentSnoc(Recent(init, a), last, b);
    }
  }

  lemma RecentSnoc(s: seq<Time>, x: Time, cutoff: Time)
    ensures Recent(s + [x], cutoff) == if x >= cutoff then Recent(s, cutoff) + [x] else Recent(s, cutoff)
  {
    FilterSnoc(s, x, NotBefore(cutoff));
  }

  lemma SinceSnoc(h: seq<Time>, x: Time, cutoff: Time)
    ensures FailuresSince(h + [x], cutoff) == FailuresSince(h, cutoff) + if x >= cutoff then 1 else 0
  {
    var before := set i | 0 <= i < |h| && h[i] >= cutoff;
    var all := set i | 0 <= i < |h + [x]| && (h + [x])[i] >= cutoff;
    if x >= cutoff {
      assert all == before + {|h|};
    } else {
      assert all == before;
    }
  }

  /** The filter keeps exactly as many failures as lie in the window. */
  lemma {:induction false} RecentCounts(s: seq<Time>, cutoff: Time)
    ensures |Recent(s, cutoff)| == FailuresSince(s, cutoff)
  {
    if s == [] {
    } else {
      var init, last := s[..|s| - 1], s[|s| - 1];
      assert s == init + [last];
      hide Recent, FailuresSince;
      RecentCounts(init, cutoff);
      RecentSnoc(init, last, cutoff);
      SinceSnoc(init, last, cutoff);
    }
  }

  // ---- Pruning and deletion are invisible ----

  function Max(a: int, b: int): int {
    if a < b then b else a
  }

  /** From time `t` on, the stored entry and the full history answer alike: they agree on the
      widest window that can still be asked about, and on every lock that has not yet run out. */
  ghost predicate Tracks(cfg: Config, e: Entry, h: seq<Time>, t: Time) {
    && Recent(e.failures, t - cfg.window) == Recent(h, t - cfg.window)
    && Max(e.blockedUntil, t) == Max(LockEnd(cfg, h), t)
  }

  lemma TracksLater(cfg: Config, e: Entry, h: seq<Time>, t: Time, now: Time)
    requires t <= now && Tracks(cfg, e, h, t)
    ensures Tracks(cfg, e, h, now)
  {
    hide LockEnd, Recent;
    RecentRecent(e.failures, t - cfg.window, now - cfg.window);
    RecentRecent(h, t - cfg.window, now - cfg.window);
  }

  lemma LockEndSnoc(cfg: Config, h: seq<Time>, now: Time)
    ensures LockEnd(cfg, h + [now]) ==
            if |Recent(h + [now], now - cfg.window)| >= cfg.maxFailures then now + cfg.lockout
            else LockEnd(cfg, h)
  {
    RecentCounts(h + [now], now - cfg.window);
    assert (h + [now])[..|h|] == h;
  }

  lemma PrunedTracks(cfg: Config, e: Entry, h: seq<Time>, now: Time)
    requires Tracks(cfg, e, h, now)
    ensures Tracks(cfg, Pruned(cfg, e, now), h, now)
  {
    hide LockEnd, Recent;
    RecentRecent(e.failures, now - cfg.window, now - cfg.window);
  }

  /** Deleting an idle entry loses nothing. */
  lemma IdleTracks(cfg: Config, e: Entry, h: seq<Time>, now: Time)
    requires ZERO_TIME <= now && Tracks(cfg, e, h, now) && Idle(Pruned(cfg, e, now), now)
    ensures Tracks(cfg, NO_ENTRY, h, now)
  {
  }

  lemma FailedTracks(cfg: Config, e: Entry, h: seq<Time>, now: Time)
    requires cfg.Normal() && Tracks(cfg, e, h, now)
    ensures Tracks(cfg, Failed(cfg, e, now), h + [now], now)
  {
    var cut := now - cfg.window;
    var kept := Recent(h, cut);
    RecentRecent(h, cut, cut);
    RecentSnoc(kept, now, cut);
    RecentSnoc(h, now, cut);
    LockEndSnoc(cfg, h, now);
    assert Failed(cfg, e, now).failures == kept + [now] == Recent(h + [now], cut);
  }

  lemma {:induction false} RunTracks(cfg: Config, calls: seq<Call>, key: Key)
    requires cfg.Normal() && cfg.enabled && Clocked(calls)
    ensures Tracks(cfg, Lookup(Run(cfg, calls), key), History(calls, key), LastReading(calls))
    ensures LastReading(calls) >= ZERO_TIME
  {
    if calls == [] {
    } else {
      var init, call := calls[..|calls| - 1], calls[|calls| - 1];
      RunTracks(cfg, init, key);
      var es, h, t := Run(cfg, init), History(init, key), LastReading(init);
      var e, now := Lookup(es, key), LastReading(calls);
      TracksLater(cfg, e, h, t, now);
      if call.key == key && !call.RecordSuccess? {
        PrunedTracks(cfg, e, h, now);
        FailedTracks(cfg, e, h, now);
        if Idle(Pruned(cfg, e, now), now) {
          IdleTracks(cfg, e, h, now);
        }
      }
    }
  }

  lemma AllowAnswer(cfg: Config, e: Entry, h: seq<Time>, key: Key, now: Time)
    requires cfg.Normal() && cfg.enabled && ZERO_TIME <= now && Tracks(cfg, e, h, now)
    ensures AllowDecision(Pruned(cfg, e, now), now) == ReferenceAnswer(cfg, h, Allow(key, now))
  {
    RecentCounts(h, now - cfg.window);
  }

  lemma FailureAnswer(cfg: Config, e: Entry, h: seq<Time>, key: Key, now: Time)
    requires cfg.Normal() && cfg.enabled && Tracks(cfg, e, h, now)
    ensures FailureDecision(cfg, Failed(cfg, e, now)) == ReferenceAnswer(cfg, h, RecordFailure(key, now))
  {
    hide LockEnd, Recent, FailuresSince;
    RecentSnoc(h, now, now - cfg.window);
    RecentCounts(h + [now], now - cfg.window);
  }

  /** The main result. After any run with a non-decreasing clock, the next call is answered
      exactly as by the limiter that keeps the whole history and never prunes or deletes. */
  lemma DecisionsMatchHistory(cfg: Config, calls: seq<Call>, call: Call)
    requires cfg.Normal() && Clocked(calls + [call])
    ensures Answer(cfg, Run(cfg, calls), call) == ReferenceAnswer(cfg, History(calls, call.key), call)
  {
    assert (calls + [call])[..|calls|] == calls;
    if cfg.enabled {
      RunTracks(cfg, calls, call.key);
      var e, h, t := Lookup(Run(cfg, calls), call.key), History(calls, call.key), LastReading(calls);
      if !call.RecordSuccess? {
        TracksLater(cfg, e, h, t, call.now);
        AllowAnswer(cfg, e, h, call.key, call.now);
        FailureAnswer(cfg, e, h, call.key, call.now);
      }
    }
  }

  lemma RecentIsRecent(s: seq<Time>, cutoff: Time)
    ensures forall t :: t in Recent(s, cutoff) <==> t in s && t >= cutoff
  {
    forall t ensures t in Recent(s, cutoff) <==> t in s && t >= cutoff {
      FilterExact(s, NotBefore(cutoff), t);
      assert t in Recent(s, cutoff) <==> multiset(Recent(s, cutoff))[t] > 0;
      assert t in s <==> multiset(s)[t] > 0;
    }
  }

  lemma RecentSome(s: seq<Time>, cutoff: Time)
    ensures Recent(s, cutoff) != [] <==> exists t :: t in s && t >= cutoff
  {
    RecentIsRecent(s, cutoff);
    var kept := Recent(s, cutoff);
    hide Recent;
    if kept != [] {
      assert kept[0] in kept;
      assert kept[0] in s && kept[0] >= cutoff;
    }
  }

  /** What an enabled Allow leaves behind: nothing of a key that is not locked and has no failure in the
      window, and of any other key it knew exactly the failures in the window and the lock. */
  lemma AllowForgets(cfg: Config, es: Entries, key: Key, now: Time)
    requires cfg.enabled
    ensures var after := After(cfg, es, Allow(key, now));
            && after - {key} == es - {key}
            && (key in after <==>
                && key in es
                && ((es[key].blockedUntil != ZERO_TIME && now < es[key].blockedUntil)
                    || exists t :: t in es[key].failures && t >= now - cfg.window))
            && (key in after ==>
                && after[key].blockedUntil == es[key].blockedUntil
                && forall t :: t in after[key].failures <==> t in es[key].failures && t >= now - cfg.window)
  {
    if key in es {
      RecentIsRecent(es[key].failures, now - cfg.window);
      var kept := Recent(es[key].failures, now - cfg.window);
      assert Pruned(cfg, es[key], now) == Entry(kept, es[key].blockedUntil);
      RecentSome(es[key].failures, now - cfg.window);
      hide Recent, Pruned;
    }
  }

  /** A disabled limiter remembers nothing. */
  lemma {:induction false} DisabledKeepsNothing(cfg: Config, calls: seq<Call>)
    requires !cfg.enabled
    ensures Run(cfg, calls) == map[]
  {
    if calls == [] {
    } else {
      DisabledKeepsNothing(cfg, calls[..|calls| - 1]);
    }
  }

  lemma UpdateThenDrop(es: Entries, key: Key, e: Entry, e': Entry)
    ensures es[key := e] - {key} == es - {key}
    ensures es[key := e][key := e'] == es[key := e']
  {
  }

  // ---- The objects the code updates in place ----

  /** keepRecent: compacts the first `n` cells of its own backing array. The write position
      never passes the read position, so no value is lost before it is read. */
  method KeepRecent(values: array<Time>, n: nat, cutoff: Time) returns (m: nat)
    requires n <= values.Length
    modifies values
    ensures m <= n
    ensures values[..m] == Recent(old(values[..n]), cutoff)
    ensures values[n..] == old(values[n..])
  {
    m := 0;
    for i := 0 to n
      invariant m <= i
      invariant values[..m] == Recent(old(values[..i]), cutoff)
      invariant forall j :: i <= j < values.Length ==> values[j] == old(values[j])
    {
      var v := values[i];
      assert old(values[..i + 1]) == old(values[..i]) + [v];
      RecentSnoc(old(values[..i]), v, cutoff);
      if v >= cutoff {
        values[m] := v;
        m := m + 1;
        assert values[..m] == values[..m - 1] + [v];
      }
    }
  }

  /** Go's append on a slice that is the first `n` cells of `buf`: in place while there is room,
      else into a larger copy. The growth factor is not fixed by the language. */
  method Append(buf: array<Time>, n: nat, x: Time) returns (out: array<Time>)
    requires n <= buf.Length
    modifies buf
    ensures n < out.Length && out[..n + 1] == old(buf[..n]) + [x]
    ensures out == buf || fresh(out)
  {
    if n < buf.Length {
      out := buf;
    } else {
      out := new Time[2 * n + 1];
      for i := 0 to n
        invariant out[..i] == buf[..i]
        invariant buf[..] == old(buf[..])
      {
        out[i] := buf[i];
      }
    }
    out[n] := x;
    assert out[..n] == old(buf[..n]);
  }

  class RateEntry {
    var buf: array<Time>
    var len: nat
    var blockedUntil: Time
    ghost var value: Entry

    ghost predicate Valid()
      reads this, buf
    {
      len <= buf.Length && value == Entry(buf[..len], blockedUntil)
    }

    constructor ()
      ensures Valid() && fresh(buf) && value == Entry([], ZERO_TIME)
    {
      buf := new Time[0];
      len, blockedUntil := 0, ZERO_TIME;
      value := Entry([], ZERO_TIME);
    }

    method Prune(cutoff: Time) returns (failures: nat, blocked: Time)
      requires Valid()
      modifies this, buf
      ensures Valid() && buf == old(buf)
      ensures value == Entry(Recent(old(value.failures), cutoff), old(value.blockedUntil))
      ensures failures == |value.failures| && blocked == value.blockedUntil
    {
      len := KeepRecent(buf, len, cutoff);
      value := Entry(Recent(value.failures, cutoff), value.blockedUntil);
      failures, blocked := len, blockedUntil;
    }

    /** The slice update of RecordFailure: drop the old failures in place, then append `now`. */
    method Fail(cfg: Config, now: Time) returns (failures: nat)
      requires Valid()
      modifies this, buf
      ensures Valid() && (buf == old(buf) || fresh(buf))
      ensures value == Failed(cfg, old(value), now) && failures == |value.failures|
    {
      var n, _ := Prune(now - cfg.window);
      buf := Append(buf, n, now);
      len := n + 1;
      if len >= cfg.maxFailures {
        blockedUntil := now + cfg.lockout;
      }
      value := Entry(value.failures + [now], blockedUntil);
      failures := len;
    }
  }

  class RateLimiter {
    const cfg: Config
    var entries: map<Key, RateEntry>
    ghost var table: Entries
    ghost var owner: map<object, Key>

    /** `table` is what the heap holds; `owner` says which key each object belongs to, so that
        entries share neither objects nor backing arrays. */
    ghost predicate Valid()
      reads this, owner.Keys
    {
      && cfg.Normal() && this !in owner && table.Keys == entries.Keys
      && forall k :: k in entries ==> Sound(k)
    }

    ghost predicate Sound(k: Key)
      reads this, owner.Keys
    {
      && k in entries && k in table
      && Owns(k, entries[k]) && Owns(k, entries[k].buf) && entries[k].Valid() && entries[k].value == table[k]
    }

    ghost predicate Owns(k: Key, o: object)
      reads this
    {
      o in owner && owner[o] == k
    }

    /** An entry stays sound while nothing of its own is touched. */
    twostate lemma StaysSound(k: Key)
      requires old(Sound(k)) && k in entries && entries[k] == old(entries[k])
      requires k in table && table[k] == old(table[k])
      requires unchanged(entries[k]) && unchanged(old(entries[k].buf))
      requires Owns(k, entries[k]) && Owns(k, entries[k].buf)
      ensures Sound(k)
    {
    }

    ghost function Repr(): set<object>
      reads this
    {
      owner.Keys + {this}
    }

    constructor (c: Config)
      ensures Valid() && fresh(Repr()) && cfg == Defaulted(c) && table == map[]
    {
      cfg := Defaulted(c);
      entries, table := map[], map[];
      owner := map[];
    }

    /** Frame of an in-place entry update: every other entry keeps its value. */
    method PruneAt(key: Key, now: Time) returns (failures: nat, blockedUntil: Time)
      requires Valid() && key in entries
      modifies this`table, entries[key], entries[key].buf
      ensures Valid() && table == old(table)[key := Pruned(cfg, old(table)[key], now)]
      ensures failures == |table[key].failures| && blockedUntil == table[key].blockedUntil
    {
      hide Recent, RateEntry.Valid;
      assert Sound(key);
      failures, blockedUntil := entries[key].Prune(now - cfg.window);
      table := table[key := entries[key].value];
      forall k | k in entries ensures Sound(k) {
        assert old(Sound(k));
        if k != key {
          hide Sound;
          StaysSound(k);
        }
      }
      hide Sound;
    }

    method FailAt(key: Key, now: Time) returns (failures: nat)
      requires Valid() && key in entries
      modifies this`table, this`owner, entries[key], entries[key].buf
      ensures Valid() && fresh(Repr() - old(Repr()))
      ensures table == old(table)[key := Failed(cfg, old(table)[key], now)]
      ensures failures == |table[key].failures|
    {
      hide Failed, RateEntry.Valid;
      assert Sound(key);
      failures := entries[key].Fail(cfg, now);
      assert entries[key].buf in owner ==> owner[entries[key].buf] == key;
      owner := owner[entries[key].buf := key];
      table := table[key := entries[key].value];
      forall k | k in entries ensures Sound(k) {
        assert old(Sound(k));
        if k != key {
          StaysSound(k);
        }
      }
      hide Sound;
    }

    method Insert(key: Key)
      requires Valid() && key !in entries
      modifies this
      ensures Valid() && fresh(Repr() - old(Repr())) && key in entries
      ensures fresh(entries[key]) && fresh(entries[key].buf)
      ensures table == old(table)[key := NO_ENTRY]
    {
      hide RateEntry.Valid;
      var created := new RateEntry();
      entries := entries[key := created];
      table := table[key := created.value];
      owner := owner[created := key][created.buf := key];
      forall k | k in entries ensures Sound(k) {
        if k != key {
          assert old(Sound(k));
          StaysSound(k);
        }
      }
      hide Sound;
    }

    method Drop(key: Key)
      requires Valid()
      modifies this`entries, this`table
      ensures Valid() && table == old(table) - {key}
    {
      entries, table := entries - {key}, table - {key};
    }

    method Allow(key: Key, now: Time) returns (d: Decision)
      requires Valid()
      modifies Repr()
      ensures Valid() && fresh(Repr() - old(Repr()))
      ensures table == After(cfg, old(table), Call.Allow(key, now))
      ensures d == Answer(cfg, old(table), Call.Allow(key, now))
    {
      if !cfg.enabled || key !in entries {
        return Decision(true, 0, 0);
      }
      hide Valid, Recent;
      var failures, blockedUntil := PruneAt(key, now);
      if blockedUntil != ZERO_TIME && now < blockedUntil {
        return Decision(false, blockedUntil - now, failures);
      }
      d := Decision(true, 0, failures);
      if failures == 0 {
        UpdateThenDrop(old(table), key, table[key], NO_ENTRY);
        Drop(key);
      }
    }

    method RecordFailure(key: Key, now: Time) returns (d: Decision)
      requires Valid()
      modifies Repr()
      ensures Valid() && fresh(Repr() - old(Repr()))
      ensures table == After(cfg, old(table), Call.RecordFailure(key, now))
      ensures d == Answer(cfg, old(table), Call.RecordFailure(key, now))
    {
      if !cfg.enabled {
        return Decision(true, 0, 0);
      }
      if key !in entries {
        Insert(key);
      }
      hide Failed, Valid;
      UpdateThenDrop(old(table), key, NO_ENTRY, Failed(cfg, NO_ENTRY, now));
      var failures := FailAt(key, now);
      assert table[key] == Failed(cfg, Lookup(old(table), key), now);
      if failures >= cfg.maxFailures {
        return Decision(false, cfg.lockout, failures);
      }
      return Decision(true, 0, failures);
    }

    method RecordSuccess(key: Key)
      requires Valid()
      modifies this
      ensures Valid() && owner == old(owner)
      ensures table == After(cfg, old(table), Call.RecordSuccess(key))
    {
      if cfg.enabled {
        Drop(key);
      }
    }
  }
}
