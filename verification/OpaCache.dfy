/** The decision cache in front of the OPA sidecar (internal/policy/opa.go). An evaluation is a foreign
    call: its result is a parameter. Cache keys are hashes of inputs, taken to be different for different
    inputs where a result needs that. Clock readings are parameters. */
module OpaCache {

  datatype Input = Input(text: string)
  datatype Key = Key(text: string)
  datatype Lists = Lists(denies: seq<string>, warnings: seq<string>)
  datatype Eval = Failed | Evaluated(lists: Lists)
  datatype Cached = Cached(lists: Lists, expiresAt: int)
  type Cache = map<Key, Cached>
  datatype Lookup = Miss | Hit(lists: Lists)

  // ---- The two locked sections ----

  /** getCached: what it returns, and the cache without the entry it found expired. */
  function Get(c: Cache, key: Key, now: int): Lookup {
    if key !in c || now > c[key].expiresAt then Miss else Hit(c[key].lists)
  }

  function Expired(c: Cache, key: Key, now: int): Cache {
    if key in c && now > c[key].expiresAt then c - {key} else c
  }

  function Put(c: Cache, key: Key, lists: Lists, expiresAt: int): Cache {
    c[key := Cached(lists, expiresAt)]
  }

  // ---- Any interleaving of checks is a sequence of locked sections ----

  datatype Event =
    | Looked(input: Input, now: int)
    | Stored(input: Input, lists: Lists, now: int)  // after a successful evaluation of `input`

  function Step(keyOf: Input -> Key, ttl: int, c: Cache, e: Event): Cache {
    match e
    case Looked(input, now) => Expired(c, keyOf(input), now)
    case Stored(input, lists, now) => Put(c, keyOf(input), lists, now + ttl)
  }

  function Run(keyOf: Input -> Key, ttl: int, events: seq<Event>): Cache {
    if events == [] then map[]
    else Step(keyOf, ttl, Run(keyOf, ttl, events[..|events| - 1]), events[|events| - 1])
  }

  lemma RunSnoc(keyOf: Input -> Key, ttl: int, events: seq<Event>, e: Event)
    ensures Run(keyOf, ttl, events + [e]) == Step(keyOf, ttl, Run(keyOf, ttl, events), e)
  {
    hide Step;
    assert (events + [e])[..|events|] == events;
  }

  ghost predicate Injective(keyOf: Input -> Key) {
    forall a, b :: keyOf(a) == keyOf(b) ==> a == b
  }

  /** Readings never go back. */
  predicate Clocked(events: seq<Event>) {
    forall i, j :: 0 <= i < j < |events| ==> events[i].now <= events[j].now
  }

  /** The reference: the latest evaluation of `input`, kept for ever. */
  function Latest(events: seq<Event>, input: Input): seq<Event> {
    if events == [] then []
    else
      var e := events[|events| - 1];
      if e.Stored? && e.input == input then [e] else Latest(events[..|events| - 1], input)
  }

  function Remembered(events: seq<Event>, input: Input, ttl: int, now: int): Lookup {
    var last := Latest(events, input);
    if last != [] && last[0].Stored? && now <= last[0].now + ttl then Hit(last[0].lists) else Miss
  }

  /** An entry is the latest evaluation of its input, and a missing one has expired or never was. */
  ghost predicate Reflects(keyOf: Input -> Key, ttl: int, events: seq<Event>, input: Input) {
    var c, last := Run(keyOf, ttl, events), Latest(events, input);
    if last == [] then keyOf(input) !in c
    else
      && last[0].Stored? && last[0].input == input && last[0] in events
      && if keyOf(input) in c then c[keyOf(input)] == Cached(last[0].lists, last[0].now + ttl)
         else events[|events| - 1].now > last[0].now + ttl
  }

  lemma {:induction false} RunReflects(keyOf: Input -> Key, ttl: int, events: seq<Event>, input: Input)
    requires Injective(keyOf) && Clocked(events)
    ensures Reflects(keyOf, ttl, events, input)
  {
    if events == [] {
    } else {
      var init, e := events[..|events| - 1], events[|events| - 1];
      RunReflects(keyOf, ttl, init, input);
      assert keyOf(e.input) == keyOf(input) ==> e.input == input;
      assert forall x :: x in init ==> x in events;
    }
  }

  /** Expiring entries lazily is invisible: a lookup hits exactly when the latest evaluation of the same
      input was stored at most the time to live ago, and then returns its lists. */
  lemma HitsAreRecent(keyOf: Input -> Key, ttl: int, events: seq<Event>, input: Input, now: int)
    requires Injective(keyOf) && Clocked(events + [Looked(input, now)])
    ensures Get(Run(keyOf, ttl, events), keyOf(input), now) == Remembered(events, input, ttl, now)
    ensures Remembered(events, input, ttl, now).Hit? ==>
              exists i :: 0 <= i < |events| && events[i].Stored? && events[i].input == input
                          && now - events[i].now <= ttl && Remembered(events, input, ttl, now) == Hit(events[i].lists)
  {
    var all := events + [Looked(input, now)];
    assert forall i :: 0 <= i < |events| ==> all[i] == events[i];
    assert Clocked(events) by {
      forall i, j | 0 <= i < j < |events| ensures events[i].now <= events[j].now {
        assert all[i].now <= all[j].now;
      }
    }
    if events != [] {
      assert all[|events| - 1].now <= all[|events|].now;
    }
    RunReflects(keyOf, ttl, events, input);
    hide Run, Latest;
  }

  predicate FollowsOracle(events: seq<Event>, oracle: Input -> Eval) {
    forall i :: 0 <= i < |events| && events[i].Stored? ==> oracle(events[i].input) == Evaluated(events[i].lists)
  }

  /** If every evaluation that was stored gave the oracle's lists, so does every hit, whatever the clock
      and the interleaving. */
  lemma {:induction false} HitsAgreeWithOracle(keyOf: Input -> Key, ttl: int, events: seq<Event>,
                                               oracle: Input -> Eval, input: Input, now: int)
    requires Injective(keyOf)
    requires FollowsOracle(events, oracle)
    ensures Get(Run(keyOf, ttl, events), keyOf(input), now).Hit? ==>
              oracle(input) == Evaluated(Get(Run(keyOf, ttl, events), keyOf(input), now).lists)
    ensures keyOf(input) in Run(keyOf, ttl, events) ==>
              oracle(input) == Evaluated(Run(keyOf, ttl, events)[keyOf(input)].lists)
  {
    if events == [] {
    } else {
      HitsAgreeWithOracle(keyOf, ttl, events[..|events| - 1], oracle, input, now);
      var e := events[|events| - 1];
      assert keyOf(e.input) == keyOf(input) ==> e.input == input;
    }
  }

  // ---- Whole checks ----

  /** One Check: the clock is read for the lookup and again when the result is stored. */
  datatype Call = Call(input: Input, lookedAt: int, storedAt: int)

  /** The events one Check contributes when evaluations follow `oracle`. */
  function EventsOf(enabled: bool, c: Cache, key: Key, call: Call, eval: Eval): seq<Event> {
    if !enabled then []
    else
      [Looked(call.input, call.lookedAt)] +
      if Get(c, key, call.lookedAt).Miss? && eval.Evaluated? then [Stored(call.input, eval.lists, call.storedAt)]
      else []
  }

  function CacheAfter(enabled: bool, ttl: int, c: Cache, key: Key, call: Call, eval: Eval): Cache {
    if !enabled || Get(c, key, call.lookedAt).Hit? then c
    else
      var c' := Expired(c, key, call.lookedAt);
      if eval.Evaluated? then Put(c', key, eval.lists, call.storedAt + ttl) else c'
  }

  function Answer(enabled: bool, c: Cache, key: Key, call: Call, eval: Eval): Eval {
    if enabled && Get(c, key, call.lookedAt).Hit? then Evaluated(Get(c, key, call.lookedAt).lists) else eval
  }

  function History(enabled: bool, keyOf: Input -> Key, ttl: int, oracle: Input -> Eval, calls: seq<Call>): seq<Event> {
    if calls == [] then []
    else
      var h := History(enabled, keyOf, ttl, oracle, calls[..|calls| - 1]);
      var call := calls[|calls| - 1];
      h + EventsOf(enabled, Run(keyOf, ttl, h), keyOf(call.input), call, oracle(call.input))
  }

  lemma EventsFollowOracle(enabled: bool, c: Cache, key: Key, call: Call, oracle: Input -> Eval)
    ensures FollowsOracle(EventsOf(enabled, c, key, call, oracle(call.input)), oracle)
  {
  }

  lemma FollowsConcat(a: seq<Event>, b: seq<Event>, oracle: Input -> Eval)
    requires FollowsOracle(a, oracle) && FollowsOracle(b, oracle)
    ensures FollowsOracle(a + b, oracle)
  {
  }

  lemma {:induction false} HistoryFollowsOracle(enabled: bool, keyOf: Input -> Key, ttl: int, oracle: Input -> Eval,
                                                calls: seq<Call>)
    ensures FollowsOracle(History(enabled, keyOf, ttl, oracle, calls), oracle)
  {
    if calls == [] {
    } else {
      var h, call := History(enabled, keyOf, ttl, oracle, calls[..|calls| - 1]), calls[|calls| - 1];
      HistoryFollowsOracle(enabled, keyOf, ttl, oracle, calls[..|calls| - 1]);
      hide Run, FollowsOracle;
      EventsFollowOracle(enabled, Run(keyOf, ttl, h), keyOf(call.input), call, oracle);
      FollowsConcat(h, EventsOf(enabled, Run(keyOf, ttl, h), keyOf(call.input), call, oracle(call.input)), oracle);
    }
  }

  /** Running the locked sections of a check one after the other gives the cache Check leaves behind. */
  lemma CheckIsItsEvents(keyOf: Input -> Key, ttl: int, events: seq<Event>, call: Call, eval: Eval, enabled: bool)
    ensures var c, key := Run(keyOf, ttl, events), keyOf(call.input);
            Run(keyOf, ttl, events + EventsOf(enabled, c, key, call, eval))
            == CacheAfter(enabled, ttl, c, key, call, eval)
  {
    var c, key := Run(keyOf, ttl, events), keyOf(call.input);
    var es := EventsOf(enabled, c, key, call, eval);
    hide Run;
    if es == [] {
      assert events + es == events;
    } else {
      RunSnoc(keyOf, ttl, events, es[0]);
      if |es| == 1 {
        assert events + es == events + [es[0]];
      } else {
        RunSnoc(keyOf, ttl, events + [es[0]], es[1]);
        assert events + es == events + [es[0]] + [es[1]];
      }
    }
  }

  /** Against a fixed oracle a runner with the cache answers every check exactly as one without it: failures
      are never cached, and hits repeat the oracle. */
  lemma CachedEqualsUncached(keyOf: Input -> Key, ttl: int, oracle: Input -> Eval, calls: seq<Call>, call: Call)
    requires Injective(keyOf)
    ensures var c := Run(keyOf, ttl, History(true, keyOf, ttl, oracle, calls));
            Answer(true, c, keyOf(call.input), call, oracle(call.input))
            == Answer(false, map[], keyOf(call.input), call, oracle(call.input)) == oracle(call.input)
  {
    var h := History(true, keyOf, ttl, oracle, calls);
    HistoryFollowsOracle(true, keyOf, ttl, oracle, calls);
    HitsAgreeWithOracle(keyOf, ttl, h, oracle, call.input, call.lookedAt);
  }

  /** In any interleaving a check answers with the latest evaluation of its input if that was stored at most
      the time to live ago, whatever the sidecar would say now, and else with what the sidecar says. */
  lemma AnswerExactly(keyOf: Input -> Key, ttl: int, events: seq<Event>, call: Call, eval: Eval)
    requires Injective(keyOf) && Clocked(events + [Looked(call.input, call.lookedAt)])
    ensures var m := Remembered(events, call.input, ttl, call.lookedAt);
            Answer(true, Run(keyOf, ttl, events), keyOf(call.input), call, eval)
            == if m.Hit? then Evaluated(m.lists) else eval
    ensures Answer(false, Run(keyOf, ttl, events), keyOf(call.input), call, eval) == eval
  {
    HitsAreRecent(keyOf, ttl, events, call.input, call.lookedAt);
    hide Run, Remembered;
  }

  // ---- Checks one after the other, against their history ----

  /** A check, with what the sidecar would answer. */
  datatype Request = Request(call: Call, eval: Eval)

  datatype Memo = Nothing | Memo(lists: Lists, at: int)

  predicate Usable(ttl: int, m: Memo, now: int) {
    m.Memo? && now <= m.at + ttl
  }

  /** The reference: the last time the sidecar was asked about `input` and had an answer. It is asked only
      when the previous answer is too old. Nothing is ever dropped. */
  function LastAsked(ttl: int, past: seq<Request>, input: Input): Memo {
    if past == [] then Nothing
    else
      var init, q := past[..|past| - 1], past[|past| - 1];
      var m := LastAsked(ttl, init, input);
      if q.call.input == input && q.eval.Evaluated? && !Usable(ttl, m, q.call.lookedAt)
      then Memo(q.eval.lists, q.call.storedAt)
      else m
  }

  function ReferenceAnswer(ttl: int, past: seq<Request>, q: Request): Eval {
    var m := LastAsked(ttl, past, q.call.input);
    if Usable(ttl, m, q.call.lookedAt) then Evaluated(m.lists) else q.eval
  }

  /** The readings of successive checks never go back. */
  predicate InOrder(past: seq<Request>) {
    past == [] ||
    var init, call := past[..|past| - 1], past[|past| - 1].call;
    InOrder(init) && call.lookedAt <= call.storedAt && (init != [] ==> init[|init| - 1].call.storedAt <= call.lookedAt)
  }

  function CacheOf(enabled: bool, keyOf: Input -> Key, ttl: int, past: seq<Request>): Cache {
    if past == [] then map[]
    else
      var q := past[|past| - 1];
      CacheAfter(enabled, ttl, CacheOf(enabled, keyOf, ttl, past[..|past| - 1]), keyOf(q.call.input), q.call, q.eval)
  }

  /** The entry of `input` is the reference's, or is missing because that is too old by now. */
  ghost predicate Mirrors(keyOf: Input -> Key, ttl: int, past: seq<Request>, input: Input) {
    var c, m, key := CacheOf(true, keyOf, ttl, past), LastAsked(ttl, past, input), keyOf(input);
    if key in c then m.Memo? && c[key] == Cached(m.lists, m.at + ttl)
    else m.Nothing? || (past != [] && m.at + ttl < past[|past| - 1].call.storedAt)
  }

  lemma {:induction false} CacheMirrors(keyOf: Input -> Key, ttl: int, past: seq<Request>, input: Input)
    requires Injective(keyOf) && InOrder(past)
    ensures Mirrors(keyOf, ttl, past, input)
  {
    if past == [] {
    } else {
      var init, q := past[..|past| - 1], past[|past| - 1];
      CacheMirrors(keyOf, ttl, init, input);
      assert keyOf(q.call.input) == keyOf(input) ==> q.call.input == input;
    }
  }

  /** The main result on sequences of checks: every one is answered as by a runner that remembers every
      answer of the sidecar for ever and looks only at its age. */
  lemma ChecksMatchHistory(keyOf: Input -> Key, ttl: int, past: seq<Request>, q: Request)
    requires Injective(keyOf) && InOrder(past + [q])
    ensures Answer(true, CacheOf(true, keyOf, ttl, past), keyOf(q.call.input), q.call, q.eval)
            == ReferenceAnswer(ttl, past, q)
    ensures Answer(false, CacheOf(false, keyOf, ttl, past), keyOf(q.call.input), q.call, q.eval) == q.eval
  {
    assert (past + [q])[..|past|] == past;
    CacheMirrors(keyOf, ttl, past, q.call.input);
    hide CacheOf, LastAsked;
  }

  // ---- The runner and its slices ----

  method CloneStrings(items: array<string>) returns (out: array<string>)
    ensures fresh(out) && out[..] == items[..]
  {
    out := new string[items.Length](_ => "");
    for i := 0 to items.Length
      invariant out[..i] == items[..i]
    {
      out[i] := items[i];
    }
  }

  class Decision {
    const denies: array<string>
    const warnings: array<string>
    const expiresAt: int

    constructor (denies: array<string>, warnings: array<string>, expiresAt: int)
      ensures this.denies == denies && this.warnings == warnings && this.expiresAt == expiresAt
    {
      this.denies, this.warnings, this.expiresAt := denies, warnings, expiresAt;
    }

    ghost function Value(): Cached
      reads denies, warnings
    {
      Cached(Lists(denies[..], warnings[..]), expiresAt)
    }
  }

  class HttpRunner {
    const enabled: bool
    const ttl: int
    var cache: map<Key, Decision>
    ghost var table: Cache
    ghost var Repr: set<object>

    /** `table` is what the cached slices hold; those slices are the runner's own. */
    ghost predicate Valid()
      reads this, Repr
    {
      && this in Repr && table.Keys == cache.Keys
      && forall k :: k in cache ==>
           cache[k].denies in Repr && cache[k].warnings in Repr && cache[k].Value() == table[k]
    }

    /** NewHTTPRunner: a time to live that is not positive becomes thirty seconds. */
    constructor (enabled: bool, cacheTtl: int)
      ensures Valid() && fresh(Repr) && table == map[] && this.enabled == enabled
      ensures ttl == if cacheTtl > 0 then cacheTtl else 30_000_000_000
    {
      this.enabled := enabled;
      ttl := if cacheTtl <= 0 then 30_000_000_000 else cacheTtl;
      cache, table := map[], map[];
      Repr := {this};
    }

    method SetCached(key: Key, denies: array<string>, warnings: array<string>, expiresAt: int)
      requires Valid()
      modifies this
      ensures Valid() && fresh(Repr - old(Repr))
      ensures table == Put(old(table), key, Lists(denies[..], warnings[..]), expiresAt)
    {
      var d := CloneStrings(denies);
      var w := CloneStrings(warnings);
      var decision := new Decision(d, w, expiresAt);
      cache := cache[key := decision];
      table := table[key := decision.Value()];
      Repr := Repr + {d, w};
    }

    method Forget(key: Key)
      requires Valid()
      modifies this`cache, this`table
      ensures Valid() && table == old(table) - {key}
    {
      cache, table := cache - {key}, table - {key};
    }

    method Peek(key: Key) returns (present: bool, expiresAt: int)
      requires Valid()
      ensures present <==> key in table
      ensures present ==> expiresAt == table[key].expiresAt
    {
      present := key in cache;
      expiresAt := if present then cache[key].expiresAt else 0;
    }

    method CopyOf(key: Key) returns (d: array<string>, w: array<string>)
      requires Valid() && key in table
      ensures fresh(d) && fresh(w) && Lists(d[..], w[..]) == table[key].lists
    {
      d := CloneStrings(cache[key].denies);
      w := CloneStrings(cache[key].warnings);
    }

    /** getCached: copies of the cached lists, or nothing, dropping an entry found expired. */
    method GetCached(key: Key, now: int) returns (hit: bool, d: array<string>, w: array<string>)
      requires Valid()
      modifies this
      ensures Valid() && Repr == old(Repr) && table == Expired(old(table), key, now)
      ensures fresh(d) && fresh(w)
      ensures Get(old(table), key, now) == if hit then Hit(Lists(d[..], w[..])) else Miss
      ensures hit <==> key in old(table) && now <= old(table)[key].expiresAt
      ensures hit ==> table == old(table) && Lists(d[..], w[..]) == table[key].lists
      ensures !hit ==> table == old(table) - {key}
    {
      hide Valid;
      var present, expiresAt := Peek(key);
      hit := present && now <= expiresAt;
      if hit {
        d, w := CopyOf(key);
      } else {
        if present {
          Forget(key);
        }
        assert !present ==> old(table) - {key} == old(table);
        d, w := new string[0], new string[0];
      }
    }

    /** Check, given what the two queries return. The slices handed out are never the cached ones. */
    method Check(key: Key, ok: bool, denies: array<string>, warnings: array<string>, call: Call)
        returns (found: bool, d: array<string>, w: array<string>)
      requires Valid() && denies !in Repr && warnings !in Repr
      modifies this
      ensures Valid() && fresh(Repr - old(Repr)) && d !in Repr && w !in Repr
      ensures var eval := if ok then Evaluated(Lists(denies[..], warnings[..])) else Failed;
              && table == CacheAfter(enabled, ttl, old(table), key, call, eval)
              && Answer(enabled, old(table), key, call, eval) ==
                 if found then Evaluated(Lists(d[..], w[..])) else Failed
    {
      hide Valid;
      if enabled {
        found, d, w := GetCached(key, call.lookedAt);
        if found {
          return;
        }
      }
      d, w := denies, warnings;
      if !ok {
        return false, d, w;
      }
      if enabled {
        SetCached(key, denies, warnings, call.storedAt + ttl);
      }
      return true, d, w;
    }
  }

  /** A caller may overwrite any slice it holds: the runner stays valid and its answers do not change. */
  method Scribble(runner: HttpRunner, slice: array<string>, i: nat, text: string)
    requires runner.Valid() && slice !in runner.Repr && i < slice.Length
    modifies slice
    ensures runner.Valid() && runner.table == old(runner.table) && slice !in runner.Repr
  {
    slice[i] := text;
  }

  method ToArray(items: seq<string>) returns (out: array<string>)
    ensures fresh(out) && out[..] == items
  {
    out := new string[|items|](i requires 0 <= i < |items| => items[i]);
  }

  /** One check on the object, as values. */
  method CheckOnce(runner: HttpRunner, key: Key, q: Request) returns (answer: Eval)
    requires runner.Valid()
    modifies runner
    ensures runner.Valid() && fresh(runner.Repr - old(runner.Repr))
    ensures runner.table == CacheAfter(runner.enabled, runner.ttl, old(runner.table), key, q.call, q.eval)
    ensures answer == Answer(runner.enabled, old(runner.table), key, q.call, q.eval)
  {
    hide HttpRunner.Valid, CacheAfter, Answer;
    var denies := ToArray(if q.eval.Evaluated? then q.eval.lists.denies else []);
    var warnings := ToArray(if q.eval.Evaluated? then q.eval.lists.warnings else []);
    var found, d, w := runner.Check(key, q.eval.Evaluated?, denies, warnings, q.call);
    answer := if found then Evaluated(Lists(d[..], w[..])) else Failed;
  }

  ghost predicate AnsweredByHistory(enabled: bool, ttl: int, requests: seq<Request>, answers: seq<Eval>) {
    |answers| == |requests| &&
    forall i :: 0 <= i < |answers| ==>
      answers[i] == if enabled then ReferenceAnswer(ttl, requests[..i], requests[i]) else requests[i].eval
  }

  lemma AnswersSnoc(enabled: bool, ttl: int, requests: seq<Request>, answers: seq<Eval>, n: nat, answer: Eval)
    requires n < |requests| && AnsweredByHistory(enabled, ttl, requests[..n], answers)
    requires answer == if enabled then ReferenceAnswer(ttl, requests[..n], requests[n]) else requests[n].eval
    ensures AnsweredByHistory(enabled, ttl, requests[..n + 1], answers + [answer])
  {
    hide ReferenceAnswer;
    var all := requests[..n + 1];
    forall i | 0 <= i < |all|
      ensures (answers + [answer])[i] == if enabled then ReferenceAnswer(ttl, all[..i], all[i]) else all[i].eval
    {
      assert all[..i] == requests[..i] && (i < n ==> requests[..n][..i] == requests[..i]);
    }
  }

  lemma {:induction false} InOrderPrefix(past: seq<Request>, n: nat)
    requires InOrder(past) && n <= |past|
    ensures InOrder(past[..n])
    decreases |past| - n
  {
    if n == |past| {
      assert past[..n] == past;
    } else {
      InOrderPrefix(past, n + 1);
      assert past[..n + 1][..n] == past[..n];
    }
  }

  /** A runner object taken through any checks answers every one of them as the history of the sidecar's
      answers says, and without the cache as the sidecar does. */
  method CheckAll(enabled: bool, cacheTtl: int, keyOf: Input -> Key, requests: seq<Request>)
      returns (runner: HttpRunner, answers: seq<Eval>)
    requires Injective(keyOf) && InOrder(requests)
    ensures fresh(runner) && runner.Valid()
    ensures AnsweredByHistory(enabled, if cacheTtl > 0 then cacheTtl else 30_000_000_000, requests, answers)
  {
    runner := new HttpRunner(enabled, cacheTtl);
    answers := [];
    ghost var ttl := runner.ttl;
    assert requests[..0] == [];
    assert AnsweredByHistory(enabled, ttl, [], []);
    hide HttpRunner.Valid, AnsweredByHistory, CacheAfter, Answer, InOrder, ReferenceAnswer, Injective;
    for i := 0 to |requests|
      invariant runner.Valid() && fresh(runner) && fresh(runner.Repr)
      invariant runner.enabled == enabled && runner.ttl == ttl
      invariant runner.table == CacheOf(enabled, keyOf, ttl, requests[..i])
      invariant AnsweredByHistory(enabled, ttl, requests[..i], answers)
    {
      assert requests[..i + 1][..i] == requests[..i];
      assert requests[..i + 1] == requests[..i] + [requests[i]];
      InOrderPrefix(requests, i + 1);
      ChecksMatchHistory(keyOf, ttl, requests[..i], requests[i]);
      var answer := CheckOnce(runner, keyOf(requests[i].call.input), requests[i]);
      AnswersSnoc(enabled, ttl, requests, answers, i, answer);
      answers := answers + [answer];
    }
    assert requests[..|requests|] == requests;
  }
}
