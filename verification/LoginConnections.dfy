/** Concurrent logins: connections that each run the Allow / Authenticate / Record dialogue against
    one shared limiter, interleaved at the limiter's lock. The TCP loop gives up after its last
    attempt or when it is told to wait; the SSH callback may be called again. */
module LoginConnections {
  import opened RateLimiting
  import opened LoginProtocol
  import opened Counting

  datatype Transport = Tcp | Ssh
  datatype Phase = Prompting | Checking(key: Key) | Finished
  datatype Conn = Conn(transport: Transport, left: int, phase: Phase)

  datatype Step =
    | Ask(conn: nat, key: Key, now: Time)
    | Reject(conn: nat, now: Time)
    | Accept(conn: nat)
    | HangUp(conn: nat)

  datatype World = World(conns: seq<Conn>, calls: seq<Call>)

  predicate Enabled(w: World, s: Step) {
    s.conn < |w.conns| &&
    match s
    case Ask(_, _, _) => w.conns[s.conn].phase.Prompting?
    case HangUp(_) => w.conns[s.conn].phase.Prompting?
    case _ => w.conns[s.conn].phase.Checking?
  }

  /** The limiter call a step makes, if any. */
  function CallOf(w: World, s: Step): seq<Call>
    requires Enabled(w, s)
  {
    match s
    case Ask(_, key, now) => [Allow(key, now)]
    case Reject(c, now) => [RecordFailure(w.conns[c].phase.key, now)]
    case Accept(c) => [RecordSuccess(w.conns[c].phase.key)]
    case HangUp(_) => []
  }

  function ConnAfter(cfg: Config, w: World, s: Step): Conn
    requires Enabled(w, s)
  {
    var c := w.conns[s.conn];
    match s
    case Ask(_, key, now) =>
      if Answer(cfg, Run(cfg, w.calls), Allow(key, now)).allowed then c.(phase := Checking(key))
      else if c.transport.Tcp? then c.(phase := Finished)
      else c
    case Reject(_, now) =>
      if c.transport.Ssh? then c.(phase := Prompting)
      else if !Answer(cfg, Run(cfg, w.calls), RecordFailure(c.phase.key, now)).allowed || c.left <= 1
        then c.(phase := Finished)
      else c.(left := c.left - 1, phase := Prompting)
    case Accept(_) => c.(phase := Finished)
    case HangUp(_) => c.(phase := Finished)
  }

  /** One step; a step that is not enabled changes nothing. */
  function Apply(cfg: Config, w: World, s: Step): World {
    if Enabled(w, s) then World(w.conns[s.conn := ConnAfter(cfg, w, s)], w.calls + CallOf(w, s)) else w
  }

  /** Every interleaving is a sequence of steps. */
  function Exec(cfg: Config, w: World, steps: seq<Step>): World {
    if steps == [] then w
    else Apply(cfg, Exec(cfg, w, steps[..|steps| - 1]), steps[|steps| - 1])
  }

  predicate Fresh(w: World) {
    w.calls == [] && forall i :: 0 <= i < |w.conns| ==> w.conns[i].phase.Prompting?
  }

  function IsChecking(key: Key): Conn -> bool {
    (c: Conn) => c.phase == Checking(key)
  }

  /** How many connections wait for a verdict on `key`. */
  function Waiting(w: World, key: Key): nat {
    Count(w.conns, IsChecking(key))
  }

  /** The largest number that ever wait at once. */
  function Overlap(cfg: Config, w: World, steps: seq<Step>, key: Key): nat {
    if steps == [] then Waiting(w, key)
    else Max(Overlap(cfg, w, steps[..|steps| - 1], key), Waiting(Exec(cfg, w, steps), key))
  }

  /** The attempts in flight are the connections waiting for their verdict. */
  ghost predicate Accounted(cfg: Config, w: World, key: Key, k: nat) {
    InFlight(cfg, w.calls, key) == Waiting(w, key) && Obeys(cfg, w.calls, key, k)
  }

  /** What one more call does to the attempts in flight, and when the protocol allows it. */
  lemma CallCounts(cfg: Config, calls: seq<Call>, call: Call, key: Key, k: nat)
    ensures InFlight(cfg, calls + [call], key) == InFlight(cfg, calls, key) +
            if call.key != key then 0
            else if call.Allow? then (if Answer(cfg, Run(cfg, calls), call).allowed then 1 else 0)
            else -1
    ensures Obeys(cfg, calls, key, k) && InFlight(cfg, calls + [call], key) <= k
            && (call.key == key && !call.Allow? ==> InFlight(cfg, calls, key) > 0) ==>
              Obeys(cfg, calls + [call], key, k)
  {
    hide Run, Answer;
    assert (calls + [call])[..|calls|] == calls;
  }

  lemma StepAccounted(cfg: Config, w: World, s: Step, key: Key, k: nat)
    requires Enabled(w, s) && Accounted(cfg, w, key, k) && Waiting(Apply(cfg, w, s), key) <= k
    ensures Accounted(cfg, Apply(cfg, w, s), key, k)
  {
    hide Run, Answer, Count, InFlight, Obeys;
    CountUpdate(w.conns, s.conn, ConnAfter(cfg, w, s), IsChecking(key));
    if s.HangUp? {
      assert Apply(cfg, w, s).calls == w.calls;
    } else {
      if w.conns[s.conn].phase == Checking(key) {
        CountSome(w.conns, s.conn, IsChecking(key));
      }
      CallCounts(cfg, w.calls, CallOf(w, s)[0], key, k);
    }
  }

  lemma {:induction false} ExecAccounted(cfg: Config, w: World, steps: seq<Step>, key: Key, k: nat)
    requires Fresh(w) && Overlap(cfg, w, steps, key) <= k
    ensures Accounted(cfg, Exec(cfg, w, steps), key, k)
  {
    if steps == [] {
      CountNone(w.conns, IsChecking(key));
    } else {
      var v, s := Exec(cfg, w, steps[..|steps| - 1]), steps[|steps| - 1];
      ExecAccounted(cfg, w, steps[..|steps| - 1], key, k);
      if Enabled(v, s) {
        StepAccounted(cfg, v, s, key, k);
      }
    }
  }

  lemma {:induction false} OverlapAtMostAll(cfg: Config, w: World, steps: seq<Step>, key: Key)
    ensures |Exec(cfg, w, steps).conns| == |w.conns| && Overlap(cfg, w, steps, key) <= |w.conns|
  {
    CountAtMost(Exec(cfg, w, steps).conns, IsChecking(key));
    if steps == [] {
    } else {
      hide Count;
      OverlapAtMostAll(cfg, w, steps[..|steps| - 1], key);
    }
  }

  /** However connections interleave, a short interval without a success between its failures holds at
      most maxFailures + k - 1 failures of a key, where k is the largest number of connections that ever
      wait at once for a verdict on that key; connections that come and go do not add up. */
  lemma ConnectionsBound(cfg: Config, w: World, steps: seq<Step>, key: Key, a: Time, b: Time)
    requires cfg.Normal() && cfg.enabled && b - a <= cfg.window && b - a <= cfg.lockout && Fresh(w)
    requires Clocked(Exec(cfg, w, steps).calls) && Unbroken(Exec(cfg, w, steps).calls, key, a, b)
    ensures var k := Max(1, Overlap(cfg, w, steps, key));
            && FailuresIn(Exec(cfg, w, steps).calls, key, a, b) <= cfg.maxFailures + k - 1
            && k <= Max(1, |w.conns|)
  {
    var k := Max(1, Overlap(cfg, w, steps, key));
    hide Overlap;
    OverlapAtMostAll(cfg, w, steps, key);
    ExecAccounted(cfg, w, steps, key, k);
    ThroughputBound(cfg, Exec(cfg, w, steps).calls, key, k, a, b);
  }

  /** A connection at its prompt can ask or hang up, and one waiting for its verdict can be accepted or
      rejected. No other step moves it. */
  lemma EnabledIff(w: World, c: nat, key: Key, now: Time)
    requires c < |w.conns|
    ensures Enabled(w, Ask(c, key, now)) <==> w.conns[c].phase == Prompting
    ensures Enabled(w, HangUp(c)) <==> w.conns[c].phase == Prompting
    ensures Enabled(w, Accept(c)) <==> w.conns[c].phase.Checking?
    ensures Enabled(w, Reject(c, now)) <==> w.conns[c].phase.Checking?
  {
  }

  // ---- What the steps record ----

  /** The key connection `c` asked about last. */
  function LastAsked(cfg: Config, w: World, steps: seq<Step>, c: nat): Key {
    if steps == [] then Key("")
    else
      var init, s := steps[..|steps| - 1], steps[|steps| - 1];
      if s.Ask? && s.conn == c && Enabled(Exec(cfg, w, init), s) then s.key else LastAsked(cfg, w, init, c)
  }

  /** The limiter calls of a run, read off its steps: questions with their keys, and verdicts on the key the
      connection asked about last. */
  function Trace(cfg: Config, w: World, steps: seq<Step>): seq<Call> {
    if steps == [] then w.calls
    else
      var init, s := steps[..|steps| - 1], steps[|steps| - 1];
      Trace(cfg, w, init) +
      if !Enabled(Exec(cfg, w, init), s) then []
      else match s
        case Ask(_, key, now) => [Allow(key, now)]
        case Reject(c, now) => [RecordFailure(LastAsked(cfg, w, init, c), now)]
        case Accept(c) => [RecordSuccess(LastAsked(cfg, w, init, c))]
        case HangUp(_) => []
  }

  lemma {:induction false} ChecksWhatItAsked(cfg: Config, w: World, steps: seq<Step>, c: nat)
    requires Fresh(w) && c < |w.conns|
    ensures |Exec(cfg, w, steps).conns| == |w.conns|
    ensures var phase := Exec(cfg, w, steps).conns[c].phase;
            phase.Checking? ==> phase.key == LastAsked(cfg, w, steps, c)
  {
    if steps == [] {
    } else {
      hide Answer, Run;
      ChecksWhatItAsked(cfg, w, steps[..|steps| - 1], c);
    }
  }

  /** In every interleaving a rejected attempt records a failure and an accepted one a success, each on the
      key its connection asked about, and nothing else reaches the limiter. */
  lemma {:induction false} CallsAreTheSteps(cfg: Config, w: World, steps: seq<Step>)
    requires Fresh(w)
    ensures Exec(cfg, w, steps).calls == Trace(cfg, w, steps)
  {
    if steps == [] {
    } else {
      var init, s := steps[..|steps| - 1], steps[|steps| - 1];
      CallsAreTheSteps(cfg, w, init);
      OverlapAtMostAll(cfg, w, init, Key(""));
      if s.conn < |w.conns| {
        ChecksWhatItAsked(cfg, w, init, s.conn);
      }
      hide ConnAfter, LastAsked;
    }
  }

  /** When a connection is done: it was accepted, or hung up, or is a TCP connection that was told to wait or
      has used its last attempt. An SSH connection may always be asked again. */
  lemma DoneIff(cfg: Config, w: World, s: Step)
    requires Enabled(w, s)
    ensures var before, after := w.conns[s.conn], Apply(cfg, w, s).conns[s.conn];
            && after.transport == before.transport
            && (after.phase.Finished? <==>
                || s.Accept? || s.HangUp?
                || (before.transport.Tcp? && s.Ask? &&
                    !Answer(cfg, Run(cfg, w.calls), Allow(s.key, s.now)).allowed)
                || (before.transport.Tcp? && s.Reject? &&
                    (before.left <= 1 ||
                     !Answer(cfg, Run(cfg, w.calls), RecordFailure(before.phase.key, s.now)).allowed)))
    ensures forall i :: 0 <= i < |w.conns| && i != s.conn ==> Apply(cfg, w, s).conns[i] == w.conns[i]
  {
    hide Answer, Run;
  }

  /** How often connection `c` has asked. */
  function Asks(cfg: Config, w: World, steps: seq<Step>, c: nat): nat {
    if steps == [] then 0
    else
      var init, s := steps[..|steps| - 1], steps[|steps| - 1];
      Asks(cfg, w, init, c) + Bit(s.Ask? && s.conn == c && Enabled(Exec(cfg, w, init), s))
  }

  /** A TCP connection asks at most as often as it has attempts, and while it may ask again it has an attempt
      left for it. */
  lemma {:induction false} TcpAsksBounded(cfg: Config, w: World, steps: seq<Step>, c: nat)
    requires Fresh(w) && c < |w.conns| && w.conns[c].transport.Tcp? && w.conns[c].left >= 1
    ensures |Exec(cfg, w, steps).conns| == |w.conns|
    ensures var conn, asked, most := Exec(cfg, w, steps).conns[c], Asks(cfg, w, steps, c), w.conns[c].left;
            && conn.transport.Tcp? && asked <= most
            && (conn.phase.Prompting? ==> conn.left == most - asked >= 1)
            && (conn.phase.Checking? ==> conn.left == most - asked + 1)
  {
    if steps == [] {
    } else {
      hide Answer, Run;
      TcpAsksBounded(cfg, w, steps[..|steps| - 1], c);
    }
  }

  // ---- The TCP loop itself ----

  /** What one connection types, and the limiter calls that other connections slip in before its own. */
  datatype Input =
    | ReadError
    | Credentials(key: Key, accepted: bool, askedAt: Time, recordedAt: Time,
                  beforeAsking: seq<Call>, beforeRecording: seq<Call>)

  datatype Outcome = Authenticated | Limited | Exhausted | Disconnected

  function AttemptsAllowed(configured: int): (n: nat)
    ensures n > 0 && n == if configured > 0 then configured else 3
  {
    if configured <= 0 then 3 else configured
  }

  function Replay(cfg: Config, es: Entries, calls: seq<Call>): Entries {
    if calls == [] then es
    else After(cfg, Replay(cfg, es, calls[..|calls| - 1]), calls[|calls| - 1])
  }

  /** A call of the connection, after those of others since its previous one. */
  datatype Turn = Turn(others: seq<Call>, own: Call)

  function AfterTurn(cfg: Config, es: Entries, t: Turn): Entries {
    After(cfg, Replay(cfg, es, t.others), t.own)
  }

  function AnswerTurn(cfg: Config, es: Entries, t: Turn): Decision {
    Answer(cfg, Replay(cfg, es, t.others), t.own)
  }

  function ReplayTurns(cfg: Config, es: Entries, turns: seq<Turn>): Entries {
    if turns == [] then es
    else AfterTurn(cfg, ReplayTurns(cfg, es, turns[..|turns| - 1]), turns[|turns| - 1])
  }

  /** The answer to the last call of a dialogue that started with table `es`. */
  function LastAnswer(cfg: Config, es: Entries, turns: seq<Turn>): Decision
    requires turns != []
  {
    AnswerTurn(cfg, ReplayTurns(cfg, es, turns[..|turns| - 1]), turns[|turns| - 1])
  }

  /** Question and verdict alternate, on the same key; every verdict follows a granted question,
      and a dialogue goes on only after a failure that is not told to wait. */
  ghost predicate Alternates(cfg: Config, es: Entries, turns: seq<Turn>) {
    turns == [] ||
    var init, call := turns[..|turns| - 1], turns[|turns| - 1].own;
    && Alternates(cfg, es, init)
    && (init != [] ==> LastAnswer(cfg, es, init).allowed && !init[|init| - 1].own.RecordSuccess?)
    && if |init| % 2 == 0 then call.Allow? else !call.Allow? && call.key == init[|init| - 1].own.key
  }

  /** What the result says about the dialogue. */
  ghost predicate Told(cfg: Config, es: Entries, turns: seq<Turn>, outcome: Outcome) {
    && Alternates(cfg, es, turns)
    && (outcome == Authenticated <==> turns != [] && turns[|turns| - 1].own.RecordSuccess?)
    && (outcome == Limited <==> turns != [] && !LastAnswer(cfg, es, turns).allowed)
  }

  /** Asking or recording once more, when the dialogue may go on. */
  lemma DialogueSnoc(cfg: Config, es: Entries, turns: seq<Turn>, t: Turn)
    requires Told(cfg, es, turns, Exhausted)
    requires if |turns| % 2 == 0 then t.own.Allow? else !t.own.Allow? && t.own.key == turns[|turns| - 1].own.key
    ensures var all, answer := turns + [t], AnswerTurn(cfg, ReplayTurns(cfg, es, turns), t);
            && ReplayTurns(cfg, es, all) == AfterTurn(cfg, ReplayTurns(cfg, es, turns), t)
            && LastAnswer(cfg, es, all) == answer
            && Told(cfg, es, all, if t.own.RecordSuccess? then Authenticated
                                  else if answer.allowed then Exhausted
                                  else Limited)
  {
    assert (turns + [t])[..|turns|] == turns;
  }

  function Asked(input: Input): Turn
    requires input.Credentials?
  {
    Turn(input.beforeAsking, Allow(input.key, input.askedAt))
  }

  function Verdict(input: Input): Turn
    requires input.Credentials?
  {
    Turn(input.beforeRecording,
         if input.accepted then RecordSuccess(input.key) else RecordFailure(input.key, input.recordedAt))
  }

  /** The dialogue asks about the credentials typed in, in that order, and records what became of them. */
  predicate Follows(inputs: seq<Input>, turns: seq<Turn>) {
    |turns| <= 2 * |inputs| &&
    forall j :: 0 <= j < |turns| ==>
      inputs[j / 2].Credentials? && turns[j] == if j % 2 == 0 then Asked(inputs[j / 2]) else Verdict(inputs[j / 2])
  }

  lemma FollowsMore(inputs: seq<Input>, before: seq<Turn>, attempt: nat, turns: seq<Turn>)
    requires Follows(inputs, before) && |before| == 2 * attempt && attempt < |inputs| && inputs[attempt].Credentials?
    requires var asked := Asked(inputs[attempt]);
             turns == before + [asked] || turns == before + [asked] + [Verdict(inputs[attempt])]
    ensures Follows(inputs, turns)
  {
    assert (2 * attempt) / 2 == attempt == (2 * attempt + 1) / 2;
  }

  /** What a dialogue that follows `inputs` records, spelled out: questions about the keys typed in, a success
      exactly for an accepted password and a failure for a rejected one. */
  lemma FollowedCalls(inputs: seq<Input>, turns: seq<Turn>)
    requires Follows(inputs, turns)
    ensures forall j :: 0 <= j < |turns| ==>
              var input := inputs[j / 2];
              && input.Credentials?
              && (j % 2 == 0 ==> turns[j] == Turn(input.beforeAsking, Allow(input.key, input.askedAt)))
              && (j % 2 == 1 && input.accepted ==> turns[j] == Turn(input.beforeRecording, RecordSuccess(input.key)))
              && (j % 2 == 1 && !input.accepted ==>
                    turns[j] == Turn(input.beforeRecording, RecordFailure(input.key, input.recordedAt)))
  {
  }

  /** A login succeeds exactly when the last credentials typed in were accepted, after being let through. */
  lemma LoggedInIff(cfg: Config, es: Entries, inputs: seq<Input>, turns: seq<Turn>, outcome: Outcome)
    requires Told(cfg, es, turns, outcome) && Follows(inputs, turns)
    ensures outcome == Authenticated <==>
            && |turns| > 0 && |turns| % 2 == 0
            && inputs[|turns| / 2 - 1].Credentials? && inputs[|turns| / 2 - 1].accepted
  {
    hide Alternates, LastAnswer;
    FollowedCalls(inputs, turns);
    if |turns| > 0 {
      assert (|turns| - 1) % 2 == 1 ==> (|turns| - 1) / 2 == |turns| / 2 - 1;
    }
  }

  lemma DialogueStarts(cfg: Config, es: Entries, inputs: seq<Input>)
    ensures ReplayTurns(cfg, es, []) == es && Told(cfg, es, [], Exhausted) && Follows(inputs, [])
  {
  }

  lemma ToldDisconnected(cfg: Config, es: Entries, turns: seq<Turn>)
    requires Told(cfg, es, turns, Exhausted)
    ensures Told(cfg, es, turns, Disconnected)
  {
  }

  /** Other connections use the limiter. */
  method Meanwhile(limiter: RateLimiter, calls: seq<Call>)
    requires limiter.Valid()
    modifies limiter.Repr()
    ensures limiter.Valid() && limiter.table == Replay(limiter.cfg, old(limiter.table), calls)
    ensures fresh(limiter.Repr() - old(limiter.Repr()))
  {
    assert Replay(limiter.cfg, limiter.table, calls[..0]) == limiter.table;
    hide RateLimiter.Valid, After, Answer;
    for i := 0 to |calls|
      invariant limiter.Valid() && limiter.table == Replay(limiter.cfg, old(limiter.table), calls[..i])
      invariant fresh(limiter.Repr() - old(limiter.Repr()))
    {
      assert calls[..i + 1][..i] == calls[..i];
      match calls[i] {
        case Allow(key, now) => var _ := limiter.Allow(key, now);
        case RecordFailure(key, now) => var _ := limiter.RecordFailure(key, now);
        case RecordSuccess(key) => limiter.RecordSuccess(key);
      }
    }
    assert calls[..|calls|] == calls;
  }

  /** The answers a whole run should give, by the full history of each key. */
  ghost predicate AnsweredByHistory(cfg: Config, calls: seq<Call>, answers: seq<Decision>) {
    |answers| == |calls| &&
    forall i :: 0 <= i < |calls| ==> answers[i] == ReferenceAnswer(cfg, History(calls[..i], calls[i].key), calls[i])
  }

  lemma AnswersSnoc(cfg: Config, calls: seq<Call>, answers: seq<Decision>, n: nat, d: Decision)
    requires n < |calls| && AnsweredByHistory(cfg, calls[..n], answers)
    requires d == ReferenceAnswer(cfg, History(calls[..n], calls[n].key), calls[n])
    ensures AnsweredByHistory(cfg, calls[..n + 1], answers + [d])
  {
    hide ReferenceAnswer, History;
    var all := calls[..n + 1];
    forall i | 0 <= i < |all|
      ensures (answers + [d])[i] == ReferenceAnswer(cfg, History(all[..i], all[i].key), all[i])
    {
      assert all[..i] == calls[..i] && (i < n ==> calls[..n][..i] == calls[..i]);
    }
  }

  lemma {:induction false} ClockedPrefix(calls: seq<Call>, n: nat)
    requires Clocked(calls) && n <= |calls|
    ensures Clocked(calls[..n])
    decreases |calls| - n
  {
    if n == |calls| {
      assert calls[..n] == calls;
    } else {
      ClockedPrefix(calls, n + 1);
      assert calls[..n + 1][..n] == calls[..n];
    }
  }

  /** A limiter object driven by any calls whose clock does not go back answers every one of them as the
      full history does. */
  method Decide(c: Config, calls: seq<Call>) returns (limiter: RateLimiter, answers: seq<Decision>)
    requires Clocked(calls)
    ensures fresh(limiter) && limiter.Valid() && limiter.cfg == Defaulted(c)
    ensures AnsweredByHistory(Defaulted(c), calls, answers)
  {
    limiter := new RateLimiter(c);
    answers := [];
    ghost var cfg := Defaulted(c);
    assert Run(cfg, calls[..0]) == map[];
    assert AnsweredByHistory(cfg, calls[..0], []);
    hide RateLimiter.Valid, Run, AnsweredByHistory, After, Answer, Replay, ReferenceAnswer, History, Clocked, Defaulted;
    for i := 0 to |calls|
      invariant limiter.Valid() && fresh(limiter) && fresh(limiter.Repr()) && limiter.cfg == cfg
      invariant limiter.table == Run(cfg, calls[..i]) && AnsweredByHistory(cfg, calls[..i], answers)
    {
      var d := Take(limiter, Turn([], calls[i]));
      NextDecision(cfg, calls, i);
      AnswersSnoc(cfg, calls, answers, i, d);
      answers := answers + [d];
    }
    assert calls[..|calls|] == calls;
  }

  lemma NextDecision(cfg: Config, calls: seq<Call>, i: nat)
    requires cfg.Normal() && Clocked(calls) && i < |calls|
    ensures var t := Turn([], calls[i]);
            && AfterTurn(cfg, Run(cfg, calls[..i]), t) == Run(cfg, calls[..i + 1])
            && AnswerTurn(cfg, Run(cfg, calls[..i]), t)
               == ReferenceAnswer(cfg, History(calls[..i], calls[i].key), calls[i])
  {
    assert calls[..i + 1] == calls[..i] + [calls[i]];
    ClockedPrefix(calls, i + 1);
    RunAfter(cfg, calls[..i], calls[i]);
    DecisionsMatchHistory(cfg, calls[..i], calls[i]);
    assert Replay(cfg, Run(cfg, calls[..i]), []) == Run(cfg, calls[..i]);
    hide Run, After, Answer, ReferenceAnswer, History, Clocked;
  }

  lemma SuccessAnswer(cfg: Config, es: Entries, key: Key)
    ensures Answer(cfg, es, RecordSuccess(key)) == Decision(true, 0, 0)
  {
  }

  /** One call of the connection, whatever others did before it. */
  method Take(limiter: RateLimiter, t: Turn) returns (d: Decision)
    requires limiter.Valid()
    modifies limiter.Repr()
    ensures limiter.Valid() && limiter.table == AfterTurn(limiter.cfg, old(limiter.table), t)
    ensures fresh(limiter.Repr() - old(limiter.Repr()))
    ensures d == AnswerTurn(limiter.cfg, old(limiter.table), t)
  {
    hide RateLimiter.Valid, After, Answer, Replay;
    Meanwhile(limiter, t.others);
    match t.own {
      case Allow(key, now) => d := limiter.Allow(key, now);
      case RecordFailure(key, now) => d := limiter.RecordFailure(key, now);
      case RecordSuccess(key) =>
        SuccessAnswer(limiter.cfg, limiter.table, key);
        limiter.RecordSuccess(key);
        d := Decision(true, 0, 0);
    }
  }

  /** One round of the loop: `outcome` is Exhausted when the loop goes on to the next attempt. */
  method Attempt(limiter: RateLimiter, input: Input, before: seq<Turn>, ghost es: Entries)
      returns (outcome: Outcome, turns: seq<Turn>)
    requires limiter.Valid() && limiter.table == ReplayTurns(limiter.cfg, es, before)
    requires input.Credentials? && |before| % 2 == 0 && Told(limiter.cfg, es, before, Exhausted)
    modifies limiter.Repr()
    ensures limiter.Valid() && limiter.table == ReplayTurns(limiter.cfg, es, turns)
    ensures fresh(limiter.Repr() - old(limiter.Repr()))
    ensures Told(limiter.cfg, es, turns, outcome) && outcome != Disconnected
    ensures turns == before + [Asked(input)] || turns == before + [Asked(input)] + [Verdict(input)]
    ensures outcome == Exhausted ==> |turns| == |before| + 2
    ensures outcome == Authenticated <==> |turns| == |before| + 2 && input.accepted
  {
    hide RateLimiter.Valid, AfterTurn, AnswerTurn, ReplayTurns, LastAnswer, Told;
    var decision := Take(limiter, Asked(input));
    DialogueSnoc(limiter.cfg, es, before, Asked(input));
    turns := before + [Asked(input)];
    if !decision.allowed {
      return Limited, turns;
    }
    decision := Take(limiter, Verdict(input));
    DialogueSnoc(limiter.cfg, es, turns, Verdict(input));
    turns := turns + [Verdict(input)];
    if input.accepted {
      return Authenticated, turns;
    }
    outcome := if decision.allowed then Exhausted else Limited;
  }

  /** The rounds of the loop, with other connections using the limiter between any two of its calls. */
  method Rounds(limiter: RateLimiter, maxAttempts: nat, inputs: seq<Input>)
      returns (outcome: Outcome, turns: seq<Turn>)
    requires limiter.Valid()
    modifies limiter.Repr()
    ensures limiter.Valid() && limiter.table == ReplayTurns(limiter.cfg, old(limiter.table), turns)
    ensures Told(limiter.cfg, old(limiter.table), turns, outcome)
    ensures Follows(inputs, turns) && |turns| <= 2 * maxAttempts
    ensures outcome == Exhausted ==> |turns| == 2 * maxAttempts
    ensures outcome == Disconnected ==>
              var n := |turns| / 2;
              |turns| % 2 == 0 && n < maxAttempts && (n == |inputs| || inputs[n].ReadError?)
  {
    ghost var es := limiter.table;
    turns := [];
    DialogueStarts(limiter.cfg, es, inputs);
    hide RateLimiter.Valid, ReplayTurns, Told, Follows;
    for attempt := 0 to maxAttempts
      invariant limiter.Valid() && limiter.table == ReplayTurns(limiter.cfg, es, turns)
      invariant fresh(limiter.Repr() - old(limiter.Repr()))
      invariant Told(limiter.cfg, es, turns, Exhausted) && Follows(inputs, turns)
      invariant |turns| == 2 * attempt && attempt <= |inputs|
    {
      if attempt >= |inputs| || inputs[attempt].ReadError? {
        ToldDisconnected(limiter.cfg, es, turns);
        assert |turns| / 2 == attempt;
        return Disconnected, turns;
      }
      ghost var before := turns;
      outcome, turns := Attempt(limiter, inputs[attempt], turns, es);
      FollowsMore(inputs, before, attempt, turns);
      if outcome != Exhausted {
        return;
      }
    }
    return Exhausted, turns;
  }

  /** The authenticate function: three rounds unless configured otherwise. It logs in exactly when the last
      credentials it let through were accepted, and records what became of all of them. */
  method Authenticate(limiter: RateLimiter, configured: int, inputs: seq<Input>)
      returns (outcome: Outcome, turns: seq<Turn>)
    requires limiter.Valid()
    modifies limiter.Repr()
    ensures limiter.Valid() && limiter.table == ReplayTurns(limiter.cfg, old(limiter.table), turns)
    ensures Told(limiter.cfg, old(limiter.table), turns, outcome) && Follows(inputs, turns)
    ensures var most := if configured > 0 then configured else 3;
            && |turns| <= 2 * most && (outcome == Exhausted ==> |turns| == 2 * most)
            && (outcome == Disconnected ==>
                  var n := |turns| / 2;
                  |turns| % 2 == 0 && n < most && (n == |inputs| || inputs[n].ReadError?))
    ensures outcome == Authenticated <==>
            && |turns| > 0 && |turns| % 2 == 0
            && inputs[|turns| / 2 - 1].Credentials? && inputs[|turns| / 2 - 1].accepted
    ensures forall j :: 0 <= j < |turns| ==>
              var input := inputs[j / 2];
              input.Credentials? &&
              turns[j].own == if j % 2 == 0 then Allow(input.key, input.askedAt)
                              else if input.accepted then RecordSuccess(input.key)
                              else RecordFailure(input.key, input.recordedAt)
  {
    outcome, turns := Rounds(limiter, AttemptsAllowed(configured), inputs);
    LoggedInIff(limiter.cfg, old(limiter.table), inputs, turns, outcome);
    FollowedCalls(inputs, turns);
    hide RateLimiter.Valid, ReplayTurns, Told;
  }
}
