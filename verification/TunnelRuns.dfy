/** More about whole runs of the tunnel protocol: which ids are issued, what the gauge shows, that
    goroutines never block one another for good, and that a Manager object driven by any interleaving
    holds what the protocol says. */
module TunnelRuns {
  import opened TunnelManager
  import opened TunnelProtocol
  import opened Counting
  import opened Words

  // ---- Ids ----

  /** This step is an open. */
  predicate Opens(s: State, step: Step) {
    step.Advance? && step.thread < |s.threads| && s.threads[step.thread].Opening?
  }

  /** The ids handed out in a run, in order. */
  function IssuedIds(steps: seq<Step>): seq<Id> {
    if steps == [] then []
    else
      var init, step := steps[..|steps| - 1], steps[|steps| - 1];
      IssuedIds(init) + if Opens(Exec(init), step) then [Exec(steps).threads[step.thread].t.id] else []
  }

  lemma OpenIssues(s: State, step: Step)
    ensures Opens(s, step) ==>
              && step.thread < |Apply(s, step).threads| && Apply(s, step).threads[step.thread].OpenHook?
              && Apply(s, step).threads[step.thread].t.id == TunnelId(NextSeq(SeqNo(s.opens)))
    ensures Apply(s, step).opens == s.opens + Bit(Opens(s, step))
  {
    hide TunnelId, NextSeq, CanCloseTunnel;
  }

  lemma SeqNext(opens: nat)
    ensures NextSeq(SeqNo(opens)) == SeqNo(opens + 1)
  {
  }

  lemma IssuedSnoc(steps: seq<Step>, step: Step)
    ensures var s := Exec(steps);
            && Exec(steps + [step]).opens == s.opens + Bit(Opens(s, step))
            && IssuedIds(steps + [step]) ==
               IssuedIds(steps) + if Opens(s, step) then [TunnelId(SeqNo(s.opens + 1))] else []
  {
    hide TunnelId, NextSeq, SeqNo, Apply, Opens;
    assert (steps + [step])[..|steps|] == steps;
    OpenIssues(Exec(steps), step);
    SeqNext(Exec(steps).opens);
  }

  lemma NothingIssued()
    ensures IssuedIds([]) == [] && Exec([]).opens == 0
  {
  }

  lemma {:induction false} NthId(steps: seq<Step>, n: nat)
    ensures |IssuedIds(steps)| == Exec(steps).opens
    ensures n < Exec(steps).opens ==> IssuedIds(steps)[n] == TunnelId(SeqNo(n + 1))
  {
    hide TunnelId, SeqNo, Opens, Exec, IssuedIds;
    if steps == [] {
      NothingIssued();
    } else {
      var init, step := steps[..|steps| - 1], steps[|steps| - 1];
      assert steps == init + [step];
      NthId(init, n);
      IssuedSnoc(init, step);
    }
  }

  lemma SeqNoRepeats(m: nat, n: nat)
    ensures SeqNo(m + 1) == SeqNo(n + 1) <==> m % TWO64 == n % TWO64
  {
  }

  /** In every run two opens get the same id exactly when the 64-bit counter has come round in between. */
  lemma IdsRepeatExactly(steps: seq<Step>, m: nat, n: nat)
    requires m < Exec(steps).opens && n < Exec(steps).opens
    ensures |IssuedIds(steps)| == Exec(steps).opens
    ensures IssuedIds(steps)[m] == IssuedIds(steps)[n] <==> m % TWO64 == n % TWO64
  {
    hide Exec, IssuedIds, TunnelId, SeqNo;
    NthId(steps, m);
    NthId(steps, n);
    TunnelIdInjective(SeqNo(m + 1), SeqNo(n + 1));
    SeqNoRepeats(m, n);
  }

  // ---- Progress ----

  /** How many steps a goroutine may still take. */
  function Rank(pc: Pc): nat {
    match pc
    case Opening(_) => 9
    case OpenHook(_) => 8
    case Pumping(_) => 7
    case OwnStop(_) => 6
    case OwnBody(_) => 5
    case Getting(_, _) => 5
    case Closing(_, _) => 4
    case CloseStop(_, _) => 3
    case CloseBody(_, _) => 2
    case CloseHook(_, _) => 1
    case Returned(_, _, _) => 0
  }

  function Work(threads: seq<Pc>): nat {
    if threads == [] then 0 else Work(threads[..|threads| - 1]) + Rank(threads[|threads| - 1])
  }

  lemma {:induction false} WorkUpdate(threads: seq<Pc>, i: nat, pc: Pc)
    requires i < |threads|
    ensures Work(threads[i := pc]) == Work(threads) - Rank(threads[i]) + Rank(pc)
  {
    hide Rank;
    var n := |threads| - 1;
    if i == n {
      assert threads[i := pc][..n] == threads[..n];
    } else {
      WorkUpdate(threads[..n], i, pc);
      assert threads[i := pc][..n] == threads[..n][i := pc];
    }
  }

  predicate Stopping(pc: Pc) {
    pc.OwnStop? || pc.CloseStop?
  }

  /** Goroutine `i` alone has moved, and forward, or nothing has changed at all. */
  ghost predicate Progress(s: State, s': State, i: nat) {
    && i < |s.threads| == |s'.threads| && s'.threads == s.threads[i := s'.threads[i]]
    && (s' == s || (Rank(s'.threads[i]) < Rank(s.threads[i]) && !s'.threads[i].Opening?))
  }

  lemma MovesTo(s: State, s': State, i: nat, pc: Pc)
    requires i < |s.threads| && s'.threads == s.threads[i := pc]
    requires Rank(pc) < Rank(s.threads[i]) && !pc.Opening?
    ensures Progress(s, s', i)
  {
  }

  lemma OpeningProgress(s: State, i: nat, now: int)
    requires i < |s.threads| && s.threads[i].Opening?
    ensures Progress(s, DoAdvance(s, i, now), i)
  {
    var s' := DoOpen(s, i, s.threads[i].request, now);
    assert s' == DoAdvance(s, i, now);
    assert s'.threads == s.threads[i := s'.threads[i]] && s'.threads[i].OpenHook?;
    hide DoAdvance, DoOpen, Progress;
    MovesTo(s, s', i, s'.threads[i]);
  }

  lemma OwnStopProgress(s: State, i: nat, now: int, t: Tunnel)
    requires i < |s.threads| && s.threads[i] == OwnStop(t)
    ensures Progress(s, DoAdvance(s, i, now), i)
  {
    var s' := DoOnce(s, i, t.id, OwnBody(t), Closing(t.id, Owner));
    assert s' == DoAdvance(s, i, now);
    hide DoAdvance;
    if !Waits(s, t.id) {
      MovesTo(s, s', i, if s.once[t.id] == NotRun then OwnBody(t) else Closing(t.id, Owner));
    }
  }

  lemma CloseStopProgress(s: State, i: nat, now: int, t: Tunnel, who: Closer)
    requires i < |s.threads| && s.threads[i] == CloseStop(t, who)
    ensures Progress(s, DoAdvance(s, i, now), i)
  {
    if !Waits(s, t.id) {
      MovesTo(s, DoAdvance(s, i, now), i, if s.once[t.id] == NotRun then CloseBody(t, who) else CloseHook(t, who));
    }
  }

  lemma BodyProgress(s: State, i: nat, now: int)
    requires i < |s.threads| && (s.threads[i].OwnBody? || s.threads[i].CloseBody?)
    ensures Progress(s, DoAdvance(s, i, now), i)
  {
    var pc := s.threads[i];
    MovesTo(s, DoAdvance(s, i, now), i, if pc.OwnBody? then Closing(pc.t.id, Owner) else CloseHook(pc.t, pc.who));
  }

  lemma HookProgress(s: State, i: nat, now: int)
    requires i < |s.threads| && (s.threads[i].OpenHook? || s.threads[i].CloseHook?)
    ensures Progress(s, DoAdvance(s, i, now), i)
  {
    var pc := s.threads[i];
    MovesTo(s, DoAdvance(s, i, now), i, if pc.OpenHook? then Pumping(pc.t) else Returned(pc.t.id, pc.who, true));
  }

  lemma ClosingProgress(s: State, i: nat, now: int)
    requires i < |s.threads| && s.threads[i].Closing?
    ensures Progress(s, DoAdvance(s, i, now), i)
  {
    var pc := s.threads[i];
    MovesTo(s, DoAdvance(s, i, now), i,
            if pc.id in s.tunnels then CloseStop(s.tunnels[pc.id], pc.who) else Returned(pc.id, pc.who, false));
  }

  lemma GettingProgress(s: State, i: nat, now: int)
    requires i < |s.threads| && s.threads[i].Getting?
    ensures Progress(s, DoAdvance(s, i, now), i)
  {
    hide CanCloseTunnel;
    var s' := DoAdvance(s, i, now);
    assert s'.threads == s.threads[i := s'.threads[i]] && (s'.threads[i].Closing? || s'.threads[i].Returned?);
    hide DoAdvance, Progress;
    MovesTo(s, s', i, s'.threads[i]);
  }

  lemma PumpingProgress(s: State, i: nat, now: int)
    requires i < |s.threads| && (s.threads[i].Pumping? || s.threads[i].Returned?)
    ensures Progress(s, DoAdvance(s, i, now), i)
  {
    if s.threads[i].Pumping? {
      MovesTo(s, DoAdvance(s, i, now), i, OwnStop(s.threads[i].t));
    }
  }

  /** A step moves no other goroutine, and moves its own forward or changes nothing at all. */
  lemma AdvanceProgress(s: State, i: nat, now: int)
    requires i < |s.threads|
    ensures Progress(s, DoAdvance(s, i, now), i)
  {
    hide DoAdvance, Progress;
    match s.threads[i]
    case Opening(_) => OpeningProgress(s, i, now);
    case OwnStop(t) => OwnStopProgress(s, i, now, t);
    case CloseStop(t, who) => CloseStopProgress(s, i, now, t, who);
    case OwnBody(_) => BodyProgress(s, i, now);
    case CloseBody(_, _) => BodyProgress(s, i, now);
    case OpenHook(_) => HookProgress(s, i, now);
    case CloseHook(_, _) => HookProgress(s, i, now);
    case Closing(_, _) => ClosingProgress(s, i, now);
    case Getting(_, _) => GettingProgress(s, i, now);
    case _ => PumpingProgress(s, i, now);
  }

  /** No schedule runs for ever: every step that changes anything uses up work. */
  lemma WorkFalls(s: State, i: nat, now: int)
    requires i < |s.threads| && DoAdvance(s, i, now) != s
    ensures Work(DoAdvance(s, i, now).threads) < Work(s.threads)
  {
    AdvanceProgress(s, i, now);
    WorkUpdate(s.threads, i, DoAdvance(s, i, now).threads[i]);
    hide DoAdvance, Rank, Work;
  }

  /** A goroutine that has not finished and does not wait can take a step. */
  lemma RunnableMoves(s: State, i: nat, now: int)
    requires i < |s.threads| && !s.threads[i].Returned?
    requires Stopping(s.threads[i]) ==> !Waits(s, s.threads[i].t.id)
    ensures DoAdvance(s, i, now) != s
  {
    if Stopping(s.threads[i]) { StopMoves(s, i, now); } else { OtherMoves(s, i, now); }
  }

  lemma StopMoves(s: State, i: nat, now: int)
    requires i < |s.threads| && Stopping(s.threads[i]) && !Waits(s, s.threads[i].t.id)
    ensures DoAdvance(s, i, now) != s
  {
    var pc := s.threads[i];
    var next := if pc.OwnStop? then (if s.once[pc.t.id] == NotRun then OwnBody(pc.t) else Closing(pc.t.id, Owner))
                else if s.once[pc.t.id] == NotRun then CloseBody(pc.t, pc.who) else CloseHook(pc.t, pc.who);
    assert DoAdvance(s, i, now).threads == s.threads[i := next];
    hide DoAdvance;
    assert s.threads[i := next][i] != s.threads[i];
  }

  lemma OtherMoves(s: State, i: nat, now: int)
    requires i < |s.threads| && !s.threads[i].Returned? && !Stopping(s.threads[i])
    ensures DoAdvance(s, i, now) != s
  {
    hide TunnelId, NextSeq, CanCloseTunnel, Waits;
    var pc' := DoAdvance(s, i, now).threads[i];
    assert pc' != s.threads[i];
  }

  /** A goroutine that waits for a teardown finds another one inside it. */
  lemma WaitsForBody(s: State, id: Id) returns (j: nat)
    requires Tally(s, id) && id in s.once && Waits(s, id)
    ensures j < |s.threads| && (s.threads[j].OwnBody? || s.threads[j].CloseBody?)
  {
    hide Count;
    j := CountWitness(s.threads, InBody(id));
  }

  /** Goroutines never block one another for good: in every reachable state in which some goroutine has
      not finished, one can take a step. */
  lemma NotStuck(steps: seq<Step>, now: int) returns (i: nat)
    requires Exec(steps).opens < TWO64 && !Quiescent(Exec(steps))
    ensures i < |Exec(steps).threads| && DoAdvance(Exec(steps), i, now) != Exec(steps)
  {
    var s := Exec(steps);
    i :| i < |s.threads| && !s.threads[i].Returned?;
    hide Exec, Quiescent, DoAdvance;
    if Stopping(s.threads[i]) && Waits(s, s.threads[i].t.id) {
      var id := s.threads[i].t.id;
      ExecKeeps(steps, id, Local);
      StoppingIsKnown(s, i);
      hide Base, Tally, Conserved;
      i := WaitsForBody(s, id);
    }
    RunnableMoves(s, i, now);
  }

  lemma StoppingIsKnown(s: State, i: nat)
    requires Base(s) && i < |s.threads| && Stopping(s.threads[i])
    ensures s.threads[i].t.id in s.once
  {
    hide TunnelId, Permitted;
    assert ThreadOk(s, s.threads[i]);
  }

  predicate IsOpening(pc: Pc) {
    pc.Opening?
  }

  /** So from every reachable state the goroutines already started can all be brought to an end, without
      starting another. */
  lemma CanFinish(steps: seq<Step>) returns (more: seq<Step>)
    requires Exec(steps).opens + Count(Exec(steps).threads, IsOpening) < TWO64
    ensures Quiescent(Exec(steps + more)) && Exec(steps + more).opens < TWO64
    ensures |more| <= Work(Exec(steps).threads)
    ensures forall k :: 0 <= k < |more| ==> more[k].Advance?
    decreases Work(Exec(steps).threads)
  {
    hide *;
    if Quiescent(Exec(steps)) {
      more := [];
      assert steps + more == steps;
    } else {
      var i := NotStuck(steps, 0);
      var step := Advance(i, 0);
      AdvanceExec(steps, i, 0);
      WorkFalls(Exec(steps), i, 0);
      OpeningsFall(Exec(steps), i, 0);
      var rest := CanFinish(steps + [step]);
      more := [step] + rest;
      assert steps + more == steps + [step] + rest;
    }
  }

  lemma AdvanceExec(steps: seq<Step>, i: nat, now: int)
    requires i < |Exec(steps).threads|
    ensures Exec(steps + [Advance(i, now)]) == DoAdvance(Exec(steps), i, now)
  {
    hide DoAdvance;
    ExecSnoc(steps, Advance(i, now));
  }

  lemma OpeningsFall(s: State, i: nat, now: int)
    requires i < |s.threads|
    ensures DoAdvance(s, i, now).opens + Count(DoAdvance(s, i, now).threads, IsOpening)
            <= s.opens + Count(s.threads, IsOpening)
  {
    var s' := DoAdvance(s, i, now);
    AdvanceProgress(s, i, now);
    OpenIssues(s, Advance(i, now));
    CountUpdate(s.threads, i, s'.threads[i], IsOpening);
    hide Count, DoAdvance, Rank;
  }

  // ---- What the gauge shows ----

  /** The tunnels of one direction whose hook has run. */
  function Ran(issued: map<Id, Tunnel>, hooks: multiset<Id>, d: Direction): set<Id> {
    set id | id in issued && issued[id].request.direction == d && hooks[id] > 0
  }

  ghost predicate Shown(s: State, d: Direction) {
    s.gauge.At(d) == |Ran(s.issued, s.openHooks, d)| - |Ran(s.issued, s.closeHooks, d)|
  }

  lemma RanOnce(issued: map<Id, Tunnel>, hooks: multiset<Id>, id: Id, d: Direction)
    requires id in issued && hooks[id] == 0
    ensures |Ran(issued, hooks + multiset{id}, d)| == |Ran(issued, hooks, d)| + Bit(issued[id].request.direction == d)
  {
    if issued[id].request.direction == d {
      assert Ran(issued, hooks + multiset{id}, d) == Ran(issued, hooks, d) + {id};
    } else {
      assert Ran(issued, hooks + multiset{id}, d) == Ran(issued, hooks, d);
    }
  }

  lemma OpenShown(s: State, i: nat, now: int, d: Direction)
    requires Base(s) && Shown(s, d) && i < |s.threads| && s.threads[i].Opening? && s.opens + 1 < TWO64
    requires Tally(s, TunnelId(s.opens + 1))
    ensures Shown(DoAdvance(s, i, now), d)
  {
    var t := OpenFields(s, i, now);
    hide Count, TunnelId, Base, IssuedOk, DoAdvance;
    SucceededIsRemoved(s.threads, t.id);
    RanIssued(s.issued, s.openHooks, t, d);
    RanIssued(s.issued, s.closeHooks, t, d);
  }

  lemma RanIssued(issued: map<Id, Tunnel>, hooks: multiset<Id>, t: Tunnel, d: Direction)
    requires t.id !in issued && hooks[t.id] == 0
    ensures Ran(issued[t.id := t], hooks, d) == Ran(issued, hooks, d)
  {
  }

  lemma OpenHookShown(s: State, i: nat, now: int, d: Direction, t: Tunnel)
    requires Known(s, t) && Shown(s, d) && i < |s.threads| && s.threads[i] == OpenHook(t) && Tally(s, t.id)
    ensures Shown(DoAdvance(s, i, now), d)
  {
    hide Count;
    CountSome(s.threads, i, AwaitsOpenHook(t.id));
    RanOnce(s.issued, s.openHooks, t.id, d);
  }

  lemma CloseHookShown(s: State, i: nat, now: int, d: Direction, t: Tunnel, who: Closer)
    requires Known(s, t) && Shown(s, d) && i < |s.threads| && s.threads[i] == CloseHook(t, who) && Tally(s, t.id)
    ensures Shown(DoAdvance(s, i, now), d)
  {
    var after := Returned(t.id, who, true);
    Moved(s.threads, i, after, t.id);
    SucceededIsRemoved(s.threads[i := after], t.id);
    hide Count;
    RanOnce(s.issued, s.closeHooks, t.id, d);
  }

  predicate Silent(pc: Pc) {
    !pc.Opening? && !pc.OpenHook? && !pc.CloseHook?
  }

  lemma SilentShown(s: State, i: nat, now: int, d: Direction)
    requires Shown(s, d) && i < |s.threads| && Silent(s.threads[i])
    ensures Shown(DoAdvance(s, i, now), d)
  {
    hide CanCloseTunnel, Ran, Waits;
  }

  lemma {:induction false} ExecShown(steps: seq<Step>, d: Direction)
    requires Exec(steps).opens < TWO64
    ensures Shown(Exec(steps), d)
  {
    if steps == [] {
    } else {
      var init, step := steps[..|steps| - 1], steps[|steps| - 1];
      var s := Exec(init);
      OpensGrow(s, step);
      ExecShown(init, d);
      if step.Advance? && step.thread < |s.threads| {
        AdvanceShown(init, step.thread, step.now, d);
      }
    }
  }

  lemma AdvanceShown(steps: seq<Step>, i: nat, now: int, d: Direction)
    requires Exec(steps).opens < TWO64 && i < |Exec(steps).threads| && Shown(Exec(steps), d)
    requires DoAdvance(Exec(steps), i, now).opens < TWO64
    ensures Shown(DoAdvance(Exec(steps), i, now), d)
  {
    var s := Exec(steps);
    assert s.threads[i].Opening? ==> s.opens + 1 < TWO64;
    hide Exec, Tally, Shown, DoAdvance, TunnelId;
    match s.threads[i]
    case Opening(_) =>
      ExecKeeps(steps, TunnelId(s.opens + 1), d);
      OpenShown(s, i, now, d);
    case OpenHook(t) =>
      ExecKeeps(steps, t.id, d);
      assert ThreadOk(s, s.threads[i]);
      OpenHookShown(s, i, now, d, t);
    case CloseHook(t, who) =>
      ExecKeeps(steps, t.id, d);
      assert ThreadOk(s, s.threads[i]);
      CloseHookShown(s, i, now, d, t, who);
    case _ => SilentShown(s, i, now, d);
  }

  /** Tunnels whose OnClose hook ran before their OnOpen hook. */
  function Overtaken(s: State, d: Direction): set<Id> {
    Ran(s.issued, s.closeHooks, d) - Ran(s.issued, s.openHooks, d)
  }

  /** Tunnels announced as open and not yet as closed. */
  function Announced(s: State, d: Direction): set<Id> {
    Ran(s.issued, s.openHooks, d) - Ran(s.issued, s.closeHooks, d)
  }

  /** In every reachable state the gauge shows the announced tunnels less the overtaken ones, so it is
      negative exactly when those are more. */
  lemma GaugeSign(steps: seq<Step>, d: Direction)
    requires Exec(steps).opens < TWO64
    ensures var s := Exec(steps);
            && s.gauge.At(d) == |Announced(s, d)| - |Overtaken(s, d)|
            && (s.gauge.At(d) < 0 <==> |Overtaken(s, d)| > |Announced(s, d)|)
  {
    ExecShown(steps, d);
    hide Exec, Shown, Announced, Overtaken;
    ShownSign(Exec(steps), d);
  }

  lemma ShownSign(s: State, d: Direction)
    requires Shown(s, d)
    ensures s.gauge.At(d) == |Announced(s, d)| - |Overtaken(s, d)|
  {
    hide Ran;
    DifferenceOfSizes(Ran(s.issued, s.openHooks, d), Ran(s.issued, s.closeHooks, d));
  }

  lemma DifferenceOfSizes(a: set<Id>, b: set<Id>)
    ensures |a| - |b| == |a - b| - |b - a|
  {
    assert a == (a - b) + (a * b) && b == (b - a) + (a * b);
  }

  // ---- The manager object in any interleaving ----

  ghost predicate Mirrors(m: Manager, s: State)
    reads m
  {
    m.Valid() && m.opens == s.opens && m.tunnels == s.tunnels
  }

  /** The locked section of a goroutine's step, if it has one, run on the object. */
  method LockedSection(m: Manager, s: State, i: nat, now: int)
    requires Mirrors(m, s) && i < |s.threads|
    modifies m
    ensures Mirrors(m, DoAdvance(s, i, now))
  {
    hide TunnelId, CanCloseTunnel, Manager.Valid;
    match s.threads[i] {
      case Opening(request) =>
        var t := m.Add(request, now);
        assert m.opens % TWO64 == NextSeq(SeqNo(s.opens));
        assert s.threads[i := OpenHook(t)] == DoAdvance(s, i, now).threads;
      case Closing(id, who) =>
        var found, item := m.Take(id);
        assert !found ==> s.tunnels - {id} == s.tunnels;
      case _ =>
    }
  }

  method OneStep(m: Manager, s: State, step: Step) returns (s': State)
    requires Mirrors(m, s)
    modifies m
    ensures s' == Apply(s, step) && Mirrors(m, s')
  {
    hide DoAdvance, Manager.Valid;
    s' := Apply(s, step);
    if step.Advance? && step.thread < |s.threads| {
      LockedSection(m, s, step.thread, step.now);
    }
  }

  method Start() returns (m: Manager, s: State)
    ensures fresh(m) && s == Exec([]) && Mirrors(m, s)
  {
    m := new Manager();
    s := INITIAL;
  }

  /** A manager driven by any interleaving holds exactly the tunnels of the protocol's state, so every
      result about runs is one about the object. */
  method Drive(steps: seq<Step>) returns (m: Manager)
    ensures fresh(m) && Mirrors(m, Exec(steps))
  {
    hide *;
    var s;
    m, s := Start();
    assert steps[..0] == [];
    for k := 0 to |steps|
      invariant s == Exec(steps[..k]) && Mirrors(m, s)
      invariant fresh(m)
    {
      assert steps[..k + 1] == steps[..k] + [steps[k]];
      ExecSnoc(steps[..k], steps[k]);
      s := OneStep(m, s, steps[k]);
    }
    assert steps[..|steps|] == steps;
  }
}
