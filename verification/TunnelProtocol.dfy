/** Opening and closing tunnels as a concurrent protocol. Each goroutine is a program counter; a
    step is what runs between two lock or hook boundaries of internal/forwarding/manager.go, of the
    forwarding goroutines in internal/transport/sshserver/server.go, and of the callers that close
    tunnels (the shell command and the admin API). Steps of different goroutines interleave freely. */
module TunnelProtocol {
  import opened TunnelManager
  import opened Counting
  import opened Text
  import opened Words

  /** Who calls Manager.Close. */
  datatype Closer = Owner | Api | Shell(role: string, user: string)

  /** The state of a tunnel's sync.Once. */
  datatype Once = NotRun | Running | Done

  datatype Pc =
    | Opening(request: Request)               // forwarding goroutine, before Manager.open
    | OpenHook(t: Tunnel)                     // inserted; the OnOpen hook has yet to run
    | Pumping(t: Tunnel)                      // copying bytes
    | OwnStop(t: Tunnel)                      // about to call stopFn itself
    | OwnBody(t: Tunnel)                      // inside the once-guarded teardown
    | Getting(id: Id, who: Closer)         // shell or API, before Manager.Get
    | Closing(id: Id, who: Closer)         // before the locked part of Manager.Close
    | CloseStop(t: Tunnel, who: Closer)        // removed; about to call item.stop
    | CloseBody(t: Tunnel, who: Closer)        // inside the once-guarded teardown
    | CloseHook(t: Tunnel, who: Closer)        // the OnClose hook has yet to run
    | Returned(id: Id, who: Closer, ok: bool)

  datatype Gauge = Gauge(local: int, remote: int) {
    function At(d: Direction): int {
      if d.Local? then local else remote
    }
    function Add(d: Direction, n: int): (g: Gauge)
      ensures g.At(d) == At(d) + n
      ensures forall e :: e != d ==> g.At(e) == At(e)
    {
      if d.Local? then Gauge(local + n, remote) else Gauge(local, remote + n)
    }
  }

  /** Shared state, and what has happened so far: every tunnel ever opened, how often each
      teardown, stop and hook ran, and who removed what. */
  datatype State = State(
    threads: seq<Pc>,
    opens: nat,
    tunnels: map<Id, Tunnel>,
    once: map<Id, Once>,
    gauge: Gauge,
    issued: map<Id, Tunnel>,
    teardowns: multiset<Id>,
    managerStops: multiset<Id>,
    openHooks: multiset<Id>,
    closeHooks: multiset<Id>,
    removals: seq<(Closer, Tunnel)>)

  const INITIAL := State([], 0, map[], map[], Gauge(0, 0), map[], multiset{}, multiset{}, multiset{}, multiset{}, [])

  datatype Step =
    | Forward(request: Request)             // a forwarding goroutine starts
    | CloseRequest(id: Id, who: Closer)  // the shell command or the API starts
    | Advance(thread: nat, now: int)        // a goroutine takes its next step

  /** `m.seq` after `opens` opens. */
  function SeqNo(opens: nat): nat {
    opens % TWO64
  }

  function To(s: State, i: nat, pc: Pc): State
    requires i < |s.threads|
  {
    s.(threads := s.threads[i := pc])
  }

  function DoOpen(s: State, i: nat, request: Request, now: int): State
    requires i < |s.threads|
  {
    var t := Tunnel(TunnelId(NextSeq(SeqNo(s.opens))), request, now);
    To(s, i, OpenHook(t)).(opens := s.opens + 1, tunnels := s.tunnels[t.id := t],
                           issued := s.issued[t.id := t], once := s.once[t.id := NotRun])
  }

  predicate Waits(s: State, id: Id) {
    id !in s.once || s.once[id] == Running
  }

  /** stopOnce.Do: the first caller runs the body, callers that come while it runs wait, later ones
      return at once. */
  function DoOnce(s: State, i: nat, id: Id, body: Pc, after: Pc): State
    requires i < |s.threads|
  {
    if Waits(s, id) then s
    else if s.once[id] == NotRun then To(s, i, body).(once := s.once[id := Running])
    else To(s, i, after)
  }

  function DoBody(s: State, i: nat, id: Id, after: Pc): State
    requires i < |s.threads|
  {
    To(s, i, after).(once := s.once[id := Done], teardowns := s.teardowns + multiset{id})
  }

  function DoGet(s: State, i: nat, id: Id, who: Closer): State
    requires i < |s.threads|
  {
    if id in s.tunnels &&
       (who.Shell? ==> CanCloseTunnel(who.role, who.user, s.tunnels[id].request.username))
    then To(s, i, Closing(id, who))
    else To(s, i, Returned(id, who, false))
  }

  function DoClose(s: State, i: nat, id: Id, who: Closer): State
    requires i < |s.threads|
  {
    if id in s.tunnels then
      To(s, i, CloseStop(s.tunnels[id], who)).(tunnels := s.tunnels - {id},
                                              removals := s.removals + [(who, s.tunnels[id])])
    else To(s, i, Returned(id, who, false))
  }

  function DoAdvance(s: State, i: nat, now: int): State
    requires i < |s.threads|
  {
    match s.threads[i]
    case Opening(request) => DoOpen(s, i, request, now)
    case OpenHook(t) =>
      To(s, i, Pumping(t)).(gauge := s.gauge.Add(t.request.direction, 1), openHooks := s.openHooks + multiset{t.id})
    case Pumping(t) => To(s, i, OwnStop(t))
    case OwnStop(t) => DoOnce(s, i, t.id, OwnBody(t), Closing(t.id, Owner))
    case OwnBody(t) => DoBody(s, i, t.id, Closing(t.id, Owner))
    case Getting(id, who) => DoGet(s, i, id, who)
    case Closing(id, who) => DoClose(s, i, id, who)
    case CloseStop(t, who) =>
      if Waits(s, t.id) then s
      else DoOnce(s, i, t.id, CloseBody(t, who), CloseHook(t, who)).(managerStops := s.managerStops + multiset{t.id})
    case CloseBody(t, who) => DoBody(s, i, t.id, CloseHook(t, who))
    case CloseHook(t, who) =>
      To(s, i, Returned(t.id, who, true)).(gauge := s.gauge.Add(t.request.direction, -1),
                                          closeHooks := s.closeHooks + multiset{t.id})
    case Returned(_, _, _) => s
  }

  function Apply(s: State, step: Step): State {
    match step
    case Forward(request) => s.(threads := s.threads + [Opening(request)])
    case CloseRequest(id, who) => if who.Owner? then s else s.(threads := s.threads + [Getting(id, who)])
    case Advance(i, now) => if i < |s.threads| then DoAdvance(s, i, now) else s
  }

  function Exec(steps: seq<Step>): State {
    if steps == [] then INITIAL else Apply(Exec(steps[..|steps| - 1]), steps[|steps| - 1])
  }

  /** Goroutines start as their kind does, and every forwarding or close request starts one. */
  lemma RequestsStart(s: State, request: Request, id: Id, who: Closer)
    ensures Apply(s, Forward(request)) == s.(threads := s.threads + [Opening(request)])
    ensures !who.Owner? ==> Apply(s, CloseRequest(id, who)) == s.(threads := s.threads + [Getting(id, who)])
  {
  }

  // ---- Identity: ids are never reused and stored tunnels never change ----

  predicate Permitted(who: Closer, t: Tunnel) {
    who.Shell? ==> CanCloseTunnel(who.role, who.user, t.request.username)
  }

  predicate Known(s: State, t: Tunnel) {
    t.id in s.issued && s.issued[t.id] == t
  }

  predicate TornDown(s: State, who: Closer, id: Id) {
    who.Owner? ==> id in s.once && s.once[id] == Done
  }

  /** What each goroutine may rely on at its program counter. */
  predicate ThreadOk(s: State, pc: Pc) {
    match pc
    case Opening(_) => true
    case OpenHook(t) => Known(s, t)
    case Pumping(t) => Known(s, t)
    case OwnStop(t) => Known(s, t)
    case OwnBody(t) => Known(s, t)
    case Getting(_, who) => !who.Owner?
    case Closing(id, who) => id in s.issued && Permitted(who, s.issued[id]) && TornDown(s, who, id)
    case CloseStop(t, who) => Known(s, t) && Permitted(who, t) && TornDown(s, who, t.id) && t.id !in s.tunnels
    case CloseBody(t, who) => Known(s, t) && Permitted(who, t) && TornDown(s, who, t.id) && t.id !in s.tunnels
    case CloseHook(t, who) => Known(s, t) && Permitted(who, t) && TornDown(s, who, t.id) && t.id !in s.tunnels
    case Returned(id, who, ok) =>
      && TornDown(s, who, id)
      && (ok || who.Owner? ==> id in s.issued && id !in s.tunnels)
  }

  ghost predicate IssuedOk(s: State) {
    && s.opens < TWO64 && s.once.Keys == s.issued.Keys
    && (forall id :: id in s.issued ==> s.issued[id].id == id)
    && (forall n :: n > s.opens ==> TunnelId(n) !in s.issued)
    && (forall id :: id in s.tunnels ==> id in s.issued && s.tunnels[id] == s.issued[id])
  }

  ghost predicate Base(s: State) {
    && IssuedOk(s)
    && (forall i :: 0 <= i < |s.threads| ==> ThreadOk(s, s.threads[i]))
    && (forall i :: 0 <= i < |s.removals| ==> Permitted(s.removals[i].0, s.removals[i].1))
  }

  /** How far another goroutine's step can take the shared state. */
  predicate Extends(s: State, s': State) {
    && (forall id :: id in s.issued ==>
          id in s'.issued && s'.issued[id] == s.issued[id] && (id !in s.tunnels ==> id !in s'.tunnels))
    && (forall id :: id in s.once && s.once[id] == Done ==> id in s'.once && s'.once[id] == Done)
  }

  lemma ThreadOkExtends(s: State, s': State, pc: Pc)
    requires ThreadOk(s, pc) && Extends(s, s')
    ensures ThreadOk(s', pc)
  {
  }

  /** The next id has not been used: the counter has not wrapped and printing is injective. */
  lemma NextIdIsNew(s: State)
    requires IssuedOk(s) && s.opens + 1 < TWO64
    ensures TunnelId(NextSeq(SeqNo(s.opens))) == TunnelId(s.opens + 1)
    ensures TunnelId(s.opens + 1) !in s.issued
  {
    assert NextSeq(SeqNo(s.opens)) == s.opens + 1;
    hide TunnelId, NextSeq;
  }

  lemma MoveBase(s: State, s': State, i: nat)
    requires Base(s) && i < |s.threads| == |s'.threads| && s'.threads == s.threads[i := s'.threads[i]]
    requires IssuedOk(s') && Extends(s, s') && ThreadOk(s', s'.threads[i])
    requires forall j :: 0 <= j < |s'.removals| ==> Permitted(s'.removals[j].0, s'.removals[j].1)
    ensures Base(s')
  {
    forall j | 0 <= j < |s'.threads| ensures ThreadOk(s', s'.threads[j]) {
      if j != i {
        ThreadOkExtends(s, s', s.threads[j]);
      }
    }
  }

  lemma OpenBase(s: State, i: nat, request: Request, now: int)
    requires Base(s) && i < |s.threads| && s.threads[i] == Opening(request) && s.opens + 1 < TWO64
    ensures Base(DoAdvance(s, i, now))
  {
    NextIdIsNew(s);
    forall n | n > s.opens + 1 ensures TunnelId(n) != TunnelId(s.opens + 1) {
      TunnelIdInjective(n, s.opens + 1);
    }
    hide TunnelId, Permitted;
    var s' := DoOpen(s, i, request, now);
    assert IssuedOk(s');
    MoveBase(s, s', i);
  }

  lemma CloseBase(s: State, i: nat, now: int, id: Id, who: Closer)
    requires Base(s) && i < |s.threads| && s.threads[i] == Closing(id, who)
    ensures Base(DoAdvance(s, i, now))
  {
    hide TunnelId, Permitted;
    MoveBase(s, DoClose(s, i, id, who), i);
  }

  /** Steps that only move the goroutine, or bump counters nobody else relies on. */
  lemma QuietBase(s: State, s': State, i: nat)
    requires Base(s) && i < |s.threads| == |s'.threads| && s'.threads == s.threads[i := s'.threads[i]]
    requires s'.opens == s.opens && s'.tunnels == s.tunnels && s'.issued == s.issued
    requires s'.once == s.once && s'.removals == s.removals
    requires ThreadOk(s, s'.threads[i])
    ensures Base(s')
  {
    hide TunnelId, Permitted;
    ThreadOkExtends(s, s', s'.threads[i]);
    MoveBase(s, s', i);
  }

  lemma OnceBase(s: State, s': State, i: nat, id: Id, o: Once)
    requires Base(s) && i < |s.threads| == |s'.threads| && s'.threads == s.threads[i := s'.threads[i]]
    requires s'.opens == s.opens && s'.tunnels == s.tunnels && s'.issued == s.issued && s'.removals == s.removals
    requires id in s.once && s'.once == s.once[id := o] && (s.once[id] == Done ==> o == Done)
    requires ThreadOk(s', s'.threads[i])
    ensures Base(s')
  {
    hide TunnelId, Permitted;
    MoveBase(s, s', i);
  }

  lemma OwnStopBase(s: State, i: nat, now: int, t: Tunnel)
    requires Base(s) && i < |s.threads| && s.threads[i] == OwnStop(t)
    ensures Base(DoAdvance(s, i, now))
  {
    hide TunnelId, CanCloseTunnel;
    var s' := DoAdvance(s, i, now);
    if s.once[t.id] == NotRun { OnceBase(s, s', i, t.id, Running); } else { QuietBase(s, s', i); }
  }

  lemma CloseStopBase(s: State, i: nat, now: int, t: Tunnel, who: Closer)
    requires Base(s) && i < |s.threads| && s.threads[i] == CloseStop(t, who)
    ensures Base(DoAdvance(s, i, now))
  {
    hide TunnelId, CanCloseTunnel;
    var s' := DoAdvance(s, i, now);
    if s.once[t.id] == NotRun { OnceBase(s, s', i, t.id, Running); } else { QuietBase(s, s', i); }
  }

  lemma BodyBase(s: State, i: nat, now: int, t: Tunnel)
    requires Base(s) && i < |s.threads|
    requires s.threads[i] == OwnBody(t) || (s.threads[i].CloseBody? && s.threads[i].t == t)
    ensures Base(DoAdvance(s, i, now))
  {
    hide TunnelId, CanCloseTunnel;
    OnceBase(s, DoAdvance(s, i, now), i, t.id, Done);
  }

  lemma OtherBase(s: State, i: nat, now: int)
    requires Base(s) && i < |s.threads|
    requires s.threads[i].OpenHook? || s.threads[i].Pumping? || s.threads[i].Getting?
             || s.threads[i].CloseHook? || s.threads[i].Returned?
    ensures Base(DoAdvance(s, i, now))
  {
    hide TunnelId, CanCloseTunnel;
    QuietBase(s, DoAdvance(s, i, now), i);
  }

  lemma AdvanceBase(s: State, i: nat, now: int)
    requires Base(s) && i < |s.threads| && DoAdvance(s, i, now).opens < TWO64
    ensures Base(DoAdvance(s, i, now))
  {
    assert s.threads[i].Opening? ==> s.opens + 1 < TWO64;
    hide Base, DoAdvance;
    match s.threads[i]
    case Opening(request) => OpenBase(s, i, request, now);
    case Closing(id, who) => CloseBase(s, i, now, id, who);
    case OwnBody(t) => BodyBase(s, i, now, t);
    case CloseBody(t, _) => BodyBase(s, i, now, t);
    case OwnStop(t) => OwnStopBase(s, i, now, t);
    case CloseStop(t, who) => CloseStopBase(s, i, now, t, who);
    case _ => OtherBase(s, i, now);
  }

  /** A new goroutine, and nothing else, keeps the invariant. */
  lemma SpawnBase(s: State, pc: Pc)
    requires Base(s) && (pc.Opening? || (pc.Getting? && !pc.who.Owner?))
    ensures Base(s.(threads := s.threads + [pc]))
  {
    var s' := s.(threads := s.threads + [pc]);
    hide TunnelId, Permitted;
    forall j | 0 <= j < |s'.threads| ensures ThreadOk(s', s'.threads[j]) {
      if j < |s.threads| {
        ThreadOkExtends(s, s', s.threads[j]);
      }
    }
  }

  lemma StepBase(s: State, step: Step)
    requires Base(s) && Apply(s, step).opens < TWO64
    ensures Base(Apply(s, step))
  {
    hide Base, DoAdvance;
    match step
    case Forward(request) => SpawnBase(s, Opening(request));
    case CloseRequest(id, who) => if !who.Owner? { SpawnBase(s, Getting(id, who)); }
    case Advance(i, now) => if i < |s.threads| { AdvanceBase(s, i, now); }
  }

  // ---- Accounting per tunnel ----

  function Removed(id: Id): Pc -> bool {
    (pc: Pc) => match pc
      case CloseStop(t, _) => t.id == id
      case CloseBody(t, _) => t.id == id
      case CloseHook(t, _) => t.id == id
      case Returned(x, _, ok) => ok && x == id
      case _ => false
  }

  function Owns(id: Id): Pc -> bool {
    (pc: Pc) => match pc
      case Opening(_) => false
      case OpenHook(t) => t.id == id
      case Pumping(t) => t.id == id
      case OwnStop(t) => t.id == id
      case OwnBody(t) => t.id == id
      case Getting(_, _) => false
      case Closing(x, who) => who.Owner? && x == id
      case CloseStop(t, who) => who.Owner? && t.id == id
      case CloseBody(t, who) => who.Owner? && t.id == id
      case CloseHook(t, who) => who.Owner? && t.id == id
      case Returned(x, who, _) => who.Owner? && x == id
  }

  function InBody(id: Id): Pc -> bool {
    (pc: Pc) => (pc.OwnBody? || pc.CloseBody?) && pc.t.id == id
  }

  function AwaitsOpenHook(id: Id): Pc -> bool {
    (pc: Pc) => pc.OpenHook? && pc.t.id == id
  }

  function AwaitsStop(id: Id): Pc -> bool {
    (pc: Pc) => pc.CloseStop? && pc.t.id == id
  }

  function Succeeded(id: Id): Pc -> bool {
    (pc: Pc) => pc.Returned? && pc.ok && pc.id == id
  }

  /** Where tunnel `id` is: an issued tunnel is either in the map or has been removed by exactly one
      Close, is driven by exactly one forwarding goroutine, and its stops, teardowns and hooks are
      those that the goroutines have got past. */
  ghost predicate Tally(s: State, id: Id) {
    && Bit(id in s.tunnels) + Count(s.threads, Removed(id)) == Bit(id in s.issued)
    && Count(s.threads, Owns(id)) == Bit(id in s.issued)
    && Count(s.threads, InBody(id)) == Bit(id in s.once && s.once[id] == Running)
    && s.teardowns[id] == Bit(id in s.once && s.once[id] == Done)
    && s.openHooks[id] + Count(s.threads, AwaitsOpenHook(id)) == Bit(id in s.issued)
    && s.managerStops[id] + Count(s.threads, AwaitsStop(id)) == Count(s.threads, Removed(id))
    && s.closeHooks[id] == Count(s.threads, Succeeded(id))
  }

  /** How moving one goroutine changes every count. */
  lemma Moved(threads: seq<Pc>, i: nat, pc: Pc, id: Id)
    requires i < |threads|
    ensures var now := threads[i := pc]; var was := threads[i];
            && Count(now, Removed(id)) == Count(threads, Removed(id)) - Bit(Removed(id)(was)) + Bit(Removed(id)(pc))
            && Count(now, Owns(id)) == Count(threads, Owns(id)) - Bit(Owns(id)(was)) + Bit(Owns(id)(pc))
            && Count(now, InBody(id)) == Count(threads, InBody(id)) - Bit(InBody(id)(was)) + Bit(InBody(id)(pc))
            && Count(now, AwaitsOpenHook(id)) ==
               Count(threads, AwaitsOpenHook(id)) - Bit(AwaitsOpenHook(id)(was)) + Bit(AwaitsOpenHook(id)(pc))
            && Count(now, AwaitsStop(id)) ==
               Count(threads, AwaitsStop(id)) - Bit(AwaitsStop(id)(was)) + Bit(AwaitsStop(id)(pc))
            && Count(now, Succeeded(id)) ==
               Count(threads, Succeeded(id)) - Bit(Succeeded(id)(was)) + Bit(Succeeded(id)(pc))
  {
    hide Count;
    CountUpdate(threads, i, pc, Removed(id));
    CountUpdate(threads, i, pc, Owns(id));
    CountUpdate(threads, i, pc, InBody(id));
    CountUpdate(threads, i, pc, AwaitsOpenHook(id));
    CountUpdate(threads, i, pc, AwaitsStop(id));
    CountUpdate(threads, i, pc, Succeeded(id));
  }

  /** The state after an open, with its next id. */
  lemma OpenFields(s: State, i: nat, now: int) returns (t: Tunnel)
    requires IssuedOk(s) && i < |s.threads| && s.threads[i].Opening? && s.opens + 1 < TWO64
    ensures t == Tunnel(TunnelId(s.opens + 1), s.threads[i].request, now) && t.id !in s.issued && t.id !in s.tunnels
    ensures DoAdvance(s, i, now) ==
            s.(threads := s.threads[i := OpenHook(t)], opens := s.opens + 1, tunnels := s.tunnels[t.id := t],
               issued := s.issued[t.id := t], once := s.once[t.id := NotRun])
  {
    NextIdIsNew(s);
    hide TunnelId, NextSeq, SeqNo;
    t := Tunnel(TunnelId(s.opens + 1), s.threads[i].request, now);
  }

  lemma OpenTally(s: State, i: nat, now: int, id: Id)
    requires Base(s) && Tally(s, id) && i < |s.threads| && s.threads[i].Opening? && s.opens + 1 < TWO64
    ensures Tally(DoAdvance(s, i, now), id)
  {
    var t := OpenFields(s, i, now);
    hide Count, TunnelId, Base, IssuedOk, DoAdvance;
    Moved(s.threads, i, OpenHook(t), id);
  }

  lemma OwnStopTally(s: State, i: nat, now: int, id: Id, t: Tunnel)
    requires Tally(s, id) && i < |s.threads| && s.threads[i] == OwnStop(t)
    ensures Tally(DoAdvance(s, i, now), id)
  {
    hide Count;
    if !Waits(s, t.id) {
      Moved(s.threads, i, if s.once[t.id] == NotRun then OwnBody(t) else Closing(t.id, Owner), id);
    }
  }

  /** The closer enters the teardown. */
  lemma CloseStopEnters(s: State, i: nat, now: int, id: Id, t: Tunnel, who: Closer)
    requires Tally(s, id) && i < |s.threads| && s.threads[i] == CloseStop(t, who)
    requires t.id in s.once && s.once[t.id] == NotRun
    ensures Tally(DoAdvance(s, i, now), id)
  {
    hide Count;
    assert DoAdvance(s, i, now) ==
           s.(threads := s.threads[i := CloseBody(t, who)], managerStops := s.managerStops + multiset{t.id},
              once := s.once[t.id := Running]);
    hide DoAdvance;
    Moved(s.threads, i, CloseBody(t, who), id);
  }

  /** The closer finds the teardown done. */
  lemma CloseStopPasses(s: State, i: nat, now: int, id: Id, t: Tunnel, who: Closer)
    requires Tally(s, id) && i < |s.threads| && s.threads[i] == CloseStop(t, who)
    requires t.id in s.once && s.once[t.id] == Done
    ensures Tally(DoAdvance(s, i, now), id)
  {
    hide Count;
    assert DoAdvance(s, i, now) ==
           s.(threads := s.threads[i := CloseHook(t, who)], managerStops := s.managerStops + multiset{t.id});
    hide DoAdvance;
    Moved(s.threads, i, CloseHook(t, who), id);
  }

  lemma CloseStopTally(s: State, i: nat, now: int, id: Id, t: Tunnel, who: Closer)
    requires Tally(s, id) && i < |s.threads| && s.threads[i] == CloseStop(t, who)
    ensures Tally(DoAdvance(s, i, now), id)
  {
    hide Tally;
    if Waits(s, t.id) {
      assert DoAdvance(s, i, now) == s;
    } else {
      hide DoAdvance;
      if s.once[t.id] == NotRun {
        CloseStopEnters(s, i, now, id, t, who);
      } else {
        CloseStopPasses(s, i, now, id, t, who);
      }
    }
  }

  lemma OwnBodyTally(s: State, i: nat, now: int, id: Id, t: Tunnel)
    requires Tally(s, id) && i < |s.threads| && s.threads[i] == OwnBody(t)
    ensures Tally(DoAdvance(s, i, now), id)
  {
    hide Count;
    if t.id == id {
      CountSome(s.threads, i, InBody(id));
    }
    Moved(s.threads, i, Closing(t.id, Owner), id);
  }

  lemma CloseBodyTally(s: State, i: nat, now: int, id: Id, t: Tunnel, who: Closer)
    requires Tally(s, id) && i < |s.threads| && s.threads[i] == CloseBody(t, who)
    ensures Tally(DoAdvance(s, i, now), id)
  {
    hide Count;
    if t.id == id {
      CountSome(s.threads, i, InBody(id));
    }
    Moved(s.threads, i, CloseHook(t, who), id);
  }

  lemma CloseTally(s: State, i: nat, now: int, id: Id)
    requires Base(s) && Tally(s, id) && i < |s.threads| && s.threads[i].Closing?
    ensures Tally(DoAdvance(s, i, now), id)
  {
    hide Count;
    var x, who := s.threads[i].id, s.threads[i].who;
    if x in s.tunnels {
      var t := s.tunnels[x];
      assert t.id == x;
      assert DoAdvance(s, i, now) ==
             s.(threads := s.threads[i := CloseStop(t, who)], tunnels := s.tunnels - {x},
                removals := s.removals + [(who, t)]);
      hide DoAdvance, Base;
      Moved(s.threads, i, CloseStop(t, who), id);
    } else {
      assert DoAdvance(s, i, now) == s.(threads := s.threads[i := Returned(x, who, false)]);
      hide DoAdvance, Base;
      Moved(s.threads, i, Returned(x, who, false), id);
    }
  }

  lemma OpenHookTally(s: State, i: nat, now: int, id: Id, t: Tunnel)
    requires Tally(s, id) && i < |s.threads| && s.threads[i] == OpenHook(t)
    ensures Tally(DoAdvance(s, i, now), id)
  {
    hide Count;
    Moved(s.threads, i, Pumping(t), id);
  }

  lemma CloseHookTally(s: State, i: nat, now: int, id: Id, t: Tunnel, who: Closer)
    requires Tally(s, id) && i < |s.threads| && s.threads[i] == CloseHook(t, who)
    ensures Tally(DoAdvance(s, i, now), id)
  {
    hide Count;
    Moved(s.threads, i, Returned(t.id, who, true), id);
  }

  lemma GetTally(s: State, i: nat, now: int, id: Id, x: Id, who: Closer)
    requires Tally(s, id) && i < |s.threads| && s.threads[i] == Getting(x, who) && !who.Owner?
    ensures Tally(DoAdvance(s, i, now), id)
  {
    hide Count, CanCloseTunnel;
    Moved(s.threads, i, Closing(x, who), id);
    Moved(s.threads, i, Returned(x, who, false), id);
  }

  lemma PumpTally(s: State, i: nat, now: int, id: Id)
    requires Tally(s, id) && i < |s.threads| && (s.threads[i].Pumping? || s.threads[i].Returned?)
    ensures Tally(DoAdvance(s, i, now), id)
  {
    hide Count;
    if s.threads[i].Pumping? {
      Moved(s.threads, i, OwnStop(s.threads[i].t), id);
    }
  }

  lemma AdvanceTally(s: State, i: nat, now: int, id: Id)
    requires Base(s) && Tally(s, id) && i < |s.threads| && DoAdvance(s, i, now).opens < TWO64
    ensures Tally(DoAdvance(s, i, now), id)
  {
    assert s.threads[i].Opening? ==> s.opens + 1 < TWO64;
    assert ThreadOk(s, s.threads[i]);
    hide Base, Tally, DoAdvance;
    match s.threads[i]
    case Opening(_) => OpenTally(s, i, now, id);
    case OpenHook(t) => OpenHookTally(s, i, now, id, t);
    case OwnStop(t) => OwnStopTally(s, i, now, id, t);
    case OwnBody(t) => OwnBodyTally(s, i, now, id, t);
    case Getting(x, who) => GetTally(s, i, now, id, x, who);
    case Closing(_, _) => CloseTally(s, i, now, id);
    case CloseStop(t, who) => CloseStopTally(s, i, now, id, t, who);
    case CloseBody(t, who) => CloseBodyTally(s, i, now, id, t, who);
    case CloseHook(t, who) => CloseHookTally(s, i, now, id, t, who);
    case _ => PumpTally(s, i, now, id);
  }

  // ---- Accounting per direction ----

  function InDirection(tunnels: map<Id, Tunnel>, d: Direction): set<Id> {
    set id | id in tunnels && tunnels[id].request.direction == d
  }

  function OpenHookIn(d: Direction): Pc -> bool {
    (pc: Pc) => pc.OpenHook? && pc.t.request.direction == d
  }

  function CloseHookIn(d: Direction): Pc -> bool {
    (pc: Pc) => (pc.CloseStop? || pc.CloseBody? || pc.CloseHook?) && pc.t.request.direction == d
  }

  /** The active-tunnels gauge is the map, less the OnOpen hooks and plus the OnClose hooks still to run. */
  ghost predicate Conserved(s: State, d: Direction) {
    s.gauge.At(d) == |InDirection(s.tunnels, d)| - Count(s.threads, OpenHookIn(d)) + Count(s.threads, CloseHookIn(d))
  }

  lemma MovedIn(threads: seq<Pc>, i: nat, pc: Pc, d: Direction)
    requires i < |threads|
    ensures var now := threads[i := pc]; var was := threads[i];
            && Count(now, OpenHookIn(d)) ==
               Count(threads, OpenHookIn(d)) - Bit(OpenHookIn(d)(was)) + Bit(OpenHookIn(d)(pc))
            && Count(now, CloseHookIn(d)) ==
               Count(threads, CloseHookIn(d)) - Bit(CloseHookIn(d)(was)) + Bit(CloseHookIn(d)(pc))
  {
    hide Count;
    CountUpdate(threads, i, pc, OpenHookIn(d));
    CountUpdate(threads, i, pc, CloseHookIn(d));
  }

  lemma InsertInDirection(tunnels: map<Id, Tunnel>, id: Id, t: Tunnel, d: Direction)
    requires id !in tunnels
    ensures |InDirection(tunnels[id := t], d)| == |InDirection(tunnels, d)| + Bit(t.request.direction == d)
  {
    if t.request.direction == d {
      assert InDirection(tunnels[id := t], d) == InDirection(tunnels, d) + {id};
    } else {
      assert InDirection(tunnels[id := t], d) == InDirection(tunnels, d);
    }
  }

  lemma RemoveInDirection(tunnels: map<Id, Tunnel>, id: Id, d: Direction)
    requires id in tunnels
    ensures |InDirection(tunnels - {id}, d)| == |InDirection(tunnels, d)| - Bit(tunnels[id].request.direction == d)
  {
    if tunnels[id].request.direction == d {
      assert InDirection(tunnels - {id}, d) + {id} == InDirection(tunnels, d);
    } else {
      assert InDirection(tunnels - {id}, d) == InDirection(tunnels, d);
    }
  }

  lemma OpenConserved(s: State, i: nat, now: int, d: Direction)
    requires Base(s) && Conserved(s, d) && i < |s.threads| && s.threads[i].Opening? && s.opens + 1 < TWO64
    ensures Conserved(DoAdvance(s, i, now), d)
  {
    var t := OpenFields(s, i, now);
    hide Count, InDirection, Base, IssuedOk, TunnelId, DoAdvance;
    MovedIn(s.threads, i, OpenHook(t), d);
    InsertInDirection(s.tunnels, t.id, t, d);
  }

  lemma CloseConserved(s: State, i: nat, now: int, d: Direction)
    requires Conserved(s, d) && i < |s.threads| && s.threads[i].Closing?
    ensures Conserved(DoAdvance(s, i, now), d)
  {
    hide Count, InDirection;
    var pc := s.threads[i];
    MovedIn(s.threads, i, Returned(pc.id, pc.who, false), d);
    if pc.id in s.tunnels {
      MovedIn(s.threads, i, CloseStop(s.tunnels[pc.id], pc.who), d);
      RemoveInDirection(s.tunnels, pc.id, d);
    }
  }

  lemma HookConserved(s: State, i: nat, now: int, d: Direction)
    requires Conserved(s, d) && i < |s.threads| && (s.threads[i].OpenHook? || s.threads[i].CloseHook?)
    ensures Conserved(DoAdvance(s, i, now), d)
  {
    hide Count, InDirection;
    MovedIn(s.threads, i, DoAdvance(s, i, now).threads[i], d);
  }

  /** Steps that neither touch the map nor the gauge move no goroutine past a hook. */
  lemma QuietConserved(s: State, s': State, i: nat, d: Direction)
    requires Conserved(s, d) && i < |s.threads| == |s'.threads| && s'.threads == s.threads[i := s'.threads[i]]
    requires s'.tunnels == s.tunnels && s'.gauge == s.gauge
    requires OpenHookIn(d)(s.threads[i]) == OpenHookIn(d)(s'.threads[i])
    requires CloseHookIn(d)(s.threads[i]) == CloseHookIn(d)(s'.threads[i])
    ensures Conserved(s', d)
  {
    hide Count, InDirection;
    MovedIn(s.threads, i, s'.threads[i], d);
  }

  lemma OwnStopConserved(s: State, i: nat, now: int, d: Direction, t: Tunnel)
    requires Conserved(s, d) && i < |s.threads| && s.threads[i] == OwnStop(t)
    ensures Conserved(DoAdvance(s, i, now), d)
  {
    hide Count, InDirection, Conserved;
    QuietConserved(s, DoAdvance(s, i, now), i, d);
  }

  lemma CloseStopConserved(s: State, i: nat, now: int, d: Direction, t: Tunnel, who: Closer)
    requires Conserved(s, d) && i < |s.threads| && s.threads[i] == CloseStop(t, who)
    ensures Conserved(DoAdvance(s, i, now), d)
  {
    hide Count, InDirection, Conserved;
    QuietConserved(s, DoAdvance(s, i, now), i, d);
  }

  lemma BodyConserved(s: State, i: nat, now: int, d: Direction)
    requires Conserved(s, d) && i < |s.threads| && (s.threads[i].OwnBody? || s.threads[i].CloseBody?)
    ensures Conserved(DoAdvance(s, i, now), d)
  {
    hide Count, InDirection, Conserved;
    QuietConserved(s, DoAdvance(s, i, now), i, d);
  }

  lemma OtherConserved(s: State, i: nat, now: int, d: Direction)
    requires Conserved(s, d) && i < |s.threads|
    requires s.threads[i].Pumping? || s.threads[i].Getting? || s.threads[i].Returned?
    ensures Conserved(DoAdvance(s, i, now), d)
  {
    hide Count, InDirection, CanCloseTunnel, Conserved;
    QuietConserved(s, DoAdvance(s, i, now), i, d);
  }

  lemma AdvanceConserved(s: State, i: nat, now: int, d: Direction)
    requires Base(s) && Conserved(s, d) && i < |s.threads| && DoAdvance(s, i, now).opens < TWO64
    ensures Conserved(DoAdvance(s, i, now), d)
  {
    assert s.threads[i].Opening? ==> s.opens + 1 < TWO64;
    hide Base, Conserved, DoAdvance;
    match s.threads[i]
    case Opening(_) => OpenConserved(s, i, now, d);
    case Closing(_, _) => CloseConserved(s, i, now, d);
    case OpenHook(_) => HookConserved(s, i, now, d);
    case CloseHook(_, _) => HookConserved(s, i, now, d);
    case OwnStop(t) => OwnStopConserved(s, i, now, d, t);
    case CloseStop(t, who) => CloseStopConserved(s, i, now, d, t, who);
    case OwnBody(_) => BodyConserved(s, i, now, d);
    case CloseBody(_, _) => BodyConserved(s, i, now, d);
    case _ => OtherConserved(s, i, now, d);
  }

  // ---- Every reachable state ----

  lemma OpensGrow(s: State, step: Step)
    ensures s.opens <= Apply(s, step).opens
  {
  }

  lemma SpawnKeepsCounts(threads: seq<Pc>, pc: Pc, id: Id, d: Direction)
    requires pc.Opening? || pc.Getting?
    ensures var now := threads + [pc];
            && Count(now, Removed(id)) == Count(threads, Removed(id))
            && Count(now, Owns(id)) == Count(threads, Owns(id))
            && Count(now, InBody(id)) == Count(threads, InBody(id))
            && Count(now, AwaitsOpenHook(id)) == Count(threads, AwaitsOpenHook(id))
            && Count(now, AwaitsStop(id)) == Count(threads, AwaitsStop(id))
            && Count(now, Succeeded(id)) == Count(threads, Succeeded(id))
            && Count(now, OpenHookIn(d)) == Count(threads, OpenHookIn(d))
            && Count(now, CloseHookIn(d)) == Count(threads, CloseHookIn(d))
  {
    hide Count;
    CountAppend(threads, pc, Removed(id));
    CountAppend(threads, pc, Owns(id));
    CountAppend(threads, pc, InBody(id));
    CountAppend(threads, pc, AwaitsOpenHook(id));
    CountAppend(threads, pc, AwaitsStop(id));
    CountAppend(threads, pc, Succeeded(id));
    CountAppend(threads, pc, OpenHookIn(d));
    CountAppend(threads, pc, CloseHookIn(d));
  }

  lemma SpawnKeeps(s: State, pc: Pc, id: Id, d: Direction)
    requires Tally(s, id) && Conserved(s, d) && (pc.Opening? || pc.Getting?)
    ensures Tally(s.(threads := s.threads + [pc]), id) && Conserved(s.(threads := s.threads + [pc]), d)
  {
    hide Count;
    SpawnKeepsCounts(s.threads, pc, id, d);
  }

  lemma StepKeeps(s: State, step: Step, id: Id, d: Direction)
    requires Base(s) && Tally(s, id) && Conserved(s, d) && Apply(s, step).opens < TWO64
    ensures Base(Apply(s, step)) && Tally(Apply(s, step), id) && Conserved(Apply(s, step), d)
  {
    hide Base, Tally, Conserved, DoAdvance;
    StepBase(s, step);
    match step
    case Advance(i, now) =>
      if i < |s.threads| {
        AdvanceTally(s, i, now, id);
        AdvanceConserved(s, i, now, d);
      }
    case Forward(request) => SpawnKeeps(s, Opening(request), id, d);
    case CloseRequest(x, who) => SpawnKeeps(s, Getting(x, who), id, d);
  }

  /** The invariants hold after every interleaving in which the counter does not wrap. */
  lemma {:induction false} ExecKeeps(steps: seq<Step>, id: Id, d: Direction)
    requires Exec(steps).opens < TWO64
    ensures Base(Exec(steps)) && Tally(Exec(steps), id) && Conserved(Exec(steps), d)
  {
    if steps == [] {
      assert InDirection(map[], d) == {};
    } else {
      var init, step := steps[..|steps| - 1], steps[|steps| - 1];
      hide Apply, Base, Tally, Conserved;
      OpensGrow(Exec(init), step);
      ExecKeeps(init, id, d);
      StepKeeps(Exec(init), step, id, d);
    }
  }

  /** However closers race, at most one Close(id) returns true, and the manager stops the tunnel, runs
      each hook and tears it down at most once. */
  lemma AtMostOnce(steps: seq<Step>, id: Id)
    requires Exec(steps).opens < TWO64
    ensures var s := Exec(steps);
            && Count(s.threads, Succeeded(id)) <= 1 && s.managerStops[id] <= 1
            && s.openHooks[id] <= 1 && s.closeHooks[id] <= 1 && s.teardowns[id] <= 1
            && (id !in s.issued ==> Count(s.threads, Succeeded(id)) == 0)
  {
    ExecKeeps(steps, id, Local);
    SucceededIsRemoved(Exec(steps).threads, id);
  }

  lemma {:induction false} SucceededIsRemoved(threads: seq<Pc>, id: Id)
    ensures Count(threads, Succeeded(id)) <= Count(threads, Removed(id))
  {
    if threads == [] {
    } else {
      SucceededIsRemoved(threads[..|threads| - 1], id);
    }
  }

  /** Gauge conservation in every reachable state. */
  lemma GaugeConservation(steps: seq<Step>, d: Direction)
    requires Exec(steps).opens < TWO64
    ensures var s := Exec(steps);
            s.gauge.At(d) == |InDirection(s.tunnels, d)|
                             - Count(s.threads, OpenHookIn(d)) + Count(s.threads, CloseHookIn(d))
  {
    ExecKeeps(steps, TunnelId(0), d);
  }

  /** Every tunnel the shell command removed is one its requester may close. */
  lemma ShellRemovesOnlyPermitted(steps: seq<Step>, k: nat)
    requires Exec(steps).opens < TWO64 && k < |Exec(steps).removals|
    ensures var (who, t) := Exec(steps).removals[k];
            who.Shell? ==> CanCloseTunnel(who.role, who.user, t.request.username)
  {
    ExecKeeps(steps, TunnelId(0), Local);
  }

  predicate Quiescent(s: State) {
    forall i :: 0 <= i < |s.threads| ==> s.threads[i].Returned?
  }

  /** When every goroutine has finished: no tunnel is left, the gauges are back at zero, and for every
      tunnel ever opened exactly one Close returned true and stop, both hooks and the once-guarded
      teardown ran exactly once, although the teardown is called from two places. */
  lemma FinishedExactlyOnce(steps: seq<Step>, id: Id, d: Direction)
    requires Exec(steps).opens < TWO64 && Quiescent(Exec(steps))
    ensures var s := Exec(steps);
            && s.tunnels == map[] && s.gauge.At(d) == 0
            && (id in s.issued ==>
                  && Count(s.threads, Succeeded(id)) == 1 && s.managerStops[id] == 1
                  && s.openHooks[id] == 1 && s.closeHooks[id] == 1 && s.teardowns[id] == 1)
  {
    var s := Exec(steps);
    forall x | x in s.issued ensures x !in s.tunnels && x in s.once && s.once[x] == Done {
      ExecKeeps(steps, x, d);
      var i := CountWitness(s.threads, Owns(x));
    }
    ExecKeeps(steps, id, d);
    assert s.tunnels.Keys == {};
    CountNone(s.threads, OpenHookIn(d));
    CountNone(s.threads, CloseHookIn(d));
    CountNone(s.threads, AwaitsOpenHook(id));
    CountNone(s.threads, AwaitsStop(id));
    ReturnedCounts(s.threads, id);
    assert InDirection(s.tunnels, d) == {};
  }

  lemma {:induction false} ReturnedCounts(threads: seq<Pc>, id: Id)
    requires forall i :: 0 <= i < |threads| ==> threads[i].Returned?
    ensures Count(threads, Succeeded(id)) == Count(threads, Removed(id))
  {
    if threads == [] {
    } else {
      ReturnedCounts(threads[..|threads| - 1], id);
    }
  }

  lemma ExecSnoc(steps: seq<Step>, step: Step)
    ensures Exec(steps + [step]) == Apply(Exec(steps), step)
  {
    assert (steps + [step])[..|steps|] == steps;
  }

  /** A close request that passes its check and meets nobody else takes five steps: get, remove, enter the
      teardown, leave it, run the hook. */
  lemma RequestCloses(s: State, i: nat, now: int, t: Tunnel, who: Closer)
    requires i < |s.threads| && s.threads[i] == Getting(t.id, who) && Permitted(who, t)
    requires t.id in s.tunnels && s.tunnels[t.id] == t && t.id in s.once && s.once[t.id] == NotRun
    ensures var a := Advance(i, now);
            var s' := Apply(Apply(Apply(Apply(Apply(s, a), a), a), a), a);
            && s'.gauge == s.gauge.Add(t.request.direction, -1) && s'.opens == s.opens
            && s'.tunnels == s.tunnels - {t.id} && s'.threads == s.threads[i := Returned(t.id, who, true)]
  {
    hide CanCloseTunnel;
    var s1 := DoAdvance(s, i, now);
    assert s1 == To(s, i, Closing(t.id, who));
    var s2 := DoAdvance(s1, i, now);
    assert s2.threads == s.threads[i := CloseStop(t, who)] && s2.tunnels == s.tunnels - {t.id};
    assert s2.once == s.once && s2.gauge == s.gauge && s2.opens == s.opens;
    hide DoAdvance;
    StopsAndHooks(s2, i, now, t, who);
  }

  /** The API may close any tunnel. */
  lemma ApiCloses(s: State, i: nat, now: int, t: Tunnel)
    requires i < |s.threads| && s.threads[i] == Getting(t.id, Api)
    requires t.id in s.tunnels && s.tunnels[t.id] == t && t.id in s.once && s.once[t.id] == NotRun
    ensures var a := Advance(i, now);
            var s' := Apply(Apply(Apply(Apply(Apply(s, a), a), a), a), a);
            && s'.gauge == s.gauge.Add(t.request.direction, -1) && s'.opens == s.opens
            && s'.tunnels == s.tunnels - {t.id} && s'.threads == s.threads[i := Returned(t.id, Api, true)]
  {
    hide Apply;
    RequestCloses(s, i, now, t, Api);
  }

  /** The shell command of an administrator, or of the tunnel's owner whatever the case or padding of the
      name, closes the tunnel if nobody else does: exactly that tunnel goes, the gauge falls by one and the
      command reports success. */
  lemma ShellCloses(s: State, i: nat, now: int, t: Tunnel, role: string, user: string)
    requires i < |s.threads| && s.threads[i] == Getting(t.id, Shell(role, user))
    requires t.id in s.tunnels && s.tunnels[t.id] == t && t.id in s.once && s.once[t.id] == NotRun
    requires Normalize(role) == "admin" || Normalize(user) == Normalize(t.request.username) != ""
    ensures var a := Advance(i, now);
            var s' := Apply(Apply(Apply(Apply(Apply(s, a), a), a), a), a);
            && s'.gauge == s.gauge.Add(t.request.direction, -1) && s'.opens == s.opens
            && s'.tunnels == s.tunnels - {t.id}
            && s'.threads == s.threads[i := Returned(t.id, Shell(role, user), true)]
  {
    CloseRule(role, user, t.request.username);
    hide Apply, CanCloseTunnel, Normalize;
    RequestCloses(s, i, now, t, Shell(role, user));
  }

  /** The shell command of anyone else ends at its check, and so does every request for a tunnel that is not
      there: nothing changes but that the request is over, unsuccessful. */
  lemma RequestRefused(s: State, i: nat, now: int, id: Id, who: Closer)
    requires i < |s.threads| && s.threads[i] == Getting(id, who)
    requires id in s.tunnels ==>
               who.Shell? && Normalize(who.role) != "admin"
               && (Normalize(who.user) == "" || Normalize(who.user) != Normalize(s.tunnels[id].request.username))
    ensures Apply(s, Advance(i, now)) == s.(threads := s.threads[i := Returned(id, who, false)])
  {
  }

  lemma StopsAndHooks(s: State, i: nat, now: int, t: Tunnel, who: Closer)
    requires i < |s.threads| && s.threads[i] == CloseStop(t, who) && t.id in s.once && s.once[t.id] == NotRun
    ensures var a := Advance(i, now);
            var s' := Apply(Apply(Apply(s, a), a), a);
            && s'.gauge == s.gauge.Add(t.request.direction, -1) && s'.opens == s.opens
            && s'.tunnels == s.tunnels && s'.threads == s.threads[i := Returned(t.id, who, true)]
  {
    var s1 := DoAdvance(s, i, now);
    assert s1.threads == s.threads[i := CloseBody(t, who)];
    var s2 := DoAdvance(s1, i, now);
    assert s2.threads == s.threads[i := CloseHook(t, who)];
  }

  /** A tunnel stored, its OnOpen hook still to run, and an API request for it. */
  lemma StoredAndAsked(request: Request, now: int) returns (steps: seq<Step>, t: Tunnel)
    ensures t.request == request
    ensures var s := Exec(steps);
            && s.threads == [OpenHook(t), Getting(t.id, Api)] && s.tunnels == map[t.id := t]
            && s.once == map[t.id := NotRun] && s.gauge == Gauge(0, 0) && s.opens == 1
  {
    t := Tunnel(TunnelId(1), request, now);
    assert NextSeq(SeqNo(0)) == 1 && Exec([]) == INITIAL;
    hide Exec, TunnelId, NextSeq;
    var f, o, c := Forward(request), Advance(0, now), CloseRequest(t.id, Api);
    ExecSnoc([], f);
    ExecSnoc([] + [f], o);
    ExecSnoc([] + [f] + [o], c);
    steps := [] + [f] + [o] + [c];
  }

  lemma FiveSteps(steps: seq<Step>, a: Step)
    ensures Exec(steps + [a] + [a] + [a] + [a] + [a]) ==
            Apply(Apply(Apply(Apply(Apply(Exec(steps), a), a), a), a), a)
  {
    hide *;
    ExecSnoc(steps, a);
    ExecSnoc(steps + [a], a);
    ExecSnoc(steps + [a] + [a], a);
    ExecSnoc(steps + [a] + [a] + [a], a);
    ExecSnoc(steps + [a] + [a] + [a] + [a], a);
  }

  /** The OnClose hook may overtake the OnOpen hook: the API can close a tunnel between its insertion
      and its OnOpen hook, and then the gauge reads -1. */
  lemma GaugeCanDip(request: Request, now: int) returns (steps: seq<Step>)
    ensures Exec(steps).opens < TWO64 && Exec(steps).gauge.At(request.direction) == -1
  {
    hide Exec, Apply;
    var before, t := StoredAndAsked(request, now);
    var a := Advance(1, now);
    ApiCloses(Exec(before), 1, now, t);
    FiveSteps(before, a);
    steps := before + [a] + [a] + [a] + [a] + [a];
  }
}
