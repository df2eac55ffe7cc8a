/** Sessions: the registry (internal/session/registry.go) and the open/close bookkeeping around it in
    both transports. A connection counts itself in the active-sessions gauge, registers, and on the way
    out unregisters and discounts itself; connections interleave between these steps. */
module SessionRegistry {
  import opened Text
  import opened Counting
  import opened Words

  datatype Id = Id(text: string)

  /** session.New numbers sessions with a process-wide atomic 64-bit counter. */
  function SessionId(n: nat): Id {
    Id("sess-" + Padded6(n % TWO64))
  }

  lemma SessionIdInjective(m: nat, n: nat)
    ensures SessionId(m) == SessionId(n) <==> m % TWO64 == n % TWO64
  {
    if SessionId(m) == SessionId(n) {
      var a, b := m % TWO64, n % TWO64;
      assert Padded6(a) == SessionId(m).text[5..] == SessionId(n).text[5..] == Padded6(b);
      ParseInvertsPadded(a);
      ParseInvertsPadded(b);
    }
  }

  /** Ids are spelled "sess-" and the decimal counter, with zeros in front up to six digits and no others. */
  lemma SessionIdText(n: nat)
    ensures var text := SessionId(n).text;
            && |text| >= 11 && text[..5] == "sess-"
            && AllDigits(text[5..]) && ParseDecimal(text[5..]) == n % TWO64
            && (|text| > 11 ==> text[5] != '0')
  {
    ParseInvertsPadded(n % TWO64);
    PaddedShape(n % TWO64);
    assert SessionId(n).text[5..] == Padded6(n % TWO64);
  }

  class Registry {
    var sessions: map<Id, string>
    var notified: nat

    constructor ()
      ensures sessions == map[] && notified == 0
    {
      sessions, notified := map[], 0;
    }

    /** Re-adding an id replaces its session; every change is announced. */
    method Add(id: Id, remoteAddr: string)
      modifies this
      ensures sessions == old(sessions)[id := remoteAddr] && notified == old(notified) + 1
    {
      sessions := sessions[id := remoteAddr];
      notified := notified + 1;
    }

    method Remove(id: Id)
      modifies this
      ensures sessions == old(sessions) - {id} && notified == old(notified) + 1
    {
      sessions := sessions - {id};
      notified := notified + 1;
    }
  }

  // ---- Interleaved connections ----

  datatype Pc =
    | Arrived(id: Id)       // session.New done
    | Counted(id: Id)       // gauge incremented
    | Registered(id: Id)    // in the registry, serving commands
    | Removed(id: Id)       // out of the registry
    | Gone                  // gauge decremented

  datatype State = State(conns: seq<Pc>, created: nat, gauge: int, registry: set<Id>)

  const INITIAL := State([], 0, 0, {})

  datatype Step = Connect | Advance(conn: nat)

  function DoAdvance(s: State, i: nat): State
    requires i < |s.conns|
  {
    match s.conns[i]
    case Arrived(id) => s.(conns := s.conns[i := Counted(id)], gauge := s.gauge + 1)
    case Counted(id) => s.(conns := s.conns[i := Registered(id)], registry := s.registry + {id})
    case Registered(id) => s.(conns := s.conns[i := Removed(id)], registry := s.registry - {id})
    case Removed(_) => s.(conns := s.conns[i := Gone], gauge := s.gauge - 1)
    case Gone => s
  }

  function Apply(s: State, step: Step): State {
    match step
    case Connect => s.(conns := s.conns + [Arrived(SessionId(s.created + 1))], created := s.created + 1)
    case Advance(i) => if i < |s.conns| then DoAdvance(s, i) else s
  }

  function Exec(steps: seq<Step>): State {
    if steps == [] then INITIAL else Apply(Exec(steps[..|steps| - 1]), steps[|steps| - 1])
  }

  predicate IsCounted(pc: Pc) {
    pc.Counted? || pc.Registered? || pc.Removed?
  }

  predicate IsRegistered(pc: Pc) {
    pc.Registered?
  }

  predicate HasRegistered(s: State, id: Id) {
    exists i :: 0 <= i < |s.conns| && s.conns[i] == Registered(id)
  }

  /** What holds even if ids collide. */
  ghost predicate Loose(s: State) {
    && s.gauge == Count(s.conns, IsCounted)
    && (forall id :: id in s.registry ==> HasRegistered(s, id))
  }

  /** Ids of connections are pairwise different, and the counter has none of them ahead of it. */
  ghost predicate Distinct(s: State) {
    && s.created < TWO64
    && (forall i, n :: 0 <= i < |s.conns| && !s.conns[i].Gone? && s.created < n < TWO64 ==>
          s.conns[i].id != SessionId(n))
    && (forall i, j :: 0 <= i < j < |s.conns| && !s.conns[i].Gone? && !s.conns[j].Gone? ==>
          s.conns[i].id != s.conns[j].id)
    && (forall i :: 0 <= i < |s.conns| && s.conns[i].Registered? ==> s.conns[i].id in s.registry)
  }

  lemma StepLoose(s: State, step: Step)
    requires Loose(s)
    ensures Loose(Apply(s, step))
  {
    var s' := Apply(s, step);
    hide Count;
    if step.Advance? && step.conn < |s.conns| {
      CountUpdate(s.conns, step.conn, s'.conns[step.conn], IsCounted);
    } else if step.Connect? {
      CountAppend(s.conns, s'.conns[|s.conns|], IsCounted);
    }
    forall id | id in s'.registry ensures HasRegistered(s', id) {
      if id in s.registry {
        var i :| 0 <= i < |s.conns| && s.conns[i] == Registered(id);
        assert s'.conns[i] == Registered(id);
      } else {
        assert s'.conns[step.conn] == Registered(id);
      }
    }
  }

  lemma LaterIdsDiffer(m: nat)
    requires m < TWO64
    ensures forall n :: m < n < TWO64 ==> SessionId(n) != SessionId(m)
  {
    forall n | m < n < TWO64 ensures SessionId(n) != SessionId(m) {
      SessionIdInjective(n, m);
    }
  }

  lemma ConnectDistinct(s: State)
    requires Distinct(s) && s.created + 1 < TWO64
    ensures Distinct(Apply(s, Connect))
  {
    hide SessionId;
    LaterIdsDiffer(s.created + 1);
    var s' := Apply(s, Connect);
    assert s'.conns[|s.conns|] == Arrived(SessionId(s.created + 1));
  }

  lemma AdvanceDistinct(s: State, i: nat)
    requires Distinct(s) && i < |s.conns|
    ensures Distinct(DoAdvance(s, i))
  {
    hide SessionId;
  }

  lemma {:induction false} ExecLoose(steps: seq<Step>)
    ensures Loose(Exec(steps))
    ensures Exec(steps).created < TWO64 ==> Distinct(Exec(steps))
  {
    if steps == [] {
    } else {
      var s, step := Exec(steps[..|steps| - 1]), steps[|steps| - 1];
      ExecLoose(steps[..|steps| - 1]);
      StepLoose(s, step);
      if Apply(s, step).created < TWO64 {
        match step
        case Connect => ConnectDistinct(s);
        case Advance(i) => if i < |s.conns| { AdvanceDistinct(s, i); }
      }
    }
  }

  /** A set of ids, each held by some registered connection, is no larger than their number. */
  lemma {:induction false} RegistryBounded(conns: seq<Pc>, registry: set<Id>)
    requires forall id :: id in registry ==> exists i :: 0 <= i < |conns| && conns[i] == Registered(id)
    ensures |registry| <= Count(conns, IsRegistered)
  {
    if conns == [] {
      assert registry == {};
    } else {
      var n := |conns| - 1;
      var rest := if conns[n].Registered? then registry - {conns[n].id} else registry;
      forall id | id in rest ensures exists i :: 0 <= i < n && conns[..n][i] == Registered(id) {
        var i :| 0 <= i < |conns| && conns[i] == Registered(id);
        assert conns[..n][i] == Registered(id);
      }
      RegistryBounded(conns[..n], rest);
      if conns[n].Registered? && conns[n].id in registry {
        assert registry == rest + {conns[n].id};
      }
    }
  }

  /** A set holding the pairwise different ids of all registered connections has at least their number. */
  lemma {:induction false} RegistryFull(conns: seq<Pc>, registry: set<Id>)
    requires forall i :: 0 <= i < |conns| && conns[i].Registered? ==> conns[i].id in registry
    requires forall i, j :: 0 <= i < j < |conns| && conns[i].Registered? && conns[j].Registered? ==>
               conns[i].id != conns[j].id
    ensures |registry| >= Count(conns, IsRegistered)
  {
    if conns == [] {
    } else {
      var n := |conns| - 1;
      if conns[n].Registered? {
        RegistryFull(conns[..n], registry - {conns[n].id});
      } else {
        RegistryFull(conns[..n], registry);
      }
    }
  }

  lemma {:induction false} RegisteredAreCounted(conns: seq<Pc>)
    ensures Count(conns, IsRegistered) <= Count(conns, IsCounted)
    ensures (forall i :: 0 <= i < |conns| ==> conns[i].Registered? || conns[i].Gone?) ==>
              Count(conns, IsRegistered) == Count(conns, IsCounted)
  {
    if conns == [] {
    } else {
      RegisteredAreCounted(conns[..|conns| - 1]);
    }
  }

  /** No connection is on its way in or out. */
  predicate Settled(s: State) {
    forall i :: 0 <= i < |s.conns| ==> s.conns[i].Registered? || s.conns[i].Gone?
  }

  /** In every reachable state the registry holds at most as many sessions as the gauge shows; and as
      long as the id counter has not wrapped, exactly as many when no connection is on its way in or out. */
  lemma RegistryWithinGauge(steps: seq<Step>)
    ensures var s := Exec(steps);
            && |s.registry| <= s.gauge
            && (s.created < TWO64 && Settled(s) ==> |s.registry| == s.gauge)
  {
    var s := Exec(steps);
    ExecLoose(steps);
    RegistryBounded(s.conns, s.registry);
    RegisteredAreCounted(s.conns);
    if s.created < TWO64 {
      RegistryFull(s.conns, s.registry);
    }
  }

  /** The life of a connection that nobody disturbs: counted, registered, unregistered, discounted. */
  lemma ConnectionLife(s: State)
    ensures var i, id, a := |s.conns|, SessionId(s.created + 1), Advance(|s.conns|);
            var s0 := Apply(s, Connect);
            var s1, s2 := Apply(s0, a), Apply(Apply(s0, a), a);
            var s3, s4 := Apply(s2, a), Apply(Apply(s2, a), a);
            && s0.created == s.created + 1 && s0.gauge == s.gauge && s0.registry == s.registry
            && s1.gauge == s.gauge + 1 && s1.registry == s.registry
            && s2.gauge == s.gauge + 1 && s2.registry == s.registry + {id}
            && s3.gauge == s.gauge + 1 && s3.registry == s.registry - {id}
            && s4.gauge == s.gauge && s4.registry == s.registry - {id} && s4.conns == s.conns + [Gone]
  {
    hide SessionId;
  }

  // ---- The objects in any interleaving ----

  predicate HasEntered(pc: Pc) {
    pc.Registered? || pc.Removed? || pc.Gone?
  }

  predicate HasLeft(pc: Pc) {
    pc.Removed? || pc.Gone?
  }

  /** The registry object with the connections that use it. */
  class Server {
    const registry: Registry
    var conns: seq<Pc>
    var created: nat
    var gauge: int

    /** Every session is announced once when it enters the registry and once when it leaves. */
    ghost predicate Valid()
      reads this, registry
    {
      registry.notified == Count(conns, HasEntered) + Count(conns, HasLeft)
    }

    ghost function Value(): State
      reads this, registry
    {
      State(conns, created, gauge, registry.sessions.Keys)
    }

    constructor ()
      ensures Valid() && Value() == INITIAL && fresh(registry)
    {
      conns, created, gauge := [], 0, 0;
      registry := new Registry();
    }

    /** A connection takes its next step, calling the registry where handleConnection does. */
    method Progress(i: nat, remoteAddr: string)
      requires Valid() && i < |conns|
      modifies this, registry
      ensures Valid() && Value() == DoAdvance(old(Value()), i)
    {
      hide Count;
      ghost var was := conns;
      match conns[i] {
        case Arrived(id) =>
          gauge := gauge + 1;
          conns := conns[i := Counted(id)];
        case Counted(id) =>
          registry.Add(id, remoteAddr);
          conns := conns[i := Registered(id)];
        case Registered(id) =>
          registry.Remove(id);
          conns := conns[i := Removed(id)];
        case Removed(_) =>
          gauge := gauge - 1;
          conns := conns[i := Gone];
        case Gone =>
      }
      CountUpdate(was, i, conns[i], HasEntered);
      CountUpdate(was, i, conns[i], HasLeft);
      assert conns == was[i := conns[i]];
    }

    method Take(step: Step, remoteAddr: string)
      requires Valid()
      modifies this, registry
      ensures Valid() && Value() == Apply(old(Value()), step)
    {
      hide Count, SessionId, DoAdvance;
      match step {
        case Connect =>
          CountAppend(conns, Arrived(SessionId(created + 1)), HasEntered);
          CountAppend(conns, Arrived(SessionId(created + 1)), HasLeft);
          created := created + 1;
          conns := conns + [Arrived(SessionId(created))];
        case Advance(i) =>
          if i < |conns| {
            Progress(i, remoteAddr);
          }
      }
    }
  }

  /** Whatever the interleaving, the registry object holds the sessions the step machine says: never more
      than the gauge shows, and as many when no connection is on its way in or out. */
  method Serve(steps: seq<Step>, remoteAddr: string) returns (server: Server)
    ensures fresh(server) && fresh(server.registry) && server.Valid() && server.Value() == Exec(steps)
    ensures |server.registry.sessions| <= server.gauge
    ensures server.created < TWO64 && Settled(server.Value()) ==> |server.registry.sessions| == server.gauge
  {
    server := new Server();
    assert steps[..0] == [];
    hide Apply;
    for k := 0 to |steps|
      invariant fresh(server) && fresh(server.registry) && server.Valid() && server.Value() == Exec(steps[..k])
    {
      assert steps[..k + 1][..k] == steps[..k];
      server.Take(steps[k], remoteAddr);
    }
    assert steps[..|steps|] == steps;
    RegistryWithinGauge(steps);
    assert |server.registry.sessions| == |server.registry.sessions.Keys|;
  }
}
