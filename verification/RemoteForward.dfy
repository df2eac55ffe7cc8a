/** SSH remote forwarding on one connection (internal/transport/sshserver/server.go): global requests
    `tcpip-forward` and `cancel-tcpip-forward` (section 7.1 of RFC 4254), their replies (section 4 of
    RFC 4254), and the registry that remembers which listener serves which address. What net.Listen
    returns is part of each request; sockets are identities with a bound address. */
module RemoteForward {
  import opened Text
  import opened ForwardPolicy

  datatype Listener = Listener(n: nat)

  /** An address as the registry spells it. */
  datatype Address = Address(text: string)

  datatype Payload = Malformed | Bind(addr: string, port: nat)

  datatype Listening = Refused | NotTcp | Bound(l: Listener, port: int)

  datatype Request =
    | Forward(wantReply: bool, payload: Payload, listening: Listening)
    | Cancel(wantReply: bool, payload: Payload)
    | Unknown(wantReply: bool)

  datatype Reply = Denied | Granted | GrantedPort(port: nat)

  const MAX_UINT32 := 0xFFFF_FFFF

  /** Who is asking, under which policy. */
  datatype Peer = Peer(policy: Policy, role: string)

  /** `live` holds every open listener with the address it is bound to. */
  datatype State = State(listeners: map<Address, Listener>, live: map<Listener, Address>)

  const EMPTY := State(map[], map[])

  function AddressOf(addr: string, port: nat): Address {
    Address(NormalizeTarget(addr, port))
  }

  predicate PortInRange(port: int) {
    0 <= port <= MAX_UINT32
  }

  /** The request asks for a listener and net.Listen is called. */
  predicate Listens(peer: Peer, r: Request) {
    r.Forward? && r.payload.Bind? && AllowRemoteBind(peer.policy, peer.role, r.payload.addr, r.payload.port)
  }

  /** The request ends with a new entry in the registry. */
  predicate Binds(peer: Peer, r: Request) {
    Listens(peer, r) && r.listening.Bound? && PortInRange(r.listening.port)
  }

  function BoundAddress(peer: Peer, r: Request): Address
    requires Binds(peer, r)
  {
    AddressOf(r.payload.addr, r.listening.port)
  }

  function After(peer: Peer, s: State, r: Request): State {
    if Binds(peer, r) then
      var a := BoundAddress(peer, r);
      State(s.listeners[a := r.listening.l], s.live[r.listening.l := a])
    else if r.Cancel? && r.payload.Bind? then
      var a := AddressOf(r.payload.addr, r.payload.port);
      if a in s.listeners then State(s.listeners - {a}, s.live - {s.listeners[a]}) else s
    else s
  }

  function ReplyTo(peer: Peer, r: Request): Reply {
    match r
    case Unknown(_) => Denied
    case Cancel(_, payload) => if payload.Malformed? then Denied else Granted
    case Forward(_, payload, listening) =>
      if !Binds(peer, r) then Denied
      else if payload.port == 0 then GrantedPort(listening.port)
      else Granted
  }

  /** The paths that close the new listener and return without a word. */
  predicate Swallowed(peer: Peer, r: Request) {
    Listens(peer, r) && (r.listening.NotTcp? || (r.listening.Bound? && !PortInRange(r.listening.port)))
  }

  function Replies(peer: Peer, r: Request): seq<Reply> {
    if r.wantReply && !Swallowed(peer, r) then [ReplyTo(peer, r)] else []
  }

  // ---- The objects ----

  class Connection {
    const peer: Peer
    var listeners: map<Address, Listener>
    var live: map<Listener, Address>

    ghost function Value(): State
      reads this
    {
      State(listeners, live)
    }

    constructor (peer: Peer)
      ensures this.peer == peer && Value() == EMPTY
    {
      this.peer := peer;
      listeners, live := map[], map[];
    }

    /** Removing what is not there returns nothing. */
    method Remove(a: Address) returns (found: bool, l: Listener)
      modifies this`listeners
      ensures found <==> a in old(listeners)
      ensures found ==> l == old(listeners)[a]
      ensures listeners == old(listeners) - {a}
    {
      found := a in listeners;
      l := if found then listeners[a] else Listener(0);
      listeners := listeners - {a};
    }

    method CloseAll()
      modifies this
      ensures listeners == map[] && live == old(live) - old(listeners).Values
    {
      var left := listeners.Keys;
      while left != {}
        invariant left <= listeners.Keys && listeners == old(listeners)
        invariant live == old(live) - (set a | a in listeners && a !in left :: listeners[a])
        decreases |left|
      {
        var a :| a in left;
        live := live - {listeners[a]};
        left := left - {a};
      }
      assert (set a | a in listeners && a !in left :: listeners[a]) == listeners.Values;
      listeners := map[];
    }

    /** A bind the policy does not admit changes nothing and is denied. */
    method HandleForward(r: Request) returns (replies: seq<Reply>)
      requires r.Forward?
      modifies this
      ensures Value() == After(peer, old(Value()), r) && replies == Replies(peer, r)
      ensures r.payload.Malformed? || !AllowRemoteBind(peer.policy, peer.role, r.payload.addr, r.payload.port) ==>
                Value() == old(Value()) && replies == if r.wantReply then [Denied] else []
    {
      var denied := if r.wantReply then [Denied] else [];
      if r.payload.Malformed? {
        return denied;
      }
      if !AllowRemoteBind(peer.policy, peer.role, r.payload.addr, r.payload.port) {
        return denied;
      }
      hide NormalizeTarget, AllowRemoteBind;
      match r.listening {
        case Refused => return denied;
        case NotTcp => return [];
        case Bound(l, port) =>
          if port < 0 || port > MAX_UINT32 {
            return [];
          }
          var actual := AddressOf(r.payload.addr, port);
          listeners := listeners[actual := l];
          live := live[l := actual];
          if !r.wantReply {
            return [];
          }
          return if r.payload.port == 0 then [GrantedPort(port)] else [Granted];
      }
    }

    method HandleCancel(r: Request) returns (replies: seq<Reply>)
      requires r.Cancel?
      modifies this
      ensures Value() == After(peer, old(Value()), r) && replies == Replies(peer, r)
    {
      hide NormalizeTarget;
      if r.payload.Malformed? {
        return if r.wantReply then [Denied] else [];
      }
      var found, l := Remove(AddressOf(r.payload.addr, r.payload.port));
      if found {
        live := live - {l};
      } else {
        assert old(listeners) - {AddressOf(r.payload.addr, r.payload.port)} == old(listeners);
      }
      return if r.wantReply then [Granted] else [];
    }

    method HandleRequest(r: Request) returns (replies: seq<Reply>)
      modifies this
      ensures Value() == After(peer, old(Value()), r) && replies == Replies(peer, r)
    {
      hide NormalizeTarget, AllowRemoteBind;
      match r {
        case Forward(_, _, _) => replies := HandleForward(r);
        case Cancel(_, _) => replies := HandleCancel(r);
        case Unknown(wantReply) => replies := if wantReply then [Denied] else [];
      }
    }

    /** The request loop, on a connection whose past is `past`. */
    method HandleGlobalRequests(requests: seq<Request>, ghost past: seq<Event>) returns (replies: seq<Reply>)
      requires Value() == Run(peer, past)
      modifies this
      ensures Value() == Run(peer, past + Handled(requests))
      ensures AllReplies(peer, past + Handled(requests)) == AllReplies(peer, past) + replies
    {
      hide Run, AllReplies, After, Replies;
      replies := [];
      assert past + Handled(requests[..0]) == past;
      for i := 0 to |requests|
        invariant Value() == Run(peer, past + Handled(requests[..i]))
        invariant AllReplies(peer, past + Handled(requests[..i])) == AllReplies(peer, past) + replies
      {
        assert past + Handled(requests[..i + 1]) == past + Handled(requests[..i]) + [Handle(requests[i])];
        EventSnoc(peer, past + Handled(requests[..i]), requests[i]);
        var answered := HandleRequest(requests[i]);
        replies := replies + answered;
      }
      assert requests[..|requests|] == requests;
    }
  }

  // ---- Single requests, spelled out ----

  /** A forward opens its listener exactly when it is well-formed, the policy admits what it asks for, and
      net.Listen returns a TCP address with a port in range. It is answered with the bound port if it left the
      choice open, plainly if not, with a denial if it was refused, and not at all if it was dropped. */
  lemma ForwardExactly(peer: Peer, s: State, r: Request)
    requires r.Forward?
    ensures var admitted := r.payload.Bind? &&
                            AllowRemoteBind(peer.policy, peer.role, r.payload.addr, r.payload.port);
            var opens := admitted && r.listening.Bound? && 0 <= r.listening.port <= 0xFFFF_FFFF;
            && (!opens ==> After(peer, s, r) == s)
            && (opens ==>
                  var a := Address(NormalizeTarget(r.payload.addr, r.listening.port));
                  After(peer, s, r) == State(s.listeners[a := r.listening.l], s.live[r.listening.l := a]))
            && (!r.wantReply ==> Replies(peer, r) == [])
            && (r.wantReply && opens ==>
                  Replies(peer, r) == if r.payload.port == 0 then [GrantedPort(r.listening.port)] else [Granted])
            && (r.wantReply && !admitted ==> Replies(peer, r) == [Denied])
            && (r.wantReply && admitted && r.listening.Refused? ==> Replies(peer, r) == [Denied])
            && (admitted && !opens && !r.listening.Refused? ==> Replies(peer, r) == [])
  {
    hide NormalizeTarget, AllowRemoteBind;
  }

  /** A cancel closes and forgets the listener of its address, if there is one, and is granted either way;
      a malformed one is denied, as is every request of an unknown type, and changes nothing. */
  lemma CancelExactly(peer: Peer, s: State, r: Request)
    requires !r.Forward?
    ensures r.Unknown? || r.payload.Malformed? ==>
              After(peer, s, r) == s && Replies(peer, r) == if r.wantReply then [Denied] else []
    ensures r.Cancel? && r.payload.Bind? ==>
              var a := Address(NormalizeTarget(r.payload.addr, r.payload.port));
              && Replies(peer, r) == (if r.wantReply then [Granted] else [])
              && After(peer, s, r).listeners == s.listeners - {a}
              && After(peer, s, r).live == s.live - (if a in s.listeners then {s.listeners[a]} else {})
  {
    hide NormalizeTarget, AllowRemoteBind;
    if r.Cancel? && r.payload.Bind? {
      var a := AddressOf(r.payload.addr, r.payload.port);
      assert a !in s.listeners ==> s.listeners - {a} == s.listeners && s.live - {} == s.live;
    }
  }

  // ---- Whole runs ----

  datatype Event = Handle(r: Request) | CloseAll

  function Step(peer: Peer, s: State, e: Event): State {
    match e
    case Handle(r) => After(peer, s, r)
    case CloseAll => State(map[], s.live - s.listeners.Values)
  }

  function Run(peer: Peer, events: seq<Event>): State {
    if events == [] then EMPTY else Step(peer, Run(peer, events[..|events| - 1]), events[|events| - 1])
  }

  function AllReplies(peer: Peer, events: seq<Event>): seq<Reply> {
    if events == [] then []
    else
      var e := events[|events| - 1];
      AllReplies(peer, events[..|events| - 1]) + if e.Handle? then Replies(peer, e.r) else []
  }

  function Handled(requests: seq<Request>): seq<Event> {
    seq(|requests|, i requires 0 <= i < |requests| => Handle(requests[i]))
  }

  lemma EventSnoc(peer: Peer, events: seq<Event>, r: Request)
    ensures Run(peer, events + [Handle(r)]) == After(peer, Run(peer, events), r)
    ensures AllReplies(peer, events + [Handle(r)]) == AllReplies(peer, events) + Replies(peer, r)
  {
    assert (events + [Handle(r)])[..|events|] == events;
    hide After, Replies;
  }

  /** net.Listen hands out a new socket on an address no live listener is bound to. */
  predicate Honest(peer: Peer, s: State, e: Event) {
    e.Handle? && Binds(peer, e.r) ==>
      e.r.listening.l !in s.live && BoundAddress(peer, e.r) !in s.live.Values
  }

  ghost predicate HonestRun(peer: Peer, events: seq<Event>) {
    events == [] ||
    (HonestRun(peer, events[..|events| - 1]) &&
     Honest(peer, Run(peer, events[..|events| - 1]), events[|events| - 1]))
  }

  /** The live listeners are exactly the registry's values, each under its own address. */
  ghost predicate Exact(s: State) {
    && (forall a :: a in s.listeners ==> s.listeners[a] in s.live && s.live[s.listeners[a]] == a)
    && (forall l :: l in s.live ==> s.live[l] in s.listeners && s.listeners[s.live[l]] == l)
  }

  lemma StepExact(peer: Peer, s: State, e: Event)
    requires Exact(s) && Honest(peer, s, e)
    ensures Exact(Step(peer, s, e))
  {
    hide NormalizeTarget, AllowRemoteBind;
    if e.Handle? && Binds(peer, e.r) {
      var a := BoundAddress(peer, e.r);
      assert a !in s.listeners;
    }
  }

  /** In every run the open listeners are the registered ones. */
  lemma {:induction false} OpenListenersAreRegistered(peer: Peer, events: seq<Event>)
    requires HonestRun(peer, events)
    ensures Exact(Run(peer, events)) && Run(peer, events).live.Keys == Run(peer, events).listeners.Values
  {
    if events == [] {
    } else {
      var s, e := Run(peer, events[..|events| - 1]), events[|events| - 1];
      OpenListenersAreRegistered(peer, events[..|events| - 1]);
      StepExact(peer, s, e);
    }
    var s := Run(peer, events);
    hide Run, HonestRun;
    forall l | l in s.live ensures l in s.listeners.Values {
      assert s.listeners[s.live[l]] == l;
    }
  }

  /** A new listener pushes an older one out of the registry, leaving it open and out of reach, exactly
      when its address is already taken there. */
  lemma PutOrphansIff(peer: Peer, s: State, r: Request)
    requires Exact(s) && Binds(peer, r) && r.listening.l !in s.live
    ensures (exists l :: l in s.live && l !in After(peer, s, r).listeners.Values) <==>
            BoundAddress(peer, r) in s.listeners
  {
    hide NormalizeTarget, AllowRemoteBind;
    var s', a := After(peer, s, r), BoundAddress(peer, r);
    if a in s.listeners {
      var l := s.listeners[a];
      assert l in s.live && l !in s'.listeners.Values;
    } else {
      forall l | l in s.live ensures l in s'.listeners.Values {
        assert s'.listeners[s.live[l]] == l;
      }
    }
  }

  /** Forwarding and then cancelling with the port actually bound, under any spelling of the host,
      restores the connection. */
  lemma CancelUndoesForward(peer: Peer, s: State, forward: Request, cancel: Request)
    requires Exact(s) && Binds(peer, forward) && Honest(peer, s, Handle(forward))
    requires cancel.Cancel? && cancel.payload.Bind? && cancel.payload.port == forward.listening.port
    requires Normalize(cancel.payload.addr) == Normalize(forward.payload.addr)
    ensures After(peer, After(peer, s, forward), cancel) == s
  {
    NormalizeTargetInjective(cancel.payload.addr, cancel.payload.port, forward.payload.addr, forward.listening.port);
    hide NormalizeTarget, AllowRemoteBind, Normalize;
    var a := BoundAddress(peer, forward);
    assert a !in s.listeners;
    assert s.listeners[a := forward.listening.l] - {a} == s.listeners;
    assert s.live[forward.listening.l := a] - {forward.listening.l} == s.live;
  }

  /** Cancelling one address leaves every listener on a different host or port alone. */
  lemma CancelTouchesNothingElse(peer: Peer, s: State, cancel: Request, addr: string, port: nat)
    requires Exact(s) && cancel.Cancel? && cancel.payload.Bind?
    requires Normalize(cancel.payload.addr) != Normalize(addr) || cancel.payload.port != port
    requires AddressOf(addr, port) in s.listeners
    ensures var l := s.listeners[AddressOf(addr, port)];
            && l in After(peer, s, cancel).live
            && AddressOf(addr, port) in After(peer, s, cancel).listeners
            && After(peer, s, cancel).listeners[AddressOf(addr, port)] == l
  {
    NormalizeTargetInjective(cancel.payload.addr, cancel.payload.port, addr, port);
    hide NormalizeTarget, Normalize;
  }

  /** CloseAll after the last request leaves nothing open. */
  lemma CloseAllLast(peer: Peer, events: seq<Event>)
    requires HonestRun(peer, events)
    ensures Run(peer, events + [CloseAll]) == EMPTY
  {
    OpenListenersAreRegistered(peer, events);
    assert (events + [CloseAll])[..|events|] == events;
    var s := Run(peer, events);
    assert s.live - s.listeners.Values == map[];
  }

  /** CloseAll is no barrier: the request loop runs in its own goroutine, and whatever it handles after
      CloseAll behaves as on a new connection. */
  lemma {:induction false} LateRequestsStartAfresh(peer: Peer, events: seq<Event>, late: seq<Event>)
    requires HonestRun(peer, events)
    ensures Run(peer, events + [CloseAll] + late) == Run(peer, late)
    ensures HonestRun(peer, events + [CloseAll] + late) <==> HonestRun(peer, late)
  {
    if late == [] {
      assert events + [CloseAll] + late == events + [CloseAll];
      CloseAllLast(peer, events);
      RunSnoc(peer, events, CloseAll);
      RunSnoc(peer, [], CloseAll);
    } else {
      var init, e := late[..|late| - 1], late[|late| - 1];
      assert late == init + [e];
      assert events + [CloseAll] + late == events + [CloseAll] + init + [e];
      hide Step, Honest, Run, HonestRun;
      LateRequestsStartAfresh(peer, events, init);
      RunSnoc(peer, events + [CloseAll] + init, e);
      RunSnoc(peer, init, e);
    }
  }

  lemma RunSnoc(peer: Peer, events: seq<Event>, e: Event)
    ensures Run(peer, events + [e]) == Step(peer, Run(peer, events), e)
    ensures HonestRun(peer, events + [e]) <==> HonestRun(peer, events) && Honest(peer, Run(peer, events), e)
  {
    assert (events + [e])[..|events|] == events;
    hide Step, Honest;
  }

  predicate BindsAt(peer: Peer, e: Event, a: Address) {
    e.Handle? && Binds(peer, e.r) && BoundAddress(peer, e.r) == a
  }

  predicate Frees(e: Event, a: Address) {
    e.CloseAll? || (e.r.Cancel? && e.r.payload.Bind? && AddressOf(e.r.payload.addr, e.r.payload.port) == a)
  }

  /** Address `a` is cancelled, or everything is closed, after event `i`. */
  predicate FreedAfter(events: seq<Event>, i: nat, a: Address) {
    exists j :: i < j < |events| && Frees(events[j], a)
  }

  /** Event `i` binds `a`, and nothing after it frees `a`. */
  predicate StillBound(peer: Peer, events: seq<Event>, i: nat, a: Address) {
    i < |events| && BindsAt(peer, events[i], a) && !FreedAfter(events, i, a)
  }

  lemma StillBoundSnoc(peer: Peer, events: seq<Event>, e: Event, i: nat, a: Address)
    ensures StillBound(peer, events + [e], i, a) <==>
            if i < |events| then StillBound(peer, events, i, a) && !Frees(e, a)
            else i == |events| && BindsAt(peer, e, a)
  {
    hide BindsAt, Frees;
    var all := events + [e];
    if i < |events| {
      assert all[|events|] == e;
      if FreedAfter(events, i, a) {
        var j :| i < j < |events| && Frees(events[j], a);
        assert Frees(all[j], a);
      }
      if FreedAfter(all, i, a) && !Frees(e, a) {
        var j :| i < j < |all| && Frees(all[j], a);
        assert Frees(events[j], a);
      }
    }
  }

  lemma StepRegisters(peer: Peer, s: State, e: Event, a: Address)
    ensures a in Step(peer, s, e).listeners <==> BindsAt(peer, e, a) || (a in s.listeners && !Frees(e, a))
  {
    hide NormalizeTarget, AllowRemoteBind;
  }

  ghost predicate Held(peer: Peer, events: seq<Event>, a: Address) {
    exists i :: StillBound(peer, events, i, a)
  }

  lemma HeldSnoc(peer: Peer, events: seq<Event>, e: Event, a: Address)
    ensures Held(peer, events + [e], a) <==> BindsAt(peer, e, a) || (Held(peer, events, a) && !Frees(e, a))
  {
    var all := events + [e];
    if Held(peer, all, a) {
      var i :| StillBound(peer, all, i, a);
      StillBoundSnoc(peer, events, e, i, a);
    }
    if BindsAt(peer, e, a) {
      StillBoundSnoc(peer, events, e, |events|, a);
    }
    if Held(peer, events, a) && !Frees(e, a) {
      var i :| StillBound(peer, events, i, a);
      StillBoundSnoc(peer, events, e, i, a);
    }
    hide BindsAt, Frees, FreedAfter;
  }

  /** What the registry holds, read off the requests alone. */
  lemma {:induction false} RegisteredIff(peer: Peer, events: seq<Event>, a: Address)
    ensures a in Run(peer, events).listeners <==> Held(peer, events, a)
  {
    if events == [] {
    } else {
      var init, e := events[..|events| - 1], events[|events| - 1];
      assert events == init + [e];
      hide BindsAt, Frees, Step, Held;
      RegisteredIff(peer, init, a);
      StepRegisters(peer, Run(peer, init), e, a);
      HeldSnoc(peer, init, e, a);
    }
  }

  lemma BindsAtAdmitted(peer: Peer, e: Event, a: Address)
    requires BindsAt(peer, e, a)
    ensures e.Handle? && e.r.Forward? && e.r.payload.Bind? && e.r.listening.Bound? && e.r.listening.port >= 0
    ensures AllowRemoteBind(peer.policy, peer.role, e.r.payload.addr, e.r.payload.port)
    ensures a == Address(NormalizeTarget(e.r.payload.addr, e.r.listening.port))
  {
    hide AllowRemoteBind, NormalizeTarget;
  }

  /** In every run each registered address was bound by a forward, the `i`-th event, whose host and port the
      policy admits for this peer; it names that host and the port actually bound. */
  lemma RegisteredIsAdmitted(peer: Peer, events: seq<Event>, a: Address) returns (i: nat)
    requires a in Run(peer, events).listeners
    ensures i < |events| && events[i].Handle? && events[i].r.Forward? && events[i].r.payload.Bind?
    ensures events[i].r.listening.Bound? && events[i].r.listening.port >= 0
    ensures AllowRemoteBind(peer.policy, peer.role, events[i].r.payload.addr, events[i].r.payload.port)
    ensures a == Address(NormalizeTarget(events[i].r.payload.addr, events[i].r.listening.port))
  {
    hide AllowRemoteBind, NormalizeTarget, BindsAt, FreedAfter, Run;
    RegisteredIff(peer, events, a);
    i :| StillBound(peer, events, i, a);
    BindsAtAdmitted(peer, events[i], a);
  }

  /** Every forward that binds an address is followed by a cancel of it or by CloseAll. */
  ghost predicate AllFreed(peer: Peer, events: seq<Event>) {
    forall i, a :: 0 <= i < |events| && BindsAt(peer, events[i], a) ==> FreedAfter(events, i, a)
  }

  lemma AllFreedIff(peer: Peer, events: seq<Event>)
    ensures AllFreed(peer, events) <==> forall a :: !Held(peer, events, a)
  {
    hide BindsAt, FreedAfter;
    if forall a :: !Held(peer, events, a) {
      forall i: nat, a | i < |events| && BindsAt(peer, events[i], a) ensures FreedAfter(events, i, a) {
        assert !Held(peer, events, a);
        assert !StillBound(peer, events, i, a);
      }
    }
  }

  lemma ExactEmpty(s: State)
    requires Exact(s)
    ensures s.live == map[] <==> forall a :: a !in s.listeners
  {
    if forall a :: a !in s.listeners {
      assert s.live.Keys == {};
    } else {
      var a :| a in s.listeners;
      assert s.listeners[a] in s.live;
    }
  }

  /** Requests handled after CloseAll leave nothing open exactly when each forward among them that binds an
      address is followed by a cancel of that address or by another CloseAll. */
  lemma LateRequestsLeaveNothingIff(peer: Peer, events: seq<Event>, late: seq<Event>)
    requires HonestRun(peer, events) && HonestRun(peer, late)
    ensures Run(peer, events + [CloseAll] + late).live == map[] <==> AllFreed(peer, late)
  {
    LateRequestsStartAfresh(peer, events, late);
    OpenListenersAreRegistered(peer, late);
    hide Run, HonestRun, Exact, Held, AllFreed;
    ExactEmpty(Run(peer, late));
    AllFreedIff(peer, late);
    forall a ensures a in Run(peer, late).listeners <==> Held(peer, late, a) {
      RegisteredIff(peer, late, a);
    }
  }

  /** One late request: its listener stays open exactly when it binds one. */
  lemma LateForwardStaysOpen(peer: Peer, events: seq<Event>, r: Request)
    requires HonestRun(peer, events)
    ensures Run(peer, events + [CloseAll] + [Handle(r)]).live ==
            if Binds(peer, r) then map[r.listening.l := BoundAddress(peer, r)] else map[]
  {
    LateRequestsStartAfresh(peer, events, [Handle(r)]);
    assert [Handle(r)][..0] == [];
    hide NormalizeTarget, AllowRemoteBind;
  }

  /** How many requests of a run wanted a reply and were not swallowed. */
  function Owed(peer: Peer, events: seq<Event>): nat {
    if events == [] then 0
    else
      var e := events[|events| - 1];
      Owed(peer, events[..|events| - 1]) +
      if e.Handle? && e.r.wantReply && !Swallowed(peer, e.r) then 1 else 0
  }

  lemma RepliesSnoc(peer: Peer, events: seq<Event>, e: Event)
    ensures var answered := e.Handle? && e.r.wantReply && !Swallowed(peer, e.r);
            && Owed(peer, events + [e]) == Owed(peer, events) + (if answered then 1 else 0)
            && AllReplies(peer, events + [e]) ==
               AllReplies(peer, events) + if answered then [ReplyTo(peer, e.r)] else []
  {
    hide Swallowed, ReplyTo;
    assert (events + [e])[..|events|] == events;
  }

  lemma {:induction false} AllOwedAreGiven(peer: Peer, events: seq<Event>)
    ensures |AllReplies(peer, events)| == Owed(peer, events)
  {
    if events == [] {
    } else {
      var init, e := events[..|events| - 1], events[|events| - 1];
      assert events == init + [e];
      hide Owed, AllReplies, Swallowed, ReplyTo;
      AllOwedAreGiven(peer, init);
      RepliesSnoc(peer, init, e);
    }
  }

  /** Replies already given stay. */
  lemma {:induction false} RepliesExtend(peer: Peer, events: seq<Event>, k: nat)
    requires k <= |events|
    ensures AllReplies(peer, events[..k]) <= AllReplies(peer, events)
    decreases |events| - k
  {
    if k == |events| {
      assert events[..k] == events;
    } else {
      assert events[..k + 1] == events[..k] + [events[k]];
      hide AllReplies, Swallowed, ReplyTo;
      RepliesExtend(peer, events, k + 1);
      RepliesSnoc(peer, events[..k], events[k]);
    }
  }

  /** Replies come in request order, one for each request that wants one, except exactly when a listener
      was opened whose address is not TCP or whose port is out of range. */
  lemma RepliesInOrder(peer: Peer, events: seq<Event>, k: nat)
    requires k < |events|
    ensures |AllReplies(peer, events)| == Owed(peer, events)
    ensures Owed(peer, events[..k]) <= Owed(peer, events)
    ensures events[k].Handle? && events[k].r.wantReply ==>
              (Swallowed(peer, events[k].r) <==> Owed(peer, events[..k + 1]) == Owed(peer, events[..k]))
    ensures events[k].Handle? && events[k].r.wantReply && !Swallowed(peer, events[k].r) ==>
              Owed(peer, events[..k]) < Owed(peer, events) &&
              AllReplies(peer, events)[Owed(peer, events[..k])] == ReplyTo(peer, events[k].r)
  {
    assert events[..k + 1] == events[..k] + [events[k]];
    hide Swallowed, ReplyTo, Owed, AllReplies;
    AllOwedAreGiven(peer, events);
    AllOwedAreGiven(peer, events[..k]);
    RepliesSnoc(peer, events[..k], events[k]);
    RepliesExtend(peer, events, k + 1);
  }
}
