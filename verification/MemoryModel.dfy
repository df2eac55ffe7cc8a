/** The in-memory store (internal/store/memory.go) as values: what each operation does to sessions,
    tunnels and the audit log, referential integrity over runs, and the audit log's paging and cleanup.
    MemoryStore ties the objects to these functions. */
module MemoryModel {
  import opened Paging
  import opened Sequences
  import opened Words

  datatype Id = Id(text: string)
  datatype When = Never | At(t: int)

  /** A top-level metadata map, or nil. Nested JSON values are opaque text. */
  datatype Meta = NoMeta | Meta(entries: map<string, string>)

  datatype SessionFields = SessionFields(id: Id, username: string, role: string, remoteAddr: string,
                                         createdAt: int, lastActive: int, closedAt: When, status: string)
  datatype TunnelFields = TunnelFields(id: Id, sessionId: Id, kind: string, localAddr: string, remoteAddr: string,
                                       createdAt: int, closedAt: When, bytesSent: int, bytesRecv: int, status: string)
  datatype AuditFields = AuditFields(id: Id, timestamp: int, action: string, username: string, result: string,
                                     rest: string)

  /** A Go struct together with the map it points to. */
  datatype Value<F> = Value(fields: F, meta: Meta)

  type Session = Value<SessionFields>
  type Tunnel = Value<TunnelFields>
  type Audit = Value<AuditFields>

  datatype State = State(sessions: map<Id, Session>, tunnels: map<Id, Tunnel>, audit: seq<Audit>)

  const EMPTY := State(map[], map[], [])

  datatype Op =
    | CreateSession(v: Session, now: int)
    | UpdateSession(v: Session, now: int)
    | DeleteSession(id: Id)
    | TouchSession(id: Id, now: int)
    | CreateTunnel(t: Tunnel, now: int)
    | UpdateTunnel(t: Tunnel)
    | DeleteTunnel(id: Id)
    | AppendAudit(a: Audit, now: int)
    | CleanupAudit(maxAge: int, now: int)

  function Active(status: string): string {
    if status == "" then "active" else status
  }

  /** The fields CreateSession fills in on the caller's object before it stores a copy. */
  function NewSession(v: Session, now: int): Session {
    v.(fields := v.fields.(createdAt := now, lastActive := now, status := Active(v.fields.status)))
  }

  function NewTunnel(t: Tunnel, now: int): Tunnel {
    t.(fields := t.fields.(createdAt := now, status := Active(t.fields.status)))
  }

  function Touched(v: Session, now: int): Session {
    v.(fields := v.fields.(lastActive := now))
  }

  function Stamped(a: Audit, now: int): Audit {
    a.(fields := a.fields.(timestamp := now))
  }

  /** Tunnels of a session go with it. */
  function Without(tunnels: map<Id, Tunnel>, session: Id): map<Id, Tunnel> {
    map k | k in tunnels && tunnels[k].fields.sessionId != session :: tunnels[k]
  }

  /** Creating an id that exists and touching one that does not change nothing; the methods report it. */
  function Apply(s: State, op: Op): State {
    match op
    case CreateSession(v, now) =>
      if v.fields.id in s.sessions then s else s.(sessions := s.sessions[v.fields.id := NewSession(v, now)])
    case UpdateSession(v, now) =>
      if v.fields.id !in s.sessions then s else s.(sessions := s.sessions[v.fields.id := Touched(v, now)])
    case DeleteSession(id) =>
      if id !in s.sessions then s else s.(sessions := s.sessions - {id}, tunnels := Without(s.tunnels, id))
    case TouchSession(id, now) =>
      if id !in s.sessions then s else s.(sessions := s.sessions[id := Touched(s.sessions[id], now)])
    case CreateTunnel(t, now) =>
      if t.fields.id in s.tunnels then s else s.(tunnels := s.tunnels[t.fields.id := NewTunnel(t, now)])
    case UpdateTunnel(t) =>
      if t.fields.id !in s.tunnels then s else s.(tunnels := s.tunnels[t.fields.id := t])
    case DeleteTunnel(id) => s.(tunnels := s.tunnels - {id})
    case AppendAudit(a, now) => s.(audit := s.audit + [Stamped(a, now)])
    case CleanupAudit(maxAge, now) => s.(audit := Since(s.audit, now - maxAge))
  }

  function Run(ops: seq<Op>): State {
    if ops == [] then EMPTY else Apply(Run(ops[..|ops| - 1]), ops[|ops| - 1])
  }

  lemma RunSnoc(ops: seq<Op>, op: Op)
    ensures Run(ops + [op]) == Apply(Run(ops), op)
  {
    hide Apply;
    assert (ops + [op])[..|ops|] == ops;
  }

  // ---- What is stored, read off the operations ----

  datatype Slot<T> = Free | Holds(v: T)

  /** The session under `id`. Creating needs a free slot and updating or touching a taken one. Creation stamps
      both times and a missing status, an update or a touch only the last activity. */
  function SessionSlot(ops: seq<Op>, id: Id): Slot<Session> {
    if ops == [] then Free
    else
      var slot := SessionSlot(ops[..|ops| - 1], id);
      match ops[|ops| - 1]
      case CreateSession(v, now) =>
        if v.fields.id != id || slot.Holds? then slot
        else Holds(Value(v.fields.(createdAt := now, lastActive := now,
                                   status := if v.fields.status == "" then "active" else v.fields.status), v.meta))
      case UpdateSession(v, now) =>
        if v.fields.id != id || slot.Free? then slot else Holds(Value(v.fields.(lastActive := now), v.meta))
      case TouchSession(x, now) =>
        if x != id || slot.Free? then slot else Holds(Value(slot.v.fields.(lastActive := now), slot.v.meta))
      case DeleteSession(x) => if x == id then Free else slot
      case _ => slot
  }

  /** The tunnel under `id`, which goes with its session if that exists. */
  function TunnelSlot(ops: seq<Op>, id: Id): Slot<Tunnel> {
    if ops == [] then Free
    else
      var init := ops[..|ops| - 1];
      var slot := TunnelSlot(init, id);
      match ops[|ops| - 1]
      case CreateTunnel(t, now) =>
        if t.fields.id != id || slot.Holds? then slot
        else Holds(Value(t.fields.(createdAt := now,
                                   status := if t.fields.status == "" then "active" else t.fields.status), t.meta))
      case UpdateTunnel(t) => if t.fields.id != id || slot.Free? then slot else Holds(t)
      case DeleteTunnel(x) => if x == id then Free else slot
      case DeleteSession(x) =>
        if slot.Holds? && slot.v.fields.sessionId == x && SessionSlot(init, x).Holds? then Free else slot
      case _ => slot
  }

  /** After every run each session and each tunnel is what its own history says. */
  lemma {:induction false} RunIsItsSlots(ops: seq<Op>, id: Id)
    ensures var s := Run(ops);
            && SessionSlot(ops, id) == (if id in s.sessions then Holds(s.sessions[id]) else Free)
            && TunnelSlot(ops, id) == if id in s.tunnels then Holds(s.tunnels[id]) else Free
  {
    if ops == [] {
    } else {
      var init, op := ops[..|ops| - 1], ops[|ops| - 1];
      RunIsItsSlots(init, id);
      if op.DeleteSession? {
        RunIsItsSlots(init, op.id);
      }
      hide Since;
    }
  }

  /** The log after every run: what was appended, stamped with the reading of its append, less what cleanups
      found too old. */
  lemma LogSteps(ops: seq<Op>, op: Op)
    ensures var before, after := Run(ops).audit, Run(ops + [op]).audit;
            && (op.AppendAudit? ==> after == before + [Value(op.a.fields.(timestamp := op.now), op.a.meta)])
            && (op.CleanupAudit? ==>
                  forall e :: multiset(after)[e] ==
                    if e.fields.timestamp >= op.now - op.maxAge then multiset(before)[e] else 0)
            && (!op.AppendAudit? && !op.CleanupAudit? ==> after == before)
  {
    RunSnoc(ops, op);
    if op.CleanupAudit? {
      forall e: Audit {
        FilterExact(Run(ops).audit, NotBefore(op.now - op.maxAge), e);
      }
    }
    hide Run;
  }

  // ---- Referential integrity ----

  predicate NoOrphans(s: State) {
    forall k :: k in s.tunnels ==> s.tunnels[k].fields.sessionId in s.sessions
  }

  /** The tunnel an operation would write, with the session it names. */
  predicate Writes(s: State, op: Op) {
    (op.CreateTunnel? && op.t.fields.id !in s.tunnels) || (op.UpdateTunnel? && op.t.fields.id in s.tunnels)
  }

  /** One operation keeps the store free of orphans exactly when a tunnel it writes names a session that
      exists; nothing else, deleting a session included, can make one. */
  lemma KeepsNoOrphansIff(s: State, op: Op)
    requires NoOrphans(s)
    ensures NoOrphans(Apply(s, op)) <==> (Writes(s, op) ==> op.t.fields.sessionId in s.sessions)
  {
    var s' := Apply(s, op);
    if Writes(s, op) {
      assert s'.tunnels[op.t.fields.id].fields.sessionId == op.t.fields.sessionId;
    }
  }

  /** The Postgres foreign key, as a rule for callers of this store. */
  predicate ForeignKey(ops: seq<Op>) {
    ops == [] ||
    (ForeignKey(ops[..|ops| - 1]) &&
     var s, op := Run(ops[..|ops| - 1]), ops[|ops| - 1];
     (op.CreateTunnel? || op.UpdateTunnel?) ==> op.t.fields.sessionId in s.sessions)
  }

  lemma {:induction false} RunHasNoOrphans(ops: seq<Op>)
    requires ForeignKey(ops)
    ensures NoOrphans(Run(ops))
  {
    if ops == [] {
    } else {
      RunHasNoOrphans(ops[..|ops| - 1]);
      KeepsNoOrphansIff(Run(ops[..|ops| - 1]), ops[|ops| - 1]);
    }
  }

  /** Deleting a session removes exactly its tunnels and leaves every other session, tunnel and audit
      entry as it was. */
  lemma DeleteSessionExact(s: State, id: Id)
    requires id in s.sessions
    ensures var s' := Apply(s, DeleteSession(id));
            && s'.sessions == s.sessions - {id} && s'.audit == s.audit
            && (forall k :: k in s'.tunnels <==> k in s.tunnels && s.tunnels[k].fields.sessionId != id)
            && (forall k :: k in s'.tunnels ==> s'.tunnels[k] == s.tunnels[k])
  {
  }

  // ---- The audit log ----

  function NotBefore(cutoff: int): Audit -> bool {
    (a: Audit) => a.fields.timestamp >= cutoff
  }

  function Earlier(cutoff: int): Audit -> bool {
    (a: Audit) => a.fields.timestamp < cutoff
  }

  /** The entries CleanupOldAuditLogs keeps. */
  function Since(log: seq<Audit>, cutoff: int): seq<Audit> {
    Filter(log, NotBefore(cutoff))
  }

  function Before(log: seq<Audit>, cutoff: int): seq<Audit> {
    Filter(log, Earlier(cutoff))
  }

  predicate Chronological(log: seq<Audit>) {
    forall i, j :: 0 <= i < j < |log| ==> log[i].fields.timestamp <= log[j].fields.timestamp
  }

  /** Cleanup loses nothing it should keep: kept and removed entries together are the old log, and each
      side lies wholly on its side of the cutoff. */
  lemma CleanupConserves(log: seq<Audit>, cutoff: int)
    ensures multiset(Since(log, cutoff)) + multiset(Before(log, cutoff)) == multiset(log)
    ensures |Since(log, cutoff)| + |Before(log, cutoff)| == |log|
    ensures forall e :: e in Since(log, cutoff) ==> e.fields.timestamp >= cutoff
    ensures forall e :: e in Before(log, cutoff) ==> e.fields.timestamp < cutoff
  {
    var kept, gone := Since(log, cutoff), Before(log, cutoff);
    forall e: Audit ensures multiset(kept)[e] == if e.fields.timestamp >= cutoff then multiset(log)[e] else 0
             ensures multiset(gone)[e] == if e.fields.timestamp < cutoff then multiset(log)[e] else 0 {
      FilterExact(log, NotBefore(cutoff), e);
      FilterExact(log, Earlier(cutoff), e);
    }
    hide Since, Before;
    assert multiset(kept) + multiset(gone) == multiset(log);
    assert |kept| + |gone| == |multiset(kept) + multiset(gone)|;
    assert forall e :: e in kept ==> multiset(kept)[e] > 0;
    assert forall e :: e in gone ==> multiset(gone)[e] > 0;
  }

  lemma CleanupSnoc(log: seq<Audit>, k: nat, cutoff: int)
    requires k < |log|
    ensures var late := log[k].fields.timestamp >= cutoff;
            && Since(log[..k + 1], cutoff) == Since(log[..k], cutoff) + (if late then [log[k]] else [])
            && Before(log[..k + 1], cutoff) == Before(log[..k], cutoff) + if late then [] else [log[k]]
  {
    assert log[..k + 1] == log[..k] + [log[k]];
    FilterSnoc(log[..k], log[k], NotBefore(cutoff));
    FilterSnoc(log[..k], log[k], Earlier(cutoff));
  }

  /** On a chronological log cleanup removes a prefix. */
  lemma {:induction false} CleanupTakesPrefix(log: seq<Audit>, cutoff: int)
    requires Chronological(log)
    ensures log == Before(log, cutoff) + Since(log, cutoff)
  {
    if log == [] {
    } else {
      var n := |log| - 1;
      assert log[..n + 1] == log == log[..n] + [log[n]];
      if log[n].fields.timestamp < cutoff {
        FilterNone(log[..n], NotBefore(cutoff));
      }
      hide Since, Before;
      CleanupTakesPrefix(log[..n], cutoff);
      CleanupSnoc(log, n, cutoff);
    }
  }

  function LastReading(ops: seq<Op>): int {
    if ops == [] then 0
    else match ops[|ops| - 1]
      case AppendAudit(_, now) => now
      case _ => LastReading(ops[..|ops| - 1])
  }

  /** The readings that stamp audit entries never go back. */
  predicate Clocked(ops: seq<Op>) {
    ops == [] ||
    (Clocked(ops[..|ops| - 1]) &&
     (ops[|ops| - 1].AppendAudit? ==> LastReading(ops[..|ops| - 1]) <= ops[|ops| - 1].now))
  }

  /** Chronological, and nothing later than `bound`. */
  predicate Stamps(log: seq<Audit>, bound: int) {
    Chronological(log) && forall i :: 0 <= i < |log| ==> log[i].fields.timestamp <= bound
  }

  lemma SuffixKeepsStamps(gone: seq<Audit>, kept: seq<Audit>, bound: int)
    requires Stamps(gone + kept, bound)
    ensures Stamps(kept, bound)
  {
    var n := |gone|;
    forall i, j | 0 <= i < j < |kept| ensures kept[i].fields.timestamp <= kept[j].fields.timestamp {
      assert (gone + kept)[n + i].fields.timestamp <= (gone + kept)[n + j].fields.timestamp;
    }
    assert forall i :: 0 <= i < |kept| ==> kept[i] == (gone + kept)[n + i];
  }

  lemma SinceKeepsStamps(log: seq<Audit>, cutoff: int, bound: int)
    requires Stamps(log, bound)
    ensures Stamps(Since(log, cutoff), bound)
  {
    CleanupTakesPrefix(log, cutoff);
    var gone, kept := Before(log, cutoff), Since(log, cutoff);
    hide Since, Before;
    SuffixKeepsStamps(gone, kept, bound);
  }

  lemma AppendKeepsStamps(log: seq<Audit>, bound: int, a: Audit, now: int)
    requires Stamps(log, bound) && bound <= now
    ensures Stamps(log + [Stamped(a, now)], now)
  {
  }

  lemma StepKeepsStamps(s: State, op: Op, bound: int)
    requires Stamps(s.audit, bound) && (op.AppendAudit? ==> bound <= op.now)
    ensures Stamps(Apply(s, op).audit, if op.AppendAudit? then op.now else bound)
  {
    hide Since, Stamps, Stamped, Without, NewSession, NewTunnel, Touched;
    match op
    case CleanupAudit(maxAge, now) => SinceKeepsStamps(s.audit, now - maxAge, bound);
    case AppendAudit(a, now) => AppendKeepsStamps(s.audit, bound, a, now);
    case _ =>
  }

  /** In every run whose clock does not go back the log stays chronological. */
  lemma {:induction false} RunIsChronological(ops: seq<Op>)
    requires Clocked(ops)
    ensures Stamps(Run(ops).audit, LastReading(ops))
  {
    if ops == [] {
    } else {
      hide Apply, Stamps;
      RunIsChronological(ops[..|ops| - 1]);
      StepKeepsStamps(Run(ops[..|ops| - 1]), ops[|ops| - 1], LastReading(ops[..|ops| - 1]));
    }
  }

  /** So in every such run, whatever the cutoff, cleanup removes a prefix of the log. */
  lemma RunCleanupTakesPrefix(ops: seq<Op>, maxAge: int, now: int)
    requires Clocked(ops)
    ensures var log := Run(ops).audit;
            log == Before(log, now - maxAge) + Run(ops + [CleanupAudit(maxAge, now)]).audit
  {
    hide Run, Since, Before, Clocked;
    RunSnoc(ops, CleanupAudit(maxAge, now));
    RunIsChronological(ops);
    CleanupTakesPrefix(Run(ops).audit, now - maxAge);
  }

  datatype AuditFilter = AuditFilter(username: string, action: string, result: string, since: When, until: When)

  predicate MatchesFields(f: AuditFilter, a: AuditFields) {
    && (f.username != "" ==> a.username == f.username)
    && (f.action != "" ==> a.action == f.action)
    && (f.result != "" ==> a.result == f.result)
    && (f.since.At? ==> f.since.t <= a.timestamp)
    && (f.until.At? ==> a.timestamp <= f.until.t)
  }

  predicate Matches(f: AuditFilter, a: Audit) {
    MatchesFields(f, a.fields)
  }

  function Matching(f: AuditFilter): Audit -> bool {
    (a: Audit) => Matches(f, a)
  }

  function Select(log: seq<Audit>, f: AuditFilter): seq<Audit> {
    Filter(log, Matching(f))
  }

  /** QueryAuditLog on values. */
  function Query(log: seq<Audit>, f: AuditFilter, limit: int, offset: int): Page<Audit> {
    Window(Select(log, f), limit, offset)
  }

  /** Successive pages of a query on an unchanged log, put together. */
  function QueryPages(log: seq<Audit>, f: AuditFilter, limit: int, n: nat): seq<Audit> {
    if n == 0 then []
    else
      var page := Query(log, f, limit, (n - 1) * limit);
      QueryPages(log, f, limit, n - 1) + if page.Rows? then page.rows else []
  }

  lemma {:induction false} QueryPagesArePages(log: seq<Audit>, f: AuditFilter, limit: int, n: nat)
    ensures QueryPages(log, f, limit, n) == Pages(Select(log, f), limit, n)
  {
    if n == 0 {
    } else {
      QueryPagesArePages(log, f, limit, n - 1);
    }
  }

  /** Paging through the audit log shows exactly the matching entries, in the order they were appended. */
  lemma AuditPagesAreTheLog(log: seq<Audit>, f: AuditFilter, limit: int, n: nat)
    requires 0 < limit && n * limit <= MAX_INT && |Select(log, f)| <= MAX_INT && n * limit >= |Select(log, f)|
    ensures QueryPages(log, f, limit, n) == Select(log, f)
  {
    QueryPagesArePages(log, f, limit, n);
    PagesConcatenate(Select(log, f), limit, n);
  }

  /** Select is the matching part of the log: it has every matching entry as often as the log and no other. */
  lemma SelectExact(log: seq<Audit>, f: AuditFilter, a: Audit)
    ensures multiset(Select(log, f))[a] == if Matches(f, a) then multiset(log)[a] else 0
    ensures Matches(f, a) <==>
            && (f.username == "" || a.fields.username == f.username)
            && (f.action == "" || a.fields.action == f.action)
            && (f.result == "" || a.fields.result == f.result)
            && (f.since == Never || a.fields.timestamp >= f.since.t)
            && (f.until == Never || a.fields.timestamp <= f.until.t)
  {
    FilterExact(log, Matching(f), a);
  }
}
