/** The Redis store (internal/store/redis.go): its key names, and sessions and tunnels kept as records
    with a hand-maintained index set per owner (the user of a session, the session of a tunnel).
    JSON encoding is taken to be lossless; expiry is a step that may remove any record at any time. */
module RedisKeys {

  datatype Key =
    | SessionKey(id: string)
    | UserSessionsKey(user: string)
    | TunnelKey(id: string)
    | SessionTunnelsKey(id: string)
    | RateLimitKey(name: string)
    | RateLimitLockKey(name: string)

  function Name(k: Key): string {
    match k
    case SessionKey(id) => "session:" + id
    case UserSessionsKey(user) => "user:sessions:" + user
    case TunnelKey(id) => "tunnel:" + id
    case SessionTunnelsKey(id) => "session:tunnels:" + id
    case RateLimitKey(name) => "ratelimit:" + name
    case RateLimitLockKey(name) => "ratelimit:lock:" + name
  }

  /** The two ways one family's key can spell another's. */
  predicate Clash(a: Key, b: Key) {
    || (a.SessionKey? && b.SessionTunnelsKey? && a.id == "tunnels:" + b.id)
    || (a.RateLimitKey? && b.RateLimitLockKey? && a.name == "lock:" + b.name)
  }

  function Rest(k: Key): string {
    match k
    case SessionKey(id) => id
    case UserSessionsKey(user) => user
    case TunnelKey(id) => id
    case SessionTunnelsKey(id) => "tunnels:" + id
    case RateLimitKey(name) => name
    case RateLimitLockKey(name) => "lock:" + name
  }

  /** The prefix that decides the family up to those clashes. */
  function Stem(k: Key): string {
    if k.SessionKey? || k.SessionTunnelsKey? then "session:"
    else if k.UserSessionsKey? then "user:sessions:"
    else if k.TunnelKey? then "tunnel:"
    else "ratelimit:"
  }

  lemma NameSplits(k: Key)
    ensures Name(k) == Stem(k) + Rest(k)
  {
    match k
    case SessionTunnelsKey(id) => assert "session:" + ("tunnels:" + id) == "session:tunnels:" + id;
    case RateLimitLockKey(name) => assert "ratelimit:" + ("lock:" + name) == "ratelimit:lock:" + name;
    case _ =>
  }

  lemma StemsDiffer(a: Key, b: Key)
    requires Stem(a) != Stem(b)
    ensures Name(a) != Name(b)
  {
    NameSplits(a);
    NameSplits(b);
    assert Name(a)[0] == Stem(a)[0] && Name(b)[0] == Stem(b)[0];
  }

  /** The same name stands for two keys exactly when a session id starts with "tunnels:" or a rate-limit
      name starts with "lock:"; with generated ids the key families are disjoint. */
  lemma KeysCollideExactly(a: Key, b: Key)
    ensures Name(a) == Name(b) <==> a == b || Clash(a, b) || Clash(b, a)
  {
    NameSplits(a);
    NameSplits(b);
    if Stem(a) != Stem(b) {
      StemsDiffer(a, b);
    } else {
      var n := |Stem(a)|;
      assert Name(a)[n..] == Rest(a) && Name(b)[n..] == Rest(b);
      if a.SessionTunnelsKey? && b.SessionTunnelsKey? {
        assert Rest(a)[8..] == a.id && Rest(b)[8..] == b.id;
      }
      if a.RateLimitLockKey? && b.RateLimitLockKey? {
        assert Rest(a)[5..] == a.name && Rest(b)[5..] == b.name;
      }
    }
  }
}

module RedisIndex {

  datatype Id = Id(text: string)
  datatype Owner = Owner(text: string)

  datatype Record = Record(id: Id, owner: Owner, kind: string, status: string, stamp: int, data: string)

  /** One family of records and the index sets beside it. */
  datatype Table = Table(records: map<Id, Record>, index: map<Owner, set<Id>>)

  const EMPTY := Table(map[], map[])

  datatype Op =
    | Create(r: Record)        // SET record, SADD index
    | Update(r: Record)        // SET record
    | Delete(id: Id)           // DEL record, SREM from the index of the owner found in the record
    | DeleteOwned(owner: Owner) // DEL every indexed record, DEL the index
    | Expire(id: Id)           // the record's time to live runs out

  function Members(t: Table, o: Owner): set<Id> {
    if o in t.index then t.index[o] else {}
  }

  function Apply(t: Table, op: Op): Table {
    match op
    case Create(r) => Table(t.records[r.id := r], t.index[r.owner := Members(t, r.owner) + {r.id}])
    case Update(r) => t.(records := t.records[r.id := r])
    case Delete(id) =>
      if id !in t.records then t
      else
        var o := t.records[id].owner;
        Table(t.records - {id}, t.index[o := Members(t, o) - {id}])
    case DeleteOwned(o) => Table(t.records - Members(t, o), t.index - {o})
    case Expire(id) => t.(records := t.records - {id})
  }

  predicate Wanted(r: Record, kind: string, status: string) {
    (kind != "" ==> r.kind == kind) && (status != "" ==> r.status == status)
  }

  /** The live records among `ids` that match. */
  function Live(t: Table, ids: set<Id>, kind: string, status: string): set<Record> {
    set id | id in ids && id in t.records && Wanted(t.records[id], kind, status) :: t.records[id]
  }

  /** What a listing by owner finds through the index. */
  function Listed(t: Table, o: Owner, kind: string, status: string): set<Record> {
    Live(t, Members(t, o), kind, status)
  }

  lemma LiveOfNone(t: Table, kind: string, status: string)
    ensures Live(t, {}, kind, status) == {}
  {
  }

  lemma LiveStep(t: Table, ids: set<Id>, id: Id, kind: string, status: string)
    requires Keyed(t) && id !in ids
    ensures var hit := id in t.records && Wanted(t.records[id], kind, status);
            && Live(t, ids + {id}, kind, status) == Live(t, ids, kind, status) + (if hit then {t.records[id]} else {})
            && (hit ==> t.records[id] !in Live(t, ids, kind, status))
  {
    hide Wanted;
  }

  /** `all` lists the live matching records among `ids`, each once. */
  ghost predicate Collected(t: Table, ids: set<Id>, kind: string, status: string, all: seq<Record>) {
    multiset(all) == multiset(Live(t, ids, kind, status))
  }

  lemma CollectedNone(t: Table, kind: string, status: string)
    ensures Collected(t, {}, kind, status, [])
  {
    hide Live;
    LiveOfNone(t, kind, status);
  }

  lemma CollectedMeans(t: Table, ids: set<Id>, kind: string, status: string, all: seq<Record>, r: Record)
    requires Collected(t, ids, kind, status, all)
    ensures multiset(all)[r] == if r in Live(t, ids, kind, status) then 1 else 0
  {
    hide Live;
  }

  lemma CollectedMore(t: Table, ids: set<Id>, id: Id, kind: string, status: string, all: seq<Record>)
    requires Keyed(t) && id !in ids && Collected(t, ids, kind, status, all)
    ensures Collected(t, ids + {id}, kind, status,
                      if id in t.records && Wanted(t.records[id], kind, status) then all + [t.records[id]] else all)
  {
    hide Live, Wanted, Keyed;
    LiveStep(t, ids, id, kind, status);
  }

  /** What a scan over all records finds. */
  function Scanned(t: Table, o: Owner, kind: string, status: string): set<Record> {
    set id | id in t.records && t.records[id].owner == o && Wanted(t.records[id], kind, status) :: t.records[id]
  }

  predicate Keyed(t: Table) {
    forall id :: id in t.records ==> t.records[id].id == id
  }

  /** What a listing finds, spelled out: the live records the index names, of the kind and status asked for. */
  lemma LiveExactly(t: Table, ids: set<Id>, kind: string, status: string, r: Record)
    requires Keyed(t)
    ensures r in Live(t, ids, kind, status) <==>
            && r.id in ids && r.id in t.records && t.records[r.id] == r
            && (kind == "" || r.kind == kind) && (status == "" || r.status == status)
  {
  }

  /** What a scan finds, spelled out: the live records of the owner, of the kind and status asked for. */
  lemma ScannedExactly(t: Table, o: Owner, kind: string, status: string, r: Record)
    requires Keyed(t)
    ensures r in Scanned(t, o, kind, status) <==>
            && r.id in t.records && t.records[r.id] == r && r.owner == o
            && (kind == "" || r.kind == kind) && (status == "" || r.status == status)
  {
  }

  /** Every live record is indexed under its owner and nowhere else. */
  ghost predicate Agrees(t: Table) {
    Keyed(t) && forall id, o :: id in t.records ==> (id in Members(t, o) <==> t.records[id].owner == o)
  }

  /** Counting listed active records is counting their ids. */
  lemma ActiveCount(t: Table, user: Owner)
    requires Keyed(t)
    ensures var ids := set id | id in Members(t, user) && id in t.records && t.records[id].status == "active";
            |Listed(t, user, "", "active")| == |ids|
    ensures Agrees(t) ==>
              (set id | id in Members(t, user) && id in t.records && t.records[id].status == "active")
              == set id | id in t.records && t.records[id].owner == user && t.records[id].status == "active"
  {
    var ids := set id | id in Members(t, user) && id in t.records && t.records[id].status == "active";
    var rows := Listed(t, user, "", "active");
    forall r ensures r in rows <==> r.id in ids && t.records[r.id] == r {
      LiveExactly(t, Members(t, user), "", "active", r);
    }
    hide Listed, Live, Members;
    SameSize(t, ids, rows);
  }

  lemma {:induction false} SameSize(t: Table, ids: set<Id>, rows: set<Record>)
    requires Keyed(t) && ids <= t.records.Keys
    requires forall r :: r in rows <==> r.id in ids && t.records[r.id] == r
    ensures |rows| == |ids|
    decreases |ids|
  {
    if ids == {} {
      assert rows == {};
    } else {
      var id :| id in ids;
      assert t.records[id] in rows;
      SameSize(t, ids - {id}, rows - {t.records[id]});
    }
  }

  /** Agreement is exactly what makes index and scan interchangeable, for every owner and filter. */
  lemma AgreementMeansScan(t: Table)
    requires Keyed(t)
    ensures Agrees(t) <==> forall o, kind, status :: Listed(t, o, kind, status) == Scanned(t, o, kind, status)
  {
    if Agrees(t) {
      forall o, kind, status ensures Listed(t, o, kind, status) == Scanned(t, o, kind, status) {
        ListedIsScanned(t, o, kind, status);
      }
    }
    if forall o, kind, status :: Listed(t, o, kind, status) == Scanned(t, o, kind, status) {
      forall id, o | id in t.records ensures id in Members(t, o) <==> t.records[id].owner == o {
        assert Listed(t, o, "", "") == Scanned(t, o, "", "");
        var r := t.records[id];
        assert r in Listed(t, o, "", "") <==> id in Members(t, o);
        assert r in Scanned(t, o, "", "") <==> r.owner == o;
      }
    }
  }

  lemma ListedIsScanned(t: Table, o: Owner, kind: string, status: string)
    requires Agrees(t)
    ensures Listed(t, o, kind, status) == Scanned(t, o, kind, status)
  {
    hide Wanted, Members;
  }

  // ---- Which single operations keep the agreement ----

  /** Creating keeps it exactly when no other owner's index still names the id. */
  lemma CreateAgreesIff(t: Table, r: Record)
    requires Agrees(t)
    ensures Agrees(Apply(t, Create(r))) <==> forall o :: o != r.owner ==> r.id !in Members(t, o)
  {
    var t' := Apply(t, Create(r));
    forall o ensures Members(t', o) == if o == r.owner then Members(t, o) + {r.id} else Members(t, o) {}
    assert r.id in t'.records && t'.records[r.id] == r;
    hide Members;
  }

  /** Updating keeps it exactly when the id is already indexed under the record's owner only: not a
      deleted or unknown id, and no change of owner. */
  lemma UpdateAgreesIff(t: Table, r: Record)
    requires Agrees(t)
    ensures Agrees(Apply(t, Update(r))) <==> forall o :: r.id in Members(t, o) <==> o == r.owner
  {
    var t' := Apply(t, Update(r));
    forall o ensures Members(t', o) == Members(t, o) {}
    assert r.id in t'.records && t'.records[r.id] == r;
    hide Members;
  }

  /** It is lost at once by updating an id that was never created: the record is live, and no listing
      finds it. */
  lemma UnknownUpdateIsUnlisted(r: Record)
    ensures Agrees(Run([]).0) && !Agrees(Run([Update(r)]).0)
    ensures Scanned(Run([Update(r)]).0, r.owner, "", "") == {r} && Listed(Run([Update(r)]).0, r.owner, "", "") == {}
  {
    assert [Update(r)][..0] == [];
    assert Run([]) == (EMPTY, NO_PAST);
    var t := Run([Update(r)]).0;
    assert t == Apply(EMPTY, Update(r)) && t.records[r.id] == r;
    hide Run;
    UpdateAgreesIff(EMPTY, r);
    assert r.id !in Members(EMPTY, r.owner);
    assert Scanned(t, r.owner, "", "") == {r};
  }

  /** Deletion and expiry always keep it. */
  lemma RemovalAgrees(t: Table, op: Op)
    requires Agrees(t) && (op.Delete? || op.DeleteOwned? || op.Expire?)
    ensures Agrees(Apply(t, op))
  {
    var t' := Apply(t, op);
    forall id, o | id in t'.records ensures id in Members(t', o) <==> t'.records[id].owner == o {
      assert id in Members(t, o) <==> t.records[id].owner == o;
    }
  }

  // ---- Whole runs ----

  /** What the callers did: the owner of every id created and not deleted since, and all ids ever used. */
  datatype Past = Past(owners: map<Id, Owner>, used: set<Id>)

  const NO_PAST := Past(map[], {})

  /** Ids are fresh; updates keep the owner and touch only ids created and not deleted, though the
      record itself may have expired in the meantime. */
  predicate Admissible(p: Past, op: Op) {
    match op
    case Create(r) => r.id !in p.used
    case Update(r) => r.id in p.owners && p.owners[r.id] == r.owner
    case _ => true
  }

  function Remember(p: Past, t: Table, op: Op): Past {
    match op
    case Create(r) => Past(p.owners[r.id := r.owner], p.used + {r.id})
    case Delete(id) => if id in t.records then p.(owners := p.owners - {id}) else p
    case DeleteOwned(o) => p.(owners := p.owners - Members(t, o))
    case _ => p
  }

  function Run(ops: seq<Op>): (Table, Past) {
    if ops == [] then (EMPTY, NO_PAST)
    else
      var (t, p) := Run(ops[..|ops| - 1]);
      (Apply(t, ops[|ops| - 1]), Remember(p, t, ops[|ops| - 1]))
  }

  predicate AdmissibleRun(ops: seq<Op>) {
    ops == [] || (AdmissibleRun(ops[..|ops| - 1]) && Admissible(Run(ops[..|ops| - 1]).1, ops[|ops| - 1]))
  }

  /** Index sets name exactly the ids in `owners`, each under its owner, and only those have records. */
  ghost predicate Faithful(t: Table, p: Past) {
    && p.owners.Keys <= p.used && t.records.Keys <= p.owners.Keys && Keyed(t)
    && (forall id :: id in t.records ==> t.records[id].owner == p.owners[id])
    && (forall id, o :: id in Members(t, o) <==> id in p.owners && p.owners[id] == o)
  }

  lemma CreateFaithful(t: Table, p: Past, r: Record)
    requires Faithful(t, p) && r.id !in p.used
    ensures Faithful(Apply(t, Create(r)), Remember(p, t, Create(r)))
  {
    var t' := Apply(t, Create(r));
    forall o ensures Members(t', o) == if o == r.owner then Members(t, o) + {r.id} else Members(t, o) {}
    hide Members;
  }

  lemma DeleteFaithful(t: Table, p: Past, id: Id)
    requires Faithful(t, p) && id in t.records
    ensures Faithful(Apply(t, Delete(id)), Remember(p, t, Delete(id)))
  {
    var t', owner := Apply(t, Delete(id)), t.records[id].owner;
    forall o ensures Members(t', o) == if o == owner then Members(t, o) - {id} else Members(t, o) {}
    hide Members;
  }

  lemma DeleteOwnedFaithful(t: Table, p: Past, owner: Owner)
    requires Faithful(t, p)
    ensures Faithful(Apply(t, DeleteOwned(owner)), Remember(p, t, DeleteOwned(owner)))
  {
    var t', p' := Apply(t, DeleteOwned(owner)), Remember(p, t, DeleteOwned(owner));
    forall o ensures Members(t', o) == if o == owner then {} else Members(t, o) {}
    var gone := Members(t, owner);
    hide Members;
    forall id, o ensures id in Members(t', o) <==> id in p'.owners && p'.owners[id] == o {
      assert id in gone <==> id in p.owners && p.owners[id] == owner;
      assert id in Members(t, o) <==> id in p.owners && p.owners[id] == o;
    }
  }

  lemma RecordFaithful(t: Table, p: Past, op: Op)
    requires Faithful(t, p) && Admissible(p, op) && (op.Update? || op.Expire?)
    ensures Faithful(Apply(t, op), Remember(p, t, op))
  {
    var t' := Apply(t, op);
    forall o ensures Members(t', o) == Members(t, o) {}
    hide Members;
  }

  lemma StepFaithful(t: Table, p: Past, op: Op)
    requires Faithful(t, p) && Admissible(p, op)
    ensures Faithful(Apply(t, op), Remember(p, t, op))
  {
    match op
    case Create(r) => CreateFaithful(t, p, r);
    case Delete(id) => if id in t.records { DeleteFaithful(t, p, id); }
    case DeleteOwned(owner) => DeleteOwnedFaithful(t, p, owner);
    case _ => RecordFaithful(t, p, op);
  }

  /** After every admissible run, with records expiring whenever they like, listing through the index
      finds exactly what a full scan finds. */
  lemma {:induction false} RunListsExactly(ops: seq<Op>, o: Owner, kind: string, status: string)
    requires AdmissibleRun(ops)
    ensures Faithful(Run(ops).0, Run(ops).1) && Agrees(Run(ops).0)
    ensures Listed(Run(ops).0, o, kind, status) == Scanned(Run(ops).0, o, kind, status)
  {
    if ops == [] {
    } else {
      var (t, p) := Run(ops[..|ops| - 1]);
      RunListsExactly(ops[..|ops| - 1], o, kind, status);
      StepFaithful(t, p, ops[|ops| - 1]);
    }
    assert Agrees(Run(ops).0) by {
      hide Run, Members;
    }
    ListedIsScanned(Run(ops).0, o, kind, status);
  }

  // ---- The store is a plain map of records ----

  datatype Slot = Free | Holds(r: Record)

  /** The reference: what is stored under `id`, read off the operations without any index. */
  function Current(ops: seq<Op>, id: Id): Slot {
    if ops == [] then Free
    else
      var slot := Current(ops[..|ops| - 1], id);
      match ops[|ops| - 1]
      case Create(r) => if r.id == id then Holds(r) else slot
      case Update(r) => if r.id == id then Holds(r) else slot
      case Delete(x) => if x == id then Free else slot
      case Expire(x) => if x == id then Free else slot
      case DeleteOwned(o) => if slot.Holds? && slot.r.owner == o then Free else slot
  }

  ghost predicate HoldsSlot(t: Table, id: Id, slot: Slot) {
    slot == if id in t.records then Holds(t.records[id]) else Free
  }

  lemma StepHolds(t: Table, p: Past, op: Op, id: Id, slot: Slot)
    requires Faithful(t, p) && HoldsSlot(t, id, slot)
    ensures HoldsSlot(Apply(t, op), id,
              match op
              case Create(r) => if r.id == id then Holds(r) else slot
              case Update(r) => if r.id == id then Holds(r) else slot
              case Delete(x) => if x == id then Free else slot
              case Expire(x) => if x == id then Free else slot
              case DeleteOwned(o) => if slot.Holds? && slot.r.owner == o then Free else slot)
  {
    hide Keyed;
    if op.DeleteOwned? && slot.Holds? {
      assert id in Members(t, op.owner) <==> id in p.owners && p.owners[id] == op.owner;
    }
    hide Members;
  }

  /** After every admissible run the records are exactly those of a plain map that has seen the same
      operations and expiries: indexes lose and invent nothing. */
  lemma {:induction false} RunHolds(ops: seq<Op>, id: Id)
    requires AdmissibleRun(ops)
    ensures Current(ops, id) == if id in Run(ops).0.records then Holds(Run(ops).0.records[id]) else Free
  {
    if ops == [] {
    } else {
      var init, op := ops[..|ops| - 1], ops[|ops| - 1];
      RunHolds(init, id);
      RunListsExactly(init, Owner(""), "", "");
      hide Apply, Faithful, Agrees, Listed, Scanned;
      StepHolds(Run(init).0, Run(init).1, op, id, Current(init, id));
    }
  }

  /** So a listing by owner shows exactly the current records of that owner that match. */
  lemma RunListsCurrent(ops: seq<Op>, o: Owner, kind: string, status: string, r: Record)
    requires AdmissibleRun(ops)
    ensures r in Listed(Run(ops).0, o, kind, status) <==>
            && Current(ops, r.id) == Holds(r) && r.owner == o
            && (kind == "" || r.kind == kind) && (status == "" || r.status == status)
  {
    RunListsExactly(ops, o, kind, status);
    RunHolds(ops, r.id);
    hide Run, Current, Listed, Scanned, AdmissibleRun;
    ScannedExactly(Run(ops).0, o, kind, status, r);
  }
}

module RedisStore {
  import opened RedisIndex
  import opened Paging

  datatype Found = NotFound | Found(r: Record)

  /** One family of keys on the server and the Redis commands the store issues on it. */
  class Family {
    var records: map<Id, Record>
    var index: map<Owner, set<Id>>

    ghost function Value(): Table
      reads this
    {
      Table(records, index)
    }

    ghost predicate Valid()
      reads this
    {
      Keyed(Value())
    }

    constructor ()
      ensures Valid() && Value() == EMPTY
    {
      records, index := map[], map[];
    }

    method Get(id: Id) returns (f: Found)
      ensures f.Found? <==> id in records
      ensures f.Found? ==> f.r == records[id]
    {
      f := if id in records then Found(records[id]) else NotFound;
    }

    method Set(r: Record)
      modifies this`records
      ensures records == old(records)[r.id := r]
    {
      records := records[r.id := r];
    }

    method Del(id: Id)
      modifies this`records
      ensures records == old(records) - {id}
    {
      records := records - {id};
    }

    method SMembers(o: Owner) returns (ids: set<Id>)
      ensures ids == Members(Value(), o)
    {
      ids := if o in index then index[o] else {};
    }

    method SAdd(o: Owner, id: Id)
      modifies this`index
      ensures index == old(index)[o := Members(old(Value()), o) + {id}]
    {
      var ids := SMembers(o);
      index := index[o := ids + {id}];
    }

    method SRem(o: Owner, id: Id)
      modifies this`index
      ensures index == old(index)[o := Members(old(Value()), o) - {id}]
    {
      var ids := SMembers(o);
      index := index[o := ids - {id}];
    }

    method DelIndex(o: Owner)
      modifies this`index
      ensures index == old(index) - {o}
    {
      index := index - {o};
    }

    // ---- What the store's methods make of them ----

    method Add(r: Record)
      requires Valid()
      modifies this
      ensures Valid() && Value() == Apply(old(Value()), Create(r))
    {
      Set(r);
      SAdd(r.owner, r.id);
    }

    method Remove(id: Id) returns (ok: bool)
      requires Valid()
      modifies this
      ensures Valid() && Value() == Apply(old(Value()), Delete(id))
      ensures ok <==> id in old(records)
    {
      var f := Get(id);
      ok := f.Found?;
      if ok {
        Del(id);
        SRem(f.r.owner, id);
      }
    }

    method RemoveOwned(o: Owner) returns (ids: set<Id>)
      requires Valid()
      modifies this
      ensures Valid() && Value() == Apply(old(Value()), DeleteOwned(o))
      ensures ids == Members(old(Value()), o)
    {
      ids := SMembers(o);
      var left := ids;
      while left != {}
        invariant left <= ids && index == old(index) && records == old(records) - (ids - left)
        decreases |left|
      {
        var id :| id in left;
        Del(id);
        left := left - {id};
      }
      assert ids - {} == ids;
      DelIndex(o);
    }

    /** Any operation, or the expiry of a record. */
    method Perform(op: Op)
      requires Valid()
      modifies this
      ensures Valid() && Value() == Apply(old(Value()), op)
    {
      match op {
        case Create(r) => Add(r);
        case Update(r) => Set(r);
        case Delete(id) => var _ := Remove(id);
        case DeleteOwned(o) => var _ := RemoveOwned(o);
        case Expire(id) => Del(id);
      }
    }
  }

  class Store {
    const sessions: Family
    const tunnels: Family

    ghost predicate Valid()
      reads sessions, tunnels
    {
      sessions != tunnels && sessions.Valid() && tunnels.Valid()
    }

    constructor ()
      ensures Valid() && fresh(sessions) && fresh(tunnels)
      ensures sessions.Value() == EMPTY && tunnels.Value() == EMPTY
    {
      sessions := new Family();
      tunnels := new Family();
    }

    method CreateSession(sess: Record, uuid: Id, now: int) returns (stored: Record)
      requires Valid()
      modifies sessions
      ensures Valid()
      ensures stored == sess.(id := if sess.id.text == "" then uuid else sess.id,
                              status := if sess.status == "" then "active" else sess.status, stamp := now)
      ensures sessions.Value() == Apply(old(sessions.Value()), Create(stored))
      ensures sessions.records == old(sessions.records)[stored.id := stored]
      ensures stored.id in Members(sessions.Value(), stored.owner)
    {
      stored := sess.(stamp := now);
      if sess.id.text == "" {
        stored := stored.(id := uuid);
      }
      if sess.status == "" {
        stored := stored.(status := "active");
      }
      sessions.Add(stored);
    }

    /** No existence check: an unknown id gets a record that no index names. */
    method UpdateSession(sess: Record, now: int)
      requires Valid()
      modifies sessions
      ensures Valid()
      ensures sessions.Value() == Apply(old(sessions.Value()), Update(sess.(stamp := now)))
      ensures sessions.records == old(sessions.records)[sess.id := sess.(stamp := now)]
      ensures forall o :: Members(sessions.Value(), o) == old(Members(sessions.Value(), o))
    {
      sessions.Set(sess.(stamp := now));
    }

    /** Tunnels of the session stay. */
    method DeleteSession(id: Id) returns (ok: bool)
      requires Valid()
      modifies sessions
      ensures Valid()
      ensures ok <==> id in old(sessions.records)
      ensures sessions.Value() == Apply(old(sessions.Value()), Delete(id))
      ensures sessions.records == old(sessions.records) - {id}
      ensures ok ==> id !in Members(sessions.Value(), old(sessions.records)[id].owner)
    {
      ok := sessions.Remove(id);
    }

    method TouchSession(id: Id, now: int) returns (ok: bool)
      requires Valid()
      modifies sessions
      ensures Valid()
      ensures ok <==> id in old(sessions.records)
      ensures sessions.Value() ==
              if ok then Apply(old(sessions.Value()), Update(old(sessions.records)[id].(stamp := now)))
              else old(sessions.Value())
      ensures ok ==> sessions.records == old(sessions.records)[id := old(sessions.records)[id].(stamp := now)]
    {
      var f := sessions.Get(id);
      ok := f.Found?;
      if ok {
        UpdateSession(f.r, now);
      }
    }

    /** The loop over SMembers, in whatever order they come, skipping what has expired or does not match. */
    method Walk(family: Family, members: set<Id>, kind: string, status: string) returns (all: seq<Record>)
      requires family.Valid()
      ensures Collected(family.Value(), members, kind, status, all)
      ensures forall r :: r in all <==>
                && r.id in members && r.id in family.records && family.records[r.id] == r
                && (kind == "" || r.kind == kind) && (status == "" || r.status == status)
    {
      ghost var t := family.Value();
      CollectedNone(t, kind, status);
      hide Wanted, Collected, Keyed, Live;
      all := [];
      var ids, done := members, {};
      while ids != {}
        invariant ids !! done && ids + done == members && Collected(t, done, kind, status, all)
        decreases |ids|
      {
        var id :| id in ids;
        CollectedMore(t, done, id, kind, status, all);
        ids, done := ids - {id}, done + {id};
        var f := family.Get(id);
        if f.Found? && Wanted(f.r, kind, status) {
          all := all + [f.r];
        }
      }
      assert done == members;
      forall r ensures r in all <==> r in Live(t, members, kind, status) {
        assert r in all <==> multiset(all)[r] > 0;
        CollectedMeans(t, members, kind, status, all, r);
      }
      forall r {
        LiveExactly(t, members, kind, status, r);
      }
    }

    /** ListSessions and ListTunnels: walk the index set and cut out the window. Without an owner the
        listing goes to an in-process store that nothing ever fills. */
    method List(family: Family, o: Owner, kind: string, status: string, limit: int, offset: int)
        returns (page: Page<Record>, all: seq<Record>)
      requires family.Valid()
      ensures page == Window(all, limit, offset)
      ensures o.text == "" ==> all == []
      ensures o.text != "" ==> multiset(all) == multiset(Listed(family.Value(), o, kind, status))
      ensures o.text != "" ==> forall r :: r in all <==>
                && r.id in Members(family.Value(), o) && r.id in family.records && family.records[r.id] == r
                && (kind == "" || r.kind == kind) && (status == "" || r.status == status)
    {
      all := [];
      if o.text != "" {
        var members := family.SMembers(o);
        all := Walk(family, members, kind, status);
      }
      page := Window(all, limit, offset);
    }

    /** The count is that of the user's indexed active sessions, and under the agreement that admissible runs
        keep that of all active sessions of the user. */
    method CountActiveSessions(user: Owner) returns (n: nat)
      requires Valid()
      ensures user.text == "" ==> n == 0
      ensures user.text != "" ==>
                n == |set id | id in Members(sessions.Value(), user) && id in sessions.records
                               && sessions.records[id].status == "active"|
      ensures Agrees(sessions.Value()) && user.text != "" ==>
                n == |set id | id in sessions.records && sessions.records[id].owner == user
                               && sessions.records[id].status == "active"|
    {
      var page, all := List(sessions, user, "", "active", 0, 0);
      n := |page.rows|;
      ghost var t := sessions.Value();
      if user.text != "" {
        assert |all| == |multiset(all)| == |Listed(t, user, "", "active")|;
        hide Listed, Window;
        ActiveCount(t, user);
      }
    }

    method DeleteTunnelsBySession(session: Owner) returns (ids: set<Id>)
      requires Valid()
      modifies tunnels
      ensures Valid()
      ensures ids == Members(old(tunnels.Value()), session)
      ensures tunnels.Value() == Apply(old(tunnels.Value()), DeleteOwned(session))
      ensures tunnels.records == old(tunnels.records) - ids && Members(tunnels.Value(), session) == {}
    {
      ids := tunnels.RemoveOwned(session);
    }
  }

  /** The objects in any run: one operation or expiry after another, and then a listing by owner, which
      finds each live matching record exactly once if the run was admissible. */
  method ListAfter(ops: seq<Op>, o: Owner, kind: string, status: string) returns (store: Store, all: seq<Record>)
    requires o.text != ""
    ensures fresh(store) && fresh(store.sessions) && store.Valid() && store.sessions.Value() == Run(ops).0
    ensures AdmissibleRun(ops) ==> multiset(all) == multiset(Scanned(Run(ops).0, o, kind, status))
    ensures AdmissibleRun(ops) ==> forall r :: r in all <==>
              && Current(ops, r.id) == Holds(r) && r.owner == o
              && (kind == "" || r.kind == kind) && (status == "" || r.status == status)
  {
    store := new Store();
    assert ops[..0] == [];
    hide Apply, Keyed;
    for i := 0 to |ops|
      invariant fresh(store) && fresh(store.sessions) && store.Valid()
      invariant store.sessions.Value() == Run(ops[..i]).0
    {
      assert ops[..i + 1][..i] == ops[..i];
      store.sessions.Perform(ops[i]);
    }
    assert ops[..|ops|] == ops;
    hide Run;
    var _, found := store.List(store.sessions, o, kind, status, 0, 0);
    all := found;
    if AdmissibleRun(ops) {
      RunListsExactly(ops, o, kind, status);
      forall r ensures r in all <==>
                 && Current(ops, r.id) == Holds(r) && r.owner == o
                 && (kind == "" || r.kind == kind) && (status == "" || r.status == status) {
        assert r in all <==> multiset(all)[r] > 0;
        RunListsCurrent(ops, o, kind, status, r);
      }
    }
  }
}
