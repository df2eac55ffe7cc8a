/** The in-memory store's objects (internal/store/memory.go). The store keeps copies and hands out
    copies, so no object or metadata map of its own is ever in a caller's hands. A Go struct is an object
    holding its plain fields as one value and a reference to its metadata map. */
module MemoryStore {
  import opened MemoryModel
  import opened Paging
  import opened Sequences

  class JsonMap {
    var entries: map<string, string>

    constructor (entries: map<string, string>)
      ensures this.entries == entries
    {
      this.entries := entries;
    }
  }

  class Obj<F> {
    var fields: F
    var meta: JsonMap?
    ghost const home: Id  // the key it is stored under, for the store's own objects

    constructor (fields: F, meta: JsonMap?, ghost home: Id)
      ensures this.fields == fields && this.meta == meta && this.home == home
    {
      this.fields, this.meta, this.home := fields, meta, home;
    }

    ghost function Value(): Value<F>
      reads this, meta
    {
      MemoryModel.Value(fields, if meta == null then NoMeta else Meta(meta.entries))
    }

    /** The object and its metadata map lie outside `s`. */
    ghost predicate Outside(s: set<object>)
      reads this
    {
      this !in s && (meta != null ==> meta !in s)
    }
  }

  /** cloneJSONMap: a new map with the same top-level entries. */
  method CloneJsonMap(m: JsonMap?) returns (c: JsonMap?)
    ensures c == null <==> m == null
    ensures c != null ==> fresh(c) && c.entries == m.entries
  {
    if m == null {
      return null;
    }
    var left, entries := m.entries.Keys, map[];
    while left != {}
      invariant left <= m.entries.Keys
      invariant entries == map k | k in m.entries && k !in left :: m.entries[k]
      decreases |left|
    {
      var k :| k in left;
      entries := entries[k := m.entries[k]];
      left := left - {k};
    }
    c := new JsonMap(entries);
  }

  /** cloneSession, cloneTunnel and cloneAuditEntry. */
  method Clone<F>(o: Obj<F>, ghost home: Id) returns (c: Obj<F>)
    ensures fresh(c) && (c.meta != null ==> fresh(c.meta))
    ensures c.home == home && c.Value() == o.Value()
  {
    var meta := CloneJsonMap(o.meta);
    c := new Obj(o.fields, meta, home);
  }

  /** One of the store's maps from ids to objects, with the values it stands for. */
  class Shelf<F> {
    var table: map<Id, Obj<F>>
    ghost var values: map<Id, Value<F>>
    ghost var Repr: set<object>

    ghost predicate Valid()
      reads this, Repr
    {
      && this in Repr && table.Keys == values.Keys
      && forall id :: id in table ==>
           && table[id] in Repr && (table[id].meta != null ==> table[id].meta in Repr)
           && table[id].home == id && table[id].Value() == values[id]
    }

    constructor ()
      ensures Valid() && fresh(Repr) && values == map[]
    {
      table, values := map[], map[];
      Repr := {this};
    }

    method Has(id: Id) returns (found: bool)
      requires Valid()
      ensures found <==> id in values
      ensures found ==> id in table
    {
      found := id in table;
    }

    method Ids() returns (ids: set<Id>)
      requires Valid()
      ensures ids == values.Keys
    {
      ids := table.Keys;
    }

    method FieldsOf(id: Id) returns (fields: F)
      requires Valid() && id in values
      ensures fields == values[id].fields
    {
      fields := table[id].fields;
    }

    /** Stores a copy. */
    method Put(id: Id, o: Obj<F>)
      requires Valid()
      modifies this
      ensures Valid() && fresh(Repr - old(Repr)) && values == old(values)[id := o.Value()]
    {
      var c := Clone(o, id);
      table := table[id := c];
      values := values[id := c.Value()];
      Repr := Repr + {c};
      if c.meta != null {
        Repr := Repr + {c.meta};
      }
    }

    /** Hands out a copy. */
    method Get(id: Id) returns (c: Obj<F>)
      requires Valid() && id in table
      ensures fresh(c) && (c.meta != null ==> fresh(c.meta)) && c.Value() == values[id]
    {
      c := Clone(table[id], id);
    }

    method Remove(id: Id)
      requires Valid()
      modifies this
      ensures Valid() && Repr == old(Repr) && values == old(values) - {id}
    {
      table, values := table - {id}, values - {id};
    }

    /** Updates the stored object itself, in place. */
    method SetFields(id: Id, fields: F)
      requires Valid() && id in table
      modifies this, table[id]
      ensures Valid() && Repr == old(Repr)
      ensures values == old(values)[id := old(values)[id].(fields := fields)]
    {
      table[id].fields := fields;
      values := values[id := values[id].(fields := fields)];
    }
  }

  /** `objs` lie in `region` with their metadata maps and stand for `vals`. */
  ghost predicate Stand<F>(objs: seq<Obj<F>>, region: set<object>, vals: seq<Value<F>>)
    reads region
  {
    |objs| == |vals| && forall i :: 0 <= i < |objs| ==> StandsFor(objs[i], region, vals[i])
  }

  ghost predicate StandsFor<F>(o: Obj<F>, region: set<object>, v: Value<F>)
    reads region
  {
    o in region && (o.meta != null ==> o.meta in region) && o.Value() == v
  }

  lemma StandSnoc<F>(objs: seq<Obj<F>>, region: set<object>, vals: seq<Value<F>>, o: Obj<F>, v: Value<F>)
    requires Stand(objs, region, vals) && StandsFor(o, region, v)
    ensures Stand(objs + [o], region, vals + [v])
  {
    hide StandsFor;
  }

  lemma StandGrows<F>(objs: seq<Obj<F>>, region: set<object>, vals: seq<Value<F>>, larger: set<object>)
    requires Stand(objs, region, vals) && region <= larger
    ensures Stand(objs, larger, vals)
  {
    forall i | 0 <= i < |objs| ensures StandsFor(objs[i], larger, vals[i]) {
      assert StandsFor(objs[i], region, vals[i]);
    }
  }

  lemma WindowStands<F>(objs: seq<Obj<F>>, region: set<object>, vals: seq<Value<F>>, limit: int, offset: int)
    requires Stand(objs, region, vals)
    ensures Window(objs, limit, offset).Panics? <==> Window(vals, limit, offset).Panics?
    ensures Window(objs, limit, offset).Rows? ==>
              Stand(Window(objs, limit, offset).rows, region, Window(vals, limit, offset).rows)
  {
    hide StandsFor;
  }

  /** The audit log: append-only copies, dropped from by age. */
  class Log {
    var entries: seq<Obj<AuditFields>>
    ghost var values: seq<Audit>
    ghost var Repr: set<object>

    ghost predicate Valid()
      reads this, Repr
    {
      this in Repr && Stand(entries, Repr - {this}, values)
    }

    constructor ()
      ensures Valid() && fresh(Repr) && values == []
    {
      entries, values := [], [];
      Repr := {this};
    }

    method Append(o: Obj<AuditFields>)
      requires Valid()
      modifies this
      ensures Valid() && fresh(Repr - old(Repr)) && values == old(values) + [o.Value()]
    {
      hide Stand;
      var c := Clone(o, o.fields.id);
      ghost var larger := Repr - {this} + {c} + if c.meta == null then {} else {c.meta};
      StandGrows(entries, Repr - {this}, values, larger);
      StandSnoc(entries, larger, values, c, c.Value());
      entries := entries + [c];
      values := values + [c.Value()];
      Repr := larger + {this};
      assert Repr - {this} == larger;
    }

    /** Copies of the matching entries, in order. */
    method SelectCopies(f: AuditFilter) returns (found: seq<Obj<AuditFields>>, ghost made: set<object>)
      requires Valid()
      ensures fresh(made) && Stand(found, made, Select(values, f))
    {
      found, made := [], {};
      assert values[..0] == [];
      for k := 0 to |entries|
        invariant fresh(made) && Stand(found, made, Select(values[..k], f))
      {
        var entry := entries[k];
        assert StandsFor(entry, Repr - {this}, values[k]);
        assert values[..k + 1] == values[..k] + [values[k]];
        FilterSnoc(values[..k], values[k], Matching(f));
        if MatchesFields(f, entry.fields) {
          hide Stand;
          var c := Clone(entry, entry.fields.id);
          ghost var larger := made + {c} + if c.meta == null then {} else {c.meta};
          StandGrows(found, made, Select(values[..k], f), larger);
          StandSnoc(found, larger, Select(values[..k], f), c, values[k]);
          found, made := found + [c], larger;
        }
      }
      assert values[..|entries|] == values;
    }

    /** QueryAuditLog: the window of the selection, or the panic the value model predicts. */
    method Query(f: AuditFilter, limit: int, offset: int)
        returns (page: Page<Obj<AuditFields>>, ghost made: set<object>)
      requires Valid()
      ensures fresh(made)
      ensures page.Panics? <==> MemoryModel.Query(values, f, limit, offset).Panics?
      ensures page.Rows? ==> Stand(page.rows, made, MemoryModel.Query(values, f, limit, offset).rows)
    {
      hide Stand, Window;
      var found;
      found, made := SelectCopies(f);
      WindowStands(found, made, Select(values, f), limit, offset);
      page := Window(found, limit, offset);
    }

    /** CleanupOldAuditLogs: keeps the young entries in order and counts the rest. */
    method Cleanup(cutoff: int) returns (removed: nat)
      requires Valid()
      modifies this
      ensures Valid() && Repr == old(Repr)
      ensures values == Since(old(values), cutoff) && removed == |Before(old(values), cutoff)|
    {
      var kept: seq<Obj<AuditFields>> := [];
      removed := 0;
      assert values[..0] == [];
      for k := 0 to |entries|
        invariant entries == old(entries) && values == old(values) && Repr == old(Repr) && Valid()
        invariant Stand(kept, Repr - {this}, Since(values[..k], cutoff)) && removed == |Before(values[..k], cutoff)|
      {
        var entry := entries[k];
        assert StandsFor(entry, Repr - {this}, values[k]);
        hide Stand;
        CleanupSnoc(values, k, cutoff);
        if entry.fields.timestamp < cutoff {
          removed := removed + 1;
        } else {
          StandSnoc(kept, Repr - {this}, Since(values[..k], cutoff), entry, values[k]);
          kept := kept + [entry];
        }
      }
      hide Stand;
      assert values[..|entries|] == values;
      entries, values := kept, Since(values, cutoff);
    }
  }

  /** The loop over the tunnels, deleting from the map it walks. */
  method Cascade(tunnels: Shelf<TunnelFields>, session: Id)
    requires tunnels.Valid()
    modifies tunnels
    ensures tunnels.Valid() && tunnels.Repr == old(tunnels.Repr)
    ensures tunnels.values == Without(old(tunnels.values), session)
  {
    hide Shelf.Valid;
    var left := tunnels.Ids();
    ghost var was := tunnels.values;
    while left != {}
      invariant tunnels.Valid() && tunnels.Repr == old(tunnels.Repr)
      invariant left <= tunnels.values.Keys <= was.Keys
      invariant forall k :: k in tunnels.values ==> tunnels.values[k] == was[k]
      invariant forall k :: k in was && k !in left ==> (k in tunnels.values <==> was[k].fields.sessionId != session)
      decreases |left|
    {
      var tid :| tid in left;
      var fields := tunnels.FieldsOf(tid);
      if fields.sessionId == session {
        tunnels.Remove(tid);
      }
      left := left - {tid};
    }
  }

  datatype Error = Ok | NotFound | AlreadyExists

  class Store {
    const sessions: Shelf<SessionFields>
    const tunnels: Shelf<TunnelFields>
    const log: Log

    ghost function Repr(): set<object>
      reads sessions, tunnels, log
    {
      sessions.Repr + tunnels.Repr + log.Repr
    }

    ghost predicate Valid()
      reads sessions, tunnels, log, Repr()
    {
      && sessions.Valid() && tunnels.Valid() && log.Valid()
      && sessions.Repr !! tunnels.Repr !! log.Repr
    }

    ghost function Value(): State
      reads sessions, tunnels, log
    {
      State(sessions.values, tunnels.values, log.values)
    }

    constructor ()
      ensures Valid() && fresh(Repr()) && Value() == EMPTY
    {
      sessions := new Shelf<SessionFields>();
      tunnels := new Shelf<TunnelFields>();
      log := new Log();
    }

    /** The caller's object gets its id and stamps; a copy of it goes into the store. */
    method CreateSession(sess: Obj<SessionFields>, uuid: Id, now: int) returns (e: Error)
      requires Valid() && sess.Outside(Repr())
      modifies sess, sessions
      ensures Valid() && fresh(Repr() - old(Repr())) && sess.Outside(Repr()) && sess.meta == old(sess.meta)
      ensures var id := if old(sess.fields.id).text == "" then uuid else old(sess.fields.id);
              var v := old(sess.Value()).(fields := old(sess.fields).(id := id));
              && e == (if id in old(sessions.values) then AlreadyExists else Ok)
              && Value() == Apply(old(Value()), MemoryModel.CreateSession(v, now))
              && sess.Value() == if e == Ok then NewSession(v, now) else v
    {
      hide Shelf.Valid, Log.Valid;
      if sess.fields.id.text == "" {
        sess.fields := sess.fields.(id := uuid);
      }
      var found := sessions.Has(sess.fields.id);
      if found {
        return AlreadyExists;
      }
      sess.fields := sess.fields.(createdAt := now, lastActive := now, status := Active(sess.fields.status));
      sessions.Put(sess.fields.id, sess);
      return Ok;
    }

    method GetSession(id: Id) returns (e: Error, c: Obj?<SessionFields>)
      requires Valid()
      ensures e == (if id in sessions.values then Ok else NotFound)
      ensures e == Ok <==> c != null
      ensures c != null ==> fresh(c) && (c.meta != null ==> fresh(c.meta)) && c.Value() == Value().sessions[id]
    {
      hide Shelf.Valid, Log.Valid;
      var found := sessions.Has(id);
      if !found {
        return NotFound, null;
      }
      c := sessions.Get(id);
      e := Ok;
    }

    method UpdateSession(sess: Obj<SessionFields>, now: int) returns (e: Error)
      requires Valid() && sess.Outside(Repr())
      modifies sess, sessions
      ensures Valid() && fresh(Repr() - old(Repr())) && sess.Outside(Repr()) && sess.meta == old(sess.meta)
      ensures e == (if old(sess.fields.id) in old(sessions.values) then Ok else NotFound)
      ensures Value() == Apply(old(Value()), MemoryModel.UpdateSession(old(sess.Value()), now))
      ensures sess.Value() == if e == Ok then Touched(old(sess.Value()), now) else old(sess.Value())
    {
      hide Shelf.Valid, Log.Valid;
      var found := sessions.Has(sess.fields.id);
      if !found {
        return NotFound;
      }
      sess.fields := sess.fields.(lastActive := now);
      sessions.Put(sess.fields.id, sess);
      return Ok;
    }

    /** Writes the stored object itself; copies handed out earlier keep their old stamp. */
    method TouchSession(id: Id, now: int) returns (e: Error)
      requires Valid()
      modifies sessions, sessions.Repr
      ensures Valid() && Repr() == old(Repr())
      ensures e == (if id in old(sessions.values) then Ok else NotFound)
      ensures Value() == Apply(old(Value()), MemoryModel.TouchSession(id, now))
    {
      var found := sessions.Has(id);
      if !found {
        return NotFound;
      }
      hide Log.Valid;
      var fields := sessions.FieldsOf(id);
      sessions.SetFields(id, fields.(lastActive := now));
      return Ok;
    }

    method DeleteSession(id: Id) returns (e: Error)
      requires Valid()
      modifies sessions, tunnels
      ensures Valid() && Repr() == old(Repr())
      ensures e == (if id in old(sessions.values) then Ok else NotFound)
      ensures Value() == Apply(old(Value()), MemoryModel.DeleteSession(id))
    {
      var found := sessions.Has(id);
      if !found {
        return NotFound;
      }
      sessions.Remove(id);
      Cascade(tunnels, id);
      return Ok;
    }

    method CreateTunnel(t: Obj<TunnelFields>, uuid: Id, now: int) returns (e: Error)
      requires Valid() && t.Outside(Repr())
      modifies t, tunnels
      ensures Valid() && fresh(Repr() - old(Repr())) && t.Outside(Repr()) && t.meta == old(t.meta)
      ensures var id := if old(t.fields.id).text == "" then uuid else old(t.fields.id);
              var v := old(t.Value()).(fields := old(t.fields).(id := id));
              && e == (if id in old(tunnels.values) then AlreadyExists else Ok)
              && Value() == Apply(old(Value()), MemoryModel.CreateTunnel(v, now))
              && t.Value() == if e == Ok then NewTunnel(v, now) else v
    {
      hide Shelf.Valid, Log.Valid;
      if t.fields.id.text == "" {
        t.fields := t.fields.(id := uuid);
      }
      var found := tunnels.Has(t.fields.id);
      if found {
        return AlreadyExists;
      }
      t.fields := t.fields.(createdAt := now, status := Active(t.fields.status));
      tunnels.Put(t.fields.id, t);
      return Ok;
    }

    method UpdateTunnel(t: Obj<TunnelFields>) returns (e: Error)
      requires Valid() && t.Outside(Repr())
      modifies tunnels
      ensures Valid() && fresh(Repr() - old(Repr())) && t.Outside(Repr())
      ensures e == (if t.fields.id in old(tunnels.values) then Ok else NotFound)
      ensures Value() == Apply(old(Value()), MemoryModel.UpdateTunnel(t.Value()))
    {
      hide Shelf.Valid, Log.Valid;
      var found := tunnels.Has(t.fields.id);
      if !found {
        return NotFound;
      }
      tunnels.Put(t.fields.id, t);
      return Ok;
    }

    method GetTunnel(id: Id) returns (e: Error, c: Obj?<TunnelFields>)
      requires Valid()
      ensures e == (if id in tunnels.values then Ok else NotFound)
      ensures e == Ok <==> c != null
      ensures c != null ==> fresh(c) && (c.meta != null ==> fresh(c.meta)) && c.Value() == Value().tunnels[id]
    {
      hide Shelf.Valid, Log.Valid;
      var found := tunnels.Has(id);
      if !found {
        return NotFound, null;
      }
      c := tunnels.Get(id);
      e := Ok;
    }

    method AppendAuditLog(a: Obj<AuditFields>, uuid: Id, now: int)
      requires Valid() && a.Outside(Repr())
      modifies a, log
      ensures Valid() && fresh(Repr() - old(Repr())) && a.Outside(Repr()) && a.meta == old(a.meta)
      ensures var id := if old(a.fields.id).text == "" then uuid else old(a.fields.id);
              var v := old(a.Value()).(fields := old(a.fields).(id := id));
              Value() == Apply(old(Value()), AppendAudit(v, now)) && a.Value() == Stamped(v, now)
    {
      assert log in log.Repr;
      hide Shelf.Valid, Log.Valid;
      if a.fields.id.text == "" {
        a.fields := a.fields.(id := uuid);
      }
      a.fields := a.fields.(timestamp := now);
      log.Append(a);
    }
  }

  // ---- Isolation over every run ----

  /** A caller and everything it has ever held: what it passed in and what it was given. Any sequence of
      these methods keeps the two heaps apart. */
  class Caller {
    const store: Store
    ghost var held: set<object>

    ghost predicate Valid()
      reads this, store.sessions, store.tunnels, store.log, store.Repr()
    {
      store.Valid() && this !in store.Repr() && held !! store.Repr()
    }

    constructor (store: Store)
      requires store.Valid()
      ensures Valid() && this.store == store && held == {}
    {
      this.store := store;
      held := {};
    }

    ghost predicate Holds<F>(o: Obj<F>)
      reads this, o
    {
      o in held && (o.meta != null ==> o.meta in held)
    }

    /** The caller makes an object of its own. */
    method Make<F>(fields: F, entries: map<string, string>) returns (o: Obj<F>)
      requires Valid()
      modifies this
      ensures Valid() && Holds(o) && store.Value() == old(store.Value()) && old(held) <= held
    {
      hide Store.Valid;
      var meta := new JsonMap(entries);
      o := new Obj(fields, meta, Id(""));
      held := held + {o, meta};
    }

    method CreateSession(o: Obj<SessionFields>, uuid: Id, now: int) returns (e: Error)
      requires Valid() && Holds(o)
      modifies o, store.sessions
      ensures Valid() && Holds(o) && held == old(held)
      ensures e == Ok ==> store.Value().sessions == old(store.Value()).sessions[o.fields.id := o.Value()]
      ensures e != Ok ==> store.Value() == old(store.Value())
    {
      hide Store.Valid;
      e := store.CreateSession(o, uuid, now);
    }

    method UpdateSession(o: Obj<SessionFields>, now: int) returns (e: Error)
      requires Valid() && Holds(o)
      modifies o, store.sessions
      ensures Valid() && Holds(o) && held == old(held)
      ensures store.Value() == Apply(old(store.Value()), MemoryModel.UpdateSession(old(o.Value()), now))
    {
      hide Store.Valid, Apply;
      e := store.UpdateSession(o, now);
    }

    /** Touching writes an object of the store: none the caller holds. */
    method TouchSession(id: Id, now: int, o: Obj<SessionFields>) returns (e: Error)
      requires Valid() && Holds(o)
      modifies store.sessions, store.sessions.Repr
      ensures Valid() && held == old(held) && o.Value() == old(o.Value())
      ensures store.Value() == Apply(old(store.Value()), MemoryModel.TouchSession(id, now))
    {
      e := store.TouchSession(id, now);
    }

    method CreateTunnel(o: Obj<TunnelFields>, uuid: Id, now: int) returns (e: Error)
      requires Valid() && Holds(o)
      modifies o, store.tunnels
      ensures Valid() && Holds(o) && held == old(held)
      ensures e == Ok ==> store.Value().tunnels == old(store.Value()).tunnels[o.fields.id := o.Value()]
      ensures e != Ok ==> store.Value() == old(store.Value())
    {
      hide Store.Valid;
      e := store.CreateTunnel(o, uuid, now);
    }

    method UpdateTunnel(o: Obj<TunnelFields>) returns (e: Error)
      requires Valid() && Holds(o)
      modifies store.tunnels
      ensures Valid() && Holds(o) && held == old(held)
      ensures store.Value() == Apply(old(store.Value()), MemoryModel.UpdateTunnel(o.Value()))
    {
      hide Store.Valid, Apply;
      e := store.UpdateTunnel(o);
    }

    method AppendAuditLog(o: Obj<AuditFields>, uuid: Id, now: int)
      requires Valid() && Holds(o)
      modifies o, store.log
      ensures Valid() && Holds(o) && held == old(held)
      ensures store.Value().audit == old(store.Value()).audit + [o.Value()]
    {
      hide Store.Valid;
      store.AppendAuditLog(o, uuid, now);
    }

    /** Deleting takes nothing from the caller. */
    method DeleteSession(id: Id, o: Obj<SessionFields>) returns (e: Error)
      requires Valid() && Holds(o)
      modifies store.sessions, store.tunnels
      ensures Valid() && held == old(held) && o.Value() == old(o.Value())
      ensures store.Value() == Apply(old(store.Value()), MemoryModel.DeleteSession(id))
    {
      e := store.DeleteSession(id);
    }

    /** Keep a reference to something the store handed out. */
    ghost method Keep<F>(c: Obj<F>)
      requires Valid() && c.Outside(store.Repr())
      modifies this
      ensures Valid() && Holds(c) && held == old(held) + {c} + if c.meta == null then {} else {c.meta}
    {
      hide Store.Valid;
      held := held + {c} + if c.meta == null then {} else {c.meta};
    }

    method GetSession(id: Id) returns (e: Error, c: Obj?<SessionFields>)
      requires Valid()
      modifies this
      ensures Valid() && store.Value() == old(store.Value()) && old(held) <= held
      ensures c != null ==> Holds(c) && id in store.Value().sessions && c.Value() == store.Value().sessions[id]
    {
      hide Store.Valid;
      e, c := store.GetSession(id);
      if c != null {
        Keep(c);
      }
    }

    method GetTunnel(id: Id) returns (e: Error, c: Obj?<TunnelFields>)
      requires Valid()
      modifies this
      ensures Valid() && store.Value() == old(store.Value()) && old(held) <= held
      ensures c != null ==> Holds(c) && id in store.Value().tunnels && c.Value() == store.Value().tunnels[id]
    {
      hide Store.Valid;
      e, c := store.GetTunnel(id);
      if c != null {
        Keep(c);
      }
    }

    method QueryAuditLog(f: AuditFilter, limit: int, offset: int) returns (page: Page<Obj<AuditFields>>)
      requires Valid()
      modifies this
      ensures Valid() && store.Value() == old(store.Value()) && old(held) <= held
      ensures page.Panics? <==> MemoryModel.Query(store.Value().audit, f, limit, offset).Panics?
      ensures page.Rows? ==> Stand(page.rows, held, MemoryModel.Query(store.Value().audit, f, limit, offset).rows)
    {
      hide Stand, MemoryModel.Query, Shelf.Valid;
      ghost var made;
      page, made := store.log.Query(f, limit, offset);
      held := held + made;
      if page.Rows? {
        StandGrows(page.rows, made, MemoryModel.Query(store.log.values, f, limit, offset).rows, held);
      }
    }

    /** Whatever the caller writes into objects it holds, the store does not change. */
    method WriteFields<F>(o: Obj<F>, fields: F)
      requires Valid() && o in held
      modifies o
      ensures Valid() && store.Value() == old(store.Value()) && held == old(held)
    {
      o.fields := fields;
    }

    /** Replacing the metadata map of a held object, dropping it, or sharing one between objects. */
    method SetMeta<F>(o: Obj<F>, m: JsonMap?)
      requires Valid() && o in held && (m != null ==> m in held)
      modifies o
      ensures Valid() && store.Value() == old(store.Value()) && held == old(held) && o.meta == m
    {
      o.meta := m;
    }

    method WriteMeta(m: JsonMap, entries: map<string, string>)
      requires Valid() && m in held
      modifies m
      ensures Valid() && store.Value() == old(store.Value()) && held == old(held)
    {
      m.entries := entries;
    }
  }
}
