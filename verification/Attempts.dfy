/** Attempt counters in two stores: the map of internal/store/memory.go and the rate_limits table of
    internal/store/postgres.go. Each operation takes one clock reading; operations run one at a time. */
module Attempts {

  datatype Lock = Unlocked | Until(t: int)

  /** An entry of the map, or a row (count, first_at, locked_until). */
  datatype Entry = Entry(count: nat, firstAt: int, lock: Lock)

  datatype Key = Key(text: string)

  type Entries = map<Key, Entry>

  datatype Op =
    | Increment(key: Key, window: int, now: int)
    | Reset(key: Key)
    | Lock(key: Key, duration: int, now: int)

  predicate Locked(es: Entries, key: Key, now: int) {
    key in es && es[key].lock.Until? && now < es[key].lock.t
  }

  function Attempts(es: Entries, key: Key): nat {
    if key in es then es[key].count else 0
  }

  /** The map: a window that has run out replaces the whole entry, lock included. */
  function Memory(es: Entries, op: Op): Entries {
    match op
    case Increment(key, window, now) =>
      if key !in es || now - es[key].firstAt > window then es[key := Entry(1, now, Unlocked)]
      else es[key := es[key].(count := es[key].count + 1)]
    case Reset(key) => es - {key}
    case Lock(key, duration, now) =>
      var e := if key in es then es[key] else Entry(0, now, Unlocked);
      es[key := e.(lock := Until(now + duration))]
  }

  /** The table: the upserts set column by column, and locked_until only in Lock. */
  function Postgres(rows: Entries, op: Op): Entries {
    match op
    case Increment(key, window, now) =>
      if key !in rows then rows[key := Entry(1, now, Unlocked)]
      else
        var row, cutoff := rows[key], now - window;
        rows[key := Entry(if row.firstAt < cutoff then 1 else row.count + 1,
                          if row.firstAt < cutoff then now else row.firstAt,
                          row.lock)]
    case Reset(key) => rows - {key}
    case Lock(key, duration, now) =>
      if key !in rows then rows[key := Entry(0, now, Until(now + duration))]
      else rows[key := rows[key].(lock := Until(now + duration))]
  }

  class MemoryCounters {
    var entries: Entries

    constructor ()
      ensures entries == map[]
    {
      entries := map[];
    }

    method IncrementAttempts(key: Key, window: int, now: int) returns (n: nat)
      modifies this
      ensures entries == Memory(old(entries), Increment(key, window, now))
      ensures key in entries && n == entries[key].count && entries - {key} == old(entries) - {key}
      ensures key in old(entries) && now - old(entries)[key].firstAt <= window ==>
                entries[key] == old(entries)[key].(count := old(entries)[key].count + 1)
      ensures key !in old(entries) || now - old(entries)[key].firstAt > window ==>
                entries[key] == Entry(1, now, Unlocked)
    {
      if key !in entries || now - entries[key].firstAt > window {
        entries := entries[key := Entry(1, now, Unlocked)];
        return 1;
      }
      entries := entries[key := entries[key].(count := entries[key].count + 1)];
      return entries[key].count;
    }

    method GetAttempts(key: Key) returns (n: nat)
      ensures n == if key in entries then entries[key].count else 0
    {
      n := if key in entries then entries[key].count else 0;
    }

    method IsLocked(key: Key, now: int) returns (locked: bool)
      ensures locked <==> key in entries && entries[key].lock.Until? && now < entries[key].lock.t
    {
      locked := key in entries && entries[key].lock.Until? && now < entries[key].lock.t;
    }

    method ResetAttempts(key: Key)
      modifies this
      ensures entries == Memory(old(entries), Reset(key)) && entries == old(entries) - {key}
    {
      entries := entries - {key};
    }

    method LockKey(key: Key, duration: int, now: int)
      modifies this
      ensures entries == Memory(old(entries), Op.Lock(key, duration, now))
      ensures key in entries && entries[key].lock == Until(now + duration) && entries - {key} == old(entries) - {key}
      ensures key in old(entries) ==>
                entries[key].count == old(entries)[key].count && entries[key].firstAt == old(entries)[key].firstAt
      ensures key !in old(entries) ==> entries[key].count == 0 && entries[key].firstAt == now
    {
      var entry := Entry(0, now, Unlocked);
      if key in entries {
        entry := entries[key];
      }
      entries := entries[key := entry.(lock := Until(now + duration))];
    }
  }

  function RunMemory(ops: seq<Op>): Entries {
    if ops == [] then map[] else Memory(RunMemory(ops[..|ops| - 1]), ops[|ops| - 1])
  }

  function RunPostgres(ops: seq<Op>): Entries {
    if ops == [] then map[] else Postgres(RunPostgres(ops[..|ops| - 1]), ops[|ops| - 1])
  }

  /** A window of `key` has rolled over since it was last locked or reset, read off the table's history. */
  predicate RolledOver(ops: seq<Op>, key: Key) {
    ops != [] &&
    var init, op := ops[..|ops| - 1], ops[|ops| - 1];
    if op.key != key then RolledOver(init, key)
    else match op
      case Increment(_, window, now) =>
        var rows := RunPostgres(init);
        RolledOver(init, key) || (key in rows && now - rows[key].firstAt > window)
      case Reset(_) => false
      case Lock(_, _, _) => false
  }

  /** The simulation: same counts and first times, and the map has the table's lock unless a rollover has
      dropped it, in which case it has none. */
  ghost predicate Simulates(mem: Entries, rows: Entries, rolled: bool, key: Key) {
    && (key in mem <==> key in rows)
    && (key in rows ==>
          && mem[key].count == rows[key].count && mem[key].firstAt == rows[key].firstAt
          && mem[key].lock == if rolled then Unlocked else rows[key].lock)
  }

  lemma {:induction false} RunSimulates(ops: seq<Op>, key: Key)
    ensures Simulates(RunMemory(ops), RunPostgres(ops), RolledOver(ops, key), key)
  {
    if ops == [] {
    } else {
      RunSimulates(ops[..|ops| - 1], key);
    }
  }

  /** After every run the stores report the same attempts, the map reports a lock only if the table does,
      and they differ exactly when the table's lock is still running and a window has rolled over since. */
  lemma StoresCompared(ops: seq<Op>, key: Key, now: int)
    ensures Attempts(RunMemory(ops), key) == Attempts(RunPostgres(ops), key)
    ensures Locked(RunMemory(ops), key, now) ==> Locked(RunPostgres(ops), key, now)
    ensures Locked(RunMemory(ops), key, now) != Locked(RunPostgres(ops), key, now) <==>
            Locked(RunPostgres(ops), key, now) && RolledOver(ops, key)
  {
    RunSimulates(ops, key);
  }

  /** They do differ: a lock that outlives the window is gone from the map after the next attempt. */
  lemma MemoryDropsLock(key: Key)
    ensures var ops := [Increment(key, 10, 0), Op.Lock(key, 100, 1), Increment(key, 10, 20)];
            Locked(RunPostgres(ops), key, 20) && !Locked(RunMemory(ops), key, 20)
  {
    var a, b, c := Increment(key, 10, 0), Op.Lock(key, 100, 1), Increment(key, 10, 20);
    assert [a, b, c][..2] == [a, b] && [a, b][..1] == [a] && [a][..0] == [];
    assert RunPostgres([a]) == map[key := Entry(1, 0, Unlocked)];
    assert RunPostgres([a, b]) == map[key := Entry(1, 0, Until(101))];
    assert RunMemory([a]) == map[key := Entry(1, 0, Unlocked)];
    assert RunMemory([a, b]) == map[key := Entry(1, 0, Until(101))];
  }

  // ---- What the table holds, read off the operations ----

  /** Where the current window of `key` began: the operation that opened it, or -1 if there is none. A window
      opens with the first attempt or lock after a reset, and with an attempt that comes too late for the
      window before it. */
  function WindowStart(ops: seq<Op>, key: Key): (i: int)
    ensures -1 <= i < |ops|
    ensures i >= 0 ==> ops[i].key == key && !ops[i].Reset?
  {
    if ops == [] then -1
    else
      var init, op := ops[..|ops| - 1], ops[|ops| - 1];
      var i := WindowStart(init, key);
      if op.key != key then i
      else match op
        case Reset(_) => -1
        case Lock(_, _, _) => if i < 0 then |init| else i
        case Increment(_, window, now) => if i < 0 || now - init[i].now > window then |init| else i
  }

  /** The attempts on `key` from operation `i` on. */
  function AttemptsFrom(ops: seq<Op>, key: Key, i: nat): nat {
    if |ops| <= i then 0
    else
      AttemptsFrom(ops[..|ops| - 1], key, i) +
      if ops[|ops| - 1].Increment? && ops[|ops| - 1].key == key then 1 else 0
  }

  lemma NoAttemptsYet(ops: seq<Op>, key: Key, i: nat)
    requires |ops| <= i
    ensures AttemptsFrom(ops, key, i) == 0
  {
  }

  /** The end of the lock that was set last and not reset since. */
  function LastLock(ops: seq<Op>, key: Key): Lock {
    if ops == [] then Unlocked
    else
      var op := ops[|ops| - 1];
      if op.key == key && op.Lock? then Until(op.now + op.duration)
      else if op.key == key && op.Reset? then Unlocked
      else LastLock(ops[..|ops| - 1], key)
  }

  /** After every run the row of a key, if its window has begun, counts the attempts of that window, begins
      with it, and carries the lock set last. */
  lemma {:induction false} RowsAreTheHistory(ops: seq<Op>, key: Key)
    ensures var i := WindowStart(ops, key);
            && (key in RunPostgres(ops) <==> i >= 0)
            && (i >= 0 ==> RunPostgres(ops)[key] == Entry(AttemptsFrom(ops, key, i), ops[i].now, LastLock(ops, key)))
            && (i < 0 ==> LastLock(ops, key) == Unlocked)
  {
    if ops == [] {
    } else {
      var init := ops[..|ops| - 1];
      RowsAreTheHistory(init, key);
      NoAttemptsYet(init, key, |init|);
    }
  }

  /** The objects in any run, against the operations themselves: the map reports the attempts of the current
      window, and a lock exactly if the lock set last still runs and no window has rolled over since. */
  method Drive(ops: seq<Op>, key: Key, now: int) returns (counters: MemoryCounters, n: nat, locked: bool)
    ensures fresh(counters) && counters.entries == RunMemory(ops)
    ensures var i := WindowStart(ops, key); n == if i >= 0 then AttemptsFrom(ops, key, i) else 0
    ensures locked <==> LastLock(ops, key).Until? && now < LastLock(ops, key).t && !RolledOver(ops, key)
    ensures n == Attempts(RunPostgres(ops), key)
    ensures locked <==> Locked(RunPostgres(ops), key, now) && !RolledOver(ops, key)
  {
    counters := new MemoryCounters();
    assert ops[..0] == [];
    hide Memory;
    for i := 0 to |ops|
      invariant fresh(counters) && counters.entries == RunMemory(ops[..i])
    {
      assert ops[..i + 1][..i] == ops[..i];
      match ops[i] {
        case Increment(k, window, t) => var _ := counters.IncrementAttempts(k, window, t);
        case Reset(k) => counters.ResetAttempts(k);
        case Lock(k, duration, t) => counters.LockKey(k, duration, t);
      }
    }
    assert ops[..|ops|] == ops;
    StoresCompared(ops, key, now);
    RowsAreTheHistory(ops, key);
    n := counters.GetAttempts(key);
    locked := counters.IsLocked(key, now);
  }
}
