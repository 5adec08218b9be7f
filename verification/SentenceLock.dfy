/** Sentence locks: leases of 60 seconds in a hash table (storage_server/sentence_lock.c). */
module SentenceLock {
  import opened Text
  import opened Protocol
  import opened HashTables

  const LOCK_HASH_SIZE := 509
  const LOCK_TIMEOUT := 60

  type LockKey = (string, int)

  datatype Lease = Lease(client: string, stamp: int)

  type LockTable = HashTable<LockKey, Lease>
  type Locks = map<LockKey, Lease>

  /** `hash_lock_key`, up to the reduction to a bucket number. */
  function LockHash(key: LockKey): nat {
    (Hash32(key.0) + (key.1 * 31) % WORD32) % WORD32
  }

  predicate Expired(lease: Lease, now: int) {
    now - lease.stamp >= LOCK_TIMEOUT
  }

  // ----- the operations on the map of leases -----

  function Acquire(m: Locks, key: LockKey, client: string, now: int): (Locks, int) {
    if key in m && !Expired(m[key], now) && m[key].client != client then (m, ERR_LOCKED)
    else (m[key := Lease(client, now)], ERR_SUCCESS)
  }

  function Release(m: Locks, key: LockKey, client: string): (Locks, int) {
    if key !in m then (m, ERR_NOT_FOUND)
    else if m[key].client != client then (m, ERR_ACCESS_DENIED)
    else (m - {key}, ERR_SUCCESS)
  }

  /** 1 when somebody else holds the lock. */
  function IsLocked(m: Locks, key: LockKey, client: string, now: int): int {
    if key in m && !Expired(m[key], now) && m[key].client != client then 1 else 0
  }

  function Cleaned(m: Locks, now: int): Locks {
    map k | k in m && !Expired(m[k], now) :: m[k]
  }

  // ----- the table -----

  /** `lock_table_init`. */
  method LockTableInit() returns (table: LockTable)
    ensures table.Valid() && fresh(table.Repr) && table.M == map[]
  {
    table := new HashTable(LOCK_HASH_SIZE, LockHash);
  }

  /** `lock_acquire`. */
  method LockAcquire(table: LockTable, filename: string, sentence: int, client: string, now: int) returns (code: int)
    requires table.Valid()
    modifies table.Repr
    ensures table.Valid() && fresh(table.Repr - old(table.Repr))
    ensures (table.M, code) == Acquire(old(table.M), (filename, sentence), client, now)
  {
    var prev, entry, j := table.Find((filename, sentence));
    if entry != null {
      if now - entry.val.stamp >= LOCK_TIMEOUT {
        table.SetVal(entry, j, Lease(client, now));
        return ERR_SUCCESS;
      }
      if entry.val.client == client {
        table.SetVal(entry, j, entry.val.(stamp := now));
        return ERR_SUCCESS;
      }
      return ERR_LOCKED;
    }
    table.Prepend((filename, sentence), Lease(client, now));
    return ERR_SUCCESS;
  }

  /** `lock_release`. */
  method LockRelease(table: LockTable, filename: string, sentence: int, client: string) returns (code: int)
    requires table.Valid()
    modifies table.Repr
    ensures table.Valid() && table.Repr == old(table.Repr)
    ensures (table.M, code) == Release(old(table.M), (filename, sentence), client)
  {
    var prev, entry, j := table.Find((filename, sentence));
    if entry == null {
      return ERR_NOT_FOUND;
    }
    if entry.val.client != client {
      return ERR_ACCESS_DENIED;
    }
    table.Unlink(table.hash(entry.key) % table.buckets.Length, j, prev, entry);
    return ERR_SUCCESS;
  }

  /** `lock_is_locked`. */
  method LockIsLocked(table: LockTable, filename: string, sentence: int, client: string, now: int)
    returns (locked: int)
    requires table.Valid()
    ensures locked == IsLocked(table.M, (filename, sentence), client, now)
  {
    var prev, entry, j := table.Find((filename, sentence));
    if entry == null || now - entry.val.stamp >= LOCK_TIMEOUT || entry.val.client == client {
      return 0;
    }
    return 1;
  }

  /** `lock_cleanup_expired`. */
  method LockCleanupExpired(table: LockTable, now: int) returns (cleaned: nat)
    requires table.Valid()
    modifies table.Repr
    ensures table.Valid() && table.Repr == old(table.Repr)
    ensures table.M == Cleaned(old(table.M), now)
    ensures cleaned == |old(table.M)| - |table.M|
  {
    ghost var m := table.M;
    var fate := (k: LockKey, lease: Lease) => if now - lease.stamp >= LOCK_TIMEOUT then None else Some(lease);
    cleaned := table.Sweep(fate);
    assert table.M == Cleaned(m, now);
    assert m.Keys == table.M.Keys + Touched(m, m.Keys, fate);
    assert table.M.Keys !! Touched(m, m.Keys, fate);
    assert |m.Keys| == |table.M.Keys| + |Touched(m, m.Keys, fate)|;
  }

  // ----- runs -----

  datatype LockOp =
    | AcquireOp(key: LockKey, client: string)
    | ReleaseOp(key: LockKey, client: string)
    | IsLockedOp(key: LockKey, client: string)
    | CleanupOp

  /** An operation and the time the server's clock shows when it runs. */
  datatype Event = Event(at: int, op: LockOp)

  function Step(m: Locks, e: Event): (Locks, int) {
    match e.op
    case AcquireOp(key, client) => Acquire(m, key, client, e.at)
    case ReleaseOp(key, client) => Release(m, key, client)
    case IsLockedOp(key, client) => (m, IsLocked(m, key, client, e.at))
    case CleanupOp => (Cleaned(m, e.at), |m| - |Cleaned(m, e.at)|)
  }

  /** The clock never runs back, and all of `events` happen at `from` or later. */
  predicate Monotone(from: int, events: seq<Event>)
    decreases |events|
  {
    events == [] || (from <= events[0].at && Monotone(events[0].at, events[1..]))
  }

  function WithoutCleanups(events: seq<Event>): seq<Event> {
    if events == [] then []
    else (if events[0].op.CleanupOp? then [] else [events[0]]) + WithoutCleanups(events[1..])
  }

  /** The results of the acquire and is-locked operations of a run. */
  function Observed(m: Locks, events: seq<Event>): seq<int>
    decreases |events|
  {
    if events == [] then []
    else
      var (m', code) := Step(m, events[0]);
      (if events[0].op.AcquireOp? || events[0].op.IsLockedOp? then [code] else []) + Observed(m', events[1..])
  }

  /** The lease of `k` unless it has run out. */
  function Live(m: Locks, k: LockKey, now: int): Option<Lease> {
    if k in m && !Expired(m[k], now) then Some(m[k]) else None
  }

  /** The two tables differ in expired entries only. */
  ghost predicate SameLive(m: Locks, m': Locks, now: int) {
    forall k :: Live(m, k, now) == Live(m', k, now)
  }

  lemma SameLiveStep(m: Locks, m': Locks, from: int, e: Event)
    requires SameLive(m, m', from) && from <= e.at
    ensures SameLive(Step(m, e).0, if e.op.CleanupOp? then m' else Step(m', e).0, e.at)
    ensures e.op.AcquireOp? || e.op.IsLockedOp? ==> Step(m, e).1 == Step(m', e).1
  {
    if !e.op.CleanupOp? {
      assert Live(m, e.op.key, from) == Live(m', e.op.key, from);
    }
    var n, n' := Step(m, e).0, if e.op.CleanupOp? then m' else Step(m', e).0;
    forall k ensures Live(n, k, e.at) == Live(n', k, e.at) {
      assert Live(m, k, from) == Live(m', k, from);
    }
  }

  lemma {:induction false} SameLiveRun(m: Locks, m': Locks, from: int, events: seq<Event>)
    requires SameLive(m, m', from) && Monotone(from, events)
    ensures Observed(m, events) == Observed(m', WithoutCleanups(events))
    decreases |events|
  {
    if events != [] {
      var e, rest := events[0], events[1..];
      SameLiveStep(m, m', from, e);
      if e.op.CleanupOp? {
        SameLiveRun(Step(m, e).0, m', e.at, rest);
        assert WithoutCleanups(events) == WithoutCleanups(rest);
      } else {
        SameLiveRun(Step(m, e).0, Step(m', e).0, e.at, rest);
        assert WithoutCleanups(events)[1..] == WithoutCleanups(rest);
      }
    }
  }

  /**
    Garbage collection cannot be observed: two runs that differ in their cleanups only, wherever those
    stand, give every acquire and every is-locked the same result.
  */
  lemma CleanupUnobservable(m: Locks, from: int, events: seq<Event>, events': seq<Event>)
    requires Monotone(from, events) && Monotone(from, events')
    requires WithoutCleanups(events) == WithoutCleanups(events')
    ensures Observed(m, events) == Observed(m, events')
  {
    SameLiveRun(m, m, from, events);
    SameLiveRun(m, m, from, events');
  }

  /** A release does see the difference, but only on an entry that has run out. */
  lemma ReleaseSeesExpired(m: Locks, key: LockKey, client: string, now: int)
    ensures Release(m, key, client).1 != Release(Cleaned(m, now), key, client).1
       <==> key in m && Expired(m[key], now)
  {}

  /** Such a lease: a minute after its acquire, the owner's release finds it only if nobody has cleaned up. */
  lemma ReleaseAfterAMinute()
    ensures var held := Acquire(map[], ("f", 0), "a", 0).0;
            && Release(held, ("f", 0), "a").1 == ERR_SUCCESS
            && Release(Cleaned(held, 60), ("f", 0), "a").1 == ERR_NOT_FOUND
  {}

  /** A clock that runs back would make a cleanup visible. */
  lemma ClockMustNotRunBack()
    ensures var a := Event(100, AcquireOp(("f", 0), "a"));
            var b := Event(120, AcquireOp(("f", 0), "b"));
            Observed(map[], [a, Event(200, CleanupOp), b]) != Observed(map[], [a, b])
  {
    var a, c, b := Event(100, AcquireOp(("f", 0), "a")), Event(200, CleanupOp), Event(120, AcquireOp(("f", 0), "b"));
    var held: Locks := map[("f", 0) := Lease("a", 100)];
    assert Step(map[], a).0 == held && Step(held, c).0 == map[];
    assert [a, c, b][1..] == [c, b] && [c, b][1..] == [b] && [a, b][1..] == [b];
    ObservedOne(held, b);
    ObservedOne(map[], b);
    assert Observed(held, [c, b]) == [] + Observed(map[], [b]);
    assert Observed(map[], [a, b])[1] == ERR_LOCKED;
    assert Observed(map[], [a, c, b])[1] == ERR_SUCCESS;
  }

  lemma ObservedOne(m: Locks, e: Event)
    requires e.op.AcquireOp?
    ensures Observed(m, [e]) == [Step(m, e).1]
  {
    assert [e][1..] == [];
  }

  /** `lock_is_locked` answers 0 exactly when `lock_acquire` at that instant would succeed. */
  lemma IsLockedPredictsAcquire(m: Locks, key: LockKey, client: string, now: int)
    ensures IsLocked(m, key, client, now) == 0 <==> Acquire(m, key, client, now).1 == ERR_SUCCESS
  {}

  // ----- mutual exclusion -----

  /** The table after the first `n` events. */
  function After(m: Locks, events: seq<Event>, n: nat): Locks
    requires n <= |events|
  {
    if n == 0 then m else Step(After(m, events, n - 1), events[n - 1]).0
  }

  predicate Succeeds(m: Locks, events: seq<Event>, i: nat, op: LockOp)
    requires i < |events|
  {
    events[i].op == op && Step(After(m, events, i), events[i]).1 == ERR_SUCCESS
  }

  predicate Ordered(events: seq<Event>) {
    forall i, j :: 0 <= i < j < |events| ==> events[i].at <= events[j].at
  }

  lemma LeaseStaysStep(m: Locks, e: Event, key: LockKey, lease: Lease)
    requires key in m && m[key] == lease && !Expired(lease, e.at)
    requires e.op == AcquireOp(key, lease.client) || e.op == ReleaseOp(key, lease.client) ==>
               Step(m, e).1 != ERR_SUCCESS
    ensures var m' := Step(m, e).0; key in m' && m'[key] == lease
  {}

  /** A lease stays in place until it runs out, is renewed or is released by its owner. */
  lemma {:induction false} LeaseStays(m: Locks, events: seq<Event>, i: nat, n: nat, key: LockKey, a: string)
    requires i < n <= |events| && Succeeds(m, events, i, AcquireOp(key, a))
    requires forall r :: i < r < n ==> events[r].at < events[i].at + LOCK_TIMEOUT
    requires forall r :: i < r < n ==> !Succeeds(m, events, r, AcquireOp(key, a))
    requires forall r :: i < r < n ==> !Succeeds(m, events, r, ReleaseOp(key, a))
    ensures var now := After(m, events, n); key in now && now[key] == Lease(a, events[i].at)
  {
    if n > i + 1 {
      hide Step;
      LeaseStays(m, events, i, n - 1, key, a);
      assert !Succeeds(m, events, n - 1, AcquireOp(key, a));
      assert !Succeeds(m, events, n - 1, ReleaseOp(key, a));
      LeaseStaysStep(After(m, events, n - 1), events[n - 1], key, Lease(a, events[i].at));
    }
  }

  /**
    Mutual exclusion over whole runs: when `b` gets the lock after `a`, whose last successful acquire of it
    is event `i`, then `a` has released it in between or that acquire is at least 60 seconds old.
  */
  lemma MutualExclusion(m: Locks, events: seq<Event>, i: nat, j: nat, key: LockKey, a: string, b: string)
    requires i < j < |events| && Ordered(events) && a != b
    requires Succeeds(m, events, i, AcquireOp(key, a)) && Succeeds(m, events, j, AcquireOp(key, b))
    requires forall r :: i < r < j ==> !Succeeds(m, events, r, AcquireOp(key, a))
    ensures events[j].at - events[i].at >= LOCK_TIMEOUT
         || exists r :: i < r < j && Succeeds(m, events, r, ReleaseOp(key, a))
  {
    if events[j].at - events[i].at < LOCK_TIMEOUT
       && !(exists r :: i < r < j && Succeeds(m, events, r, ReleaseOp(key, a))) {
      LeaseStays(m, events, i, j, key, a);
    }
  }
}
