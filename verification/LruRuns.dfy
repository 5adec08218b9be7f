/** What the cache guarantees over any sequence of gets, puts and invalidations. */
module LruRuns {
  import opened Text
  import opened LruCaches

  datatype CacheOp = GetOp(file: string) | PutOp(file: string, ss: int) | InvalidateOp(file: string)

  function Do(c: Cache, op: CacheOp): Cache {
    match op
    case GetOp(f) => Get(c, f).0
    case PutOp(f, ss) => Put(c, f, ss)
    case InvalidateOp(f) => Invalidate(c, f)
  }

  /** The cache after the first `n` operations. */
  function After(ops: seq<CacheOp>, n: nat): Cache
    requires n <= |ops|
  {
    if n == 0 then [] else Do(After(ops, n - 1), ops[n - 1])
  }

  /** Operation `i` uses the key: a put of it, or a get that finds it. */
  predicate Touches(ops: seq<CacheOp>, i: nat, f: string)
    requires i < |ops|
  {
    ops[i].file == f && IsTouch(After(ops, i), ops[i])
  }

  lemma {:induction false} AlwaysOk(ops: seq<CacheOp>, n: nat)
    requires n <= |ops|
    ensures CacheOk(After(ops, n))
  {
    if n > 0 {
      AlwaysOk(ops, n - 1);
      var c := After(ops, n - 1);
      match ops[n - 1] {
        case GetOp(f) => GetKeepsOk(c, f);
        case PutOp(f, ss) => PutKeepsOk(c, f, ss);
        case InvalidateOp(f) => InvalidateKeepsOk(c, f);
      }
    }
  }

  /** The last operation before `n` that used the key, or -1. */
  function LastTouch(ops: seq<CacheOp>, n: nat, f: string): int
    requires n <= |ops|
  {
    if n == 0 then -1 else if Touches(ops, n - 1, f) then n - 1 else LastTouch(ops, n - 1, f)
  }

  lemma {:induction false} LastTouchBound(ops: seq<CacheOp>, n: nat, f: string)
    requires n <= |ops|
    ensures -1 <= LastTouch(ops, n, f) < n
  {
    if n > 0 {
      LastTouchBound(ops, n - 1, f);
    }
  }

  predicate IsTouch(c: Cache, op: CacheOp) {
    op.PutOp? || (op.GetOp? && Cached(c, op.file))
  }

  /** The old place of entry `p` of the new list, unless it is the entry that was touched. */
  function OldPlace(c: Cache, op: CacheOp, p: nat): nat {
    var i := Position(c, op.file);
    if IsTouch(c, op) then (if p == 0 || (i < |c| && p - 1 >= i) then p else p - 1)
    else if op.InvalidateOp? && i < |c| && p >= i then p + 1
    else p
  }

  /** An operation brings the key it touches to the front and keeps the order of the others. */
  lemma DoShape(c: Cache, op: CacheOp)
    requires CacheOk(c)
    ensures IsTouch(c, op) ==> Do(c, op) != [] && Do(c, op)[0].0 == op.file
    ensures forall p :: (if IsTouch(c, op) then 1 else 0) <= p < |Do(c, op)| ==>
              && OldPlace(c, op, p) < |c| && c[OldPlace(c, op, p)] == Do(c, op)[p]
              && Do(c, op)[p].0 != op.file
  {
    var c', i := Do(c, op), Position(c, op.file);
    var t := if IsTouch(c, op) then 1 else 0;
    if i < |c| {
      DroppedKeeps(c, i);
    }
    forall p | t <= p < |c'|
      ensures OldPlace(c, op, p) < |c| && c[OldPlace(c, op, p)] == c'[p] && c'[p].0 != op.file
    {
      if i < |c| {
        assert c'[p] == Dropped(c, i)[p - t];
      }
    }
  }

  lemma OldPlaceIncreases(c: Cache, op: CacheOp, p: nat, q: nat)
    requires p < q && (IsTouch(c, op) ==> p > 0)
    ensures OldPlace(c, op, p) < OldPlace(c, op, q)
  {}

  lemma AfterStep(ops: seq<CacheOp>, n: nat)
    requires 0 < n <= |ops|
    ensures After(ops, n) == Do(After(ops, n - 1), ops[n - 1])
  {}

  /** The entry that the operation brought to the front is the most recent one there can be. */
  lemma LastTouchNow(ops: seq<CacheOp>, n: nat)
    requires 0 < n <= |ops| && IsTouch(After(ops, n - 1), ops[n - 1])
    ensures After(ops, n) != [] && LastTouch(ops, n, After(ops, n)[0].0) == n - 1
  {
    AlwaysOk(ops, n - 1);
    DoShape(After(ops, n - 1), ops[n - 1]);
    assert Touches(ops, n - 1, After(ops, n)[0].0);
  }

  /** An entry that the operation did not bring to the front is as recent as it was. */
  lemma LastTouchKept(ops: seq<CacheOp>, n: nat, p: nat)
    requires 0 < n <= |ops| && p < |After(ops, n)|
    requires IsTouch(After(ops, n - 1), ops[n - 1]) ==> p > 0
    ensures var c, p0 := After(ops, n - 1), OldPlace(After(ops, n - 1), ops[n - 1], p);
            && p0 < |c| && c[p0] == After(ops, n)[p]
            && LastTouch(ops, n, After(ops, n)[p].0) == LastTouch(ops, n - 1, c[p0].0)
  {
    AlwaysOk(ops, n - 1);
    DoShape(After(ops, n - 1), ops[n - 1]);
    assert !Touches(ops, n - 1, After(ops, n)[p].0);
  }

  /** The list is always in the order of last use, most recent first. */
  lemma {:induction false} OrderedByLastTouch(ops: seq<CacheOp>, n: nat, p: nat, q: nat)
    requires n <= |ops| && p < q < |After(ops, n)|
    ensures LastTouch(ops, n, After(ops, n)[p].0) > LastTouch(ops, n, After(ops, n)[q].0) >= 0
  {
    hide *;
    EmptyAtFirst(ops, n);
    var c, op := After(ops, n - 1), ops[n - 1];
    var q0 := OldPlace(c, op, q);
    LastTouchKept(ops, n, q);
    if p == 0 && IsTouch(c, op) {
      LastTouchNow(ops, n);
      LastTouchBound(ops, n - 1, c[q0].0);
      CachedWasTouched(ops, n - 1, q0);
    } else {
      LastTouchKept(ops, n, p);
      OldPlaceIncreases(c, op, p, q);
      OrderedByLastTouch(ops, n - 1, OldPlace(c, op, p), q0);
    }
  }

  lemma EmptyAtFirst(ops: seq<CacheOp>, n: nat)
    requires n <= |ops|
    ensures n == 0 ==> After(ops, n) == []
  {}

  lemma {:induction false} CachedWasTouched(ops: seq<CacheOp>, n: nat, p: nat)
    requires n <= |ops| && p < |After(ops, n)|
    ensures LastTouch(ops, n, After(ops, n)[p].0) >= 0
  {
    hide *;
    EmptyAtFirst(ops, n);
    var c, op := After(ops, n - 1), ops[n - 1];
    if p == 0 && IsTouch(c, op) {
      LastTouchNow(ops, n);
    } else {
      LastTouchKept(ops, n, p);
      CachedWasTouched(ops, n - 1, OldPlace(c, op, p));
    }
  }

  // ----- recently used keys stay -----

  /** The keys other than `f` used by the operations after `i` and before `n`. */
  function Others(ops: seq<CacheOp>, i: nat, n: nat, f: string): set<string>
    requires n <= |ops|
  {
    if n <= i + 1 then {}
    else
      Others(ops, i, n - 1, f)
      + (if ops[n - 1].file != f && Touches(ops, n - 1, ops[n - 1].file) then {ops[n - 1].file} else {})
  }

  function KeysAhead(c: Cache, i: nat): set<string>
    requires i <= |c|
  {
    set p | 0 <= p < i :: c[p].0
  }

  lemma {:induction false} KeysAheadCount(c: Cache, i: nat)
    requires CacheOk(c) && i <= |c|
    ensures |KeysAhead(c, i)| == i
  {
    if i > 0 {
      KeysAheadCount(c, i - 1);
      assert KeysAhead(c, i) == KeysAhead(c, i - 1) + {c[i - 1].0};
      assert c[i - 1].0 !in KeysAhead(c, i - 1);
    } else {
      assert KeysAhead(c, 0) == {};
    }
  }

  /** Where entry `j` of the old list goes when another key is used or dropped. */
  function NewPlace(c: Cache, op: CacheOp, j: nat): nat {
    var i := Position(c, op.file);
    if IsTouch(c, op) then (if i < j then j else j + 1)
    else if op.InvalidateOp? && i < j then j - 1 else j
  }

  lemma NewPlaceIs(c: Cache, op: CacheOp, j: nat)
    requires CacheOk(c) && j < |c| && c[j].0 != op.file
    ensures var j', c' := NewPlace(c, op, j), Do(c, op);
            && (j' < |c'| ==> OldPlace(c, op, j') == j && c'[j'] == c[j] && (IsTouch(c, op) ==> j' > 0))
            && (j' >= |c'| ==> j == LRU_CACHE_SIZE - 1 && op.PutOp? && !Cached(c, op.file))
  {
    DoShape(c, op);
    var i := Position(c, op.file);
    if i < |c| { DroppedKeeps(c, i); }
  }

  /**
    One operation that does not invalidate `f`: only the key it uses can come to stand ahead of `f`, and
    `f` leaves only when it is last in a full cache and a new key is put.
  */
  lemma StepAhead(c: Cache, op: CacheOp, f: string)
    requires CacheOk(c) && Cached(c, f) && op != InvalidateOp(f)
    ensures var j, c' := Position(c, f), Do(c, op);
            && (Cached(c', f) || (j == LRU_CACHE_SIZE - 1 && op.file != f && op.PutOp? && !Cached(c, op.file)))
            && forall p :: 0 <= p < Position(c', f) && Cached(c', f) ==>
                 c'[p].0 in KeysAhead(c, j) || (c'[p].0 == op.file && op.file != f && IsTouch(c, op))
  {
    var j, c' := Position(c, f), Do(c, op);
    DoShape(c, op);
    if op.file == f {
      assert c'[0].0 == f;
    } else {
      var j' := NewPlace(c, op, j);
      NewPlaceIs(c, op, j);
      if j' < |c'| {
        assert Position(c', f) <= j';
        forall p | 0 <= p < Position(c', f)
          ensures c'[p].0 in KeysAhead(c, j) || (c'[p].0 == op.file && IsTouch(c, op))
        {
          if p > 0 || !IsTouch(c, op) {
            OldPlaceIncreases(c, op, p, j');
            assert c[OldPlace(c, op, p)].0 in KeysAhead(c, j);
          }
        }
      } else {
        NotThere(c, op, f, j);
      }
    }
  }

  lemma NotThere(c: Cache, op: CacheOp, f: string, j: nat)
    requires CacheOk(c) && j < |c| && c[j].0 == f && f != op.file && NewPlace(c, op, j) >= |Do(c, op)|
    ensures !Cached(Do(c, op), f)
  {
    DoShape(c, op);
    var c' := Do(c, op);
    forall p | 0 <= p < |c'| ensures c'[p].0 != f {
      if p > 0 || !IsTouch(c, op) {
        OldPlaceIncreases(c, op, p, NewPlace(c, op, j));
      }
    }
  }

  lemma RecentStep(c: Cache, op: CacheOp, f: string, before: set<string>, now: set<string>)
    requires CacheOk(c) && Cached(c, f) && op != InvalidateOp(f)
    requires KeysAhead(c, Position(c, f)) <= before <= now && |now| < LRU_CACHE_SIZE
    requires op.file != f && IsTouch(c, op) ==> op.file in now
    ensures Cached(Do(c, op), f) && KeysAhead(Do(c, op), Position(Do(c, op), f)) <= now
  {
    StepAhead(c, op, f);
    hide Do;
    hide Position;
    hide KeysAhead;
    var c' := Do(c, op);
    if !Cached(c', f) {
      EvictionNeedsMany(c, Position(c, f), op.file, now);
    } else {
      AheadOf(c', Position(c', f), now);
    }
  }

  /**
    The guarantee of the cache: a key used by operation `i` and not invalidated since is still cached as long
    as fewer than 100 distinct other keys have been used.
  */
  lemma {:induction false} RecentStaysCached(ops: seq<CacheOp>, i: nat, n: nat, f: string)
    requires i < n <= |ops| && Touches(ops, i, f)
    requires forall r :: i < r < n ==> ops[r] != InvalidateOp(f)
    requires |Others(ops, i, n, f)| < LRU_CACHE_SIZE
    ensures Cached(After(ops, n), f)
    ensures KeysAhead(After(ops, n), Position(After(ops, n), f)) <= Others(ops, i, n, f)
  {
    hide *;
    AfterStep(ops, n);
    AlwaysOk(ops, n - 1);
    var c, op := After(ops, n - 1), ops[n - 1];
    if n == i + 1 {
      TouchMeans(ops, i, n, f);
      JustTouched(c, op);
    } else {
      OthersStep(ops, i, n, f);
      SubsetSize(Others(ops, i, n - 1, f), Others(ops, i, n, f));
      RecentStaysCached(ops, i, n - 1, f);
      RecentStep(c, op, f, Others(ops, i, n - 1, f), Others(ops, i, n, f));
    }
  }

  lemma TouchMeans(ops: seq<CacheOp>, i: nat, n: nat, f: string)
    requires i + 1 == n <= |ops| && Touches(ops, i, f)
    ensures ops[i].file == f && IsTouch(After(ops, i), ops[i]) && Others(ops, i, n, f) == {}
  {}

  lemma JustTouched(c: Cache, op: CacheOp)
    requires CacheOk(c) && IsTouch(c, op)
    ensures Cached(Do(c, op), op.file) && KeysAhead(Do(c, op), Position(Do(c, op), op.file)) == {}
  {
    DoShape(c, op);
    assert Position(Do(c, op), op.file) == 0;
  }

  lemma OthersStep(ops: seq<CacheOp>, i: nat, n: nat, f: string)
    requires i + 1 < n <= |ops|
    ensures Others(ops, i, n - 1, f) <= Others(ops, i, n, f)
    ensures ops[n - 1].file != f && IsTouch(After(ops, n - 1), ops[n - 1]) ==> ops[n - 1].file in Others(ops, i, n, f)
  {}

  lemma AheadOf(c: Cache, j: nat, keys: set<string>)
    requires j <= |c| && forall p :: 0 <= p < j ==> c[p].0 in keys
    ensures KeysAhead(c, j) <= keys
  {}

  lemma EvictionNeedsMany(c: Cache, j: nat, file: string, now: set<string>)
    requires CacheOk(c) && j == LRU_CACHE_SIZE - 1 < |c| && !Cached(c, file)
    requires KeysAhead(c, j) <= now && file in now
    ensures |now| >= LRU_CACHE_SIZE
  {
    KeysAheadCount(c, j);
    assert file !in KeysAhead(c, j);
    SubsetSize(KeysAhead(c, j) + {file}, now);
  }

  // ----- what a hit answers -----

  lemma FoundAt(c: Cache, p: nat)
    requires CacheOk(c) && p < |c|
    ensures Cached(c, c[p].0) && Get(c, c[p].0).1 == c[p].1
  {
    assert Position(c, c[p].0) == p;
  }

  /** Only a put of the key itself changes the value it is cached with. */
  lemma ValueStep(c: Cache, op: CacheOp, f: string)
    requires CacheOk(c) && CacheOk(Do(c, op)) && Cached(Do(c, op), f)
    ensures op.PutOp? && op.file == f ==> Get(Do(c, op), f).1 == op.ss
    ensures !(op.PutOp? && op.file == f) ==> Cached(c, f) && Get(Do(c, op), f).1 == Get(c, f).1
  {
    var c' := Do(c, op);
    var p := Position(c', f);
    DoShape(c, op);
    if IsTouch(c, op) && p == 0 {
      assert c'[0].0 == op.file == f;
      FoundAt(c', 0);
      if op.GetOp? { FoundAt(c, Position(c, f)); }
    } else {
      hide Do;
      FoundAt(c', p);
      FoundAt(c, OldPlace(c, op, p));
    }
  }

  /** A hit answers what was last put under the key. */
  lemma {:induction false} HitIsLastPut(ops: seq<CacheOp>, i: nat, n: nat, f: string)
    requires i < n <= |ops| && ops[i].PutOp? && ops[i].file == f
    requires forall r :: i < r < n ==> !(ops[r].PutOp? && ops[r].file == f)
    requires Cached(After(ops, n), f)
    ensures Get(After(ops, n), f).1 == ops[i].ss
    decreases n
  {
    hide Do;
    hide Get;
    hide Cached;
    hide CacheOk;
    AfterStep(ops, n);
    AlwaysOk(ops, n - 1);
    AlwaysOk(ops, n);
    ValueStep(After(ops, n - 1), ops[n - 1], f);
    if i < n - 1 {
      HitIsLastPut(ops, i, n - 1, f);
    }
  }
}
