/** The locks of the storage server over whole runs: when WRITE_START is granted, and what gives a lock back. */
module LockRuns {
  import opened Text
  import opened Protocol
  import opened SentenceParser
  import opened StorageServer
  import opened StorageRuns
  import opened SessionOwners
  import opened FileHistory
  import Lock = SentenceLock
  import Buf = UndoBuffer
  import Idx = InvertedIndex

  // ----- the end of a session -----

  /** After the event that ends a session its lock is free and every other lock is what it was. */
  lemma EndedIsFree(s: Server, events: seq<Event>, n: nat)
    requires s.session.None? && 0 < n <= |events| && Runs(s, events, n) && Runs(s, events, n - 1)
    requires Ends(Reached(s, events, n - 1), events[n - 1])
    ensures Reached(s, events, n - 1).session.Some?
    ensures var before, now := Reached(s, events, n - 1), Reached(s, events, n);
            && now.locks == before.locks - {before.session.value.Key()}
            && now.session.None? && !now.inLoop
  {
    LastStep(s, events, n);
    EndOfSessionReleases(s, events, n - 1);
    hide Reached;
    hide Runs;
    hide Committed;
    hide Idx.IndexFile;
  }

  lemma FreeIsGranted(s: Server, f: string, k: int, client: string, now: int)
    requires (f, k) !in s.locks && f in s.files && 0 <= k <= |Sentences(View(s.files[f]))|
    ensures Start(s, f, k, client, now).1 == ERR_SUCCESS
  {
    hide Sentences;
    hide View;
  }

  /**
    Whoever comes next can have the sentence: after a commit or a broken connection a WRITE_START on it is
    granted to any client at any time, as long as the file has it.
  */
  lemma NextIsGranted(s: Server, events: seq<Event>, n: nat, client: string, now: int)
    requires s.session.None? && 0 < n <= |events| && Runs(s, events, n) && Runs(s, events, n - 1)
    requires Ends(Reached(s, events, n - 1), events[n - 1])
    ensures Reached(s, events, n - 1).session.Some?
    ensures var session, here := Reached(s, events, n - 1).session.value, Reached(s, events, n);
            session.filename in here.files && session.sentence <= |Sentences(View(here.files[session.filename]))| ==>
              Start(here, session.filename, session.sentence, client, now).1 == ERR_SUCCESS
  {
    hide Start;
    hide Sentences;
    hide View;
    hide Step;
    EndedIsFree(s, events, n);
    var session, here := Reached(s, events, n - 1).session.value, Reached(s, events, n);
    hide Reached;
    hide Runs;
    if session.filename in here.files && session.sentence <= |Sentences(View(here.files[session.filename]))| {
      FreeIsGranted(here, session.filename, session.sentence, client, now);
    }
  }

  // ----- when a START is refused -----

  /** A WRITE_START of the client on this sentence is granted. */
  predicate Takes(s: Server, e: Event, key: Lock.LockKey, client: string) {
    e.action == Message(WriteStart(key.0, key.1, client)) && !s.inLoop && Step(s, e).1 == ERR_SUCCESS
  }

  /**
    The lock is given back: its session ends, or a WRITE_START gets the lock and then finds that the sentence
    is out of range.
  */
  predicate Returns(s: Server, e: Event, key: Lock.LockKey) {
    || (Ends(s, e) && s.session.value.Key() == key)
    || (e.action.Message? && e.action.request.WriteStart? && !s.inLoop && Step(s, e).1 == ERR_INDEX_ERROR
        && (e.action.request.filename, e.action.request.sentence) == key)
  }

  /** At time `now` somebody else's lease on the sentence has not run out. */
  predicate Blocked(locks: Lock.Locks, key: Lock.LockKey, client: string, now: int) {
    key in locks && locks[key].client != client && now - locks[key].stamp < 60
  }

  predicate StampsBy(locks: Lock.Locks, at: int) {
    forall key :: key in locks ==> locks[key].stamp <= at
  }

  predicate TakenByOther(s: Server, e: Event, key: Lock.LockKey, client: string) {
    e.action.Message? && e.action.request.WriteStart? && e.action.request.client != client
    && Takes(s, e, key, e.action.request.client)
  }

  lemma StartBlocks(s: Server, e: Event, key: Lock.LockKey, client: string, now: int)
    requires Defined(s, e.action) && e.action.Message? && e.action.request.WriteStart? && !s.inLoop
    requires StampsBy(s.locks, e.at) && e.at <= now
    ensures Blocked(Step(s, e).0.locks, key, client, now) <==>
            (TakenByOther(s, e, key, client) && now - e.at < 60)
            || (Blocked(s.locks, key, client, now) && !Returns(s, e, key))
    ensures StampsBy(Step(s, e).0.locks, e.at)
  {
    hide View;
    hide Sentences;
  }

  lemma EndBlocks(s: Server, e: Event, key: Lock.LockKey, client: string, now: int)
    requires Defined(s, e.action) && Ends(s, e) && SessionHolds(s) && StampsBy(s.locks, e.at)
    ensures Blocked(Step(s, e).0.locks, key, client, now) <==>
            Blocked(s.locks, key, client, now) && s.session.value.Key() != key
    ensures StampsBy(Step(s, e).0.locks, e.at)
  {
    hide Committed;
    hide Idx.IndexFile;
  }

  lemma OtherLocks(s: Server, e: Event)
    requires Defined(s, e.action) && !Ends(s, e)
    requires !(e.action.Message? && e.action.request.WriteStart? && !s.inLoop)
    ensures Step(s, e).0.locks == if e.action.Cleanup? then Lock.Cleaned(s.locks, e.at) else s.locks
  {
    hide Committed;
    hide Idx.IndexFile;
    hide Idx.RemoveFile;
    hide Lock.Cleaned;
  }

  lemma StepBlocks(s: Server, e: Event, key: Lock.LockKey, client: string, now: int)
    requires Defined(s, e.action) && SessionHolds(s) && StampsBy(s.locks, e.at) && e.at <= now
    ensures Blocked(Step(s, e).0.locks, key, client, now) <==>
            (TakenByOther(s, e, key, client) && now - e.at < 60)
            || (Blocked(s.locks, key, client, now) && !Returns(s, e, key))
    ensures StampsBy(Step(s, e).0.locks, e.at)
  {
    if e.action.Message? && e.action.request.WriteStart? && !s.inLoop {
      StartBlocks(s, e, key, client, now);
    } else if Ends(s, e) {
      EndBlocks(s, e, key, client, now);
      hide Step;
    } else {
      OtherLocks(s, e);
      hide Step;
    }
  }

  // ----- runs -----

  /** The clock does not run back. */
  predicate Ordered(events: seq<Event>) {
    forall i, j :: 0 <= i < j < |events| ==> events[i].at <= events[j].at
  }

  /** Event `i` is a granted WRITE_START of another client, less than a minute before `now`. */
  ghost predicate TakenAt(s: Server, events: seq<Event>, i: nat, key: Lock.LockKey, client: string, now: int)
    requires i < |events|
  {
    Runs(s, events, i) && TakenByOther(Reached(s, events, i), events[i], key, client) && now - events[i].at < 60
  }

  ghost predicate NotReturned(s: Server, events: seq<Event>, r: nat, key: Lock.LockKey)
    requires r < |events|
  {
    Runs(s, events, r) && !Returns(Reached(s, events, r), events[r], key)
  }

  /** Somebody else's WRITE_START was granted less than a minute ago, and the lock was not given back since. */
  ghost predicate HeldByOther(s: Server, events: seq<Event>, n: nat, key: Lock.LockKey, client: string, now: int)
    requires n <= |events|
  {
    exists i: nat :: i < n && HeldFrom(s, events, i, n, key, client, now)
  }

  ghost predicate HeldFrom(s: Server, events: seq<Event>, i: nat, n: nat, key: Lock.LockKey, client: string, now: int)
    requires i < n <= |events|
  {
    TakenAt(s, events, i, key, client, now) && forall r :: i < r < n ==> NotReturned(s, events, r, key)
  }

  lemma HeldStep(s: Server, events: seq<Event>, n: nat, key: Lock.LockKey, client: string, now: int)
    requires 0 < n <= |events|
    ensures HeldByOther(s, events, n, key, client, now) <==>
            TakenAt(s, events, n - 1, key, client, now)
            || (HeldByOther(s, events, n - 1, key, client, now) && NotReturned(s, events, n - 1, key))
  {
    hide TakenAt;
    hide NotReturned;
    if TakenAt(s, events, n - 1, key, client, now) {
      assert HeldFrom(s, events, n - 1, n, key, client, now);
    }
    if HeldByOther(s, events, n, key, client, now) {
      var i: nat :| i < n && HeldFrom(s, events, i, n, key, client, now);
      assert i < n - 1 ==> HeldFrom(s, events, i, n - 1, key, client, now);
    }
    if HeldByOther(s, events, n - 1, key, client, now) && NotReturned(s, events, n - 1, key) {
      var i: nat :| i < n - 1 && HeldFrom(s, events, i, n - 1, key, client, now);
      assert HeldFrom(s, events, i, n, key, client, now);
    }
  }

  lemma {:induction false} StampsPast(s: Server, events: seq<Event>, n: nat, now: int)
    requires s.session.None? && s.locks == map[] && n <= |events| && Runs(s, events, n) && Ordered(events)
    requires n > 0 ==> events[n - 1].at <= now
    ensures StampsBy(Reached(s, events, n).locks, now)
  {
    if n > 0 {
      hide Step;
      LastStep(s, events, n);
      StampsPast(s, events, n - 1, events[n - 1].at);
      SessionAlwaysHolds(s, events, n - 1);
      StepBlocks(Reached(s, events, n - 1), events[n - 1], ("", 0), "", events[n - 1].at);
    }
  }

  /** Over every run without clock jumps: who is kept from a sentence, and by what. */
  lemma {:induction false} BlockedIff(
    s: Server, events: seq<Event>, n: nat, key: Lock.LockKey, client: string, now: int)
    requires s.session.None? && s.locks == map[] && n <= |events| && Runs(s, events, n) && Ordered(events)
    requires n > 0 ==> events[n - 1].at <= now
    ensures Blocked(Reached(s, events, n).locks, key, client, now) <==> HeldByOther(s, events, n, key, client, now)
    decreases n
  {
    hide *;
    if n == 0 {
      NobodyBlocked(s, events, key, client, now);
    } else {
      OrderedAt(events, n - 1);
      LastStep(s, events, n);
      BlockedIff(s, events, n - 1, key, client, now);
      BlockedNext(s, events, n, key, client, now);
      HeldStep(s, events, n, key, client, now);
    }
  }

  lemma NobodyBlocked(s: Server, events: seq<Event>, key: Lock.LockKey, client: string, now: int)
    requires s.locks == map[]
    ensures Runs(s, events, 0) && !Blocked(Reached(s, events, 0).locks, key, client, now)
    ensures !HeldByOther(s, events, 0, key, client, now)
  {}

  lemma BlockedNext(s: Server, events: seq<Event>, n: nat, key: Lock.LockKey, client: string, now: int)
    requires s.session.None? && s.locks == map[] && 0 < n <= |events| && Runs(s, events, n) && Ordered(events)
    requires events[n - 1].at <= now && Runs(s, events, n - 1)
    ensures Blocked(Reached(s, events, n).locks, key, client, now) <==>
            TakenAt(s, events, n - 1, key, client, now)
            || (Blocked(Reached(s, events, n - 1).locks, key, client, now) && NotReturned(s, events, n - 1, key))
  {
    hide *;
    LastStep(s, events, n);
    OrderedAt(events, n - 1);
    StampsPast(s, events, n - 1, events[n - 1].at);
    SessionAlwaysHolds(s, events, n - 1);
    StepBlocks(Reached(s, events, n - 1), events[n - 1], key, client, now);
    LastTaken(s, events, n, key, client, now);
  }

  lemma OrderedAt(events: seq<Event>, n: nat)
    requires n < |events| && Ordered(events)
    ensures n > 0 ==> events[n - 1].at <= events[n].at
  {}

  lemma LastTaken(s: Server, events: seq<Event>, n: nat, key: Lock.LockKey, client: string, now: int)
    requires 0 < n <= |events| && Runs(s, events, n - 1)
    ensures var before, e := Reached(s, events, n - 1), events[n - 1];
            && (TakenAt(s, events, n - 1, key, client, now) <==>
                  TakenByOther(before, e, key, client) && now - e.at < 60)
            && (NotReturned(s, events, n - 1, key) <==> !Returns(before, e, key))
  {
    hide Step;
    hide TakenByOther;
    hide Returns;
  }

  /** One WRITE_START, by what it finds. */
  lemma StartFinds(s: Server, f: string, k: int, client: string, now: int)
    ensures var code := Start(s, f, k, client, now).1;
            code == if f !in s.files then ERR_NOT_FOUND
                    else if Blocked(s.locks, (f, k), client, now) then ERR_LOCKED
                    else if 0 <= k <= |Sentences(View(s.files[f]))| then ERR_SUCCESS
                    else ERR_INDEX_ERROR
  {
    hide View;
    hide Sentences;
  }

  /**
    What WRITE_START answers, over every run that starts idle and on a clock that does not run back. The file
    must be there by its history; nobody else's START on that sentence may have been granted less than a minute
    ago without a commit, a broken connection or a failed START since that gave the lock back; and the sentence
    must be one of the text, or the one behind its last.
  */
  lemma StartAnswers(s: Server, events: seq<Event>, n: nat, f: string, k: int, client: string, now: int)
    requires s.session.None? && s.locks == map[] && n <= |events| && Runs(s, events, n) && Ordered(events)
    requires n > 0 ==> events[n - 1].at <= now
    ensures var here := Reached(s, events, n);
            Start(here, f, k, client, now).1 ==
              if !GivenAndKept(s, events, n, f) then ERR_NOT_FOUND
              else if HeldByOther(s, events, n, (f, k), client, now) then ERR_LOCKED
              else if f in here.files && 0 <= k <= |Sentences(View(here.files[f]))| then ERR_SUCCESS
              else ERR_INDEX_ERROR
  {
    hide *;
    PresentIff(s, events, n, f);
    BlockedIff(s, events, n, (f, k), client, now);
    StartFinds(Reached(s, events, n), f, k, client, now);
  }

  /** A pass of the cleanup thread leaves exactly the leases that are younger than a minute. */
  lemma CleanupLeaves(s: Server, events: seq<Event>, n: nat, key: Lock.LockKey)
    requires 0 < n <= |events| && Runs(s, events, n) && Runs(s, events, n - 1) && events[n - 1].action.Cleanup?
    ensures var before, now := Reached(s, events, n - 1).locks, Reached(s, events, n).locks;
            && (key in now <==> key in before && events[n - 1].at - before[key].stamp < 60)
            && (key in now ==> now[key] == before[key])
  {
    LastStep(s, events, n);
    hide Reached;
    hide Runs;
  }
}
