/** What holds over whole runs of the storage server. */
module StorageRuns {
  import opened Text
  import opened Protocol
  import opened SentenceParser
  import opened Splitting
  import opened WordParser
  import opened CommitSplice
  import opened StorageServer
  import Lock = SentenceLock
  import Buf = UndoBuffer
  import Idx = InvertedIndex

  /** The first `n` events can be handled one after the other. */
  ghost predicate Runs(s: Server, events: seq<Event>, n: nat)
    requires n <= |events|
    decreases n, 0
  {
    n == 0 || (Runs(s, events, n - 1) && Defined(Reached(s, events, n - 1), events[n - 1].action))
  }

  /** The state after the first `n` events. */
  ghost function Reached(s: Server, events: seq<Event>, n: nat): Server
    requires n <= |events| && Runs(s, events, n)
    decreases n, 1
  {
    if n == 0 then s else Step(Reached(s, events, n - 1), events[n - 1]).0
  }

  lemma LastStep(s: Server, events: seq<Event>, n: nat)
    requires 0 < n <= |events| && Runs(s, events, n)
    ensures Runs(s, events, n - 1) && Defined(Reached(s, events, n - 1), events[n - 1].action)
    ensures Reached(s, events, n) == Step(Reached(s, events, n - 1), events[n - 1]).0
  {}

  lemma {:induction false} RunsPrefix(s: Server, events: seq<Event>, i: nat, n: nat)
    requires i <= n <= |events| && Runs(s, events, n)
    ensures Runs(s, events, i)
    decreases n
  {
    if i < n {
      RunsPrefix(s, events, i, n - 1);
    }
  }

  // ----- the session and its lock -----

  /** The lock of the active session is held by the session's client, or by nobody. */
  predicate SessionHolds(s: Server) {
    s.session.Some? ==>
      var session := s.session.value;
      session.Key() in s.locks ==> s.locks[session.Key()].client == session.client
  }

  lemma StartKeepsLock(s: Server, filename: string, sentence: int, client: string, now: int)
    requires SessionHolds(s)
    ensures SessionHolds(Start(s, filename, sentence, client, now).0)
  {
    hide Sentences;
    hide View;
  }

  lemma StepKeepsLock(s: Server, e: Event)
    requires SessionHolds(s) && Defined(s, e.action)
    ensures SessionHolds(Step(s, e).0)
  {
    hide Start;
    hide Committed;
    hide Sentences;
    match e.action {
      case Message(r) =>
        if !s.inLoop && r.WriteStart? {
          StartKeepsLock(s, r.filename, r.sentence, r.client, e.at);
        }
      case _ =>
    }
  }

  /** In every state of every run that starts without a session. */
  lemma {:induction false} SessionAlwaysHolds(s: Server, events: seq<Event>, n: nat)
    requires s.session.None? && n <= |events| && Runs(s, events, n)
    ensures SessionHolds(Reached(s, events, n))
  {
    if n > 0 {
      LastStep(s, events, n);
      SessionAlwaysHolds(s, events, n - 1);
      StepKeepsLock(Reached(s, events, n - 1), events[n - 1]);
    }
  }

  /** The release at the end of a session, by commit or by disconnect, is never denied and frees the key. */
  lemma EndOfSessionReleases(s: Server, events: seq<Event>, n: nat)
    requires s.session.None? && n <= |events| && Runs(s, events, n)
    requires Reached(s, events, n).session.Some?
    ensures var now := Reached(s, events, n);
            var session := now.session.value;
            && Lock.Release(now.locks, session.Key(), session.client).1 != ERR_ACCESS_DENIED
            && session.Key() !in EndSession(now).locks
            && EndSession(now).locks == now.locks - {session.Key()}
  {
    SessionAlwaysHolds(s, events, n);
  }

  /** Over every run that starts without a session, a commit stays inside its array of sentences. */
  lemma {:induction false} BoundsAlways(s: Server, events: seq<Event>, n: nat)
    requires s.session.None? && n <= |events| && Runs(s, events, n)
    ensures InBounds(Reached(s, events, n))
  {
    hide InBounds;
    hide Step;
    if n == 0 {
      NoSessionInBounds(s);
    } else {
      LastStep(s, events, n);
      BoundsAlways(s, events, n - 1);
      StepInBounds(Reached(s, events, n - 1), events[n - 1]);
    }
  }

  lemma NoSessionInBounds(s: Server)
    requires s.session.None?
    ensures InBounds(s)
  {}

  // ----- undo -----

  /** Event `i` is a successful WRITE_START on `filename`. */
  ghost predicate Starts(s: Server, events: seq<Event>, i: nat, filename: string)
    requires i < |events| && Runs(s, events, i + 1)
  {
    var now, a := Reached(s, events, i), events[i].action;
    && a.Message? && a.request.WriteStart? && a.request.filename == filename
    && !now.inLoop && Step(now, events[i]).1 == ERR_SUCCESS
  }

  /** Event `i` is a successful UNDO of `filename`. */
  ghost predicate Undoes(s: Server, events: seq<Event>, i: nat, filename: string)
    requires i < |events| && Runs(s, events, i + 1)
  {
    var now, a := Reached(s, events, i), events[i].action;
    a == Message(UndoFile(filename)) && !now.inLoop && Step(now, events[i]).1 == ERR_SUCCESS
  }

  ghost predicate PassesBy(s: Server, events: seq<Event>, r: nat, filename: string)
    requires r < |events|
  {
    Runs(s, events, r + 1) && !Starts(s, events, r, filename) && !Undoes(s, events, r, filename)
  }

  /** Neither START nor UNDO of the file succeeds in the events from `i` up to `n`. */
  ghost predicate Untouched(s: Server, events: seq<Event>, i: nat, n: nat, filename: string)
    requires n <= |events|
  {
    forall r :: i <= r < n ==> PassesBy(s, events, r, filename)
  }

  /** The undo entry of a file, as far as it can be observed. */
  function Entry(s: Server, filename: string): Option<Buf.Undo> {
    if filename in s.undos then Some(s.undos[filename]) else None
  }

  lemma StepKeepsUndo(s: Server, e: Event, filename: string)
    requires Defined(s, e.action)
    ensures Entry(Step(s, e).0, filename) == Entry(s, filename)
         || (e.action.Message? && !s.inLoop && Step(s, e).1 == ERR_SUCCESS &&
             (e.action.request == UndoFile(filename)
              || (e.action.request.WriteStart? && e.action.request.filename == filename)))
  {
    hide Sentences;
    hide View;
    hide Committed;
  }

  lemma {:induction false} UndoKept(s: Server, events: seq<Event>, i: nat, n: nat, filename: string)
    requires i <= n <= |events| && Runs(s, events, n) && Runs(s, events, i)
    requires Untouched(s, events, i, n, filename)
    ensures Entry(Reached(s, events, n), filename) == Entry(Reached(s, events, i), filename)
    decreases n
  {
    if i < n {
      LastStep(s, events, n);
      UndoKept(s, events, i, n - 1, filename);
      StepKeepsUndo(Reached(s, events, n - 1), events[n - 1], filename);
      assert PassesBy(s, events, n - 1, filename);
    }
  }

  lemma StartSaves(s: Server, filename: string, sentence: int, client: string, now: int)
    requires Start(s, filename, sentence, client, now).1 == ERR_SUCCESS
    ensures filename in s.files
    ensures Entry(Start(s, filename, sentence, client, now).0, filename)
         == Some(Buf.Undo(View(s.files[filename]), true))
  {
    hide Sentences;
    ViewIsWhole(s.files[filename]);
    hide View;
  }

  /**
    UNDO after a session restores what the latest successful START on the file saw, whatever happened in
    between to this or to other files. That is every byte of the file exactly when it fits the 4096-byte
    buffer and holds no NUL.
  */
  lemma UndoRestoresStart(s: Server, events: seq<Event>, i: nat, n: nat, filename: string)
    requires i < n <= |events| && Runs(s, events, n) && Runs(s, events, i + 1)
    requires Starts(s, events, i, filename) && Untouched(s, events, i + 1, n, filename)
    ensures Runs(s, events, i) && filename in Reached(s, events, i).files
    ensures var (undone, code) := UndoStep(Reached(s, events, n), filename);
            var bytes := Reached(s, events, i).files[filename];
            && code == ERR_SUCCESS
            && undone.files == Reached(s, events, n).files[filename := View(bytes)]
            && (undone.files[filename] == bytes <==> |bytes| < MAX_CONTENT_LEN && NulFree(bytes))
  {
    var before := Reached(s, events, i);
    var r := events[i].action.request;
    StartSaves(before, filename, r.sentence, r.client, events[i].at);
    UndoKept(s, events, i + 1, n, filename);
    ViewIsWhole(before.files[filename]);
  }

  /** A second UNDO without a new START finds nothing. */
  lemma SecondUndoFails(s: Server, events: seq<Event>, i: nat, n: nat, filename: string)
    requires i < n <= |events| && Runs(s, events, n) && Runs(s, events, i + 1)
    requires Undoes(s, events, i, filename) && Untouched(s, events, i + 1, n, filename)
    ensures UndoStep(Reached(s, events, n), filename) == (Reached(s, events, n), ERR_NOT_FOUND)
  {
    UndoKept(s, events, i + 1, n, filename);
  }

  // ----- what a session writes -----

  /**
    A commit writes the text before the edited sentence, the session's words joined by spaces and the text
    behind it, all of the content it reads back at that moment. Other files stay as they are, but for one
    named like the temporary file.
  */
  lemma CommitWrites(s: Server)
    requires s.session.Some? && CanCommit(s)
    ensures var session, files := s.session.value, Commit(s).0.files;
            var sentences := Sentences(View(s.files[session.filename]));
            && files[session.filename] == Concat(Before(sentences, session.sentence)) + Join(session.words)
                                          + Concat(After(sentences, session.sentence))
            && (forall g :: g != session.filename && g != session.filename + ".tmp" ==>
                  (g in files <==> g in s.files) && (g in files ==> files[g] == s.files[g]))
  {
    hide Sentences;
    hide View;
    hide Join;
    hide Concat;
    hide Spliced;
    var session := s.session.value;
    CommitText(Sentences(View(s.files[session.filename])), session.sentence, Join(session.words));
  }

  lemma {:induction false} SqueezeShortens(s: string)
    ensures |Join(Words(s))| <= |s|
    decreases |s|
  {
    if s != "" {
      if IsSpace(s[0]) {
        assert Words(s) == Words(s[1..]);
        SqueezeShortens(s[1..]);
      } else {
        var n := TokenLength(s, WhiteSpace);
        var w, rest := s[..n], s[n..];
        assert Words(s) == [w] + Words(rest);
        assert s == w + rest;
        if rest != "" {
          assert IsSpace(rest[0]) && Words(rest) == Words(rest[1..]);
          SqueezeShortens(rest[1..]);
          assert ([w] + Words(rest))[1..] == Words(rest);
        }
      }
    }
  }

  lemma {:induction false} PieceShorter(list: seq<string>, k: nat)
    requires k < |list|
    ensures |list[k]| <= |Concat(list)|
  {
    if k > 0 {
      PieceShorter(list[1..], k - 1);
    }
  }

  /** START on an existing sentence followed at once by COMMIT is always possible and is the no-op edit. */
  lemma StartThenCommit(s: Server, filename: string, sentence: int, client: string, now: int)
    requires filename in s.files && Start(s, filename, sentence, client, now).1 == ERR_SUCCESS
    requires sentence < |Sentences(View(s.files[filename]))|
    ensures var s' := Start(s, filename, sentence, client, now).0;
            && CanCommit(s') && s'.session.Some? && sentence >= 0
            && Commit(s').0.files[filename] == NoOp(View(s.files[filename]), sentence)
  {
    var content := View(s.files[filename]);
    var list := Sentences(content);
    ViewIsWhole(s.files[filename]);
    ParseIsCanonical(content);
    hide View;
    hide Sentences;
    PieceShorter(list, sentence);
    SqueezeShortens(list[sentence]);
    hide Words;
    hide Join;
    hide Concat;
    NoOpIsSplice(content, sentence);
  }

  lemma TextAround(list: seq<string>, k: nat)
    requires k < |list|
    ensures Concat(list) == Concat(Before(list, k)) + list[k] + Concat(After(list, k))
  {
    ListAround(list, k);
    hide *;
    ConcatSnoc(Before(list, k), list[k]);
    ConcatAppend(Before(list, k) + [list[k]], After(list, k));
  }

  lemma ListAround(list: seq<string>, k: nat)
    requires k < |list|
    ensures list == Before(list, k) + [list[k]] + After(list, k)
  {}

  lemma NoOpShortens(content: string, k: nat)
    requires k < |Sentences(content)|
    ensures |NoOp(content, k)| <= |content|
    ensures NulFree(content) ==> NulFree(NoOp(content, k))
  {
    hide *;
    var list := Sentences(content);
    var here, there := list[k], Join(Words(list[k]));
    ParseIsCanonical(content);
    TextAround(list, k);
    CommitText(list, k, there);
    NoOpIsSplice(content, k);
    SqueezeShortens(here);
    SqueezeNulFree(here);
    NulFreeParts(Concat(Before(list, k)), here, Concat(After(list, k)), there);
  }

  lemma NulFreeParts(before: string, here: string, after: string, there: string)
    requires NulFree(here) ==> NulFree(there)
    ensures NulFree(before + here + after) ==> NulFree(before + there + after)
  {
    if NulFree(before + here + after) {
      var t := before + here + after;
      assert forall i :: 0 <= i < |before| ==> t[i] == before[i];
      assert forall i :: 0 <= i < |here| ==> t[|before| + i] == here[i];
      assert forall i :: 0 <= i < |after| ==> t[|before| + |here| + i] == after[i];
    }
  }

  lemma {:induction false} SqueezeNulFree(s: string)
    ensures NulFree(s) ==> NulFree(Join(Words(s)))
    decreases |s|
  {
    if s != "" {
      if IsSpace(s[0]) {
        assert Words(s) == Words(s[1..]);
        SqueezeNulFree(s[1..]);
      } else {
        var n := TokenLength(s, WhiteSpace);
        var w, rest := s[..n], s[n..];
        assert Words(s) == [w] + Words(rest);
        assert s == w + rest;
        SqueezeNulFree(rest);
        assert ([w] + Words(rest))[1..] == Words(rest);
      }
    }
  }

  /**
    START and COMMIT on a sentence that is not blank, and then the same again by any client at any time: the
    second session is granted, and it leaves every file byte for byte.
  */
  lemma NoOpSessionTwice(s: Server, f: string, k: int, client: string, now: int, other: string, later: int)
    requires f in s.files && Start(s, f, k, client, now).1 == ERR_SUCCESS
    requires k < |Sentences(View(s.files[f]))| && Words(Sentences(View(s.files[f]))[k]) != []
    ensures CanCommit(Start(s, f, k, client, now).0)
    ensures var once := Commit(Start(s, f, k, client, now).0).0;
            var (again, code) := Start(once, f, k, other, later);
            && code == ERR_SUCCESS && CanCommit(again) && Commit(again).0.files == once.files
  {
    var content := View(s.files[f]);
    ViewIsWhole(s.files[f]);
    StartThenCommit(s, f, k, client, now);
    var once := Commit(Start(s, f, k, client, now).0).0;
    FreeAfterSession(s, f, k, client, now);
    NoOpShortens(content, k);
    NoOpIdempotent(content, k);
    ViewIsWhole(NoOp(content, k));
    GrantedWhenFree(once, f, k, other, later);
    StartThenCommit(once, f, k, other, later);
    WritesSameAgain(once, f, k, other, later);
  }

  /** The session's lock is free after the commit. */
  lemma FreeAfterSession(s: Server, f: string, k: int, client: string, now: int)
    requires f in s.files && Start(s, f, k, client, now).1 == ERR_SUCCESS
    requires CanCommit(Start(s, f, k, client, now).0)
    ensures var once := Commit(Start(s, f, k, client, now).0).0;
            (f, k) !in once.locks && f in once.files && f + ".tmp" !in once.files
  {
    hide Sentences;
    hide View;
    hide Committed;
    assert f + ".tmp" != f by { assert |f + ".tmp"| > |f|; }
  }

  lemma GrantedWhenFree(s: Server, f: string, k: int, client: string, now: int)
    requires f in s.files && (f, k) !in s.locks && 0 <= k <= |Sentences(View(s.files[f]))|
    ensures Start(s, f, k, client, now).1 == ERR_SUCCESS
  {
    hide Sentences;
    hide View;
  }

  lemma WritesSameAgain(once: Server, f: string, k: int, other: string, later: int)
    requires f in once.files && f + ".tmp" !in once.files && Start(once, f, k, other, later).1 == ERR_SUCCESS
    requires CanCommit(Start(once, f, k, other, later).0)
    requires Commit(Start(once, f, k, other, later).0).0.files[f] == once.files[f]
    ensures Commit(Start(once, f, k, other, later).0).0.files == once.files
  {
    hide Sentences;
    hide View;
    hide Committed;
    assert once.files - {f + ".tmp"} == once.files;
  }
}
