/**
  Whose session a commit writes, as the one global session may outlive the loop it was begun in, and what it writes.
*/
module SessionOwners {
  import opened Protocol
  import opened Text
  import opened StorageServer
  import opened StorageRuns
  import opened SentenceParser
  import opened WordParser
  import opened CommitSplice
  import Lock = SentenceLock
  import Buf = UndoBuffer

  // ----- one step -----

  /** A WRITE_START that succeeds. */
  predicate Begins(s: Server, e: Event) {
    e.action.Message? && e.action.request.WriteStart? && !s.inLoop &&
    var r := e.action.request;
    Start(s, r.filename, r.sentence, r.client, e.at).1 == ERR_SUCCESS
  }

  /** A commit or a broken connection inside a loop. Any other message there ends the loop and not the session. */
  predicate Ends(s: Server, e: Event) {
    s.inLoop && s.session.Some? && (e.action == Message(WriteCommit) || e.action.Disconnect?)
  }

  /** Any WRITE_START outside a loop, whether it succeeds or not. */
  predicate Opens(s: Server, e: Event) {
    !s.inLoop && e.action.Message? && e.action.request.WriteStart?
  }

  predicate Closes(s: Server, e: Event) {
    s.inLoop && (e.action.Disconnect? || (e.action.Message? && !e.action.request.WriteUpdate?))
  }

  /** The session is on the sentence, and for the client, that the request names. */
  predicate BelongsTo(session: WriteSession, r: Request) {
    r.WriteStart? && session.filename == r.filename && session.sentence == r.sentence && session.client == r.client
  }

  lemma StepSession(s: Server, e: Event)
    requires Defined(s, e.action)
    ensures var s' := Step(s, e).0;
            && (s'.session.Some? <==> Begins(s, e) || (s.session.Some? && !Ends(s, e)))
            && (Begins(s, e) ==> BelongsTo(s'.session.value, e.action.request))
            && (!Begins(s, e) && s'.session.Some? ==>
                  forall r :: BelongsTo(s'.session.value, r) <==> BelongsTo(s.session.value, r))
  {
    hide Sentences;
    hide View;
    hide Committed;
    hide Lock.Release;
    hide Lock.Acquire;
    hide Lock.Cleaned;
  }

  lemma StepLoop(s: Server, e: Event)
    requires Defined(s, e.action)
    ensures Step(s, e).0.inLoop <==> Opens(s, e) || (s.inLoop && !Closes(s, e))
  {
    hide Sentences;
    hide View;
    hide Committed;
    hide Lock.Release;
    hide Lock.Acquire;
    hide Lock.Cleaned;
  }

  // ----- runs -----

  ghost predicate BeginsAt(s: Server, events: seq<Event>, i: nat)
    requires i < |events|
  {
    Runs(s, events, i) && Begins(Reached(s, events, i), events[i])
  }

  ghost predicate OpensAt(s: Server, events: seq<Event>, j: nat)
    requires j < |events|
  {
    Runs(s, events, j) && Opens(Reached(s, events, j), events[j])
  }

  ghost predicate LeavesSession(s: Server, events: seq<Event>, r: nat)
    requires r < |events|
  {
    Runs(s, events, r) && !Begins(Reached(s, events, r), events[r]) && !Ends(Reached(s, events, r), events[r])
  }

  ghost predicate LeavesLoop(s: Server, events: seq<Event>, r: nat)
    requires r < |events|
  {
    Runs(s, events, r) && !Closes(Reached(s, events, r), events[r])
  }

  /** The session of state `n` was begun by event `i`. */
  ghost predicate SessionFrom(s: Server, events: seq<Event>, i: nat, n: nat)
    requires i < n <= |events|
  {
    BeginsAt(s, events, i) && forall r :: i < r < n ==> LeavesSession(s, events, r)
  }

  /** The loop of state `n` was opened by event `j`. */
  ghost predicate LoopFrom(s: Server, events: seq<Event>, j: nat, n: nat)
    requires j < n <= |events|
  {
    OpensAt(s, events, j) && forall r :: j < r < n ==> LeavesLoop(s, events, r)
  }

  /** An active session was begun by some successful START and left alone since. */
  lemma {:induction false} FindSession(s: Server, events: seq<Event>, n: nat) returns (i: nat)
    requires s.session.None? && n <= |events| && Runs(s, events, n) && Reached(s, events, n).session.Some?
    ensures i < n && SessionFrom(s, events, i, n)
  {
    hide Step;
    hide Begins;
    hide Ends;
    LastStep(s, events, n);
    var before := Reached(s, events, n - 1);
    StepSession(before, events[n - 1]);
    if Begins(before, events[n - 1]) {
      i := n - 1;
    } else {
      i := FindSession(s, events, n - 1);
      assert LeavesSession(s, events, n - 1);
    }
  }

  /** It is on the sentence and for the client of that START. */
  lemma {:induction false} SessionIsOf(s: Server, events: seq<Event>, i: nat, n: nat)
    requires i < n <= |events| && Runs(s, events, n) && SessionFrom(s, events, i, n)
    ensures Reached(s, events, n).session.Some?
    ensures events[i].action.Message? && BelongsTo(Reached(s, events, n).session.value, events[i].action.request)
    decreases n
  {
    hide Step;
    hide Begins;
    hide Ends;
    hide BelongsTo;
    LastStep(s, events, n);
    var before := Reached(s, events, n - 1);
    StepSession(before, events[n - 1]);
    if i < n - 1 {
      assert LeavesSession(s, events, n - 1);
      SessionIsOf(s, events, i, n - 1);
    } else {
      BeginsByMessage(before, events[i]);
    }
  }

  lemma BeginsByMessage(s: Server, e: Event)
    requires Begins(s, e)
    ensures e.action.Message? && Opens(s, e)
  {}

  lemma {:induction false} FindLoop(s: Server, events: seq<Event>, n: nat) returns (j: nat)
    requires !s.inLoop && n <= |events| && Runs(s, events, n) && Reached(s, events, n).inLoop
    ensures j < n && LoopFrom(s, events, j, n)
  {
    hide Step;
    hide Opens;
    hide Closes;
    LastStep(s, events, n);
    var before := Reached(s, events, n - 1);
    StepLoop(before, events[n - 1]);
    if Opens(before, events[n - 1]) {
      j := n - 1;
    } else {
      j := FindLoop(s, events, n - 1);
      assert LeavesLoop(s, events, n - 1);
    }
  }

  lemma {:induction false} LoopStands(s: Server, events: seq<Event>, j: nat, n: nat)
    requires j < n <= |events| && Runs(s, events, n) && LoopFrom(s, events, j, n)
    ensures Reached(s, events, n).inLoop
    decreases n
  {
    hide Step;
    hide Opens;
    hide Closes;
    LastStep(s, events, n);
    StepLoop(Reached(s, events, n - 1), events[n - 1]);
    if j < n - 1 {
      assert LeavesLoop(s, events, n - 1);
      LoopStands(s, events, j, n - 1);
    }
  }

  /** Inside a loop that stays open, no session begins and none ends. */
  lemma OpenLoopLeavesSession(s: Server, events: seq<Event>, j: nat, n: nat, r: nat)
    requires j < r < n <= |events| && Runs(s, events, n) && LoopFrom(s, events, j, n)
    ensures LeavesSession(s, events, r)
  {
    RunsPrefix(s, events, r, n);
    assert LeavesLoop(s, events, r);
    assert LoopFrom(s, events, j, r) by {
      assert forall q :: j < q < r ==> LeavesLoop(s, events, q);
    }
    LoopStands(s, events, j, r);
    hide Start;
    hide Reached;
  }

  /**
    In a loop that event `j` opened, with a session that event `i` began: the session is the loop's own exactly
    if the loop's START succeeded. Otherwise it was left behind by an earlier one.
  */
  lemma OwnSessionIff(s: Server, events: seq<Event>, i: nat, j: nat, n: nat)
    requires i < n <= |events| && j < n && Runs(s, events, n)
    requires SessionFrom(s, events, i, n) && LoopFrom(s, events, j, n)
    ensures i <= j
    ensures i == j <==> BeginsAt(s, events, j)
  {
    hide LeavesSession;
    hide BeginsAt;
    hide OpensAt;
    if j < i {
      OpenLoopLeavesSession(s, events, j, n, i);
      LeavesIsNotBegins(s, events, i);
    }
    if i < j && BeginsAt(s, events, j) {
      assert LeavesSession(s, events, j);
      LeavesIsNotBegins(s, events, j);
    }
  }

  lemma LeavesIsNotBegins(s: Server, events: seq<Event>, i: nat)
    requires i < |events|
    ensures !(LeavesSession(s, events, i) && BeginsAt(s, events, i))
  {}

  /**
    Whose session a WRITE_COMMIT writes, in every run that starts idle. There is a WRITE_START that opened the
    loop and a successful one that began the session. They are the same exactly if the one that opened the loop
    succeeded; if it failed, the commit writes what an earlier client left behind.
  */
  lemma CommitWritesWhose(s: Server, events: seq<Event>, n: nat) returns (i: nat, j: nat)
    requires s.session.None? && !s.inLoop && n <= |events| && Runs(s, events, n)
    requires Reached(s, events, n).inLoop && Reached(s, events, n).session.Some?
    ensures i <= j < n && SessionFrom(s, events, i, n) && LoopFrom(s, events, j, n)
    ensures i == j <==> BeginsAt(s, events, j)
    ensures events[i].action.Message? && BelongsTo(Reached(s, events, n).session.value, events[i].action.request)
  {
    hide *;
    i := FindSession(s, events, n);
    j := FindLoop(s, events, n);
    SessionIsOf(s, events, i, n);
    OwnSessionIff(s, events, i, j, n);
  }

  // ----- what a session works on -----

  /** The update that a message brings to an open loop, if it is one. */
  function Edits(s: Server, e: Event): seq<Update> {
    if s.inLoop && e.action.Message? && e.action.request.WriteUpdate?
    then [Update(e.action.request.index, e.action.request.word)]
    else []
  }

  /** The updates that reached a loop between event `i` and state `n`, in order. */
  ghost function EditsBetween(s: Server, events: seq<Event>, i: nat, n: nat): seq<Update>
    requires i < n <= |events| && Runs(s, events, n)
    decreases n
  {
    if n == i + 1 then []
    else EditsBetween(s, events, i, n - 1) + Edits(Reached(s, events, n - 1), events[n - 1])
  }

  /**
    The session is on `f` with the given words. The file, if it is there, reads as `seen` or as empty, and UNDO,
    if it can, puts `seen` back.
  */
  predicate WorksOn(s: Server, f: string, seen: string, words: seq<string>) {
    s.session.Some? && s.session.value.filename == f && s.session.value.words == words && Shows(s, f, seen)
  }

  predicate Shows(s: Server, f: string, seen: string) {
    && (f in s.files ==> View(s.files[f]) == seen || View(s.files[f]) == "")
    && (Buf.Available(s.undos, f) ==> s.undos[f].content == seen)
  }

  lemma BeginsWorksOn(s: Server, e: Event)
    requires Defined(s, e.action) && Begins(s, e)
    ensures var r := e.action.request;
            && r.filename in s.files && r.sentence >= 0
            && WorksOn(Step(s, e).0, r.filename, View(s.files[r.filename]),
                       StartWords(Sentences(View(s.files[r.filename])), r.sentence))
  {
    var r := e.action.request;
    StartSaves(s, r.filename, r.sentence, r.client, e.at);
    hide View;
    hide Sentences;
  }

  lemma UndoShows(s: Server, g: string, f: string, seen: string)
    requires Shows(s, f, seen) && View(seen) == seen
    ensures Shows(UndoStep(s, g).0, f, seen)
  {
    hide View;
  }

  lemma UndoIsStep(s: Server, e: Event)
    requires e.action.Message? && e.action.request.UndoFile? && !s.inLoop
    ensures Step(s, e).0 == UndoStep(s, e.action.request.filename).0
  {}

  lemma QuietStepKeeps(s: Server, e: Event)
    requires Defined(s, e.action) && !Begins(s, e) && !Ends(s, e) && s.session.Some?
    requires e.action.Message? || e.action.Disconnect? || e.action.Cleanup?
    requires e.action.Message? && e.action.request.UndoFile? ==> s.inLoop
    ensures Step(s, e).0.files == s.files && Step(s, e).0.undos == s.undos
  {
    hide View;
    hide Sentences;
    hide Commit;
    hide CanCommit;
    hide EndSession;
    hide Lock.Release;
    hide Lock.Acquire;
    hide Lock.Cleaned;
  }

  lemma StepShows(s: Server, e: Event, f: string, seen: string)
    requires Defined(s, e.action) && !Begins(s, e) && !Ends(s, e)
    requires s.session.Some? && Shows(s, f, seen) && View(seen) == seen
    ensures Shows(Step(s, e).0, f, seen)
  {
    assert View("") == "";
    hide View;
    hide Begins;
    hide Ends;
    hide LoopMessage;
    hide FirstMessage;
    hide Defined;
    hide EndSession;
    if e.action.Message? && e.action.request.UndoFile? && !s.inLoop {
      UndoShows(s, e.action.request.filename, f, seen);
      UndoIsStep(s, e);
    } else if e.action.Message? || e.action.Disconnect? || e.action.Cleanup? {
      QuietStepKeeps(s, e);
      hide Step;
    }
  }

  lemma StepEdits(s: Server, e: Event)
    requires Defined(s, e.action) && !Begins(s, e) && !Ends(s, e) && s.session.Some?
    ensures var s' := Step(s, e).0;
            && s'.session.Some? && s'.session.value.filename == s.session.value.filename
            && s'.session.value.words == ApplyAll(s.session.value.words, Edits(s, e))
  {
    hide View;
    hide Sentences;
    hide Committed;
    hide Lock.Release;
    hide Lock.Acquire;
    hide Lock.Cleaned;
    if Edits(s, e) != [] {
      var u := Update(e.action.request.index, e.action.request.word);
      assert Edits(s, e)[1..] == [];
      assert ApplyAll(s.session.value.words, Edits(s, e)) == Apply(s.session.value.words, u);
    }
  }

  lemma StepWorksOn(s: Server, e: Event, f: string, seen: string, words: seq<string>)
    requires Defined(s, e.action) && !Begins(s, e) && !Ends(s, e)
    requires WorksOn(s, f, seen, words) && View(seen) == seen
    ensures WorksOn(Step(s, e).0, f, seen, ApplyAll(words, Edits(s, e)))
  {
    StepShows(s, e, f, seen);
    StepEdits(s, e);
    hide Step;
    hide Shows;
  }

  lemma {:induction false} ApplyAllTwice(ws: seq<string>, us: seq<Update>, more: seq<Update>)
    ensures ApplyAll(ws, us + more) == ApplyAll(ApplyAll(ws, us), more)
    decreases |us|
  {
    if us == [] {
      assert us + more == more;
    } else {
      assert (us + more)[0] == us[0] && (us + more)[1..] == us[1..] + more;
      ApplyAllTwice(Apply(ws, us[0]), us[1..], more);
    }
  }

  /**
    Whatever happens between a START and a later state of its session: the session's words are those of the
    START with every update since applied in order, and the file still reads as the START saw it, unless it
    reads as empty because it was deleted and made again.
  */
  lemma {:induction false} SessionWorksOnStart(s: Server, events: seq<Event>, i: nat, n: nat)
    requires i < n <= |events| && Runs(s, events, n) && SessionFrom(s, events, i, n)
    ensures Runs(s, events, i) && events[i].action.Message? && events[i].action.request.WriteStart?
    ensures var r, before := events[i].action.request, Reached(s, events, i);
            && r.filename in before.files && r.sentence >= 0
            && WorksOn(Reached(s, events, n), r.filename, View(before.files[r.filename]),
                       ApplyAll(StartWords(Sentences(View(before.files[r.filename])), r.sentence),
                                EditsBetween(s, events, i, n)))
    decreases n
  {
    hide *;
    RunsPrefix(s, events, i, n);
    RunsPrefix(s, events, i + 1, n);
    SessionBegins(s, events, i, n);
    BeginsWorksOn(Reached(s, events, i), events[i]);
    LastStep(s, events, n);
    EditsStep(s, events, i, n);
    if i < n - 1 {
      var r, before := events[i].action.request, Reached(s, events, i);
      var seen := View(before.files[r.filename]);
      var words := StartWords(Sentences(seen), r.sentence);
      SessionShorter(s, events, i, n);
      SessionWorksOnStart(s, events, i, n - 1);
      ViewTwice(before.files[r.filename]);
      var now, e := Reached(s, events, n - 1), events[n - 1];
      StepWorksOn(now, e, r.filename, seen, ApplyAll(words, EditsBetween(s, events, i, n - 1)));
      ApplyAllTwice(words, EditsBetween(s, events, i, n - 1), Edits(now, e));
    } else {
      NoEdits(StartWords(Sentences(View(Reached(s, events, i).files[events[i].action.request.filename])),
                         events[i].action.request.sentence));
    }
  }

  lemma SessionBegins(s: Server, events: seq<Event>, i: nat, n: nat)
    requires i < n <= |events| && Runs(s, events, n) && SessionFrom(s, events, i, n)
    ensures Runs(s, events, i) && Defined(Reached(s, events, i), events[i].action)
    ensures Begins(Reached(s, events, i), events[i])
    ensures events[i].action.Message? && events[i].action.request.WriteStart?
  {
    RunsPrefix(s, events, i + 1, n);
    LastStep(s, events, i + 1);
    hide Start;
    hide Step;
    hide Defined;
  }

  lemma SessionShorter(s: Server, events: seq<Event>, i: nat, n: nat)
    requires i < n - 1 < |events| && Runs(s, events, n) && SessionFrom(s, events, i, n)
    ensures Runs(s, events, n - 1) && SessionFrom(s, events, i, n - 1)
    ensures !Begins(Reached(s, events, n - 1), events[n - 1]) && !Ends(Reached(s, events, n - 1), events[n - 1])
  {
    LastStep(s, events, n);
    assert LeavesSession(s, events, n - 1);
    hide Begins;
    hide Ends;
    hide Step;
  }

  lemma EditsStep(s: Server, events: seq<Event>, i: nat, n: nat)
    requires i < n <= |events| && Runs(s, events, n)
    ensures Runs(s, events, n - 1)
    ensures n == i + 1 ==> EditsBetween(s, events, i, n) == []
    ensures n > i + 1 ==>
              EditsBetween(s, events, i, n)
              == EditsBetween(s, events, i, n - 1) + Edits(Reached(s, events, n - 1), events[n - 1])
  {
    hide Step;
    hide Edits;
  }

  lemma NoEdits(ws: seq<string>)
    ensures ApplyAll(ws, []) == ws
  {}

  lemma ViewTwice(bytes: string)
    ensures View(View(bytes)) == View(bytes)
  {
    ViewIsWhole(bytes);
    ViewIsWhole(View(bytes));
  }

  /** The text with its `k`-th sentence replaced by the words. */
  function Rewritten(text: string, k: nat, words: seq<string>): string {
    Concat(Before(Sentences(text), k)) + Join(words) + Concat(After(Sentences(text), k))
  }

  /**
    A whole session over any run. The commit in state `n` puts the words of the START, with all updates since,
    in the place of the edited sentence of the text that the START saw; or of the empty text, if the file was
    deleted and made again.
  */
  lemma CommitOfSession(s: Server, events: seq<Event>, i: nat, n: nat)
    requires i < n <= |events| && Runs(s, events, n) && SessionFrom(s, events, i, n)
    requires CanCommit(Reached(s, events, n))
    ensures Runs(s, events, i) && events[i].action.Message? && events[i].action.request.WriteStart?
    ensures events[i].action.request.filename in Reached(s, events, i).files && events[i].action.request.sentence >= 0
    ensures var r := events[i].action.request;
            var seen := View(Reached(s, events, i).files[r.filename]);
            var words := ApplyAll(StartWords(Sentences(seen), r.sentence), EditsBetween(s, events, i, n));
            CommitsTo(Reached(s, events, n), r, seen, words)
  {
    hide *;
    SessionWorksOnStart(s, events, i, n);
    SessionIsOf(s, events, i, n);
    var r := events[i].action.request;
    var seen := View(Reached(s, events, i).files[r.filename]);
    WritesFor(Reached(s, events, n), r, seen,
              ApplyAll(StartWords(Sentences(seen), r.sentence), EditsBetween(s, events, i, n)));
  }

  /** A commit would write the words into what was seen, or into nothing if the file reads as empty. */
  predicate CommitsTo(s: Server, r: Request, seen: string, words: seq<string>)
    requires r.WriteStart? && r.sentence >= 0 && CanCommit(s)
  {
    && r.filename in s.files
    && (View(s.files[r.filename]) == seen || View(s.files[r.filename]) == "")
    && Commit(s).0.files == Replaced(s.files, r.filename, Rewritten(View(s.files[r.filename]), r.sentence, words))
  }

  lemma WritesFor(s: Server, r: Request, seen: string, words: seq<string>)
    requires r.WriteStart? && r.sentence >= 0 && WorksOn(s, r.filename, seen, words)
    requires s.session.Some? && BelongsTo(s.session.value, r) && CanCommit(s)
    ensures CommitsTo(s, r, seen, words)
  {
    CommitText(Sentences(View(s.files[r.filename])), r.sentence, Join(words));
    hide View;
    hide Sentences;
    hide Concat;
    hide Join;
    hide Spliced;
  }

  /**
    What WRITE_UPDATE answers inside a loop, over every run: with a session from a START at `i`, it is accepted
    exactly if its index is at most the number of words that this START and the updates since have given.
  */
  lemma UpdateAnswers(s: Server, events: seq<Event>, i: nat, n: nat, index: int, word: string)
    requires i < n <= |events| && Runs(s, events, n) && SessionFrom(s, events, i, n)
    ensures Runs(s, events, i) && events[i].action.Message? && events[i].action.request.WriteStart?
    ensures events[i].action.request.filename in Reached(s, events, i).files && events[i].action.request.sentence >= 0
    ensures var r := events[i].action.request;
            var seen := View(Reached(s, events, i).files[r.filename]);
            var words := ApplyAll(StartWords(Sentences(seen), r.sentence), EditsBetween(s, events, i, n));
            UpdateWord(Reached(s, events, n), index, word).1 ==
              if 0 <= index <= |words| then ERR_SUCCESS else ERR_INDEX_ERROR
  {
    SessionWorksOnStart(s, events, i, n);
    hide Reached;
    hide Runs;
    hide Sentences;
    hide View;
    hide ApplyAll;
    hide EditsBetween;
    hide Shows;
  }

  /** An update or a commit outside a loop, or with no session to work on, is refused and changes no data. */
  lemma RefusedWrites(s: Server, e: Event)
    requires Defined(s, e.action) && (!s.inLoop || s.session.None?)
    requires e.action == Message(WriteCommit) || (e.action.Message? && e.action.request.WriteUpdate?)
    ensures Step(s, e) == (s.(inLoop := s.inLoop && e.action.request.WriteUpdate?), ERR_BAD_REQUEST)
  {}
}
