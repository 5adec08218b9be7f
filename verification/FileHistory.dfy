/** Which files are on the storage server, and with what content, over whole runs. */
module FileHistory {
  import opened Text
  import opened Protocol
  import opened SentenceParser
  import opened WordParser
  import opened CommitSplice
  import opened StorageServer
  import opened StorageRuns
  import opened IndexRuns
  import Buf = UndoBuffer
  import Idx = InvertedIndex
  import Lock = SentenceLock

  // ----- one step -----

  /** A WRITE_COMMIT inside a loop, with a session to write. */
  predicate Commits(s: Server, e: Event) {
    e.action == Message(WriteCommit) && s.inLoop && s.session.Some?
  }

  /** An UNDO of the file outside a loop that has something to restore. */
  predicate Restores(s: Server, e: Event, f: string) {
    e.action == Message(UndoFile(f)) && !s.inLoop && Buf.Available(s.undos, f)
  }

  /** After this event the file is there: CREATE, REPLICATE, an UNDO that restores it, a commit to it. */
  predicate Gives(s: Server, e: Event, f: string) {
    || e.action == NsCreate(f) || e.action == NsReplicate(f)
    || Restores(s, e, f) || (Commits(s, e) && s.session.value.filename == f)
  }

  /** After this event the file is gone: DELETE, or a commit that renames the file of this name over its own. */
  predicate Loses(s: Server, e: Event, f: string) {
    e.action == NsDelete(f) || (Commits(s, e) && s.session.value.filename + ".tmp" == f)
  }

  lemma StepPresence(s: Server, e: Event, f: string)
    requires Defined(s, e.action)
    ensures f in Step(s, e).0.files <==> Gives(s, e, f) || (f in s.files && !Loses(s, e, f))
  {
    hide View;
    hide Sentences;
    hide Committed;
    hide Idx.IndexFile;
    hide Idx.RemoveFile;
    hide Lock.Acquire;
    hide Lock.Release;
    hide Lock.Cleaned;
    if Commits(s, e) {
      var g := s.session.value.filename;
      assert |g + ".tmp"| > |g|;
    }
  }

  /** The event gives the file a new content: a CREATE or REPLICATE where there is none, an UNDO, a commit. */
  predicate Writes(s: Server, e: Event, f: string) {
    Gives(s, e, f) && ((e.action.NsCreate? || e.action.NsReplicate?) ==> f !in s.files)
  }

  /** The new content. */
  function Written(s: Server, e: Event, f: string): string
    requires Writes(s, e, f) && Defined(s, e.action)
  {
    if e.action.NsCreate? || e.action.NsReplicate? then ""
    else if Restores(s, e, f) then s.undos[f].content
    else
      var here := s.session.value;
      var seen := Sentences(View(s.files[f]));
      Concat(Before(seen, here.sentence)) + Join(here.words) + Concat(After(seen, here.sentence))
  }

  lemma CommitContent(s: Server, e: Event, f: string)
    requires Defined(s, e.action) && Commits(s, e)
    ensures var g := s.session.value.filename;
            Writes(s, e, g) && Step(s, e).0.files[g] == Written(s, e, g)
    ensures f != s.session.value.filename && f in s.files && f in Step(s, e).0.files ==>
              Step(s, e).0.files[f] == s.files[f]
  {
    var here := s.session.value;
    CommitText(Sentences(View(s.files[here.filename])), here.sentence, Join(here.words));
    hide View;
    hide Sentences;
    hide Spliced;
    hide Concat;
    hide Join;
    hide Idx.IndexFile;
    hide Lock.Release;
  }

  lemma StepContent(s: Server, e: Event, f: string)
    requires Defined(s, e.action) && f in Step(s, e).0.files
    ensures Writes(s, e, f) || f in s.files
    ensures Step(s, e).0.files[f] == if Writes(s, e, f) then Written(s, e, f) else s.files[f]
  {
    StepPresence(s, e, f);
    if Commits(s, e) {
      CommitContent(s, e, f);
      hide Step;
      hide Written;
    } else {
      hide View;
      hide Sentences;
      hide Concat;
      hide Join;
      hide Idx.IndexFile;
      hide Idx.RemoveFile;
      hide Lock.Acquire;
      hide Lock.Release;
      hide Lock.Cleaned;
    }
  }

  // ----- runs -----

  ghost predicate GivesAt(s: Server, events: seq<Event>, i: nat, f: string)
    requires i < |events|
  {
    Runs(s, events, i) && Gives(Reached(s, events, i), events[i], f)
  }

  ghost predicate KeepsAt(s: Server, events: seq<Event>, r: nat, f: string)
    requires r < |events|
  {
    Runs(s, events, r) && !Loses(Reached(s, events, r), events[r], f)
  }

  /** No event from `i` up to `n` takes the file away. */
  ghost predicate Kept(s: Server, events: seq<Event>, i: nat, n: nat, f: string)
    requires n <= |events|
  {
    forall r :: i <= r < n ==> KeepsAt(s, events, r, f)
  }

  /** The file was there at first or was given by some event, and no event took it away since. */
  ghost predicate GivenAndKept(s: Server, events: seq<Event>, n: nat, f: string)
    requires n <= |events|
  {
    || (f in s.files && Kept(s, events, 0, n, f))
    || exists i: nat :: i < n && GivesAt(s, events, i, f) && Kept(s, events, i + 1, n, f)
  }

  lemma GivenAndKeptStep(s: Server, events: seq<Event>, n: nat, f: string)
    requires 0 < n <= |events| && Runs(s, events, n) && Runs(s, events, n - 1)
    ensures var now, e := Reached(s, events, n - 1), events[n - 1];
            GivenAndKept(s, events, n, f) <==>
            Gives(now, e, f) || (GivenAndKept(s, events, n - 1, f) && !Loses(now, e, f))
  {
    hide Reached;
    hide Runs;
    hide Gives;
    hide Loses;
    var now, e := Reached(s, events, n - 1), events[n - 1];
    assert KeepsAt(s, events, n - 1, f) <==> !Loses(now, e, f);
    assert GivesAt(s, events, n - 1, f) <==> Gives(now, e, f);
    if GivenAndKept(s, events, n, f) && !Gives(now, e, f) {
      if f in s.files && Kept(s, events, 0, n, f) {
        assert Kept(s, events, 0, n - 1, f);
      } else {
        var i: nat :| i < n && GivesAt(s, events, i, f) && Kept(s, events, i + 1, n, f);
        assert Kept(s, events, i + 1, n - 1, f);
      }
    }
    if Gives(now, e, f) { assert Kept(s, events, n, n, f); }
    if GivenAndKept(s, events, n - 1, f) && !Loses(now, e, f) {
      if f in s.files && Kept(s, events, 0, n - 1, f) {
        assert Kept(s, events, 0, n, f);
      } else {
        var i: nat :| i < n - 1 && GivesAt(s, events, i, f) && Kept(s, events, i + 1, n - 1, f);
        assert Kept(s, events, i + 1, n, f);
      }
    }
  }

  lemma AtFirst(s: Server, events: seq<Event>, f: string)
    ensures Runs(s, events, 0) && (f in Reached(s, events, 0).files <==> GivenAndKept(s, events, 0, f))
  {}

  /** Over every run a file is on the server exactly if it was there or was given, and was not lost since. */
  lemma {:induction false} PresentIff(s: Server, events: seq<Event>, n: nat, f: string)
    requires n <= |events| && Runs(s, events, n)
    ensures f in Reached(s, events, n).files <==> GivenAndKept(s, events, n, f)
    decreases n
  {
    hide *;
    if n == 0 {
      AtFirst(s, events, f);
    } else {
      LastStep(s, events, n);
      PresentIff(s, events, n - 1, f);
      StepPresence(Reached(s, events, n - 1), events[n - 1], f);
      GivenAndKeptStep(s, events, n, f);
    }
  }

  ghost predicate WritesAt(s: Server, events: seq<Event>, i: nat, f: string)
    requires i < |events| && Runs(s, events, i + 1)
  {
    LastStep(s, events, i + 1);
    Writes(Reached(s, events, i), events[i], f)
  }

  ghost predicate NotWritten(s: Server, events: seq<Event>, r: nat, f: string)
    requires r < |events|
  {
    Runs(s, events, r) && !Writes(Reached(s, events, r), events[r], f)
  }

  /** The file keeps every byte as long as it is there and no event writes it. */
  lemma {:induction false} ContentStays(s: Server, events: seq<Event>, i: nat, n: nat, f: string)
    requires i <= n <= |events| && Runs(s, events, n) && Runs(s, events, i)
    requires f in Reached(s, events, n).files
    requires forall r :: i <= r < n ==> NotWritten(s, events, r, f)
    ensures f in Reached(s, events, i).files
    ensures Reached(s, events, n).files[f] == Reached(s, events, i).files[f]
    decreases n
  {
    if i < n {
      LastStep(s, events, n);
      hide Step;
      hide Writes;
      hide Written;
      assert NotWritten(s, events, n - 1, f);
      StepContent(Reached(s, events, n - 1), events[n - 1], f);
      ContentStays(s, events, i, n - 1, f);
    }
  }

  /** Over every run a file holds what the last event that wrote it has written. */
  lemma ContentIsLastWritten(s: Server, events: seq<Event>, i: nat, n: nat, f: string)
    requires i < n <= |events| && Runs(s, events, n) && Runs(s, events, i + 1) && WritesAt(s, events, i, f)
    requires f in Reached(s, events, n).files
    requires forall r :: i < r < n ==> NotWritten(s, events, r, f)
    ensures Runs(s, events, i) && Defined(Reached(s, events, i), events[i].action)
    ensures Writes(Reached(s, events, i), events[i], f)
    ensures Reached(s, events, n).files[f] == Written(Reached(s, events, i), events[i], f)
  {
    LastStep(s, events, i + 1);
    hide Step;
    hide Writes;
    hide Written;
    ContentStays(s, events, i + 1, n, f);
    StepContent(Reached(s, events, i), events[i], f);
  }

  // ----- what CREATE, REPLICATE, DELETE and UNDO answer -----

  /**
    The answers to the name server over every run. CREATE is a conflict exactly if the file is there by its
    history, and DELETE finds it exactly then.
  */
  lemma NsAnswers(s: Server, events: seq<Event>, n: nat, f: string)
    requires n < |events| && Runs(s, events, n + 1)
    ensures Runs(s, events, n) && Defined(Reached(s, events, n), events[n].action)
    ensures var code, there := Step(Reached(s, events, n), events[n]).1, GivenAndKept(s, events, n, f);
            && (events[n].action == NsCreate(f) ==> code == if there then ERR_CONFLICT else ERR_CREATED)
            && (events[n].action == NsReplicate(f) ==> code == ERR_SUCCESS)
            && (events[n].action == NsDelete(f) ==> code == if there then ERR_SUCCESS else ERR_NOT_FOUND)
  {
    LastStep(s, events, n + 1);
    PresentIff(s, events, n, f);
    hide Reached;
    hide Runs;
    hide GivenAndKept;
    hide Idx.IndexFile;
    hide Idx.RemoveFile;
  }

  lemma StepTidy(s: Server, e: Event)
    requires Idx.Tidy(s.index) && Defined(s, e.action)
    ensures Idx.Tidy(Step(s, e).0.index)
  {
    hide View;
    hide Sentences;
    hide Committed;
    hide Idx.Tidy;
    hide Idx.RemoveFile;
    hide Idx.IndexFile;
    hide Lock.Acquire;
    hide Lock.Release;
    hide Lock.Cleaned;
    match e.action {
      case NsCreate(f) => Idx.IndexStaysTidy(s.index, f, "");
      case NsDelete(f) => Idx.IndexStaysTidy(s.index, f, "");
      case Message(r) =>
        if Commits(s, e) {
          var here := s.session.value;
          Idx.IndexStaysTidy(s.index, here.filename, View(Committed(s.files[here.filename], here)));
        }
      case _ =>
    }
  }

  lemma {:induction false} TidyAlways(s: Server, events: seq<Event>, n: nat)
    requires Idx.Tidy(s.index) && n <= |events| && Runs(s, events, n)
    ensures Idx.Tidy(Reached(s, events, n).index)
  {
    hide Step;
    hide Idx.Tidy;
    if n > 0 {
      LastStep(s, events, n);
      TidyAlways(s, events, n - 1);
      StepTidy(Reached(s, events, n - 1), events[n - 1]);
    }
  }

  /**
    Over every run a DELETE of a file that is there removes it and takes it from the list of every word. No
    other file loses its bytes or its place in a list.
  */
  lemma DeleteForgets(s: Server, events: seq<Event>, n: nat, f: string)
    requires Idx.Tidy(s.index) && n < |events| && Runs(s, events, n + 1)
    requires events[n].action == NsDelete(f) && Runs(s, events, n) && GivenAndKept(s, events, n, f)
    ensures var before, now := Reached(s, events, n), Reached(s, events, n + 1);
            && f !in now.files && Unlisted(now.index, f)
            && now.files.Keys == before.files.Keys - {f}
            && (forall g :: g in now.files ==> now.files[g] == before.files[g])
            && forall w, g :: g != f ==> (g in Idx.Files(now.index, w) <==> g in Idx.Files(before.index, w))
  {
    LastStep(s, events, n + 1);
    PresentIff(s, events, n, f);
    TidyAlways(s, events, n);
    DeleteLists(Reached(s, events, n), f);
    hide Reached;
    hide Runs;
    hide GivenAndKept;
    hide Idx.RemoveFile;
    hide Idx.Files;
  }

  // ----- what UNDO answers -----

  /** A START on the file succeeded, and neither a START nor an UNDO of it since. */
  ghost predicate CanUndo(s: Server, events: seq<Event>, n: nat, f: string)
    requires n <= |events|
  {
    exists i: nat :: i < n && StartedAt(s, events, i, n, f)
  }

  ghost predicate StartedAt(s: Server, events: seq<Event>, i: nat, n: nat, f: string)
    requires i < n <= |events|
  {
    Runs(s, events, i + 1) && Starts(s, events, i, f) && Untouched(s, events, i + 1, n, f)
  }

  lemma StepAvailable(s: Server, e: Event, f: string)
    requires Defined(s, e.action)
    ensures var begun := e.action.Message? && !s.inLoop && e.action.request.WriteStart?
                         && e.action.request.filename == f && Step(s, e).1 == ERR_SUCCESS;
            var undone := e.action == Message(UndoFile(f)) && !s.inLoop && Step(s, e).1 == ERR_SUCCESS;
            Buf.Available(Step(s, e).0.undos, f) <==> begun || (Buf.Available(s.undos, f) && !undone)
  {
    if e.action.Message? && e.action.request.WriteStart? && e.action.request.filename in s.files {
      ViewIsWhole(s.files[e.action.request.filename]);
    }
    hide View;
    hide Sentences;
    hide Committed;
    hide Idx.IndexFile;
    hide Idx.RemoveFile;
    hide Lock.Acquire;
    hide Lock.Release;
    hide Lock.Cleaned;
  }

  lemma CanUndoStep(s: Server, events: seq<Event>, n: nat, f: string)
    requires 0 < n <= |events| && Runs(s, events, n) && Runs(s, events, n - 1)
    ensures CanUndo(s, events, n, f) <==>
            Starts(s, events, n - 1, f) || (CanUndo(s, events, n - 1, f) && !Undoes(s, events, n - 1, f))
  {
    hide Starts;
    hide Undoes;
    hide Runs;
    if Starts(s, events, n - 1, f) {
      assert StartedAt(s, events, n - 1, n, f);
    } else if CanUndo(s, events, n, f) {
      var i: nat :| i < n && StartedAt(s, events, i, n, f);
      assert PassesBy(s, events, n - 1, f);
      assert StartedAt(s, events, i, n - 1, f);
    }
    if CanUndo(s, events, n - 1, f) && !Starts(s, events, n - 1, f) && !Undoes(s, events, n - 1, f) {
      var i: nat :| i < n - 1 && StartedAt(s, events, i, n - 1, f);
      assert StartedAt(s, events, i, n, f);
    }
  }

  lemma {:induction false} AvailableIff(s: Server, events: seq<Event>, n: nat, f: string)
    requires !Buf.Available(s.undos, f) && n <= |events| && Runs(s, events, n)
    ensures Buf.Available(Reached(s, events, n).undos, f) <==> CanUndo(s, events, n, f)
    decreases n
  {
    if n > 0 {
      hide Step;
      hide Buf.Available;
      hide CanUndo;
      LastStep(s, events, n);
      AvailableIff(s, events, n - 1, f);
      StepAvailable(Reached(s, events, n - 1), events[n - 1], f);
      CanUndoStep(s, events, n, f);
    }
  }

  /**
    What UNDO answers over every run that begins with nothing to undo: it succeeds exactly if a START on the
    file did, and neither a START nor an UNDO of it has since. Otherwise it changes nothing.
  */
  lemma UndoAnswers(s: Server, events: seq<Event>, n: nat, f: string)
    requires !Buf.Available(s.undos, f) && n <= |events| && Runs(s, events, n)
    ensures var (undone, code) := UndoStep(Reached(s, events, n), f);
            if CanUndo(s, events, n, f) then code == ERR_SUCCESS
            else undone == Reached(s, events, n) && code == ERR_NOT_FOUND
  {
    AvailableIff(s, events, n, f);
    hide Reached;
    hide CanUndo;
  }
}
