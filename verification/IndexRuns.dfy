/** The inverted index agrees with a scan of the files, over whole runs of the storage server. */
module IndexRuns {
  import opened Text
  import opened Protocol
  import opened SentenceParser
  import opened Splitting
  import opened WordParser
  import opened CommitSplice
  import opened StorageServer
  import opened StorageRuns
  import Idx = InvertedIndex

  type Directory = map<string, string>

  /** A scan of the file finds the word. */
  predicate Contains(files: Directory, f: string, w: string) {
    f in files && w in Idx.Tokens(View(files[f]))
  }

  /** Whatever is listed exists and contains the word. */
  ghost predicate Sound(files: Directory, index: Idx.Index) {
    forall w, f :: f in Idx.Files(index, w) ==> Contains(files, f, w)
  }

  /** Whatever contains the word is listed. */
  ghost predicate Complete(files: Directory, index: Idx.Index) {
    forall w, f :: Contains(files, f, w) ==> f in Idx.Files(index, w)
  }

  ghost function Holders(files: Directory, w: string): set<string> {
    set f | f in files && Contains(files, f, w)
  }

  /** No word is in more files than a file list has room for. */
  ghost predicate Capped(files: Directory) {
    forall w :: |Holders(files, w)| <= Idx.MAX_FILES_PER_WORD
  }

  // ----- re-indexing one file -----

  /** `files` is `before` with one file changed; the index is still about `before`. */
  lemma ReindexSound(before: Directory, files: Directory, index: Idx.Index, f: string)
    requires Idx.Tidy(index) && f in files
    requires forall w, g :: g != f && g in Idx.Files(index, w) ==> Contains(files, g, w)
    requires View(files[f]) == "" ==> forall w :: f !in Idx.Files(index, w)
    ensures Sound(files, Idx.IndexFile(index, f, View(files[f])))
  {
    hide Idx.Tokens;
    var content := View(files[f]);
    forall w, g | g in Idx.Files(Idx.IndexFile(index, f, content), w) ensures Contains(files, g, w) {
      if content != "" {
        Idx.ReindexRelation(index, f, content, w, g);
        Idx.TokensAreRuns(content, w);
      }
    }
  }

  lemma ListedAreHolders(files: Directory, index: Idx.Index, f: string, w: string)
    requires Idx.Tidy(index) && Contains(files, f, w)
    requires forall g :: g != f && g in Idx.Files(index, w) ==> Contains(files, g, w)
    ensures |Without(Idx.Files(index, w), f)| < |Holders(files, w)|
  {
    var others := Without(Idx.Files(index, w), f);
    WithoutMembers(Idx.Files(index, w), f);
    assert NoDuplicates(others) && f !in others;
    DistinctCount(others);
    var listed := set g | g in others;
    assert listed <= Holders(files, w) - {f};
    SubsetSize(listed, Holders(files, w) - {f});
  }

  lemma {:induction false} DistinctCount(s: seq<string>)
    requires NoDuplicates(s)
    ensures |set x | x in s| == |s|
  {
    if s != [] {
      DistinctCount(s[1..]);
      assert s[0] !in s[1..];
      assert (set x | x in s) == (set x | x in s[1..]) + {s[0]};
    }
  }

  /** A complete index shows that no word has outgrown its file list. */
  lemma CompleteIsCapped(files: Directory, index: Idx.Index)
    requires Idx.Tidy(index) && Complete(files, index)
    ensures Capped(files)
  {
    hide Contains;
    forall w ensures |Holders(files, w)| <= Idx.MAX_FILES_PER_WORD {
      var listed := Idx.Files(index, w);
      DistinctCount(listed);
      SubsetSize(Holders(files, w), set g | g in listed);
    }
  }

  lemma ReindexComplete(files: Directory, index: Idx.Index, f: string)
    requires Idx.Tidy(index) && f in files && Capped(files)
    requires forall w, g :: g != f && g in Idx.Files(index, w) ==> Contains(files, g, w)
    requires forall w, g :: g != f && Contains(files, g, w) ==> g in Idx.Files(index, w)
    ensures Complete(files, Idx.IndexFile(index, f, View(files[f])))
  {
    hide Idx.Tokens;
    var content := View(files[f]);
    forall w, g | Contains(files, g, w) ensures g in Idx.Files(Idx.IndexFile(index, f, content), w) {
      if content != "" {
        Idx.ReindexRelation(index, f, content, w, g);
        if g == f {
          Idx.TokensAreRuns(content, w);
          ListedAreHolders(files, index, f, w);
          assert |Holders(files, w)| <= Idx.MAX_FILES_PER_WORD;
        }
      } else {
        NoTokens(w);
      }
    }
  }

  lemma NoTokens(w: string)
    ensures w !in Idx.Tokens("")
  {}

  // ----- a session that empties its file -----

  /** If the session would commit an empty file, no word of the file is indexable in the first place. */
  ghost predicate EmptyingIsHarmless(s: Server) {
    s.session.Some? && CanCommit(s) &&
    Committed(s.files[s.session.value.filename], s.session.value) == "" ==>
      Idx.Tokens(View(s.files[s.session.value.filename])) == []
  }

  lemma {:induction false} BlankHasNoTokens(s: string)
    requires Words(s) == []
    ensures Idx.Tokens(s) == []
    decreases |s|
  {
    if s != "" {
      BlankHasNoTokens(s[1..]);
    }
  }

  lemma JoinEmpty(ws: seq<string>)
    ensures Join(ws) == "" <==> ws == [] || ws == [""]
  {}

  lemma {:induction false} ConcatEmpty(list: seq<string>)
    requires forall i :: 0 <= i < |list| ==> list[i] != ""
    ensures Concat(list) == "" ==> list == []
  {
    if list != [] {
      assert |Concat(list)| >= |list[0]| > 0;
    }
  }

  /** A fresh session commits an empty file only if the old content was blank. */
  lemma FreshSessionHarmless(content: string, k: nat)
    requires k <= |Sentences(content)|
    requires Concat(Spliced(Sentences(content), k, Join(StartWords(Sentences(content), k)))) == ""
    ensures Idx.Tokens(content) == []
  {
    var list := Sentences(content);
    var words := StartWords(list, k);
    hide Sentences;
    hide Words;
    hide Idx.Tokens;
    ParseIsCanonical(content);
    CommitText(list, k, Join(words));
    ConcatEmpty(Before(list, k));
    ConcatEmpty(After(list, k));
    JoinEmpty(words);
    if k < |list| {
      WordsAreWords(list[k]);
      assert words == [];
      assert k == 0 && |list| == 1;
      assert list[1..] == [] && Concat(list) == list[0] + Concat([]);
      assert content == list[0];
      BlankHasNoTokens(content);
    } else {
      assert content == "";
      assert Idx.Tokens("") == [] by { EmptyHasNoTokens(); }
    }
  }

  lemma EmptyHasNoTokens()
    ensures Idx.Tokens("") == []
  {}

  lemma StartHarmless(s: Server, filename: string, sentence: int, client: string, now: int)
    requires EmptyingIsHarmless(s)
    ensures EmptyingIsHarmless(Start(s, filename, sentence, client, now).0)
  {
    hide Sentences;
    hide View;
    hide Idx.Tokens;
    hide Spliced;
    hide Concat;
    hide Join;
    var (s', code) := Start(s, filename, sentence, client, now);
    if code == ERR_SUCCESS && Committed(s'.files[filename], s'.session.value) == "" {
      FreshSessionHarmless(View(s.files[filename]), sentence);
    }
  }

  lemma UpdateHarmless(s: Server, index: int, word: string)
    requires EmptyingIsHarmless(s)
    ensures EmptyingIsHarmless(UpdateWord(s, index, word).0)
  {
    hide Sentences;
    hide View;
    hide Idx.Tokens;
    var (s', code) := UpdateWord(s, index, word);
    if code == ERR_SUCCESS && CanCommit(s') && Committed(s'.files[s'.session.value.filename], s'.session.value) == "" {
      var session := s.session.value;
      var list := Sentences(View(s.files[session.filename]));
      var k := session.sentence;
      CommitText(list, k, Join(session.words));
      CommitText(list, k, Join(s'.session.value.words));
      JoinEmpty(session.words);
      JoinEmpty(s'.session.value.words);
      assert session.words == [];
    }
  }

  // ----- a session never writes a NUL, so a file it does not empty is not seen as empty -----

  predicate WordsNulFree(ws: seq<string>) {
    forall i :: 0 <= i < |ws| ==> NulFree(ws[i])
  }

  predicate SessionNulFree(s: Server) {
    s.session.Some? ==> WordsNulFree(s.session.value.words)
  }

  lemma {:induction false} WordsOfNulFree(s: string)
    requires NulFree(s)
    ensures WordsNulFree(Words(s))
    decreases |s|
  {
    if s != "" {
      var n := if IsSpace(s[0]) then 1 else TokenLength(s, WhiteSpace);
      assert s == s[..n] + s[n..];
      WordsOfNulFree(s[n..]);
    }
  }

  lemma {:induction false} JoinNulFree(ws: seq<string>)
    requires WordsNulFree(ws)
    ensures NulFree(Join(ws))
  {
    if |ws| > 1 {
      JoinNulFree(ws[1..]);
    }
  }

  lemma CommittedNulFree(bytes: string, session: WriteSession)
    requires WordsNulFree(session.words)
    ensures var content := Committed(bytes, session); View(content) == "" <==> content == ""
  {
    var content := View(bytes);
    var list, k := Sentences(content), session.sentence;
    ViewIsWhole(bytes);
    hide View;
    hide Sentences;
    ParseIsCanonical(content);
    JoinNulFree(session.words);
    hide Join;
    hide Canonical;
    hide WordsNulFree;
    CommitText(list, k, Join(session.words));
    EdgesNulFree(list, k);
    hide Concat;
    hide Spliced;
    FirstSeen(Committed(bytes, session));
  }

  lemma EdgesNulFree(list: seq<string>, k: nat)
    requires NulFree(Concat(list))
    ensures NulFree(Concat(Before(list, k))) && NulFree(Concat(After(list, k)))
  {
    var middle := if k < |list| then [list[k]] else [];
    assert list == Before(list, k) + middle + After(list, k);
    ConcatAppend(Before(list, k) + middle, After(list, k));
    ConcatAppend(Before(list, k), middle);
    hide Concat;
    hide Before;
    hide After;
  }

  lemma FirstSeen(content: string)
    requires NulFree(content)
    ensures View(content) == "" <==> content == ""
  {
    if content != "" {
      var seen := if |content| < MAX_CONTENT_LEN then content else content[..MAX_CONTENT_LEN - 1];
      assert seen[0] == content[0];
    }
  }

  lemma StepKeepsNulFree(s: Server, e: Event)
    requires SessionNulFree(s) && Defined(s, e.action)
    ensures SessionNulFree(Step(s, e).0)
  {
    hide Sentences;
    hide View;
    hide Words;
    hide Committed;
    if e.action.Message? && !s.inLoop && e.action.request.WriteStart? && e.action.request.filename in s.files {
      var bytes := s.files[e.action.request.filename];
      var list, k := Sentences(View(bytes)), e.action.request.sentence;
      if 0 <= k < |list| {
        ViewIsWhole(bytes);
        PartNulFree(View(bytes), k);
        WordsOfNulFree(list[k]);
      }
    }
  }

  lemma PartNulFree(content: string, k: nat)
    requires NulFree(content) && k < |Sentences(content)|
    ensures NulFree(Sentences(content)[k])
  {
    hide Sentences;
    var list := Sentences(content);
    ParseIsCanonical(content);
    assert list == list[..k] + [list[k]] + list[k + 1..];
    ConcatAppend(list[..k] + [list[k]], list[k + 1..]);
    ConcatSnoc(list[..k], list[k]);
  }

  // ----- steps -----

  /** What every step keeps. */
  ghost predicate IndexInv(s: Server) {
    Idx.Tidy(s.index) && Sound(s.files, s.index) && EmptyingIsHarmless(s) && SessionNulFree(s)
  }

  /** The name a commit writes under before it renames. */
  function TempName(s: Server): string
    requires s.session.Some?
  {
    s.session.value.filename + ".tmp"
  }

  ghost predicate Unlisted(index: Idx.Index, f: string) {
    forall w :: f !in Idx.Files(index, w)
  }

  lemma OldContentUnlisted(s: Server)
    requires IndexInv(s) && CanCommit(s) && s.session.Some?
    ensures var f := s.session.value.filename;
            View(Committed(s.files[f], s.session.value)) == "" ==> Unlisted(s.index, f)
  {
    var f := s.session.value.filename;
    CommittedNulFree(s.files[f], s.session.value);
    hide View;
    hide Committed;
    hide Idx.Tokens;
    if View(Committed(s.files[f], s.session.value)) == "" {
      forall w ensures f !in Idx.Files(s.index, w) {
        assert f in Idx.Files(s.index, w) ==> Contains(s.files, f, w);
      }
    }
  }

  /** The commit leaves a file without text although some word lists it: empty content is not re-indexed. */
  ghost predicate EmptiesListed(s: Server)
    requires s.session.Some? && CanCommit(s)
  {
    var f := s.session.value.filename;
    View(Committed(s.files[f], s.session.value)) == "" && !Unlisted(s.index, f)
  }

  /**
    A commit keeps the index sound exactly when no word lists a file named like the temporary file, which is
    overwritten and renamed away without leaving the index, and the commit does not empty a listed file.
  */
  lemma CommitSound(s: Server)
    requires Idx.Tidy(s.index) && Sound(s.files, s.index) && CanCommit(s) && s.session.Some?
    ensures var s' := Commit(s).0;
            Sound(s'.files, s'.index) <==> Unlisted(s.index, TempName(s)) && !EmptiesListed(s)
  {
    var s', f, tmp := Commit(s).0, s.session.value.filename, TempName(s);
    var content := View(s'.files[f]);
    assert |tmp| > |f|;
    EmptyHasNoTokens();
    hide View;
    hide Committed;
    hide Idx.Tokens;
    if !Unlisted(s.index, tmp) {
      var w :| tmp in Idx.Files(s.index, w);
      if content != "" {
        Idx.ReindexRelation(s.index, f, content, w, tmp);
      }
      assert tmp in Idx.Files(s'.index, w) && !Contains(s'.files, tmp, w);
    } else if EmptiesListed(s) {
      var w :| f in Idx.Files(s.index, w);
      assert f in Idx.Files(s'.index, w) && !Contains(s'.files, f, w);
    } else {
      CommitOthers(s);
      ReindexSound(s.files, s'.files, s.index, f);
    }
  }

  /** Sessions opened since the last UNDO never empty a listed file, so then the temporary name decides. */
  lemma CommitSoundIff(s: Server)
    requires IndexInv(s) && CanCommit(s) && s.session.Some?
    ensures var s' := Commit(s).0;
            Sound(s'.files, s'.index) <==> Unlisted(s.index, TempName(s))
  {
    OldContentUnlisted(s);
    CommitSound(s);
  }

  /** The other files of a commit are what they were. */
  lemma CommitOthers(s: Server)
    requires CanCommit(s) && s.session.Some? && Unlisted(s.index, TempName(s))
    ensures var s', f := Commit(s).0, s.session.value.filename;
            && (forall g, w :: g != f && Contains(s'.files, g, w) ==> Contains(s.files, g, w))
            && (forall g, w :: g != f && g in Idx.Files(s.index, w) && Contains(s.files, g, w) ==>
                  Contains(s'.files, g, w))
  {
    hide View;
    hide Committed;
    hide Idx.Tokens;
  }

  lemma CommitKeepsIndex(s: Server)
    requires IndexInv(s) && CanCommit(s) && s.session.Some? && Unlisted(s.index, TempName(s))
    ensures var s' := Commit(s).0;
            && IndexInv(s')
            && (Complete(s.files, s.index) && Capped(s'.files) ==> Complete(s'.files, s'.index))
  {
    hide View;
    hide Committed;
    hide Idx.Tokens;
    hide Idx.Tidy;
    hide Capped;
    CommitSoundIff(s);
    var s', f := Commit(s).0, s.session.value.filename;
    Idx.IndexStaysTidy(s.index, f, View(s'.files[f]));
    if Complete(s.files, s.index) && Capped(s'.files) {
      CommitOthers(s);
      ReindexComplete(s'.files, s.index, f);
    }
  }

  lemma DeleteLists(s: Server, f: string)
    requires Idx.Tidy(s.index)
    ensures forall w, g :: g in Idx.Files(Idx.RemoveFile(s.index, f), w) <==> g in Idx.Files(s.index, w) && g != f
  {
    forall w
      ensures forall g :: g in Idx.Files(Idx.RemoveFile(s.index, f), w) <==> g in Idx.Files(s.index, w) && g != f
    {
      Idx.RemoveFileLists(s.index, f, w);
      WithoutMembers(Idx.Files(s.index, w), f);
    }
  }

  lemma DeleteKeepsIndex(s: Server, f: string)
    requires IndexInv(s)
    ensures var s' := DeleteStep(s, f).0;
            && IndexInv(s')
            && (Complete(s.files, s.index) ==> Complete(s'.files, s'.index))
  {
    var s' := DeleteStep(s, f).0;
    Idx.IndexStaysTidy(s.index, f, "");
    DeleteLists(s, f);
    hide Idx.RemoveFile;
    hide Idx.Tokens;
    hide Idx.Files;
    hide View;
    hide Sentences;
    hide Committed;
    hide Join;
  }

  /** A new file is empty, so it holds no word and a session on its name would find nothing to lose. */
  lemma EmptyFileKeepsIndex(s: Server, f: string)
    requires IndexInv(s) && f !in s.files
    ensures var s' := s.(files := s.files[f := ""]);
            && IndexInv(s')
            && (Complete(s.files, s.index) ==> Complete(s'.files, s'.index))
  {
    EmptyHasNoTokens();
    assert View("") == "";
    hide Idx.Tokens;
    hide Idx.Files;
    hide View;
    hide Sentences;
    hide Committed;
    hide Join;
  }

  // ----- undo, which does not re-index -----

  ghost predicate Agrees(s: Server) {
    Sound(s.files, s.index) && Complete(s.files, s.index)
  }

  /** The file holds every word of the text. */
  ghost predicate HoldsWordsOf(files: Directory, f: string, text: string) {
    forall w :: w in Idx.Tokens(text) ==> Contains(files, f, w)
  }

  /** The text holds every word of the file. */
  ghost predicate HasWordsOf(text: string, files: Directory, f: string) {
    forall w :: Contains(files, f, w) ==> w in Idx.Tokens(text)
  }

  ghost predicate SameWords(files: Directory, f: string, text: string) {
    HoldsWordsOf(files, f, text) && HasWordsOf(text, files, f)
  }

  /**
    UNDO does not re-index. An index that agrees with the files stays sound exactly when the restored text
    has every word of the present one, and complete exactly when it has no other.
  */
  lemma UndoAgreesIff(s: Server, f: string)
    requires Agrees(s) && UndoStep(s, f).1 == ERR_SUCCESS
    ensures var s', text := UndoStep(s, f).0, View(s.undos[f].content);
            && (Sound(s'.files, s'.index) <==> HasWordsOf(text, s.files, f))
            && (Complete(s'.files, s'.index) <==> HoldsWordsOf(s.files, f, text))
  {
    hide Idx.Tokens;
    hide View;
    var s', text := UndoStep(s, f).0, View(s.undos[f].content);
    forall w
      ensures f in Idx.Files(s.index, w) <==> Contains(s.files, f, w)
      ensures Contains(s'.files, f, w) <==> w in Idx.Tokens(text)
    {}
    forall w, g | g != f
      ensures Contains(s'.files, g, w) <==> Contains(s.files, g, w)
      ensures g in Idx.Files(s.index, w) <==> Contains(s.files, g, w)
    {}
  }

  /**
    Over whole runs: an UNDO leaves the index in agreement exactly when the file holds the same words as it
    did at the latest START on it.
  */
  lemma UndoAfterStartIff(s: Server, events: seq<Event>, i: nat, n: nat, f: string)
    requires i < n <= |events| && Runs(s, events, n) && Runs(s, events, i + 1)
    requires Starts(s, events, i, f) && Untouched(s, events, i + 1, n, f)
    requires Agrees(Reached(s, events, n))
    ensures Runs(s, events, i) && f in Reached(s, events, i).files
    ensures var now, seen := Reached(s, events, n), View(Reached(s, events, i).files[f]);
            Agrees(UndoStep(now, f).0) <==> SameWords(now.files, f, seen)
  {
    hide *;
    UndoEntryAfterStart(s, events, i, n, f);
    UndoAgreesIff(Reached(s, events, n), f);
    AgreesIs(UndoStep(Reached(s, events, n), f).0);
    SameWordsIs(Reached(s, events, n).files, f, View(Reached(s, events, i).files[f]));
  }

  lemma AgreesIs(s: Server)
    ensures Agrees(s) <==> Sound(s.files, s.index) && Complete(s.files, s.index)
  {}

  lemma SameWordsIs(files: Directory, f: string, text: string)
    ensures SameWords(files, f, text) <==> HoldsWordsOf(files, f, text) && HasWordsOf(text, files, f)
  {}

  lemma SameWordsMeans(files: Directory, f: string, text: string)
    requires f in files
    ensures HoldsWordsOf(files, f, text) && HasWordsOf(text, files, f) <==>
            forall w :: w in Idx.Tokens(text) <==> w in Idx.Tokens(View(files[f]))
  {
    hide Idx.Tokens;
    hide View;
    var held := View(files[f]);
    if !HoldsWordsOf(files, f, text) {
      var w :| w in Idx.Tokens(text) && !Contains(files, f, w);
      assert w !in Idx.Tokens(held);
    } else if !HasWordsOf(text, files, f) {
      var w :| Contains(files, f, w) && w !in Idx.Tokens(text);
      assert w in Idx.Tokens(held);
    } else {
      forall w ensures w in Idx.Tokens(text) <==> w in Idx.Tokens(held) {
        assert Contains(files, f, w) <==> w in Idx.Tokens(held);
      }
    }
  }

  lemma UndoEntryAfterStart(s: Server, events: seq<Event>, i: nat, n: nat, f: string)
    requires i < n <= |events| && Runs(s, events, n) && Runs(s, events, i + 1)
    requires Starts(s, events, i, f) && Untouched(s, events, i + 1, n, f)
    ensures Runs(s, events, i) && f in Reached(s, events, i).files && f in Reached(s, events, n).undos
    ensures UndoStep(Reached(s, events, n), f).1 == ERR_SUCCESS
    ensures View(Reached(s, events, n).undos[f].content) == View(Reached(s, events, i).files[f])
  {
    var before, now := Reached(s, events, i), Reached(s, events, n);
    var r := events[i].action.request;
    StartSaves(before, f, r.sentence, r.client, events[i].at);
    UndoKept(s, events, i + 1, n, f);
    ViewIsWhole(before.files[f]);
    ViewIsWhole(View(before.files[f]));
    hide View;
    hide Sentences;
    hide Commit;
    hide Runs;
  }

  /** The server after some updates in its session. */
  function Updated(s: Server, us: seq<Update>): Server
    decreases |us|
  {
    if us == [] then s else Updated(UpdateWord(s, us[0].index, us[0].word).0, us[1..])
  }

  lemma {:induction false} UpdatedSession(s: Server, us: seq<Update>)
    requires s.session.Some?
    ensures var here := s.session.value; Updated(s, us) == s.(session := Some(here.(words := ApplyAll(here.words, us))))
    decreases |us|
  {
    if us != [] {
      var next := UpdateWord(s, us[0].index, us[0].word).0;
      assert us[0] == Update(us[0].index, us[0].word);
      UpdatedSession(next, us[1..]);
    }
  }

  /**
    One whole session and its undoing: START, any updates, COMMIT, UNDO. If the index agrees after the commit,
    it agrees after the UNDO exactly when the committed text has the words of the text the session began with.
  */
  lemma UndoOfSessionIff(s: Server, f: string, k: int, client: string, now: int, us: seq<Update>)
    requires Start(s, f, k, client, now).1 == ERR_SUCCESS
    requires CanCommit(Updated(Start(s, f, k, client, now).0, us))
    requires Agrees(Commit(Updated(Start(s, f, k, client, now).0, us)).0)
    ensures f in s.files && k >= 0
    ensures var done := Commit(Updated(Start(s, f, k, client, now).0, us)).0;
            var words := ApplyAll(StartWords(Sentences(View(s.files[f])), k), us);
            var text := Committed(s.files[f], WriteSession(f, k, client, words));
            && f in done.files && done.files[f] == text
            && (Agrees(UndoStep(done, f).0) <==>
                  forall w :: w in Idx.Tokens(View(s.files[f])) <==> w in Idx.Tokens(View(text)))
  {
    hide Idx.Tokens;
    hide Idx.IndexFile;
    hide Sound;
    hide Complete;
    hide Agrees;
    hide Sentences;
    hide Words;
    var begun := Start(s, f, k, client, now).0;
    UpdatedSession(begun, us);
    hide Updated;
    StartSaves(s, f, k, client, now);
    ViewIsWhole(s.files[f]);
    ViewIsWhole(View(s.files[f]));
    hide View;
    hide Committed;
    var done := Commit(Updated(begun, us)).0;
    assert done.undos[f].content == View(s.files[f]);
    UndoAgreesIff(done, f);
    AgreesIs(UndoStep(done, f).0);
    SameWordsMeans(done.files, f, View(s.files[f]));
  }

  // ----- runs -----

  /** A step that re-indexes what it changes: any but an UNDO and a commit over an indexed temporary name. */
  ghost predicate Reindexes(s: Server, a: Action) {
    && (a.Message? && a.request.UndoFile? ==> s.inLoop)
    && (a == Message(WriteCommit) && s.inLoop && s.session.Some? ==> Unlisted(s.index, TempName(s)))
  }

  /** The index stays sound, and a complete index stays complete exactly if no word outgrows its file list. */
  ghost predicate KeepsIndex(s: Server, s': Server) {
    && IndexInv(s')
    && (Complete(s.files, s.index) ==> (Complete(s'.files, s'.index) <==> Capped(s'.files)))
  }

  lemma KeepsIndexIf(s: Server, s': Server)
    requires IndexInv(s')
    requires Complete(s.files, s.index) && Capped(s'.files) ==> Complete(s'.files, s'.index)
    ensures KeepsIndex(s, s')
  {
    hide Idx.Tidy;
    hide Sound;
    hide Capped;
    hide Complete;
    hide EmptyingIsHarmless;
    hide SessionNulFree;
    if Complete(s'.files, s'.index) { CompleteIsCapped(s'.files, s'.index); }
  }

  lemma SameFilesKeepIndex(s: Server, s': Server)
    requires IndexInv(s) && s'.files == s.files && s'.index == s.index
    requires s'.session.None? || (EmptyingIsHarmless(s') && SessionNulFree(s'))
    ensures KeepsIndex(s, s')
  {
    KeepsIndexIf(s, s');
  }

  lemma LoopKeepsIndex(s: Server, r: Request)
    requires IndexInv(s) && s.inLoop && Defined(s, Message(r)) && Reindexes(s, Message(r))
    ensures KeepsIndex(s, LoopMessage(s, r).0)
  {
    StepKeepsNulFree(s, Event(0, Message(r)));
    hide KeepsIndex;
    hide View;
    hide Sentences;
    hide Committed;
    hide Sound;
    hide Join;
    if r.WriteCommit? && s.session.Some? {
      CommitKeepsIndex(s);
      assert KeepsIndex(s, Commit(s).0) by { CommitKeepsAsKept(s); }
      FlagKeepsIndex(s, Commit(s).0, LoopMessage(s, r).0);
    } else {
      if r.WriteUpdate? { UpdateHarmless(s, r.index, r.word); }
      SameFilesKeepIndex(s, LoopMessage(s, r).0);
    }
  }

  lemma CommitKeepsAsKept(s: Server)
    requires IndexInv(s) && CanCommit(s) && s.session.Some? && Unlisted(s.index, TempName(s))
    ensures KeepsIndex(s, Commit(s).0)
  {
    hide Sound;
    hide View;
    hide Committed;
    CommitKeepsIndex(s);
    KeepsIndexIf(s, Commit(s).0);
  }

  lemma FlagKeepsIndex(s: Server, mid: Server, s': Server)
    requires KeepsIndex(s, mid) && s' == mid.(inLoop := s'.inLoop)
    ensures KeepsIndex(s, s')
  {
    hide Sound;
    hide View;
    hide Committed;
  }

  lemma FirstKeepsIndex(s: Server, r: Request, now: int)
    requires IndexInv(s) && !s.inLoop && Defined(s, Message(r)) && Reindexes(s, Message(r))
    ensures KeepsIndex(s, FirstMessage(s, r, now).0)
  {
    StepKeepsNulFree(s, Event(now, Message(r)));
    if r.WriteStart? {
      StartHarmless(s, r.filename, r.sentence, r.client, now);
    }
    hide KeepsIndex;
    hide View;
    hide Sentences;
    hide Committed;
    hide Sound;
    hide Join;
    SameFilesKeepIndex(s, FirstMessage(s, r, now).0);
  }

  lemma CreateKeepsIndex(s: Server, f: string)
    requires IndexInv(s) && f !in s.files
    ensures KeepsIndex(s, s.(files := s.files[f := ""])) && KeepsIndex(s, CreateStep(s, f).0)
  {
    EmptyFileKeepsIndex(s, f);
    NothingIndexed(s.index, f);
    KeepsIndexIf(s, s.(files := s.files[f := ""]));
    hide IndexInv;
    hide Complete;
    hide Capped;
    assert CreateStep(s, f).0 == s.(files := s.files[f := ""]);
  }

  /**
    A step that re-indexes what it changes keeps the index sound. It keeps a complete index complete exactly
    when afterwards no word is in more than 50 files.
  */
  lemma StepKeepsIndex(s: Server, e: Event)
    requires IndexInv(s) && Defined(s, e.action) && Reindexes(s, e.action)
    ensures KeepsIndex(s, Step(s, e).0)
  {
    hide IndexInv;
    hide Complete;
    hide Capped;
    match e.action {
      case Message(r) =>
        if s.inLoop { LoopKeepsIndex(s, r); } else { FirstKeepsIndex(s, r, e.at); }
      case NsCreate(f) =>
        if f in s.files { NothingChanges(s); } else { CreateKeepsIndex(s, f); }
      case NsReplicate(f) =>
        if f in s.files { NothingChanges(s); } else { CreateKeepsIndex(s, f); }
      case NsDelete(f) =>
        DeleteKeepsIndex(s, f);
        KeepsIndexIf(s, DeleteStep(s, f).0);
      case Disconnect =>
        NothingChanges(s);
        assert SameIndexPart(s, Step(s, e).0);
      case Cleanup =>
        NothingChanges(s);
        assert SameIndexPart(s, Step(s, e).0);
    }
  }

  predicate SameIndexPart(s: Server, s': Server) {
    s'.files == s.files && s'.index == s.index && (s'.session == s.session || s'.session.None?)
  }

  lemma NothingChanges(s: Server)
    requires IndexInv(s)
    ensures KeepsIndex(s, s)
    ensures forall s': Server | SameIndexPart(s, s') :: KeepsIndex(s, s')
  {
    hide Sound;
    hide View;
    hide Committed;
    KeepsIndexIf(s, s);
  }

  lemma NothingIndexed(index: Idx.Index, f: string)
    ensures Idx.IndexFile(index, f, "") == index
  {}

  /** Every step of the run re-indexes what it changes. */
  ghost predicate IndexRun(s: Server, events: seq<Event>, n: nat)
    requires n <= |events| && Runs(s, events, n)
    decreases n
  {
    n > 0 ==> IndexRun(s, events, n - 1) && Reindexes(Reached(s, events, n - 1), events[n - 1].action)
  }

  /** No word is in too many files in any state of the run. */
  ghost predicate CappedRun(s: Server, events: seq<Event>, n: nat)
    requires n <= |events| && Runs(s, events, n)
    decreases n
  {
    Capped(Reached(s, events, n).files) && (n > 0 ==> CappedRun(s, events, n - 1))
  }

  /** The index is complete in every state of the run. */
  ghost predicate CompleteRun(s: Server, events: seq<Event>, n: nat)
    requires n <= |events| && Runs(s, events, n)
    decreases n
  {
    Complete(Reached(s, events, n).files, Reached(s, events, n).index) && (n > 0 ==> CompleteRun(s, events, n - 1))
  }

  /**
    Over whole runs every listed file exists and contains the word. Every file that contains it is listed, in
    all states, exactly if that is so at first and in no state a word is in more than 50 files.
  */
  lemma {:induction false} IndexAgrees(s: Server, events: seq<Event>, n: nat)
    requires n <= |events| && Runs(s, events, n) && IndexRun(s, events, n)
    requires IndexInv(s)
    ensures IndexInv(Reached(s, events, n))
    ensures CompleteRun(s, events, n) <==> Complete(s.files, s.index) && CappedRun(s, events, n)
  {
    if n == 0 {
      hide EmptyingIsHarmless;
      hide SessionNulFree;
      if Complete(s.files, s.index) { CompleteIsCapped(s.files, s.index); }
    } else {
      hide IndexInv;
      hide Complete;
      hide Capped;
      LastStep(s, events, n);
      IndexAgrees(s, events, n - 1);
      StepKeepsIndex(Reached(s, events, n - 1), events[n - 1]);
    }
  }

  /** A search then answers with exactly the files whose text contains the word. */
  lemma SearchIsScan(s: Server, word: string, f: string)
    requires IndexInv(s) && Complete(s.files, s.index)
    ensures f in Idx.Files(s.index, Idx.Normalized(word)) <==>
            f in s.files && Idx.Occurs(View(s.files[f]), Idx.Normalized(word))
  {
    if f in s.files {
      Idx.TokensAreRuns(View(s.files[f]), Idx.Normalized(word));
    }
    assert Contains(s.files, f, Idx.Normalized(word)) ==> f in Idx.Files(s.index, Idx.Normalized(word));
  }

  /** Start-up indexing gives an index that is sound, and complete for the files it was given. */
  lemma {:induction false} StartupIndex(files: Directory, names: seq<string>)
    requires forall i :: 0 <= i < |names| ==> names[i] in files
    ensures var index := IndexAll(map[], files, names);
            && Idx.Tidy(index) && Sound(files, index)
            && (Capped(files) ==> forall f, w :: f in names && Contains(files, f, w) ==> f in Idx.Files(index, w))
    ensures forall w, f :: f in Idx.Files(IndexAll(map[], files, names), w) ==> f in names
    decreases |names|
  {
    if names != [] {
      var front, f := names[..|names| - 1], names[|names| - 1];
      var index := IndexAll(map[], files, front);
      StartupIndex(files, front);
      hide Idx.Tokens;
      hide View;
      hide IndexAll;
      StartupStep(files, index, front, f);
      assert names == front + [f];
      assert IndexAll(map[], files, names) == Idx.IndexFile(index, f, View(files[f])) by {
        IndexAllSnoc(files, front, f);
      }
    } else {
      assert IndexAll(map[], files, names) == map[];
    }
  }

  lemma IndexAllSnoc(files: Directory, front: seq<string>, f: string)
    requires forall i :: 0 <= i < |front| ==> front[i] in files
    requires f in files
    ensures forall i :: 0 <= i < |front + [f]| ==> (front + [f])[i] in files
    ensures IndexAll(map[], files, front + [f]) == Idx.IndexFile(IndexAll(map[], files, front), f, View(files[f]))
  {
    var names := front + [f];
    assert names[..|names| - 1] == front;
  }

  lemma StartupStep(files: Directory, index: Idx.Index, front: seq<string>, f: string)
    requires Idx.Tidy(index) && Sound(files, index) && f in files
    requires forall w, g :: g in Idx.Files(index, w) ==> g in front
    ensures var next := Idx.IndexFile(index, f, View(files[f]));
            && Idx.Tidy(next) && Sound(files, next)
            && (forall w, g :: g in Idx.Files(next, w) ==> g in front + [f])
            && (Capped(files) && (forall g, w :: g in front && Contains(files, g, w) ==> g in Idx.Files(index, w)) ==>
                  forall g, w :: g in front + [f] && Contains(files, g, w) ==> g in Idx.Files(next, w))
  {
    var content := View(files[f]);
    Idx.IndexStaysTidy(index, f, content);
    EmptyHasNoTokens();
    hide Idx.Tokens;
    hide View;
    hide Idx.IndexFile;
    ReindexSound(files, files, index, f);
    forall w, g
      ensures g in Idx.Files(Idx.IndexFile(index, f, content), w) ==> g in front + [f]
      ensures Capped(files) && g in front + [f] && Contains(files, g, w)
              && (g in front ==> g in Idx.Files(index, w)) ==>
                g in Idx.Files(Idx.IndexFile(index, f, content), w)
    {
      if content == "" {
        NothingIndexed(index, f);
      } else {
        Idx.ReindexRelation(index, f, content, w, g);
        if g == f && Capped(files) && Contains(files, f, w) {
          Idx.TokensAreRuns(content, w);
          ListedAreHolders(files, index, f, w);
          assert |Holders(files, w)| <= Idx.MAX_FILES_PER_WORD;
        }
      }
    }
  }

  /** The server as it enters its message loops, its directory scanned as `names`. */
  function Started(files: Directory, names: seq<string>): Server
    requires forall i :: 0 <= i < |names| ==> names[i] in files
  {
    Server(files, map[], map[], IndexAll(map[], files, names), None, false)
  }

  /**
    From start-up on, the index lists only what a scan finds. If start-up listed the whole directory, it lists
    all of that in every state exactly if in no state a word is in more than 50 files.
  */
  lemma IndexAgreesFromStartup(files: Directory, names: seq<string>, events: seq<Event>, n: nat)
    requires forall i :: 0 <= i < |names| ==> names[i] in files
    requires n <= |events| && Runs(Started(files, names), events, n) && IndexRun(Started(files, names), events, n)
    ensures var s := Started(files, names);
            && Sound(Reached(s, events, n).files, Reached(s, events, n).index)
            && ((forall f :: f in files ==> f in names) ==>
                  (CompleteRun(s, events, n) <==> CappedRun(s, events, n)))
  {
    var s := Started(files, names);
    StartupIndex(files, names);
    IndexAgrees(s, events, n);
    if CappedRun(s, events, n) {
      CappedAtStart(s, events, n);
    }
  }

  lemma {:induction false} CappedAtStart(s: Server, events: seq<Event>, n: nat)
    requires n <= |events| && Runs(s, events, n) && CappedRun(s, events, n)
    ensures Capped(s.files)
  {
    if n > 0 {
      CappedAtStart(s, events, n - 1);
    }
  }

  // ----- runs with every kind of step -----

  /**
    What keeps index and files in agreement, told from the state before the step. A commit must not run over a
    file with words under its temporary name, empty a file with words, or bring a word into a 51st file. An
    UNDO must restore the words that the file has now. Nothing else can go wrong.
  */
  ghost predicate StaysAgreed(s: Server, e: Event)
    requires Defined(s, e.action)
  {
    if e.action == Message(WriteCommit) && s.inLoop && s.session.Some? then
      Unlisted(s.index, TempName(s)) && !EmptiesListed(s) && Capped(Commit(s).0.files)
    else if e.action.Message? && e.action.request.UndoFile? && !s.inLoop then
      var f := e.action.request.filename;
      Buf.Available(s.undos, f) ==> SameWords(s.files, f, View(s.undos[f].content))
    else true
  }

  lemma CommitAgreesIff(s: Server)
    requires Idx.Tidy(s.index) && Agrees(s) && CanCommit(s) && s.session.Some?
    ensures var s' := Commit(s).0;
            && Idx.Tidy(s'.index)
            && (Agrees(s') <==> Unlisted(s.index, TempName(s)) && !EmptiesListed(s) && Capped(s'.files))
  {
    var s', f := Commit(s).0, s.session.value.filename;
    Idx.IndexStaysTidy(s.index, f, View(s'.files[f]));
    CommitSound(s);
    hide View;
    hide Committed;
    hide Idx.Tokens;
    hide Idx.Tidy;
    hide Capped;
    if Complete(s'.files, s'.index) {
      CompleteIsCapped(s'.files, s'.index);
    }
    if Unlisted(s.index, TempName(s)) && Capped(s'.files) {
      CommitOthers(s);
      ReindexComplete(s'.files, s.index, f);
    }
  }

  lemma UndoStepAgreesIff(s: Server, f: string)
    requires Idx.Tidy(s.index) && Agrees(s)
    ensures var s' := UndoStep(s, f).0;
            && Idx.Tidy(s'.index)
            && (Agrees(s') <==> (Buf.Available(s.undos, f) ==> SameWords(s.files, f, View(s.undos[f].content))))
  {
    if Buf.Available(s.undos, f) {
      UndoAgreesIff(s, f);
      hide View;
      hide HasWordsOf;
      hide HoldsWordsOf;
      hide Sound;
      hide Complete;
    }
  }

  lemma DeleteAgrees(s: Server, f: string)
    requires Idx.Tidy(s.index) && Agrees(s)
    ensures Idx.Tidy(DeleteStep(s, f).0.index) && Agrees(DeleteStep(s, f).0)
  {
    DeleteLists(s, f);
    Idx.IndexStaysTidy(s.index, f, "");
    hide Idx.Tidy;
    hide Idx.Tokens;
    hide Idx.Files;
    hide Idx.RemoveFile;
    hide View;
  }

  lemma NewFileAgrees(s: Server, f: string)
    requires Agrees(s) && f !in s.files
    ensures Agrees(s.(files := s.files[f := ""])) && Agrees(CreateStep(s, f).0)
    ensures CreateStep(s, f).0.index == s.index
  {
    EmptyHasNoTokens();
    NothingIndexed(s.index, f);
    assert View("") == "";
    hide Idx.IndexFile;
    hide Idx.Tokens;
    hide Idx.Files;
    hide View;
  }

  /** Reading, starting, updating, ending a session and collecting locks touch neither files nor index. */
  lemma QuietStep(s: Server, e: Event)
    requires Defined(s, e.action) && (e.action.Message? || e.action.Disconnect? || e.action.Cleanup?)
    requires e.action.Message? && e.action.request.WriteCommit? ==> !s.inLoop || s.session.None?
    requires e.action.Message? && e.action.request.UndoFile? ==> s.inLoop
    ensures Step(s, e).0.files == s.files && Step(s, e).0.index == s.index
  {
    hide Sentences;
    hide View;
    hide Lock.Release;
    hide Lock.Acquire;
    hide Lock.Cleaned;
  }

  /** One step, of whatever kind: the index still agrees exactly under the condition. */
  lemma StepAgreesIff(s: Server, e: Event)
    requires Idx.Tidy(s.index) && Agrees(s) && Defined(s, e.action)
    ensures var s' := Step(s, e).0; Idx.Tidy(s'.index) && (Agrees(s') <==> StaysAgreed(s, e))
  {
    hide Agrees;
    hide Idx.Tidy;
    hide SameWords;
    hide View;
    hide EmptiesListed;
    hide Unlisted;
    hide Capped;
    hide Start;
    hide UpdateWord;
    hide DeleteStep;
    hide UndoStep;
    hide EndSession;
    match e.action {
      case NsCreate(f) =>
        if f !in s.files { NewFileAgrees(s, f); }
      case NsReplicate(f) =>
        if f !in s.files { NewFileAgrees(s, f); }
      case NsDelete(f) =>
        DeleteAgrees(s, f);
      case Message(UndoFile(f)) =>
        if s.inLoop { QuietAgrees(s, e); } else { UndoStepAgreesIff(s, f); }
      case Message(WriteCommit) =>
        if s.inLoop && s.session.Some? {
          CommitAgreesIff(s);
          hide Commit;
          AgreesLike(Commit(s).0, Step(s, e).0);
        } else {
          QuietAgrees(s, e);
        }
      case _ =>
        QuietAgrees(s, e);
    }
  }

  lemma QuietAgrees(s: Server, e: Event)
    requires Agrees(s) && Defined(s, e.action) && (e.action.Message? || e.action.Disconnect? || e.action.Cleanup?)
    requires e.action.Message? && e.action.request.WriteCommit? ==> !s.inLoop || s.session.None?
    requires e.action.Message? && e.action.request.UndoFile? ==> s.inLoop
    ensures Step(s, e).0.index == s.index && Agrees(Step(s, e).0)
  {
    hide Step;
    hide Agrees;
    QuietStep(s, e);
    AgreesLike(s, Step(s, e).0);
  }

  lemma AgreesLike(s: Server, s': Server)
    requires s'.files == s.files && s'.index == s.index
    ensures Agrees(s') <==> Agrees(s)
  {}

  ghost predicate AgreesThroughout(s: Server, events: seq<Event>, n: nat)
    requires n <= |events| && Runs(s, events, n)
    decreases n
  {
    Agrees(Reached(s, events, n)) && (n > 0 ==> AgreesThroughout(s, events, n - 1))
  }

  ghost predicate StaysAgreedThroughout(s: Server, events: seq<Event>, n: nat)
    requires n <= |events| && Runs(s, events, n)
    decreases n
  {
    n > 0 ==> StaysAgreedThroughout(s, events, n - 1) && StaysAgreed(Reached(s, events, n - 1), events[n - 1])
  }

  /** Any run at all: index and files agree in every state exactly if they do at first and every step allows it. */
  lemma {:induction false} AgreesThroughoutIff(s: Server, events: seq<Event>, n: nat)
    requires n <= |events| && Runs(s, events, n) && Idx.Tidy(s.index)
    ensures AgreesThroughout(s, events, n) <==> Agrees(s) && StaysAgreedThroughout(s, events, n)
    ensures AgreesThroughout(s, events, n) ==> Idx.Tidy(Reached(s, events, n).index)
  {
    hide Agrees;
    hide StaysAgreed;
    hide Idx.Tidy;
    hide Step;
    if n > 0 {
      LastStep(s, events, n);
      AgreesThroughoutIff(s, events, n - 1);
      if AgreesThroughout(s, events, n - 1) {
        AgreesLast(s, events, n - 1);
        StepAgreesIff(Reached(s, events, n - 1), events[n - 1]);
      }
    }
  }

  lemma AgreesLast(s: Server, events: seq<Event>, n: nat)
    requires n <= |events| && Runs(s, events, n) && AgreesThroughout(s, events, n)
    ensures Agrees(Reached(s, events, n))
  {}
}
