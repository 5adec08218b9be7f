/** Runs of the storage server in which the natural claims about its sessions, its index and UNDO fail. */
module StorageExamples {
  import opened Text
  import opened Protocol
  import opened SentenceParser
  import opened Splitting
  import opened WordParser
  import opened CommitSplice
  import opened StorageServer
  import opened StorageRuns
  import opened IndexRuns
  import opened SessionOwners
  import Lock = SentenceLock
  import Buf = UndoBuffer
  import Idx = InvertedIndex

  /** One more step of a run, given as values. */
  lemma RunsOn(s: Server, events: seq<Event>, n: nat, before: Server, next: Server)
    requires 0 < n <= |events| && Runs(s, events, n - 1) && Reached(s, events, n - 1) == before
    requires Defined(before, events[n - 1].action) && Step(before, events[n - 1]).0 == next
    ensures Runs(s, events, n) && Reached(s, events, n) == next
  {
    hide Step;
    hide Defined;
  }

  lemma RunsNothing(s: Server, events: seq<Event>)
    ensures Runs(s, events, 0) && Reached(s, events, 0) == s
  {}

  /** Texts short enough to read at a glance. */
  predicate Plain(text: string) {
    |text| < MAX_CONTENT_LEN && NulFree(text)
  }

  lemma PlainView(text: string)
    requires Plain(text)
    ensures View(text) == text
  {
    ViewIsWhole(text);
  }

  /** The one word of a text that is a run of lower-case letters, or such a run and a full stop. */
  lemma OneToken(w: string, rest: string)
    requires 2 <= |w| < Idx.MAX_WORD_LEN && forall i :: 0 <= i < |w| ==> 'a' <= w[i] <= 'z'
    requires rest == "" || !Idx.IsAlnum(rest[0])
    ensures Idx.Tokens(w + rest) == [w] + Idx.Tokens(rest)
  {
    var s := w + rest;
    var n := Idx.RunLength(s);
    assert forall i :: 0 <= i < |w| ==> s[i] == w[i];
    assert |w| < |s| ==> s[|w|] == rest[0];
    assert n == |w|;
    assert s[..n] == w && s[n..] == rest;
    assert Idx.Normalized(w) == w;
  }

  // ----- fusion -----

  /** Appending to an unterminated sentence: two sentences in memory, one in the file. */
  lemma AppendFuses()
    ensures Spliced(["a"], 1, "b") == ["a", "b"]
    ensures Sentences(Concat(Spliced(["a"], 1, "b"))) == ["ab"]
  {
    assert ["a"][..1] == ["a"] && Pieces("b") == ["b"];
    assert Concat(["a", "b"]) == "a" + Concat(["b"]) && Concat(["b"]) == "b" + Concat([]);
    assert "a" + "b" == "ab" && Concat(["a", "b"])[..] == "ab";
    SentencesWhole("ab");
  }

  // ----- UNDO of a file that does not fit the buffer -----

  function Long(): string {
    seq(MAX_CONTENT_LEN, _ => 'a')
  }

  const LONG := Server(map["f" := Long()], map[], map[], map[], None, false)

  const LOOK: seq<Event> := [Event(0, Message(WriteStart("f", 0, "u"))), Event(0, Message(ReadOnly))]

  /** START on a file of 4096 characters and UNDO: the last character is gone. */
  lemma UndoCutsLongFile()
    ensures Runs(LONG, LOOK, 2)
    ensures var (undone, code) := UndoStep(Reached(LONG, LOOK, 2), "f");
            code == ERR_SUCCESS && "f" in undone.files && undone.files["f"] != LONG.files["f"]
  {
    hide Sentences;
    hide View;
    hide StartWords;
    var began := Step(LONG, LOOK[0]).0;
    RunsNothing(LONG, LOOK);
    RunsOn(LONG, LOOK, 1, LONG, began);
    RunsOn(LONG, LOOK, 2, began, began.(inLoop := false));
    assert Starts(LONG, LOOK, 0, "f");
    assert PassesBy(LONG, LOOK, 1, "f");
    UndoRestoresStart(LONG, LOOK, 0, 2, "f");
  }

  // ----- a file with the temporary file's name -----

  const TWO_FILES: Directory := map["f" := "", "f.tmp" := "ab"]

  const TWO := Server(TWO_FILES, map[], map[], map["ab" := ["f.tmp"]], None, false)

  const TOUCH: seq<Event> := [Event(0, Message(WriteStart("f", 0, "u"))), Event(0, Message(WriteCommit))]

  lemma TwoIsStarted()
    ensures Started(TWO_FILES, ["f", "f.tmp"]) == TWO
  {
    var names := ["f", "f.tmp"];
    assert names[..1] == ["f"] && ["f"][..0] == [];
    PlainView("");
    PlainView("ab");
    OneToken("ab", "");
    assert "ab" + "" == "ab";
    assert Idx.Tokens("ab") == ["ab"];
    assert IndexAll(map[], TWO_FILES, ["f"]) == map[];
    assert Idx.RemoveFile(map[], "f.tmp") == map[];
    assert ["ab"][1..] == [];
    assert Idx.IndexFile(map[], "f.tmp", "ab") == map["ab" := ["f.tmp"]];
  }

  const TOUCHED := TWO.(
    locks := map[("f", 0) := Lock.Lease("u", 0)],
    undos := map["f" := Buf.Undo("", true)],
    session := Some(WriteSession("f", 0, "u", [])),
    inLoop := true)

  lemma StartsOnEmpty()
    ensures Step(TWO, TOUCH[0]).0 == TOUCHED
  {
    PlainView("");
    assert Sentences("") == [];
  }

  lemma EmptyCommit()
    ensures Sentences("") == [] && Join([]) == "" && CanCommit(TOUCHED)
  {
    PlainView("");
  }

  lemma TempListed()
    ensures "f.tmp" in Idx.Files(TOUCHED.index, "ab")
    ensures !Unlisted(TOUCHED.index, TempName(TOUCHED)) && TempName(TOUCHED) == "f.tmp"
  {
    assert TempName(TOUCHED) == "f" + ".tmp" == "f.tmp";
    assert "f.tmp" in Idx.Files(TOUCHED.index, "ab");
  }

  lemma OnlyTempListed()
    ensures Idx.Tidy(TOUCHED.index) && Sound(TOUCHED.files, TOUCHED.index)
  {
    PlainView("ab");
    OneToken("ab", "");
    assert "ab" + "" == "ab";
    hide View;
    hide Idx.RunLength;
  }

  lemma TempRenamed()
    ensures CanCommit(TOUCHED) && Defined(TOUCHED, TOUCH[1].action)
    ensures var s := Step(TOUCHED, TOUCH[1]).0; "f.tmp" !in s.files && !Sound(s.files, s.index)
  {
    EmptyCommit();
    TempListed();
    OnlyTempListed();
    CommitSound(TOUCHED);
    hide Sound;
    hide CanCommit;
    hide Committed;
    hide Idx.IndexFile;
    hide Unlisted;
    hide View;
    assert "f" + ".tmp" == "f.tmp";
  }

  lemma TouchIs()
    ensures |TOUCH| == 2 && Defined(TWO, TOUCH[0].action)
  {}

  /**
    From start-up: a session that changes nothing loses the file that stands under the temporary name, and the
    index still lists it.
  */
  lemma TempNameLosesFile()
    ensures Started(TWO_FILES, ["f", "f.tmp"]) == TWO
    ensures Runs(TWO, TOUCH, 2)
    ensures var s := Reached(TWO, TOUCH, 2); "f.tmp" !in s.files && !Sound(s.files, s.index)
  {
    TwoIsStarted();
    hide *;
    TouchIs();
    StartsOnEmpty();
    TempRenamed();
    RunsNothing(TWO, TOUCH);
    RunsOn(TWO, TOUCH, 1, TWO, TOUCHED);
    RunsOn(TWO, TOUCH, 2, TOUCHED, Step(TOUCHED, TOUCH[1]).0);
  }

  // ----- UNDO against the index -----

  const ONE_FILE: Directory := map["f" := "ab."]

  const ONE := Server(ONE_FILE, map[], map[], map["ab" := ["f"]], None, false)

  const EDIT: seq<Event> := [
    Event(0, Message(WriteStart("f", 0, "u"))), Event(0, Message(WriteUpdate(1, "cd"))), Event(0, Message(WriteCommit)),
    Event(0, Message(UndoFile("f")))]

  lemma TextTokens()
    ensures Idx.Tokens("ab.") == ["ab"]
  {
    OneToken("ab", ".");
    assert "ab" + "." == "ab." && "."[1..] == "";
    assert Idx.Tokens(".") == [];
  }

  lemma EditedTokens()
    ensures "cd" in Idx.Tokens("ab. cd")
  {
    OneToken("ab", ". cd");
    OneToken("cd", "");
    assert "ab" + ". cd" == "ab. cd" && "cd" + "" == "cd";
    LeadingMark('.', " cd");
    LeadingMark(' ', "cd");
    assert ['.'] + " cd" == ". cd" && [' '] + "cd" == " cd";
    hide Idx.Tokens;
  }

  lemma LeadingMark(c: char, rest: string)
    requires !Idx.IsAlnum(c)
    ensures Idx.Tokens([c] + rest) == Idx.Tokens(rest)
  {
    assert ([c] + rest)[1..] == rest;
  }

  lemma OneIsStarted()
    ensures Started(ONE_FILE, ["f"]) == ONE
  {
    assert ["f"][..0] == [];
    PlainView("ab.");
    TextTokens();
    assert Idx.RemoveFile(map[], "f") == map[];
    assert ["ab"][1..] == [];
  }

  const BEGUN := ONE.(
    locks := map[("f", 0) := Lock.Lease("u", 0)],
    undos := map["f" := Buf.Undo("ab.", true)],
    session := Some(WriteSession("f", 0, "u", ["ab."])),
    inLoop := true)

  const GROWN := BEGUN.(session := Some(WriteSession("f", 0, "u", ["ab.", "cd"])))

  lemma StartsOnText()
    ensures Step(ONE, EDIT[0]).0 == BEGUN
  {
    PlainView("ab.");
    SentencesWhole("ab.");
    SplitToken("ab.", WhiteSpace);
    hide Sentences;
    hide View;
  }

  lemma AddsWord()
    ensures Defined(BEGUN, EDIT[1].action) && Step(BEGUN, EDIT[1]).0 == GROWN
  {
    assert InsertAt(["ab."], 1, ["cd"]) == ["ab.", "cd"];
  }

  lemma JoinedText()
    ensures Join(["ab.", "cd"]) == "ab. cd"
  {
    assert ["ab.", "cd"][1..] == ["cd"] && Join(["cd"]) == "cd";
    assert "ab." + [' '] + "cd" == "ab. cd";
  }

  lemma CommittedText()
    ensures |Join(["ab.", "cd"])| < MAX_CONTENT_LEN
    ensures Committed("ab.", WriteSession("f", 0, "u", ["ab.", "cd"])) == "ab. cd"
  {
    PlainView("ab.");
    SentencesWhole("ab.");
    JoinedText();
    CommitText(["ab."], 0, "ab. cd");
    assert Concat([]) + "ab. cd" + Concat([]) == "ab. cd";
    hide Sentences;
    hide Concat;
    hide Join;
    hide Spliced;
    hide View;
  }

  lemma IndexedText()
    ensures "f" in Idx.Files(Idx.IndexFile(map["ab" := ["f"]], "f", "ab. cd"), "cd")
  {
    EditedTokens();
    hide Idx.Tokens;
    Idx.TokensAreRuns("ab. cd", "cd");
    var index: Idx.Index := map["ab" := ["f"]];
    assert Idx.Files(index, "cd") == [] && Idx.Tidy(index);
    Idx.ReindexRelation(index, "f", "ab. cd", "cd", "f");
    hide Idx.IndexFile;
    hide Idx.Occurs;
  }

  lemma GrownCommits()
    ensures CanCommit(GROWN)
  {
    hide Committed;
    hide Sentences;
    hide View;
    hide Join;
    CommittedText();
  }

  lemma WritesText()
    ensures CanCommit(GROWN)
    ensures var s := Commit(GROWN).0;
            && s.files == map["f" := "ab. cd"] && "f" in Idx.Files(s.index, "cd")
            && s.undos == BEGUN.undos && s.session.None?
  {
    GrownCommits();
    hide CanCommit;
    hide Idx.IndexFile;
    hide Idx.Files;
    hide Committed;
    hide Sentences;
    hide View;
    hide Join;
    hide Lock.Release;
    PlainView("ab. cd");
    CommittedText();
    IndexedText();
    ReplacedText();
    hide Replaced;
  }

  lemma ReplacedText()
    ensures Replaced(ONE_FILE, "f", "ab. cd") == map["f" := "ab. cd"]
  {
    assert ONE_FILE - {"f" + ".tmp"} == ONE_FILE;
  }

  lemma LacksWord()
    ensures !Contains(map["f" := "ab."], "f", "cd")
  {
    TextTokens();
    PlainView("ab.");
    hide View;
    hide Idx.Tokens;
  }

  /** The state after the commit, whatever exactly is in the index. */
  lemma UndoesText(s: Server)
    requires !s.inLoop && s.files == map["f" := "ab. cd"] && "f" in Idx.Files(s.index, "cd") && s.undos == BEGUN.undos
    ensures var s' := Step(s, EDIT[3]).0;
            && s'.files == map["f" := "ab."] && "f" in Idx.Files(s'.index, "cd") && !Contains(s'.files, "f", "cd")
  {
    hide Contains;
    hide Idx.Files;
    LacksWord();
    assert UndoStep(s, "f").0.files == s.files["f" := "ab."];
    assert map["f" := "ab. cd"]["f" := "ab."] == map["f" := "ab."];
  }

  lemma NotSound(files: Directory, index: Idx.Index, f: string, w: string)
    requires f in Idx.Files(index, w) && !Contains(files, f, w)
    ensures !Sound(files, index)
  {}

  lemma CommitsText()
    ensures Defined(GROWN, EDIT[2].action)
    ensures var s := Step(GROWN, EDIT[2]).0;
            !s.inLoop && s.files == map["f" := "ab. cd"] && "f" in Idx.Files(s.index, "cd") && s.undos == BEGUN.undos
  {
    hide CanCommit;
    hide Commit;
    hide Idx.Files;
    WritesText();
  }

  lemma EditIs()
    ensures |EDIT| == 4 && Defined(ONE, EDIT[0].action) && forall s :: Defined(s, EDIT[3].action)
  {}

  /** From start-up: START, an update with a new word, COMMIT and UNDO leave the word listed for a file without it. */
  lemma UndoLeavesWordListed()
    ensures Started(ONE_FILE, ["f"]) == ONE
    ensures Runs(ONE, EDIT, 4)
    ensures var s := Reached(ONE, EDIT, 4);
            && s.files == map["f" := "ab."] && "f" in Idx.Files(s.index, "cd") && !Contains(s.files, "f", "cd")
            && !Sound(s.files, s.index)
  {
    OneIsStarted();
    hide *;
    EditIs();
    CommitsText();
    var written := Step(GROWN, EDIT[2]).0;
    StartsOnText();
    AddsWord();
    UndoesText(written);
    var s := Step(written, EDIT[3]).0;
    RunsNothing(ONE, EDIT);
    RunsOn(ONE, EDIT, 1, ONE, BEGUN);
    RunsOn(ONE, EDIT, 2, BEGUN, GROWN);
    RunsOn(ONE, EDIT, 3, GROWN, written);
    RunsOn(ONE, EDIT, 4, written, s);
    NotSound(s.files, s.index, "f", "cd");
  }

  // ----- somebody else's session -----

  const LEFT: seq<Event> := [
    Event(0, Message(WriteStart("f", 0, "u"))), Event(0, Message(ReadOnly)),
    Event(0, Message(WriteStart("g", 0, "v"))), Event(0, Message(WriteUpdate(1, "cd")))]

  /**
    One client's loop ends with an unexpected message. The next client asks for a file that does not exist,
    and then edits and commits the first one's session.
  */
  lemma StrangerEditsSession()
    ensures Runs(ONE, LEFT, 4)
    ensures var s := Reached(ONE, LEFT, 4);
            && s.inLoop && s.session == Some(WriteSession("f", 0, "u", ["ab.", "cd"])) && CanCommit(s)
            && Opens(Reached(ONE, LEFT, 2), LEFT[2]) && !Begins(Reached(ONE, LEFT, 2), LEFT[2])
  {
    StartsOnText();
    AddsWord();
    WritesText();
    RunsNothing(ONE, LEFT);
    hide Sentences;
    hide View;
    hide CanCommit;
    var idle := BEGUN.(inLoop := false);
    assert Step(idle, LEFT[2]).0 == BEGUN;
    assert Step(ONE, LEFT[0]).0 == BEGUN && Step(BEGUN, LEFT[1]).0 == idle && Step(BEGUN, LEFT[3]).0 == GROWN;
    hide Start;
    RunsOn(ONE, LEFT, 1, ONE, BEGUN);
    RunsOn(ONE, LEFT, 2, BEGUN, idle);
    RunsOn(ONE, LEFT, 3, idle, BEGUN);
    RunsOn(ONE, LEFT, 4, BEGUN, GROWN);
  }

  // ----- a word in too many files -----

  function Name(i: nat): string {
    seq(i + 1, _ => 'f')
  }

  function Names(n: nat): set<string> {
    if n == 0 then {} else Names(n - 1) + {Name(n - 1)}
  }

  lemma {:induction false} NamesCount(n: nat)
    ensures |Names(n)| == n
    ensures forall f :: f in Names(n) ==> |f| <= n
  {
    if n > 0 {
      NamesCount(n - 1);
      assert |Name(n - 1)| == n;
    }
  }

  function SameText(names: set<string>): Directory {
    map f | f in names :: "ab"
  }

  lemma AllHold(names: set<string>)
    ensures Holders(SameText(names), "ab") == names
  {
    PlainView("ab");
    OneToken("ab", "");
    assert "ab" + "" == "ab";
    assert "ab" in Idx.Tokens("ab");
    hide View;
    hide Idx.Tokens;
  }

  /** 51 files with the same word. */
  function Many(): Directory {
    SameText(Names(Idx.MAX_FILES_PER_WORD + 1))
  }

  lemma TooMany()
    ensures !Capped(Many())
  {
    hide SameText;
    hide Names;
    AllHold(Names(Idx.MAX_FILES_PER_WORD + 1));
    NamesCount(Idx.MAX_FILES_PER_WORD + 1);
    assert |Holders(Many(), "ab")| > Idx.MAX_FILES_PER_WORD;
    hide Holders;
  }

  /** Start-up on such a directory, in whatever order, leaves some file unlisted. */
  lemma ManyFilesIncomplete(names: seq<string>)
    requires forall i :: 0 <= i < |names| ==> names[i] in Many()
    ensures !Capped(Many()) && !Complete(Many(), IndexAll(map[], Many(), names))
  {
    hide *;
    TooMany();
    StartupIndex(Many(), names);
    if Complete(Many(), IndexAll(map[], Many(), names)) {
      CompleteIsCapped(Many(), IndexAll(map[], Many(), names));
    }
  }
}
