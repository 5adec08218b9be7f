/**
  The storage server: write sessions, undo, file creation and deletion over one directory, one lock table,
  one undo table, one inverted index and one global write session (storage_server/storage_server.c).
*/
module StorageServer {
  import opened Text
  import opened Protocol
  import opened HashTables
  import opened SentenceParser
  import opened Splitting
  import opened WordParser
  import opened CommitSplice
  import Lock = SentenceLock
  import Buf = UndoBuffer
  import Idx = InvertedIndex

  // ----- state -----

  datatype WriteSession = WriteSession(filename: string, sentence: nat, client: string, words: seq<string>) {
    function Key(): Lock.LockKey {
      (filename, sentence)
    }
  }

  /** `inLoop`: the client thread serves a connection that began with WRITE_START. */
  datatype Server = Server(
    files: map<string, string>,
    locks: Lock.Locks,
    undos: Buf.Undos,
    index: Idx.Index,
    session: Option<WriteSession>,
    inLoop: bool)

  /** What `read_file` puts into a 4096-byte buffer and the string functions then see of it. */
  function View(bytes: string): string {
    UntilNul(if |bytes| < MAX_CONTENT_LEN then bytes else bytes[..MAX_CONTENT_LEN - 1])
  }

  /** A file is seen whole exactly when it fits the buffer and holds no NUL. */
  lemma ViewIsWhole(bytes: string)
    ensures View(bytes) == bytes <==> |bytes| < MAX_CONTENT_LEN && NulFree(bytes)
    ensures |View(bytes)| < MAX_CONTENT_LEN && NulFree(View(bytes))
  {
    UntilNulWhole(bytes);
    if |bytes| >= MAX_CONTENT_LEN {
      UntilNulWhole(bytes[..MAX_CONTENT_LEN - 1]);
    }
  }

  lemma {:induction false} UntilNulPrefix(bytes: string, p: string)
    requires p <= bytes
    ensures UntilNul(bytes) <= bytes
    ensures p <= UntilNul(bytes) <==> NulFree(p)
  {
    if p != "" && bytes[0] != '\0' {
      UntilNulPrefix(bytes[1..], p[1..]);
      assert p == [p[0]] + p[1..] && bytes == [bytes[0]] + bytes[1..];
    } else if bytes != "" {
      UntilNulPrefix(bytes[1..], "");
      assert bytes == [bytes[0]] + bytes[1..];
    }
  }

  /** What is seen of a file: exactly the beginnings of it that are shorter than the buffer and hold no NUL. */
  lemma ViewIsLongestPrefix(bytes: string, p: string)
    requires p <= bytes
    ensures View(bytes) <= bytes
    ensures p <= View(bytes) <==> |p| < 4096 && '\0' !in p
  {
    var buffer := if |bytes| < MAX_CONTENT_LEN then bytes else bytes[..MAX_CONTENT_LEN - 1];
    UntilNulPrefix(buffer, if |p| <= |buffer| then p else "");
  }

  // ----- steps -----

  /** No message goes back. */
  const NO_RESPONSE := 0

  datatype Request =
    | WriteStart(filename: string, sentence: int, client: string)
    | WriteUpdate(index: int, word: string)
    | WriteCommit
    | UndoFile(filename: string)
    | ReadOnly

  datatype Action =
    | Message(request: Request)
    | Disconnect
    | NsCreate(filename: string)
    | NsReplicate(filename: string)
    | NsDelete(filename: string)
    | Cleanup

  datatype Event = Event(at: int, action: Action)

  function StartWords(sentences: seq<string>, k: nat): seq<string> {
    if k < |sentences| then Words(sentences[k]) else []
  }

  function Start(s: Server, filename: string, sentence: int, client: string, now: int): (Server, int) {
    if filename !in s.files then (s, ERR_NOT_FOUND)
    else
      var key := (filename, sentence);
      var (locks, granted) := Lock.Acquire(s.locks, key, client, now);
      if granted == ERR_LOCKED then (s, ERR_LOCKED)
      else
        var content := View(s.files[filename]);
        var sentences := Sentences(content);
        if sentence < 0 || sentence > |sentences| then
          (s.(locks := Lock.Release(locks, key, client).0), ERR_INDEX_ERROR)
        else
          var session := WriteSession(filename, sentence, client, StartWords(sentences, sentence));
          (s.(locks := locks, session := Some(session), undos := Buf.Saved(s.undos, filename, content).0), ERR_SUCCESS)
  }

  function UpdateWord(s: Server, index: int, word: string): (Server, int) {
    if s.session.None? then (s, ERR_BAD_REQUEST)
    else
      var session := s.session.value;
      if index < 0 || index > |session.words| then (s, ERR_INDEX_ERROR)
      else (s.(session := Some(session.(words := Apply(session.words, Update(index, word))))), ERR_SUCCESS)
  }

  /** What a commit needs in order not to leave its buffers: the file and a fitting text. */
  predicate CanCommit(s: Server) {
    s.session.Some? ==>
      var session := s.session.value;
      session.filename in s.files && |Join(session.words)| < MAX_CONTENT_LEN
  }

  /** The text a session turns a file into. */
  function Committed(bytes: string, session: WriteSession): string {
    Concat(Spliced(Sentences(View(bytes)), session.sentence, Join(session.words)))
  }

  /** Written beside the file under the name with `.tmp` appended, then renamed over it. */
  function Replaced(files: map<string, string>, filename: string, content: string): map<string, string> {
    (files - {filename + ".tmp"})[filename := content]
  }

  /** The end of a session gives its lock back. */
  function EndSession(s: Server): Server
    requires s.session.Some?
  {
    var session := s.session.value;
    s.(locks := Lock.Release(s.locks, session.Key(), session.client).0, session := None)
  }

  function Commit(s: Server): (Server, int)
    requires CanCommit(s)
  {
    if s.session.None? then (s, ERR_BAD_REQUEST)
    else
      var session := s.session.value;
      var content := Committed(s.files[session.filename], session);
      (EndSession(s).(files := Replaced(s.files, session.filename, content),
                      index := Idx.IndexFile(s.index, session.filename, View(content))), ERR_SUCCESS)
  }

  function UndoStep(s: Server, filename: string): (Server, int) {
    match Buf.Restored(s.undos, filename)
    case (_, None) => (s, ERR_NOT_FOUND)
    case (undos, Some(content)) => (s.(undos := undos, files := s.files[filename := content]), ERR_SUCCESS)
  }

  function CreateStep(s: Server, filename: string): (Server, int) {
    if filename in s.files then (s, ERR_CONFLICT)
    else (s.(files := s.files[filename := ""], index := Idx.IndexFile(s.index, filename, "")), ERR_CREATED)
  }

  function DeleteStep(s: Server, filename: string): (Server, int) {
    if filename !in s.files then (s, ERR_NOT_FOUND)
    else (s.(files := s.files - {filename}, index := Idx.RemoveFile(s.index, filename)), ERR_SUCCESS)
  }

  /** A message outside a write loop. Only WRITE_START opens one, whether it succeeds or not. */
  function FirstMessage(s: Server, r: Request, now: int): (Server, int) {
    match r
    case WriteStart(filename, sentence, client) =>
      var (s', code) := Start(s, filename, sentence, client, now);
      (s'.(inLoop := true), code)
    case UndoFile(filename) => UndoStep(s, filename)
    case WriteUpdate(_, _) => (s, ERR_BAD_REQUEST)
    case WriteCommit => (s, ERR_BAD_REQUEST)
    case ReadOnly => (s, ERR_SUCCESS)
  }

  /** A message inside a write loop. Anything but an update or a commit just ends the loop. */
  function LoopMessage(s: Server, r: Request): (Server, int)
    requires r.WriteCommit? ==> CanCommit(s)
  {
    match r
    case WriteUpdate(index, word) => UpdateWord(s, index, word)
    case WriteCommit =>
      var (s', code) := Commit(s);
      (s'.(inLoop := false), code)
    case _ => (s.(inLoop := false), NO_RESPONSE)
  }

  predicate Defined(s: Server, a: Action) {
    a.Message? ==>
      && (s.inLoop && a.request.WriteCommit? ==> CanCommit(s))
      && (a.request.WriteUpdate? ==> NulFree(a.request.word))
  }

  function Step(s: Server, e: Event): (Server, int)
    requires Defined(s, e.action)
  {
    match e.action
    case Message(r) => if s.inLoop then LoopMessage(s, r) else FirstMessage(s, r, e.at)
    case Disconnect =>
      ((if s.inLoop && s.session.Some? then EndSession(s) else s).(inLoop := false), NO_RESPONSE)
    case NsCreate(filename) => CreateStep(s, filename)
    case NsReplicate(filename) =>
      if filename in s.files then (s, ERR_SUCCESS) else (s.(files := s.files[filename := ""]), ERR_SUCCESS)
    case NsDelete(filename) => DeleteStep(s, filename)
    case Cleanup => (s.(locks := Lock.Cleaned(s.locks, e.at)), NO_RESPONSE)
  }

  function IndexAll(index: Idx.Index, files: map<string, string>, names: seq<string>): Idx.Index
    requires forall i :: 0 <= i < |names| ==> names[i] in files
  {
    if names == [] then index
    else
      var last := names[|names| - 1];
      Idx.IndexFile(IndexAll(index, files, names[..|names| - 1]), last, View(files[last]))
  }

  // ----- the array of sentences -----

  /** A sentence number that a commit to a text can be spliced in at. */
  predicate Fits(text: string, k: nat) {
    InRange(Sentences(text), k)
  }

  /** The sentence number of the session fits the file, if it is there, and the text that UNDO would put back. */
  predicate InBounds(s: Server) {
    s.session.Some? ==>
      var f, k := s.session.value.filename, s.session.value.sentence;
      && (f in s.files ==> Fits(View(s.files[f]), k))
      && (Buf.Available(s.undos, f) ==> Fits(View(s.undos[f].content), k))
  }

  lemma EmptyFits(k: nat)
    ensures Fits(View(""), k)
  {
    assert View("") == "" && Sentences("") == [];
  }

  lemma StartInBounds(s: Server, filename: string, sentence: int, client: string, now: int)
    requires InBounds(s)
    ensures InBounds(Start(s, filename, sentence, client, now).0)
  {
    if filename in s.files {
      ViewIsWhole(s.files[filename]);
      ViewIsWhole(View(s.files[filename]));
    }
    hide View;
    hide Sentences;
    hide Lock.Acquire;
    hide Lock.Release;
  }

  lemma UndoInBounds(s: Server, filename: string)
    requires InBounds(s)
    ensures InBounds(UndoStep(s, filename).0)
  {
    hide Fits;
    hide View;
  }

  lemma MessageInBounds(s: Server, e: Event)
    requires InBounds(s) && Defined(s, e.action) && e.action.Message?
    ensures InBounds(Step(s, e).0)
  {
    hide Start;
    hide UndoStep;
    hide Fits;
    hide View;
    hide Committed;
    hide Join;
    match e.action.request {
      case WriteStart(filename, sentence, client) => StartInBounds(s, filename, sentence, client, e.at);
      case UndoFile(filename) => UndoInBounds(s, filename);
      case _ =>
    }
  }

  lemma OtherInBounds(s: Server, e: Event)
    requires InBounds(s) && Defined(s, e.action) && !e.action.Message?
    ensures InBounds(Step(s, e).0)
  {
    hide Fits;
    hide View;
    hide Lock.Cleaned;
    hide Lock.Release;
    hide Idx.RemoveFile;
    hide Idx.IndexFile;
    if s.session.Some? { EmptyFits(s.session.value.sentence); }
  }

  /** No step takes the session out of its bounds: the copying loops of a commit stay inside their arrays. */
  lemma StepInBounds(s: Server, e: Event)
    requires InBounds(s) && Defined(s, e.action)
    ensures InBounds(Step(s, e).0)
  {
    hide Step;
    hide InBounds;
    if e.action.Message? { MessageInBounds(s, e); } else { OtherInBounds(s, e); }
  }

  // ----- the server -----

  class StorageServer {
    var files: map<string, string>
    const locks: Lock.LockTable
    const undos: Buf.UndoTable
    const index: Idx.IndexTable
    var session: Option<WriteSession>
    var inLoop: bool

    ghost predicate Valid()
      reads this, locks, undos, undos.table, index, locks.Repr, undos.table.Repr, index.Repr
    {
      && locks.Valid() && undos.Valid() && index.Valid()
      && locks.Repr !! undos.table.Repr && locks.Repr !! index.Repr && undos.table.Repr !! index.Repr
      && this !in locks.Repr && this !in undos.table.Repr && this !in index.Repr
      && undos !in locks.Repr && undos !in index.Repr
    }

    ghost function State(): Server
      reads this, locks, undos, undos.table, index
    {
      Server(files, locks.M, undos.table.M, index.M, session, inLoop)
    }

    ghost function Footprint(): set<object>
      reads this, locks, undos, undos.table, index
    {
      {this, undos} + locks.Repr + undos.table.Repr + index.Repr
    }

    /** The global state before start-up has looked at the directory. */
    constructor (directory: map<string, string>)
      ensures Valid() && fresh(Footprint())
      ensures State() == Server(directory, map[], map[], map[], None, false) && InBounds(State())
    {
      files := directory;
      var table := Lock.LockTableInit();
      locks := table;
      undos := new Buf.UndoTable();
      index := new HashTable(Idx.INDEX_SIZE, Idx.IndexHash);
      session := None;
      inLoop := false;
    }

    /** `read_file` for a file that exists. */
    method ReadFile(filename: string) returns (content: string)
      requires filename in files
      ensures content == View(files[filename])
    {
      content := View(files[filename]);
    }

    // The calls into the tables, each seen as a step of the server's state.

    method AcquireLock(key: Lock.LockKey, client: string, now: int) returns (code: int)
      requires Valid()
      modifies Footprint()
      ensures Valid() && fresh(Footprint() - old(Footprint()))
      ensures var (m, c) := Lock.Acquire(old(locks.M), key, client, now);
              State() == old(State()).(locks := m) && code == c
    {
      hide HashTable.Valid;
      code := Lock.LockAcquire(locks, key.0, key.1, client, now);
    }

    method ReleaseLock(key: Lock.LockKey, client: string) returns (code: int)
      requires Valid()
      modifies Footprint()
      ensures Valid() && fresh(Footprint() - old(Footprint()))
      ensures var (m, c) := Lock.Release(old(locks.M), key, client);
              State() == old(State()).(locks := m) && code == c
    {
      hide HashTable.Valid;
      code := Lock.LockRelease(locks, key.0, key.1, client);
    }

    method SaveUndo(filename: string, content: string)
      requires Valid()
      modifies Footprint()
      ensures Valid() && fresh(Footprint() - old(Footprint()))
      ensures State() == old(State()).(undos := Buf.Saved(old(undos.table.M), filename, content).0)
    {
      hide HashTable.Valid;
      var saved := undos.Save(filename, content);
    }

    method IndexContent(filename: string, content: string)
      requires Valid() && |content| < MAX_CONTENT_LEN
      modifies Footprint()
      ensures Valid() && fresh(Footprint() - old(Footprint()))
      ensures State() == old(State()).(index := Idx.IndexFile(old(index.M), filename, content))
    {
      hide HashTable.Valid;
      var count := Idx.IndexContent(index, filename, content);
    }

    method SetSession(next: Option<WriteSession>)
      requires Valid()
      modifies this
      ensures Valid() && Footprint() == old(Footprint())
      ensures State() == old(State()).(session := next)
    {
      session := next;
    }

    method SetFiles(next: map<string, string>)
      requires Valid()
      modifies this
      ensures Valid() && Footprint() == old(Footprint())
      ensures State() == old(State()).(files := next)
    {
      files := next;
    }

    /** The last part of WRITE_START: the session is set up and the content saved for UNDO. */
    method BeginSession(next: WriteSession, content: string)
      requires Valid()
      modifies Footprint()
      ensures Valid() && fresh(Footprint() - old(Footprint()))
      ensures State() == old(State()).(session := Some(next),
                                       undos := Buf.Saved(old(undos.table.M), next.filename, content).0)
    {
      hide Valid;
      SetSession(Some(next));
      SaveUndo(next.filename, content);
    }

    /** WRITE_START (storage_server.c:338-424). */
    method HandleStart(filename: string, sentence: int, client: string, now: int) returns (code: int)
      requires Valid()
      modifies Footprint()
      ensures Valid() && fresh(Footprint() - old(Footprint()))
      ensures (State(), code) == Start(old(State()), filename, sentence, client, now)
    {
      hide Sentences;
      hide Words;
      hide View;
      hide Valid;
      if filename !in files {
        return ERR_NOT_FOUND;
      }
      code := AcquireLock((filename, sentence), client, now);
      if code == ERR_LOCKED {
        return;
      }
      var content := ReadFile(filename);
      var sentences := ParseSentences(content);
      if sentence < 0 || sentence > |sentences| {
        var released := ReleaseLock((filename, sentence), client);
        return ERR_INDEX_ERROR;
      }
      var words := [];
      if sentence < |sentences| {
        words := ParseWords(sentences[sentence]);
      }
      BeginSession(WriteSession(filename, sentence, client, words), content);
      return ERR_SUCCESS;
    }

    /** WRITE_UPDATE (storage_server.c:426-474): the word list is copied around the new word. */
    method HandleUpdate(index: int, word: string) returns (code: int)
      requires Valid()
      modifies this
      ensures Valid() && Footprint() == old(Footprint())
      ensures (State(), code) == UpdateWord(old(State()), index, word)
    {
      if session.None? {
        return ERR_BAD_REQUEST;
      }
      var words := session.value.words;
      if index < 0 || index > |words| {
        return ERR_INDEX_ERROR;
      }
      var newWords := InsertNewWord(words, index, word);
      SetSession(Some(session.value.(words := newWords)));
      return ERR_SUCCESS;
    }

    /** The new file content of a commit (storage_server.c:487-574). */
    method NewContent() returns (content: string)
      requires session.Some? && CanCommit(State()) && InBounds(State())
      ensures content == Committed(files[session.value.filename], session.value)
    {
      hide Sentences;
      hide JoinWith;
      hide View;
      hide Spliced;
      var here := session.value;
      var text := ReadFile(here.filename);
      var sentences := ParseSentences(text);
      var newSentence := JoinList(here.words, ' ');
      var spliced := CommitSentences(sentences, here.sentence, newSentence);
      content := RebuildFile(spliced);
    }

    /** WRITE_COMMIT (storage_server.c:476-621). */
    method HandleCommit() returns (code: int)
      requires Valid() && InBounds(State()) && CanCommit(State())
      modifies Footprint()
      ensures Valid() && fresh(Footprint() - old(Footprint()))
      ensures (State(), code) == Commit(old(State()))
    {
      hide Committed;
      hide View;
      hide Valid;
      if session.None? {
        return ERR_BAD_REQUEST;
      }
      var here := session.value;
      var newContent := NewContent();
      SetFiles(Replaced(files, here.filename, newContent));
      assert Footprint() == old(Footprint());
      var released := ReleaseLock(here.Key(), here.client);
      assert fresh(Footprint() - old(Footprint()));
      var updated := ReadFile(here.filename);
      ViewIsWhole(newContent);
      IndexContent(here.filename, updated);
      assert fresh(Footprint() - old(Footprint()));
      SetSession(None);
      return ERR_SUCCESS;
    }

    /** The client's connection breaks inside a write loop (storage_server.c:1185-1195). */
    method HandleDisconnect()
      requires Valid()
      modifies Footprint()
      ensures Valid() && fresh(Footprint() - old(Footprint()))
      ensures State() == if old(session).Some? then EndSession(old(State())) else old(State())
    {
      hide Valid;
      if session.Some? {
        var released := ReleaseLock(session.value.Key(), session.value.client);
        SetSession(None);
      }
    }

    /** `handle_undo_request` (storage_server.c:624-673). */
    method HandleUndo(filename: string) returns (code: int)
      requires Valid()
      modifies Footprint()
      ensures Valid() && fresh(Footprint() - old(Footprint()))
      ensures (State(), code) == UndoStep(old(State()), filename)
    {
      hide HashTable.Valid;
      var available := undos.IsAvailable(filename);
      if !available {
        return ERR_NOT_FOUND;
      }
      var content := undos.Restore(filename);
      files := files[filename := content.value];
      return ERR_SUCCESS;
    }

    /** CREATE, REPLICATE and DELETE from the name server (storage_server.c:1028-1041, 1103-1117). */
    method HandleCreate(filename: string) returns (code: int)
      requires Valid()
      modifies Footprint()
      ensures Valid() && fresh(Footprint() - old(Footprint()))
      ensures (State(), code) == CreateStep(old(State()), filename)
    {
      hide Valid;
      if filename in files {
        return ERR_CONFLICT;
      }
      SetFiles(files[filename := ""]);
      IndexContent(filename, "");
      return ERR_CREATED;
    }

    method HandleReplicate(filename: string)
      requires Valid()
      modifies this
      ensures Valid() && Footprint() == old(Footprint())
      ensures State() == if filename in old(files) then old(State())
                         else old(State()).(files := old(files)[filename := ""])
    {
      if filename !in files {
        files := files[filename := ""];
      }
    }

    method HandleDelete(filename: string) returns (code: int)
      requires Valid()
      modifies Footprint()
      ensures Valid() && fresh(Footprint() - old(Footprint()))
      ensures (State(), code) == DeleteStep(old(State()), filename)
    {
      hide HashTable.Valid;
      if filename !in files {
        return ERR_NOT_FOUND;
      }
      files := files - {filename};
      var removed := Idx.IndexRemoveFile(index, filename);
      return ERR_SUCCESS;
    }

    /** One pass of the lock cleanup thread (storage_server.c:1277-1287). */
    method HandleCleanup(now: int)
      requires Valid()
      modifies Footprint()
      ensures Valid() && fresh(Footprint() - old(Footprint()))
      ensures State() == old(State()).(locks := Lock.Cleaned(old(locks.M), now))
    {
      hide HashTable.Valid;
      var cleaned := Lock.LockCleanupExpired(locks, now);
    }

    method SetLoop(next: bool)
      requires Valid()
      modifies this
      ensures Valid() && Footprint() == old(Footprint())
      ensures State() == old(State()).(inLoop := next)
    {
      inLoop := next;
    }

    /** The loop of `client_server_thread` (storage_server.c:1175-1267), one message at a time. */
    method ClientMessage(r: Request, now: int) returns (code: int)
      requires Valid() && InBounds(State()) && Defined(State(), Message(r))
      modifies Footprint()
      ensures Valid() && fresh(Footprint() - old(Footprint()))
      ensures (State(), code) == Step(old(State()), Event(now, Message(r)))
    {
      hide Valid;
      hide Start;
      hide UpdateWord;
      hide Commit;
      hide UndoStep;
      if inLoop {
        match r {
          case WriteUpdate(index, word) =>
            code := HandleUpdate(index, word);
          case WriteCommit =>
            code := HandleCommit();
            SetLoop(false);
          case _ =>
            SetLoop(false);
            code := NO_RESPONSE;
        }
      } else {
        match r {
          case WriteStart(filename, sentence, client) =>
            code := HandleStart(filename, sentence, client, now);
            SetLoop(true);
          case UndoFile(filename) =>
            code := HandleUndo(filename);
          case WriteUpdate(_, _) =>
            code := ERR_BAD_REQUEST;
          case WriteCommit =>
            code := ERR_BAD_REQUEST;
          case ReadOnly =>
            code := ERR_SUCCESS;
        }
      }
    }

    method Dispatch(e: Event) returns (code: int)
      requires Valid() && InBounds(State()) && Defined(State(), e.action)
      modifies Footprint()
      ensures Valid() && fresh(Footprint() - old(Footprint()))
      ensures (State(), code) == Step(old(State()), e)
    {
      hide InBounds;
      hide Valid;
      hide LoopMessage;
      hide FirstMessage;
      hide CreateStep;
      hide DeleteStep;
      code := NO_RESPONSE;
      match e.action {
        case Message(r) =>
          code := ClientMessage(r, e.at);
        case Disconnect =>
          if inLoop {
            HandleDisconnect();
          }
          SetLoop(false);
        case NsCreate(filename) =>
          code := HandleCreate(filename);
        case NsReplicate(filename) =>
          HandleReplicate(filename);
          code := ERR_SUCCESS;
        case NsDelete(filename) =>
          code := HandleDelete(filename);
        case Cleanup =>
          HandleCleanup(e.at);
      }
    }

    /** Every event of the server is the step of its state, and leaves the session in its bounds. */
    method Handle(e: Event) returns (code: int)
      requires Valid() && InBounds(State()) && Defined(State(), e.action)
      modifies Footprint()
      ensures Valid() && fresh(Footprint() - old(Footprint()))
      ensures (State(), code) == Step(old(State()), e) && InBounds(State())
    {
      hide Valid;
      hide Step;
      hide InBounds;
      StepInBounds(State(), e);
      code := Dispatch(e);
    }

    /** Start-up indexing of the files found in the directory (storage_server.c:1423-1428). */
    method IndexExisting(existing: seq<string>)
      requires Valid() && forall i :: 0 <= i < |existing| ==> existing[i] in files
      modifies Footprint()
      ensures Valid() && fresh(Footprint() - old(Footprint()))
      ensures State() == old(State()).(index := IndexAll(old(index.M), old(files), existing))
    {
      hide Valid;
      hide View;
      var i := 0;
      assert existing[..0] == [];
      while i < |existing|
        invariant 0 <= i <= |existing|
        invariant Valid() && fresh(Footprint() - old(Footprint()))
        invariant State() == old(State()).(index := IndexAll(old(index.M), old(files), existing[..i]))
      {
        var content := ReadFile(existing[i]);
        ViewIsWhole(files[existing[i]]);
        IndexContent(existing[i], content);
        assert existing[..i + 1][..i] == existing[..i];
        i := i + 1;
      }
      assert existing[..i] == existing;
    }
  }
}
