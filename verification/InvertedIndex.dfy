/** The inverted index: words to the files that hold them (storage_server/inverted_index.c). */
module InvertedIndex {
  import opened Text
  import opened Protocol
  import opened HashTables

  const INDEX_SIZE := 2003
  const MAX_WORD_LEN := 100
  const MAX_FILES_PER_WORD := 50

  // ----- words -----

  /** `isalnum` in the C locale. */
  predicate IsAlnum(c: char) {
    '0' <= c <= '9' || 'a' <= c <= 'z' || 'A' <= c <= 'Z'
  }

  function ToLower(c: char): char {
    if 'A' <= c <= 'Z' then c + ('a' - 'A') else c
  }

  function Cut(s: string): string {
    if |s| < MAX_WORD_LEN then s else s[..MAX_WORD_LEN - 1]
  }

  /** `to_lowercase`: lower case, at most 99 characters. */
  function Normalized(word: string): (r: string)
    ensures |r| == |Cut(word)|
  {
    seq(|Cut(word)|, i requires 0 <= i < |Cut(word)| => ToLower(Cut(word)[i]))
  }

  function RunLength(s: string): (n: nat)
    ensures n <= |s|
    ensures forall i :: 0 <= i < n ==> IsAlnum(s[i])
    ensures n < |s| ==> !IsAlnum(s[n])
  {
    if s == "" || !IsAlnum(s[0]) then 0 else 1 + RunLength(s[1..])
  }

  /** A run of one character is not indexed. */
  function Token(run: string): seq<string> {
    if |run| >= 2 then [Normalized(run)] else []
  }

  /** The words that get indexed for a text, in order. */
  function Tokens(s: string): seq<string>
    decreases |s|
  {
    if s == "" then []
    else if !IsAlnum(s[0]) then Tokens(s[1..])
    else
      var n := RunLength(s);
      Token(s[..n]) + Tokens(s[n..])
  }

  predicate MaximalRun(s: string, i: nat, j: nat) {
    && i < j <= |s|
    && (forall k :: i <= k < j ==> IsAlnum(s[k]))
    && (i > 0 ==> !IsAlnum(s[i - 1]))
    && (j < |s| ==> !IsAlnum(s[j]))
  }

  /** `w` is the normalised form of a maximal alphanumeric run of at least two characters. */
  ghost predicate Occurs(s: string, w: string) {
    exists i: nat, j: nat :: MaximalRun(s, i, j) && j - i >= 2 && w == Normalized(s[i..j])
  }

  /** A run of the rest is a run of the whole unless what stands before it belongs to it. */
  lemma RunShift(s: string, n: nat, i: nat, j: nat)
    requires n <= |s| && MaximalRun(s[n..], i, j) && (i == 0 < n ==> !IsAlnum(s[n - 1]))
    ensures MaximalRun(s, n + i, n + j) && s[n + i..n + j] == s[n..][i..j]
  {
    hide IsAlnum;
    var t := s[n..];
    assert forall k :: 0 <= k < |t| ==> t[k] == s[n + k];
    forall k | n + i <= k < n + j ensures IsAlnum(s[k]) {
      assert IsAlnum(t[k - n]);
    }
  }

  lemma RunsOfRest(s: string, n: nat, w: string)
    requires 0 < n <= |s| && (n < |s| ==> !IsAlnum(s[n]) || !IsAlnum(s[n - 1]))
    requires Occurs(s[n..], w)
    ensures Occurs(s, w)
  {
    hide Normalized;
    var i: nat, j: nat :| MaximalRun(s[n..], i, j) && j - i >= 2 && w == Normalized(s[n..][i..j]);
    assert i == 0 ==> IsAlnum(s[n..][0]);
    RunShift(s, n, i, j);
  }

  lemma RunInRest(s: string, n: nat, i: nat, j: nat)
    requires n <= i && MaximalRun(s, i, j)
    ensures MaximalRun(s[n..], i - n, j - n) && s[n..][i - n..j - n] == s[i..j]
  {
    hide IsAlnum;
    var t := s[n..];
    assert forall k :: 0 <= k < |t| ==> t[k] == s[n + k];
  }

  /** The tokenizer finds every word that occurs and no other. */
  lemma {:induction false} TokensAreRuns(s: string, w: string)
    ensures w in Tokens(s) <==> Occurs(s, w)
    decreases |s|
  {
    hide Normalized;
    hide IsAlnum;
    if s != "" {
      var alnum := IsAlnum(s[0]);
      var n := if alnum then RunLength(s) else 1;
      var head := if alnum then Token(s[..n]) else [];
      assert Tokens(s) == head + Tokens(s[n..]);
      TokensAreRuns(s[n..], w);
      if w in head {
        assert MaximalRun(s, 0, n) && s[0..n] == s[..n];
      }
      if Occurs(s[n..], w) {
        RunsOfRest(s, n, w);
      }
      if Occurs(s, w) {
        var i: nat, j: nat :| MaximalRun(s, i, j) && j - i >= 2 && w == Normalized(s[i..j]);
        if i >= n {
          RunInRest(s, n, i, j);
        } else {
          assert alnum && i == 0;
          assert j == n && s[0..n] == s[..n];
        }
      }
    }
  }

  // ----- the index as a map from words to file lists -----

  type Index = map<string, seq<string>>
  type IndexTable = HashTable<string, seq<string>>

  /** `hash_word`, up to the reduction to a bucket number. */
  function IndexHash(word: string): nat {
    Hash64(seq(|word|, i requires 0 <= i < |word| => ToLower(word[i])))
  }

  /** The files listed for a word. */
  function Files(m: Index, w: string): seq<string> {
    if w in m then m[w] else []
  }

  /** File lists are non-empty, duplicate-free and within their fixed size. */
  predicate Tidy(m: Index) {
    forall w :: w in m ==> m[w] != [] && NoDuplicates(m[w]) && |m[w]| <= MAX_FILES_PER_WORD
  }

  /** Lists a file for a normalised word. */
  function AddWord(m: Index, w: string, filename: string): Index {
    if w !in m then m[w := [filename]]
    else if filename in m[w] || |m[w]| >= MAX_FILES_PER_WORD then m
    else m[w := m[w] + [filename]]
  }

  /** What `index_remove_file` does to one word's list. */
  function FateOf(filename: string, files: seq<string>): Option<seq<string>> {
    if filename !in files then Some(files)
    else if |files| == 1 then None
    else Some(RemoveFirst(files, filename))
  }

  function RemoveFile(m: Index, filename: string): Index {
    map w | w in m && FateOf(filename, m[w]).Some? :: FateOf(filename, m[w]).value
  }

  function AddWords(m: Index, words: seq<string>, filename: string): Index
    decreases |words|
  {
    if words == [] then m else AddWords(AddWord(m, words[0], filename), words[1..], filename)
  }

  /** `index_file`: empty content leaves the index alone. */
  function IndexFile(m: Index, filename: string, content: string): Index {
    if content == "" then m else AddWords(RemoveFile(m, filename), Tokens(content), filename)
  }

  // ----- the table -----

  /** `index_add_word`; the C code's -1 is false. */
  method IndexAddWord(table: IndexTable, word: string, filename: string) returns (ok: bool)
    requires table.Valid()
    modifies table.Repr
    ensures table.Valid() && fresh(table.Repr - old(table.Repr))
    ensures table.M == if word == "" then old(table.M) else AddWord(old(table.M), Normalized(word), filename)
    ensures ok <==> word != "" && filename in Files(table.M, Normalized(word))
  {
    if word == "" {
      return false;
    }
    var w := Normalized(word);
    var last, node, j := table.Find(w);
    if node != null {
      var files := node.val;
      var i := 0;
      while i < |files|
        invariant 0 <= i <= |files|
        invariant filename !in files[..i]
      {
        if files[i] == filename {
          return true;
        }
        i := i + 1;
      }
      assert files[..i] == files;
      if |files| < MAX_FILES_PER_WORD {
        table.SetVal(node, j, files + [filename]);
        return true;
      }
      return false;
    }
    table.Append(last, w, [filename]);
    return true;
  }

  /** `index_remove_file`: returns the number of words that listed the file. */
  method IndexRemoveFile(table: IndexTable, filename: string) returns (removed: nat)
    requires table.Valid()
    modifies table.Repr
    ensures table.Valid() && table.Repr == old(table.Repr)
    ensures table.M == RemoveFile(old(table.M), filename)
    ensures removed == |set w | w in old(table.M) && filename in old(table.M)[w]|
  {
    ghost var m := table.M;
    var fate := (word: string, files: seq<string>) => FateOf(filename, files);
    removed := table.Sweep(fate);
    forall w | w in m ensures filename in m[w] <==> FateOf(filename, m[w]) != Some(m[w]) {
      if filename in m[w] { RemoveFirstShorter(m[w], filename); }
    }
    assert Touched(m, m.Keys, fate) == set w | w in m && filename in m[w];
  }

  lemma {:induction false} RemoveFirstShorter(s: seq<string>, x: string)
    requires x in s
    ensures |RemoveFirst(s, x)| == |s| - 1
  {
    if s[0] != x {
      RemoveFirstShorter(s[1..], x);
    }
  }

  /** `index_search`: the files of the normalised word. */
  method IndexSearch(table: IndexTable, word: string) returns (files: seq<string>)
    requires table.Valid()
    ensures files == Files(table.M, Normalized(word))
  {
    var prev, node, j := table.Find(Normalized(word));
    return if node != null then node.val else [];
  }

  /** One character of the tokenizer: the current run is `s[start..i]`. */
  lemma RunStep(s: string, start: nat, i: nat)
    requires start <= i < |s| && RunLength(s[start..]) >= i - start
    ensures IsAlnum(s[i]) ==>
              RunLength(s[start..]) > i - start && Cut(s[start..i + 1]) ==
              (if |Cut(s[start..i])| < MAX_WORD_LEN - 1 then Cut(s[start..i]) + [s[i]] else Cut(s[start..i]))
    ensures !IsAlnum(s[i]) ==> Tokens(s[start..]) == Token(s[start..i]) + Tokens(s[i + 1..])
  {
    var t, n := s[start..], i - start;
    assert t[n] == s[i];
    if IsAlnum(s[i]) {
      assert s[start..i + 1] == s[start..i] + [s[i]];
    } else {
      assert RunLength(t) == n;
      assert t[n..] == s[i..] && t[n..][1..] == s[i + 1..] && t[..n] == s[start..i];
      assert Tokens(s[i..]) == Tokens(s[i + 1..]);
    }
  }

  lemma RunEnd(s: string, start: nat)
    requires start <= |s| && RunLength(s[start..]) == |s| - start
    ensures Tokens(s[start..]) == Token(s[start..|s|])
  {
    var t := s[start..];
    assert s[start..|s|] == t;
    if t != "" {
      assert t[..|t|] == t && t[|t|..] == "" && Tokens("") == [];
    }
  }

  lemma AddWordsOfToken(m: Index, run: string, rest: seq<string>, filename: string)
    ensures AddWords(m, Token(run) + rest, filename) ==
            AddWords(if |run| >= 2 then AddWord(m, Normalized(run), filename) else m, rest, filename)
  {
    if |run| >= 2 {
      assert (Token(run) + rest)[1..] == rest;
    } else {
      assert Token(run) + rest == rest;
    }
  }

  /** Adds the word that has just ended, unless it is too short. */
  method IndexRun(table: IndexTable, word: string, filename: string, ghost run: string, ghost rest: seq<string>)
    returns (count: nat)
    requires table.Valid() && word == Cut(run)
    modifies table.Repr
    ensures table.Valid() && fresh(table.Repr - old(table.Repr))
    ensures count == |Token(run)|
    ensures AddWords(table.M, rest, filename) == AddWords(old(table.M), Token(run) + rest, filename)
  {
    count := 0;
    AddWordsOfToken(table.M, run, rest, filename);
    if |word| >= 2 {
      CutTwice(run);
      var ok := IndexAddWord(table, word, filename);
      count := 1;
    }
  }

  lemma CutTwice(run: string)
    ensures Normalized(Cut(run)) == Normalized(run)
  {
    assert Cut(Cut(run)) == Cut(run);
  }

  /** The tokenizer before character `i`: `word` is the run that began at `start`; `pending` is what is left to add. */
  ghost predicate Scanning(content: string, start: nat, i: nat, word: string, pending: seq<string>) {
    && start <= i <= |content|
    && i - start <= RunLength(content[start..])
    && word == Cut(content[start..i]) && (word == "" <==> start == i)
    && pending == Tokens(content[start..])
  }

  lemma ScanBegins(content: string)
    ensures Scanning(content, 0, 0, "", Tokens(content))
  {
    assert content[0..] == content && content[0..0] == "";
    hide Tokens;
  }

  lemma ScanAlnum(content: string, start: nat, i: nat, word: string, pending: seq<string>)
    requires Scanning(content, start, i, word, pending) && i < |content| && IsAlnum(content[i])
    ensures Scanning(content, start, i + 1, if |word| < MAX_WORD_LEN - 1 then word + [content[i]] else word, pending)
  {
    RunStep(content, start, i);
    hide Tokens;
    hide RunLength;
    hide Cut;
  }

  lemma ScanSeparator(content: string, start: nat, i: nat, word: string, pending: seq<string>)
    requires Scanning(content, start, i, word, pending) && i < |content| && !IsAlnum(content[i])
    ensures start <= i && word == Cut(content[start..i])
    ensures pending == Token(content[start..i]) + Tokens(content[i + 1..])
    ensures word == "" ==> pending == Tokens(content[i + 1..])
    ensures Scanning(content, i + 1, i + 1, "", Tokens(content[i + 1..]))
  {
    RunStep(content, start, i);
    assert content[i..i] == "" && content[i + 1..i + 1] == "" && Cut("") == "" && Token("") == [];
    hide Tokens;
    hide RunLength;
    hide Cut;
    hide Token;
    assert [] + Tokens(content[i + 1..]) == Tokens(content[i + 1..]);
  }

  lemma ScanEnd(content: string, start: nat, word: string, pending: seq<string>)
    requires Scanning(content, start, |content|, word, pending)
    ensures start <= |content| && word == Cut(content[start..|content|])
    ensures pending == Token(content[start..|content|]) + []
    ensures word == "" ==> pending == []
  {
    RunEnd(content, start);
    assert content[|content|..|content|] == "" && Token("") == [];
    hide Tokens;
    hide RunLength;
    hide Cut;
  }

  lemma AddsNothing(m: Index, filename: string)
    ensures AddWords(m, [], filename) == m && Tokens("") == []
  {}

  /** The loop of `index_file` over the characters of the text. */
  method AddRuns(table: IndexTable, filename: string, content: string) returns (count: nat)
    requires table.Valid()
    modifies table.Repr
    ensures table.Valid() && fresh(table.Repr - old(table.Repr))
    ensures table.M == AddWords(old(table.M), Tokens(content), filename)
    ensures count == |Tokens(content)|
  {
    hide *;
    ghost var start, pending := 0, Tokens(content);
    var word := "";
    count := 0;
    var i := 0;
    ScanBegins(content);
    while i < |content|
      invariant 0 <= i <= |content| && Scanning(content, start, i, word, pending)
      invariant table.Valid() && fresh(table.Repr - old(table.Repr))
      invariant AddWords(table.M, pending, filename) == AddWords(old(table.M), Tokens(content), filename)
      invariant count + |pending| == |Tokens(content)|
    {
      if !IsAlnum(content[i]) {
        ScanSeparator(content, start, i, word, pending);
        ghost var rest := Tokens(content[i + 1..]);
        if |word| > 0 {
          var n := IndexRun(table, word, filename, content[start..i], rest);
          count := count + n;
          word := "";
        }
        start, pending := i + 1, rest;
      } else {
        ScanAlnum(content, start, i, word, pending);
        if |word| < MAX_WORD_LEN - 1 {
          word := word + [content[i]];
        }
      }
      i := i + 1;
    }
    ScanEnd(content, start, word, pending);
    if |word| > 0 {
      var n := IndexRun(table, word, filename, content[start..|content|], []);
      count := count + n;
    }
    AddsNothing(table.M, filename);
  }

  /** What the 4096-byte buffer of `index_file` takes of a text. */
  function Buffered(content: string): string {
    if |content| < MAX_CONTENT_LEN then content else content[..MAX_CONTENT_LEN - 1]
  }

  /** `index_file`. */
  method IndexContent(table: IndexTable, filename: string, content: string) returns (count: nat)
    requires table.Valid()
    modifies table.Repr
    ensures table.Valid() && fresh(table.Repr - old(table.Repr))
    ensures table.M == IndexFile(old(table.M), filename, Buffered(content))
    ensures count == |Tokens(Buffered(content))|
  {
    hide Tokens;
    hide RemoveFile;
    hide AddWords;
    hide HashTable.Valid;
    if |content| == 0 {
      AddsNothing(table.M, filename);
      return 0;
    }
    var removed := IndexRemoveFile(table, filename);
    count := AddRuns(table, filename, Buffered(content));
  }

  // ----- what indexing means -----

  lemma RemoveFileLists(m: Index, filename: string, w: string)
    requires Tidy(m)
    ensures Files(RemoveFile(m, filename), w) == Without(Files(m, w), filename)
  {
    if w in m {
      var files := m[w];
      RemoveFirstOfDistinct(files, filename);
      if filename in files {
        RemoveFirstShorter(files, filename);
        if |files| == 1 {
          assert Without(files, filename) == [];
        }
      } else {
        WithoutAbsent(files, filename);
      }
    }
  }

  lemma RemoveFileTidy(m: Index, filename: string)
    requires Tidy(m)
    ensures Tidy(RemoveFile(m, filename))
  {
    var m' := RemoveFile(m, filename);
    forall w | w in m' ensures m'[w] != [] && NoDuplicates(m'[w]) && |m'[w]| <= MAX_FILES_PER_WORD {
      RemoveFileLists(m, filename, w);
      WithoutMembers(m[w], filename);
      if filename in m[w] {
        RemoveFirstShorter(m[w], filename);
      }
    }
  }

  /** A file list after its file has been offered to it: full lists refuse. */
  function Offered(files: seq<string>, filename: string): seq<string> {
    if filename in files || |files| >= MAX_FILES_PER_WORD then files else files + [filename]
  }

  lemma {:induction false} AddWordsLists(m: Index, words: seq<string>, filename: string, w: string)
    ensures Files(AddWords(m, words, filename), w) ==
            if w in words then Offered(Files(m, w), filename) else Files(m, w)
    decreases |words|
  {
    if words != [] {
      AddWordsLists(AddWord(m, words[0], filename), words[1..], filename, w);
      assert w in words <==> w == words[0] || w in words[1..];
    }
  }

  lemma {:induction false} AddWordsTidy(m: Index, words: seq<string>, filename: string)
    requires Tidy(m)
    ensures Tidy(AddWords(m, words, filename))
    decreases |words|
  {
    if words != [] {
      AddWordsTidy(AddWord(m, words[0], filename), words[1..], filename);
    }
  }

  /**
    Re-indexing, list by list: the file leaves every list it was in, the others keep their order, and it is
    appended to the lists of exactly the words of the new content that have room.
  */
  lemma ReindexLists(m: Index, filename: string, content: string, w: string)
    requires Tidy(m) && content != ""
    ensures var others := Without(Files(m, w), filename);
            Files(IndexFile(m, filename, content), w) ==
            if w in Tokens(content) && |others| < MAX_FILES_PER_WORD then others + [filename] else others
  {
    var others := Without(Files(m, w), filename);
    RemoveFileLists(m, filename, w);
    WithoutMembers(Files(m, w), filename);
    AddWordsLists(RemoveFile(m, filename), Tokens(content), filename, w);
  }

  /** Re-indexing as a relation between words and files. */
  lemma ReindexRelation(m: Index, filename: string, content: string, w: string, g: string)
    requires Tidy(m) && content != ""
    ensures g != filename ==> (g in Files(IndexFile(m, filename, content), w) <==> g in Files(m, w))
    ensures filename in Files(IndexFile(m, filename, content), w) <==>
            Occurs(content, w) && |Without(Files(m, w), filename)| < MAX_FILES_PER_WORD
  {
    ReindexLists(m, filename, content, w);
    WithoutMembers(Files(m, w), filename);
    TokensAreRuns(content, w);
  }

  lemma IndexStaysTidy(m: Index, filename: string, content: string)
    requires Tidy(m)
    ensures Tidy(IndexFile(m, filename, content)) && Tidy(RemoveFile(m, filename))
  {
    RemoveFileTidy(m, filename);
    AddWordsTidy(RemoveFile(m, filename), Tokens(content), filename);
  }
}
