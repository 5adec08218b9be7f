/** A sentence as a list of words (storage_server/sentence_parser.c:77-179, storage_server.c:440-467). */
module WordParser {
  import opened Text
  import opened Splitting

  predicate SpaceFree(s: string) {
    FreeOf(s, WhiteSpace)
  }

  /** Every element is non-empty and space-free. */
  predicate AllWords(ws: seq<string>) {
    AllTokens(ws, WhiteSpace)
  }

  /** The words of a sentence, in order. */
  function Words(s: string): seq<string> {
    Split(s, WhiteSpace)
  }

  /** The words with one space between neighbours. */
  function Join(ws: seq<string>): string {
    JoinWith(ws, ' ')
  }

  lemma WordsAreWords(s: string)
    ensures AllWords(Words(s))
  {
    SplitsAreTokens(s, WhiteSpace);
  }

  lemma WordsSplit(a: string, c: char, b: string)
    requires IsSpace(c)
    ensures Words(a + [c] + b) == Words(a) + Words(b)
  {
    SplitAt(a, c, b, WhiteSpace);
  }

  /** A word list survives being joined and re-parsed exactly when it holds words only. */
  lemma WordListRoundTrip(ws: seq<string>)
    ensures Words(Join(ws)) == ws <==> AllWords(ws)
  {
    JoinRoundTrip(ws, ' ', WhiteSpace);
  }

  /** Blank, tab, line feed, vertical tab, form feed and carriage return. */
  const BLANKS: string := " \t\n\U{0B}\U{0C}\r"

  /** A longest piece of `s` without any of them. */
  predicate BlankFreeRun(s: string, i: nat, j: nat) {
    && i < j <= |s| && (forall k :: i <= k < j ==> s[k] !in BLANKS)
    && (i > 0 ==> s[i - 1] in BLANKS) && (j < |s| ==> s[j] in BLANKS)
  }

  lemma SpaceIsBlank(c: char)
    ensures IsSpace(c) <==> c in BLANKS
  {
    var n := c as int;
    assert n == 9 ==> c == '\t';
    assert n == 10 ==> c == '\n';
    assert n == 11 ==> c == '\U{0B}';
    assert n == 12 ==> c == '\U{0C}';
    assert n == 13 ==> c == '\r';
  }

  /** The words of a text are exactly its longest pieces without blanks. */
  lemma WordsAreRuns(s: string, w: string)
    ensures w in Words(s) <==> exists i: nat, j: nat :: BlankFreeRun(s, i, j) && w == s[i..j]
  {
    SplitsArePieces(s, w, WhiteSpace);
    forall c ensures IsSpace(c) <==> c in BLANKS { SpaceIsBlank(c); }
    hide IsSpace;
    hide Split;
    assert forall i: nat, j: nat :: BlankFreeRun(s, i, j) <==> MaximalPiece(s, i, j, WhiteSpace);
  }

  /** One character of the scan, with the current word in `buf`. */
  lemma ScanStep(buf: string, c: char, rest: string)
    requires SpaceFree(buf)
    ensures IsSpace(c) ==>
              Words(buf + [c] + rest) == (if buf == "" then [] else [buf]) + Words("" + rest)
    ensures if IsSpace(c) then SpaceFree("") else SpaceFree(buf + [c])
  {
    assert "" + rest == rest;
    if IsSpace(c) {
      WordsSplit(buf, c, rest);
      if buf != "" {
        SplitToken(buf, WhiteSpace);
      }
    }
  }

  lemma ScanStart(s: string)
    ensures SpaceFree("") && s == "" + s[0..]
  {}

  lemma ScanEnd(buf: string)
    requires SpaceFree(buf)
    ensures Words(buf) == if buf == "" then [] else [buf]
  {
    if buf != "" {
      SplitToken(buf, WhiteSpace);
    }
  }

  /** `parse_words`. */
  method ParseWords(sentence: string) returns (words: seq<string>)
    ensures words == Words(sentence)
  {
    hide *;
    ScanStart(sentence);
    words := [];
    var wordBuf := "";
    var ptr := 0;
    while ptr < |sentence|
      invariant ptr <= |sentence| && SpaceFree(wordBuf)
      invariant words + Words(wordBuf + sentence[ptr..]) == Words(sentence)
    {
      var c := sentence[ptr];
      ScanStep(wordBuf, c, sentence[ptr + 1..]);
      assert wordBuf + sentence[ptr..] == wordBuf + [c] + sentence[ptr + 1..];
      if IsSpace(c) {
        if wordBuf != "" {
          words := words + [wordBuf];
          wordBuf := "";
        }
      } else {
        wordBuf := wordBuf + [c];
      }
      ptr := ptr + 1;
    }
    assert wordBuf + sentence[ptr..] == wordBuf;
    ScanEnd(wordBuf);
    if wordBuf != "" {
      words := words + [wordBuf];
    }
  }

  /** Every word followed by a space. */
  function Spaced(ws: seq<string>): string {
    if ws == [] then "" else ws[0] + [' '] + Spaced(ws[1..])
  }

  lemma {:induction false} SpacedSnoc(ws: seq<string>, w: string)
    ensures Spaced(ws + [w]) == Spaced(ws) + w + [' ']
  {
    if ws == [] {
      assert Spaced([w]) == w + [' '] + Spaced([]);
    } else {
      assert (ws + [w])[1..] == ws[1..] + [w];
      SpacedSnoc(ws[1..], w);
    }
  }

  lemma {:induction false} WordsOfSpaced(ws: seq<string>, rest: string)
    ensures Words(Spaced(ws) + rest) == EachSplit(ws, WhiteSpace) + Words(rest)
  {
    if ws == [] {
      assert Spaced(ws) + rest == rest;
    } else {
      assert Spaced(ws) + rest == ws[0] + [' '] + (Spaced(ws[1..]) + rest);
      WordsSplit(ws[0], ' ', Spaced(ws[1..]) + rest);
      WordsOfSpaced(ws[1..], rest);
    }
  }

  /** One list inserted into another. */
  function InsertAt<T>(s: seq<T>, i: nat, mid: seq<T>): (r: seq<T>)
    requires i <= |s|
    ensures |r| == |s| + |mid|
  {
    s[..i] + mid + s[i..]
  }

  lemma InsertAtMultiset<T>(s: seq<T>, i: nat, mid: seq<T>)
    requires i <= |s|
    ensures multiset(InsertAt(s, i, mid)) == multiset(s) + multiset(mid)
  {
    assert s == s[..i] + s[i..];
  }

  lemma InsertedWords(words: seq<string>, i: nat, word: string)
    requires AllWords(words) && i <= |words|
    ensures Words(Spaced(words[..i]) + word + [' '] + Join(words[i..])) == InsertAt(words, i, Words(word))
  {
    var a, b := words[..i], words[i..];
    var rest := word + [' '] + Join(b);
    assert Words(rest) == Words(word) + b by {
      WordsSplit(word, ' ', Join(b));
      SplitOfJoin(b, ' ', WhiteSpace);
      EachSplitOfTokens(b, WhiteSpace);
    }
    assert Words(Spaced(a) + rest) == a + Words(rest) by {
      WordsOfSpaced(a, rest);
      EachSplitOfTokens(a, WhiteSpace);
    }
    assert Spaced(a) + word + [' '] + Join(b) == Spaced(a) + rest;
  }

  /** The first loop of `insert_word`. */
  method SpaceWords(ws: seq<string>) returns (text: string)
    ensures text == Spaced(ws)
  {
    text := "";
    var i := 0;
    while i < |ws|
      invariant i <= |ws|
      invariant text == Spaced(ws[..i])
    {
      assert ws[..i + 1] == ws[..i] + [ws[i]];
      SpacedSnoc(ws[..i], ws[i]);
      text := text + ws[i] + [' '];
      i := i + 1;
    }
    assert ws[..i] == ws;
  }

  /** The cleanup of `insert_word`: a last space goes unless a delimiter stands before it. */
  method DropLastSpace(text: string) returns (trimmed: string)
    requires text != [' ']
    ensures Words(trimmed) == Words(text)
    ensures var n := |text|;
            trimmed == if n > 0 && text[n - 1] == ' ' && !IsDelimiter(text[n - 2]) then text[..n - 1] else text
  {
    var len := |text|;
    if len > 0 && text[len - 1] == ' ' && !IsDelimiter(text[len - 2]) {
      trimmed := text[..len - 1];
      WordsSplit(trimmed, ' ', "");
      assert text == trimmed + [' '] + "";
      assert Words(text) == Words(trimmed) + [];
    } else {
      trimmed := text;
    }
  }

  lemma {:induction false} SpacedJoin(a: seq<string>, b: seq<string>)
    requires b != []
    ensures Spaced(a) + Join(b) == Join(a + b)
  {
    if a == [] {
      assert a + b == b;
    } else {
      assert (a + b)[0] == a[0] && (a + b)[1..] == a[1..] + b;
      SpacedJoin(a[1..], b);
    }
  }

  lemma {:induction false} JoinEnds(ws: seq<string>)
    requires ws != [] && ws[|ws| - 1] != ""
    ensures Join(ws) != ""
    ensures Join(ws)[|Join(ws)| - 1] == ws[|ws| - 1][|ws[|ws| - 1]| - 1]
  {
    if |ws| > 1 { JoinEnds(ws[1..]); }
  }

  /** The text after an insertion: behind a last word that ends in a delimiter a space is left over. */
  function InsertedText(words: seq<string>, i: nat, word: string): string
    requires i <= |words|
  {
    var text := Join(InsertAt(words, i, [word]));
    if i == |words| && text != "" && text[|text| - 1] in ".!?" then text + " " else text
  }

  lemma BuiltText(words: seq<string>, i: nat, word: string)
    requires AllWords(words) && i <= |words| && (words != [] || word != "")
    ensures var text, n := Spaced(words[..i]) + word + [' '] + Join(words[i..]),
                           |Spaced(words[..i]) + word + [' '] + Join(words[i..])|;
            && n > 1
            && (if text[n - 1] == ' ' && !IsDelimiter(text[n - 2]) then text[..n - 1] else text)
               == InsertedText(words, i, word)
  {
    var a, b := words[..i], words[i..];
    InsertedNotBlank(words, i, word);
    if b == [] {
      assert InsertAt(words, i, [word]) == a + [word];
      SpacedJoin(a, [word]);
      assert Join([word]) == word && Join(b) == "";
      hide Spaced;
      assert Spaced(a) + word + [' '] + "" == Join(a + [word]) + [' '];
    } else {
      SpacedSnoc(a, word);
      SpacedJoin(a + [word], b);
      assert InsertAt(words, i, [word]) == a + [word] + b;
      JoinEnds(a + [word] + b);
      BehindFirst(a, word, b);
    }
  }

  lemma BehindFirst(a: seq<string>, word: string, b: seq<string>)
    requires b != [] && AllWords(b)
    ensures var text := Spaced(a) + word + [' '] + Join(b);
            |text| > 1 && text[|text| - 1] != ' '
  {
    JoinEnds(b);
    assert IsToken(b[|b| - 1], WhiteSpace);
  }

  /**
    `insert_word`: None for an index out of range. The cleanup at the end looks one character before the
    last, which exists unless both the sentence and the word are empty.
  */
  method InsertWord(sentence: string, wordIdx: int, word: string) returns (result: Option<string>)
    requires Words(sentence) != [] || word != ""
    ensures result.None? <==> !(0 <= wordIdx <= |Words(sentence)|)
    ensures result.Some? ==>
              Words(result.value) == InsertAt(Words(sentence), wordIdx, Words(word))
              && result.value == InsertedText(Words(sentence), wordIdx, word)
  {
    var words := ParseWords(sentence);
    if wordIdx < 0 || wordIdx > |words| {
      return None;
    }
    var front := SpaceWords(words[..wordIdx]);
    var back := JoinList(words[wordIdx..], ' ');
    WordsAreWords(sentence);
    InsertedWords(words, wordIdx, word);
    InsertedNotBlank(words, wordIdx, word);
    BuiltText(words, wordIdx, word);
    var text := DropLastSpace(front + word + [' '] + back);
    return Some(text);
  }

  lemma InsertedNotBlank(words: seq<string>, i: nat, word: string)
    requires AllWords(words) && i <= |words| && (words != [] || word != "")
    ensures Spaced(words[..i]) + word + [' '] + Join(words[i..]) != [' ']
  {
    if i > 0 {
      assert |Spaced(words[..i])| >= |words[0]| > 0;
    } else if word == "" {
      assert Join(words[i..]) != "";
    }
  }

  // ----- the session's word list -----

  datatype Update = Update(index: int, word: string)

  /** One WRITE_UPDATE: an index out of range changes nothing. */
  function Apply(ws: seq<string>, u: Update): seq<string> {
    if 0 <= u.index <= |ws| then InsertAt(ws, u.index, [u.word]) else ws
  }

  lemma InsertedOne(words: seq<string>, index: nat, word: string, result: seq<string>)
    requires index <= |words| && |result| == |words| + 1 && result[index] == word
    requires forall l :: 0 <= l < index ==> result[l] == words[l]
    requires forall l :: index <= l < |words| ==> result[l + 1] == words[l]
    ensures result == InsertAt(words, index, [word])
  {
    forall l | index < l < |result| ensures result[l] == InsertAt(words, index, [word])[l] {
      assert result[l - 1 + 1] == words[l - 1];
    }
  }

  /** The copy loops of WRITE_UPDATE (storage_server.c:450-461). */
  method InsertNewWord(words: seq<string>, index: nat, word: string) returns (result: seq<string>)
    requires index <= |words|
    ensures result == Apply(words, Update(index, word))
  {
    var newWords := new string[|words| + 1];
    var i := 0;
    while i < index
      invariant 0 <= i <= index
      invariant forall l :: 0 <= l < i ==> newWords[l] == words[l]
    {
      newWords[i] := words[i];
      i := i + 1;
    }
    newWords[index] := word;
    while i < |words|
      invariant index <= i <= |words| && newWords[index] == word
      invariant forall l :: 0 <= l < index ==> newWords[l] == words[l]
      invariant forall l :: index <= l < i ==> newWords[l + 1] == words[l]
    {
      newWords[i + 1] := words[i];
      i := i + 1;
    }
    result := newWords[..];
    InsertedOne(words, index, word, result);
  }

  function ApplyAll(ws: seq<string>, us: seq<Update>): seq<string>
    decreases |us|
  {
    if us == [] then ws else ApplyAll(Apply(ws, us[0]), us[1..])
  }

  /** The words of the updates that were accepted. */
  function Accepted(ws: seq<string>, us: seq<Update>): multiset<string>
    decreases |us|
  {
    if us == [] then multiset{}
    else
      (if 0 <= us[0].index <= |ws| then multiset{us[0].word} else multiset{})
      + Accepted(Apply(ws, us[0]), us[1..])
  }

  /** `at` lists, in increasing order, the places in `b` where the elements of `a` stand. */
  predicate Embeds<T(==)>(a: seq<T>, b: seq<T>, at: seq<nat>) {
    && |at| == |a|
    && (forall i :: 0 <= i < |at| ==> at[i] < |b| && b[at[i]] == a[i])
    && (forall i, j :: 0 <= i < j < |at| ==> at[i] < at[j])
  }

  /** Where position `i` moves under one update. */
  function Shifted(u: Update, i: nat): nat {
    if 0 <= u.index <= i then i + 1 else i
  }

  lemma ShiftedKeeps(ws: seq<string>, u: Update)
    ensures forall i :: 0 <= i < |ws| ==> Shifted(u, i) < |Apply(ws, u)| && Apply(ws, u)[Shifted(u, i)] == ws[i]
  {
    if 0 <= u.index <= |ws| {
      var k := u.index;
      var next := ws[..k] + [u.word] + ws[k..];
      forall i | 0 <= i < |ws| ensures next[Shifted(u, i)] == ws[i] {
        if i < k {
          assert next[i] == ws[..k][i];
        } else {
          assert next[i + 1] == ws[k..][i - k];
        }
      }
    }
  }

  /** An embedding of the list after one update gives one of the list before it. */
  lemma EmbedsBefore(ws: seq<string>, u: Update, final: seq<string>, rest: seq<nat>) returns (at: seq<nat>)
    requires Embeds(Apply(ws, u), final, rest)
    ensures Embeds(ws, final, at)
  {
    ShiftedKeeps(ws, u);
    at := seq(|ws|, i requires 0 <= i < |ws| => rest[Shifted(u, i)]);
  }

  /** Any run of updates keeps the old words, in their order, and adds exactly the accepted ones. */
  lemma {:induction false} UpdatesOnlyInsert(ws: seq<string>, us: seq<Update>) returns (at: seq<nat>)
    ensures Embeds(ws, ApplyAll(ws, us), at)
    ensures multiset(ApplyAll(ws, us)) == multiset(ws) + Accepted(ws, us)
    decreases |us|
  {
    if us == [] {
      at := seq(|ws|, i => i);
    } else {
      var rest := UpdatesOnlyInsert(Apply(ws, us[0]), us[1..]);
      at := EmbedsBefore(ws, us[0], ApplyAll(ws, us), rest);
      if 0 <= us[0].index <= |ws| {
        InsertAtMultiset(ws, us[0].index, [us[0].word]);
      }
    }
  }

  lemma WordsOfJoin(ws: seq<string>)
    ensures Words(Join(ws)) == EachSplit(ws, WhiteSpace)
  {
    SplitOfJoin(ws, ' ', WhiteSpace);
  }

  /**
    The session's WRITE_UPDATE does to the words what `insert_word` does, whatever is inserted: an empty word,
    one word or several. The place is the one of the words before it, which is the index itself for a list
    that holds words only.
  */
  lemma UpdateAgreesWithInsertWord(ws: seq<string>, u: Update)
    requires 0 <= u.index <= |ws|
    ensures var before, all := Words(Join(ws[..u.index])), Words(Join(ws));
            |before| <= |all| && Words(Join(Apply(ws, u))) == InsertAt(all, |before|, Words(u.word))
    ensures AllWords(ws) ==>
              Words(Join(ws)) == ws && Words(Join(Apply(ws, u))) == InsertAt(ws, u.index, Words(u.word))
  {
    hide Split;
    var front, back, added := ws[..u.index], ws[u.index..], [u.word];
    assert ws == front + back && Apply(ws, u) == front + added + back;
    WordsOfJoin(front);
    WordsOfJoin(ws);
    WordsOfJoin(Apply(ws, u));
    EachSplitAppend(front, back, WhiteSpace);
    EachSplitAppend(front + added, back, WhiteSpace);
    EachSplitAppend(front, added, WhiteSpace);
    assert EachSplit(added, WhiteSpace) == Split(u.word, WhiteSpace) + EachSplit([], WhiteSpace);
    if AllWords(ws) {
      EachSplitOfTokens(ws, WhiteSpace);
      EachSplitOfTokens(front, WhiteSpace);
    }
  }
}
