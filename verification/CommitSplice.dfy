/** Splicing an edited sentence back into its file (storage_server/storage_server.c:487-574). */
module CommitSplice {
  import opened Text
  import opened SentenceParser
  import opened Splitting
  import opened WordParser

  /** The array entries that stand for the edited text. */
  function Pieces(text: string): seq<string> {
    if ContainsDelimiter(text) then Sentences(text) else [text]
  }

  /** What the branches below need in order to stay inside the array of sentences. */
  predicate InRange(sentences: seq<string>, k: nat) {
    sentences == [] || k <= |sentences|
  }

  function Before(sentences: seq<string>, k: nat): seq<string> {
    if k <= |sentences| then sentences[..k] else sentences
  }

  function After(sentences: seq<string>, k: nat): seq<string> {
    if k < |sentences| then sentences[k + 1..] else []
  }

  /** What all four branches amount to. */
  function Spliced(sentences: seq<string>, k: nat, text: string): seq<string> {
    Before(sentences, k) + Pieces(text) + After(sentences, k)
  }

  /** A copy loop of the delimiter branch: appends `src[lo..]` to the first `at` entries of `target`. */
  method CopyFrom(target: array<string>, at: nat, src: seq<string>, lo: nat) returns (end: nat)
    requires lo <= |src| && at + |src| - lo <= target.Length
    modifies target
    ensures end == at + |src| - lo
    ensures target[..end] == old(target[..at]) + src[lo..]
  {
    end := at;
    var i := lo;
    while i < |src|
      invariant lo <= i <= |src| && end == at + i - lo
      invariant target[..end] == old(target[..at]) + src[lo..i]
    {
      target[end] := src[i];
      end := end + 1;
      i := i + 1;
    }
    assert src[lo..i] == src[lo..];
  }

  /** The delimiter branch: a fresh array of the computed size is filled to its end and never past it. */
  method SpliceParts(sentences: seq<string>, k: nat, parts: seq<string>) returns (result: seq<string>)
    requires sentences != [] && k <= |sentences|
    ensures result == Before(sentences, k) + parts + After(sentences, k)
  {
    var isAppending := k == |sentences|;
    var newTotal := if isAppending then |sentences| + |parts| else |sentences| - 1 + |parts|;
    var target := new string[newTotal];
    var newIdx := CopyFrom(target, 0, sentences[..k], 0);
    newIdx := CopyFrom(target, newIdx, parts, 0);
    if k + 1 <= |sentences| {
      newIdx := CopyFrom(target, newIdx, sentences, k + 1);
    }
    result := target[..newIdx];
  }

  /** The four branches of WRITE_COMMIT. */
  method CommitSentences(sentences: seq<string>, k: nat, newSentence: string) returns (result: seq<string>)
    requires InRange(sentences, k)
    ensures result == Spliced(sentences, k, newSentence)
  {
    hide Sentences;
    var split := HasDelimiter(newSentence);
    if |sentences| == 0 {
      if split {
        result := SplitByDelimiters(newSentence);
      } else {
        result := [newSentence];
      }
    } else if split {
      var parts := SplitByDelimiters(newSentence);
      result := SpliceParts(sentences, k, parts);
    } else if k == |sentences| {
      result := sentences + [newSentence];
    } else {
      result := sentences[k := newSentence];
    }
  }

  lemma PiecesText(text: string)
    ensures Concat(Pieces(text)) == text
  {
    if ContainsDelimiter(text) {
      ParseIsCanonical(text);
    } else {
      assert Concat([text]) == text + Concat([]);
    }
  }

  /** All four branches write the same text: what was before, the edited text, what was after. */
  lemma CommitText(sentences: seq<string>, k: nat, text: string)
    ensures Concat(Spliced(sentences, k, text))
         == Concat(Before(sentences, k)) + text + Concat(After(sentences, k))
  {
    PiecesText(text);
    ConcatAppend(Before(sentences, k) + Pieces(text), After(sentences, k));
    ConcatAppend(Before(sentences, k), Pieces(text));
  }

  /** An unterminated end before more text, on either side of the edit, fuses two sentences. */
  predicate NoFusion(sentences: seq<string>, k: nat, text: string) {
    && (k < |sentences| || sentences == [] || Terminated(sentences[|sentences| - 1]))
    && (k >= |sentences| - 1 || Terminated(text))
  }

  lemma PiecesShape(text: string)
    ensures Pieces(text) != []
    ensures text == "" ==> Pieces(text) == [""]
    ensures text != "" ==> Canonical(Pieces(text))
    ensures text != "" ==> (Terminated(text) <==> Terminated(Pieces(text)[|Pieces(text)| - 1]))
  {
    if text != "" {
      if ContainsDelimiter(text) {
        ParsedPieces(text);
      } else {
        WholePiece(text);
      }
      hide Sentences;
      hide Canonical;
      hide Terminated;
      hide ContainsDelimiter;
    }
  }

  lemma WholePiece(text: string)
    requires text != "" && !ContainsDelimiter(text)
    ensures Canonical([text])
  {}

  lemma ParsedPieces(text: string)
    requires text != ""
    ensures var pieces := Sentences(text);
            && pieces != [] && Canonical(pieces)
            && (Terminated(text) <==> Terminated(pieces[|pieces| - 1]))
  {
    ParseIsCanonical(text);
    hide Sentences;
    var pieces := Sentences(text);
    assert pieces != [] by { assert Concat([]) == ""; }
    LastPiece(pieces);
    hide Canonical;
    hide Concat;
    LastOfConcat(pieces);
  }

  lemma LastPiece(list: seq<string>)
    requires Canonical(list) && list != []
    ensures list[|list| - 1] != ""
  {}

  lemma {:induction false} LastOfConcat(pieces: seq<string>)
    requires pieces != [] && pieces[|pieces| - 1] != ""
    ensures Concat(pieces) != ""
    ensures Concat(pieces)[|Concat(pieces)| - 1] == pieces[|pieces| - 1][|pieces[|pieces| - 1]| - 1]
  {
    if |pieces| == 1 {
      assert Concat(pieces) == pieces[0] + Concat(pieces[1..]) == pieces[0];
    } else {
      LastOfConcat(pieces[1..]);
    }
  }

  /** Joining three lists keeps the canonical shape exactly when no inner end is unterminated. */
  lemma CanonicalSplice(a: seq<string>, p: seq<string>, b: seq<string>)
    requires Canonical(a) && Canonical(p) && Canonical(b) && p != []
    ensures Canonical(a + p + b) <==>
            (a == [] || Terminated(a[|a| - 1])) && (b == [] || Terminated(p[|p| - 1]))
  {
    var list := a + p + b;
    if a != [] { assert list[|a| - 1] == a[|a| - 1]; }
    if b != [] { assert list[|a| + |p| - 1] == p[|p| - 1]; }
    if (a == [] || Terminated(a[|a| - 1])) && (b == [] || Terminated(p[|p| - 1])) {
      forall i | 0 <= i < |list| ensures IsSentence(list[i]) && (i < |list| - 1 ==> Terminated(list[i])) {
        if i < |a| {
          assert list[i] == a[i];
        } else if i < |a| + |p| {
          assert list[i] == p[i - |a|];
        } else {
          assert list[i] == b[i - |a| - |p|];
        }
      }
    }
  }

  lemma CanonicalPart(list: seq<string>, lo: nat, hi: nat)
    requires Canonical(list) && lo <= hi <= |list|
    ensures Canonical(list[lo..hi])
  {
    forall i | 0 <= i < hi - lo
      ensures IsSentence(list[lo..hi][i]) && (i < hi - lo - 1 ==> Terminated(list[lo..hi][i]))
    {
      assert list[lo..hi][i] == list[lo + i];
    }
  }

  /** The spliced array is canonical exactly when its middle is not empty and neighbours do not fuse. */
  lemma SplicedCanonicalIff(sentences: seq<string>, k: nat, text: string)
    requires Canonical(sentences) && k <= |sentences|
    ensures Canonical(Spliced(sentences, k, text)) <==> text != "" && NoFusion(sentences, k, text)
  {
    PiecesShape(text);
    hide Pieces;
    hide Terminated;
    var a, p, b := Before(sentences, k), Pieces(text), After(sentences, k);
    assert a == sentences[0..k];
    if text == "" {
      assert (a + p + b)[|a|] == "";
    } else {
      hide IsSentence;
      CanonicalPart(sentences, 0, k);
      if k < |sentences| {
        CanonicalPart(sentences, k + 1, |sentences|);
        assert b == sentences[k + 1..|sentences|];
      }
      CanonicalSplice(a, p, b);
      hide Canonical;
      if k > 0 { assert a[k - 1] == sentences[k - 1]; }
    }
  }

  /**
    The in-memory array equals a re-parse of the written file exactly when the edited text is not empty and
    no neighbours fuse.
  */
  lemma CommitReparse(sentences: seq<string>, k: nat, text: string)
    requires Canonical(sentences) && k <= |sentences|
    ensures Sentences(Concat(Spliced(sentences, k, text))) == Spliced(sentences, k, text)
       <==> text != "" && NoFusion(sentences, k, text)
  {
    SplicedCanonicalIff(sentences, k, text);
    ReparseIffCanonical(Spliced(sentences, k, text));
    hide Sentences;
    hide Concat;
    hide Spliced;
    hide NoFusion;
    hide Canonical;
  }

  // ----- a session that changes nothing -----

  lemma DelimiterIsNoSpace(s: string)
    requires IsSentence(s) && Terminated(s)
    ensures Words(s) != []
    decreases |s|
  {
    if IsSpace(s[0]) {
      assert Terminated(s[1..]);
      DelimiterIsNoSpace(s[1..]);
    }
  }

  lemma Suffix(s: string, n: nat)
    requires IsSentence(s) && n < |s|
    ensures IsSentence(s[n..]) && (Terminated(s[n..]) <==> Terminated(s))
  {
    assert forall j :: 0 <= j < |s| - n ==> s[n..][j] == s[n + j];
  }

  /** Squeezing the spaces of a sentence that is not blank gives a sentence with the same ending. */
  lemma {:induction false} SqueezedSentence(s: string)
    requires IsSentence(s) && Words(s) != []
    ensures IsSentence(Join(Words(s)))
    ensures Terminated(Join(Words(s))) <==> Terminated(s)
    decreases |s|
  {
    if IsSpace(s[0]) {
      assert Words(s) == Words(s[1..]);
      Suffix(s, 1);
      SqueezedSentence(s[1..]);
    } else {
      var n := TokenLength(s, WhiteSpace);
      var w, rest := s[..n], s[n..];
      assert s == w + rest;
      if rest == "" {
        assert w == s && Words(s) == [w] + Words("");
        assert [w] + Words("") == [s];
      } else {
        Suffix(s, n);
        if Words(rest) == [] {
          if Terminated(rest) { DelimiterIsNoSpace(rest); }
          assert forall j :: 0 <= j < n ==> w[j] == s[j];
          assert Words(s) == [w] + [] && IsSentence(w) && !Terminated(w);
        } else {
          SqueezedSentence(rest);
          SqueezedCons(w, Words(rest));
          assert Words(s) == [w] + Words(rest);
        }
      }
    }
  }

  lemma SqueezedCons(w: string, ws: seq<string>)
    requires w != "" && !ContainsDelimiter(w) && ws != [] && IsSentence(Join(ws))
    ensures IsSentence(Join([w] + ws))
    ensures Terminated(Join([w] + ws)) <==> Terminated(Join(ws))
  {
    var t := Join(ws);
    assert ([w] + ws)[1..] == ws;
    var j := w + [' '] + t;
    assert Join([w] + ws) == j;
    forall i | 0 <= i < |j| - 1 ensures !IsDelimiter(j[i]) {
      if i < |w| {
        assert j[i] == w[i];
      } else if i > |w| {
        assert j[i] == t[i - |w| - 1];
      }
    }
  }

  /** The text that START followed at once by COMMIT writes for sentence `k` of `content`. */
  function NoOp(content: string, k: nat): string
    requires k < |Sentences(content)|
  {
    var list := Sentences(content);
    Concat(Spliced(list, k, Join(Words(list[k]))))
  }

  /**
    A session without updates on a sentence that is not blank keeps the number of sentences, every other
    sentence byte for byte and every word; only the spacing inside the sentence is squeezed.
  */
  lemma NoOpKeepsWords(content: string, k: nat)
    requires k < |Sentences(content)| && Words(Sentences(content)[k]) != []
    ensures var list := Sentences(content);
            Sentences(NoOp(content, k)) == list[k := Join(Words(list[k]))]
    ensures Words(Join(Words(Sentences(content)[k]))) == Words(Sentences(content)[k])
  {
    hide *;
    var list := Sentences(content);
    var text := Join(Words(list[k]));
    ParseIsCanonical(content);
    SqueezedHere(list, k);
    WordsAreWords(list[k]);
    WordListRoundTrip(Words(list[k]));
    CommitReparse(list, k, text);
    SinglePiece(text);
    SpliceOfPiece(list, k, text);
    NoOpIsSplice(content, k);
  }

  lemma SqueezedHere(list: seq<string>, k: nat)
    requires Canonical(list) && k < |list| && Words(list[k]) != []
    ensures IsSentence(Join(Words(list[k]))) && Join(Words(list[k])) != ""
    ensures NoFusion(list, k, Join(Words(list[k])))
  {
    hide Words;
    hide Join;
    SqueezedSentence(list[k]);
  }

  lemma SinglePiece(text: string)
    requires IsSentence(text)
    ensures Pieces(text) == [text]
  {
    SentencesWhole(text);
  }

  /** A second such session changes nothing at all. */
  lemma NoOpIdempotent(content: string, k: nat)
    requires k < |Sentences(content)| && Words(Sentences(content)[k]) != []
    ensures k < |Sentences(NoOp(content, k))|
    ensures NoOp(NoOp(content, k), k) == NoOp(content, k)
  {
    hide *;
    NoOpKeepsWords(content, k);
    var once := NoOp(content, k);
    var list := Sentences(once);
    var text := Join(Words(Sentences(content)[k]));
    assert list[k] == text && Join(Words(list[k])) == text;
    NoOpIsSplice(once, k);
    ParseIsCanonical(content);
    SqueezedHere(Sentences(content), k);
    SinglePiece(text);
    assert list[k := text] == list;
    SpliceOfPiece(list, k, text);
    ParseIsCanonical(once);
  }

  lemma NoOpIsSplice(content: string, k: nat)
    requires k < |Sentences(content)|
    ensures NoOp(content, k) == Concat(Spliced(Sentences(content), k, Join(Words(Sentences(content)[k]))))
  {}

  lemma SpliceOfPiece(list: seq<string>, k: nat, text: string)
    requires k < |list| && Pieces(text) == [text]
    ensures Spliced(list, k, text) == list[k := text]
  {}

  /** The number of sentences is kept exactly when the sentence is not blank. */
  lemma NoOpKeepsCount(content: string, k: nat)
    requires k < |Sentences(content)|
    ensures |Sentences(NoOp(content, k))| == |Sentences(content)| <==> Words(Sentences(content)[k]) != []
  {
    hide *;
    var list := Sentences(content);
    ParseIsCanonical(content);
    if Words(list[k]) != [] {
      NoOpKeepsWords(content, k);
    } else {
      BlankIsLast(list, k);
      NoOpIsSplice(content, k);
      BlankVanishes(list, k);
      ParseOfCanonical(list[..k]);
    }
  }

  lemma BlankIsLast(list: seq<string>, k: nat)
    requires Canonical(list) && k < |list| && Words(list[k]) == []
    ensures k == |list| - 1 && Canonical(list[..k]) && Join(Words(list[k])) == ""
  {
    if Terminated(list[k]) { DelimiterIsNoSpace(list[k]); }
    CanonicalPart(list, 0, k);
    assert list[..k] == list[0..k];
  }

  lemma BlankVanishes(list: seq<string>, k: nat)
    requires k == |list| - 1
    ensures Concat(Spliced(list, k, "")) == Concat(list[..k])
  {
    CommitText(list, k, "");
  }
}
