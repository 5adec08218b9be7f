/** Splitting a file into sentences and gluing it back (storage_server/sentence_parser.c). */
module SentenceParser {
  import opened Text

  /** Length of the longest delimiter-free prefix. */
  function FirstDelimiter(s: string): (i: nat)
    ensures i <= |s|
    ensures forall j :: 0 <= j < i ==> !IsDelimiter(s[j])
    ensures i < |s| ==> IsDelimiter(s[i])
  {
    if s == "" || IsDelimiter(s[0]) then 0 else 1 + FirstDelimiter(s[1..])
  }

  /** The sentences of `s`: each runs up to and includes its delimiter, a rest without one comes last. */
  function Sentences(s: string): seq<string>
    decreases |s|
  {
    if s == "" then []
    else
      var i := FirstDelimiter(s);
      if i == |s| then [s] else [s[..i + 1]] + Sentences(s[i + 1..])
  }

  /** Non-empty, with a delimiter at most at its end. */
  predicate IsSentence(s: string) {
    s != "" && forall j :: 0 <= j < |s| - 1 ==> !IsDelimiter(s[j])
  }

  predicate Terminated(s: string) {
    s != "" && IsDelimiter(s[|s| - 1])
  }

  /** The lists of sentences a parse can produce. */
  predicate Canonical(list: seq<string>) {
    && (forall i :: 0 <= i < |list| ==> IsSentence(list[i]))
    && (forall i :: 0 <= i < |list| - 1 ==> Terminated(list[i]))
  }

  lemma SentencesStep(s: string, rest: string)
    requires IsSentence(s) && Terminated(s)
    ensures Sentences(s + rest) == [s] + Sentences(rest)
  {
    var t := s + rest;
    var i := FirstDelimiter(t);
    assert forall j :: 0 <= j < |s| ==> t[j] == s[j];
    assert i == |s| - 1;
    assert t[..i + 1] == s && t[i + 1..] == rest;
  }

  lemma SentencesWhole(s: string)
    requires IsSentence(s)
    ensures Sentences(s) == [s]
  {
    if Terminated(s) {
      SentencesStep(s, "");
      assert s + "" == s;
    } else {
      var i := FirstDelimiter(s);
      assert i == |s|;
    }
  }

  lemma CanonicalCons(s: string, rest: seq<string>)
    requires IsSentence(s) && Terminated(s) && Canonical(rest)
    ensures Canonical([s] + rest)
  {
    var list := [s] + rest;
    forall i | 0 <= i < |list| - 1 ensures Terminated(list[i]) {
      if i > 0 {
        assert list[i] == rest[i - 1];
      }
    }
  }

  lemma FirstSentence(s: string)
    requires s != ""
    ensures var i := FirstDelimiter(s);
            if i < |s| then IsSentence(s[..i + 1]) && Terminated(s[..i + 1]) else IsSentence(s)
  {}

  /** Nothing is lost and every parse is canonical. */
  lemma {:induction false} ParseIsCanonical(s: string)
    ensures Canonical(Sentences(s))
    ensures Concat(Sentences(s)) == s
    decreases |s|
  {
    if s != "" {
      FirstSentence(s);
      var i := FirstDelimiter(s);
      hide FirstDelimiter;
      hide IsSentence;
      hide Terminated;
      if i < |s| {
        var head, tail := s[..i + 1], s[i + 1..];
        assert Sentences(s) == [head] + Sentences(tail);
        ParseIsCanonical(tail);
        hide Sentences;
        hide Canonical;
        CanonicalCons(head, Sentences(tail));
        ConcatCons(head, Sentences(tail));
        hide Concat;
        assert s == head + tail;
      } else {
        assert Concat([s]) == s + Concat([]);
      }
    }
  }

  lemma {:induction false} ParseOfCanonical(list: seq<string>)
    requires Canonical(list)
    ensures Sentences(Concat(list)) == list
  {
    if |list| == 1 {
      assert Concat(list) == list[0] + Concat(list[1..]) == list[0];
      SentencesWhole(list[0]);
    } else if |list| > 1 {
      assert Canonical(list[1..]) by {
        forall i | 0 <= i < |list[1..]| - 1 ensures Terminated(list[1..][i]) {
          assert list[1..][i] == list[i + 1];
        }
      }
      ParseOfCanonical(list[1..]);
      SentencesStep(list[0], Concat(list[1..]));
    }
  }

  /** The unique decomposition: a list survives being written and re-read exactly when it is canonical. */
  lemma ReparseIffCanonical(list: seq<string>)
    ensures Sentences(Concat(list)) == list <==> Canonical(list)
  {
    ParseIsCanonical(Concat(list));
    if Canonical(list) {
      ParseOfCanonical(list);
    }
  }

  /** Two canonical lists with the same text are the same list. */
  lemma DecompositionUnique(a: seq<string>, b: seq<string>)
    requires Canonical(a) && Canonical(b) && Concat(a) == Concat(b)
    ensures a == b
  {
    ParseOfCanonical(a);
    ParseOfCanonical(b);
  }

  /** Some number of first sentences ends at position `p`. */
  ghost predicate CutAt(s: string, p: nat) {
    exists k: nat :: k <= |Sentences(s)| && |Concat(Sentences(s)[..k])| == p
  }

  lemma CutAtHead(head: string, rest: seq<string>, k: nat)
    requires k <= |rest|
    ensures |Concat(([head] + rest)[..k + 1])| == |head| + |Concat(rest[..k])|
  {
    assert ([head] + rest)[..k + 1] == [head] + rest[..k];
    ConcatCons(head, rest[..k]);
  }

  lemma CutBehindHead(s: string, head: string, tail: string, p: nat)
    requires Sentences(s) == [head] + Sentences(tail) && p > 0
    ensures CutAt(s, p) <==> p >= |head| && CutAt(tail, p - |head|)
  {
    hide Sentences;
    hide Concat;
    assert Concat([]) == "" by { NothingGlued(); }
    if CutAt(s, p) {
      var k: nat :| k <= |Sentences(s)| && |Concat(Sentences(s)[..k])| == p;
      if k > 0 { CutAtHead(head, Sentences(tail), k - 1); }
    }
    if p >= |head| && CutAt(tail, p - |head|) {
      var k: nat :| k <= |Sentences(tail)| && |Concat(Sentences(tail)[..k])| == p - |head|;
      CutAtHead(head, Sentences(tail), k);
      assert k + 1 <= |Sentences(s)|;
    }
  }

  lemma NothingGlued()
    ensures Concat([]) == ""
  {}

  lemma CutAtStart(s: string)
    ensures CutAt(s, 0)
  {
    assert |Concat(Sentences(s)[..0])| == 0;
  }

  lemma NoCutInside(s: string, p: nat)
    requires 0 < p < |s| && Sentences(s) == [s]
    ensures !CutAt(s, p)
  {
    forall k: nat | k <= 1 ensures |Concat(Sentences(s)[..k])| != p {
      if k == 1 {
        assert Sentences(s)[..1] == [s];
        ConcatCons(s, []);
        assert [s] + [] == [s];
      }
    }
  }

  /** A text is cut exactly behind every full stop, exclamation mark and question mark. */
  lemma {:induction false} CutsAreMarks(s: string, p: nat)
    requires 0 < p < |s|
    ensures CutAt(s, p) <==> s[p - 1] in ".!?"
    decreases |s|
  {
    var i := FirstDelimiter(s);
    if i == |s| {
      NoCutInside(s, p);
    } else {
      var head, tail := s[..i + 1], s[i + 1..];
      assert Sentences(s) == [head] + Sentences(tail);
      CutBehindHead(s, head, tail, p);
      if p == i + 1 {
        CutAtStart(tail);
      } else if p > i + 1 {
        CutsAreMarks(tail, p - i - 1);
        assert tail[p - i - 2] == s[p - 1];
      }
    }
  }

  /** One character of the scan: `ptr - start` characters after `start` are known to be free of delimiters. */
  lemma ScanStep(s: string, start: nat, ptr: nat)
    requires start <= ptr < |s|
    requires FirstDelimiter(s[start..]) >= ptr - start
    ensures if IsDelimiter(s[ptr])
            then Sentences(s[start..]) == [s[start..ptr + 1]] + Sentences(s[ptr + 1..])
            else FirstDelimiter(s[start..]) > ptr - start
  {
    hide FirstDelimiter;
    hide Sentences;
    var t, n := s[start..], ptr - start;
    assert t[n] == s[ptr];
    if IsDelimiter(s[ptr]) {
      assert FirstDelimiter(t) == n;
      var head, tail := s[start..ptr + 1], s[ptr + 1..];
      assert forall j :: 0 <= j < n ==> head[j] == t[j];
      assert IsSentence(head) && Terminated(head);
      SentencesStep(head, tail);
      assert t == head + tail;
    }
  }

  /** Nothing but the unterminated rest is left. */
  lemma ScanEnd(s: string, start: nat)
    requires start <= |s| && FirstDelimiter(s[start..]) == |s| - start
    ensures Sentences(s[start..]) == if start < |s| then [s[start..|s|]] else []
  {
    assert s[start..] == s[start..|s|];
  }

  /** `parse_sentences`. */
  method ParseSentences(content: string) returns (sentences: seq<string>)
    ensures sentences == Sentences(content)
  {
    hide *;
    sentences := [];
    assert content == content[0..];
    var start, ptr := 0, 0;
    while ptr < |content|
      invariant start <= ptr <= |content|
      invariant |content| - start >= FirstDelimiter(content[start..]) >= ptr - start
      invariant sentences + Sentences(content[start..]) == Sentences(content)
    {
      ScanStep(content, start, ptr);
      if IsDelimiter(content[ptr]) {
        sentences := sentences + [content[start..ptr + 1]];
        start := ptr + 1;
      }
      ptr := ptr + 1;
    }
    ScanEnd(content, start);
    if start < |content| {
      sentences := sentences + [content[start..ptr]];
    }
  }

  /** `split_by_delimiters`: a second copy of the scan, used on an edited sentence. */
  method SplitByDelimiters(str: string) returns (parts: seq<string>)
    ensures parts == Sentences(str)
  {
    hide *;
    parts := [];
    assert str == str[0..];
    var start, ptr := 0, 0;
    while ptr < |str|
      invariant start <= ptr <= |str|
      invariant |str| - start >= FirstDelimiter(str[start..]) >= ptr - start
      invariant parts + Sentences(str[start..]) == Sentences(str)
    {
      ScanStep(str, start, ptr);
      if IsDelimiter(str[ptr]) {
        parts := parts + [str[start..ptr + 1]];
        start := ptr + 1;
      }
      ptr := ptr + 1;
    }
    ScanEnd(str, start);
    if start < |str| {
      parts := parts + [str[start..ptr]];
    }
  }

  /** `rebuild_file`. */
  method RebuildFile(sentences: seq<string>) returns (content: string)
    ensures content == Concat(sentences)
  {
    content := "";
    var i := 0;
    while i < |sentences|
      invariant i <= |sentences|
      invariant content == Concat(sentences[..i])
    {
      assert sentences[..i + 1] == sentences[..i] + [sentences[i]];
      ConcatSnoc(sentences[..i], sentences[i]);
      content := content + sentences[i];
      i := i + 1;
    }
    assert sentences[..i] == sentences;
  }

  predicate ContainsDelimiter(s: string) {
    exists j :: 0 <= j < |s| && IsDelimiter(s[j])
  }

  /** `has_delimiter`. */
  method HasDelimiter(str: string) returns (found: bool)
    ensures found <==> ContainsDelimiter(str)
  {
    var i := 0;
    while i < |str|
      invariant i <= |str|
      invariant forall j :: 0 <= j < i ==> !IsDelimiter(str[j])
    {
      if IsDelimiter(str[i]) {
        return true;
      }
      i := i + 1;
    }
    return false;
  }
}
