/** Cutting text at separators and joining it again: words, user lists and file lists are all made this way. */
module Splitting {
  import opened Text

  /** What separates: any white space, as for `isspace`, or one character, as for `strtok`. */
  datatype Separator = WhiteSpace | Exactly(mark: char)

  predicate Separates(sep: Separator, c: char) {
    match sep
    case WhiteSpace => IsSpace(c)
    case Exactly(d) => c == d
  }

  predicate FreeOf(s: string, sep: Separator) {
    forall j :: 0 <= j < |s| ==> !Separates(sep, s[j])
  }

  /** Non-empty and free of separators. */
  predicate IsToken(s: string, sep: Separator) {
    s != "" && FreeOf(s, sep)
  }

  predicate AllTokens(ws: seq<string>, sep: Separator) {
    forall i :: 0 <= i < |ws| ==> IsToken(ws[i], sep)
  }

  /** Length of the longest prefix free of separators. */
  function TokenLength(s: string, sep: Separator): (n: nat)
    ensures n <= |s| && FreeOf(s[..n], sep)
    ensures n < |s| ==> Separates(sep, s[n])
  {
    if s == "" || Separates(sep, s[0]) then 0
    else
      var n := TokenLength(s[1..], sep);
      assert s[..n + 1] == [s[0]] + s[1..][..n];
      n + 1
  }

  /** The maximal separator-free runs of `s`, in order: `strtok` called to the end, and `parse_words`. */
  function Split(s: string, sep: Separator): seq<string>
    decreases |s|
  {
    if s == "" then []
    else if Separates(sep, s[0]) then Split(s[1..], sep)
    else
      var n := TokenLength(s, sep);
      [s[..n]] + Split(s[n..], sep)
  }

  lemma {:induction false} SplitsAreTokens(s: string, sep: Separator)
    ensures AllTokens(Split(s, sep), sep)
    decreases |s|
  {
    if s != "" {
      if Separates(sep, s[0]) {
        SplitsAreTokens(s[1..], sep);
      } else {
        SplitsAreTokens(s[TokenLength(s, sep)..], sep);
      }
    }
  }

  lemma TokenLengthOf(w: string, sep: Separator, rest: string)
    requires FreeOf(w, sep)
    requires rest == "" || Separates(sep, rest[0])
    ensures TokenLength(w + rest, sep) == |w|
  {
    var t := w + rest;
    var n := TokenLength(t, sep);
    assert forall j :: 0 <= j < |w| ==> t[j] == w[j];
    assert forall j :: 0 <= j < n ==> t[..n][j] == t[j];
    assert |w| < |t| ==> t[|w|] == rest[0];
  }

  /** A token in front, up to the end or to a separator, is the first piece. */
  lemma TokenFirst(w: string, sep: Separator, rest: string)
    requires IsToken(w, sep)
    requires rest == "" || Separates(sep, rest[0])
    ensures Split(w + rest, sep) == [w] + Split(rest, sep)
  {
    var t := w + rest;
    TokenLengthOf(w, sep, rest);
    hide TokenLength;
    assert t[0] == w[0] && t[..|w|] == w && t[|w|..] == rest;
  }

  lemma SeparatorFirst(c: char, sep: Separator, rest: string)
    requires Separates(sep, c)
    ensures Split([c] + rest, sep) == Split(rest, sep)
  {
    assert ([c] + rest)[1..] == rest;
  }

  lemma SplitNothing(sep: Separator)
    ensures Split("", sep) == []
  {}

  lemma SplitToken(w: string, sep: Separator)
    requires IsToken(w, sep)
    ensures Split(w, sep) == [w]
  {
    TokenFirst(w, sep, "");
    assert w + "" == w;
  }

  /** A separator separates: the tokens of both sides, nothing more and nothing less. */
  lemma {:induction false} SplitAt(a: string, c: char, b: string, sep: Separator)
    requires Separates(sep, c)
    ensures Split(a + [c] + b, sep) == Split(a, sep) + Split(b, sep)
    decreases |a|
  {
    hide Split;
    hide TokenLength;
    if a == "" {
      SplitNothing(sep);
      SeparatorFirst(c, sep, b);
      assert a + [c] + b == [c] + b;
    } else if Separates(sep, a[0]) {
      var rest := a[1..];
      SeparatorFirst(a[0], sep, rest);
      SeparatorFirst(a[0], sep, rest + [c] + b);
      SplitAt(rest, c, b, sep);
      assert a == [a[0]] + rest && a + [c] + b == [a[0]] + (rest + [c] + b);
    } else {
      var n := TokenLength(a, sep);
      var w, rest := a[..n], a[n..];
      assert a == w + rest && a + [c] + b == w + (rest + [c] + b);
      TokenFirst(w, sep, rest);
      TokenFirst(w, sep, rest + [c] + b);
      SplitAt(rest, c, b, sep);
    }
  }

  /** A longest piece of `s` without separators. */
  predicate MaximalPiece(s: string, i: nat, j: nat, sep: Separator) {
    && i < j <= |s|
    && (forall k :: i <= k < j ==> !Separates(sep, s[k]))
    && (i > 0 ==> Separates(sep, s[i - 1]))
    && (j < |s| ==> Separates(sep, s[j]))
  }

  ghost predicate HasPiece(s: string, w: string, sep: Separator) {
    exists i: nat, j: nat :: MaximalPiece(s, i, j, sep) && w == s[i..j]
  }

  /** The pieces behind a first part that ends at a separator, or before one. */
  lemma PiecesBehind(s: string, n: nat, w: string, sep: Separator)
    requires 0 < n <= |s| && (n < |s| ==> Separates(sep, s[n - 1]) || Separates(sep, s[n]))
    ensures HasPiece(s[n..], w, sep) <==>
            exists i: nat, j: nat :: n <= i && MaximalPiece(s, i, j, sep) && w == s[i..j]
  {
    var t := s[n..];
    assert forall k :: 0 <= k < |t| ==> t[k] == s[n + k];
    if HasPiece(t, w, sep) {
      var i: nat, j: nat :| MaximalPiece(t, i, j, sep) && w == t[i..j];
      assert !Separates(sep, t[i]);
      PieceShift(s, n, n + i, n + j, sep);
    }
    if i: nat, j: nat :| n <= i && MaximalPiece(s, i, j, sep) && w == s[i..j] {
      PieceShift(s, n, i, j, sep);
    }
  }

  lemma PieceShift(s: string, n: nat, i: nat, j: nat, sep: Separator)
    requires 0 < n <= i && n <= |s| && j >= n
    requires i == n ==> Separates(sep, s[n - 1]) || n == |s| || Separates(sep, s[n])
    ensures MaximalPiece(s, i, j, sep) <==> MaximalPiece(s[n..], i - n, j - n, sep)
    ensures i < j <= |s| ==> s[i..j] == s[n..][i - n..j - n]
  {
    var t := s[n..];
    assert forall k :: 0 <= k < |t| ==> t[k] == s[n + k];
    if MaximalPiece(t, i - n, j - n, sep) {
      forall k | i <= k < j ensures !Separates(sep, s[k]) { assert !Separates(sep, t[k - n]); }
    }
  }

  /** Splitting finds every longest piece without separators, and nothing else. */
  lemma {:induction false} SplitsArePieces(s: string, w: string, sep: Separator)
    ensures w in Split(s, sep) <==> HasPiece(s, w, sep)
    decreases |s|
  {
    hide Separates;
    if s != "" {
      var n := if Separates(sep, s[0]) then 1 else TokenLength(s, sep);
      var head := if Separates(sep, s[0]) then [] else [s[..n]];
      assert Split(s, sep) == head + Split(s[n..], sep);
      SplitsArePieces(s[n..], w, sep);
      PiecesBehind(s, n, w, sep);
      FirstPiece(s, n, sep);
      if HasPiece(s, w, sep) {
        var i: nat, j: nat :| MaximalPiece(s, i, j, sep) && w == s[i..j];
        if i < n { assert i == 0 && j == n; }
      }
    }
  }

  lemma FirstPiece(s: string, n: nat, sep: Separator)
    requires s != "" && n == if Separates(sep, s[0]) then 1 else TokenLength(s, sep)
    ensures 0 < n <= |s| && s[0..n] == s[..n]
    ensures !Separates(sep, s[0]) ==> MaximalPiece(s, 0, n, sep)
    ensures forall i: nat, j: nat :: i < n && MaximalPiece(s, i, j, sep) ==> !Separates(sep, s[0]) && i == 0 && j == n
  {
    if !Separates(sep, s[0]) {
      assert forall k :: 0 <= k < n ==> s[..n][k] == s[k];
    }
  }

  /** The pieces with one separator between neighbours. */
  function JoinWith(ws: seq<string>, c: char): string {
    if ws == [] then "" else if |ws| == 1 then ws[0] else ws[0] + [c] + JoinWith(ws[1..], c)
  }

  /** The tokens of every element, in order. */
  function EachSplit(ws: seq<string>, sep: Separator): seq<string> {
    if ws == [] then [] else Split(ws[0], sep) + EachSplit(ws[1..], sep)
  }

  lemma {:induction false} EachSplitOfTokens(ws: seq<string>, sep: Separator)
    requires AllTokens(ws, sep)
    ensures EachSplit(ws, sep) == ws
  {
    if ws != [] {
      SplitToken(ws[0], sep);
      EachSplitOfTokens(ws[1..], sep);
    }
  }

  lemma {:induction false} EachSplitAppend(a: seq<string>, b: seq<string>, sep: Separator)
    ensures EachSplit(a + b, sep) == EachSplit(a, sep) + EachSplit(b, sep)
  {
    if a == [] {
      assert a + b == b;
    } else {
      assert (a + b)[0] == a[0] && (a + b)[1..] == a[1..] + b;
      EachSplitAppend(a[1..], b, sep);
    }
  }

  /** Splitting the joined list splits every element, whatever the elements are. */
  lemma {:induction false} SplitOfJoin(ws: seq<string>, c: char, sep: Separator)
    requires Separates(sep, c)
    ensures Split(JoinWith(ws, c), sep) == EachSplit(ws, sep)
  {
    if |ws| == 1 {
      assert EachSplit(ws, sep) == Split(ws[0], sep) + EachSplit([], sep);
    } else if |ws| > 1 {
      SplitAt(ws[0], c, JoinWith(ws[1..], c), sep);
      SplitOfJoin(ws[1..], c, sep);
    }
  }

  /** A list survives being joined and split exactly when it holds tokens only. */
  lemma JoinRoundTrip(ws: seq<string>, c: char, sep: Separator)
    requires Separates(sep, c)
    ensures Split(JoinWith(ws, c), sep) == ws <==> AllTokens(ws, sep)
  {
    SplitsAreTokens(JoinWith(ws, c), sep);
    if AllTokens(ws, sep) {
      SplitOfJoin(ws, c, sep);
      EachSplitOfTokens(ws, sep);
    }
  }

  lemma {:induction false} JoinSnoc(ws: seq<string>, w: string, c: char)
    requires ws != []
    ensures JoinWith(ws + [w], c) == JoinWith(ws, c) + [c] + w
  {
    if |ws| > 1 {
      assert (ws + [w])[1..] == ws[1..] + [w];
      JoinSnoc(ws[1..], w, c);
    } else {
      assert (ws + [w])[1..] == [w];
    }
  }

  /** The join loops: WRITE_COMMIT (storage_server.c:494-501) and the user lists of `acl_save` (acl.c:382-392). */
  method JoinList(ws: seq<string>, c: char) returns (text: string)
    ensures text == JoinWith(ws, c)
  {
    text := "";
    var i := 0;
    while i < |ws|
      invariant i <= |ws|
      invariant text == JoinWith(ws[..i], c) + (if 0 < i < |ws| then [c] else "")
    {
      assert ws[..i + 1] == ws[..i] + [ws[i]];
      if i > 0 {
        JoinSnoc(ws[..i], ws[i], c);
      }
      text := text + ws[i];
      if i < |ws| - 1 {
        text := text + [c];
      }
      i := i + 1;
    }
    assert ws[..i] == ws;
  }
}
