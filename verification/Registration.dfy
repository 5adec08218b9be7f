/**
  The file list of a registration: written by the storage server into one message buffer
  (storage_server/storage_server.c:259-283), read back by the name server (nameserver/nameserver.c:590-613).
*/
module Registration {
  import opened Text
  import opened Protocol
  import opened Splitting
  import NameServer

  /** File names as C strings that the list can carry. */
  predicate NameOk(f: string) {
    f != "" && '|' !in f && NulFree(f)
  }

  predicate NamesOk(files: seq<string>) {
    forall i :: 0 <= i < |files| ==> NameOk(files[i])
  }

  /** Every name followed by the delimiter. */
  function Marked(files: seq<string>): (r: string)
    ensures |r| >= |files|
  {
    if files == [] then "" else Marked(files[..|files| - 1]) + files[|files| - 1] + ['|']
  }

  /** The fill loop stops at the first name that does not fit with its delimiter and the final NUL. */
  predicate Fits(files: seq<string>, n: nat)
    requires n <= |files|
  {
    |Marked(files[..n])| < MAX_CONTENT_LEN
  }

  /** The number of names the fill loop accepts after the first `i`. */
  function Accepted(files: seq<string>, i: nat): (n: nat)
    requires i <= |files|
    ensures i <= n <= |files|
    decreases |files| - i
  {
    if i < |files| && Fits(files, i + 1) then Accepted(files, i + 1) else i
  }

  /** `snprintf` of `text` at `at`: at most what the buffer holds, and always a final NUL. */
  method Snprintf(buf: array<char>, at: nat, text: string) returns (required: nat)
    requires at < buf.Length
    modifies buf
    ensures required == |text|
    ensures buf[..at] == old(buf[..at])
    ensures var n := if |text| < buf.Length - at then |text| else buf.Length - at - 1;
            buf[at..at + n] == text[..n] && buf[at + n] == '\0'
  {
    required := |text|;
    var n := if |text| < buf.Length - at then |text| else buf.Length - at - 1;
    var i := 0;
    while i < n
      invariant 0 <= i <= n && buf[..at] == old(buf[..at])
      invariant buf[at..at + i] == text[..i]
    {
      buf[at + i] := text[i];
      i := i + 1;
    }
    buf[at + n] := '\0';
  }

  /** The content of the message. A first name that does not fit is cut off by the buffer. */
  function Serialized(files: seq<string>): string {
    var n := Accepted(files, 0);
    if n > 0 then Marked(files[..n])[..|Marked(files[..n])| - 1]
    else if files == [] then ""
    else (files[0] + ['|'])[..MAX_CONTENT_LEN - 1]
  }

  lemma MarkedStep(files: seq<string>, i: nat)
    requires i < |files|
    ensures Marked(files[..i + 1]) == Marked(files[..i]) + files[i] + ['|']
  {
    assert files[..i + 1][..i] == files[..i];
  }

  lemma MarkedEnds(files: seq<string>)
    requires files != []
    ensures Marked(files) != "" && Marked(files)[|Marked(files)| - 1] == '|'
  {}

  lemma {:induction false} MarkedNulFree(files: seq<string>)
    requires NamesOk(files)
    ensures NulFree(Marked(files))
  {
    if files != [] {
      MarkedNulFree(files[..|files| - 1]);
    }
  }

  /** The fill loop of `register_with_nameserver`. */
  method FillBuffer(buf: array<char>, files: seq<string>) returns (currentLen: nat)
    requires buf.Length == MAX_CONTENT_LEN && buf[0] == '\0'
    modifies buf
    ensures var n := Accepted(files, 0);
            && currentLen == |Marked(files[..n])| < MAX_CONTENT_LEN && buf[..currentLen] == Marked(files[..n])
            && (n == |files| ==> buf[currentLen] == '\0')
            && (n == 0 && files != [] ==>
                  buf[..MAX_CONTENT_LEN - 1] == (files[0] + ['|'])[..MAX_CONTENT_LEN - 1]
                  && buf[MAX_CONTENT_LEN - 1] == '\0')
  {
    currentLen := 0;
    var i := 0;
    assert files[..0] == [] && buf[..0] == [] && Marked([]) == "";
    hide *;
    while i < |files|
      invariant 0 <= i <= |files| && currentLen == |Marked(files[..i])| < MAX_CONTENT_LEN
      invariant buf[..currentLen] == Marked(files[..i]) && buf[currentLen] == '\0'
      invariant Accepted(files, 0) == Accepted(files, i)
    {
      MarkedStep(files, i);
      AcceptedStep(files, i);
      var required := Snprintf(buf, currentLen, files[i] + ['|']);
      if currentLen + required >= MAX_CONTENT_LEN {
        if i == 0 { FirstMark(); }
        return;
      }
      WrittenBehind(buf[..], currentLen, Marked(files[..i]), files[i] + ['|']);
      currentLen := currentLen + required;
      i := i + 1;
    }
    AcceptedEnd(files);
  }

  lemma WrittenBehind(buf: string, at: nat, before: string, text: string)
    requires at + |text| < |buf| && buf[..at] == before && buf[at..at + |text|] == text[..|text|]
    ensures buf[..at + |text|] == before + text
  {
    assert buf[..at + |text|] == buf[..at] + buf[at..at + |text|];
  }

  lemma FirstMark()
    ensures Marked([]) == ""
  {}

  lemma AcceptedEnd(files: seq<string>)
    ensures Accepted(files, |files|) == |files|
  {}

  lemma AcceptedStep(files: seq<string>, i: nat)
    requires i < |files|
    ensures Accepted(files, i) == if |Marked(files[..i + 1])| < MAX_CONTENT_LEN then Accepted(files, i + 1) else i
  {}

  /** `register_with_nameserver` up to the send: the last delimiter gives way to a NUL. */
  method SerializeFiles(files: seq<string>) returns (content: string)
    requires NamesOk(files)
    ensures content == Serialized(files)
  {
    var buf := new char[MAX_CONTENT_LEN](_ => '\0');
    var currentLen := FillBuffer(buf, files);
    ghost var n := Accepted(files, 0);
    BufferShows(files, n, buf[..], currentLen);
    ghost var filled := buf[..];
    if currentLen > 0 && buf[currentLen - 1] == '|' {
      buf[currentLen - 1] := '\0';
      assert buf[..] == filled[currentLen - 1 := '\0'];
    }
    content := UntilNul(buf[..]);
  }

  /** What the string functions see of the filled buffer. */
  lemma BufferShows(files: seq<string>, n: nat, buf: string, currentLen: nat)
    requires NamesOk(files) && n == Accepted(files, 0) && |buf| == MAX_CONTENT_LEN
    requires currentLen == |Marked(files[..n])| < MAX_CONTENT_LEN && buf[..currentLen] == Marked(files[..n])
    requires n == |files| ==> buf[currentLen] == '\0'
    requires n == 0 && files != [] ==>
               buf[..MAX_CONTENT_LEN - 1] == (files[0] + ['|'])[..MAX_CONTENT_LEN - 1]
               && buf[MAX_CONTENT_LEN - 1] == '\0'
    ensures UntilNul(if currentLen > 0 && buf[currentLen - 1] == '|' then buf[currentLen - 1 := '\0'] else buf)
         == Serialized(files)
  {
    hide UntilNul;
    if n > 0 {
      MarkedNulFree(files[..n]);
      MarkedEnds(files[..n]);
      hide Marked;
      LastMarkCut(buf, Marked(files[..n]));
    } else {
      assert files[..0] == [] && currentLen == 0;
      if files == [] {
        ShowsText(buf, "");
      } else {
        FirstTooLong(files);
        ShowsText(buf, (files[0] + ['|'])[..MAX_CONTENT_LEN - 1]);
      }
    }
    hide NamesOk;
    hide Accepted;
  }

  /** The last delimiter gives way to a NUL. */
  lemma LastMarkCut(buf: string, text: string)
    requires text != "" && text[|text| - 1] == '|' && NulFree(text) && |text| <= |buf| && buf[..|text|] == text
    ensures buf[|text| - 1] == '|'
    ensures UntilNul(buf[|text| - 1 := '\0']) == text[..|text| - 1]
  {
    var k := |text| - 1;
    assert buf[..k + 1][k] == '|' && buf[..k] == text[..k];
    assert buf[k := '\0'] == text[..k] + ['\0'] + buf[k + 1..];
    UntilNulAt(text[..k], buf[k + 1..]);
  }

  /** A text in front with a NUL behind it is what the string functions see. */
  lemma ShowsText(buf: string, shown: string)
    requires NulFree(shown) && |shown| < |buf| && buf[..|shown|] == shown && buf[|shown|] == '\0'
    ensures UntilNul(buf) == shown
  {
    assert buf == shown + ['\0'] + buf[|shown| + 1..];
    UntilNulAt(shown, buf[|shown| + 1..]);
  }

  /** No name fits: the first one is longer than the buffer. */
  lemma FirstTooLong(files: seq<string>)
    requires NamesOk(files) && files != [] && Accepted(files, 0) == 0
    ensures |files[0] + ['|']| >= MAX_CONTENT_LEN && NulFree((files[0] + ['|'])[..MAX_CONTENT_LEN - 1])
  {
    assert files[..1] == [files[0]] && Marked(files[..1]) == Marked([]) + files[0] + ['|'];
    assert NameOk(files[0]);
  }

  // ----- what the name server reads -----

  lemma {:induction false} MarkedIsJoined(files: seq<string>)
    requires files != []
    ensures Marked(files) == JoinWith(files, '|') + ['|']
  {
    var front, last := files[..|files| - 1], files[|files| - 1];
    assert files == front + [last];
    if front == [] {
      assert files == [last] && Marked([]) == "";
    } else {
      MarkedIsJoined(front);
      JoinSnoc(front, last, '|');
    }
  }

  lemma {:induction false} AcceptedFits(files: seq<string>, i: nat)
    requires i <= |files| && Fits(files, i)
    ensures Fits(files, Accepted(files, i))
    ensures Accepted(files, i) < |files| ==> !Fits(files, Accepted(files, i) + 1)
    decreases |files| - i
  {
    if i < |files| && Fits(files, i + 1) {
      AcceptedFits(files, i + 1);
    }
  }

  lemma TokensOfMarked(files: seq<string>)
    requires NamesOk(files) && files != []
    ensures Marked(files) != "" && Split(Marked(files)[..|Marked(files)| - 1], Exactly('|')) == files
  {
    MarkedIsJoined(files);
    assert Marked(files)[..|Marked(files)| - 1] == JoinWith(files, '|');
    assert AllTokens(files, Exactly('|')) by {
      forall i | 0 <= i < |files| ensures IsToken(files[i], Exactly('|')) {
        assert NameOk(files[i]);
      }
    }
    JoinRoundTrip(files, '|', Exactly('|'));
  }

  /**
    The name server reads whole names only: the longest prefix of the list that the buffer takes, provided
    the first name fits at all.
  */
  lemma ListingIsLongestPrefix(files: seq<string>)
    requires NamesOk(files) && (files != [] ==> Fits(files, 1))
    ensures var n := Accepted(files, 0);
            && Split(Serialized(files), Exactly('|')) == files[..n]
            && Fits(files, n) && (n < |files| ==> !Fits(files, n + 1))
            && NameServer.Listing(Serialized(files)) ==
                 (if n <= NameServer.MAX_FILES then files[..n] else files[..NameServer.MAX_FILES])
  {
    hide *;
    AcceptedFitsFromStart(files);
    SerializedTokens(files);
    ListingOf(Serialized(files), files[..Accepted(files, 0)]);
    PrefixOfPrefix(files, Accepted(files, 0), NameServer.MAX_FILES);
  }

  lemma AcceptedFitsFromStart(files: seq<string>)
    ensures var n := Accepted(files, 0); Fits(files, n) && (n < |files| ==> !Fits(files, n + 1))
  {
    assert files[..0] == [];
    AcceptedFits(files, 0);
  }

  lemma ListingOf(content: string, tokens: seq<string>)
    requires |content| < MAX_CONTENT_LEN && Split(content, Exactly('|')) == tokens
    ensures NameServer.Listing(content) ==
            if |tokens| <= NameServer.MAX_FILES then tokens else tokens[..NameServer.MAX_FILES]
  {
    hide Split;
  }

  lemma PrefixOfPrefix(files: seq<string>, n: nat, k: nat)
    requires n <= |files|
    ensures k < n ==> files[..n][..k] == files[..k]
  {}

  lemma SerializedTokens(files: seq<string>)
    requires NamesOk(files) && (files != [] ==> Fits(files, 1))
    ensures |Serialized(files)| < MAX_CONTENT_LEN
    ensures Split(Serialized(files), Exactly('|')) == files[..Accepted(files, 0)]
  {
    assert files[..0] == [];
    AcceptedFits(files, 0);
    if files != [] {
      assert Accepted(files, 0) == Accepted(files, 1);
      TokensOfMarked(files[..Accepted(files, 0)]);
    }
  }

  /** Only whole names of the list, from its beginning, arrive: exactly when the first name is not cut off. */
  lemma WholeNamesIff(files: seq<string>)
    requires NamesOk(files)
    ensures (exists k :: 0 <= k <= |files| && Split(Serialized(files), Exactly('|')) == files[..k])
       <==> files == [] || |files[0]| < MAX_CONTENT_LEN
  {
    if files == [] || Fits(files, 1) {
      ListingIsLongestPrefix(files);
      if files != [] { FirstFits(files); }
    } else {
      FirstFits(files);
      assert Accepted(files, 0) == 0;
      var shown := (files[0] + ['|'])[..MAX_CONTENT_LEN - 1];
      assert shown == files[0][..MAX_CONTENT_LEN - 1];
      assert NameOk(files[0]);
      SplitToken(shown, Exactly('|'));
      if |files[0]| < MAX_CONTENT_LEN {
        assert shown == files[0] && files[..1] == [shown];
      } else {
        forall k | 0 <= k <= |files| ensures [shown] != files[..k] {
          if k > 0 { assert files[..k][0] == files[0] && |shown| < |files[0]|; }
        }
      }
    }
  }

  lemma FirstFits(files: seq<string>)
    requires files != []
    ensures Fits(files, 1) <==> |files[0]| + 1 < MAX_CONTENT_LEN
  {
    MarkedStep(files, 0);
    assert files[..0] == [] && Marked([]) == "";
  }
}
