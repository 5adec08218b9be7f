/** C strings as Dafny strings: character classes, and the list and text functions the servers share. */
module Text {

  datatype Option<+T> = None | Some(value: T)

  /** `is_delimiter` (sentence_parser.c:15-17). */
  predicate IsDelimiter(c: char) {
    c == '.' || c == '!' || c == '?'
  }

  /** `isspace` in the C locale. */
  predicate IsSpace(c: char) {
    c == ' ' || 9 <= c as int <= 13
  }

  /** All pieces glued together. */
  function Concat(pieces: seq<string>): string {
    if pieces == [] then "" else pieces[0] + Concat(pieces[1..])
  }

  lemma ConcatCons(x: string, rest: seq<string>)
    ensures Concat([x] + rest) == x + Concat(rest)
  {
    assert ([x] + rest)[1..] == rest;
  }

  lemma {:induction false} ConcatAppend(a: seq<string>, b: seq<string>)
    ensures Concat(a + b) == Concat(a) + Concat(b)
  {
    if a == [] {
      assert a + b == b;
    } else {
      assert (a + b)[1..] == a[1..] + b;
      ConcatAppend(a[1..], b);
    }
  }

  lemma ConcatSnoc(a: seq<string>, x: string)
    ensures Concat(a + [x]) == Concat(a) + x
  {
    ConcatAppend(a, [x]);
    assert Concat([x]) == x + Concat([]);
  }

  lemma SubsetSize<T>(a: set<T>, b: set<T>)
    requires a <= b
    ensures |a| <= |b|
  {
    assert b == a + (b - a);
  }

  predicate NoDuplicates<T(==)>(s: seq<T>) {
    forall i, j :: 0 <= i < j < |s| ==> s[i] != s[j]
  }

  /** `s` without its occurrences of `x`. */
  function Without<T(==)>(s: seq<T>, x: T): seq<T> {
    if s == [] then [] else (if s[0] == x then [] else [s[0]]) + Without(s[1..], x)
  }

  lemma {:induction false} WithoutMembers<T>(s: seq<T>, x: T)
    ensures forall y :: y in Without(s, x) <==> y in s && y != x
    ensures |Without(s, x)| <= |s|
    ensures NoDuplicates(s) ==> NoDuplicates(Without(s, x))
  {
    if s != [] {
      WithoutMembers(s[1..], x);
      var t := Without(s[1..], x);
      if NoDuplicates(s) {
        assert NoDuplicates(s[1..]);
        assert s[0] !in s[1..];
        assert s[0] !in t;
      }
    }
  }

  lemma {:induction false} WithoutAbsent<T>(s: seq<T>, x: T)
    requires x !in s
    ensures Without(s, x) == s
  {
    if s != [] {
      WithoutAbsent(s[1..], x);
    }
  }

  /** `s` without the first occurrence of `x`: what the C loops that shift an array over a gap leave. */
  function RemoveFirst<T(==)>(s: seq<T>, x: T): seq<T> {
    if s == [] then [] else if s[0] == x then s[1..] else [s[0]] + RemoveFirst(s[1..], x)
  }

  lemma {:induction false} RemoveFirstOfDistinct<T>(s: seq<T>, x: T)
    requires NoDuplicates(s)
    ensures RemoveFirst(s, x) == Without(s, x)
  {
    if s != [] {
      if s[0] == x {
        WithoutAbsent(s[1..], x);
      } else {
        RemoveFirstOfDistinct(s[1..], x);
      }
    }
  }

  // ----- C strings in buffers -----

  /** The characters before the first NUL: what string functions see of a buffer. */
  function UntilNul(s: string): string {
    if s == "" || s[0] == '\0' then "" else [s[0]] + UntilNul(s[1..])
  }

  predicate NulFree(s: string) {
    '\0' !in s
  }

  lemma {:induction false} UntilNulWhole(s: string)
    ensures UntilNul(s) == s <==> NulFree(s)
    ensures |UntilNul(s)| <= |s| && NulFree(UntilNul(s))
  {
    if s != "" {
      UntilNulWhole(s[1..]);
      if s[0] != '\0' {
        assert UntilNul(s)[1..] == UntilNul(s[1..]);
      }
    }
  }

  lemma {:induction false} UntilNulAt(a: string, b: string)
    requires NulFree(a)
    ensures UntilNul(a + ['\0'] + b) == a
  {
    var t := a + ['\0'] + b;
    if a != "" {
      assert t[1..] == a[1..] + ['\0'] + b;
      UntilNulAt(a[1..], b);
    }
  }
}
