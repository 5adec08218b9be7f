/** A search ignores case: what it answers, said with the two alphabets and the texts of the files. */
module WordSearch {
  import opened Text
  import opened InvertedIndex
  import opened StorageServer
  import opened StorageRuns
  import opened IndexRuns

  const UPPER: string := "ABCDEFGHIJKLMNOPQRSTUVWXYZ"
  const LOWER: string := "abcdefghijklmnopqrstuvwxyz"
  const DIGITS: string := "0123456789"

  // ----- characters -----

  /** The same character, or the two forms of one letter. */
  predicate SameLetter(c: char, d: char) {
    c == d || exists i :: 0 <= i < 26 && ((c == UPPER[i] && d == LOWER[i]) || (c == LOWER[i] && d == UPPER[i]))
  }

  predicate InAlphabets(c: char) {
    c in UPPER || c in LOWER || c in DIGITS
  }

  lemma LettersAt(i: nat)
    requires i < 26
    ensures UPPER[i] as int == 'A' as int + i && LOWER[i] as int == 'a' as int + i
  {}

  lemma DigitsAt(i: nat)
    requires i < 10
    ensures DIGITS[i] as int == '0' as int + i
  {}

  lemma AlnumIsAlphabets(c: char)
    ensures IsAlnum(c) <==> InAlphabets(c)
  {
    forall i | 0 <= i < 26 ensures UPPER[i] as int == 'A' as int + i && LOWER[i] as int == 'a' as int + i {
      LettersAt(i);
    }
    forall i | 0 <= i < 10 ensures DIGITS[i] as int == '0' as int + i { DigitsAt(i); }
    hide UPPER;
    hide LOWER;
    hide DIGITS;
    if 'A' <= c <= 'Z' { assert UPPER[c as int - 'A' as int] == c; }
    if 'a' <= c <= 'z' { assert LOWER[c as int - 'a' as int] == c; }
    if '0' <= c <= '9' { assert DIGITS[c as int - '0' as int] == c; }
  }

  lemma LowerIsSameLetter(c: char, d: char)
    ensures ToLower(c) == ToLower(d) <==> SameLetter(c, d)
  {
    forall i | 0 <= i < 26 ensures UPPER[i] as int == 'A' as int + i && LOWER[i] as int == 'a' as int + i {
      LettersAt(i);
    }
    hide UPPER;
    hide LOWER;
    if ToLower(c) == ToLower(d) && c != d {
      var upper, lower := if 'A' <= c <= 'Z' then c else d, if 'A' <= c <= 'Z' then d else c;
      var i := upper as int - 'A' as int;
      assert 0 <= i < 26 && upper == UPPER[i] && lower == LOWER[i];
    }
  }

  // ----- words -----

  /** The part of a word that the index looks at. */
  function Front(w: string): string {
    if |w| <= 99 then w else w[..99]
  }

  /** Two words that differ at most in case and behind the 99th character. */
  predicate SameWord(w: string, v: string) {
    |Front(w)| == |Front(v)| && forall i :: 0 <= i < |Front(w)| ==> SameLetter(Front(w)[i], Front(v)[i])
  }

  lemma NormalizedIsSameWord(w: string, v: string)
    ensures Normalized(w) == Normalized(v) <==> SameWord(w, v)
  {
    hide SameLetter;
    hide ToLower;
    var a, b := Normalized(w), Normalized(v);
    assert Front(w) == Cut(w) && Front(v) == Cut(v);
    if |a| == |b| {
      forall i | 0 <= i < |a| ensures a[i] == b[i] <==> SameLetter(Front(w)[i], Front(v)[i]) {
        LowerIsSameLetter(Cut(w)[i], Cut(v)[i]);
      }
    }
  }

  /** The search answers the same for all spellings of a word. */
  lemma SearchIgnoresCase(m: Index, w: string, v: string)
    requires SameWord(w, v)
    ensures Files(m, Normalized(w)) == Files(m, Normalized(v))
  {
    hide Normalized;
    NormalizedIsSameWord(w, v);
  }

  /** A longest piece of letters and digits. */
  predicate WholeRun(s: string, i: nat, j: nat) {
    && i < j <= |s| && (forall k :: i <= k < j ==> InAlphabets(s[k]))
    && (i > 0 ==> !InAlphabets(s[i - 1])) && (j < |s| ==> !InAlphabets(s[j]))
  }

  /** The text has the word, in any spelling, as a whole piece of letters and digits. */
  ghost predicate Has(text: string, word: string) {
    exists i: nat, j: nat :: WholeRun(text, i, j) && j - i >= 2 && SameWord(text[i..j], word)
  }

  lemma OccursIsHas(text: string, word: string)
    ensures Occurs(text, Normalized(word)) <==> Has(text, word)
  {
    forall c ensures IsAlnum(c) <==> InAlphabets(c) { AlnumIsAlphabets(c); }
    hide IsAlnum;
    hide InAlphabets;
    hide Normalized;
    hide SameWord;
    assert forall i: nat, j: nat :: MaximalRun(text, i, j) <==> WholeRun(text, i, j);
    if Occurs(text, Normalized(word)) {
      var i: nat, j: nat :| MaximalRun(text, i, j) && j - i >= 2 && Normalized(word) == Normalized(text[i..j]);
      NormalizedIsSameWord(text[i..j], word);
    }
    if Has(text, word) {
      var i: nat, j: nat :| WholeRun(text, i, j) && j - i >= 2 && SameWord(text[i..j], word);
      NormalizedIsSameWord(text[i..j], word);
    }
  }

  // ----- searches -----

  /** A search finds a file exactly if what is seen of the file has the word, in whatever spelling. */
  lemma SearchFinds(s: Server, word: string, f: string)
    requires IndexInv(s) && Complete(s.files, s.index)
    ensures f in Files(s.index, Normalized(word)) <==> f in s.files && Has(View(s.files[f]), word)
  {
    hide *;
    SearchIsScan(s, word, f);
    if f in s.files { OccursIsHas(View(s.files[f]), word); }
  }

  lemma CompleteNow(s: Server, events: seq<Event>, n: nat)
    requires n <= |events| && Runs(s, events, n) && CompleteRun(s, events, n)
    ensures Complete(Reached(s, events, n).files, Reached(s, events, n).index)
  {
    hide Complete;
    hide Reached;
  }

  /**
    From start-up over the whole directory, in every state of every run that re-indexes what it changes and in
    which no word is ever in more than 50 files: a search finds exactly the files that have the word.
  */
  lemma SearchFindsAlways(files: Directory, names: seq<string>, events: seq<Event>, n: nat, word: string, f: string)
    requires forall i :: 0 <= i < |names| ==> names[i] in files
    requires forall g :: g in files ==> g in names
    requires n <= |events| && Runs(Started(files, names), events, n)
    requires IndexRuns.IndexRun(Started(files, names), events, n) && CappedRun(Started(files, names), events, n)
    ensures var now := Reached(Started(files, names), events, n);
            f in Files(now.index, Normalized(word)) <==> f in now.files && Has(View(now.files[f]), word)
  {
    var s := Started(files, names);
    StartupInv(files, names);
    hide *;
    IndexAgreesFromStartup(files, names, events, n);
    CompleteNow(s, events, n);
    IndexAgrees(s, events, n);
    SearchFinds(Reached(s, events, n), word, f);
  }

  lemma StartupInv(files: Directory, names: seq<string>)
    requires forall i :: 0 <= i < |names| ==> names[i] in files
    ensures IndexInv(Started(files, names))
  {
    StartupIndex(files, names);
  }
}
