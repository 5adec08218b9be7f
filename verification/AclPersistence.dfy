/** The access lists as a text file: `acl_save` and `acl_load` (nameserver/acl.c:356-468). */
module AclPersistence {
  import opened Text
  import opened Protocol
  import opened Splitting
  import opened HashTables
  import opened Acl

  // ----- saving -----

  function Digit(d: nat): char
    requires d < 10
  {
    '0' + d as char
  }

  /** `%d` for a count. */
  function Decimal(n: nat): string {
    if n < 10 then [Digit(n)] else Decimal(n / 10) + [Digit(n % 10)]
  }

  /** What a string of decimal digits stands for. */
  function Value(digits: string): nat
    requires forall i :: 0 <= i < |digits| ==> '0' <= digits[i] <= '9'
  {
    if digits == "" then 0
    else 10 * Value(digits[..|digits| - 1]) + (digits[|digits| - 1] as int - '0' as int)
  }

  lemma {:induction false} DecimalReadsBack(n: nat)
    ensures forall i :: 0 <= i < |Decimal(n)| ==> '0' <= Decimal(n)[i] <= '9'
    ensures Value(Decimal(n)) == n && (Decimal(n)[0] == '0' <==> n == 0)
  {
    if n >= 10 {
      DecimalReadsBack(n / 10);
      assert Decimal(n)[..|Decimal(n)| - 1] == Decimal(n / 10);
    } else {
      assert Decimal(n)[..0] == "";
    }
  }

  const COUNT_KEY := "file_count="

  const COMMENTS: seq<string> := [
    "# ACL Data File - Docs++", "# Format: filename|owner|read_users|write_users", "# Version: 1.0"]

  function EntryLine(file: string, e: AclEntry): string {
    file + "|" + e.owner + "|" + JoinWith(e.readers, ',') + "|" + JoinWith(e.writers, ',')
  }

  function EntryLines(items: seq<(string, AclEntry)>): seq<string> {
    if items == [] then [] else [EntryLine(items[0].0, items[0].1)] + EntryLines(items[1..])
  }

  function Header(count: nat): seq<string> {
    COMMENTS + [COUNT_KEY + Decimal(count)]
  }

  function SavedLines(count: nat, items: seq<(string, AclEntry)>): seq<string> {
    Header(count) + EntryLines(items)
  }

  /** Every line with its newline. */
  function FileText(lines: seq<string>): string {
    if lines == [] then "" else lines[0] + ['\n'] + FileText(lines[1..])
  }

  lemma {:induction false} FileTextSnoc(lines: seq<string>, line: string)
    ensures FileText(lines + [line]) == FileText(lines) + line + ['\n']
  {
    if lines == [] {
      assert FileText([line]) == line + ['\n'] + FileText([]);
    } else {
      assert (lines + [line])[1..] == lines[1..] + [line];
      FileTextSnoc(lines[1..], line);
    }
  }

  lemma {:induction false} EntryLinesSnoc(items: seq<(string, AclEntry)>, item: (string, AclEntry))
    ensures EntryLines(items + [item]) == EntryLines(items) + [EntryLine(item.0, item.1)]
  {
    if items != [] {
      assert (items + [item])[1..] == items[1..] + [item];
      EntryLinesSnoc(items[1..], item);
    }
  }

  lemma FileTextAppend(a: seq<string>, b: seq<string>)
    ensures FileText(a + b) == FileText(a) + FileText(b)
    decreases |b|
  {
    if b == [] {
      assert a + b == a;
    } else {
      var front, last := b[..|b| - 1], b[|b| - 1];
      assert b == front + [last] && a + b == (a + front) + [last];
      FileTextSnoc(a + front, last);
      FileTextSnoc(front, last);
      FileTextAppend(a, front);
    }
  }

  /** The `fprintf` calls for the header. */
  method WriteHeader(count: nat) returns (text: string)
    ensures text == FileText(Header(count))
  {
    var lines := Header(count);
    text := "";
    var i := 0;
    while i < |lines|
      invariant 0 <= i <= |lines|
      invariant text == FileText(lines[..i])
    {
      assert lines[..i + 1] == lines[..i] + [lines[i]];
      FileTextSnoc(lines[..i], lines[i]);
      text := text + lines[i] + ['\n'];
      i := i + 1;
    }
    assert lines[..i] == lines;
  }

  /** The `fprintf` calls for the entries. */
  method WriteEntries(entries: seq<(string, AclEntry)>) returns (text: string)
    ensures text == FileText(EntryLines(entries))
  {
    text := "";
    var i := 0;
    while i < |entries|
      invariant 0 <= i <= |entries|
      invariant text == FileText(EntryLines(entries[..i]))
    {
      var (file, e) := entries[i];
      var readers := JoinList(e.readers, ',');
      var writers := JoinList(e.writers, ',');
      var line := file + "|" + e.owner + "|" + readers + "|" + writers;
      assert entries[..i + 1] == entries[..i] + [entries[i]];
      EntryLinesSnoc(entries[..i], entries[i]);
      FileTextSnoc(EntryLines(entries[..i]), line);
      text := text + line + ['\n'];
      i := i + 1;
    }
    assert entries[..i] == entries;
  }

  /** `acl_save`: the text it leaves in the file, entry by entry in the order of the buckets. */
  method AclSave(acl: AclTable) returns (text: string)
    requires acl.Valid()
    ensures exists items :: Enumerates(items, acl.table.M) && text == FileText(SavedLines(acl.fileCount, items))
  {
    var entries := acl.table.Entries();
    var header := WriteHeader(acl.fileCount);
    var body := WriteEntries(entries);
    FileTextAppend(Header(acl.fileCount), EntryLines(entries));
    text := header + body;
  }

  // ----- loading -----

  /** The number of leading characters other than `stop`, at most `max`: what `%max[^stop]` reads. */
  function Span(s: string, stop: char, max: nat): (n: nat)
    ensures n <= |s| && n <= max
    ensures forall i :: 0 <= i < n ==> s[i] != stop
    ensures n < |s| && n < max ==> s[n] == stop
    decreases |s|
  {
    if s == "" || s[0] == stop || max == 0 then 0 else 1 + Span(s[1..], stop, max - 1)
  }

  /** One `fgets` into a 4096-byte buffer: up to and including the newline, or 4095 characters. */
  function LineLength(text: string): (n: nat)
    ensures n <= |text| && (text != "" ==> n > 0)
  {
    var n := Span(text, '\n', MAX_CONTENT_LEN - 1);
    if n < |text| && n < MAX_CONTENT_LEN - 1 then n + 1 else n
  }

  /** The fields that `sscanf` managed to fill. */
  datatype Parsed = Parsed(file: string, owner: string, readers: Option<string>, writers: Option<string>)

  /** One field and what follows it; None when the field is empty, which stops `sscanf`. */
  function ReadField(s: string, stop: char, max: nat): Option<(string, string)> {
    var n := Span(s, stop, max);
    if n == 0 then None else Some((s[..n], s[n..]))
  }

  function ScanWriters(p: Parsed, s: string): Parsed {
    if s == "" || s[0] != '|' then p
    else
      match ReadField(s[1..], '\n', 4095)
      case None => p
      case Some((writers, _)) => p.(writers := Some(writers))
  }

  function ScanReaders(p: Parsed, s: string): Parsed {
    if s == "" || s[0] != '|' then p
    else
      match ReadField(s[1..], '|', 4095)
      case None => p
      case Some((readers, rest)) => ScanWriters(p.(readers := Some(readers)), rest)
  }

  function ScanOwner(file: string, s: string): Option<Parsed> {
    if s == "" || s[0] != '|' then None
    else
      match ReadField(s[1..], '|', 63)
      case None => None
      case Some((owner, rest)) => Some(ScanReaders(Parsed(file, owner, None, None), rest))
  }

  /** `sscanf` with `%255[^|]|%63[^|]|%4095[^|]|%4095[^\n]`; None below two fields. An empty field stops it. */
  function Scan(line: string): Option<Parsed> {
    match ReadField(line, '|', 255)
    case None => None
    case Some((file, rest)) => ScanOwner(file, rest)
  }

  /** Comments, empty lines and the count are skipped. */
  predicate Skipped(line: string) {
    line == "" || line[0] == '#' || line[0] == '\n' || COUNT_KEY <= line
  }

  function AddUsers(m: AclMap, file: string, users: seq<string>, access: int): AclMap
    decreases |users|
  {
    if users == [] then m else AddUsers(Acl.AddAccess(m, file, users[0], access).0, file, users[1..], access)
  }

  function Field(text: Option<string>): seq<string> {
    match text case None => [] case Some(t) => Split(t, Exactly(','))
  }

  function LoadLine(m: AclMap, line: string): AclMap {
    if Skipped(line) then m
    else
      match Scan(line)
      case None => m
      case Some(p) => LoadParsed(m, p)
  }

  function LoadParsed(m: AclMap, p: Parsed): AclMap {
    if p.file in m then m
    else
      var m1 := AddUsers(AddFile(m, p.file, p.owner).0, p.file, Field(p.readers), ACCESS_READ);
      AddUsers(m1, p.file, Field(p.writers), ACCESS_WRITE)
  }

  function Load(m: AclMap, text: string): AclMap
    decreases |text|
  {
    if text == "" then m
    else
      var n := LineLength(text);
      Load(LoadLine(m, text[..n]), text[n..])
  }

  /** A `strtok_r` loop that grants each user of a field. */
  method GrantField(acl: AclTable, file: string, users: seq<string>, access: int)
    requires acl.Valid()
    modifies acl.table.Repr
    ensures acl.Valid() && acl.table.Repr == old(acl.table.Repr)
    ensures acl.table.M == AddUsers(old(acl.table.M), file, users, access)
  {
    var i := 0;
    assert users[0..] == users;
    while i < |users|
      invariant 0 <= i <= |users|
      invariant acl.Valid() && acl.table.Repr == old(acl.table.Repr)
      invariant AddUsers(acl.table.M, file, users[i..], access) == AddUsers(old(acl.table.M), file, users, access)
    {
      assert users[i..][1..] == users[i + 1..];
      var code := acl.AclAddAccess(file, users[i], access);
      i := i + 1;
    }
  }

  method LoadEntry(acl: AclTable, line: string)
    requires acl.Valid()
    modifies acl, acl.table.Repr
    ensures acl.Valid() && fresh(acl.table.Repr - old(acl.table.Repr))
    ensures acl.table.M == LoadLine(old(acl.table.M), line)
  {
    hide Scan;
    hide AddUsers;
    hide Split;
    hide HashTable.Valid;
    if Skipped(line) {
      return;
    }
    var scanned := Scan(line);
    if scanned.None? {
      return;
    }
    var p := scanned.value;
    var code := acl.AclAddFile(p.file, p.owner);
    if code == 0 {
      GrantField(acl, p.file, Field(p.readers), ACCESS_READ);
      GrantField(acl, p.file, Field(p.writers), ACCESS_WRITE);
    }
  }

  /** `acl_load`. */
  method AclLoad(acl: AclTable, text: string)
    requires acl.Valid()
    modifies acl, acl.table.Repr
    ensures acl.Valid() && fresh(acl.table.Repr - old(acl.table.Repr))
    ensures acl.table.M == Load(old(acl.table.M), text)
  {
    hide LoadLine;
    hide LineLength;
    hide HashTable.Valid;
    var rest := text;
    while rest != ""
      invariant acl.Valid() && fresh(acl.table.Repr - old(acl.table.Repr))
      invariant Load(acl.table.M, rest) == Load(old(acl.table.M), text)
      decreases |rest|
    {
      var n := LineLength(rest);
      LoadEntry(acl, rest[..n]);
      rest := rest[n..];
    }
  }

  // ----- the round trip -----

  /** Names of users that the text can carry. */
  predicate UserOk(s: string) {
    s != "" && '|' !in s && '\n' !in s && ',' !in s
  }

  predicate UsersOk(list: seq<string>) {
    ListOk(list) && forall i :: 0 <= i < |list| ==> UserOk(list[i])
  }

  /** Entries that the text can carry and the line buffer can hold. */
  predicate EntryOk(file: string, e: AclEntry) {
    && file != "" && |file| <= 255 && '|' !in file && '\n' !in file && file[0] != '#' && !(COUNT_KEY <= file)
    && e.owner != "" && |e.owner| <= 63 && '|' !in e.owner && '\n' !in e.owner
    && UsersOk(e.readers) && UsersOk(e.writers)
    && |EntryLine(file, e)| < MAX_CONTENT_LEN - 1
  }

  predicate AllEntriesOk(m: AclMap) {
    forall f :: f in m ==> EntryOk(f, m[f])
  }

  /** Without readers the third field is empty, so the writers are never read back. */
  function Reloaded(e: AclEntry): AclEntry {
    if e.readers == [] then e.(writers := []) else e
  }

  lemma {:induction false} SpanOf(s: string, stop: char, max: nat, rest: string)
    requires stop !in s && |s| <= max
    requires rest == "" || rest[0] == stop || |s| == max
    ensures Span(s + rest, stop, max) == |s|
  {
    if s == "" {
      assert s + rest == rest;
    } else {
      assert (s + rest)[1..] == s[1..] + rest;
      SpanOf(s[1..], stop, max - 1, rest);
    }
  }

  lemma LoadNextLine(m: AclMap, line: string, rest: string)
    requires '\n' !in line && |line| < MAX_CONTENT_LEN - 1
    ensures Load(m, line + ['\n'] + rest) == Load(LoadLine(m, line + ['\n']), rest)
  {
    var text := line + (['\n'] + rest);
    assert line + ['\n'] + rest == text;
    SpanOf(line, '\n', MAX_CONTENT_LEN - 1, ['\n'] + rest);
    assert LineLength(text) == |line| + 1;
    assert text[..|line| + 1] == line + ['\n'] && text[|line| + 1..] == rest;
  }

  lemma {:induction false} JoinFree(list: seq<string>)
    requires forall i :: 0 <= i < |list| ==> UserOk(list[i])
    ensures '|' !in JoinWith(list, ',') && '\n' !in JoinWith(list, ',')
    ensures JoinWith(list, ',') == "" <==> list == []
    ensures Split(JoinWith(list, ','), Exactly(',')) == list
  {
    JoinFreeChars(list);
    assert AllTokens(list, Exactly(',')) by {
      forall i | 0 <= i < |list| ensures IsToken(list[i], Exactly(',')) {
        assert UserOk(list[i]);
      }
    }
    JoinRoundTrip(list, ',', Exactly(','));
  }

  lemma {:induction false} JoinFreeChars(list: seq<string>)
    requires forall i :: 0 <= i < |list| ==> UserOk(list[i])
    ensures '|' !in JoinWith(list, ',') && '\n' !in JoinWith(list, ',')
    ensures JoinWith(list, ',') == "" <==> list == []
  {
    if |list| > 1 {
      JoinFreeChars(list[1..]);
    }
  }

  function OptionalField(list: seq<string>): Option<string> {
    if list == [] then None else Some(JoinWith(list, ','))
  }

  lemma ReadFieldOf(s: string, stop: char, max: nat, rest: string)
    requires stop !in s && |s| <= max && rest != "" && rest[0] == stop
    ensures ReadField(s + rest, stop, max) == if s == "" then None else Some((s, rest))
  {
    SpanOf(s, stop, max, rest);
    var t := s + rest;
    assert t[..|s|] == s && t[|s|..] == rest;
  }

  lemma Behind(mark: char, s: string)
    ensures ([mark] + s)[1..] == s
  {}

  lemma Regroup(a: string, b: string, c: string)
    ensures a + b + c == a + (b + c)
  {}

  lemma ScanWritersOf(p: Parsed, w: string)
    requires |w| <= 4095 && '\n' !in w
    ensures ScanWriters(p, ['|'] + (w + ['\n'])) == if w == "" then p else p.(writers := Some(w))
  {
    ReadFieldOf(w, '\n', 4095, ['\n']);
    hide ReadField;
    Behind('|', w + ['\n']);
  }

  lemma ScanReadersOf(p: Parsed, r: string, rest: string)
    requires |r| <= 4095 && '|' !in r && rest != "" && rest[0] == '|'
    ensures ScanReaders(p, ['|'] + (r + rest)) == if r == "" then p else ScanWriters(p.(readers := Some(r)), rest)
  {
    ReadFieldOf(r, '|', 4095, rest);
    hide ReadField;
    hide ScanWriters;
    Behind('|', r + rest);
  }

  lemma ScanOwnerOf(file: string, owner: string, rest: string)
    requires owner != "" && |owner| <= 63 && '|' !in owner && rest != "" && rest[0] == '|'
    ensures ScanOwner(file, ['|'] + (owner + rest)) == Some(ScanReaders(Parsed(file, owner, None, None), rest))
  {
    ReadFieldOf(owner, '|', 63, rest);
    hide ReadField;
    hide ScanReaders;
    Behind('|', owner + rest);
  }

  lemma ScanPieces(file: string, owner: string, r: string, w: string)
    requires file != "" && |file| <= 255 && '|' !in file && owner != "" && |owner| <= 63 && '|' !in owner
    requires |r| <= 4095 && '|' !in r && |w| <= 4095 && '\n' !in w
    ensures Scan(file + (['|'] + (owner + (['|'] + (r + (['|'] + (w + ['\n'])))))))
         == Some(Parsed(file, owner, if r == "" then None else Some(r), if r == "" || w == "" then None else Some(w)))
  {
    hide ScanOwner;
    hide ScanReaders;
    hide ScanWriters;
    var tail3 := ['|'] + (w + ['\n']);
    var tail2 := ['|'] + (r + tail3);
    var tail1 := ['|'] + (owner + tail2);
    ReadFieldOf(file, '|', 255, tail1);
    ScanOwnerOf(file, owner, tail2);
    ScanReadersOf(Parsed(file, owner, None, None), r, tail3);
    ScanWritersOf(Parsed(file, owner, Some(r), None), w);
    hide ReadField;
  }

  /** What `sscanf` makes of a saved line. */
  lemma ScanEntryLine(file: string, e: AclEntry)
    requires EntryOk(file, e)
    ensures Scan(EntryLine(file, e) + ['\n']) ==
            Some(Parsed(file, e.owner, OptionalField(e.readers),
                        if e.readers == [] then None else OptionalField(e.writers)))
  {
    var r, w := JoinWith(e.readers, ','), JoinWith(e.writers, ',');
    JoinFree(e.readers);
    JoinFree(e.writers);
    hide JoinWith;
    hide Split;
    ScanPieces(file, e.owner, r, w);
    hide Scan;
    EntryLinePieces(file, e.owner, r, w);
  }

  lemma EntryLinePieces(file: string, owner: string, r: string, w: string)
    ensures file + "|" + owner + "|" + r + "|" + w + ['\n']
         == file + (['|'] + (owner + (['|'] + (r + (['|'] + (w + ['\n']))))))
  {
    var p1 := file + "|";
    var p2 := p1 + owner;
    var p3 := p2 + "|";
    var p4 := p3 + r;
    var p5 := p4 + "|";
    var t6 := w + ['\n'];
    Regroup(p5, w, ['\n']);
    Regroup(p4, "|", t6);
    Regroup(p3, r, "|" + t6);
    Regroup(p2, "|", r + ("|" + t6));
    Regroup(p1, owner, "|" + (r + ("|" + t6)));
    Regroup(file, "|", owner + ("|" + (r + ("|" + t6))));
  }

  lemma {:induction false} AddUsersAppends(m: AclMap, file: string, users: seq<string>, access: int)
    requires file in m && (access == ACCESS_READ || access == ACCESS_WRITE)
    requires ListOk((if access == ACCESS_READ then m[file].readers else m[file].writers) + users)
    ensures AddUsers(m, file, users, access) ==
            m[file := if access == ACCESS_READ then m[file].(readers := m[file].readers + users)
                      else m[file].(writers := m[file].writers + users)]
    decreases |users|
  {
    var list := if access == ACCESS_READ then m[file].readers else m[file].writers;
    if users == [] {
      assert list + users == list;
    } else {
      var all := list + users;
      assert users[0] !in list by {
        assert all[|list|] == users[0];
        forall i | 0 <= i < |list| ensures list[i] != users[0] {
          assert all[i] == list[i];
        }
      }
      assert list + [users[0]] + users[1..] == all;
      AddUsersAppends(Acl.AddAccess(m, file, users[0], access).0, file, users[1..], access);
    }
  }

  lemma LoadParsedEntry(m: AclMap, file: string, e: AclEntry, p: Parsed)
    requires file !in m && p.file == file && p.owner == e.owner
    requires ListOk(Field(p.readers)) && ListOk(Field(p.writers))
    ensures LoadParsed(m, p) == m[file := AclEntry(e.owner, Field(p.readers), Field(p.writers))]
  {
    var m0 := AddFile(m, file, e.owner).0;
    var readers, writers := Field(p.readers), Field(p.writers);
    hide Field;
    assert [] + readers == readers && [] + writers == writers;
    AddUsersAppends(m0, file, readers, ACCESS_READ);
    AddUsersAppends(m0[file := AclEntry(e.owner, readers, [])], file, writers, ACCESS_WRITE);
  }

  lemma FieldOf(list: seq<string>)
    requires UsersOk(list)
    ensures Field(OptionalField(list)) == list
  {
    JoinFree(list);
  }

  lemma LoadEntryLine(m: AclMap, file: string, e: AclEntry)
    requires EntryOk(file, e) && file !in m
    ensures LoadLine(m, EntryLine(file, e) + ['\n']) == m[file := Reloaded(e)]
  {
    ScanEntryLine(file, e);
    EntryLineNotSkipped(file, e);
    FieldOf(e.readers);
    FieldOf(e.writers);
    hide Scan;
    hide EntryLine;
    hide Skipped;
    hide OptionalField;
    hide LoadParsed;
    LoadParsedEntry(m, file, e,
      Parsed(file, e.owner, OptionalField(e.readers), if e.readers == [] then None else OptionalField(e.writers)));
  }

  lemma EntryLineNotSkipped(file: string, e: AclEntry)
    requires EntryOk(file, e)
    ensures !Skipped(EntryLine(file, e) + ['\n']) && '\n' !in EntryLine(file, e)
  {
    JoinFree(e.readers);
    JoinFree(e.writers);
    hide JoinWith;
    var rest := e.owner + "|" + JoinWith(e.readers, ',') + "|" + JoinWith(e.writers, ',') + ['\n'];
    assert EntryLine(file, e) + ['\n'] == file + (['|'] + rest);
    KeyNotInLine(file, rest);
  }

  lemma KeyNotInLine(file: string, rest: string)
    requires !(COUNT_KEY <= file)
    ensures !(COUNT_KEY <= file + (['|'] + rest))
  {
    var line := file + (['|'] + rest);
    KeyHasNoBar();
    if |file| < |COUNT_KEY| {
      assert line[|file|] == '|' != COUNT_KEY[|file|];
    } else {
      assert line[..|COUNT_KEY|] == file[..|COUNT_KEY|];
    }
  }

  lemma KeyHasNoBar()
    ensures forall i :: 0 <= i < |COUNT_KEY| ==> COUNT_KEY[i] != '|'
  {}

  // ----- the header -----

  lemma {:induction false} DecimalDigits(n: nat)
    ensures '\n' !in Decimal(n)
  {
    if n >= 10 {
      DecimalDigits(n / 10);
    }
  }

  lemma DecimalLength(n: nat)
    requires n < 0x8000_0000
    ensures |Decimal(n)| <= 10
  {
    assert n < 10 || n / 10 < 214748365;
    DecimalShort(n, 10, 10000000000);
  }

  lemma {:induction false} DecimalShort(n: nat, k: nat, bound: nat)
    requires k > 0 && n < bound && bound == Power10(k)
    ensures |Decimal(n)| <= k
    decreases k
  {
    if n >= 10 {
      DecimalShort(n / 10, k - 1, Power10(k - 1));
    }
  }

  function Power10(k: nat): nat {
    if k == 0 then 1 else 10 * Power10(k - 1)
  }

  // ----- all lines -----

  predicate LineOk(line: string) {
    '\n' !in line && |line| < MAX_CONTENT_LEN - 1
  }

  function LoadLines(m: AclMap, lines: seq<string>): AclMap
    decreases |lines|
  {
    if lines == [] then m else LoadLines(LoadLine(m, lines[0] + ['\n']), lines[1..])
  }

  /** Reading the text of lines that fit the buffer reads line after line. */
  lemma {:induction false} LoadFileText(m: AclMap, lines: seq<string>)
    requires forall i :: 0 <= i < |lines| ==> LineOk(lines[i])
    ensures Load(m, FileText(lines)) == LoadLines(m, lines)
    decreases |lines|
  {
    if lines != [] {
      LoadNextLine(m, lines[0], FileText(lines[1..]));
      LoadFileText(LoadLine(m, lines[0] + ['\n']), lines[1..]);
    }
  }

  lemma {:induction false} LoadLinesSkip(m: AclMap, skipped: seq<string>, lines: seq<string>)
    requires forall i :: 0 <= i < |skipped| ==> Skipped(skipped[i] + ['\n'])
    ensures LoadLines(m, skipped + lines) == LoadLines(m, lines)
    decreases |skipped|
  {
    if skipped == [] {
      assert skipped + lines == lines;
    } else {
      assert (skipped + lines)[1..] == skipped[1..] + lines;
      LoadLinesSkip(m, skipped[1..], lines);
    }
  }

  /** The entries of a list as a map, each as it comes back from the text. */
  function ReloadedItems(m: AclMap, items: seq<(string, AclEntry)>): AclMap
    decreases |items|
  {
    if items == [] then m else ReloadedItems(m[items[0].0 := Reloaded(items[0].1)], items[1..])
  }

  lemma {:induction false} LoadEntryLines(m: AclMap, items: seq<(string, AclEntry)>)
    requires DistinctItems(items)
    requires forall i :: 0 <= i < |items| ==> EntryOk(items[i].0, items[i].1) && items[i].0 !in m
    ensures LoadLines(m, EntryLines(items)) == ReloadedItems(m, items)
    decreases |items|
  {
    if items != [] {
      hide EntryOk;
      hide EntryLine;
      hide LoadLine;
      var (file, e) := items[0];
      LoadEntryLine(m, file, e);
      assert EntryLines(items)[1..] == EntryLines(items[1..]);
      assert DistinctItems(items[1..]) by {
        assert forall i :: 0 <= i < |items| - 1 ==> items[1..][i] == items[i + 1];
      }
      LoadEntryLines(m[file := Reloaded(e)], items[1..]);
    }
  }

  lemma {:induction false} ReloadedItemsMap(m: AclMap, items: seq<(string, AclEntry)>, f: string)
    requires DistinctItems(items)
    ensures f in ReloadedItems(m, items) <==> f in m || Listed(items, f)
    ensures forall i :: 0 <= i < |items| && items[i].0 == f ==> ReloadedItems(m, items)[f] == Reloaded(items[i].1)
    ensures f in m && !Listed(items, f) ==> ReloadedItems(m, items)[f] == m[f]
    decreases |items|
  {
    if items != [] {
      var rest := items[1..];
      assert forall i :: 0 <= i < |rest| ==> rest[i] == items[i + 1];
      ReloadedItemsMap(m[items[0].0 := Reloaded(items[0].1)], rest, f);
      if Listed(items, f) {
        var i :| 0 <= i < |items| && items[i].0 == f;
        if i > 0 { assert rest[i - 1].0 == f; }
      }
      if Listed(rest, f) {
        var i :| 0 <= i < |rest| && rest[i].0 == f;
        assert items[i + 1].0 == f;
      }
    }
  }

  lemma {:induction false} EntryLinesOk(items: seq<(string, AclEntry)>)
    requires forall i :: 0 <= i < |items| ==> EntryOk(items[i].0, items[i].1)
    ensures |EntryLines(items)| == |items|
    ensures forall i :: 0 <= i < |items| ==> LineOk(EntryLines(items)[i])
  {
    if items != [] {
      EntryLineNotSkipped(items[0].0, items[0].1);
      EntryLinesOk(items[1..]);
    }
  }

  lemma CommentSkipped(i: nat)
    requires i < |COMMENTS|
    ensures LineOk(COMMENTS[i]) && Skipped(COMMENTS[i] + ['\n'])
  {
    assert LineOk(COMMENTS[0]) && LineOk(COMMENTS[1]) && LineOk(COMMENTS[2]);
    assert COMMENTS[0][0] == '#' && COMMENTS[1][0] == "# Format: "[0] == '#' && COMMENTS[2][0] == '#';
    assert (COMMENTS[i] + ['\n'])[0] == COMMENTS[i][0];
  }

  lemma CountSkipped(count: nat)
    requires count < 0x8000_0000
    ensures LineOk(COUNT_KEY + Decimal(count)) && Skipped(COUNT_KEY + Decimal(count) + ['\n'])
  {
    DecimalDigits(count);
    DecimalLength(count);
    var line := COUNT_KEY + Decimal(count);
    assert (line + ['\n'])[..|COUNT_KEY|] == COUNT_KEY;
  }

  lemma HeaderSkipped(count: nat, i: nat)
    requires count < 0x8000_0000 && i < |Header(count)|
    ensures LineOk(Header(count)[i]) && Skipped(Header(count)[i] + ['\n'])
  {
    hide LineOk;
    hide Skipped;
    if i < |COMMENTS| { CommentSkipped(i); } else { CountSkipped(count); }
  }

  /**
    Loading what was saved, into an empty table, gives every file its owner and its users in their order,
    except that the writers are gone in the entries without readers.
  */
  lemma LoadOfSave(m: AclMap, count: nat, items: seq<(string, AclEntry)>)
    requires AllEntriesOk(m) && Enumerates(items, m) && count < 0x8000_0000
    ensures Load(map[], FileText(SavedLines(count, items))) == map f | f in m :: Reloaded(m[f])
  {
    hide EntryOk;
    hide LoadLine;
    hide Skipped;
    hide LineOk;
    hide Header;
    hide EntryLines;
    var header, entries := Header(count), EntryLines(items);
    var lines := header + entries;
    EntryLinesOk(items);
    forall i | 0 <= i < |header| ensures LineOk(header[i]) && Skipped(header[i] + ['\n']) {
      HeaderSkipped(count, i);
    }
    forall i | 0 <= i < |lines| ensures LineOk(lines[i]) {
      if i < |header| {
        assert lines[i] == header[i];
      } else {
        assert lines[i] == entries[i - |header|];
      }
    }
    LoadFileText(map[], lines);
    LoadLinesSkip(map[], header, entries);
    LoadEntryLines(map[], items);
    var loaded := ReloadedItems(map[], items);
    forall f ensures f in loaded <==> f in m {
      ReloadedItemsMap(map[], items, f);
    }
    forall f | f in m ensures loaded[f] == Reloaded(m[f]) {
      ReloadedItemsMap(map[], items, f);
      assert Listed(items, f);
      var i :| 0 <= i < |items| && items[i].0 == f;
    }
  }

  /** Saving and loading loses nothing exactly when every file with a writer has a reader. */
  lemma LoadOfSaveIsIdentityIff(m: AclMap, count: nat, items: seq<(string, AclEntry)>)
    requires AllEntriesOk(m) && Enumerates(items, m) && count < 0x8000_0000
    ensures Load(map[], FileText(SavedLines(count, items))) == m
       <==> forall f :: f in m && m[f].writers != [] ==> m[f].readers != []
  {
    LoadOfSave(m, count, items);
    hide Load;
    hide SavedLines;
    hide AllEntriesOk;
    var loaded := map f | f in m :: Reloaded(m[f]);
    if loaded == m {
      forall f | f in m && m[f].writers != [] ensures m[f].readers != [] {
        assert loaded[f] == m[f];
      }
    }
  }

  /** A file with a writer and no reader comes back without its writer. */
  lemma WriterWithoutReaderIsLost(count: nat, items: seq<(string, AclEntry)>)
    requires Enumerates(items, map["f" := AclEntry("o", [], ["w"])]) && count < 0x8000_0000
    ensures Load(map[], FileText(SavedLines(count, items))) == map["f" := AclEntry("o", [], [])]
  {
    var m: AclMap := map["f" := AclEntry("o", [], ["w"])];
    assert UserOk("w") && UsersOk(["w"]) && UsersOk([]);
    assert EntryOk("f", m["f"]);
    LoadOfSave(m, count, items);
  }

  /** The name server's restart, as far as the access lists go: `acl_save`, then `acl_init` and `acl_load`. */
  method Restart(acl: AclTable) returns (loaded: AclTable)
    requires acl.Valid() && AllEntriesOk(acl.table.M) && acl.fileCount < 0x8000_0000
    ensures loaded.Valid() && fresh(loaded) && fresh(loaded.table.Repr)
    ensures loaded.table.M == map f | f in acl.table.M :: Reloaded(acl.table.M[f])
  {
    hide AllEntriesOk;
    hide SavedLines;
    hide Load;
    hide Enumerates;
    hide AclTable.Valid;
    ghost var m, count := acl.table.M, acl.fileCount;
    var text := AclSave(acl);
    ghost var items :| Enumerates(items, m) && text == FileText(SavedLines(count, items));
    LoadOfSave(m, count, items);
    loaded := new AclTable();
    AclLoad(loaded, text);
  }
}
