/** Runs of the access handlers, from empty tables, that end where one would not expect. */
module AccessExamples {
  import opened Text
  import opened Protocol
  import opened Acl
  import opened AccessRequests
  import opened AccessRuns
  import opened RequestRuns
  import opened AclPersistence
  import opened Splitting

  lemma Runs(events: seq<Event>, n: nat, s: Access)
    requires 0 < n <= |events| && After(events, n - 1) == s
    ensures After(events, n) == Step(s, events[n - 1]).0
  {
    hide Step;
  }

  lemma AtFirst(events: seq<Event>)
    ensures After(events, 0) == EMPTY
  {}

  const OWNED := Access(map["f" := AclEntry("o", [], [])], [])
  const ASKED := OWNED.(requests := [AccessRequest("f", "u", "o", ACCESS_READ, true)])

  lemma OwnedThenAsked()
    ensures Step(EMPTY, Created("f", "o")).0 == OWNED
    ensures Step(OWNED, RequestAccess("f", "u", true)) == (ASKED, ERR_SUCCESS)
  {
    var r := AccessRequest("f", "u", "o", ACCESS_READ, true);
    assert [] + [r] == [r];
    assert !HasPending([], "f", "u");
  }

  // ----- an approval that a restart forgets -----

  const APPROVED := Access(map["f" := AclEntry("o", ["u"], [])], [AccessRequest("f", "u", "o", ACCESS_READ, false)])

  const APPROVAL: seq<Event> := [Created("f", "o"), RequestAccess("f", "u", true), Approve("f", "o", "u")]

  lemma Approves()
    ensures Step(ASKED, Approve("f", "o", "u")).0 == APPROVED
  {
    assert FirstMatch(ASKED.requests, "f", "u", "o") == 0;
    assert [] + ["u"] == ["u"];
  }

  /** The owner approves a request: the user can read, and is not in what was saved. */
  lemma ApprovalIsForgotten()
    ensures After(APPROVAL, 3) == APPROVED && Saved(APPROVAL, 3) == OWNED.acl
    ensures IsReader(After(APPROVAL, 3).acl, "f", "u") && !IsReader(Saved(APPROVAL, 3), "f", "u")
  {
    AtFirst(APPROVAL);
    OwnedThenAsked();
    Approves();
    hide Step;
    Runs(APPROVAL, 1, EMPTY);
    Runs(APPROVAL, 2, OWNED);
    Runs(APPROVAL, 3, ASKED);
    hide After;
    assert Saves(EMPTY, APPROVAL[0]) && !Saves(OWNED, APPROVAL[1]) && !Saves(ASKED, APPROVAL[2]);
    assert Saved(APPROVAL, 1) == OWNED.acl;
    assert Saved(APPROVAL, 2) == OWNED.acl;
  }

  // ----- a request that nobody can settle -----

  const ORPHANED := Access(map["f" := AclEntry("p", [], [])], ASKED.requests)

  const ORPHANING: seq<Event> := [
    Created("f", "o"), RequestAccess("f", "u", true), Deleted("f", "o", ERR_SUCCESS), Created("f", "p")]

  lemma Orphans()
    ensures Step(ASKED, Deleted("f", "o", ERR_SUCCESS)).0 == Access(map[], ASKED.requests)
    ensures Step(Access(map[], ASKED.requests), Created("f", "p")).0 == ORPHANED
  {}

  /**
    The file is deleted and made again by another user: the old request is still pending. The new owner can
    neither approve nor deny it, and the user cannot ask again.
  */
  lemma RequestIsOrphaned()
    ensures var s := After(ORPHANING, 4);
            && Awaits(s.requests, "f", "u", "o") && IsOwner(s.acl, "f", "p")
            && Step(s, Approve("f", "p", "u")).1 == ERR_NOT_FOUND && Step(s, Deny("f", "p", "u")).1 == ERR_NOT_FOUND
            && Step(s, RequestAccess("f", "u", true)).1 == ERR_SERVER_ERROR
  {
    AtFirst(ORPHANING);
    OwnedThenAsked();
    Orphans();
    OrphanedCodes();
    hide Step;
    Runs(ORPHANING, 1, EMPTY);
    Runs(ORPHANING, 2, OWNED);
    Runs(ORPHANING, 3, ASKED);
    Runs(ORPHANING, 4, Access(map[], ASKED.requests));
    hide After;
    assert Pending(ORPHANED.requests[0], "f", "u");
  }

  lemma OrphanedCodes()
    ensures Step(ORPHANED, Approve("f", "p", "u")).1 == ERR_NOT_FOUND
    ensures Step(ORPHANED, Deny("f", "p", "u")).1 == ERR_NOT_FOUND
    ensures Step(ORPHANED, RequestAccess("f", "u", true)).1 == ERR_SERVER_ERROR
  {
    assert FirstMatch(ORPHANED.requests, "f", "u", "p") == 1;
    assert Pending(ORPHANED.requests[0], "f", "u");
  }

  // ----- the text of a save -----

  const SHARED := AclEntry("o", ["u", "v"], ["w"])

  lemma SharedLine()
    ensures EntryLines([("f", SHARED)]) == ["f|o|u,v|w"]
  {
    assert ["u", "v"][1..] == ["v"] && JoinWith(["v"], ',') == "v" && JoinWith(["w"], ',') == "w";
    assert JoinWith(["u", "v"], ',') == "u" + [','] + "v";
    assert EntryLine("f", SHARED) == "f|o|u,v|w";
    assert [("f", SHARED)][1..] == [];
    assert EntryLines([]) == [];
  }

  lemma OneCounted()
    ensures Header(1) == COMMENTS + ["file_count=1"]
  {
    assert Decimal(1) == "1";
    assert COUNT_KEY + Decimal(1) == "file_count=1";
    hide COMMENTS;
  }

  lemma TwoLines(a: string, b: string)
    ensures FileText([a, b]) == a + "\n" + b + "\n"
  {
    assert [a, b][1..] == [b] && [b][1..] == [];
    assert FileText([b]) == b + "\n";
  }

  lemma ThreeLines(a: string, b: string, c: string)
    ensures FileText([a, b, c]) == a + "\n" + b + "\n" + c + "\n"
  {
    assert [a, b, c] == [a, b] + [c];
    FileTextSnoc([a, b], c);
    TwoLines(a, b);
  }

  /** What the file holds for one entry. */
  lemma SavedText()
    ensures FileText(SavedLines(1, [("f", SHARED)])) ==
              "# ACL Data File - Docs++" + "\n" + "# Format: filename|owner|read_users|write_users" + "\n"
              + "# Version: 1.0" + "\n" + ("file_count=1\n" + "f|o|u,v|w\n")
  {
    SharedLine();
    OneCounted();
    ThreeLines(COMMENTS[0], COMMENTS[1], COMMENTS[2]);
    TwoLines("file_count=1", "f|o|u,v|w");
    assert COMMENTS == [COMMENTS[0], COMMENTS[1], COMMENTS[2]];
    hide EntryLines;
    hide FileText;
    FileTextAppend(COMMENTS, ["file_count=1", "f|o|u,v|w"]);
    assert SavedLines(1, [("f", SHARED)]) == COMMENTS + ["file_count=1", "f|o|u,v|w"];
    assert "file_count=1" + "\n" == "file_count=1\n" && "f|o|u,v|w" + "\n" == "f|o|u,v|w\n";
  }
}
