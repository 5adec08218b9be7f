/**
  Access over whole runs of the name server: who is in a list, and why
  (nameserver/nameserver.c:1253-1362, 1801-1969).
*/
module AccessRuns {
  import opened Text
  import opened Protocol
  import opened Acl
  import opened AccessRequests
  import opened AclPersistence
  import opened HashTables

  /** The two tables. */
  datatype Access = Access(acl: AclMap, requests: Requests)

  const EMPTY := Access(map[], [])

  /**
    What the handlers do to the tables. `reply`: the code the storage server answers with, or that of a failed exchange.
    `known`: the target's name has no delimiter and belongs to a registered client. `mapped`: the file is
    in the file map.
  */
  datatype Event =
    | Created(file: string, sender: string)
    | Deleted(file: string, sender: string, reply: int)
    | AddAccess(file: string, sender: string, target: string, access: int, known: bool)
    | RemAccess(file: string, sender: string, target: string)
    | RequestAccess(file: string, sender: string, mapped: bool)
    | Approve(file: string, sender: string, requester: string)
    | Deny(file: string, sender: string, requester: string)

  function Step(s: Access, e: Event): (Access, int) {
    match e
    case Created(file, sender) => (s.(acl := AddFile(s.acl, file, sender).0), ERR_CREATED)
    case Deleted(file, sender, reply) =>
      if !CanWrite(s.acl, file, sender) then (s, ERR_ACCESS_DENIED)
      else if reply != ERR_SUCCESS then (s, reply)
      else (s.(acl := RemoveFile(s.acl, file).0), ERR_SUCCESS)
    case AddAccess(file, sender, target, access, known) =>
      if !known then (s, ERR_BAD_REQUEST)
      else if !IsOwner(s.acl, file, sender) then (s, ERR_ACCESS_DENIED)
      else if access != ACCESS_READ && access != ACCESS_WRITE then (s, ERR_BAD_REQUEST)
      else
        var (acl, code) := Acl.AddAccess(s.acl, file, target, access);
        (s.(acl := acl), if code < 0 then ERR_SERVER_ERROR else ERR_SUCCESS)
    case RemAccess(file, sender, target) =>
      if !IsOwner(s.acl, file, sender) then (s, ERR_ACCESS_DENIED)
      else
        var (acl, code) := RemoveAccess(s.acl, file, target);
        (s.(acl := acl), if code < 0 then ERR_NOT_FOUND else ERR_SUCCESS)
    case RequestAccess(file, sender, mapped) =>
      if !mapped then (s, ERR_NOT_FOUND)
      else if CanRead(s.acl, file, sender) || CanWrite(s.acl, file, sender) || IsOwner(s.acl, file, sender)
      then (s, ERR_CONFLICT)
      else if file !in s.acl then (s, ERR_NOT_FOUND)
      else
        var (q, code) := AddRequest(s.requests, file, sender, s.acl[file].owner, ACCESS_READ);
        (s.(requests := q), if code == ERR_SUCCESS then ERR_SUCCESS else ERR_SERVER_ERROR)
    case Approve(file, sender, requester) =>
      if !IsOwner(s.acl, file, sender) then (s, ERR_ACCESS_DENIED)
      else
        var (q, code) := Settle(s.requests, file, requester, sender);
        if code != ERR_SUCCESS then (s, ERR_NOT_FOUND)
        else
          var (acl, added) := Acl.AddAccess(s.acl, file, requester, ACCESS_READ);
          (Access(acl, q), if added == 0 then ERR_SUCCESS else ERR_SERVER_ERROR)
    case Deny(file, sender, requester) =>
      if !IsOwner(s.acl, file, sender) then (s, ERR_ACCESS_DENIED)
      else
        var (q, code) := Settle(s.requests, file, requester, sender);
        (s.(requests := q), if code == ERR_SUCCESS then ERR_SUCCESS else ERR_NOT_FOUND)
  }

  // ----- the handlers over the two tables -----

  /** The events after which the handlers call `acl_save`. APPROVE is not among them. */
  predicate Saves(s: Access, e: Event) {
    match e
    case Created(file, _) => file !in s.acl
    case Deleted(_, _, _) => Step(s, e).1 == ERR_SUCCESS
    case AddAccess(_, _, _, _, _) => Step(s, e).1 == ERR_SUCCESS
    case RemAccess(_, _, _) => Step(s, e).1 == ERR_SUCCESS
    case _ => false
  }

  /** The text is what `acl_save` makes of the lists, in some order; or there is none yet. */
  ghost predicate OnDisk(text: string, saved: AclMap) {
    || (text == "" && saved == map[])
    || exists items :: Enumerates(items, saved) && text == FileText(SavedLines(|saved|, items))
  }

  class AccessServer {
    const acl: AclTable
    const requests: RequestTable
    /** The file that `acl_save` writes; empty as long as there is none. */
    var disk: string
    ghost var saved: AclMap

    ghost predicate Valid()
      reads this, acl, acl.table, acl.table.Repr, requests, requests.slots
    {
      && acl.Valid() && requests.Valid()
      && requests !in acl.table.Repr && requests.slots !in acl.table.Repr && this !in acl.table.Repr
      && OnDisk(disk, saved)
    }

    ghost function State(): Access
      requires Valid()
      reads this, acl, acl.table, acl.table.Repr, requests, requests.slots
    {
      Access(acl.table.M, requests.Contents())
    }

    ghost function Footprint(): set<object>
      reads this, acl, acl.table, requests
    {
      {this, acl, requests, requests.slots} + acl.table.Repr
    }

    constructor ()
      ensures Valid() && fresh(Footprint()) && State() == EMPTY && saved == map[]
    {
      acl := new AclTable();
      requests := new RequestTable();
      disk := "";
      saved := map[];
    }

    /** `acl_save`, which writes the lists as they are. */
    method Persist()
      requires Valid()
      modifies this
      ensures Valid() && State() == old(State()) && saved == State().acl && Footprint() == old(Footprint())
    {
      hide AclTable.Valid;
      hide RequestTable.Valid;
      hide Enumerates;
      hide SavedLines;
      SizeOfTable();
      disk := AclSave(acl);
      saved := acl.table.M;
    }

    lemma SizeOfTable()
      requires Valid()
      ensures acl.fileCount == |acl.table.M|
    {}

    /** `handle_addaccess_request`. */
    method HandleAddAccess(file: string, sender: string, target: string, access: int, known: bool) returns (code: int)
      requires Valid()
      modifies Footprint()
      ensures Valid() && fresh(Footprint() - old(Footprint()))
      ensures (State(), code) == Step(old(State()), AddAccess(file, sender, target, access, known))
      ensures saved ==
              if Saves(old(State()), AddAccess(file, sender, target, access, known)) then State().acl else old(saved)
    {
      if !known {
        return ERR_BAD_REQUEST;
      }
      var owner := acl.CheckOwner(file, sender);
      if !owner {
        return ERR_ACCESS_DENIED;
      }
      if access != ACCESS_READ && access != ACCESS_WRITE {
        return ERR_BAD_REQUEST;
      }
      var added := acl.AclAddAccess(file, target, access);
      if added < 0 {
        return ERR_SERVER_ERROR;
      }
      Persist();
      return ERR_SUCCESS;
    }

    /** `handle_remaccess_request`. */
    method HandleRemAccess(file: string, sender: string, target: string) returns (code: int)
      requires Valid()
      modifies Footprint()
      ensures Valid() && fresh(Footprint() - old(Footprint()))
      ensures (State(), code) == Step(old(State()), RemAccess(file, sender, target))
      ensures saved == if Saves(old(State()), RemAccess(file, sender, target)) then State().acl else old(saved)
    {
      var owner := acl.CheckOwner(file, sender);
      if !owner {
        return ERR_ACCESS_DENIED;
      }
      var removed := acl.AclRemoveAccess(file, target);
      if removed < 0 {
        return ERR_NOT_FOUND;
      }
      Persist();
      return ERR_SUCCESS;
    }

    /** `handle_requestaccess_request`. */
    method HandleRequestAccess(file: string, sender: string, mapped: bool) returns (code: int)
      requires Valid()
      modifies Footprint()
      ensures Valid() && fresh(Footprint() - old(Footprint()))
      ensures (State(), code) == Step(old(State()), RequestAccess(file, sender, mapped))
      ensures saved == if Saves(old(State()), RequestAccess(file, sender, mapped)) then State().acl else old(saved)
    {
      if !mapped {
        return ERR_NOT_FOUND;
      }
      var canRead := acl.CheckRead(file, sender);
      var canWrite := acl.CheckWrite(file, sender);
      var owns := acl.CheckOwner(file, sender);
      if canRead || canWrite || owns {
        return ERR_CONFLICT;
      }
      var prev, node, j := acl.table.Find(file);
      if node == null {
        return ERR_NOT_FOUND;
      }
      var added := requests.Add(file, sender, node.val.owner, ACCESS_READ);
      return if added == ERR_SUCCESS then ERR_SUCCESS else ERR_SERVER_ERROR;
    }

    /** `handle_approverequest_request`. */
    method HandleApprove(file: string, sender: string, requester: string) returns (code: int)
      requires Valid()
      modifies Footprint()
      ensures Valid() && fresh(Footprint() - old(Footprint()))
      ensures (State(), code) == Step(old(State()), Approve(file, sender, requester))
      ensures saved == if Saves(old(State()), Approve(file, sender, requester)) then State().acl else old(saved)
    {
      var owner := acl.CheckOwner(file, sender);
      if !owner {
        return ERR_ACCESS_DENIED;
      }
      var settled := requests.SettleRequest(file, requester, sender);
      if settled != ERR_SUCCESS {
        return ERR_NOT_FOUND;
      }
      var added := acl.AclAddAccess(file, requester, ACCESS_READ);
      return if added == 0 then ERR_SUCCESS else ERR_SERVER_ERROR;
    }

    /** `handle_denyrequest_request`. */
    method HandleDeny(file: string, sender: string, requester: string) returns (code: int)
      requires Valid()
      modifies Footprint()
      ensures Valid() && fresh(Footprint() - old(Footprint()))
      ensures (State(), code) == Step(old(State()), Deny(file, sender, requester))
      ensures saved == if Saves(old(State()), Deny(file, sender, requester)) then State().acl else old(saved)
    {
      var owner := acl.CheckOwner(file, sender);
      if !owner {
        return ERR_ACCESS_DENIED;
      }
      var settled := requests.SettleRequest(file, requester, sender);
      return if settled == ERR_SUCCESS then ERR_SUCCESS else ERR_NOT_FOUND;
    }

    /** The access part of `handle_create_request`: the creator becomes the owner. */
    method HandleCreated(file: string, sender: string) returns (code: int)
      requires Valid()
      modifies Footprint()
      ensures Valid() && fresh(Footprint() - old(Footprint()))
      ensures (State(), code) == Step(old(State()), Created(file, sender))
      ensures saved == if Saves(old(State()), Created(file, sender)) then State().acl else old(saved)
    {
      var added := acl.AclAddFile(file, sender);
      if added == 0 {
        Persist();
      }
      return ERR_CREATED;
    }

    /** The access part of `handle_delete_request`. */
    method HandleDeleted(file: string, sender: string, reply: int) returns (code: int)
      requires Valid()
      modifies Footprint()
      ensures Valid() && fresh(Footprint() - old(Footprint()))
      ensures (State(), code) == Step(old(State()), Deleted(file, sender, reply))
      ensures saved == if Saves(old(State()), Deleted(file, sender, reply)) then State().acl else old(saved)
    {
      var allowed := acl.CheckWrite(file, sender);
      if !allowed {
        return ERR_ACCESS_DENIED;
      }
      if reply != ERR_SUCCESS {
        return reply;
      }
      var removed := acl.AclRemoveFile(file);
      if removed == 0 {
        Persist();
      }
      return ERR_SUCCESS;
    }
  }

  // ----- runs from empty tables -----

  function After(events: seq<Event>, n: nat): Access
    requires n <= |events|
  {
    if n == 0 then EMPTY else Step(After(events, n - 1), events[n - 1]).0
  }

  /** Lists without duplicates, at most one pending request per file and user, tables within their bounds. */
  predicate TablesOk(s: Access) {
    ListsOk(s.acl) && OnePending(s.requests) && |s.requests| <= MAX_REQUESTS
  }

  lemma AddAccessKeepsLists(m: AclMap, file: string, user: string, access: int)
    requires ListsOk(m)
    ensures ListsOk(Acl.AddAccess(m, file, user, access).0)
  {}

  lemma RemoveAccessKeepsLists(m: AclMap, file: string, user: string)
    requires ListsOk(m)
    ensures ListsOk(RemoveAccess(m, file, user).0)
  {
    if file in m {
      RemoveFirstOfDistinct(m[file].readers, user);
      RemoveFirstOfDistinct(m[file].writers, user);
      WithoutMembers(m[file].readers, user);
      WithoutMembers(m[file].writers, user);
    }
  }

  lemma StepKeepsTables(s: Access, e: Event)
    requires TablesOk(s)
    ensures TablesOk(Step(s, e).0)
  {
    hide ListOk;
    match e {
      case Created(file, sender) =>
        assert ListOk([]) by { EmptyListOk(); }
      case Deleted(file, sender, reply) =>
      case AddAccess(file, sender, target, access, known) =>
        AddAccessKeepsLists(s.acl, file, target, access);
      case RemAccess(file, sender, target) =>
        RemoveAccessKeepsLists(s.acl, file, target);
      case RequestAccess(file, sender, mapped) =>
        if file in s.acl { AddKeepsOnePending(s.requests, file, sender, s.acl[file].owner, ACCESS_READ); }
      case Approve(file, sender, requester) =>
        AddAccessKeepsLists(s.acl, file, requester, ACCESS_READ);
        SettleKeepsOnePending(s.requests, file, requester, sender);
      case Deny(file, sender, requester) =>
        SettleKeepsOnePending(s.requests, file, requester, sender);
    }
  }

  lemma EmptyListOk()
    ensures ListOk([])
  {}

  lemma {:induction false} TablesStayOk(events: seq<Event>, n: nat)
    requires n <= |events|
    ensures TablesOk(After(events, n))
  {
    if n > 0 {
      TablesStayOk(events, n - 1);
      StepKeepsTables(After(events, n - 1), events[n - 1]);
    }
  }

  /** In every reachable state one REMACCESS takes exactly the user's non-owner access to the file. */
  lemma RevocationInEveryRun(events: seq<Event>, n: nat, file: string, user: string, f: string, u: string)
    requires n <= |events|
    ensures var m := After(events, n).acl;
            var m' := RemoveAccess(m, file, user).0;
            if f == file && u == user
            then (CanRead(m', f, u) <==> IsOwner(m, f, u)) && (CanWrite(m', f, u) <==> IsOwner(m, f, u))
            else (CanRead(m', f, u) <==> CanRead(m, f, u)) && (CanWrite(m', f, u) <==> CanWrite(m, f, u))
  {
    TablesStayOk(events, n);
    RevocationExact(After(events, n).acl, file, user, f, u);
  }

  /** A user stands in one of the lists of a file. */
  predicate InList(s: Access, file: string, user: string) {
    file in s.acl && (user in s.acl[file].readers || user in s.acl[file].writers)
  }

  /** The user's own successful request for the file. */
  predicate Asks(s: Access, e: Event, file: string, user: string) {
    e.RequestAccess? && e.file == file && e.sender == user && Step(s, e).1 == ERR_SUCCESS
  }

  predicate Requested(events: seq<Event>, j: nat, file: string, user: string)
    requires j < |events|
  {
    Asks(After(events, j), events[j], file, user)
  }

  /** The owner of the file grants access, outright or by approving a request. */
  predicate Grants(s: Access, e: Event, file: string, user: string) {
    && e.file == file && IsOwner(s.acl, file, e.sender) && Step(s, e).1 == ERR_SUCCESS
    && ((e.AddAccess? && e.target == user) || (e.Approve? && e.requester == user))
  }

  /** A successful REMACCESS of the user, or a successful DELETE of the file. */
  predicate Revokes(s: Access, e: Event, file: string, user: string) {
    && e.file == file && Step(s, e).1 == ERR_SUCCESS
    && ((e.RemAccess? && e.target == user) || e.Deleted?)
  }

  /** One step: who is listed afterwards. */
  lemma StepLists(s: Access, e: Event, file: string, user: string)
    requires TablesOk(s)
    ensures InList(Step(s, e).0, file, user) <==>
            Grants(s, e, file, user) || (InList(s, file, user) && !Revokes(s, e, file, user))
  {
    hide Settle;
    hide AddRequest;
    hide RemoveFirst;
    if e.RemAccess? { RemovalLists(s, e, file, user); }
    hide RemoveAccess;
    hide TablesOk;
  }

  lemma RemovalLists(s: Access, e: Event, file: string, user: string)
    requires TablesOk(s) && e.RemAccess?
    ensures InList(Step(s, e).0, file, user) <==> InList(s, file, user) && !Revokes(s, e, file, user)
  {
    if e.file in s.acl {
      RemoveFirstOfDistinct(s.acl[e.file].readers, e.target);
      RemoveFirstOfDistinct(s.acl[e.file].writers, e.target);
      WithoutMembers(s.acl[e.file].readers, e.target);
      WithoutMembers(s.acl[e.file].writers, e.target);
    }
    hide RemoveFirst;
  }

  /** Event `i` grants the user access to the file, and no event behind it up to `n` takes it back. */
  predicate GrantStands(events: seq<Event>, i: nat, n: nat, file: string, user: string)
    requires i < n <= |events|
  {
    Grants(After(events, i), events[i], file, user)
    && forall r :: i < r < n ==> !Revokes(After(events, r), events[r], file, user)
  }

  ghost predicate SomeGrantStands(events: seq<Event>, n: nat, file: string, user: string)
    requires n <= |events|
  {
    exists i: nat :: i < n && GrantStands(events, i, n, file, user)
  }

  lemma SomeGrantStep(events: seq<Event>, n: nat, file: string, user: string)
    requires 0 < n <= |events|
    ensures var s, e := After(events, n - 1), events[n - 1];
            SomeGrantStands(events, n, file, user) <==>
            Grants(s, e, file, user) || (SomeGrantStands(events, n - 1, file, user) && !Revokes(s, e, file, user))
  {
    hide After;
    hide Grants;
    hide Revokes;
    var s, e := After(events, n - 1), events[n - 1];
    if Grants(s, e, file, user) {
      assert GrantStands(events, n - 1, n, file, user);
    }
    if SomeGrantStands(events, n, file, user) {
      var i: nat :| i < n && GrantStands(events, i, n, file, user);
      assert i < n - 1 ==> GrantStands(events, i, n - 1, file, user);
    }
    if SomeGrantStands(events, n - 1, file, user) && !Revokes(s, e, file, user) {
      var i: nat :| i < n - 1 && GrantStands(events, i, n - 1, file, user);
      assert GrantStands(events, i, n, file, user);
    }
  }

  lemma RunStep(events: seq<Event>, n: nat)
    requires 0 < n <= |events|
    ensures After(events, n) == Step(After(events, n - 1), events[n - 1]).0
  {
    hide Step;
  }

  lemma NobodyAtStart(events: seq<Event>, file: string, user: string)
    ensures !InList(After(events, 0), file, user) && !SomeGrantStands(events, 0, file, user)
  {}

  /**
    In every state of every run, a user stands in a list of a file exactly if an owner granted it, by ADDACCESS
    or by APPROVE, and neither a REMACCESS of that user nor a DELETE of the file succeeded since.
  */
  lemma {:induction false} ListedIffGranted(events: seq<Event>, n: nat, file: string, user: string)
    requires n <= |events|
    ensures InList(After(events, n), file, user) <==> SomeGrantStands(events, n, file, user)
    decreases n
  {
    hide *;
    if n == 0 {
      NobodyAtStart(events, file, user);
    } else {
      RunStep(events, n);
      TablesStayOk(events, n - 1);
      StepLists(After(events, n - 1), events[n - 1], file, user);
      ListedIffGranted(events, n - 1, file, user);
      SomeGrantStep(events, n, file, user);
    }
  }

  /** The file keeps its owner from the state before event `i` to state `n`. */
  ghost predicate KeepsOwner(events: seq<Event>, i: nat, n: nat, file: string)
    requires i <= n <= |events|
  {
    file in After(events, n).acl &&
    forall r :: i <= r <= n ==>
      file in After(events, r).acl && After(events, r).acl[file].owner == After(events, n).acl[file].owner
  }

  /** Only a DELETE takes a file and its owner away. */
  lemma StepKeepsOwner(s: Access, e: Event, file: string)
    requires file in s.acl && !(e.Deleted? && e.file == file && Step(s, e).1 == ERR_SUCCESS)
    ensures file in Step(s, e).0.acl && Step(s, e).0.acl[file].owner == s.acl[file].owner
  {
    hide Settle;
    hide AddRequest;
    hide RemoveFirst;
  }

  /** A grant that stands was made by the present owner of the file. */
  lemma {:induction false} StandingGrantKeepsOwner(events: seq<Event>, i: nat, n: nat, file: string, user: string)
    requires i < n <= |events| && GrantStands(events, i, n, file, user)
    ensures KeepsOwner(events, i, n, file) && IsOwner(After(events, n).acl, file, events[i].sender)
    decreases n
  {
    hide *;
    var s, e := After(events, n - 1), events[n - 1];
    RunStep(events, n);
    StandsBefore(events, i, n, file, user);
    if i < n - 1 {
      StandingGrantKeepsOwner(events, i, n - 1, file, user);
    } else {
      OwnsNow(events, i, file, events[i].sender);
    }
    OwnerStays(s, e, file, events[i].sender);
    KeepsOwnerStep(events, i, n, file, events[i].sender);
  }

  lemma StandsBefore(events: seq<Event>, i: nat, n: nat, file: string, user: string)
    requires i < n <= |events| && GrantStands(events, i, n, file, user)
    ensures IsOwner(After(events, i).acl, file, events[i].sender)
    ensures var e := events[n - 1]; !(e.Deleted? && e.file == file && Step(After(events, n - 1), e).1 == ERR_SUCCESS)
    ensures i < n - 1 ==> GrantStands(events, i, n - 1, file, user)
  {
    hide After;
    hide Step;
    if i < n - 1 { assert !Revokes(After(events, n - 1), events[n - 1], file, user); }
  }

  lemma OwnsNow(events: seq<Event>, i: nat, file: string, owner: string)
    requires i <= |events| && IsOwner(After(events, i).acl, file, owner)
    ensures KeepsOwner(events, i, i, file)
  {
    hide After;
  }

  lemma OwnerStays(s: Access, e: Event, file: string, owner: string)
    requires IsOwner(s.acl, file, owner) && !(e.Deleted? && e.file == file && Step(s, e).1 == ERR_SUCCESS)
    ensures IsOwner(Step(s, e).0.acl, file, owner)
  {
    hide Step;
    StepKeepsOwner(s, e, file);
  }

  lemma KeepsOwnerStep(events: seq<Event>, i: nat, n: nat, file: string, owner: string)
    requires i < n <= |events| && KeepsOwner(events, i, n - 1, file)
    requires IsOwner(After(events, n - 1).acl, file, owner) && IsOwner(After(events, n).acl, file, owner)
    ensures KeepsOwner(events, i, n, file)
  {
    hide After;
  }

  /** Every pending request was made by its requester. */
  lemma {:induction false} PendingWasRequested(events: seq<Event>, n: nat, file: string, user: string)
    requires n <= |events| && HasPending(After(events, n).requests, file, user)
    ensures exists j :: 0 <= j < n && Requested(events, j, file, user)
    decreases n
  {
    hide *;
    if n == 0 {
      NothingPending(events, file, user);
    } else {
      RunStep(events, n);
      var s, e := After(events, n - 1), events[n - 1];
      if HasPending(s.requests, file, user) {
        PendingWasRequested(events, n - 1, file, user);
      } else {
        StepRequests(s, e, file, user);
        NowRequested(events, n - 1, file, user);
      }
    }
  }

  lemma NothingPending(events: seq<Event>, file: string, user: string)
    ensures !HasPending(After(events, 0).requests, file, user)
  {}

  lemma NowRequested(events: seq<Event>, j: nat, file: string, user: string)
    requires j < |events| && Asks(After(events, j), events[j], file, user)
    ensures Requested(events, j, file, user)
  {}

  lemma StepRequests(s: Access, e: Event, file: string, user: string)
    requires HasPending(Step(s, e).0.requests, file, user) && !HasPending(s.requests, file, user)
    ensures Asks(s, e, file, user)
  {
    var q := Step(s, e).0.requests;
    var i :| 0 <= i < |q| && Pending(q[i], file, user);
    assert forall l :: 0 <= l < |s.requests| ==> !Pending(s.requests[l], file, user);
  }

  /**
    Whoever stands in a list of a file got there by a grant of the file's present owner that still stands: an
    ADDACCESS, or an APPROVE that used up a pending request which the user had made before.
  */
  lemma EveryListingIsJustified(events: seq<Event>, n: nat, file: string, user: string) returns (i: nat)
    requires n <= |events| && InList(After(events, n), file, user)
    ensures i < n && GrantStands(events, i, n, file, user) && KeepsOwner(events, i, n, file)
    ensures events[i].Approve? ==> Settles(events, i, file, user)
    ensures events[i].Approve? ==> exists j :: 0 <= j < i && Requested(events, j, file, user)
  {
    ListedIffGranted(events, n, file, user);
    i :| i < n && GrantStands(events, i, n, file, user);
    StandingGrantKeepsOwner(events, i, n, file, user);
    if events[i].Approve? {
      TablesStayOk(events, i);
      ApprovalSettles(events, i, n, file, user);
      PendingWasRequested(events, i, file, user);
    }
    hide After;
    hide Grants;
  }

  /** Event `i` uses up the user's pending request for the file. */
  predicate Settles(events: seq<Event>, i: nat, file: string, user: string)
    requires i < |events|
  {
    HasPending(After(events, i).requests, file, user) && !HasPending(After(events, i + 1).requests, file, user)
  }

  lemma ApprovalSettles(events: seq<Event>, i: nat, n: nat, file: string, user: string)
    requires i < n <= |events| && GrantStands(events, i, n, file, user) && events[i].Approve?
    requires TablesOk(After(events, i))
    ensures Settles(events, i, file, user)
  {
    var s, e := After(events, i), events[i];
    RunStep(events, i + 1);
    hide After;
    SettleConsumes(s.requests, file, user, e.sender);
  }

  // ----- what a restart forgets -----

  /** The access lists as they were last saved. */
  function Saved(events: seq<Event>, n: nat): AclMap
    requires n <= |events|
  {
    if n == 0 then map[]
    else if Saves(After(events, n - 1), events[n - 1]) then After(events, n).acl
    else Saved(events, n - 1)
  }

  /** The user's request is approved and makes him a reader. */
  predicate MakesReader(s: Access, e: Event, file: string, user: string) {
    && e.Approve? && e.file == file && e.requester == user && Step(s, e).1 == ERR_SUCCESS
    && file in s.acl && user !in s.acl[file].readers
  }

  /** The lists are what was saved, with readers added at the ends. */
  ghost predicate OnlyReadersBehind(saved: AclMap, m: AclMap) {
    && saved.Keys == m.Keys
    && forall f :: f in m ==>
         && saved[f].owner == m[f].owner && saved[f].writers == m[f].writers && saved[f].readers <= m[f].readers
  }

  predicate IsReader(m: AclMap, f: string, u: string) {
    f in m && u in m[f].readers
  }

  /** A REMACCESS that does not save found the user in neither list. */
  lemma UnsavedRemoval(s: Access, e: Event)
    requires e.RemAccess? && !Saves(s, e)
    ensures Step(s, e).0 == s
  {
    if IsOwner(s.acl, e.file, e.sender) {
      RemoveFirstAbsent(s.acl[e.file].readers, e.target);
      RemoveFirstAbsent(s.acl[e.file].writers, e.target);
      assert s.acl[e.file := s.acl[e.file]] == s.acl;
    }
  }

  lemma UnsavedOther(s: Access, e: Event)
    requires !Saves(s, e) && !e.Approve?
    ensures Step(s, e).0.acl == s.acl
  {
    if e.RemAccess? { UnsavedRemoval(s, e); }
    hide Settle;
    hide AddRequest;
    hide RemoveFirst;
    hide RemoveAccess;
    hide RemoveFile;
  }

  lemma ApprovalReaders(s: Access, e: Event, f: string, u: string)
    requires e.Approve?
    ensures OnlyReadersBehind(s.acl, Step(s, e).0.acl)
    ensures IsReader(Step(s, e).0.acl, f, u) <==> IsReader(s.acl, f, u) || MakesReader(s, e, f, u)
  {
    hide Settle;
  }

  /** One step that does not save: only an approval changes anything, namely the readers. */
  lemma UnsavedStep(s: Access, e: Event, f: string, u: string)
    requires !Saves(s, e)
    ensures OnlyReadersBehind(s.acl, Step(s, e).0.acl)
    ensures IsReader(Step(s, e).0.acl, f, u) <==> IsReader(s.acl, f, u) || MakesReader(s, e, f, u)
  {
    hide Step;
    hide Saves;
    if e.Approve? { ApprovalReaders(s, e, f, u); } else { UnsavedOther(s, e); }
    hide IsReader;
  }

  lemma {:induction false} RemoveFirstAbsent(list: seq<string>, user: string)
    requires user !in list
    ensures RemoveFirst(list, user) == list
  {
    if list != [] { RemoveFirstAbsent(list[1..], user); }
  }

  /** Approvals are the only changes that a restart can take back. */
  lemma {:induction false} SavedIsBehind(events: seq<Event>, n: nat)
    requires n <= |events|
    ensures OnlyReadersBehind(Saved(events, n), After(events, n).acl)
  {
    hide Step;
    hide Saves;
    if n > 0 {
      var s, e := After(events, n - 1), events[n - 1];
      SavedIsBehind(events, n - 1);
      if !Saves(s, e) { UnsavedStep(s, e, "", ""); }
    }
  }

  /** Event `i` makes the user a reader, and nothing is saved after it up to `n`. */
  predicate ApprovedUnsaved(events: seq<Event>, i: nat, n: nat, f: string, u: string)
    requires i < n <= |events|
  {
    MakesReader(After(events, i), events[i], f, u)
    && forall r :: i <= r < n ==> !Saves(After(events, r), events[r])
  }

  ghost predicate SomeApprovedUnsaved(events: seq<Event>, n: nat, f: string, u: string)
    requires n <= |events|
  {
    exists i: nat :: i < n && ApprovedUnsaved(events, i, n, f, u)
  }

  lemma SomeApprovedStep(events: seq<Event>, n: nat, f: string, u: string)
    requires 0 < n <= |events|
    ensures var s, e := After(events, n - 1), events[n - 1];
            SomeApprovedUnsaved(events, n, f, u) <==>
            !Saves(s, e) && (MakesReader(s, e, f, u) || SomeApprovedUnsaved(events, n - 1, f, u))
  {
    hide After;
    hide Saves;
    hide MakesReader;
    var s, e := After(events, n - 1), events[n - 1];
    if SomeApprovedUnsaved(events, n, f, u) {
      var i: nat :| i < n && ApprovedUnsaved(events, i, n, f, u);
      assert i < n - 1 ==> ApprovedUnsaved(events, i, n - 1, f, u);
    }
    if !Saves(s, e) {
      if MakesReader(s, e, f, u) {
        assert ApprovedUnsaved(events, n - 1, n, f, u);
      }
      if SomeApprovedUnsaved(events, n - 1, f, u) {
        var i: nat :| i < n - 1 && ApprovedUnsaved(events, i, n - 1, f, u);
        assert ApprovedUnsaved(events, i, n, f, u);
      }
    }
  }

  /** A reader is missing from what was saved exactly if an approval made him one after the last save. */
  lemma {:induction false} UnsavedReaderIff(events: seq<Event>, n: nat, f: string, u: string)
    requires n <= |events|
    ensures IsReader(After(events, n).acl, f, u) && !IsReader(Saved(events, n), f, u)
       <==> SomeApprovedUnsaved(events, n, f, u)
  {
    hide Step;
    hide Saves;
    hide MakesReader;
    hide IsReader;
    hide SomeApprovedUnsaved;
    if n == 0 {
      NoReaderAtStart(events, f, u);
    } else {
      var s, e := After(events, n - 1), events[n - 1];
      UnsavedReaderIff(events, n - 1, f, u);
      SomeApprovedStep(events, n, f, u);
      SavedReaders(events, n - 1, f, u);
      if !Saves(s, e) {
        UnsavedStep(s, e, f, u);
        NewReaderWasNone(s, e, f, u);
      }
    }
  }

  lemma NoReaderAtStart(events: seq<Event>, f: string, u: string)
    ensures !IsReader(After(events, 0).acl, f, u) && !SomeApprovedUnsaved(events, 0, f, u)
  {}

  lemma NewReaderWasNone(s: Access, e: Event, f: string, u: string)
    ensures MakesReader(s, e, f, u) ==> !IsReader(s.acl, f, u)
  {}

  lemma SavedReaders(events: seq<Event>, n: nat, f: string, u: string)
    requires n <= |events|
    ensures IsReader(Saved(events, n), f, u) ==> IsReader(After(events, n).acl, f, u)
  {
    hide After;
    hide Saved;
    SavedIsBehind(events, n);
  }

  /**
    Who can read after a restart, which loads what was last saved: exactly those who could before, less the
    readers approved since the last save, and less the writers of a file that was saved without readers.
  */
  lemma ReadAfterRestart(events: seq<Event>, n: nat, count: nat, items: seq<(string, AclEntry)>, f: string, u: string)
    requires n <= |events| && AllEntriesOk(Saved(events, n)) && count < 0x8000_0000
    requires Enumerates(items, Saved(events, n))
    ensures var m, saved := After(events, n).acl, Saved(events, n);
            CanRead(Load(map[], FileText(SavedLines(count, items))), f, u) <==>
              && CanRead(m, f, u)
              && (|| IsOwner(m, f, u)
                  || (IsReader(m, f, u) && !SomeApprovedUnsaved(events, n, f, u))
                  || (u in m[f].writers && f in saved && saved[f].readers != []))
  {
    LoadOfSave(Saved(events, n), count, items);
    SavedIsBehind(events, n);
    UnsavedReaderIff(events, n, f, u);
    SavedReaders(events, n, f, u);
    hide After;
    hide Saved;
    hide Load;
    hide SavedLines;
    hide AllEntriesOk;
    hide SomeApprovedUnsaved;
    hide Enumerates;
  }

  /** Who can write after a restart: the owners, and the writers of files that were saved with a reader. */
  lemma WriteAfterRestart(events: seq<Event>, n: nat, count: nat, items: seq<(string, AclEntry)>, f: string, u: string)
    requires n <= |events| && AllEntriesOk(Saved(events, n)) && count < 0x8000_0000
    requires Enumerates(items, Saved(events, n))
    ensures var m, saved := After(events, n).acl, Saved(events, n);
            CanWrite(Load(map[], FileText(SavedLines(count, items))), f, u) <==>
              IsOwner(m, f, u) || (CanWrite(m, f, u) && f in saved && saved[f].readers != [])
  {
    LoadOfSave(Saved(events, n), count, items);
    SavedIsBehind(events, n);
    hide After;
    hide Saved;
    hide Load;
    hide SavedLines;
    hide AllEntriesOk;
    hide Enumerates;
  }
}
