/** Requests for access over whole runs: which are pending, and who can still settle them. */
module RequestRuns {
  import opened Protocol
  import opened Acl
  import opened AccessRequests
  import opened AccessRuns

  /** A pending request of the user for the file, to be settled by `owner`. */
  ghost predicate Awaits(q: Requests, file: string, user: string, owner: string) {
    exists i :: 0 <= i < |q| && Pending(q[i], file, user) && q[i].owner == owner
  }

  // ----- one step -----

  lemma AddAwaits(q: Requests, f: string, u: string, o: string, access: int, file: string, user: string, owner: string)
    ensures var (q', code) := AddRequest(q, f, u, o, access);
            Awaits(q', file, user, owner) <==>
            Awaits(q, file, user, owner) || (code == ERR_SUCCESS && file == f && user == u && owner == o)
  {
    var q' := AddRequest(q, f, u, o, access).0;
    if Awaits(q, file, user, owner) {
      var i :| 0 <= i < |q| && Pending(q[i], file, user) && q[i].owner == owner;
      assert q'[i] == q[i];
    }
    if |q'| > |q| {
      assert q'[|q|] == AccessRequest(f, u, o, access, true);
    }
  }

  lemma SettleAwaits(q: Requests, f: string, u: string, o: string, file: string, user: string, owner: string)
    requires OnePending(q)
    ensures Settle(q, f, u, o).1 == ERR_SUCCESS <==> Awaits(q, f, u, o)
    ensures Awaits(Settle(q, f, u, o).0, file, user, owner) <==>
            Awaits(q, file, user, owner) && !(Awaits(q, f, u, o) && f == file && u == user)
  {
    SettleConsumes(q, f, u, o);
    var i, q' := FirstMatch(q, f, u, o), Settle(q, f, u, o).0;
    if Awaits(q, file, user, owner) && !(Awaits(q, f, u, o) && f == file && u == user) {
      var l :| 0 <= l < |q| && Pending(q[l], file, user) && q[l].owner == owner;
      assert q'[l] == q[l];
    }
    if Awaits(q', file, user, owner) {
      var l :| 0 <= l < |q'| && Pending(q'[l], file, user) && q'[l].owner == owner;
      assert q'[l] == q[l];
    }
  }

  /** The user's request is recorded, with the owner the file has at that moment. */
  predicate AsksOwner(s: Access, e: Event, file: string, user: string, owner: string) {
    Asks(s, e, file, user) && IsOwner(s.acl, file, owner)
  }

  /** An APPROVE or a DENY by the owner of the file who is also the one recorded in the request. */
  ghost predicate Settled(s: Access, e: Event, file: string, user: string) {
    && (e.Approve? || e.Deny?) && e.file == file && e.requester == user
    && IsOwner(s.acl, file, e.sender) && Awaits(s.requests, file, user, e.sender)
  }

  lemma StepAwaits(s: Access, e: Event, file: string, user: string, owner: string)
    requires TablesOk(s)
    ensures Awaits(Step(s, e).0.requests, file, user, owner) <==>
            AsksOwner(s, e, file, user, owner) || (Awaits(s.requests, file, user, owner) && !Settled(s, e, file, user))
  {
    hide Awaits;
    hide AddRequest;
    hide Settle;
    match e {
      case RequestAccess(f, u, mapped) =>
        if f in s.acl { AddAwaits(s.requests, f, u, s.acl[f].owner, ACCESS_READ, file, user, owner); }
      case Approve(f, sender, u) => SettleAwaits(s.requests, f, u, sender, file, user, owner);
      case Deny(f, sender, u) => SettleAwaits(s.requests, f, u, sender, file, user, owner);
      case _ =>
    }
  }

  // ----- runs -----

  /** Event `j` recorded the request, and no event behind it up to `n` settled it. */
  ghost predicate AskStands(events: seq<Event>, j: nat, n: nat, file: string, user: string, owner: string)
    requires j < n <= |events|
  {
    AsksOwner(After(events, j), events[j], file, user, owner)
    && forall r :: j < r < n ==> !Settled(After(events, r), events[r], file, user)
  }

  ghost predicate SomeAskStands(events: seq<Event>, n: nat, file: string, user: string, owner: string)
    requires n <= |events|
  {
    exists j: nat :: j < n && AskStands(events, j, n, file, user, owner)
  }

  lemma SomeAskStep(events: seq<Event>, n: nat, file: string, user: string, owner: string)
    requires 0 < n <= |events|
    ensures var s, e := After(events, n - 1), events[n - 1];
            SomeAskStands(events, n, file, user, owner) <==>
            AsksOwner(s, e, file, user, owner)
            || (SomeAskStands(events, n - 1, file, user, owner) && !Settled(s, e, file, user))
  {
    hide After;
    hide AsksOwner;
    hide Settled;
    var s, e := After(events, n - 1), events[n - 1];
    if AsksOwner(s, e, file, user, owner) {
      assert AskStands(events, n - 1, n, file, user, owner);
    }
    if SomeAskStands(events, n, file, user, owner) {
      var j: nat :| j < n && AskStands(events, j, n, file, user, owner);
      assert j < n - 1 ==> AskStands(events, j, n - 1, file, user, owner);
    }
    if SomeAskStands(events, n - 1, file, user, owner) && !Settled(s, e, file, user) {
      var j: nat :| j < n - 1 && AskStands(events, j, n - 1, file, user, owner);
      assert AskStands(events, j, n, file, user, owner);
    }
  }

  lemma NothingAwaited(events: seq<Event>, file: string, user: string, owner: string)
    ensures !Awaits(After(events, 0).requests, file, user, owner) && !SomeAskStands(events, 0, file, user, owner)
  {}

  /**
    Over every run a request is pending exactly if it was made and not settled since. Deleting the file, or
    giving it another owner, does not end it.
  */
  lemma {:induction false} PendingIffAsked(events: seq<Event>, n: nat, file: string, user: string, owner: string)
    requires n <= |events|
    ensures Awaits(After(events, n).requests, file, user, owner) <==> SomeAskStands(events, n, file, user, owner)
    decreases n
  {
    hide *;
    if n == 0 {
      NothingAwaited(events, file, user, owner);
    } else {
      RunStep(events, n);
      TablesStayOk(events, n - 1);
      StepAwaits(After(events, n - 1), events[n - 1], file, user, owner);
      PendingIffAsked(events, n - 1, file, user, owner);
      SomeAskStep(events, n, file, user, owner);
    }
  }

  /** The code of an APPROVE or a DENY that has found a request to settle. */
  predicate Finds(s: Access, e: Event) {
    Step(s, e).1 != ERR_ACCESS_DENIED && Step(s, e).1 != ERR_NOT_FOUND
  }

  /**
    Who can settle a pending request, in every reachable state: the owner recorded in it, and only while the
    file is there and is his.
  */
  lemma SettledByRecordedOwner(events: seq<Event>, n: nat, file: string, user: string, owner: string, sender: string)
    requires n <= |events| && Awaits(After(events, n).requests, file, user, owner)
    ensures var s := After(events, n);
            && (Finds(s, Approve(file, sender, user)) <==> sender == owner && IsOwner(s.acl, file, owner))
            && (Finds(s, Deny(file, sender, user)) <==> sender == owner && IsOwner(s.acl, file, owner))
  {
    TablesStayOk(events, n);
    var s := After(events, n);
    hide After;
    SettleAwaits(s.requests, file, user, sender, file, user, owner);
    if Awaits(s.requests, file, user, sender) {
      OneOwner(s.requests, file, user, owner, sender);
    }
    hide Settle;
    hide Awaits;
    hide Acl.AddAccess;
    hide TablesOk;
  }

  lemma OneOwner(q: Requests, file: string, user: string, owner: string, other: string)
    requires OnePending(q) && Awaits(q, file, user, owner) && Awaits(q, file, user, other)
    ensures owner == other
  {
    var i :| 0 <= i < |q| && Pending(q[i], file, user) && q[i].owner == owner;
    var l :| 0 <= l < |q| && Pending(q[l], file, user) && q[l].owner == other;
    assert i == l;
  }
}
