/** Who owns, reads and writes a file, told from the events alone, over whole runs of the access handlers. */
module AccessHistory {
  import opened Text
  import opened Protocol
  import opened Acl
  import opened AccessRequests
  import opened AccessRuns
  import opened RequestRuns

  // ----- entries and owners -----

  /** A DELETE of the file that succeeds. */
  predicate Drops(s: Access, e: Event, file: string) {
    e == Deleted(file, e.sender, ERR_SUCCESS) && Step(s, e).1 == ERR_SUCCESS
  }

  predicate DropsAt(events: seq<Event>, r: nat, file: string)
    requires r < |events|
  {
    Drops(After(events, r), events[r], file)
  }

  /** Event `i` is a CREATE of the file, and no DELETE of it succeeds behind it up to `n`. */
  predicate MadeAt(events: seq<Event>, i: nat, n: nat, file: string)
    requires i < n <= |events|
  {
    events[i].Created? && events[i].file == file && forall r :: i < r < n ==> !DropsAt(events, r, file)
  }

  ghost predicate Made(events: seq<Event>, n: nat, file: string)
    requires n <= |events|
  {
    exists i: nat :: i < n && MadeAt(events, i, n, file)
  }

  /** The first such CREATE was the user's. */
  ghost predicate OwnedAt(events: seq<Event>, i: nat, n: nat, file: string, user: string)
    requires i < n <= |events|
  {
    events[i] == Created(file, user) && MadeAt(events, i, n, file) && !Made(events, i, file)
  }

  ghost predicate Owns(events: seq<Event>, n: nat, file: string, user: string)
    requires n <= |events|
  {
    exists i: nat :: i < n && OwnedAt(events, i, n, file, user)
  }

  lemma StepEntry(s: Access, e: Event, file: string, user: string)
    ensures var s' := Step(s, e).0;
            && (file in s'.acl <==> (e.Created? && e.file == file) || (file in s.acl && !Drops(s, e, file)))
            && (IsOwner(s'.acl, file, user) <==>
                  (e == Created(file, user) && file !in s.acl) || (IsOwner(s.acl, file, user) && !Drops(s, e, file)))
  {
    hide Settle;
    hide AddRequest;
    hide RemoveFirst;
    hide Added;
  }

  lemma MadeStep(events: seq<Event>, n: nat, file: string)
    requires 0 < n <= |events|
    ensures var e := events[n - 1];
            Made(events, n, file) <==>
            (e.Created? && e.file == file) || (Made(events, n - 1, file) && !DropsAt(events, n - 1, file))
  {
    hide DropsAt;
    if events[n - 1].Created? && events[n - 1].file == file {
      assert MadeAt(events, n - 1, n, file);
    }
    if Made(events, n, file) {
      var i: nat :| i < n && MadeAt(events, i, n, file);
      assert i < n - 1 ==> MadeAt(events, i, n - 1, file);
    }
    if Made(events, n - 1, file) && !DropsAt(events, n - 1, file) {
      var i: nat :| i < n - 1 && MadeAt(events, i, n - 1, file);
      assert MadeAt(events, i, n, file);
    }
  }

  lemma OwnsStep(events: seq<Event>, n: nat, file: string, user: string)
    requires 0 < n <= |events|
    ensures var e := events[n - 1];
            Owns(events, n, file, user) <==>
            (e == Created(file, user) && !Made(events, n - 1, file))
            || (Owns(events, n - 1, file, user) && !DropsAt(events, n - 1, file))
  {
    hide DropsAt;
    hide Made;
    if events[n - 1] == Created(file, user) && !Made(events, n - 1, file) {
      assert OwnedAt(events, n - 1, n, file, user);
    }
    if Owns(events, n, file, user) {
      var i: nat :| i < n && OwnedAt(events, i, n, file, user);
      assert i < n - 1 ==> OwnedAt(events, i, n - 1, file, user);
    }
    if Owns(events, n - 1, file, user) && !DropsAt(events, n - 1, file) {
      var i: nat :| i < n - 1 && OwnedAt(events, i, n - 1, file, user);
      assert OwnedAt(events, i, n, file, user);
    }
  }

  lemma NothingMade(events: seq<Event>, file: string, user: string)
    ensures file !in After(events, 0).acl && !Made(events, 0, file) && !Owns(events, 0, file, user)
    ensures !IsOwner(After(events, 0).acl, file, user)
  {}

  lemma DropsIs(events: seq<Event>, r: nat, file: string)
    requires r < |events|
    ensures DropsAt(events, r, file) <==> Drops(After(events, r), events[r], file)
  {
    hide Drops;
  }

  /** Over every run a file has an owner exactly if it was made and not deleted since, and it is its first maker. */
  lemma {:induction false} OwnerIff(events: seq<Event>, n: nat, file: string, user: string)
    requires n <= |events|
    ensures file in After(events, n).acl <==> Made(events, n, file)
    ensures IsOwner(After(events, n).acl, file, user) <==> Owns(events, n, file, user)
    decreases n
  {
    hide *;
    if n == 0 {
      NothingMade(events, file, user);
    } else {
      RunStep(events, n);
      StepEntry(After(events, n - 1), events[n - 1], file, user);
      OwnerIff(events, n - 1, file, user);
      MadeStep(events, n, file);
      OwnsStep(events, n, file, user);
      DropsIs(events, n - 1, file);
    }
  }

  // ----- the two lists -----

  /** The list that an access type stands for: 1 for reading, 2 for writing. */
  function ListFor(entry: AclEntry, access: int): seq<string> {
    if access == 1 then entry.readers else entry.writers
  }

  predicate ListedFor(s: Access, file: string, user: string, access: int) {
    file in s.acl && user in ListFor(s.acl[file], access)
  }

  /** The owner grants this access: an ADDACCESS that asks for it, or an APPROVE, which is for reading. */
  predicate GrantsFor(s: Access, e: Event, file: string, user: string, access: int) {
    Grants(s, e, file, user) && (if e.AddAccess? then e.access == access else access == 1)
  }

  lemma GrantLists(s: Access, e: Event, file: string, user: string, access: int)
    requires TablesOk(s) && !e.RemAccess? && (access == 1 || access == 2)
    ensures ListedFor(Step(s, e).0, file, user, access) <==>
            GrantsFor(s, e, file, user, access) || (ListedFor(s, file, user, access) && !Revokes(s, e, file, user))
  {
    hide Settle;
    hide AddRequest;
    hide RemoveFirst;
    hide TablesOk;
  }

  lemma RemovalListsFor(s: Access, e: Event, file: string, user: string, access: int)
    requires TablesOk(s) && e.RemAccess? && (access == 1 || access == 2)
    ensures ListedFor(Step(s, e).0, file, user, access) <==>
            ListedFor(s, file, user, access) && !Revokes(s, e, file, user)
  {
    if e.file in s.acl {
      RemoveFirstOfDistinct(s.acl[e.file].readers, e.target);
      RemoveFirstOfDistinct(s.acl[e.file].writers, e.target);
      WithoutMembers(s.acl[e.file].readers, e.target);
      WithoutMembers(s.acl[e.file].writers, e.target);
    }
    hide RemoveFirst;
  }

  lemma StepListsFor(s: Access, e: Event, file: string, user: string, access: int)
    requires TablesOk(s) && (access == 1 || access == 2)
    ensures ListedFor(Step(s, e).0, file, user, access) <==>
            GrantsFor(s, e, file, user, access) || (ListedFor(s, file, user, access) && !Revokes(s, e, file, user))
  {
    hide Step;
    if e.RemAccess? { RemovalListsFor(s, e, file, user, access); } else { GrantLists(s, e, file, user, access); }
  }

  /** Event `i` grants the access, and no REMACCESS of the user and no DELETE of the file succeeds up to `n`. */
  predicate StandsFrom(events: seq<Event>, i: nat, n: nat, file: string, user: string, access: int)
    requires i < n <= |events|
  {
    GrantsFor(After(events, i), events[i], file, user, access)
    && forall r :: i < r < n ==> !Revokes(After(events, r), events[r], file, user)
  }

  ghost predicate Granted(events: seq<Event>, n: nat, file: string, user: string, access: int)
    requires n <= |events|
  {
    exists i: nat :: i < n && StandsFrom(events, i, n, file, user, access)
  }

  lemma GrantedStep(events: seq<Event>, n: nat, file: string, user: string, access: int)
    requires 0 < n <= |events|
    ensures var s, e := After(events, n - 1), events[n - 1];
            Granted(events, n, file, user, access) <==>
            GrantsFor(s, e, file, user, access)
            || (Granted(events, n - 1, file, user, access) && !Revokes(s, e, file, user))
  {
    hide After;
    hide GrantsFor;
    hide Revokes;
    var s, e := After(events, n - 1), events[n - 1];
    if GrantsFor(s, e, file, user, access) {
      assert StandsFrom(events, n - 1, n, file, user, access);
    }
    if Granted(events, n, file, user, access) {
      var i: nat :| i < n && StandsFrom(events, i, n, file, user, access);
      assert i < n - 1 ==> StandsFrom(events, i, n - 1, file, user, access);
    }
    if Granted(events, n - 1, file, user, access) && !Revokes(s, e, file, user) {
      var i: nat :| i < n - 1 && StandsFrom(events, i, n - 1, file, user, access);
      assert StandsFrom(events, i, n, file, user, access);
    }
  }

  lemma NobodyListed(events: seq<Event>, file: string, user: string, access: int)
    ensures !ListedFor(After(events, 0), file, user, access) && !Granted(events, 0, file, user, access)
  {}

  /** Over every run each list holds exactly the users who were granted just that access and still have it. */
  lemma {:induction false} ListedForIff(events: seq<Event>, n: nat, file: string, user: string, access: int)
    requires n <= |events| && (access == 1 || access == 2)
    ensures ListedFor(After(events, n), file, user, access) <==> Granted(events, n, file, user, access)
    decreases n
  {
    hide *;
    if n == 0 {
      NobodyListed(events, file, user, access);
    } else {
      RunStep(events, n);
      TablesStayOk(events, n - 1);
      StepListsFor(After(events, n - 1), events[n - 1], file, user, access);
      ListedForIff(events, n - 1, file, user, access);
      GrantedStep(events, n, file, user, access);
    }
  }

  // ----- what this allows -----

  ghost predicate MayWrite(events: seq<Event>, n: nat, file: string, user: string)
    requires n <= |events|
  {
    Owns(events, n, file, user) || Granted(events, n, file, user, 2)
  }

  ghost predicate MayRead(events: seq<Event>, n: nat, file: string, user: string)
    requires n <= |events|
  {
    Owns(events, n, file, user) || Granted(events, n, file, user, 1) || Granted(events, n, file, user, 2)
  }

  lemma ChecksAre(s: Access, file: string, user: string)
    ensures CanWrite(s.acl, file, user) <==> IsOwner(s.acl, file, user) || ListedFor(s, file, user, 2)
    ensures CanRead(s.acl, file, user) <==>
            IsOwner(s.acl, file, user) || ListedFor(s, file, user, 1) || ListedFor(s, file, user, 2)
  {}

  /** Over every run: who passes the two checks. */
  lemma MayIff(events: seq<Event>, n: nat, file: string, user: string)
    requires n <= |events|
    ensures CanWrite(After(events, n).acl, file, user) <==> MayWrite(events, n, file, user)
    ensures CanRead(After(events, n).acl, file, user) <==> MayRead(events, n, file, user)
  {
    hide After;
    hide Owns;
    hide Granted;
    hide ListedFor;
    hide CanRead;
    hide CanWrite;
    hide IsOwner;
    OwnerIff(events, n, file, user);
    ListedForIff(events, n, file, user, 1);
    ListedForIff(events, n, file, user, 2);
    ChecksAre(After(events, n), file, user);
  }

  // ----- what is answered -----

  lemma DeletedCode(s: Access, file: string, user: string, reply: int)
    ensures var (s', code) := Step(s, Deleted(file, user, reply));
            && code == (if CanWrite(s.acl, file, user) then reply else ERR_ACCESS_DENIED)
            && (code == ERR_SUCCESS ==> s'.acl == s.acl - {file})
            && (code != ERR_SUCCESS ==> s' == s)
  {}

  /** A DELETE is refused exactly to those who neither own the file nor were granted writing. */
  lemma DeleteAnswers(events: seq<Event>, n: nat, file: string, user: string, reply: int)
    requires n <= |events|
    ensures var (s', code) := Step(After(events, n), Deleted(file, user, reply));
            && code == (if MayWrite(events, n, file, user) then reply else ERR_ACCESS_DENIED)
            && (code == ERR_SUCCESS ==> s'.acl == After(events, n).acl - {file})
            && (code != ERR_SUCCESS ==> s' == After(events, n))
  {
    hide *;
    MayIff(events, n, file, user);
    DeletedCode(After(events, n), file, user, reply);
  }

  lemma GrantCode(s: Access, file: string, sender: string, user: string, access: int, known: bool)
    ensures Step(s, AddAccess(file, sender, user, access, known)).1 ==
              if !known then ERR_BAD_REQUEST
              else if !IsOwner(s.acl, file, sender) then ERR_ACCESS_DENIED
              else if access != 1 && access != 2 then ERR_BAD_REQUEST
              else if ListedFor(s, file, user, access) || |ListFor(s.acl[file], access)| < 50 then ERR_SUCCESS
              else ERR_SERVER_ERROR
    ensures Step(s, RemAccess(file, sender, user)).1 ==
              if !IsOwner(s.acl, file, sender) then ERR_ACCESS_DENIED
              else if ListedFor(s, file, user, 1) || ListedFor(s, file, user, 2) then ERR_SUCCESS
              else ERR_NOT_FOUND
  {
    hide RemoveFirst;
  }

  /** The list for the access has room for one more user. */
  predicate Roomy(s: Access, file: string, access: int) {
    file in s.acl && |ListFor(s.acl[file], access)| < 50
  }

  /**
    ADDACCESS and REMACCESS, over every run: only the owner may, only for a known user and a known access; a
    grant fails only for a 51st user, a revocation exactly for a user who has no grant.
  */
  lemma GrantAnswers(events: seq<Event>, n: nat, file: string, sender: string, user: string, access: int, known: bool)
    requires n <= |events|
    ensures Step(After(events, n), AddAccess(file, sender, user, access, known)).1 ==
              if !known then ERR_BAD_REQUEST
              else if !Owns(events, n, file, sender) then ERR_ACCESS_DENIED
              else if access != 1 && access != 2 then ERR_BAD_REQUEST
              else if Granted(events, n, file, user, access) || Roomy(After(events, n), file, access) then ERR_SUCCESS
              else ERR_SERVER_ERROR
    ensures Step(After(events, n), RemAccess(file, sender, user)).1 ==
              if !Owns(events, n, file, sender) then ERR_ACCESS_DENIED
              else if Granted(events, n, file, user, 1) || Granted(events, n, file, user, 2) then ERR_SUCCESS
              else ERR_NOT_FOUND
  {
    OwnerHasEntry(After(events, n), file, sender);
    RoomyIs(After(events, n), file, access);
    hide *;
    OwnerIff(events, n, file, sender);
    ListedForIff(events, n, file, user, 1);
    ListedForIff(events, n, file, user, 2);
    GrantCode(After(events, n), file, sender, user, access, known);
  }

  lemma RoomyIs(s: Access, file: string, access: int)
    ensures Roomy(s, file, access) <==> file in s.acl && |ListFor(s.acl[file], access)| < 50
  {}

  lemma OwnerHasEntry(s: Access, file: string, user: string)
    ensures IsOwner(s.acl, file, user) ==> file in s.acl
  {}

  lemma RequestCode(s: Access, file: string, user: string, mapped: bool)
    ensures Step(s, RequestAccess(file, user, mapped)).1 ==
              if !mapped then ERR_NOT_FOUND
              else if CanRead(s.acl, file, user) then ERR_CONFLICT
              else if file !in s.acl then ERR_NOT_FOUND
              else if |s.requests| < 100 && !HasPending(s.requests, file, user) then ERR_SUCCESS
              else ERR_SERVER_ERROR
  {}

  /** Some request of the user for the file was made and is not settled. */
  ghost predicate StillAsks(events: seq<Event>, n: nat, file: string, user: string)
    requires n <= |events|
  {
    exists owner :: SomeAskStands(events, n, file, user, owner)
  }

  lemma PendingIsAwaited(q: Requests, file: string, user: string)
    ensures HasPending(q, file, user) <==> exists owner :: Awaits(q, file, user, owner)
  {
    if HasPending(q, file, user) {
      var i :| 0 <= i < |q| && Pending(q[i], file, user);
      assert Awaits(q, file, user, q[i].owner);
    }
  }

  lemma PendingIsAsked(events: seq<Event>, n: nat, file: string, user: string)
    requires n <= |events|
    ensures HasPending(After(events, n).requests, file, user) <==> StillAsks(events, n, file, user)
  {
    PendingIsAwaited(After(events, n).requests, file, user);
    forall owner
      ensures Awaits(After(events, n).requests, file, user, owner) <==> SomeAskStands(events, n, file, user, owner)
    {
      PendingIffAsked(events, n, file, user, owner);
    }
    hide After;
    hide Awaits;
    hide SomeAskStands;
  }

  /**
    A request for access, over every run: it is recorded exactly if the file is in the map, the user may not
    read it already, it has an owner, no earlier request of his stands, and a slot is left.
  */
  lemma RequestAnswers(events: seq<Event>, n: nat, file: string, user: string, mapped: bool)
    requires n <= |events|
    ensures Step(After(events, n), RequestAccess(file, user, mapped)).1 ==
              if !mapped then ERR_NOT_FOUND
              else if MayRead(events, n, file, user) then ERR_CONFLICT
              else if !Made(events, n, file) then ERR_NOT_FOUND
              else if |After(events, n).requests| < 100 && !StillAsks(events, n, file, user) then ERR_SUCCESS
              else ERR_SERVER_ERROR
  {
    hide *;
    MayIff(events, n, file, user);
    OwnerIff(events, n, file, user);
    PendingIsAsked(events, n, file, user);
    RequestCode(After(events, n), file, user, mapped);
  }

  lemma SettleCode(s: Access, file: string, sender: string, user: string)
    requires OnePending(s.requests)
    ensures Step(s, Approve(file, sender, user)).1 ==
              if !IsOwner(s.acl, file, sender) then ERR_ACCESS_DENIED
              else if !Awaits(s.requests, file, user, sender) then ERR_NOT_FOUND
              else if ListedFor(s, file, user, 1) || Roomy(s, file, 1) then ERR_SUCCESS
              else ERR_SERVER_ERROR
    ensures Step(s, Deny(file, sender, user)).1 ==
              if !IsOwner(s.acl, file, sender) then ERR_ACCESS_DENIED
              else if !Awaits(s.requests, file, user, sender) then ERR_NOT_FOUND
              else ERR_SUCCESS
  {
    SettleAwaits(s.requests, file, user, sender, file, user, sender);
    hide Settle;
    hide Awaits;
  }

  /**
    APPROVE and DENY, over every run: only the owner may, and only a request that was made while he owned the
    file and is not settled; an approval then fails only for a 51st reader.
  */
  lemma SettleAnswers(events: seq<Event>, n: nat, file: string, sender: string, user: string)
    requires n <= |events|
    ensures Step(After(events, n), Approve(file, sender, user)).1 ==
              if !Owns(events, n, file, sender) then ERR_ACCESS_DENIED
              else if !SomeAskStands(events, n, file, user, sender) then ERR_NOT_FOUND
              else if Granted(events, n, file, user, 1) || Roomy(After(events, n), file, 1) then ERR_SUCCESS
              else ERR_SERVER_ERROR
    ensures Step(After(events, n), Deny(file, sender, user)).1 ==
              if !Owns(events, n, file, sender) then ERR_ACCESS_DENIED
              else if !SomeAskStands(events, n, file, user, sender) then ERR_NOT_FOUND
              else ERR_SUCCESS
  {
    TablesStayOk(events, n);
    TableSize(After(events, n));
    hide *;
    OwnerIff(events, n, file, sender);
    ListedForIff(events, n, file, user, 1);
    PendingIffAsked(events, n, file, user, sender);
    SettleCode(After(events, n), file, sender, user);
  }

  // ----- what an owner is shown -----

  /** `at` lists, in increasing order, the places of requests to the owner that are pending. */
  predicate Places(q: Requests, owner: string, at: seq<nat>) {
    && (forall i :: 0 <= i < |at| ==> at[i] < |q| && q[at[i]].pending && q[at[i]].owner == owner)
    && (forall i, j :: 0 <= i < j < |at| ==> at[i] < at[j])
  }

  /** Every such place is in the list, unless the list is full of earlier ones. */
  predicate AllPlaces(q: Requests, owner: string, at: seq<nat>, max: nat) {
    forall l: nat :: l < |q| && q[l].pending && q[l].owner == owner ==>
      l in at || (|at| == max && forall i :: 0 <= i < |at| ==> at[i] < l)
  }

  /** The requests at these places, in this order. */
  predicate AtPlaces(shown: Requests, q: Requests, at: seq<nat>) {
    |shown| == |at| && forall i :: 0 <= i < |at| ==> at[i] < |q| && shown[i] == q[at[i]]
  }

  function Moved(rest: seq<nat>): (later: seq<nat>)
    ensures |later| == |rest| && forall i :: 0 <= i < |rest| ==> later[i] == rest[i] + 1
  {
    seq(|rest|, i requires 0 <= i < |rest| => rest[i] + 1)
  }

  predicate Mine(q: Requests, owner: string) {
    q != [] && q[0].pending && q[0].owner == owner
  }

  lemma ShownStep(q: Requests, owner: string, max: nat)
    ensures PendingFor(q, owner, max) ==
            if q == [] || max == 0 then []
            else if Mine(q, owner) then [q[0]] + PendingFor(q[1..], owner, max - 1)
            else PendingFor(q[1..], owner, max)
  {}

  lemma NoPlaces(q: Requests, owner: string, max: nat)
    requires q == [] || max == 0
    ensures Places(q, owner, []) && AllPlaces(q, owner, [], max) && AtPlaces([], q, [])
  {}

  lemma AtPlacesShift(q: Requests, owner: string, shown: Requests, rest: seq<nat>)
    requires q != [] && AtPlaces(shown, q[1..], rest)
    ensures AtPlaces(shown, q, Moved(rest)) && AtPlaces([q[0]] + shown, q, [0] + Moved(rest))
  {}

  /** An owner is shown the pending requests to him, in order, and all of them unless there are too many. */
  lemma {:induction false} ShownAre(q: Requests, owner: string, max: nat) returns (at: seq<nat>)
    ensures Places(q, owner, at) && AllPlaces(q, owner, at, max)
    ensures AtPlaces(PendingFor(q, owner, max), q, at) && |at| <= max
    decreases |q|
  {
    ShownStep(q, owner, max);
    hide PendingFor;
    hide AtPlaces;
    hide Places;
    hide AllPlaces;
    hide Moved;
    hide Mine;
    if q == [] || max == 0 {
      at := [];
      NoPlaces(q, owner, max);
    } else {
      var some := if Mine(q, owner) then max - 1 else max;
      var rest := ShownAre(q[1..], owner, some);
      at := if Mine(q, owner) then [0] + Moved(rest) else Moved(rest);
      assert |at| <= max by { MovedSize(rest); }
      PlacesShift(q, owner, rest);
      AllPlacesShift(q, owner, rest, at, some, max);
      AtPlacesShift(q, owner, PendingFor(q[1..], owner, some), rest);
    }
  }

  lemma MovedSize(rest: seq<nat>)
    ensures |Moved(rest)| == |rest|
  {}

  lemma PlacesShift(q: Requests, owner: string, rest: seq<nat>)
    requires q != [] && Places(q[1..], owner, rest)
    ensures Places(q, owner, Moved(rest))
    ensures Mine(q, owner) ==> Places(q, owner, [0] + Moved(rest))
  {}

  lemma AllPlacesShift(q: Requests, owner: string, rest: seq<nat>, at: seq<nat>, some: nat, max: nat)
    requires q != [] && AllPlaces(q[1..], owner, rest, some)
    requires at == (if Mine(q, owner) then [0] + Moved(rest) else Moved(rest))
    requires max == (if Mine(q, owner) then some + 1 else some)
    ensures AllPlaces(q, owner, at, max)
  {
    var later := Moved(rest);
    forall l: nat | l < |q| && q[l].pending && q[l].owner == owner
      ensures l in at || (|at| == max && forall i :: 0 <= i < |at| ==> at[i] < l)
    {
      if l > 0 {
        assert q[1..][l - 1] == q[l];
        if l - 1 in rest {
          var i :| 0 <= i < |rest| && rest[i] == l - 1;
          assert later[i] == l;
          assert at[if Mine(q, owner) then i + 1 else i] == l;
        }
      } else {
        assert at[0] == 0;
      }
    }
  }

  /** The owner's listing has room for 100 requests, as the table has, so he is shown every request that stands. */
  ghost predicate Shows(q: Requests, owner: string, file: string, user: string) {
    var shown := PendingFor(q, owner, 100);
    exists i :: 0 <= i < |shown| && shown[i].file == file && shown[i].requester == user
  }

  lemma ShowsIsAwaits(q: Requests, owner: string, file: string, user: string)
    requires |q| <= 100
    ensures Shows(q, owner, file, user) <==> Awaits(q, file, user, owner)
  {
    var shown := PendingFor(q, owner, 100);
    var at := ShownAre(q, owner, 100);
    hide PendingFor;
    if Shows(q, owner, file, user) {
      var i :| 0 <= i < |shown| && shown[i].file == file && shown[i].requester == user;
      assert Pending(q[at[i]], file, user);
    }
    if Awaits(q, file, user, owner) {
      var l :| 0 <= l < |q| && Pending(q[l], file, user) && q[l].owner == owner;
      if l !in at {
        AtMost(at, l);
        assert false;
      }
      var i :| 0 <= i < |at| && at[i] == l;
      assert shown[i] == q[l];
    }
  }

  lemma {:induction false} AtMost(at: seq<nat>, l: nat)
    requires forall i, j :: 0 <= i < j < |at| ==> at[i] < at[j]
    requires forall i :: 0 <= i < |at| ==> at[i] < l
    ensures |at| <= l
  {
    if at != [] {
      AtMost(at[..|at| - 1], at[|at| - 1]);
    }
  }

  /** Over every run an owner is shown exactly the requests that were made to him and are not settled. */
  lemma OwnerIsShown(events: seq<Event>, n: nat, owner: string, file: string, user: string)
    requires n <= |events|
    ensures Shows(After(events, n).requests, owner, file, user) <==> SomeAskStands(events, n, file, user, owner)
  {
    TablesStayOk(events, n);
    TableSize(After(events, n));
    hide *;
    ShowsIsAwaits(After(events, n).requests, owner, file, user);
    PendingIffAsked(events, n, file, user, owner);
  }

  lemma TableSize(s: Access)
    requires TablesOk(s)
    ensures |s.requests| <= 100 && OnePending(s.requests)
  {}

  /**
    `handle_viewrequests_request`, up to the wording of the answer: an owner of the file is shown exactly the
    users whose requests for it wait for him.
  */
  method ViewRequests(server: AccessServer, file: string, sender: string) returns (code: int, users: seq<string>)
    requires server.Valid()
    ensures code == if IsOwner(server.State().acl, file, sender) then ERR_SUCCESS else ERR_ACCESS_DENIED
    ensures forall u :: u in users <==> code == ERR_SUCCESS && Awaits(server.State().requests, file, u, sender)
  {
    users := [];
    var owns := server.acl.CheckOwner(file, sender);
    if !owns {
      return ERR_ACCESS_DENIED, [];
    }
    var shown := server.requests.GetForOwner(sender, 100);
    hide PendingFor;
    hide Awaits;
    var i := 0;
    while i < |shown|
      invariant 0 <= i <= |shown|
      invariant forall u :: u in users <==> ShownUpTo(shown, i, file, u)
    {
      if shown[i].file == file {
        users := users + [shown[i].requester];
      }
      i := i + 1;
    }
    forall u ensures ShownUpTo(shown, i, file, u) <==> Awaits(server.State().requests, file, u, sender) {
      ShowsIsAwaits(server.State().requests, sender, file, u);
    }
    code := ERR_SUCCESS;
  }

  predicate ShownUpTo(shown: Requests, i: nat, file: string, user: string)
    requires i <= |shown|
  {
    exists j :: 0 <= j < i && shown[j].file == file && shown[j].requester == user
  }
}
