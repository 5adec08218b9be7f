/** What the name server answers to clients, and what it notes of the files on each server, over whole runs. */
module NameAnswers {
  import opened Text
  import opened Protocol
  import opened Splitting
  import opened NameServer
  import opened CacheRuns
  import opened CacheLimits
  import opened FileLife
  import opened ServerLife
  import LruCaches
  import RoundRobin

  // ----- lookups -----

  /**
    Which server a lookup names, over every run in which CREATE finds room: the one the file is mapped to if
    that lives and no stale entry hides it, and otherwise the replica. The server named lives.
  */
  lemma LookupAnswers(events: seq<Event>, n: nat, f: string)
    requires n <= |events| && Roomy(events, n)
    ensures var s := After(events, n);
            var found, mapped, replica := FindSs(s, f).1, Mapped(s, f), FindReplica(s.replicas, f);
            && (found >= 0 ==> Alive(s.servers, found) && (found == mapped || found == replica))
            && (Alive(s.servers, mapped) ==> found == if Stale(s, f) then replica else mapped)
            && (!Alive(s.servers, mapped) && found >= 0 ==> found == replica)
  {
    InvAlways(events, n);
    CacheTransparentAlways(events, n, f);
    GetFinds(After(events, n).cache, f);
    hide After;
    hide Roomy;
    hide LruCaches.Get;
    hide LruCaches.Put;
  }

  /** The file is found: it was put into the map and kept, and its server or its replica was heard of lately. */
  ghost predicate FoundNow(events: seq<Event>, n: nat, f: string)
    requires n <= |events|
  {
    var s := After(events, n);
    && EverPutAndKept(events, n, f)
    && (PlaceHeard(events, n, Mapped(s, f)) || PlaceHeard(events, n, FindReplica(s.replicas, f)))
  }

  lemma FoundIs(events: seq<Event>, n: nat, f: string)
    requires n <= |events| && Roomy(events, n)
    ensures FindSs(After(events, n), f).1 >= 0 <==> FoundNow(events, n, f)
  {
    FoundByHistory(events, n, f);
    hide After;
    hide FindSs;
    hide EverPutAndKept;
    hide PlaceHeard;
  }

  // ----- CREATE and DELETE -----

  ghost predicate SomeoneHeard(events: seq<Event>, n: nat)
    requires n <= |events|
  {
    exists i :: PlaceHeard(events, n, i)
  }

  lemma ChoiceIff(s: Ns)
    requires Inv(s)
    ensures FindAvailable(s).1 >= 0 <==> exists i :: Alive(s.servers, i)
  {
    var live := LiveFlags(s.servers);
    if s.servers == [] {
      assert !exists i :: Alive(s.servers, i);
    } else {
      RoundRobin.ChooseIsNext(live, s.lastUsed);
      if i: nat :| Alive(s.servers, i) { assert live[i] && i in RoundRobin.LiveSet(live); }
      if FindAvailable(s).1 >= 0 { assert Alive(s.servers, FindAvailable(s).1); }
    }
  }

  lemma ChoiceHeard(events: seq<Event>, n: nat)
    requires n <= |events| && Inv(After(events, n))
    ensures FindAvailable(After(events, n)).1 >= 0 <==> SomeoneHeard(events, n)
  {
    ChoiceIff(After(events, n));
    forall i ensures Alive(After(events, n).servers, i) <==> PlaceHeard(events, n, i) {
      AliveIff(events, n, i);
      PlaceHeardIs(events, n, i);
    }
    hide After;
    hide Alive;
    hide PlaceHeard;
    hide FindAvailable;
  }

  lemma CreateCode(s: Ns, e: Event)
    requires e.Create?
    ensures Step(s, e).1 ==
              if '|' in e.file || ',' in e.file then ERR_BAD_REQUEST
              else if FindSs(s, e.file).1 >= 0 then ERR_CONFLICT
              else if FindAvailable(s).1 < 0 then ERR_SS_UNAVAILABLE
              else e.reply
  {
    LookupTouchesCache(s, e.file);
    FindAvailableSame(s, FindSs(s, e.file).0);
    hide FindSs;
    hide FindAvailable;
    hide Replicate;
    hide AddFileToSs;
  }

  lemma DeleteCode(s: Ns, e: Event)
    requires e.Delete?
    ensures Step(s, e).1 ==
              if !e.allowed then ERR_ACCESS_DENIED
              else if FindSs(s, e.file).1 < 0 then ERR_NOT_FOUND
              else e.reply
    ensures !e.allowed || Step(s, e).1 != ERR_SUCCESS ==> var s' := Step(s, e).0; s' == s.(cache := s'.cache)
    ensures !e.allowed ==> Step(s, e).0 == s
  {
    LookupTouchesCache(s, e.file);
    hide FindSs;
  }

  /**
    What CREATE and DELETE answer, over every run in which CREATE finds room, by history alone. CREATE succeeds
    for a name without `|` and `,` that is not found, if some server was heard of lately and does its part.
    DELETE succeeds for a writer of a file that is found; a DELETE that fails leaves map and lists alone.
  */
  lemma CreateAndDeleteAnswer(events: seq<Event>, n: nat, e: Event)
    requires n <= |events| && Roomy(events, n) && (e.Create? || e.Delete?)
    ensures var s, found := After(events, n), FoundNow(events, n, e.file);
            && (e.Create? ==>
                  Step(s, e).1 ==
                    if '|' in e.file || ',' in e.file then ERR_BAD_REQUEST
                    else if found then ERR_CONFLICT
                    else if !SomeoneHeard(events, n) then ERR_SS_UNAVAILABLE
                    else e.reply)
            && (e.Delete? ==>
                  Step(s, e).1 ==
                    if !e.allowed then ERR_ACCESS_DENIED else if !found then ERR_NOT_FOUND else e.reply)
            && (e.Delete? && Step(s, e).1 != ERR_SUCCESS ==> Step(s, e).0 == s.(cache := Step(s, e).0.cache))
            && (e.Delete? && Step(s, e).1 == ERR_SUCCESS ==> e.allowed && e.file !in Step(s, e).0.fileMap)
  {
    hide *;
    var s := After(events, n);
    InvAlways(events, n);
    FoundIs(events, n, e.file);
    if e.Create? {
      CreateCode(s, e);
      ChoiceHeard(events, n);
    } else {
      DeleteCode(s, e);
      if Step(s, e).1 == ERR_SUCCESS {
        DeleteUnmaps(s, e);
      }
    }
  }

  lemma DeleteUnmaps(s: Ns, e: Event)
    requires e.Delete? && Step(s, e).1 == ERR_SUCCESS
    ensures e.allowed && e.file !in Step(s, e).0.fileMap
  {
    hide FindSs;
  }

  /** A CREATE that is answered with 200 or 201 maps the file, to a server that lists it, if its server has room. */
  lemma CreatedIsMapped(s: Ns, e: Event)
    requires e.Create? && (Step(s, e).1 == 200 || Step(s, e).1 == 201)
    requires Room(s, PrimaryOf(s))
    ensures var s', ss := Step(s, e).0, Target(s, e);
            e.file in s'.fileMap && Mapped(s', e.file) == ss && Lists(s'.servers, ss, e.file)
  {
    hide Step;
    hide FindAvailable;
    hide Listing;
    CreateMaps(s, e, e.file);
    CreateLists(s, e, e.file);
  }

  // ----- the lists of the servers -----

  lemma {:induction false} RemovedOne(list: seq<string>, f: string)
    ensures multiset(RemoveFirst(list, f)) == multiset(list) - multiset{f}
  {
    if list != [] {
      var x, rest := list[0], list[1..];
      assert list == [x] + rest;
      if x != f {
        RemovedOne(rest, f);
        OthersKeepOne(multiset(rest), x, f);
      }
    }
  }

  lemma OthersKeepOne(m: multiset<string>, x: string, f: string)
    requires x != f
    ensures multiset{x} + (m - multiset{f}) == (multiset{x} + m) - multiset{f}
  {}

  /** The files that server `ss` is noted for after the event. */
  function ListAfter(s: Ns, e: Event, ss: nat): multiset<string>
    requires ss < |s.servers|
  {
    var list, code := multiset(s.servers[ss].files), Step(s, e).1;
    match e
    case Register(_, _, _, content, _) =>
      if code == ERR_SUCCESS && Target(s, e) == ss then multiset(Listing(content)) else list
    case Create(f, _, _) => if Succeeds(code) && TakesIn(s, e, ss) then list + multiset{f} else list
    case Delete(f, _, _) => if code == ERR_SUCCESS && FindSs(s, f).1 == ss then list - multiset{f} else list
    case _ => list
  }

  lemma FailedCreate(s: Ns, e: Event)
    requires e.Create? && !Succeeds(Step(s, e).1)
    ensures Step(s, e).0.servers == s.servers
  {
    LookupTouchesCache(s, e.file);
    OnlyChoice(FindSs(s, e.file).0);
    hide FindSs;
    hide FindAvailable;
    hide Replicate;
    hide AddFileToSs;
  }

  lemma DeletedLists(s: Ns, e: Event, ss: nat)
    requires e.Delete? && ss < |s.servers|
    ensures ss < |Step(s, e).0.servers| && multiset(Step(s, e).0.servers[ss].files) == ListAfter(s, e, ss)
  {
    RemovedOne(s.servers[ss].files, e.file);
    ListAfterDelete(s, e, ss);
    hide *;
    DeletedServers(s, e);
  }

  lemma ListAfterDelete(s: Ns, e: Event, ss: nat)
    requires e.Delete? && ss < |s.servers|
    ensures ListAfter(s, e, ss) ==
            (if Step(s, e).1 == ERR_SUCCESS && FindSs(s, e.file).1 == ss
             then multiset(s.servers[ss].files) - multiset{e.file} else multiset(s.servers[ss].files))
  {
    hide FindSs;
    hide Step;
    hide Target;
    hide TakesIn;
    hide Listing;
  }

  lemma DeletedServers(s: Ns, e: Event)
    requires e.Delete?
    ensures var from, servers := FindSs(s, e.file).1, s.servers;
            Step(s, e).0.servers ==
              if Step(s, e).1 == ERR_SUCCESS && 0 <= from < |servers|
              then servers[from := servers[from].(files := RemoveFirst(servers[from].files, e.file))]
              else servers
  {
    LookupTouchesCache(s, e.file);
    hide FindSs;
    hide RemoveFirst;
    hide LruCaches.Invalidate;
  }

  lemma RegisteredLists(s: Ns, e: Event, ss: nat)
    requires e.Register? && ss < |s.servers|
    ensures ss < |Step(s, e).0.servers| && multiset(Step(s, e).0.servers[ss].files) == ListAfter(s, e, ss)
  {
    ServersAfterRegister(s, e);
    hide Step;
    hide Listing;
    hide ServerAt;
  }

  /**
    One step, one server: a registration replaces its list, a CREATE that succeeds adds the file to the lists
    that take it in, a DELETE that succeeds takes one entry from the list of the server that it asked.
  */
  lemma StepNotes(s: Ns, e: Event, ss: nat)
    requires ss < |s.servers|
    ensures ss < |Step(s, e).0.servers| && multiset(Step(s, e).0.servers[ss].files) == ListAfter(s, e, ss)
  {
    match e {
      case Register(_, _, _, _, _) => RegisteredLists(s, e, ss);
      case Delete(_, _, _) => DeletedLists(s, e, ss);
      case Create(f, _, _) =>
        if Succeeds(Step(s, e).1) {
          CreateLists(s, e, f);
        } else {
          FailedCreate(s, e);
        }
        hide Step;
        hide TakesIn;
      case Lookup(f) => LookupTouchesCache(s, f); hide FindSs;
      case _ => hide FindSs;
    }
  }

  lemma SizeAfter(s: Ns, e: Event, ss: nat)
    requires ss < |s.servers| && |s.servers[ss].files| <= 1000
    ensures |ListAfter(s, e, ss)| <= 1000
  {
    hide Step;
    hide Listing;
    hide FindAvailable;
  }

  /** No list ever grows beyond 1000 names. */
  lemma {:induction false} ListsBounded(events: seq<Event>, n: nat, ss: nat)
    requires n <= |events| && ss < |After(events, n).servers|
    ensures |After(events, n).servers[ss].files| <= 1000
    decreases n
  {
    if n > 0 {
      RunStep(events, n);
      var s, e := After(events, n - 1), events[n - 1];
      if ss < |s.servers| {
        ListsBounded(events, n - 1, ss);
        StepNotes(s, e, ss);
        SizeAfter(s, e, ss);
        var files := Step(s, e).0.servers[ss].files;
        assert |multiset(files)| == |files|;
      } else {
        NewPlace(s, e, ss);
      }
      hide After;
    }
  }

  lemma NewPlace(s: Ns, e: Event, ss: nat)
    requires |s.servers| <= ss < |Step(s, e).0.servers|
    ensures e.Register? && |Step(s, e).0.servers[ss].files| <= 1000
  {
    hide Step;
    hide Listing;
    match e {
      case Register(_, _, _, _, _) => ServersAfterRegister(s, e);
      case Heartbeat(_, _, _) => HeartbeatPlaces(s, e);
      case DetectFailures(_) => HeartbeatPlaces(s, e);
      case Lookup(_) => QuietStep(s, e);
      case Create(_, _, _) => QuietStep(s, e);
      case Delete(_, _, _) => QuietStep(s, e);
    }
    hide ServerAt;
  }

  lemma PutNames(s: Ns, e: Event, f: string)
    requires Puts(s, e, f)
    ensures '|' !in f
  {
    if e.Register? {
      var content := e.content;
      var text := if |content| < MAX_CONTENT_LEN then content else content[..MAX_CONTENT_LEN - 1];
      SplitsAreTokens(text, Exactly('|'));
      hide Split;
      var i :| 0 <= i < |Listing(content)| && Listing(content)[i] == f;
      assert IsToken(Split(text, Exactly('|'))[i], Exactly('|'));
    } else {
      CreateCode(s, e);
    }
    hide Step;
  }

  /** No name in the map holds the mark that separates names in a registration. */
  lemma {:induction false} NamesHoldNoMark(events: seq<Event>, n: nat, f: string)
    requires n <= |events| && f in After(events, n).fileMap
    ensures '|' !in f
    decreases n
  {
    hide Step;
    hide Puts;
    hide HasRoom;
    if n > 0 {
      StepMaps(After(events, n - 1), events[n - 1], f);
      if Puts(After(events, n - 1), events[n - 1], f) {
        PutNames(After(events, n - 1), events[n - 1], f);
      } else {
        NamesHoldNoMark(events, n - 1, f);
      }
    }
  }

  // ----- replication entries -----

  /** The entry that lookups read for a file. */
  function EntryOf(replicas: seq<Replication>, f: string): Option<Replication> {
    if replicas == [] then None else if replicas[0].file == f then Some(replicas[0]) else EntryOf(replicas[1..], f)
  }

  lemma {:induction false} EntryNames(replicas: seq<Replication>, f: string)
    ensures EntryOf(replicas, f).Some? <==> HasReplication(replicas, f)
    ensures EntryOf(replicas, f).Some? ==> EntryOf(replicas, f).value.file == f
    ensures FindReplica(replicas, f) == if EntryOf(replicas, f).Some? then EntryOf(replicas, f).value.replica else -1
  {
    if replicas != [] {
      EntryNames(replicas[1..], f);
      if i :| 0 <= i < |replicas| && replicas[i].file == f {
        assert i > 0 ==> replicas[1..][i - 1].file == f;
      }
    }
  }

  lemma {:induction false} EntrySet(replicas: seq<Replication>, f: string, replica: int, g: string)
    ensures EntryOf(SetReplica(replicas, f, replica), g) ==
            if g == f && EntryOf(replicas, f).Some? then Some(EntryOf(replicas, f).value.(replica := replica))
            else EntryOf(replicas, g)
  {
    if replicas != [] { EntrySet(replicas[1..], f, replica, g); }
  }

  lemma {:induction false} EntryAppended(replicas: seq<Replication>, r: Replication, g: string)
    ensures EntryOf(replicas + [r], g) ==
            if EntryOf(replicas, g).Some? then EntryOf(replicas, g) else if r.file == g then Some(r) else None
  {
    if replicas != [] {
      assert (replicas + [r])[1..] == replicas[1..] + [r];
      EntryAppended(replicas[1..], r, g);
    } else {
      assert [r][1..] == [];
    }
  }

  /**
    A known file keeps the primary of its first entry and gets the new replica, a new file an entry of its own,
    and a full table nothing. The entries of other files stay what they are.
  */
  lemma ReplicationNotes(replicas: seq<Replication>, f: string, primary: int, replica: int, g: string)
    ensures var next := AddReplication(replicas, f, primary, replica);
            EntryOf(next, g) ==
              if g != f || |replicas| >= 1000 then EntryOf(replicas, g)
              else
                var known := EntryOf(replicas, f);
                Some(Replication(f, if known.Some? then known.value.primary else primary, replica))
  {
    EntryNames(replicas, f);
    EntrySet(replicas, f, replica, g);
    EntryAppended(replicas, Replication(f, primary, replica), g);
    hide EntryOf;
    hide SetReplica;
    hide HasReplication;
  }
}
