/**
  The life of a file name over whole runs of the name server: what puts it into the file map, what takes it
  out, and what its replica entry does meanwhile.
*/
module FileLife {
  import opened Protocol
  import opened Splitting
  import opened LruCaches
  import opened NameServer
  import opened CacheRuns
  import RoundRobin

  // ----- what puts a file into the map and what takes it out -----

  /** The replication step of CREATE lists the file at a second server. */
  predicate PutsReplica(s: Ns, e: Event)
    requires e.Create?
  {
    Replicates(s, PrimaryOf(s), ReplicaOf(s)) && e.replicaReached && Room(s, ReplicaOf(s))
  }

  /** A CREATE that succeeds and finds room, or a registration whose listing names the file. */
  predicate Puts(s: Ns, e: Event, f: string) {
    || (e.Create? && e.file == f && Succeeds(Step(s, e).1) && (Room(s, PrimaryOf(s)) || PutsReplica(s, e)))
    || (e.Register? && f in Listing(e.content) && Step(s, e).1 == ERR_SUCCESS)
  }

  /** The server that the file is then mapped to: for CREATE the replica, if it got the file. */
  function Target(s: Ns, e: Event): int
    requires e.Create? || e.Register?
  {
    match e
    case Create(_, _, _) => if PutsReplica(s, e) then ReplicaOf(s) else PrimaryOf(s)
    case Register(ip, nmPort, _, _, _) =>
      var i := ServerAt(s.servers, ip, nmPort);
      if i >= 0 then i else |s.servers|
  }

  /** A DELETE that succeeds. */
  predicate Takes(s: Ns, e: Event, f: string) {
    e.Delete? && e.file == f && Step(s, e).1 == ERR_SUCCESS
  }

  lemma {:induction false} MapAddAllMaps(s: Ns, files: seq<string>, ss: int, f: string)
    ensures var s' := MapAddAll(s, files, ss);
            && (f in s'.fileMap <==> f in files || f in s.fileMap)
            && Mapped(s', f) == (if f in files then ss else Mapped(s, f))
            && s'.replicas == s.replicas && s'.servers == s.servers
    decreases |files|
  {
    if files != [] {
      var last := |files| - 1;
      MapAddAllMaps(s, files[..last], ss, f);
      assert files == files[..last] + [files[last]];
    }
  }

  lemma LookupTouchesCache(s: Ns, f: string)
    ensures var s' := FindSs(s, f).0; s' == s.(cache := s'.cache)
  {}

  lemma AddFileMaps(s: Ns, ss: int, f: string, g: string)
    ensures var s' := AddFileToSs(s, ss, f);
            && (g in s'.fileMap <==> g in s.fileMap || (g == f && Room(s, ss)))
            && Mapped(s', g) == (if g == f && Room(s, ss) then ss else Mapped(s, g))
            && s'.replicas == s.replicas && |s'.servers| == |s.servers|
            && forall i :: i != ss ==> Room(s', i) == Room(s, i)
  {
    hide Invalidate;
  }

  lemma ReplicateMaps(s: Ns, f: string, primary: int, replicaReached: bool, g: string)
    ensures var s', replica := Replicate(s, f, primary, replicaReached), FindAvailable(s).1;
            var put := g == f && Replicates(s, primary, replica) && replicaReached && Room(s, replica);
            && (g in s'.fileMap <==> g in s.fileMap || put)
            && Mapped(s', g) == if put then replica else Mapped(s, g)
  {
    hide AddReplication;
    hide AddFileToSs;
    hide RoundRobin.Choose;
    var (s1, replica) := FindAvailable(s);
    AddFileMaps(s1.(replicas := AddReplication(s1.replicas, f, primary, replica)), replica, f, g);
  }

  /** What the two `add_file_to_ss` calls of a successful CREATE do to the map. */
  lemma CreateMaps(s: Ns, e: Event, g: string)
    requires e.Create?
    ensures var s' := Step(s, e).0;
            && (g in s'.fileMap <==> Puts(s, e, g) || g in s.fileMap)
            && Mapped(s', g) == if Puts(s, e, g) then Target(s, e) else Mapped(s, g)
  {
    hide FindSs;
    hide FindAvailable;
    hide Replicate;
    hide AddFileToSs;
    LookupTouchesCache(s, e.file);
    var s1 := FindSs(s, e.file).0;
    FindAvailableSame(s, s1);
    FindAvailableSame(FindAvailable(s).0, FindAvailable(s1).0);
    OnlyChoice(s1);
    var (s2, ss) := FindAvailable(s1);
    var s3 := AddFileToSs(s2, ss, e.file);
    FlagsKept(s2, ss, e.file);
    SameChoice(s2, s3);
    assert forall i :: Room(s2, i) == Room(s, i);
    AddFileMaps(s2, ss, e.file, g);
    ReplicateMaps(s3, e.file, ss, e.replicaReached, g);
  }

  lemma OnlyChoice(s: Ns)
    ensures var s' := FindAvailable(s).0; s' == s.(lastUsed := s'.lastUsed)
  {}

  lemma RegisterMaps(s: Ns, e: Event, g: string)
    requires e.Register?
    ensures var s' := Step(s, e).0;
            && (g in s'.fileMap <==> Puts(s, e, g) || g in s.fileMap)
            && Mapped(s', g) == (if Puts(s, e, g) then Target(s, e) else Mapped(s, g))
            && s'.replicas == s.replicas
  {
    hide MapAddAll;
    hide Listing;
    var i, files := ServerAt(s.servers, e.ip, e.nmPort), Listing(e.content);
    if i >= 0 {
      var info := s.servers[i].(alive := true, heartbeat := e.now, clientPort := e.clientPort, files := files);
      MapAddAllMaps(s.(servers := s.servers[i := info]), files, i, g);
    } else {
      var info := SsInfo(e.ip, e.nmPort, e.clientPort, true, e.now, files);
      MapAddAllMaps(s.(servers := s.servers + [info]), files, |s.servers|, g);
    }
  }

  /** One step: the two ways in, the one way out, and where a file then is. */
  lemma StepMaps(s: Ns, e: Event, f: string)
    ensures var s' := Step(s, e).0;
            && (f in s'.fileMap <==> Puts(s, e, f) || (f in s.fileMap && !Takes(s, e, f)))
            && (f in s'.fileMap ==> Mapped(s', f) == if Puts(s, e, f) then Target(s, e) else Mapped(s, f))
  {
    hide FindSs;
    hide Invalidate;
    hide CreateStep;
    hide RegisterStep;
    match e {
      case Lookup(g) => LookupTouchesCache(s, g);
      case Create(_, _, _) => CreateMaps(s, e, f);
      case Delete(g, _, _) => LookupTouchesCache(s, g);
      case Register(_, _, _, _, _) => RegisterMaps(s, e, f);
      case Heartbeat(_, _, _) =>
      case DetectFailures(_) =>
    }
  }

  /** Event `i` put the file into the map, and none of the events after it up to `n` took it out. */
  predicate PutAndKept(events: seq<Event>, i: nat, n: nat, f: string)
    requires i < n <= |events|
  {
    Puts(After(events, i), events[i], f) && forall r :: i < r < n ==> !Takes(After(events, r), events[r], f)
  }

  ghost predicate EverPutAndKept(events: seq<Event>, n: nat, f: string)
    requires n <= |events|
  {
    exists i: nat :: i < n && PutAndKept(events, i, n, f)
  }

  lemma PutAndKeptStep(events: seq<Event>, n: nat, f: string)
    requires 0 < n <= |events|
    ensures var s, e := After(events, n - 1), events[n - 1];
            EverPutAndKept(events, n, f) <==> Puts(s, e, f) || (EverPutAndKept(events, n - 1, f) && !Takes(s, e, f))
  {
    hide After;
    hide Puts;
    hide Takes;
    if Puts(After(events, n - 1), events[n - 1], f) {
      assert PutAndKept(events, n - 1, n, f);
    }
    if EverPutAndKept(events, n, f) {
      var i: nat :| i < n && PutAndKept(events, i, n, f);
      assert i < n - 1 ==> PutAndKept(events, i, n - 1, f);
    }
    if EverPutAndKept(events, n - 1, f) && !Takes(After(events, n - 1), events[n - 1], f) {
      var i: nat :| i < n - 1 && PutAndKept(events, i, n - 1, f);
      assert PutAndKept(events, i, n, f);
    }
  }

  /**
    Over every run a file is mapped exactly if some CREATE or registration put it there and no DELETE
    succeeded since.
  */
  lemma {:induction false} MappedIffPutAndKept(events: seq<Event>, n: nat, f: string)
    requires n <= |events|
    ensures f in After(events, n).fileMap <==> EverPutAndKept(events, n, f)
    decreases n
  {
    hide *;
    if n == 0 {
      NothingAtStart(events, f);
    } else {
      RunStep(events, n);
      StepMaps(After(events, n - 1), events[n - 1], f);
      MappedIffPutAndKept(events, n - 1, f);
      PutAndKeptStep(events, n, f);
    }
  }

  lemma NothingAtStart(events: seq<Event>, f: string)
    ensures f !in After(events, 0).fileMap && !EverPutAndKept(events, 0, f)
  {}

  /** Event `i` is the last that put the file into the map, and it was not taken out since. */
  predicate LastPut(events: seq<Event>, i: nat, n: nat, f: string)
    requires i < n <= |events|
  {
    PutAndKept(events, i, n, f) && forall r :: i < r < n ==> !Puts(After(events, r), events[r], f)
  }

  /** The mapping stays where the last put left it. */
  lemma {:induction false} MappedWherePut(events: seq<Event>, i: nat, n: nat, f: string)
    requires i < n <= |events| && LastPut(events, i, n, f)
    ensures f in After(events, n).fileMap && (events[i].Create? || events[i].Register?)
    ensures Mapped(After(events, n), f) == Target(After(events, i), events[i])
    decreases n
  {
    hide Step;
    hide Target;
    hide After;
    RunStep(events, n);
    StepMaps(After(events, n - 1), events[n - 1], f);
    if i < n - 1 {
      assert LastPut(events, i, n - 1, f);
      MappedWherePut(events, i, n - 1, f);
    }
  }

  /**
    Which files a client can reach, over every run: those put in and not deleted since whose mapped server, or
    else whose replica, lives. The cache plays no part in it.
  */
  lemma FoundIff(events: seq<Event>, n: nat, f: string)
    requires n <= |events| && Roomy(events, n)
    ensures var s := After(events, n);
            FindSs(s, f).1 >= 0 <==>
              && EverPutAndKept(events, n, f)
              && (Alive(s.servers, Mapped(s, f)) || Alive(s.servers, FindReplica(s.replicas, f)))
  {
    hide FindSs;
    hide EverPutAndKept;
    hide After;
    MappedIffPutAndKept(events, n, f);
    CacheTransparentAlways(events, n, f);
    InvAlways(events, n);
  }

  // ----- replica entries -----

  /** A CREATE of the file that succeeds, with or without room for it. */
  predicate Creates(s: Ns, e: Event, f: string) {
    e.Create? && e.file == f && Succeeds(Step(s, e).1)
  }

  lemma AddReplicationFinds(replicas: seq<Replication>, f: string, primary: int, replica: int, g: string)
    requires g != f
    ensures FindReplica(AddReplication(replicas, f, primary, replica), g) == FindReplica(replicas, g)
  {
    SetReplicaFinds(replicas, f, replica, g);
    AppendFinds(replicas, Replication(f, primary, replica), g);
  }

  lemma ReplicateOther(s: Ns, f: string, primary: int, replicaReached: bool, g: string)
    requires g != f
    ensures FindReplica(Replicate(s, f, primary, replicaReached).replicas, g) == FindReplica(s.replicas, g)
  {
    AddReplicationFinds(s.replicas, f, primary, FindAvailable(s).1, g);
    hide RoundRobin.Choose;
    hide AddReplication;
    hide MapAdd;
  }

  lemma CreateOther(s: Ns, e: Event, f: string)
    requires e.Create? && !Creates(s, e, f)
    ensures FindReplica(Step(s, e).0.replicas, f) == FindReplica(s.replicas, f)
  {
    hide FindReplica;
    hide FindSs;
    hide Replicate;
    hide AddFileToSs;
    hide RoundRobin.Choose;
    LookupTouchesCache(s, e.file);
    if e.file != f {
      var s2, ss := FindAvailable(FindSs(s, e.file).0).0, FindAvailable(FindSs(s, e.file).0).1;
      FlagsKept(s2, ss, e.file);
      ReplicateOther(AddFileToSs(s2, ss, e.file), e.file, ss, e.replicaReached, f);
    }
  }

  /** Only a CREATE of the file itself that succeeds touches its replica entry. */
  lemma StepKeepsReplica(s: Ns, e: Event, f: string)
    requires !Creates(s, e, f)
    ensures FindReplica(Step(s, e).0.replicas, f) == FindReplica(s.replicas, f)
  {
    hide FindSs;
    hide FindReplica;
    hide Invalidate;
    hide CreateStep;
    hide RegisterStep;
    match e {
      case Lookup(g) => LookupTouchesCache(s, g);
      case Create(_, _, _) => CreateOther(s, e, f);
      case Delete(g, _, _) => LookupTouchesCache(s, g);
      case Register(_, _, _, _, _) => RegisterMaps(s, e, f);
      case Heartbeat(_, _, _) =>
      case DetectFailures(_) =>
    }
  }

  /**
    A replica entry outlives everything but another successful CREATE of the same file: deletions, deaths and
    re-registrations between `i` and `n` leave it naming the same server.
  */
  lemma {:induction false} ReplicaOutlivesDelete(events: seq<Event>, i: nat, n: nat, f: string)
    requires i <= n <= |events|
    requires forall r :: i <= r < n ==> !Creates(After(events, r), events[r], f)
    ensures FindReplica(After(events, n).replicas, f) == FindReplica(After(events, i).replicas, f)
    decreases n
  {
    hide *;
    if i < n {
      RunStep(events, n);
      ReplicaOutlivesDelete(events, i, n - 1, f);
      StepKeepsReplica(After(events, n - 1), events[n - 1], f);
    }
  }

  // ----- what the second copy is worth -----

  /** The name server's record of server `ss` names the file. */
  predicate Lists(servers: seq<SsInfo>, ss: int, f: string) {
    0 <= ss < |servers| && f in servers[ss].files
  }

  /** A CREATE that succeeds, with a second server and with room for the replica entry. */
  predicate Replicated(s: Ns, e: Event, f: string) {
    Creates(s, e, f) && |s.replicas| < MAX_FILES && Replicates(s, PrimaryOf(s), ReplicaOf(s))
  }

  /** Server `ss` takes the file in its list: as the primary, if it has room, or as the replica. */
  predicate TakesIn(s: Ns, e: Event, ss: int)
    requires e.Create?
  {
    (ss == PrimaryOf(s) && Room(s, ss)) || (ss == ReplicaOf(s) && PutsReplica(s, e))
  }

  predicate ListsGrow(servers: seq<SsInfo>, next: seq<SsInfo>, ss: int, f: string, grows: bool) {
    && |servers| == |next|
    && forall i :: 0 <= i < |servers| ==>
         next[i] == servers[i].(files := servers[i].files + (if i == ss && grows then [f] else []))
  }

  lemma AddFileLists(s: Ns, ss: int, f: string)
    ensures ListsGrow(s.servers, AddFileToSs(s, ss, f).servers, ss, f, Room(s, ss))
  {
    hide Invalidate;
    assert forall i :: 0 <= i < |s.servers| ==> s.servers[i].files + [] == s.servers[i].files;
  }

  lemma ReplicateEffect(s: Ns, f: string, primary: int, replicaReached: bool)
    ensures var s', replica := Replicate(s, f, primary, replicaReached), FindAvailable(s).1;
            && ListsGrow(s.servers, s'.servers, replica, f,
                         Replicates(s, primary, replica) && replicaReached && Room(s, replica))
            && FindReplica(s'.replicas, f) ==
               if Replicates(s, primary, replica) && |s.replicas| < MAX_FILES then replica
               else FindReplica(s.replicas, f)
  {
    OnlyChoice(s);
    var (s1, replica) := FindAvailable(s);
    var s2 := s1.(replicas := AddReplication(s1.replicas, f, primary, replica));
    if |s.replicas| < MAX_FILES { ReplicaRecorded(s.replicas, f, primary, replica); }
    AddFileLists(s2, replica, f);
    FlagsKept(s2, replica, f);
    hide FindAvailable;
    hide AddReplication;
    hide AddFileToSs;
    assert forall i :: 0 <= i < |s.servers| ==> s.servers[i].files + [] == s.servers[i].files;
  }

  lemma ListsGrowTwice(a: seq<SsInfo>, b: seq<SsInfo>, c: seq<SsInfo>, f: string, p: int, pg: bool, r: int, rg: bool)
    requires ListsGrow(a, b, p, f, pg) && ListsGrow(b, c, r, f, rg) && (rg ==> p != r)
    ensures |c| == |a|
    ensures forall i :: 0 <= i < |a| ==>
              c[i] == a[i].(files := a[i].files + (if (i == p && pg) || (i == r && rg) then [f] else []))
  {
    forall i | 0 <= i < |a|
      ensures c[i] == a[i].(files := a[i].files + (if (i == p && pg) || (i == r && rg) then [f] else []))
    {
      assert a[i].files + [] + [] == a[i].files + [] && a[i].files + [] + [f] == a[i].files + [f];
      assert a[i].files + [f] + [] == a[i].files + [f];
    }
  }

  /** The state in which the replication step of a successful CREATE begins. */
  function BeforeReplica(s: Ns, f: string): Ns {
    var (s2, primary) := FindAvailable(FindSs(s, f).0);
    AddFileToSs(s2, primary, f)
  }

  lemma CreateIsReplicate(s: Ns, e: Event, f: string)
    requires Creates(s, e, f)
    ensures Step(s, e).0 == Replicate(BeforeReplica(s, f), f, PrimaryOf(s), e.replicaReached)
    ensures var s3 := BeforeReplica(s, f);
            && FindAvailable(s3).1 == ReplicaOf(s) && s3.replicas == s.replicas && |s3.servers| == |s.servers|
            && ListsGrow(s.servers, s3.servers, PrimaryOf(s), f, Room(s, PrimaryOf(s)))
            && forall i :: i != PrimaryOf(s) ==> Room(s3, i) == Room(s, i)
  {
    hide FindSs;
    hide Replicate;
    LookupTouchesCache(s, f);
    var s1 := FindSs(s, f).0;
    FindAvailableSame(s, s1);
    FindAvailableSame(FindAvailable(s).0, FindAvailable(s1).0);
    OnlyChoice(s1);
    hide FindAvailable;
    var (s2, primary) := FindAvailable(s1);
    FlagsKept(s2, primary, f);
    SameChoice(s2, AddFileToSs(s2, primary, f));
    AddFileLists(s2, primary, f);
    AddFileMaps(s2, primary, f, f);
    hide AddFileToSs;
  }

  lemma CreateLists(s: Ns, e: Event, f: string)
    requires Creates(s, e, f)
    ensures var s' := Step(s, e).0;
            && |s'.servers| == |s.servers|
            && (forall i :: 0 <= i < |s.servers| ==>
                  s'.servers[i] == s.servers[i].(files := s.servers[i].files + (if TakesIn(s, e, i) then [f] else [])))
            && FindReplica(s'.replicas, f)
               == (if Replicated(s, e, f) then ReplicaOf(s) else FindReplica(s.replicas, f))
  {
    CreateIsReplicate(s, e, f);
    hide Step;
    hide BeforeReplica;
    hide ListsGrow;
    hide FindReplica;
    hide PrimaryOf;
    hide ReplicaOf;
    hide FindAvailable;
    hide Replicate;
    var s3, primary, replica := BeforeReplica(s, f), PrimaryOf(s), ReplicaOf(s);
    ReplicateEffect(s3, f, primary, e.replicaReached);
    ListsGrowTwice(s.servers, s3.servers, Replicate(s3, f, primary, e.replicaReached).servers, f, primary,
                   Room(s, primary), replica, Replicates(s3, primary, replica) && e.replicaReached && Room(s3, replica));
  }

  /**
    The whole effect of a CREATE that succeeds: which servers list the file, where it is mapped, and where its
    replica is.
  */
  lemma CreateEffect(s: Ns, e: Event, f: string)
    requires Creates(s, e, f)
    ensures var s' := Step(s, e).0;
            && |s'.servers| == |s.servers|
            && (forall i :: 0 <= i < |s.servers| ==>
                  s'.servers[i] == s.servers[i].(files := s.servers[i].files + (if TakesIn(s, e, i) then [f] else [])))
            && Mapped(s', f) == (if Puts(s, e, f) then Target(s, e) else Mapped(s, f))
            && FindReplica(s'.replicas, f)
               == (if Replicated(s, e, f) then ReplicaOf(s) else FindReplica(s.replicas, f))
  {
    CreatesCreate(s, e, f);
    hide *;
    CreateMaps(s, e, f);
    CreateLists(s, e, f);
  }

  lemma CreatesCreate(s: Ns, e: Event, f: string)
    requires Creates(s, e, f)
    ensures e.Create?
  {}

  // ----- runs -----

  /** Event `i` is such a CREATE, and no other CREATE of the file succeeds up to `n`. */
  predicate CreatedAt(events: seq<Event>, i: nat, n: nat, f: string)
    requires i < n <= |events|
  {
    && Replicated(After(events, i), events[i], f)
    && forall r :: i < r < n ==> !Creates(After(events, r), events[r], f)
  }

  lemma ReplicaSince(events: seq<Event>, i: nat, n: nat, f: string)
    requires i < n <= |events| && CreatedAt(events, i, n, f)
    ensures FindReplica(After(events, n).replicas, f) == ReplicaOf(After(events, i))
  {
    hide *;
    CreatedMeans(events, i, n, f);
    RunStep(events, i + 1);
    CreateReplica(After(events, i), events[i], f);
    ReplicaOutlivesDelete(events, i + 1, n, f);
  }

  lemma CreatedMeans(events: seq<Event>, i: nat, n: nat, f: string)
    requires i < n <= |events| && CreatedAt(events, i, n, f)
    ensures Replicated(After(events, i), events[i], f)
    ensures Creates(After(events, i), events[i], f)
    ensures forall r :: i < r < n ==> !Creates(After(events, r), events[r], f)
  {
    hide Creates;
    hide After;
  }

  lemma CreateReplica(s: Ns, e: Event, f: string)
    requires Creates(s, e, f) && Replicated(s, e, f)
    ensures FindReplica(Step(s, e).0.replicas, f) == ReplicaOf(s)
  {
    hide *;
    CreateEffect(s, e, f);
  }

  /** After such a CREATE a file is found exactly while the server it was last put to, or its replica, lives. */
  lemma FoundSince(events: seq<Event>, i: nat, p: nat, n: nat, f: string)
    requires i <= p < n <= |events| && Roomy(events, n)
    requires CreatedAt(events, i, n, f) && LastPut(events, p, n, f)
    ensures events[p].Create? || events[p].Register?
    ensures var now, mapped := After(events, n), Target(After(events, p), events[p]);
            var replica := ReplicaOf(After(events, i));
            && Mapped(now, f) == mapped && FindReplica(now.replicas, f) == replica
            && (FindSs(now, f).1 >= 0 <==> Alive(now.servers, mapped) || Alive(now.servers, replica))
  {
    MappedWherePut(events, p, n, f);
    hide *;
    ReplicaSince(events, i, n, f);
    MappedWherePut(events, p, n, f);
    FoundIff(events, n, f);
    EverPut(events, p, n, f);
  }

  lemma EverPut(events: seq<Event>, p: nat, n: nat, f: string)
    requires p < n <= |events| && LastPut(events, p, n, f)
    ensures EverPutAndKept(events, n, f)
  {}

  /** No event between `i` and `n` puts the file into the map or takes it out. */
  predicate Undisturbed(events: seq<Event>, i: nat, n: nat, f: string)
    requires i < n <= |events|
  {
    forall r :: i < r < n ==> !Puts(After(events, r), events[r], f) && !Takes(After(events, r), events[r], f)
  }

  lemma PutLast(events: seq<Event>, i: nat, n: nat, f: string)
    requires i < n <= |events| && Puts(After(events, i), events[i], f) && Undisturbed(events, i, n, f)
    ensures LastPut(events, i, n, f)
  {
    hide Puts;
    hide Takes;
    hide After;
  }

  /** Where the CREATE puts the file. */
  lemma CreatePuts(s: Ns, e: Event, f: string)
    requires Replicated(s, e, f)
    ensures e.Create? && PrimaryOf(s) != ReplicaOf(s)
    ensures PutsReplica(s, e) ==> Puts(s, e, f) && Target(s, e) == ReplicaOf(s)
    ensures !PutsReplica(s, e) && Room(s, PrimaryOf(s)) ==> Puts(s, e, f) && Target(s, e) == PrimaryOf(s)
  {
    hide CreateStep;
    hide FindAvailable;
  }

  /**
    A file created with a replica that was reached is mapped to that replica, which is also its replica entry.
    Until it is registered, created or deleted again, it is found exactly while that one server lives: the
    primary, which holds the file too, is never asked.
  */
  lemma CreatedFileHangsOnReplica(events: seq<Event>, i: nat, n: nat, f: string)
    requires i < n <= |events| && Roomy(events, n)
    requires CreatedAt(events, i, n, f) && Undisturbed(events, i, n, f)
    requires events[i].Create? && PutsReplica(After(events, i), events[i])
    ensures var now, replica := After(events, n), ReplicaOf(After(events, i));
            && Mapped(now, f) == FindReplica(now.replicas, f) == replica
            && replica != PrimaryOf(After(events, i))
            && (FindSs(now, f).1 >= 0 <==> Alive(now.servers, replica))
  {
    hide *;
    CreatedMeans(events, i, n, f);
    CreatePuts(After(events, i), events[i], f);
    PutLast(events, i, n, f);
    FoundSince(events, i, i, n, f);
  }

  /**
    Fail-over, as the source promises it, begins once the primary has registered again with the file in its
    listing: from then on one of the two servers is enough.
  */
  lemma ReturnedPrimaryGivesFailover(events: seq<Event>, i: nat, p: nat, n: nat, f: string)
    requires i < p < n <= |events| && Roomy(events, n)
    requires CreatedAt(events, i, n, f) && Undisturbed(events, p, n, f)
    requires events[p].Register? && Puts(After(events, p), events[p], f)
    requires Target(After(events, p), events[p]) == PrimaryOf(After(events, i))
    ensures var now, s := After(events, n), After(events, i);
            FindSs(now, f).1 >= 0 <==> Alive(now.servers, PrimaryOf(s)) || Alive(now.servers, ReplicaOf(s))
  {
    hide *;
    PutLast(events, p, n, f);
    FoundSince(events, i, p, n, f);
  }

  /**
    When the replica could not be reached, its entry is there all the same: the file is found while either
    server lives, but once the primary dies lookups name a server on which nothing was stored.
  */
  lemma UnreachedReplicaIsAsked(events: seq<Event>, i: nat, n: nat, f: string)
    requires i < n <= |events| && Roomy(events, n)
    requires CreatedAt(events, i, n, f) && Undisturbed(events, i, n, f)
    requires events[i].Create? && !events[i].replicaReached && Room(After(events, i), PrimaryOf(After(events, i)))
    ensures var s, created, now := After(events, i), After(events, i + 1), After(events, n);
            var primary, replica := PrimaryOf(s), ReplicaOf(s);
            && SameRecord(s, created, replica)
            && (FindSs(now, f).1 >= 0 <==> Alive(now.servers, primary) || Alive(now.servers, replica))
            && (!Alive(now.servers, primary) && Alive(now.servers, replica) ==> FindSs(now, f).1 == replica)
  {
    hide *;
    CreatedMeans(events, i, n, f);
    RoomyBefore(events, i, n);
    InvAlways(events, i);
    UnreachedGetsNothing(After(events, i), events[i], f);
    RunStep(events, i + 1);
    NotReached(After(events, i), events[i]);
    CreatePuts(After(events, i), events[i], f);
    PutLast(events, i, n, f);
    FoundSince(events, i, i, n, f);
    CacheTransparentAlways(events, n, f);
    StaleMeans(After(events, n), f);
    RoomIsServer(After(events, i), PrimaryOf(After(events, i)));
  }

  lemma NotReached(s: Ns, e: Event)
    requires e.Create? && !e.replicaReached
    ensures !PutsReplica(s, e)
  {}

  lemma RoomIsServer(s: Ns, ss: int)
    requires Room(s, ss)
    ensures ss >= 0
  {}

  /** With the mapped server dead the cache-free lookup names the replica, and no entry is stale. */
  lemma StaleMeans(s: Ns, f: string)
    ensures !Alive(s.servers, Mapped(s, f)) ==> !Stale(s, f)
    ensures !Alive(s.servers, Mapped(s, f)) && Mapped(s, f) >= 0 && Alive(s.servers, FindReplica(s.replicas, f)) ==>
              CacheFree(s, f) == FindReplica(s.replicas, f)
  {
    hide Get;
  }

  lemma {:induction false} RoomyBefore(events: seq<Event>, i: nat, n: nat)
    requires i <= n <= |events| && Roomy(events, n)
    ensures Roomy(events, i)
    decreases n
  {
    hide HasRoom;
    hide After;
    if i < n { RoomyBefore(events, i, n - 1); }
  }

  /** The name server's record of server `ss` stays what it is. */
  predicate SameRecord(s: Ns, s': Ns, ss: int) {
    0 <= ss < |s.servers| == |s'.servers| && s'.servers[ss] == s.servers[ss]
  }

  lemma ReplicaBounds(s: Ns)
    requires Inv(s)
    ensures PrimaryOf(s) < |s.servers| && ReplicaOf(s) < |s.servers|
    ensures ReplicaOf(s) >= 0 ==> Alive(s.servers, ReplicaOf(s))
  {
    FindAvailableKeeps(s);
    FindAvailableKeeps(FindAvailable(s).0);
    hide FindAvailable;
  }

  lemma UnreachedGetsNothing(s: Ns, e: Event, f: string)
    requires Inv(s) && Replicated(s, e, f) && Creates(s, e, f) && !e.replicaReached
    ensures SameRecord(s, Step(s, e).0, ReplicaOf(s))
  {
    ReplicaBounds(s);
    CreateEffect(s, e, f);
    hide Step;
    hide FindReplica;
    hide FindAvailable;
    var r := ReplicaOf(s);
    assert s.servers[r].files + [] == s.servers[r].files;
  }

  // ----- deleting one of two copies -----

  /** A file that its replica has taken in is no longer cached. */
  lemma CreateUncaches(s: Ns, e: Event, f: string)
    requires Inv(s) && Creates(s, e, f) && PutsReplica(s, e)
    ensures Inv(Step(s, e).0) && !Cached(Step(s, e).0.cache, f)
  {
    hide FindSs;
    FindKeeps(s, f);
    var s1 := FindSs(s, f).0;
    FindAvailableSame(s, s1);
    FindAvailableSame(FindAvailable(s).0, FindAvailable(s1).0);
    FindAvailableKeeps(s1);
    hide FindAvailable;
    hide AddFileToSs;
    hide AddReplication;
    hide Inv;
    var (s2, primary) := FindAvailable(s1);
    PrimaryPlaced(s2, f, primary);
    var s3 := AddFileToSs(s2, primary, f);
    FlagsKept(s2, primary, f);
    SameChoice(s2, s3);
    ReplicateUncaches(s3, f, primary);
  }

  lemma ReplicateUncaches(s: Ns, f: string, primary: int)
    requires Inv(s) && Replicates(s, primary, FindAvailable(s).1) && Room(s, FindAvailable(s).1)
    ensures var s' := Replicate(s, f, primary, true); Inv(s') && !Cached(s'.cache, f)
  {
    FindAvailableKeeps(s);
    var (s1, replica) := FindAvailable(s);
    var s2 := s1.(replicas := AddReplication(s1.replicas, f, primary, replica));
    AddReplicationOthers(s1, f, primary, replica);
    hide FindAvailable;
    hide AddReplication;
    PlacedKeeps(s2, replica, f);
    hide AddFileToSs;
    GetFinds(AddFileToSs(s2, replica, f).cache, f);
    hide Get;
  }

  /**
    A DELETE right after a CREATE with a replica reaches one of the two copies only. The primary still lists
    the file, and the replica entry stays.
  */
  lemma DeleteLeavesPrimaryCopy(s: Ns, e: Event, f: string)
    requires Inv(s) && Replicated(s, e, f) && e.Create? && PutsReplica(s, e) && Room(s, PrimaryOf(s))
    ensures var s' := Step(s, e).0;
            var (gone, code) := DeleteStep(s', f, true, ERR_SUCCESS);
            && code == ERR_SUCCESS && CacheFree(gone, f) == -1
            && Lists(gone.servers, PrimaryOf(s), f)
            && FindReplica(gone.replicas, f) == FindReplica(s'.replicas, f) == ReplicaOf(s)
  {
    hide *;
    ReplicatedMeans(s, e, f);
    CreateEffect(s, e, f);
    CreateUncaches(s, e, f);
    CreatePuts(s, e, f);
    ReplicaBounds(s);
    TwoCopies(s, e, f);
    DeletesOther(Step(s, e).0, f, PrimaryOf(s), ReplicaOf(s));
  }

  lemma ReplicatedMeans(s: Ns, e: Event, f: string)
    requires Replicated(s, e, f)
    ensures Creates(s, e, f) && ReplicaOf(s) >= 0
  {
    hide Creates;
    hide ReplicaOf;
  }

  lemma TwoCopies(s: Ns, e: Event, f: string)
    requires e.Create? && Creates(s, e, f) && Inv(s) && Room(s, PrimaryOf(s)) && ReplicaOf(s) >= 0
    ensures var s' := Step(s, e).0; Lists(s'.servers, PrimaryOf(s), f) && Alive(s'.servers, ReplicaOf(s))
  {
    CreateEffect(s, e, f);
    ReplicaBounds(s);
    hide Step;
    hide FindAvailable;
    hide FindReplica;
  }

  lemma DeletesOther(s: Ns, f: string, primary: int, replica: int)
    requires Inv(s) && !Cached(s.cache, f) && Mapped(s, f) == replica != primary && Alive(s.servers, replica)
    requires Lists(s.servers, primary, f)
    ensures var (gone, code) := DeleteStep(s, f, true, ERR_SUCCESS);
            && code == ERR_SUCCESS && CacheFree(gone, f) == -1 && Lists(gone.servers, primary, f)
            && gone.replicas == s.replicas
  {
    GetFinds(s.cache, f);
    hide Get;
    hide Put;
    hide Invalidate;
    hide FindReplica;
  }
}
