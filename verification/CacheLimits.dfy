/** How far the cache can be trusted: lookups agree with the map for ever exactly if every CREATE finds room. */
module CacheLimits {
  import opened Protocol
  import opened LruCaches
  import opened NameServer
  import opened CacheRuns
  import RoundRobin

  // ----- servers have distinct addresses -----

  predicate At(info: SsInfo, ip: string, nmPort: int) {
    info.ip == ip && info.nmPort == nmPort
  }

  predicate DistinctServers(servers: seq<SsInfo>) {
    forall i, j :: 0 <= i < j < |servers| ==> !At(servers[j], servers[i].ip, servers[i].nmPort)
  }

  predicate SameAddresses(servers: seq<SsInfo>, next: seq<SsInfo>) {
    |servers| == |next| && forall i :: 0 <= i < |servers| ==> At(next[i], servers[i].ip, servers[i].nmPort)
  }

  lemma {:induction false} ServerAtFinds(servers: seq<SsInfo>, ip: string, nmPort: int)
    ensures ServerAt(servers, ip, nmPort) == -1 ==> forall i :: 0 <= i < |servers| ==> !At(servers[i], ip, nmPort)
    ensures var i := ServerAt(servers, ip, nmPort); i >= 0 ==> At(servers[i], ip, nmPort)
  {
    if servers != [] {
      var last := |servers| - 1;
      ServerAtFinds(servers[..last], ip, nmPort);
      forall i | 0 <= i < last ensures servers[i] == servers[..last][i] {}
    }
  }

  /** A server is found under its own address. */
  lemma ServerAtOwn(servers: seq<SsInfo>, v: nat)
    requires DistinctServers(servers) && v < |servers|
    ensures ServerAt(servers, servers[v].ip, servers[v].nmPort) == v
  {
    ServerAtFinds(servers, servers[v].ip, servers[v].nmPort);
    hide ServerAt;
  }

  lemma AddFileAddresses(s: Ns, ss: int, f: string)
    ensures SameAddresses(s.servers, AddFileToSs(s, ss, f).servers)
  {
    hide Invalidate;
  }

  lemma ReplicateAddresses(s: Ns, f: string, primary: int, replicaReached: bool)
    ensures SameAddresses(s.servers, Replicate(s, f, primary, replicaReached).servers)
  {
    hide AddFileToSs;
    hide AddReplication;
    hide RoundRobin.Choose;
    var (s1, replica) := FindAvailable(s);
    AddFileAddresses(s1.(replicas := AddReplication(s1.replicas, f, primary, replica)), replica, f);
  }

  lemma CreateAddresses(s: Ns, f: string, reply: int, replicaReached: bool)
    ensures SameAddresses(s.servers, CreateStep(s, f, reply, replicaReached).0.servers)
  {
    hide Get;
    hide Put;
    hide CacheFree;
    hide AddFileToSs;
    hide Replicate;
    hide RoundRobin.Choose;
    var (s2, ss) := FindAvailable(FindSs(s, f).0);
    AddFileAddresses(s2, ss, f);
    ReplicateAddresses(AddFileToSs(s2, ss, f), f, ss, replicaReached);
  }

  lemma {:induction false} MapAddAllServers(s: Ns, files: seq<string>, ss: int)
    ensures MapAddAll(s, files, ss).servers == s.servers
    decreases |files|
  {
    if files != [] { MapAddAllServers(s, files[..|files| - 1], ss); }
  }

  lemma RegisterAddresses(s: Ns, ip: string, nmPort: int, clientPort: int, content: string, now: int)
    requires DistinctServers(s.servers)
    ensures DistinctServers(RegisterStep(s, ip, nmPort, clientPort, content, now).0.servers)
  {
    hide Listing;
    hide MapAddAll;
    ServerAtFinds(s.servers, ip, nmPort);
    var i, files := ServerAt(s.servers, ip, nmPort), Listing(content);
    if i >= 0 {
      var info := s.servers[i].(alive := true, heartbeat := now, clientPort := clientPort, files := files);
      MapAddAllServers(s.(servers := s.servers[i := info]), files, i);
    } else {
      var info := SsInfo(ip, nmPort, clientPort, true, now, files);
      MapAddAllServers(s.(servers := s.servers + [info]), files, |s.servers|);
    }
    hide ServerAt;
  }

  lemma StepDistinct(s: Ns, e: Event)
    requires DistinctServers(s.servers)
    ensures DistinctServers(Step(s, e).0.servers)
  {
    hide Get;
    hide Put;
    hide CacheFree;
    hide CreateStep;
    hide RegisterStep;
    match e {
      case Lookup(_) =>
      case Create(f, reply, replicaReached) => CreateAddresses(s, f, reply, replicaReached);
      case Delete(_, _, _) =>
      case Register(ip, nmPort, clientPort, content, now) => RegisterAddresses(s, ip, nmPort, clientPort, content, now);
      case Heartbeat(_, _, _) =>
      case DetectFailures(_) =>
    }
  }

  lemma {:induction false} DistinctAlways(events: seq<Event>, n: nat)
    requires n <= |events|
    ensures DistinctServers(After(events, n).servers)
  {
    hide Step;
    hide DistinctServers;
    if n == 0 {
      NoServers();
    } else {
      DistinctAlways(events, n - 1);
      StepDistinct(After(events, n - 1), events[n - 1]);
    }
  }

  lemma NoServers()
    ensures DistinctServers(START.servers)
  {}

  // ----- after a CREATE without room -----

  /** A file is cached at one server, which is neither the one it is mapped to nor its replica. */
  predicate Astray(s: Ns, f: string, v: int) {
    && 0 <= v < |s.servers| && Cached(s.cache, f) && Get(s.cache, f).1 == v
    && f in s.fileMap && s.fileMap[f] >= 0 && s.fileMap[f] != v && FindReplica(s.replicas, f) != v
  }

  /** The replication step of such a CREATE, which moves the replica and leaves the cache alone. */
  lemma ReplicateAstray(s: Ns, f: string, primary: int, replicaReached: bool)
    requires Inv(s) && CachedElsewhere(s, f) && !Alive(s.servers, Get(s.cache, f).1)
    requires var replica := FindAvailable(s).1;
             Replicates(s, primary, replica) && |s.replicas| < MAX_FILES && !(replicaReached && Room(s, replica))
    ensures Astray(Replicate(s, f, primary, replicaReached), f, Get(s.cache, f).1)
  {
    FindAvailableKeeps(s);
    var (s1, replica) := FindAvailable(s);
    ReplicaRecorded(s1.replicas, f, primary, replica);
    GetFinds(s.cache, f);
    var v := Get(s.cache, f).1;
    assert EntryFits(s, (f, v));
    ReplicaInRange(s.replicas, f);
    hide AddReplication;
    hide FindAvailable;
    hide Get;
  }

  lemma {:induction false} ReplicaInRange(replicas: seq<Replication>, f: string)
    ensures var r := FindReplica(replicas, f);
            r == -1 || exists i :: 0 <= i < |replicas| && replicas[i].replica == r
  {
    if replicas != [] && replicas[0].file != f {
      ReplicaInRange(replicas[1..], f);
      var r := FindReplica(replicas, f);
      if r != -1 {
        var i :| 0 <= i < |replicas[1..]| && replicas[1..][i].replica == r;
        assert replicas[i + 1].replica == r;
      }
    }
  }

  lemma CreateAstray(s: Ns, e: Event)
    requires Inv(s) && !HasRoom(s, e)
    ensures Astray(Step(s, e).0, e.file, Get(s.cache, e.file).1)
  {
    hide FindSs;
    hide AddFileToSs;
    hide Replicate;
    hide FindAvailable;
    FindKeeps(s, e.file);
    var s1 := FindSs(s, e.file).0;
    FindAvailableSame(s, s1);
    FindAvailableSame(FindAvailable(s).0, FindAvailable(s1).0);
    FindAvailableKeeps(s1);
    FailedLookup(s, e.file);
    var (s2, ss) := FindAvailable(s1);
    PrimaryPlaced(s2, e.file, ss);
    ReplicateAstray(s2, e.file, ss, e.replicaReached);
  }

  // ----- only that one server lives -----

  function LatestBeat(servers: seq<SsInfo>): int {
    if servers == [] then 0
    else
      var rest := LatestBeat(servers[1..]);
      if servers[0].heartbeat > rest then servers[0].heartbeat else rest
  }

  lemma {:induction false} LatestIsLatest(servers: seq<SsInfo>)
    ensures forall i :: 0 <= i < |servers| ==> servers[i].heartbeat <= LatestBeat(servers)
  {
    if servers != [] {
      LatestIsLatest(servers[1..]);
      forall i | 0 <= i < |servers| ensures servers[i].heartbeat <= LatestBeat(servers) {
        if i > 0 { assert servers[i] == servers[1..][i - 1]; }
      }
    }
  }

  /** The server comes back when all others have been silent for too long. */
  function OnlyReturn(s: Ns, v: nat): seq<Event>
    requires v < |s.servers|
  {
    var t := LatestBeat(s.servers) + HEARTBEAT_TIMEOUT + 1;
    [Heartbeat(s.servers[v].ip, s.servers[v].nmPort, t), DetectFailures(t)]
  }

  lemma OnlyOneLives(s: Ns, v: nat)
    requires DistinctServers(s.servers) && v < |s.servers|
    ensures var more := OnlyReturn(s, v);
            var s' := Step(Step(s, more[0]).0, more[1]).0;
            && s' == s.(servers := s'.servers) && |s'.servers| == |s.servers|
            && forall i :: Alive(s'.servers, i) <==> i == v
  {
    ServerAtOwn(s.servers, v);
    LatestIsLatest(s.servers);
    hide ServerAt;
    hide LatestBeat;
  }

  lemma AstrayDisagrees(s: Ns, f: string, v: int, servers: seq<SsInfo>)
    requires Astray(s, f, v) && |servers| == |s.servers| && forall i :: Alive(servers, i) <==> i == v
    ensures var s' := s.(servers := servers); FindSs(s', f).1 == v && CacheFree(s', f) == -1
  {
    hide Get;
    hide FindReplica;
  }

  // ----- for ever -----

  predicate LookupAgrees(s: Ns, f: string) {
    FindSs(s, f).1 >= 0 <==> CacheFree(s, f) >= 0
  }

  /** Lookups succeed exactly when cache-free ones do. */
  ghost predicate SuccessAgrees(s: Ns) {
    forall f :: LookupAgrees(s, f)
  }

  predicate WithoutCreate(events: seq<Event>) {
    forall i :: 0 <= i < |events| ==> !events[i].Create?
  }

  /** They do after the first `n` events, and whatever follows, as long as it is no CREATE. */
  ghost predicate AgreesEverAfter(events: seq<Event>, n: nat)
    requires n <= |events|
  {
    forall more: seq<Event> | WithoutCreate(more) :: SuccessAgrees(After(events[..n] + more, n + |more|))
  }

  lemma {:induction false} RoomyThrough(events: seq<Event>, n: nat, more: seq<Event>, k: nat)
    requires n <= |events| && Roomy(events, n) && WithoutCreate(more) && k <= |more|
    ensures Roomy(events[..n] + more, n + k)
    decreases k
  {
    hide Step;
    hide HasRoom;
    var all := events[..n] + more;
    if k == 0 {
      RunPrefix(events[..n], all, n);
      RunPrefix(events[..n], events, n);
    } else {
      hide After;
      RoomyThrough(events, n, more, k - 1);
      assert all[n + k - 1] == more[k - 1];
      NoCreate(After(all, n + k - 1), more[k - 1]);
    }
  }

  lemma RoomyRunAgrees(events: seq<Event>, n: nat)
    requires n <= |events| && Roomy(events, n)
    ensures SuccessAgrees(After(events, n))
  {
    hide FindSs;
    hide CacheFree;
    hide Roomy;
    hide Stale;
    var s := After(events, n);
    hide After;
    forall f ensures LookupAgrees(s, f) {
      CacheTransparentAlways(events, n, f);
    }
  }

  lemma RoomyAgrees(events: seq<Event>, n: nat)
    requires n <= |events| && Roomy(events, n)
    ensures AgreesEverAfter(events, n)
  {
    hide After;
    hide Roomy;
    hide SuccessAgrees;
    forall more: seq<Event> | WithoutCreate(more)
      ensures SuccessAgrees(After(events[..n] + more, n + |more|))
    {
      RoomyThrough(events, n, more, |more|);
      RoomyRunAgrees(events[..n] + more, n + |more|);
    }
  }

  /** A heartbeat and a failure detection after a CREATE without room make the two kinds of lookup disagree. */
  lemma NoRoomDisagrees(events: seq<Event>, n: nat)
    requires n < |events| && Roomy(events, n) && !HasRoom(After(events, n), events[n])
    ensures !AgreesEverAfter(events, n + 1)
  {
    assert events[n].Create?;
    hide *;
    var s, s1 := After(events, n), After(events, n + 1);
    RunStep(events, n + 1);
    InvAlways(events, n);
    CreateAstray(s, events[n]);
    DistinctAlways(events, n + 1);
    AstrayGoesWrong(s1, events[n].file, Get(s.cache, events[n].file).1);
    var more := OnlyReturn(s1, Get(s.cache, events[n].file).1);
    TwoMore(events, n + 1, more);
    SomeContinuation(events, n + 1, more);
  }

  lemma AstrayGoesWrong(s: Ns, f: string, v: int)
    requires DistinctServers(s.servers) && Astray(s, f, v)
    ensures 0 <= v < |s.servers|
    ensures var more := OnlyReturn(s, v);
            && |more| == 2 && WithoutCreate(more)
            && !SuccessAgrees(Step(Step(s, more[0]).0, more[1]).0)
  {
    var more := OnlyReturn(s, v);
    OnlyOneLives(s, v);
    hide Step;
    hide LatestBeat;
    var s' := Step(Step(s, more[0]).0, more[1]).0;
    AstrayDisagrees(s, f, v, s'.servers);
    hide FindSs;
    hide CacheFree;
    assert !LookupAgrees(s', f);
  }

  lemma SomeContinuation(events: seq<Event>, n: nat, more: seq<Event>)
    requires n <= |events| && WithoutCreate(more) && !SuccessAgrees(After(events[..n] + more, n + |more|))
    ensures !AgreesEverAfter(events, n)
  {}

  lemma TwoMore(events: seq<Event>, n: nat, more: seq<Event>)
    requires n <= |events| && |more| == 2
    ensures After(events[..n] + more, n + 2) == Step(Step(After(events, n), more[0]).0, more[1]).0
  {
    hide Step;
    var all := events[..n] + more;
    RunPrefix(events[..n], all, n);
    RunPrefix(events[..n], events, n);
    assert all[n] == more[0] && all[n + 1] == more[1];
    assert After(all, n + 1) == Step(After(all, n), all[n]).0;
  }

  /**
    Lookups and cache-free lookups agree in success after every part of a run, whatever heartbeats, failures,
    registrations, lookups and deletions may follow, exactly if every CREATE of the run finds room when it must.
  */
  lemma {:induction false} AgreesForEverIff(events: seq<Event>, n: nat)
    requires n <= |events|
    ensures (forall i :: 0 <= i <= n ==> AgreesEverAfter(events, i)) <==> Roomy(events, n)
  {
    hide AgreesEverAfter;
    hide HasRoom;
    hide Step;
    if n == 0 {
      RoomyAgrees(events, 0);
    } else {
      AgreesForEverIff(events, n - 1);
      if Roomy(events, n) {
        RoomyAgrees(events, n);
      } else if Roomy(events, n - 1) {
        NoRoomDisagrees(events, n - 1);
      }
    }
  }
}
