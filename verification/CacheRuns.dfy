/** The cache is transparent: what lookups answer over whole runs of the name server. */
module CacheRuns {
  import opened Text
  import opened Protocol
  import opened LruCaches
  import opened NameServer
  import RoundRobin

  // ----- what the cache operations do to the entries -----

  lemma GetMembers(c: Cache, f: string, x: (string, int))
    ensures x in Get(c, f).0 <==> x in c
  {
    var i := Position(c, f);
    if i < |c| {
      assert c == c[..i] + [c[i]] + c[i + 1..];
    }
  }

  lemma InvalidateMembers(c: Cache, f: string, x: (string, int))
    requires CacheOk(c)
    ensures x in Invalidate(c, f) <==> x in c && x.0 != f
  {
    var i := Position(c, f);
    if i < |c| {
      assert c == c[..i] + [c[i]] + c[i + 1..];
      DroppedKeeps(c, i);
    }
  }

  lemma PutMembers(c: Cache, f: string, ss: int, x: (string, int))
    requires CacheOk(c)
    ensures (f, ss) in Put(c, f, ss)
    ensures x in Put(c, f, ss) ==> x == (f, ss) || (x in c && x.0 != f)
  {
    var i := Position(c, f);
    if i < |c| {
      DroppedKeeps(c, i);
      DroppedMembers(c, i, x);
    }
    hide Dropped;
    assert Put(c, f, ss)[0] == (f, ss);
  }

  lemma DroppedMembers(c: Cache, i: nat, x: (string, int))
    requires i < |c|
    ensures x in Dropped(c, i) ==> x in c
    ensures x in c ==> x in Dropped(c, i) || x == c[i]
  {
    assert c == c[..i] + [c[i]] + c[i + 1..];
  }

  lemma GetFinds(c: Cache, f: string)
    requires CacheOk(c)
    ensures forall v :: (f, v) in c ==> Cached(c, f) && Get(c, f).1 == v
    ensures Cached(c, f) ==> (f, Get(c, f).1) in c
    ensures !Cached(c, f) ==> Get(c, f).1 == -1
  {
    var i := Position(c, f);
    forall v | (f, v) in c ensures i < |c| && c[i].1 == v {
      var l :| 0 <= l < |c| && c[l] == (f, v);
    }
  }

  // ----- the invariant -----

  predicate EntryFits(s: Ns, x: (string, int)) {
    x.0 in s.fileMap && x.1 >= 0 && (x.1 == s.fileMap[x.0] || x.1 == FindReplica(s.replicas, x.0))
  }

  /** A cached file is mapped, and cached at its mapped server or at its replica. */
  predicate CacheFits(s: Ns) {
    forall x :: x in s.cache ==> EntryFits(s, x)
  }

  /** The same of all files but one. */
  predicate OthersFit(s: Ns, f: string) {
    forall x :: x in s.cache && x.0 != f ==> EntryFits(s, x)
  }

  /** Servers are named by their places in the table. */
  predicate InRange(s: Ns) {
    && (s.lastUsed == -1 || 0 <= s.lastUsed < |s.servers|)
    && (forall f :: f in s.fileMap ==> 0 <= s.fileMap[f] < |s.servers|)
    && (forall i :: 0 <= i < |s.replicas| ==> 0 <= s.replicas[i].replica < |s.servers|)
  }

  predicate Inv(s: Ns) {
    CacheOk(s.cache) && CacheFits(s) && InRange(s)
  }

  // ----- one lookup -----

  /** The cache hides a revived server: it still names the replica that stood in for it. */
  predicate Stale(s: Ns, f: string) {
    f in s.fileMap && Cached(s.cache, f)
    && Get(s.cache, f).1 != s.fileMap[f]
    && Alive(s.servers, Get(s.cache, f).1) && Alive(s.servers, s.fileMap[f])
  }

  /**
    A lookup finds a server exactly when the lookup without the cache does, and always a live one. The two
    name the same server except exactly when the entry is stale.
  */
  lemma LookupTransparent(s: Ns, f: string)
    requires Inv(s)
    ensures var found := FindSs(s, f).1;
            && (found >= 0 <==> CacheFree(s, f) >= 0)
            && (found >= 0 ==> Alive(s.servers, found))
            && (found != CacheFree(s, f) <==> Stale(s, f))
  {
    GetFinds(s.cache, f);
    if Cached(s.cache, f) {
      assert (f, Get(s.cache, f).1) in s.cache;
    }
  }

  // ----- steps keep the invariant -----

  lemma FindKeeps(s: Ns, f: string)
    requires Inv(s)
    ensures Inv(FindSs(s, f).0)
    ensures var s' := FindSs(s, f).0; s' == s.(cache := s'.cache)
  {
    var s' := FindSs(s, f).0;
    var got := Get(s.cache, f).0;
    GetKeepsOk(s.cache, f);
    PutKeepsOk(got, f, CacheFree(s, f));
    forall x | x in s'.cache ensures EntryFits(s, x) {
      GetMembers(s.cache, f, x);
      PutMembers(got, f, CacheFree(s, f), x);
    }
  }

  lemma MapAddKeeps(s: Ns, f: string, ss: int)
    requires CacheOk(s.cache) && OthersFit(s, f) && InRange(s) && 0 <= ss < |s.servers|
    ensures Inv(MapAdd(s, f, ss))
    ensures !Cached(MapAdd(s, f, ss).cache, f)
    ensures forall g, v :: (g, v) in MapAdd(s, f, ss).cache ==> (g, v) in s.cache && g != f
  {
    hide Invalidate;
    hide Get;
    hide FindReplica;
    hide CacheOk;
    hide Cached;
    var s' := MapAdd(s, f, ss);
    InvalidateKeepsOk(s.cache, f);
    forall x | x in s'.cache ensures x in s.cache && x.0 != f && EntryFits(s', x) {
      InvalidateMembers(s.cache, f, x);
      assert EntryFits(s, x);
    }
    GetFinds(s'.cache, f);
    assert !Cached(s'.cache, f);
  }

  lemma {:induction false} MapAddAllKeeps(s: Ns, files: seq<string>, ss: int)
    requires Inv(s) && 0 <= ss < |s.servers|
    ensures var s' := MapAddAll(s, files, ss);
            && Inv(s') && s' == s.(cache := s'.cache, fileMap := s'.fileMap)
            && (forall x :: x in s'.cache ==> x in s.cache && x.0 !in files && s'.fileMap[x.0] == s.fileMap[x.0])
    decreases |files|
  {
    hide CacheOk;
    hide InRange;
    hide Invalidate;
    hide FindReplica;
    forall x | x in s.cache ensures x.0 in s.fileMap {
      assert EntryFits(s, x);
    }
    if files != [] {
      var front, f := files[..|files| - 1], files[|files| - 1];
      MapAddAllKeeps(s, front, ss);
      MapAddKeeps(MapAddAll(s, front, ss), f, ss);
      assert files == front + [f];
    }
  }

  lemma AddFileKeeps(s: Ns, ss: int, f: string)
    requires Inv(s)
    ensures Inv(AddFileToSs(s, ss, f))
    ensures !Cached(s.cache, f) ==> !Cached(AddFileToSs(s, ss, f).cache, f)
    ensures 0 <= ss < |s.servers| && |s.servers[ss].files| < MAX_FILES ==> !Cached(AddFileToSs(s, ss, f).cache, f)
    ensures forall x :: x in AddFileToSs(s, ss, f).cache ==>
              x in s.cache && AddFileToSs(s, ss, f).fileMap[x.0] == s.fileMap[x.0]
  {
    if 0 <= ss < |s.servers| && |s.servers[ss].files| < MAX_FILES {
      MapAddKeeps(s.(servers := s.servers[ss := s.servers[ss].(files := s.servers[ss].files + [f])]), f, ss);
    }
  }

  lemma FindAvailableKeeps(s: Ns)
    requires Inv(s)
    ensures Inv(FindAvailable(s).0)
    ensures var (s', ss) := FindAvailable(s);
            && s' == s.(lastUsed := s'.lastUsed)
            && -1 <= ss < |s.servers| && (ss >= 0 ==> Alive(s.servers, ss))
  {
    if s.servers != [] {
      RoundRobin.ChooseIsNext(LiveFlags(s.servers), s.lastUsed);
    }
  }

  lemma {:induction false} SetReplicaFinds(replicas: seq<Replication>, f: string, replica: int, g: string)
    ensures g != f ==> FindReplica(SetReplica(replicas, f, replica), g) == FindReplica(replicas, g)
    ensures |SetReplica(replicas, f, replica)| == |replicas|
    ensures forall i :: 0 <= i < |replicas| ==>
              SetReplica(replicas, f, replica)[i].replica == replicas[i].replica
              || SetReplica(replicas, f, replica)[i].replica == replica
  {
    if replicas != [] {
      SetReplicaFinds(replicas[1..], f, replica, g);
    }
  }

  lemma {:induction false} AppendFinds(replicas: seq<Replication>, r: Replication, g: string)
    requires g != r.file
    ensures FindReplica(replicas + [r], g) == FindReplica(replicas, g)
  {
    if replicas != [] {
      assert (replicas + [r])[1..] == replicas[1..] + [r];
      AppendFinds(replicas[1..], r, g);
    }
  }

  lemma AddReplicationOthers(s: Ns, f: string, primary: int, replica: int)
    requires Inv(s) && 0 <= replica < |s.servers|
    ensures var s' := s.(replicas := AddReplication(s.replicas, f, primary, replica)); OthersFit(s', f) && InRange(s')
  {
    var s' := s.(replicas := AddReplication(s.replicas, f, primary, replica));
    SetReplicaFinds(s.replicas, f, replica, f);
    forall x | x in s.cache && x.0 != f ensures EntryFits(s', x) {
      assert EntryFits(s, x);
      SetReplicaFinds(s.replicas, f, replica, x.0);
      AppendFinds(s.replicas, Replication(f, primary, replica), x.0);
    }
  }

  // ----- creating a file -----

  predicate Room(s: Ns, ss: int) {
    0 <= ss < |s.servers| && |s.servers[ss].files| < MAX_FILES
  }

  /** The two servers that a CREATE picks. */
  function PrimaryOf(s: Ns): int {
    FindAvailable(s).1
  }

  function ReplicaOf(s: Ns): int {
    FindAvailable(FindAvailable(s).0).1
  }

  /** A file is still cached, at another server than the mapped one. */
  predicate CachedElsewhere(s: Ns, f: string) {
    Cached(s.cache, f) && Get(s.cache, f).1 != Mapped(s, f)
  }

  /** The replication step of a CREATE finds a second server. */
  predicate Replicates(s: Ns, primary: int, replica: int) {
    |s.servers| > 1 && replica >= 0 && replica != primary
  }

  /**
    The replication step gives the file a new replica, so what is cached for it must go, or be what is mapped.
    The server it is cached at is dead, as CREATE has found.
  */
  lemma ReplicateKeepsIff(s: Ns, f: string, primary: int, replicaReached: bool)
    requires Inv(s) && (Cached(s.cache, f) ==> !Alive(s.servers, Get(s.cache, f).1))
    ensures var replica := FindAvailable(s).1;
            Inv(Replicate(s, f, primary, replicaReached)) <==>
            (CachedElsewhere(s, f) && Replicates(s, primary, replica) && |s.replicas| < MAX_FILES ==>
               replicaReached && Room(s, replica))
    ensures var s' := Replicate(s, f, primary, replicaReached);
            forall x :: x in s'.cache ==>
              x in s.cache && (x.0 in s.fileMap ==> x.0 in s'.fileMap && s'.fileMap[x.0] == s.fileMap[x.0])
  {
    hide AddReplication;
    hide RoundRobin.Choose;
    FindAvailableKeeps(s);
    var (s1, replica) := FindAvailable(s);
    if Replicates(s, primary, replica) {
      AddReplicationOthers(s1, f, primary, replica);
      var s2 := s1.(replicas := AddReplication(s1.replicas, f, primary, replica));
      if replicaReached && Room(s, replica) {
        PlacedKeeps(s2, replica, f);
      } else {
        UnplacedKeepsIff(s1, f, primary, replica);
      }
    }
  }

  lemma PlacedKeeps(s: Ns, ss: int, f: string)
    requires CacheOk(s.cache) && OthersFit(s, f) && InRange(s) && Room(s, ss)
    ensures var s' := AddFileToSs(s, ss, f);
            Inv(s') && forall x :: x in s'.cache ==>
              x in s.cache && x.0 != f && (x.0 in s.fileMap ==> s'.fileMap[x.0] == s.fileMap[x.0])
  {
    MapAddKeeps(s.(servers := s.servers[ss := s.servers[ss].(files := s.servers[ss].files + [f])]), f, ss);
  }

  lemma UnplacedKeepsIff(s: Ns, f: string, primary: int, replica: int)
    requires Inv(s) && Alive(s.servers, replica) && (Cached(s.cache, f) ==> !Alive(s.servers, Get(s.cache, f).1))
    ensures Inv(s.(replicas := AddReplication(s.replicas, f, primary, replica))) <==>
            (CachedElsewhere(s, f) ==> |s.replicas| >= MAX_FILES)
  {
    var s' := s.(replicas := AddReplication(s.replicas, f, primary, replica));
    AddReplicationOthers(s, f, primary, replica);
    GetFinds(s.cache, f);
    if |s.replicas| < MAX_FILES { ReplicaRecorded(s.replicas, f, primary, replica); }
    hide AddReplication;
    if Cached(s.cache, f) {
      var x := (f, Get(s.cache, f).1);
      assert EntryFits(s, x);
      assert CacheFits(s') <==> EntryFits(s', x) by {
        assert forall y :: y in s'.cache && y.0 == f ==> y == x;
      }
    }
  }

  /**
    A successful CREATE gives the file a new replica and may find no server with room for it. If the file is
    still cached at its old replica, that entry then neither leaves the cache nor fits any longer.
  */
  predicate HasRoom(s: Ns, e: Event)
  {
    e.Create? && Succeeds(Step(s, e).1) && CachedElsewhere(s, e.file) && |s.replicas| < MAX_FILES ==>
      (Replicates(s, PrimaryOf(s), ReplicaOf(s)) ==>
         Room(s, PrimaryOf(s)) || (e.replicaReached && Room(s, ReplicaOf(s))))
  }

  /** What a step does to the entries that stay in the cache. */
  ghost predicate EntriesKept(s: Ns, s': Ns) {
    forall x :: x in s'.cache ==>
      x.0 in s'.fileMap && x.0 in s.fileMap && s'.fileMap[x.0] == s.fileMap[x.0]
  }

  /** A lookup that fails leaves the cache entry of the file, which names a dead server, where it was. */
  lemma FailedLookup(s: Ns, f: string)
    requires Inv(s) && FindSs(s, f).1 < 0
    ensures var s1 := FindSs(s, f).0;
            && Cached(s1.cache, f) == Cached(s.cache, f)
            && (Cached(s.cache, f) ==>
                  Get(s1.cache, f).1 == Get(s.cache, f).1 && !Alive(s.servers, Get(s.cache, f).1))
  {
    var s1 := FindSs(s, f).0;
    FindKeeps(s, f);
    GetFinds(s.cache, f);
    GetFinds(s1.cache, f);
    if Cached(s.cache, f) {
      GetMembers(s.cache, f, (f, Get(s.cache, f).1));
    }
    if Cached(s1.cache, f) {
      GetMembers(s.cache, f, (f, Get(s1.cache, f).1));
    }
    hide Get;
    hide Position;
  }

  /** The first `add_file_to_ss` of CREATE. */
  lemma PrimaryPlaced(s: Ns, f: string, ss: int)
    requires Inv(s) && 0 <= ss < |s.servers|
    ensures var s' := AddFileToSs(s, ss, f);
            && Inv(s') && FindAvailable(s').1 == FindAvailable(s).1 && s'.replicas == s.replicas
            && |s'.servers| == |s.servers| && (forall i :: Alive(s'.servers, i) == Alive(s.servers, i))
            && (forall i :: i != ss ==> Room(s', i) == Room(s, i))
            && (if Room(s, ss) then !Cached(s'.cache, f) && f in s'.fileMap else s' == s)
            && (forall x :: x in s'.cache ==> x in s.cache && x.0 in s'.fileMap && s'.fileMap[x.0] == s.fileMap[x.0])
  {
    hide FindAvailable;
    hide Invalidate;
    hide Get;
    hide Cached;
    hide CacheOk;
    hide InRange;
    hide FindReplica;
    FlagsKept(s, ss, f);
    SameChoice(s, AddFileToSs(s, ss, f));
    forall x | x in s.cache ensures x.0 in s.fileMap {
      assert EntryFits(s, x);
    }
    if Room(s, ss) {
      PlacedKeeps(s, ss, f);
      GetFinds(AddFileToSs(s, ss, f).cache, f);
    }
  }

  lemma CreateKeeps(s: Ns, f: string, reply: int, replicaReached: bool)
    requires Inv(s)
    ensures Inv(CreateStep(s, f, reply, replicaReached).0) <==> HasRoom(s, Create(f, reply, replicaReached))
    ensures var s' := CreateStep(s, f, reply, replicaReached).0;
            forall x :: x in s'.cache ==>
              && (x in FindSs(s, f).0.cache || x in s.cache)
              && x.0 in s.fileMap && x.0 in s'.fileMap && s'.fileMap[x.0] == s.fileMap[x.0]
  {
    hide FindSs;
    hide AddFileToSs;
    hide Replicate;
    hide FindAvailable;
    FindKeeps(s, f);
    var s1 := FindSs(s, f).0;
    FindAvailableSame(s, s1);
    FindAvailableKeeps(s1);
    var (s2, ss) := FindAvailable(s1);
    if Succeeds(CreateStep(s, f, reply, replicaReached).1) {
      FailedLookup(s, f);
      FindAvailableSame(FindAvailable(s).0, s2);
      assert CachedElsewhere(s2, f) == CachedElsewhere(s, f);
      assert forall i :: Room(s2, i) == Room(s, i);
      var s3 := AddFileToSs(s2, ss, f);
      PrimaryPlaced(s2, f, ss);
      ReplicateKeepsIff(s3, f, ss, replicaReached);
    }
    forall x | x in s.cache || x in s1.cache ensures x.0 in s.fileMap {
      assert EntryFits(s, x) || EntryFits(s1, x);
    }
  }

  lemma FindAvailableSame(s: Ns, s': Ns)
    requires s' == s.(cache := s'.cache)
    ensures FindAvailable(s').1 == FindAvailable(s).1
    ensures FindAvailable(s').0 == FindAvailable(s).0.(cache := s'.cache)
  {}

  lemma DeleteKeeps(s: Ns, f: string, allowed: bool, reply: int)
    requires Inv(s)
    ensures Inv(DeleteStep(s, f, allowed, reply).0)
    ensures EntriesKept(s, DeleteStep(s, f, allowed, reply).0)
    ensures forall x :: x in DeleteStep(s, f, allowed, reply).0.cache ==> x in FindSs(s, f).0.cache || x in s.cache
  {
    FindKeeps(s, f);
    hide FindSs;
    UnmapKeeps(FindSs(s, f).0, f);
    hide Invalidate;
    hide CacheFits;
    hide CacheOk;
  }

  lemma UnmapKeeps(s: Ns, f: string)
    requires Inv(s)
    ensures var s' := s.(cache := Invalidate(s.cache, f), fileMap := s.fileMap - {f});
            Inv(s') && EntriesKept(s, s') && forall x :: x in s'.cache ==> x in s.cache
  {
    InvalidateKeepsOk(s.cache, f);
    forall x | x in Invalidate(s.cache, f) ensures x in s.cache && x.0 != f {
      InvalidateMembers(s.cache, f, x);
    }
    hide Invalidate;
  }

  lemma RegisterKeeps(s: Ns, ip: string, nmPort: int, clientPort: int, content: string, now: int)
    requires Inv(s)
    ensures var s' := RegisterStep(s, ip, nmPort, clientPort, content, now).0;
            Inv(s') && EntriesKept(s, s') && forall x :: x in s'.cache ==> x in s.cache
  {
    hide Listing;
    hide MapAddAll;
    var i, files := ServerAt(s.servers, ip, nmPort), Listing(content);
    if i >= 0 {
      var info := s.servers[i].(alive := true, heartbeat := now, clientPort := clientPort, files := files);
      MapAddAllKeeps(s.(servers := s.servers[i := info]), files, i);
    } else if |s.servers| < MAX_STORAGE_SERVERS {
      MapAddAllKeeps(s.(servers := s.servers + [SsInfo(ip, nmPort, clientPort, true, now, files)]), files, |s.servers|);
    }
  }

  /** A step keeps the invariant exactly if it is not a CREATE without room; kept entries keep their mapping. */
  lemma StepKeeps(s: Ns, e: Event)
    requires Inv(s)
    ensures Inv(Step(s, e).0) <==> HasRoom(s, e)
    ensures EntriesKept(s, Step(s, e).0)
  {
    hide FindSs;
    hide CreateStep;
    hide DeleteStep;
    hide RegisterStep;
    match e {
      case Lookup(f) => FindKeeps(s, f);
      case Create(f, reply, replicaReached) => CreateKeeps(s, f, reply, replicaReached);
      case Delete(f, allowed, reply) => DeleteKeeps(s, f, allowed, reply);
      case Register(ip, nmPort, clientPort, content, now) => RegisterKeeps(s, ip, nmPort, clientPort, content, now);
      case Heartbeat(ip, nmPort, now) =>
      case DetectFailures(now) =>
    }
  }

  // ----- where stale entries come from -----

  lemma FindAdds(s: Ns, g: string, x: (string, int))
    requires Inv(s) && x in FindSs(s, g).0.cache
    ensures x in s.cache || (x == (g, CacheFree(s, g)) && CacheFree(s, g) >= 0)
  {
    GetKeepsOk(s.cache, g);
    GetMembers(s.cache, g, x);
    PutMembers(Get(s.cache, g).0, g, CacheFree(s, g), x);
  }

  /** The file that a step looks up. */
  predicate LooksUp(e: Event, g: string) {
    (e.Lookup? || e.Create? || e.Delete?) && e.file == g
  }

  /** A new cache entry is the answer of a cache-free lookup. */
  lemma StepAdds(s: Ns, e: Event, x: (string, int))
    requires Inv(s) && HasRoom(s, e) && x in Step(s, e).0.cache
    ensures x in s.cache || (LooksUp(e, x.0) && x.1 == CacheFree(s, x.0) && x.1 >= 0)
  {
    hide FindSs;
    hide CreateStep;
    hide DeleteStep;
    hide RegisterStep;
    hide CacheFree;
    match e {
      case Lookup(f) => FindAdds(s, f, x);
      case Create(f, reply, replicaReached) =>
        CreateKeeps(s, f, reply, replicaReached);
        if x in FindSs(s, f).0.cache { FindAdds(s, f, x); }
      case Delete(f, allowed, reply) =>
        DeleteKeeps(s, f, allowed, reply);
        if x in FindSs(s, f).0.cache { FindAdds(s, f, x); }
      case Register(ip, nmPort, clientPort, content, now) => RegisterKeeps(s, ip, nmPort, clientPort, content, now);
      case Heartbeat(ip, nmPort, now) =>
      case DetectFailures(now) =>
    }
  }

  lemma AddFileKeepsLiveness(s: Ns, ss: int, f: string, i: int)
    ensures Alive(AddFileToSs(s, ss, f).servers, i) == Alive(s.servers, i)
  {
    hide Invalidate;
  }

  lemma ReplicateKeepsLiveness(s: Ns, f: string, primary: int, replicaReached: bool, i: int)
    requires Inv(s)
    ensures Alive(Replicate(s, f, primary, replicaReached).servers, i) == Alive(s.servers, i)
  {
    FindAvailableKeeps(s);
    var (s1, replica) := FindAvailable(s);
    AddFileKeepsLiveness(s1.(replicas := AddReplication(s1.replicas, f, primary, replica)), replica, f, i);
    hide AddFileToSs;
    hide FindAvailable;
    hide Alive;
  }

  lemma CreateKeepsLiveness(s: Ns, f: string, reply: int, replicaReached: bool, i: int)
    requires Inv(s)
    ensures Alive(CreateStep(s, f, reply, replicaReached).0.servers, i) == Alive(s.servers, i)
  {
    hide FindSs;
    hide FindAvailable;
    hide AddFileToSs;
    hide Replicate;
    hide Alive;
    hide Inv;
    FindKeeps(s, f);
    var s1 := FindSs(s, f).0;
    FindAvailableKeeps(s1);
    var (s2, ss) := FindAvailable(s1);
    AddFileKeepsLiveness(s2, ss, f, i);
    AddFileKeeps(s2, ss, f);
    ReplicateKeepsLiveness(AddFileToSs(s2, ss, f), f, ss, replicaReached, i);
  }

  lemma DeleteKeepsLiveness(s: Ns, f: string, allowed: bool, reply: int, i: int)
    requires Inv(s)
    ensures Alive(DeleteStep(s, f, allowed, reply).0.servers, i) == Alive(s.servers, i)
  {
    FindKeeps(s, f);
    hide FindSs;
  }

  /** Lookups, CREATE and DELETE leave the liveness of every server alone. */
  lemma StepKeepsLiveness(s: Ns, e: Event, i: int)
    requires Inv(s) && (e.Lookup? || e.Create? || e.Delete?)
    ensures Alive(Step(s, e).0.servers, i) == Alive(s.servers, i)
  {
    hide FindSs;
    hide CreateStep;
    hide DeleteStep;
    hide Alive;
    match e {
      case Lookup(f) => FindKeeps(s, f);
      case Create(f, reply, replicaReached) => CreateKeepsLiveness(s, f, reply, replicaReached, i);
      case Delete(f, allowed, reply) => DeleteKeepsLiveness(s, f, allowed, reply, i);
    }
  }

  /** The mapped server lives, but the cache names another one. The entry is stale once that one lives too. */
  predicate Masked(s: Ns, f: string) {
    f in s.fileMap && Cached(s.cache, f) && Get(s.cache, f).1 != s.fileMap[f] && Alive(s.servers, s.fileMap[f])
  }

  /** A masked file was cached before the step, with the same value and the same mapping. */
  lemma MaskedWasCached(s: Ns, e: Event, f: string)
    requires Inv(s) && HasRoom(s, e) && Masked(Step(s, e).0, f)
    ensures var s' := Step(s, e).0;
            && Cached(s.cache, f) && f in s.fileMap
            && Get(s.cache, f).1 == Get(s'.cache, f).1 && s.fileMap[f] == s'.fileMap[f]
    ensures !Masked(s, f) ==> (e.Heartbeat? || e.Register?) && !Alive(s.servers, s.fileMap[f])
  {
    var s' := Step(s, e).0;
    var x := (f, Get(s'.cache, f).1);
    StepKeeps(s, e);
    GetFinds(s'.cache, f);
    StepAdds(s, e, x);
    if e.Lookup? || e.Create? || e.Delete? {
      StepKeepsLiveness(s, e, s'.fileMap[f]);
    }
    GetFinds(s.cache, f);
    hide FindSs;
    hide CreateStep;
    hide DeleteStep;
    hide RegisterStep;
    assert x in s.cache;
    if e.DetectFailures? {
      assert Masked(s, f);
    }
  }

  // ----- runs -----

  const START := Ns([], map[], [], [], -1)

  function After(events: seq<Event>, n: nat): Ns
    requires n <= |events|
  {
    if n == 0 then START else Step(After(events, n - 1), events[n - 1]).0
  }

  /** Every CREATE of the run finds room when it must. */
  predicate Roomy(events: seq<Event>, n: nat)
    requires n <= |events|
  {
    n == 0 || (Roomy(events, n - 1) && HasRoom(After(events, n - 1), events[n - 1]))
  }

  lemma RunStep(events: seq<Event>, n: nat)
    requires 0 < n <= |events|
    ensures After(events, n) == Step(After(events, n - 1), events[n - 1]).0
  {
    hide Step;
  }

  lemma NoCreate(s: Ns, e: Event)
    requires !e.Create?
    ensures HasRoom(s, e)
  {}

  lemma {:induction false} RunPrefix(some: seq<Event>, events: seq<Event>, n: nat)
    requires n <= |some| && some <= events
    ensures After(events, n) == After(some, n) && (Roomy(events, n) <==> Roomy(some, n))
  {
    hide Step;
    hide HasRoom;
    if n > 0 { RunPrefix(some, events, n - 1); }
  }

  predicate InvThroughout(events: seq<Event>, n: nat)
    requires n <= |events|
  {
    Inv(After(events, n)) && (n > 0 ==> InvThroughout(events, n - 1))
  }

  /** The invariant holds in every state of a run exactly if every CREATE of it finds room when it must. */
  lemma {:induction false} InvAlwaysIff(events: seq<Event>, n: nat)
    requires n <= |events|
    ensures InvThroughout(events, n) <==> Roomy(events, n)
  {
    hide HasRoom;
    hide Step;
    if n == 0 {
      StartFits();
    } else {
      hide Inv;
      InvAlwaysIff(events, n - 1);
      if InvThroughout(events, n - 1) {
        StepKeeps(After(events, n - 1), events[n - 1]);
      }
    }
  }

  lemma StartFits()
    ensures Inv(START)
  {}

  lemma InvAlways(events: seq<Event>, n: nat)
    requires n <= |events| && Roomy(events, n)
    ensures Inv(After(events, n))
  {
    hide Inv;
    hide Roomy;
    InvAlwaysIff(events, n);
  }

  /**
    Over whole runs a lookup finds a server exactly when the cache-free lookup does, it names a live one, and
    the two differ exactly on stale entries.
  */
  lemma CacheTransparentAlways(events: seq<Event>, n: nat, f: string)
    requires n <= |events| && Roomy(events, n)
    ensures var s := After(events, n);
            var found := FindSs(s, f).1;
            && (found >= 0 <==> CacheFree(s, f) >= 0)
            && (found >= 0 ==> Alive(s.servers, found))
            && (found != CacheFree(s, f) <==> Stale(s, f))
  {
    InvAlways(events, n);
    LookupTransparent(After(events, n), f);
  }

  /** The file is cached at `v` and mapped to `m` in state `r`. */
  predicate CachedAs(events: seq<Event>, r: nat, f: string, v: int, m: int)
    requires r <= |events|
  {
    var s := After(events, r);
    Cached(s.cache, f) && Get(s.cache, f).1 == v && f in s.fileMap && s.fileMap[f] == m
  }

  /** Event `i` is a heartbeat or a registration that brings the dead server `m` back. */
  predicate Revives(events: seq<Event>, i: nat, m: int)
    requires i < |events|
  {
    && (events[i].Heartbeat? || events[i].Register?)
    && !Alive(After(events, i).servers, m) && Alive(After(events, i + 1).servers, m)
  }

  /** Why a file is masked, in every state of every run. */
  lemma {:induction false} MaskedFromRevival(events: seq<Event>, n: nat, f: string) returns (i: nat)
    requires n <= |events| && Roomy(events, n) && Masked(After(events, n), f)
    ensures var s := After(events, n);
            var v, m := Get(s.cache, f).1, s.fileMap[f];
            && i < n && Revives(events, i, m)
            && forall r :: i <= r <= n ==> CachedAs(events, r, f, v, m)
  {
    hide Step;
    hide Masked;
    StartNotMasked(f);
    var s, e, s' := After(events, n - 1), events[n - 1], After(events, n);
    InvAlways(events, n - 1);
    assert s' == Step(s, e).0 && Roomy(events, n - 1);
    MaskedWasCached(s, e, f);
    MaskedMeans(s', f);
    var v, m := Get(s'.cache, f).1, s'.fileMap[f];
    assert CachedAs(events, n, f, v, m) && CachedAs(events, n - 1, f, v, m);
    if Masked(s, f) {
      i := MaskedFromRevival(events, n - 1, f);
    } else {
      i := n - 1;
    }
    forall r | i <= r <= n ensures CachedAs(events, r, f, v, m) {
      if r < n - 1 { assert r <= n - 1; }
    }
  }

  lemma StartNotMasked(f: string)
    ensures !Masked(START, f)
  {}

  lemma MaskedMeans(s: Ns, f: string)
    requires Masked(s, f)
    ensures Cached(s.cache, f) && f in s.fileMap && Alive(s.servers, s.fileMap[f])
  {}

  /**
    A lookup differs from the cache-free one only because the mapped server died and was revived by an event
    after which the entry stayed in the cache and the mapping stayed what it was.
  */
  lemma DifferenceFromRevival(events: seq<Event>, n: nat, f: string) returns (i: nat)
    requires n <= |events| && Roomy(events, n)
    requires FindSs(After(events, n), f).1 != CacheFree(After(events, n), f)
    ensures var s := After(events, n);
            && f in s.fileMap && i < n && Revives(events, i, s.fileMap[f])
            && forall r :: i <= r <= n ==> CachedAs(events, r, f, FindSs(s, f).1, s.fileMap[f])
  {
    CacheTransparentAlways(events, n, f);
    var s := After(events, n);
    assert Masked(s, f);
    i := MaskedFromRevival(events, n, f);
    assert FindSs(s, f).1 == Get(s.cache, f).1;
  }

  /** A replica chosen while at least two servers live is never the primary itself. */
  lemma ReplicaIsElsewhere(s: Ns)
    requires Inv(s) && |RoundRobin.LiveSet(LiveFlags(s.servers))| >= 2
    ensures var (s1, primary) := FindAvailable(s);
            var replica := FindAvailable(s1).1;
            primary >= 0 && replica >= 0 && replica != primary
  {
    var live := LiveFlags(s.servers);
    SomeLive(live, s.lastUsed);
    FindAvailableKeeps(s);
    PicksTwice(s);
    var primary := FindAvailable(s).1;
    assert live[primary];
    hide *;
    RoundRobin.ReplicaDiffers(live, primary);
    RoundRobin.ChooseBounds(live, primary);
  }

  lemma PicksTwice(s: Ns)
    requires RoundRobin.Choose(LiveFlags(s.servers), s.lastUsed) >= 0
    ensures var live := LiveFlags(s.servers);
            var primary := RoundRobin.Choose(live, s.lastUsed);
            && FindAvailable(s).1 == primary
            && FindAvailable(FindAvailable(s).0).1 == RoundRobin.Choose(live, primary)
  {
    hide RoundRobin.Choose;
  }

  lemma SomeLive(live: seq<bool>, last: int)
    requires -1 <= last && (last == -1 || last < |live|) && |RoundRobin.LiveSet(live)| >= 2
    ensures RoundRobin.Choose(live, last) >= 0
  {
    assert live == [] ==> RoundRobin.LiveSet(live) == {};
    RoundRobin.ChooseIsNext(live, last);
  }

  // ----- recording a replica -----

  lemma FlagsKept(s: Ns, ss: int, f: string)
    ensures LiveFlags(AddFileToSs(s, ss, f).servers) == LiveFlags(s.servers)
    ensures AddFileToSs(s, ss, f).lastUsed == s.lastUsed && AddFileToSs(s, ss, f).replicas == s.replicas
  {}

  lemma SameChoice(s: Ns, s': Ns)
    requires LiveFlags(s'.servers) == LiveFlags(s.servers) && s'.lastUsed == s.lastUsed
    ensures FindAvailable(s').1 == FindAvailable(s).1
  {}

  lemma {:induction false} ReplicaRecorded(replicas: seq<Replication>, f: string, primary: int, replica: int)
    requires |replicas| < MAX_FILES
    ensures FindReplica(AddReplication(replicas, f, primary, replica), f) == replica
  {
    if HasReplication(replicas, f) {
      SetReplicaHits(replicas, f, replica);
    } else {
      AppendHits(replicas, Replication(f, primary, replica));
    }
  }

  lemma {:induction false} SetReplicaHits(replicas: seq<Replication>, f: string, replica: int)
    requires HasReplication(replicas, f)
    ensures FindReplica(SetReplica(replicas, f, replica), f) == replica
  {
    if replicas[0].file != f {
      var i :| 0 <= i < |replicas| && replicas[i].file == f;
      assert replicas[1..][i - 1].file == f;
      SetReplicaHits(replicas[1..], f, replica);
    }
  }

  lemma {:induction false} AppendHits(replicas: seq<Replication>, r: Replication)
    requires !HasReplication(replicas, r.file)
    ensures FindReplica(replicas + [r], r.file) == r.replica
  {
    if replicas != [] {
      assert (replicas + [r])[1..] == replicas[1..] + [r];
      assert replicas[0].file != r.file;
      assert !HasReplication(replicas[1..], r.file) by {
        assert forall i :: 0 <= i < |replicas| - 1 ==> replicas[1..][i] == replicas[i + 1];
      }
      AppendHits(replicas[1..], r);
    }
  }
}
