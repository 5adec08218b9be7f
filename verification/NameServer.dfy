/**
  The name server's file lookup: a cache in front of a file map, with replicas and server liveness behind it
  (nameserver/nameserver.c).
*/
module NameServer {
  import opened Text
  import opened Protocol
  import opened Splitting
  import opened HashTables
  import opened LruCaches
  import RoundRobin

  const HASH_TABLE_SIZE := 1009
  const MAX_FILES := 1000
  const MAX_STORAGE_SERVERS := 10
  const HEARTBEAT_TIMEOUT := 15

  // ----- state -----

  datatype SsInfo = SsInfo(ip: string, nmPort: int, clientPort: int, alive: bool, heartbeat: int, files: seq<string>)

  datatype Replication = Replication(file: string, primary: int, replica: int)

  /** A place in a table, or -1 for none. */
  type Slot = i: int | -1 <= i witness -1

  datatype Ns = Ns(
    cache: Cache,
    fileMap: map<string, int>,
    servers: seq<SsInfo>,
    replicas: seq<Replication>,
    lastUsed: Slot)

  predicate Alive(servers: seq<SsInfo>, i: int) {
    0 <= i < |servers| && servers[i].alive
  }

  function LiveFlags(servers: seq<SsInfo>): seq<bool> {
    seq(|servers|, i requires 0 <= i < |servers| => servers[i].alive)
  }

  /** `find_replica_ss`. */
  function FindReplica(replicas: seq<Replication>, f: string): int {
    if replicas == [] then -1
    else if replicas[0].file == f then replicas[0].replica
    else FindReplica(replicas[1..], f)
  }

  function SetReplica(replicas: seq<Replication>, f: string, replica: int): seq<Replication> {
    if replicas == [] then []
    else if replicas[0].file == f then [replicas[0].(replica := replica)] + replicas[1..]
    else [replicas[0]] + SetReplica(replicas[1..], f, replica)
  }

  predicate HasReplication(replicas: seq<Replication>, f: string) {
    exists i :: 0 <= i < |replicas| && replicas[i].file == f
  }

  /** `add_replication_entry`: a known file keeps its primary; a full table changes nothing. */
  function AddReplication(replicas: seq<Replication>, f: string, primary: int, replica: int): seq<Replication> {
    if |replicas| >= MAX_FILES then replicas
    else if HasReplication(replicas, f) then SetReplica(replicas, f, replica)
    else replicas + [Replication(f, primary, replica)]
  }

  // ----- lookups -----

  function Mapped(s: Ns, f: string): int {
    if f in s.fileMap then s.fileMap[f] else -1
  }

  /** Where the file is found without a cache: its server, else its replica, whichever lives first. */
  function CacheFree(s: Ns, f: string): int {
    var ss := Mapped(s, f);
    if ss >= 0 && !Alive(s.servers, ss) then
      var replica := FindReplica(s.replicas, f);
      if replica >= 0 && Alive(s.servers, replica) then replica else -1
    else ss
  }

  /** `find_ss_for_file`. */
  function FindSs(s: Ns, f: string): (Ns, int) {
    var (cache, cached) := Get(s.cache, f);
    if cached >= 0 && Alive(s.servers, cached) then (s.(cache := cache), cached)
    else
      var ss := CacheFree(s, f);
      (s.(cache := if ss >= 0 then Put(cache, f, ss) else cache), ss)
  }

  // ----- changes -----

  /** `hashmap_add`: a changed mapping leaves the cache. */
  function MapAdd(s: Ns, f: string, ss: int): Ns {
    s.(cache := Invalidate(s.cache, f), fileMap := s.fileMap[f := ss])
  }

  function MapAddAll(s: Ns, files: seq<string>, ss: int): Ns
    decreases |files|
  {
    if files == [] then s
    else MapAdd(MapAddAll(s, files[..|files| - 1], ss), files[|files| - 1], ss)
  }

  /** `add_file_to_ss`: a server with 1000 files takes no more. */
  function AddFileToSs(s: Ns, ss: int, f: string): Ns {
    if 0 <= ss < |s.servers| && |s.servers[ss].files| < MAX_FILES then
      MapAdd(s.(servers := s.servers[ss := s.servers[ss].(files := s.servers[ss].files + [f])]), f, ss)
    else s
  }

  /** `find_available_ss`. */
  function FindAvailable(s: Ns): (Ns, int)
  {
    var ss := RoundRobin.Choose(LiveFlags(s.servers), s.lastUsed);
    (if ss >= 0 then s.(lastUsed := ss) else s, ss)
  }

  /** The codes of a file created. */
  predicate Succeeds(code: int) {
    code == ERR_SUCCESS || code == ERR_CREATED
  }

  /** `reply`: the code the storage server answers with, or the code for a failed exchange with it. */
  datatype Event =
    | Lookup(file: string)
    | Create(file: string, reply: int, replicaReached: bool)
    | Delete(file: string, allowed: bool, reply: int)
    | Register(ip: string, nmPort: int, clientPort: int, content: string, now: int)
    | Heartbeat(ip: string, nmPort: int, now: int)
    | DetectFailures(now: int)

  /** The replication step of CREATE: the second `add_file_to_ss` points the map at the replica. */
  function Replicate(s: Ns, f: string, primary: int, replicaReached: bool): Ns
  {
    if |s.servers| <= 1 then s
    else
      var (s1, replica) := FindAvailable(s);
      if replica < 0 || replica == primary then s1
      else
        var s2 := s1.(replicas := AddReplication(s1.replicas, f, primary, replica));
        if replicaReached then AddFileToSs(s2, replica, f) else s2
  }

  predicate ValidName(f: string) {
    '|' !in f && ',' !in f
  }

  function CreateStep(s: Ns, f: string, reply: int, replicaReached: bool): (Ns, int)
  {
    if !ValidName(f) then (s, ERR_BAD_REQUEST)
    else
      var (s1, existing) := FindSs(s, f);
      if existing >= 0 then (s1, ERR_CONFLICT)
      else
        var (s2, ss) := FindAvailable(s1);
        if ss < 0 then (s2, ERR_SS_UNAVAILABLE)
        else if !Succeeds(reply) then (s2, reply)
        else (Replicate(AddFileToSs(s2, ss, f), f, ss, replicaReached), reply)
  }

  function DeleteStep(s: Ns, f: string, allowed: bool, reply: int): (Ns, int) {
    if !allowed then (s, ERR_ACCESS_DENIED)
    else
      var (s1, ss) := FindSs(s, f);
      if ss < 0 then (s1, ERR_NOT_FOUND)
      else if reply != ERR_SUCCESS then (s1, reply)
      else
        var s2 := s1.(cache := Invalidate(s1.cache, f), fileMap := s1.fileMap - {f});
        (if ss < |s2.servers|
         then s2.(servers := s2.servers[ss := s2.servers[ss].(files := RemoveFirst(s2.servers[ss].files, f))])
         else s2, ERR_SUCCESS)
  }

  /** The server that registered with this address, or -1. */
  function ServerAt(servers: seq<SsInfo>, ip: string, nmPort: int): (i: int)
    ensures -1 <= i < |servers|
  {
    if servers == [] then -1
    else
      var last := |servers| - 1;
      var before := ServerAt(servers[..last], ip, nmPort);
      if before >= 0 then before
      else if servers[last].ip == ip && servers[last].nmPort == nmPort then last else -1
  }

  /** The file names of a registration message: `strtok` by `|`, at most 1000. */
  function Listing(content: string): (files: seq<string>)
    ensures |files| <= MAX_FILES
  {
    var text := if |content| < MAX_CONTENT_LEN then content else content[..MAX_CONTENT_LEN - 1];
    var tokens := Split(text, Exactly('|'));
    if |tokens| <= MAX_FILES then tokens else tokens[..MAX_FILES]
  }

  function RegisterStep(s: Ns, ip: string, nmPort: int, clientPort: int, content: string, now: int): (Ns, int) {
    var i := ServerAt(s.servers, ip, nmPort);
    var files := Listing(content);
    if i >= 0 then
      var info := s.servers[i].(alive := true, heartbeat := now, clientPort := clientPort, files := files);
      (MapAddAll(s.(servers := s.servers[i := info]), files, i), ERR_SUCCESS)
    else if |s.servers| >= MAX_STORAGE_SERVERS then (s, ERR_SERVER_ERROR)
    else
      var info := SsInfo(ip, nmPort, clientPort, true, now, files);
      (MapAddAll(s.(servers := s.servers + [info]), files, |s.servers|), ERR_SUCCESS)
  }

  function HeartbeatStep(s: Ns, ip: string, nmPort: int, now: int): (Ns, int) {
    var i := ServerAt(s.servers, ip, nmPort);
    if i < 0 then (s, ERR_NOT_FOUND)
    else (s.(servers := s.servers[i := s.servers[i].(alive := true, heartbeat := now)]), ERR_SUCCESS)
  }

  function Checked(info: SsInfo, now: int): SsInfo {
    if info.alive && now - info.heartbeat > HEARTBEAT_TIMEOUT then info.(alive := false) else info
  }

  function DetectStep(s: Ns, now: int): Ns {
    s.(servers := seq(|s.servers|, i requires 0 <= i < |s.servers| => Checked(s.servers[i], now)))
  }

  function Step(s: Ns, e: Event): (Ns, int)
  {
    match e
    case Lookup(f) => FindSs(s, f)
    case Create(f, reply, replicaReached) => CreateStep(s, f, reply, replicaReached)
    case Delete(f, allowed, reply) => DeleteStep(s, f, allowed, reply)
    case Register(ip, nmPort, clientPort, content, now) => RegisterStep(s, ip, nmPort, clientPort, content, now)
    case Heartbeat(ip, nmPort, now) => HeartbeatStep(s, ip, nmPort, now)
    case DetectFailures(now) => (DetectStep(s, now), ERR_SUCCESS)
  }

  lemma {:induction false} SetReplicaAt(replicas: seq<Replication>, f: string, replica: int, i: nat)
    requires i <= |replicas| && (forall l :: 0 <= l < i ==> replicas[l].file != f)
    requires i < |replicas| ==> replicas[i].file == f
    ensures HasReplication(replicas, f) <==> i < |replicas|
    ensures i < |replicas| ==> SetReplica(replicas, f, replica) == replicas[i := replicas[i].(replica := replica)]
  {
    if 0 < i < |replicas| {
      SetReplicaAt(replicas[1..], f, replica, i - 1);
    }
  }

  // ----- the server -----

  class NameServer {
    const cache: LruCache
    const fileMap: HashTable<string, int>
    var fileCount: nat
    var servers: seq<SsInfo>
    var replicas: seq<Replication>
    var lastUsed: Slot

    ghost predicate Valid()
      reads this, cache, cache.Repr, fileMap, fileMap.Repr
    {
      && cache.Valid() && fileMap.Valid() && cache.Repr !! fileMap.Repr
      && this !in cache.Repr && this !in fileMap.Repr
      && fileCount == |fileMap.M|
    }

    ghost function State(): Ns
      reads this, cache, fileMap
    {
      Ns(cache.contents, fileMap.M, servers, replicas, lastUsed)
    }

    ghost function Footprint(): set<object>
      reads this, cache, fileMap
    {
      {this} + cache.Repr + fileMap.Repr
    }

    /** `init_registries`. */
    constructor ()
      ensures Valid() && fresh(Footprint())
      ensures State() == Ns([], map[], [], [], -1)
    {
      cache := new LruCache();
      fileMap := new HashTable(HASH_TABLE_SIZE, Hash64);
      fileCount := 0;
      servers, replicas, lastUsed := [], [], -1;
    }

    // The calls into the cache and the map, each seen as a step of the server's state.

    method CacheGet(f: string) returns (ss: int)
      requires Valid()
      modifies Footprint()
      ensures Valid() && fresh(Footprint() - old(Footprint()))
      ensures var (c, v) := Get(old(cache.contents), f); State() == old(State()).(cache := c) && ss == v
    {
      hide HashTable.Valid;
      hide LruCache.Valid;
      ss := cache.LruGet(f);
    }

    method CachePut(f: string, ss: int)
      requires Valid()
      modifies Footprint()
      ensures Valid() && fresh(Footprint() - old(Footprint()))
      ensures State() == old(State()).(cache := Put(old(cache.contents), f, ss))
    {
      hide HashTable.Valid;
      hide LruCache.Valid;
      cache.LruPut(f, ss);
    }

    method CacheInvalidate(f: string)
      requires Valid()
      modifies Footprint()
      ensures Valid() && fresh(Footprint() - old(Footprint()))
      ensures State() == old(State()).(cache := Invalidate(old(cache.contents), f))
    {
      hide HashTable.Valid;
      hide LruCache.Valid;
      cache.LruInvalidate(f);
    }

    method SetServers(next: seq<SsInfo>)
      requires Valid()
      modifies this
      ensures Valid() && Footprint() == old(Footprint())
      ensures State() == old(State()).(servers := next)
    {
      servers := next;
    }

    /** `hashmap_add`. */
    method HashmapAdd(f: string, ss: int)
      requires Valid()
      modifies Footprint()
      ensures Valid() && fresh(Footprint() - old(Footprint()))
      ensures State() == MapAdd(old(State()), f, ss)
    {
      CacheInvalidate(f);
      MapPut(f, ss);
    }

    method MapPut(f: string, ss: int)
      requires Valid()
      modifies Footprint()
      ensures Valid() && fresh(Footprint() - old(Footprint()))
      ensures State() == old(State()).(fileMap := old(fileMap.M)[f := ss])
    {
      hide LruCache.Valid;
      SizeWith(fileMap.M, f, ss);
      var prev, node, j := fileMap.Find(f);
      if node != null {
        fileMap.SetVal(node, j, ss);
      } else {
        fileMap.Prepend(f, ss);
        fileCount := fileCount + 1;
      }
    }

    /** `hashmap_find`. */
    method HashmapFind(f: string) returns (ss: int)
      requires Valid()
      ensures ss == Mapped(State(), f)
    {
      var prev, node, j := fileMap.Find(f);
      return if node != null then node.val else -1;
    }

    /** `hashmap_remove`. */
    method HashmapRemove(f: string)
      requires Valid()
      modifies Footprint()
      ensures Valid() && fresh(Footprint() - old(Footprint()))
      ensures State() == old(State()).(cache := Invalidate(old(cache.contents), f), fileMap := old(fileMap.M) - {f})
    {
      CacheInvalidate(f);
      MapRemove(f);
    }

    method MapRemove(f: string)
      requires Valid()
      modifies Footprint()
      ensures Valid() && fresh(Footprint() - old(Footprint()))
      ensures State() == old(State()).(fileMap := old(fileMap.M) - {f})
    {
      hide HashTable.Valid;
      hide LruCache.Valid;
      ghost var m := fileMap.M;
      SizeWithout(m, f);
      var found := fileMap.Remove(f);
      if found {
        fileCount := fileCount - 1;
      }
    }

    /** `find_replica_ss`. */
    method FindReplicaSs(f: string) returns (replica: int)
      ensures replica == FindReplica(replicas, f)
    {
      var i := 0;
      assert replicas[0..] == replicas;
      while i < |replicas|
        invariant 0 <= i <= |replicas|
        invariant FindReplica(replicas, f) == FindReplica(replicas[i..], f)
      {
        assert replicas[i..][1..] == replicas[i + 1..];
        if replicas[i].file == f {
          return replicas[i].replica;
        }
        i := i + 1;
      }
      return -1;
    }

    /** `find_ss_for_file`. */
    method FindSsForFile(f: string) returns (ss: int)
      requires Valid()
      modifies Footprint()
      ensures Valid() && fresh(Footprint() - old(Footprint()))
      ensures (State(), ss) == FindSs(old(State()), f)
    {
      hide Valid;
      var cached := CacheGet(f);
      if cached >= 0 && Alive(servers, cached) {
        return cached;
      }
      ss := HashmapFind(f);
      if ss >= 0 && !Alive(servers, ss) {
        var replica := FindReplicaSs(f);
        if replica >= 0 && Alive(servers, replica) {
          ss := replica;
        } else {
          return -1;
        }
      }
      if ss >= 0 {
        CachePut(f, ss);
      }
    }

    /** `find_available_ss`. */
    method FindAvailableSs() returns (ss: int)
      requires Valid()
      modifies this
      ensures Valid() && Footprint() == old(Footprint())
      ensures (State(), ss) == FindAvailable(old(State()))
    {
      var n := |servers|;
      if n == 0 {
        return -1;
      }
      ghost var live := LiveFlags(servers);
      var start := (lastUsed + 1) % n;
      var chosen, i := -1, 0;
      while i < n
        invariant 0 <= i <= n && start < n == |servers| == |live| && chosen == -1
        invariant RoundRobin.Choose(live, lastUsed) == RoundRobin.Scan(live, start, i)
        modifies {}
      {
        var idx := (start + i) % n;
        assert live[idx] == servers[idx].alive;
        if servers[idx].alive {
          chosen := idx;
          break;
        }
        i := i + 1;
      }
      if chosen >= 0 {
        lastUsed := chosen;
      }
      return chosen;
    }

    /** `add_file_to_ss`. */
    method AddFile(ss: int, f: string)
      requires Valid()
      modifies Footprint()
      ensures Valid() && fresh(Footprint() - old(Footprint()))
      ensures State() == AddFileToSs(old(State()), ss, f)
    {
      hide Valid;
      if ss < 0 || ss >= |servers| {
        return;
      }
      if |servers[ss].files| < MAX_FILES {
        SetServers(servers[ss := servers[ss].(files := servers[ss].files + [f])]);
        HashmapAdd(f, ss);
      }
    }

    /** `add_replication_entry`. */
    method AddReplicationEntry(f: string, primary: int, replica: int)
      requires Valid()
      modifies this
      ensures Valid() && Footprint() == old(Footprint())
      ensures State() == old(State()).(replicas := AddReplication(old(replicas), f, primary, replica))
    {
      if |replicas| >= MAX_FILES {
        return;
      }
      var i := 0;
      while i < |replicas|
        invariant 0 <= i <= |replicas|
        invariant forall l :: 0 <= l < i ==> replicas[l].file != f
        modifies {}
      {
        if replicas[i].file == f {
          break;
        }
        i := i + 1;
      }
      SetReplicaAt(replicas, f, replica, i);
      hide SetReplica;
      if i < |replicas| {
        replicas := replicas[i := replicas[i].(replica := replica)];
      } else {
        replicas := replicas + [Replication(f, primary, replica)];
      }
    }

    /** The end of `handle_create_request`. */
    method ReplicateFile(f: string, primary: int, replicaReached: bool)
      requires Valid()
      modifies Footprint()
      ensures Valid() && fresh(Footprint() - old(Footprint()))
      ensures State() == Replicate(old(State()), f, primary, replicaReached)
    {
      hide Valid;
      hide AddReplication;
      if |servers| > 1 {
        var replica := FindAvailableSs();
        if replica >= 0 && replica != primary {
          AddReplicationEntry(f, primary, replica);
          if replicaReached {
            AddFile(replica, f);
          }
        }
      }
    }

    /** `handle_create_request`. */
    method HandleCreate(f: string, reply: int, replicaReached: bool) returns (code: int)
      requires Valid()
      modifies Footprint()
      ensures Valid() && fresh(Footprint() - old(Footprint()))
      ensures (State(), code) == CreateStep(old(State()), f, reply, replicaReached)
    {
      hide Valid;
      hide FindSs;
      hide Replicate;
      hide AddFileToSs;
      if !ValidName(f) {
        return ERR_BAD_REQUEST;
      }
      var existing := FindSsForFile(f);
      if existing >= 0 {
        return ERR_CONFLICT;
      }
      var ss := FindAvailableSs();
      if ss < 0 {
        return ERR_SS_UNAVAILABLE;
      }
      if !Succeeds(reply) {
        return reply;
      }
      AddFile(ss, f);
      ReplicateFile(f, ss, replicaReached);
      return reply;
    }

    /** `handle_delete_request`. */
    method HandleDelete(f: string, allowed: bool, reply: int) returns (code: int)
      requires Valid()
      modifies Footprint()
      ensures Valid() && fresh(Footprint() - old(Footprint()))
      ensures (State(), code) == DeleteStep(old(State()), f, allowed, reply)
    {
      hide Valid;
      hide FindSs;
      if !allowed {
        return ERR_ACCESS_DENIED;
      }
      var ss := FindSsForFile(f);
      if ss < 0 {
        return ERR_NOT_FOUND;
      }
      if reply != ERR_SUCCESS {
        return reply;
      }
      HashmapRemove(f);
      if ss < |servers| {
        SetServers(servers[ss := servers[ss].(files := RemoveFirst(servers[ss].files, f))]);
      }
      return ERR_SUCCESS;
    }

    /** The scan for a known address. */
    method FindServer(ip: string, nmPort: int) returns (i: int)
      ensures i == ServerAt(servers, ip, nmPort)
    {
      var l := 0;
      while l < |servers|
        invariant 0 <= l <= |servers|
        invariant ServerAt(servers[..l], ip, nmPort) == -1
      {
        assert servers[..l + 1][..l] == servers[..l];
        if servers[l].ip == ip && servers[l].nmPort == nmPort {
          ServerAtPrefix(servers, l + 1, ip, nmPort);
          return l;
        }
        l := l + 1;
      }
      assert servers[..l] == servers;
      return -1;
    }

    /** The `strtok` loop of a registration. */
    method MapFiles(files: seq<string>, ss: int)
      requires Valid()
      modifies Footprint()
      ensures Valid() && fresh(Footprint() - old(Footprint()))
      ensures State() == MapAddAll(old(State()), files, ss)
    {
      hide Valid;
      hide MapAdd;
      var i := 0;
      assert files[..0] == [];
      while i < |files|
        invariant 0 <= i <= |files|
        invariant Valid() && fresh(Footprint() - old(Footprint()))
        invariant State() == MapAddAll(old(State()), files[..i], ss)
      {
        assert files[..i + 1][..i] == files[..i];
        HashmapAdd(files[i], ss);
        i := i + 1;
      }
      assert files[..i] == files;
    }

    /** `handle_ss_registration`: a known address is a recovery, a new one a new server. */
    method HandleRegistration(ip: string, nmPort: int, clientPort: int, content: string, now: int) returns (code: int)
      requires Valid()
      modifies Footprint()
      ensures Valid() && fresh(Footprint() - old(Footprint()))
      ensures (State(), code) == RegisterStep(old(State()), ip, nmPort, clientPort, content, now)
    {
      hide Valid;
      hide Listing;
      hide MapAddAll;
      var i := FindServer(ip, nmPort);
      var files := Listing(content);
      if i >= 0 {
        SetServers(servers[i := servers[i].(alive := true, heartbeat := now, clientPort := clientPort, files := files)]);
        MapFiles(files, i);
        return ERR_SUCCESS;
      }
      if |servers| >= MAX_STORAGE_SERVERS {
        return ERR_SERVER_ERROR;
      }
      var ss := |servers|;
      SetServers(servers + [SsInfo(ip, nmPort, clientPort, true, now, files)]);
      MapFiles(files, ss);
      return ERR_SUCCESS;
    }

    /** `handle_heartbeat`: the server is alive again; the cache is left as it is. */
    method HandleHeartbeat(ip: string, nmPort: int, now: int) returns (code: int)
      requires Valid()
      modifies this
      ensures Valid() && Footprint() == old(Footprint())
      ensures (State(), code) == HeartbeatStep(old(State()), ip, nmPort, now)
    {
      var i := FindServer(ip, nmPort);
      if i < 0 {
        return ERR_NOT_FOUND;
      }
      SetServers(servers[i := servers[i].(alive := true, heartbeat := now)]);
      return ERR_SUCCESS;
    }

    /** One pass of the failure detection thread. */
    method DetectFailedServers(now: int)
      requires Valid()
      modifies this
      ensures Valid() && Footprint() == old(Footprint())
      ensures State() == DetectStep(old(State()), now)
    {
      var infos := servers;
      var i := 0;
      while i < |infos|
        invariant 0 <= i <= |infos| == |servers|
        invariant forall l :: 0 <= l < i ==> infos[l] == Checked(servers[l], now)
        invariant forall l :: i <= l < |infos| ==> infos[l] == servers[l]
        modifies {}
      {
        if infos[i].alive && now - infos[i].heartbeat > HEARTBEAT_TIMEOUT {
          infos := infos[i := infos[i].(alive := false)];
        }
        i := i + 1;
      }
      SetServers(infos);
    }

    /** Every event of the name server is the step of its state. */
    method Handle(e: Event) returns (code: int)
      requires Valid()
      modifies Footprint()
      ensures Valid() && fresh(Footprint() - old(Footprint()))
      ensures (State(), code) == Step(old(State()), e)
    {
      hide Valid;
      hide FindSs;
      hide CreateStep;
      hide DeleteStep;
      hide RegisterStep;
      hide HeartbeatStep;
      hide DetectStep;
      match e {
        case Lookup(f) =>
          code := FindSsForFile(f);
        case Create(f, reply, replicaReached) =>
          code := HandleCreate(f, reply, replicaReached);
        case Delete(f, allowed, reply) =>
          code := HandleDelete(f, allowed, reply);
        case Register(ip, nmPort, clientPort, content, now) =>
          code := HandleRegistration(ip, nmPort, clientPort, content, now);
        case Heartbeat(ip, nmPort, now) =>
          code := HandleHeartbeat(ip, nmPort, now);
        case DetectFailures(now) =>
          DetectFailedServers(now);
          code := ERR_SUCCESS;
      }
    }
  }

  lemma {:induction false} ServerAtPrefix(servers: seq<SsInfo>, n: nat, ip: string, nmPort: int)
    requires n <= |servers| && ServerAt(servers[..n], ip, nmPort) >= 0
    ensures ServerAt(servers, ip, nmPort) == ServerAt(servers[..n], ip, nmPort)
    decreases |servers|
  {
    if n == |servers| {
      assert servers[..n] == servers;
    } else {
      var front := servers[..|servers| - 1];
      assert front[..n] == servers[..n];
      ServerAtPrefix(front, n, ip, nmPort);
    }
  }
}
