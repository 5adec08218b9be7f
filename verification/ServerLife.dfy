/** Which storage servers the name server knows and believes to live, over whole runs. */
module ServerLife {
  import opened Text
  import opened Protocol
  import LruCaches
  import opened NameServer
  import opened CacheRuns
  import opened CacheLimits
  import opened FileLife
  import RoundRobin

  // ----- the record of an address -----

  /** The record of a server under its address. */
  function RecordOf(servers: seq<SsInfo>, ip: string, nmPort: int): Option<SsInfo> {
    var i := ServerAt(servers, ip, nmPort);
    if i >= 0 then Some(servers[i]) else None
  }

  /** Some server has the address. */
  predicate Known(servers: seq<SsInfo>, ip: string, nmPort: int) {
    exists i :: 0 <= i < |servers| && At(servers[i], ip, nmPort)
  }

  /** The server of that address is believed to live. */
  predicate Lives(servers: seq<SsInfo>, ip: string, nmPort: int) {
    exists i :: 0 <= i < |servers| && At(servers[i], ip, nmPort) && servers[i].alive
  }

  lemma RecordAt(servers: seq<SsInfo>, ip: string, nmPort: int)
    requires DistinctServers(servers)
    ensures RecordOf(servers, ip, nmPort).None? <==> ServerAt(servers, ip, nmPort) == -1
    ensures RecordOf(servers, ip, nmPort).Some? <==> Known(servers, ip, nmPort)
    ensures RecordOf(servers, ip, nmPort).Some? && RecordOf(servers, ip, nmPort).value.alive <==>
            Lives(servers, ip, nmPort)
    ensures forall i :: 0 <= i < |servers| && At(servers[i], ip, nmPort) ==>
              RecordOf(servers, ip, nmPort) == Some(servers[i])
  {
    ServerAtFinds(servers, ip, nmPort);
    forall i | 0 <= i < |servers| && At(servers[i], ip, nmPort) ensures ServerAt(servers, ip, nmPort) == i {
      ServerAtOwn(servers, i);
    }
    hide ServerAt;
  }

  /** What lookups, CREATE, DELETE and the checks of the time leave of a record. */
  predicate SameServer(a: SsInfo, b: SsInfo) {
    a.ip == b.ip && a.nmPort == b.nmPort && a.clientPort == b.clientPort && a.heartbeat == b.heartbeat
  }

  predicate SameServers(servers: seq<SsInfo>, next: seq<SsInfo>) {
    |servers| == |next| && forall i :: 0 <= i < |servers| ==>
      SameServer(servers[i], next[i]) && next[i].alive == servers[i].alive
  }

  // ----- one step -----

  /** A registration or a heartbeat from the address that is accepted. */
  predicate Beats(s: Ns, e: Event, ip: string, nmPort: int) {
    (e.Register? || e.Heartbeat?) && e.ip == ip && e.nmPort == nmPort && Step(s, e).1 == ERR_SUCCESS
  }

  /** A check of the time more than 15 seconds after `beat`. */
  predicate Silences(e: Event, beat: int) {
    e.DetectFailures? && e.now - beat > 15
  }

  lemma AddFileSame(s: Ns, ss: int, f: string)
    ensures SameServers(s.servers, AddFileToSs(s, ss, f).servers)
  {
    hide LruCaches.Invalidate;
  }

  lemma ReplicateSame(s: Ns, f: string, primary: int, replicaReached: bool)
    ensures SameServers(s.servers, Replicate(s, f, primary, replicaReached).servers)
  {
    hide AddFileToSs;
    hide AddReplication;
    hide RoundRobin.Choose;
    var (s1, replica) := FindAvailable(s);
    AddFileSame(s1.(replicas := AddReplication(s1.replicas, f, primary, replica)), replica, f);
  }

  lemma CreateSame(s: Ns, f: string, reply: int, replicaReached: bool)
    ensures SameServers(s.servers, CreateStep(s, f, reply, replicaReached).0.servers)
  {
    hide FindSs;
    hide AddFileToSs;
    hide Replicate;
    hide RoundRobin.Choose;
    LookupTouchesCache(s, f);
    var (s2, ss) := FindAvailable(FindSs(s, f).0);
    AddFileSame(s2, ss, f);
    ReplicateSame(AddFileToSs(s2, ss, f), f, ss, replicaReached);
  }

  lemma DeleteSame(s: Ns, f: string, allowed: bool, reply: int)
    ensures SameServers(s.servers, DeleteStep(s, f, allowed, reply).0.servers)
  {
    LookupTouchesCache(s, f);
    hide FindSs;
    hide LruCaches.Invalidate;
  }

  lemma QuietStep(s: Ns, e: Event)
    requires e.Lookup? || e.Create? || e.Delete?
    ensures SameServers(s.servers, Step(s, e).0.servers)
  {
    hide FindSs;
    hide CreateStep;
    hide DeleteStep;
    match e {
      case Lookup(f) => LookupTouchesCache(s, f);
      case Create(f, reply, replicaReached) => CreateSame(s, f, reply, replicaReached);
      case Delete(f, allowed, reply) => DeleteSame(s, f, allowed, reply);
    }
  }

  lemma ServersAfterRegister(s: Ns, e: Event)
    requires e.Register?
    ensures var i, next := ServerAt(s.servers, e.ip, e.nmPort), Step(s, e).0.servers;
            if i >= 0 then
              |next| == |s.servers| && (forall j :: 0 <= j < |next| && j != i ==> next[j] == s.servers[j])
              && next[i] == SsInfo(e.ip, e.nmPort, e.clientPort, true, e.now, Listing(e.content))
              && Step(s, e).1 == ERR_SUCCESS
            else if |s.servers| >= 10 then next == s.servers && Step(s, e).1 == ERR_SERVER_ERROR
            else
              next == s.servers + [SsInfo(e.ip, e.nmPort, e.clientPort, true, e.now, Listing(e.content))]
              && Step(s, e).1 == ERR_SUCCESS
  {
    hide Listing;
    hide MapAddAll;
    ServerAtFinds(s.servers, e.ip, e.nmPort);
    var i, files := ServerAt(s.servers, e.ip, e.nmPort), Listing(e.content);
    if i >= 0 {
      var info := s.servers[i].(alive := true, heartbeat := e.now, clientPort := e.clientPort, files := files);
      MapAddAllServers(s.(servers := s.servers[i := info]), files, i);
    } else {
      var info := SsInfo(e.ip, e.nmPort, e.clientPort, true, e.now, files);
      MapAddAllServers(s.(servers := s.servers + [info]), files, |s.servers|);
    }
    hide ServerAt;
  }

  lemma {:induction false} ServerAtPrefixed(servers: seq<SsInfo>, info: SsInfo, ip: string, nmPort: int)
    ensures ServerAt(servers + [info], ip, nmPort) ==
            if ServerAt(servers, ip, nmPort) >= 0 then ServerAt(servers, ip, nmPort)
            else if At(info, ip, nmPort) then |servers| else -1
  {
    assert (servers + [info])[..|servers|] == servers;
  }

  /** The record of an address after one step. */
  predicate NextRecord(s: Ns, e: Event, ip: string, nmPort: int) {
    var was, next := RecordOf(s.servers, ip, nmPort), RecordOf(Step(s, e).0.servers, ip, nmPort);
    if Beats(s, e, ip, nmPort) then
      && next.Some? && next.value.alive && next.value.heartbeat == e.now
      && (e.Register? ==> next.value.clientPort == e.clientPort && next.value.files == Listing(e.content))
      && (e.Heartbeat? ==> was.Some? && next.value.clientPort == was.value.clientPort)
    else
      && (next.Some? <==> was.Some?)
      && (was.Some? ==>
            && next.value.heartbeat == was.value.heartbeat && next.value.clientPort == was.value.clientPort
            && next.value.alive == (was.value.alive && !Silences(e, was.value.heartbeat)))
  }

  lemma ReplacedRecord(servers: seq<SsInfo>, next: seq<SsInfo>, i: nat, ip: string, nmPort: int)
    requires i < |servers| == |next| && SameAddresses(servers, next)
    requires forall j :: 0 <= j < |next| && j != i ==> next[j] == servers[j]
    requires ServerAt(servers, next[i].ip, next[i].nmPort) == i
    ensures RecordOf(next, ip, nmPort) ==
            if At(next[i], ip, nmPort) then Some(next[i]) else RecordOf(servers, ip, nmPort)
  {
    AddressesAt(servers, next, ip, nmPort);
    ServerAtFinds(servers, ip, nmPort);
    hide ServerAt;
  }

  lemma AppendedRecord(servers: seq<SsInfo>, info: SsInfo, ip: string, nmPort: int)
    requires ServerAt(servers, info.ip, info.nmPort) == -1
    ensures RecordOf(servers + [info], ip, nmPort) ==
            if At(info, ip, nmPort) then Some(info) else RecordOf(servers, ip, nmPort)
  {
    ServerAtPrefixed(servers, info, ip, nmPort);
    hide ServerAt;
  }

  /** What is on record of an address after a registration. */
  predicate RegisterNext(s: Ns, e: Event, ip: string, nmPort: int)
    requires e.Register?
  {
    RecordOf(Step(s, e).0.servers, ip, nmPort) ==
      if Step(s, e).1 == ERR_SUCCESS && e.ip == ip && e.nmPort == nmPort
      then Some(SsInfo(ip, nmPort, e.clientPort, true, e.now, Listing(e.content)))
      else RecordOf(s.servers, ip, nmPort)
  }

  lemma KnownRegisters(s: Ns, e: Event, ip: string, nmPort: int)
    requires e.Register? && ServerAt(s.servers, e.ip, e.nmPort) >= 0
    ensures RegisterNext(s, e, ip, nmPort)
  {
    ServersAfterRegister(s, e);
    ServerAtFinds(s.servers, e.ip, e.nmPort);
    hide Step;
    hide Listing;
    hide ServerAt;
    ReplacedRecord(s.servers, Step(s, e).0.servers, ServerAt(s.servers, e.ip, e.nmPort), ip, nmPort);
    hide RecordOf;
  }

  lemma NewRegisters(s: Ns, e: Event, ip: string, nmPort: int)
    requires e.Register? && ServerAt(s.servers, e.ip, e.nmPort) < 0
    ensures RegisterNext(s, e, ip, nmPort)
  {
    ServersAfterRegister(s, e);
    AtLeastNone(s.servers, e.ip, e.nmPort);
    hide Step;
    hide Listing;
    hide ServerAt;
    hide RecordOf;
    if |s.servers| < 10 {
      var info := SsInfo(e.ip, e.nmPort, e.clientPort, true, e.now, Listing(e.content));
      AppendedRecord(s.servers, info, ip, nmPort);
    }
  }

  lemma AtLeastNone(servers: seq<SsInfo>, ip: string, nmPort: int)
    ensures ServerAt(servers, ip, nmPort) >= -1
  {}

  lemma RegisterRecord(s: Ns, e: Event, ip: string, nmPort: int)
    requires e.Register?
    ensures NextRecord(s, e, ip, nmPort)
  {
    hide Step;
    hide Listing;
    hide RecordOf;
    if ServerAt(s.servers, e.ip, e.nmPort) >= 0 {
      KnownRegisters(s, e, ip, nmPort);
    } else {
      NewRegisters(s, e, ip, nmPort);
    }
    hide ServerAt;
  }

  lemma {:induction false} AddressesAt(servers: seq<SsInfo>, next: seq<SsInfo>, ip: string, nmPort: int)
    requires SameAddresses(servers, next)
    ensures ServerAt(next, ip, nmPort) == ServerAt(servers, ip, nmPort)
  {
    if servers != [] {
      var last := |servers| - 1;
      assert SameAddresses(servers[..last], next[..last]);
      AddressesAt(servers[..last], next[..last], ip, nmPort);
    }
  }

  lemma HeartbeatRecord(s: Ns, e: Event, ip: string, nmPort: int)
    requires DistinctServers(s.servers) && e.Heartbeat?
    ensures NextRecord(s, e, ip, nmPort)
  {
    ServerAtFinds(s.servers, e.ip, e.nmPort);
    ServerAtFinds(s.servers, ip, nmPort);
    AddressesAt(s.servers, Step(s, e).0.servers, ip, nmPort);
    hide ServerAt;
    hide Listing;
  }

  lemma CheckRecord(s: Ns, e: Event, ip: string, nmPort: int)
    requires e.DetectFailures?
    ensures NextRecord(s, e, ip, nmPort)
  {
    AddressesAt(s.servers, Step(s, e).0.servers, ip, nmPort);
    hide ServerAt;
    hide Listing;
  }

  lemma QuietRecord(s: Ns, e: Event, ip: string, nmPort: int)
    requires e.Lookup? || e.Create? || e.Delete?
    ensures NextRecord(s, e, ip, nmPort)
  {
    QuietStep(s, e);
    hide Step;
    AddressesAt(s.servers, Step(s, e).0.servers, ip, nmPort);
    hide ServerAt;
    hide Listing;
  }

  lemma StepRecord(s: Ns, e: Event, ip: string, nmPort: int)
    requires DistinctServers(s.servers)
    ensures NextRecord(s, e, ip, nmPort)
  {
    hide *;
    match e {
      case Register(_, _, _, _, _) => RegisterRecord(s, e, ip, nmPort);
      case Heartbeat(_, _, _) => HeartbeatRecord(s, e, ip, nmPort);
      case DetectFailures(_) => CheckRecord(s, e, ip, nmPort);
      case Lookup(_) => QuietRecord(s, e, ip, nmPort);
      case Create(_, _, _) => QuietRecord(s, e, ip, nmPort);
      case Delete(_, _, _) => QuietRecord(s, e, ip, nmPort);
    }
  }

  // ----- runs -----

  /** Event `i` is the last registration or heartbeat of the address before state `n`. */
  predicate LastBeat(events: seq<Event>, i: nat, n: nat, ip: string, nmPort: int)
    requires i < n <= |events|
  {
    && Beats(After(events, i), events[i], ip, nmPort)
    && forall r :: i < r < n ==> !Beats(After(events, r), events[r], ip, nmPort)
  }

  ghost predicate EverBeats(events: seq<Event>, n: nat, ip: string, nmPort: int)
    requires n <= |events|
  {
    exists i: nat :: i < n && LastBeat(events, i, n, ip, nmPort)
  }

  /** No check up to `n` finds more than 15 seconds gone since event `i`. */
  predicate Heard(events: seq<Event>, i: nat, n: nat)
    requires i < n <= |events| && (events[i].Register? || events[i].Heartbeat?)
  {
    forall r :: i < r < n ==> !Silences(events[r], events[i].now)
  }

  /** The record since the last beat. */
  lemma {:induction false} RecordSince(events: seq<Event>, i: nat, n: nat, ip: string, nmPort: int)
    requires i < n <= |events| && LastBeat(events, i, n, ip, nmPort)
    ensures events[i].Register? || events[i].Heartbeat?
    ensures var record := RecordOf(After(events, n).servers, ip, nmPort);
            && record.Some? && record.value.heartbeat == events[i].now
            && (record.value.alive <==> Heard(events, i, n))
    decreases n
  {
    hide Step;
    hide After;
    hide RecordOf;
    hide DistinctServers;
    RunStep(events, n);
    DistinctAlways(events, n - 1);
    StepRecord(After(events, n - 1), events[n - 1], ip, nmPort);
    if i < n - 1 {
      assert LastBeat(events, i, n - 1, ip, nmPort);
      RecordSince(events, i, n - 1, ip, nmPort);
    }
  }

  lemma EverBeatsStep(events: seq<Event>, n: nat, ip: string, nmPort: int)
    requires 0 < n <= |events|
    ensures EverBeats(events, n, ip, nmPort) <==>
            Beats(After(events, n - 1), events[n - 1], ip, nmPort) || EverBeats(events, n - 1, ip, nmPort)
  {
    hide After;
    hide Beats;
    if Beats(After(events, n - 1), events[n - 1], ip, nmPort) {
      assert LastBeat(events, n - 1, n, ip, nmPort);
    } else if EverBeats(events, n, ip, nmPort) {
      var i: nat :| i < n && LastBeat(events, i, n, ip, nmPort);
      assert LastBeat(events, i, n - 1, ip, nmPort);
    }
    if EverBeats(events, n - 1, ip, nmPort) && !Beats(After(events, n - 1), events[n - 1], ip, nmPort) {
      var i: nat :| i < n - 1 && LastBeat(events, i, n - 1, ip, nmPort);
      assert LastBeat(events, i, n, ip, nmPort);
    }
  }

  lemma {:induction false} KnownIfBeats(events: seq<Event>, n: nat, ip: string, nmPort: int)
    requires n <= |events|
    ensures RecordOf(After(events, n).servers, ip, nmPort).Some? <==> EverBeats(events, n, ip, nmPort)
    decreases n
  {
    if n > 0 {
      hide *;
      RunStep(events, n);
      DistinctAlways(events, n - 1);
      StepRecord(After(events, n - 1), events[n - 1], ip, nmPort);
      KnownIfBeats(events, n - 1, ip, nmPort);
      EverBeatsStep(events, n, ip, nmPort);
      NextKnown(After(events, n - 1), events[n - 1], ip, nmPort);
    }
  }

  lemma NextKnown(s: Ns, e: Event, ip: string, nmPort: int)
    requires NextRecord(s, e, ip, nmPort)
    ensures RecordOf(Step(s, e).0.servers, ip, nmPort).Some? <==>
            Beats(s, e, ip, nmPort) || RecordOf(s.servers, ip, nmPort).Some?
  {
    hide Step;
    hide RecordOf;
    hide Beats;
  }

  /** The address's last registration or heartbeat, and no check since that found it more than 15 seconds old. */
  ghost predicate HeardLately(events: seq<Event>, n: nat, ip: string, nmPort: int)
    requires n <= |events|
  {
    exists i: nat :: i < n && LastBeat(events, i, n, ip, nmPort) && HeardSince(events, i, n)
  }

  predicate HeardSince(events: seq<Event>, i: nat, n: nat)
    requires i < n <= |events|
  {
    (events[i].Register? || events[i].Heartbeat?) && Heard(events, i, n)
  }

  /**
    Over every run a server is believed to live exactly if no check since its last registration or heartbeat
    came more than 15 seconds after it.
  */
  lemma LivesIff(events: seq<Event>, n: nat, ip: string, nmPort: int)
    requires n <= |events|
    ensures Lives(After(events, n).servers, ip, nmPort) <==> HeardLately(events, n, ip, nmPort)
  {
    hide *;
    DistinctAlways(events, n);
    RecordAt(After(events, n).servers, ip, nmPort);
    KnownIfBeats(events, n, ip, nmPort);
    if EverBeats(events, n, ip, nmPort) {
      var i := SomeBeat(events, n, ip, nmPort);
      RecordSince(events, i, n, ip, nmPort);
      OneLastBeat(events, i, n, ip, nmPort);
    } else {
      NeverHeard(events, n, ip, nmPort);
    }
  }

  lemma SomeBeat(events: seq<Event>, n: nat, ip: string, nmPort: int) returns (i: nat)
    requires n <= |events| && EverBeats(events, n, ip, nmPort)
    ensures i < n && LastBeat(events, i, n, ip, nmPort)
  {
    i :| i < n && LastBeat(events, i, n, ip, nmPort);
  }

  lemma OneLastBeat(events: seq<Event>, i: nat, n: nat, ip: string, nmPort: int)
    requires i < n <= |events| && LastBeat(events, i, n, ip, nmPort)
    requires events[i].Register? || events[i].Heartbeat?
    ensures HeardLately(events, n, ip, nmPort) <==> Heard(events, i, n)
  {
    hide After;
    hide Beats;
    hide Heard;
    if HeardLately(events, n, ip, nmPort) {
      var j: nat :| j < n && LastBeat(events, j, n, ip, nmPort) && HeardSince(events, j, n);
      assert i == j;
    }
    if Heard(events, i, n) { assert HeardSince(events, i, n); }
  }

  lemma NeverHeard(events: seq<Event>, n: nat, ip: string, nmPort: int)
    requires n <= |events| && !EverBeats(events, n, ip, nmPort)
    ensures !HeardLately(events, n, ip, nmPort)
  {
    hide LastBeat;
    hide HeardSince;
  }

  // ----- registrations -----

  predicate RegisteredAt(events: seq<Event>, i: nat, ip: string, nmPort: int)
    requires i < |events|
  {
    events[i].Register? && Beats(After(events, i), events[i], ip, nmPort)
  }

  ghost predicate EverRegistered(events: seq<Event>, n: nat, ip: string, nmPort: int)
    requires n <= |events|
  {
    exists i: nat :: i < n && RegisteredAt(events, i, ip, nmPort)
  }

  lemma BeatNeedsRecord(s: Ns, e: Event, ip: string, nmPort: int)
    requires e.Heartbeat? && NextRecord(s, e, ip, nmPort) && Beats(s, e, ip, nmPort)
    ensures RecordOf(s.servers, ip, nmPort).Some?
  {
    hide Step;
    hide RecordOf;
    hide Beats;
  }

  /** An address is known exactly if a registration from it was accepted. */
  lemma {:induction false} KnownIff(events: seq<Event>, n: nat, ip: string, nmPort: int)
    requires n <= |events|
    ensures Known(After(events, n).servers, ip, nmPort) <==> EverRegistered(events, n, ip, nmPort)
    decreases n
  {
    hide *;
    DistinctAlways(events, n);
    RecordAt(After(events, n).servers, ip, nmPort);
    if n > 0 {
      RunStep(events, n);
      var s, e := After(events, n - 1), events[n - 1];
      DistinctAlways(events, n - 1);
      RecordAt(s.servers, ip, nmPort);
      StepRecord(s, e, ip, nmPort);
      NextKnown(s, e, ip, nmPort);
      KnownIff(events, n - 1, ip, nmPort);
      EverRegisteredStep(events, n, ip, nmPort);
      BeatKinds(s, e, ip, nmPort);
      if e.Heartbeat? && Beats(s, e, ip, nmPort) { BeatNeedsRecord(s, e, ip, nmPort); }
    } else {
      NobodyKnown(events, ip, nmPort);
    }
  }

  lemma BeatKinds(s: Ns, e: Event, ip: string, nmPort: int)
    ensures Beats(s, e, ip, nmPort) ==> e.Register? || e.Heartbeat?
  {
    hide Step;
  }

  lemma NobodyKnown(events: seq<Event>, ip: string, nmPort: int)
    ensures !Known(After(events, 0).servers, ip, nmPort) && !EverRegistered(events, 0, ip, nmPort)
  {}

  lemma EverRegisteredStep(events: seq<Event>, n: nat, ip: string, nmPort: int)
    requires 0 < n <= |events|
    ensures EverRegistered(events, n, ip, nmPort) <==>
            (events[n - 1].Register? && Beats(After(events, n - 1), events[n - 1], ip, nmPort))
            || EverRegistered(events, n - 1, ip, nmPort)
  {
    hide After;
    hide Beats;
    assert RegisteredAt(events, n - 1, ip, nmPort) <==>
           events[n - 1].Register? && Beats(After(events, n - 1), events[n - 1], ip, nmPort);
    hide RegisteredAt;
  }

  /**
    What registrations and heartbeats are answered, over every run: a heartbeat is accepted exactly if a
    registration from its address was; a registration also as long as fewer than ten servers are known.
  */
  lemma BeatAnswers(events: seq<Event>, n: nat, e: Event)
    requires n <= |events| && (e.Register? || e.Heartbeat?)
    ensures var s := After(events, n);
            var known := EverRegistered(events, n, e.ip, e.nmPort);
            Step(s, e).1 == if known || (e.Register? && |s.servers| < 10) then ERR_SUCCESS
                            else if e.Register? then ERR_SERVER_ERROR else ERR_NOT_FOUND
  {
    KnownIff(events, n, e.ip, e.nmPort);
    DistinctAlways(events, n);
    var s := After(events, n);
    RecordAt(s.servers, e.ip, e.nmPort);
    if e.Register? { ServersAfterRegister(s, e); }
    hide After;
    hide Known;
    hide EverRegistered;
    hide DistinctServers;
    hide RegisterStep;
  }

  /** Whoever registers is believed to live, under its own place in the table, whatever was known of it before. */
  lemma RegisteredLives(s: Ns, e: Event)
    requires e.Register? && Step(s, e).1 == ERR_SUCCESS
    ensures var next, ss := Step(s, e).0.servers, Target(s, e);
            && Alive(next, ss) && At(next[ss], e.ip, e.nmPort)
            && next[ss].clientPort == e.clientPort && next[ss].files == Listing(e.content)
  {
    ServersAfterRegister(s, e);
    hide Step;
    hide Listing;
    hide ServerAt;
  }

  /** The port that clients are sent to is the one of the last accepted registration from the address. */
  lemma {:induction false} PortSince(events: seq<Event>, i: nat, n: nat, ip: string, nmPort: int)
    requires i < n <= |events| && RegisteredAt(events, i, ip, nmPort)
    requires forall r :: i < r < n ==> !RegisteredAt(events, r, ip, nmPort)
    ensures events[i].Register?
    ensures var record := RecordOf(After(events, n).servers, ip, nmPort);
            record.Some? && record.value.clientPort == events[i].clientPort
    decreases n
  {
    hide Step;
    hide After;
    hide RecordOf;
    hide DistinctServers;
    hide Listing;
    RunStep(events, n);
    DistinctAlways(events, n - 1);
    StepRecord(After(events, n - 1), events[n - 1], ip, nmPort);
    if i < n - 1 {
      PortSince(events, i, n - 1, ip, nmPort);
      assert !RegisteredAt(events, n - 1, ip, nmPort);
    }
  }

  // ----- what this means for lookups -----

  /** A place in the table keeps its address for ever. */
  lemma PlaceKeepsAddress(s: Ns, e: Event, i: nat)
    requires i < |s.servers|
    ensures var next := Step(s, e).0.servers; i < |next| && At(next[i], s.servers[i].ip, s.servers[i].nmPort)
  {
    hide Step;
    match e {
      case Register(_, _, _, _, _) => ServersAfterRegister(s, e); ServerAtFinds(s.servers, e.ip, e.nmPort);
      case Heartbeat(_, _, _) => HeartbeatPlaces(s, e);
      case DetectFailures(_) => HeartbeatPlaces(s, e);
      case Lookup(_) => QuietStep(s, e);
      case Create(_, _, _) => QuietStep(s, e);
      case Delete(_, _, _) => QuietStep(s, e);
    }
  }

  lemma HeartbeatPlaces(s: Ns, e: Event)
    requires e.Heartbeat? || e.DetectFailures?
    ensures SameAddresses(s.servers, Step(s, e).0.servers)
  {
    ServerAtFinds(s.servers, if e.Heartbeat? then e.ip else "", if e.Heartbeat? then e.nmPort else 0);
    hide ServerAt;
  }

  /** A place in the table is live exactly if its address was heard of lately. */
  lemma AliveIff(events: seq<Event>, n: nat, i: int)
    requires n <= |events|
    ensures var servers := After(events, n).servers;
            Alive(servers, i) <==> 0 <= i < |servers| && HeardLately(events, n, servers[i].ip, servers[i].nmPort)
  {
    var servers := After(events, n).servers;
    if 0 <= i < |servers| {
      LivesIff(events, n, servers[i].ip, servers[i].nmPort);
      DistinctAlways(events, n);
      RecordAt(servers, servers[i].ip, servers[i].nmPort);
      assert At(servers[i], servers[i].ip, servers[i].nmPort);
      hide After;
      hide HeardLately;
      hide RecordOf;
    }
  }

  /** The server at this place was heard of lately. */
  ghost predicate PlaceHeard(events: seq<Event>, n: nat, i: int)
    requires n <= |events|
  {
    var servers := After(events, n).servers;
    0 <= i < |servers| && HeardLately(events, n, servers[i].ip, servers[i].nmPort)
  }

  /**
    Which files a client can reach, over every run and by history alone: those put into the map and not deleted
    since whose mapped server, or else whose replica, was heard of lately.
  */
  lemma FoundByHistory(events: seq<Event>, n: nat, f: string)
    requires n <= |events| && Roomy(events, n)
    ensures var s := After(events, n);
            FindSs(s, f).1 >= 0 <==>
              && EverPutAndKept(events, n, f)
              && (PlaceHeard(events, n, Mapped(s, f)) || PlaceHeard(events, n, FindReplica(s.replicas, f)))
  {
    hide *;
    var s := After(events, n);
    FoundIff(events, n, f);
    AliveIff(events, n, Mapped(s, f));
    AliveIff(events, n, FindReplica(s.replicas, f));
    PlaceHeardIs(events, n, Mapped(s, f));
    PlaceHeardIs(events, n, FindReplica(s.replicas, f));
  }

  lemma PlaceHeardIs(events: seq<Event>, n: nat, i: int)
    requires n <= |events|
    ensures var servers := After(events, n).servers;
            PlaceHeard(events, n, i) <==> 0 <= i < |servers| && HeardLately(events, n, servers[i].ip, servers[i].nmPort)
  {
    hide After;
    hide HeardLately;
  }
}
