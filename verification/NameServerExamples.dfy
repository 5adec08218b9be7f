/** Runs of the name server, from its start, in which its lookups fall short of what one would expect of them. */
module NameServerExamples {
  import opened Text
  import opened Protocol
  import opened Splitting
  import opened LruCaches
  import opened NameServer
  import opened CacheRuns
  import opened FileLife
  import opened CacheLimits
  import RoundRobin

  // ----- two servers -----

  const A := SsInfo("a", 1, 2, true, 0, [])
  const B := SsInfo("b", 3, 4, true, 10, [])

  const REGISTER_BOTH: seq<Event> := [Register("a", 1, 2, "", 0), Register("b", 3, 4, "", 10)]

  /** Two servers that have just registered, without files. */
  const PAIR := Ns([], map[], [A, B], [], -1)

  lemma Registered(s: Ns, ip: string, nmPort: int, clientPort: int, now: int)
    requires ServerAt(s.servers, ip, nmPort) == -1 && |s.servers| < MAX_STORAGE_SERVERS
    ensures RegisterStep(s, ip, nmPort, clientPort, "", now).0
         == s.(servers := s.servers + [SsInfo(ip, nmPort, clientPort, true, now, [])])
  {
    assert Listing("") == [];
  }

  lemma PairIsReached()
    ensures |REGISTER_BOTH| == 2
    ensures After(REGISTER_BOTH, 2) == PAIR && Roomy(REGISTER_BOTH, 2)
  {
    var first := Ns([], map[], [A], [], -1);
    Registered(START, "a", 1, 2, 0);
    assert After(REGISTER_BOTH, 0) == START && After(REGISTER_BOTH, 1) == first;
    assert first.servers[..0] == [] && ServerAt(first.servers, "b", 3) == -1;
    Registered(first, "b", 3, 4, 10);
    assert Roomy(REGISTER_BOTH, 0) && Roomy(REGISTER_BOTH, 1);
  }

  lemma FirstChoices(s: Ns)
    requires |s.servers| == 2 && s.servers[0].alive && s.servers[1].alive
    ensures s.lastUsed == -1 || s.lastUsed == 1 ==> FindAvailable(s) == (s.(lastUsed := 0), 0)
    ensures s.lastUsed == 0 ==> FindAvailable(s) == (s.(lastUsed := 1), 1)
  {
    assert LiveFlags(s.servers) == [true, true];
  }

  /** The first CREATE on the two servers succeeds, with a replica and with room on both. */
  lemma FirstCreateHasReplica(reply: int, replicaReached: bool)
    requires Succeeds(reply)
    ensures var e := Create("f", reply, replicaReached);
            && Replicated(PAIR, e, "f") && PrimaryOf(PAIR) == 0 && ReplicaOf(PAIR) == 1
            && Room(PAIR, 0) && (PutsReplica(PAIR, e) <==> replicaReached)
  {
    FirstChoices(PAIR);
    FirstChoices(PAIR.(lastUsed := 0));
    hide FindAvailable;
    hide Replicate;
    hide AddFileToSs;
  }

  /** The state after it. */
  function WithFile(replicaReached: bool): Ns {
    Ns([], map["f" := if replicaReached then 1 else 0],
       [A.(files := ["f"]), if replicaReached then B.(files := ["f"]) else B], [Replication("f", 0, 1)], 1)
  }

  lemma FirstCreate(replicaReached: bool)
    ensures CreateStep(PAIR, "f", ERR_CREATED, replicaReached) == (WithFile(replicaReached), ERR_CREATED)
  {
    var placed := Ns([], map["f" := 0], [A.(files := ["f"]), B], [], 0);
    FirstChoices(PAIR);
    FirstChoices(placed);
    assert FindSs(PAIR, "f") == (PAIR, -1);
    assert PAIR.servers[0 := A.(files := ["f"])] == placed.servers && A.files + ["f"] == ["f"];
    assert AddFileToSs(PAIR.(lastUsed := 0), 0, "f") == placed;
    hide FindAvailable;
    hide FindSs;
    var replicated := placed.(lastUsed := 1, replicas := [Replication("f", 0, 1)]);
    assert AddReplication([], "f", 0, 1) == [Replication("f", 0, 1)];
    assert replicated.servers[1 := B.(files := ["f"])] == WithFile(true).servers && B.files + ["f"] == ["f"];
    assert AddFileToSs(replicated, 1, "f") == WithFile(true);
    assert map["f" := 0]["f" := 1] == map["f" := 1];
  }

  // ----- a stale lookup -----

  const STALE_RUN: seq<Event> :=
    REGISTER_BOTH + [Create("f", ERR_CREATED, false), DetectFailures(20), Lookup("f"), Heartbeat("a", 1, 21)]

  lemma StaleEvents()
    ensures REGISTER_BOTH <= STALE_RUN && |STALE_RUN| == 6 && STALE_RUN[2] == Create("f", ERR_CREATED, false)
    ensures STALE_RUN[3] == DetectFailures(20) && STALE_RUN[4] == Lookup("f") && STALE_RUN[5] == Heartbeat("a", 1, 21)
  {}

  const SILENT := WithFile(false).(servers := [A.(files := ["f"], alive := false), B])
  const CACHED := SILENT.(cache := [("f", 1)])
  const BACK := CACHED.(servers := [A.(files := ["f"], heartbeat := 21), B])

  lemma FallsSilent()
    ensures Step(WithFile(false), DetectFailures(20)).0 == SILENT
  {
    assert DetectStep(WithFile(false), 20).servers == SILENT.servers;
  }

  lemma LooksUp()
    ensures Step(SILENT, Lookup("f")).0 == CACHED
  {
    assert FindSs(SILENT, "f").0.cache == [("f", 1)];
  }

  lemma FirstAt(servers: seq<SsInfo>, ip: string, nmPort: int)
    requires |servers| == 2 && servers[0].ip == ip && servers[0].nmPort == nmPort
    ensures ServerAt(servers, ip, nmPort) == 0
  {
    assert servers[..1] == [servers[0]] && servers[..1][..0] == [];
  }

  lemma ComesBack()
    ensures Step(CACHED, Heartbeat("a", 1, 21)).0 == BACK
  {
    FirstAt(CACHED.servers, "a", 1);
    assert HeartbeatStep(CACHED, "a", 1, 21).0.servers == BACK.servers;
  }

  lemma BackIsStale()
    ensures Stale(BACK, "f") && FindSs(BACK, "f").1 == 1 && CacheFree(BACK, "f") == 0
  {
    assert Get(BACK.cache, "f").1 == 1;
  }

  /** The run up to its CREATE. */
  lemma FileCreated(events: seq<Event>, replicaReached: bool)
    requires |events| > 2 && REGISTER_BOTH <= events && events[2] == Create("f", ERR_CREATED, replicaReached)
    ensures After(events, 3) == WithFile(replicaReached) && Roomy(events, 3)
  {
    hide WithFile;
    RunPrefix(REGISTER_BOTH, events, 2);
    PairIsReached();
    FirstCreate(replicaReached);
    assert HasRoom(PAIR, events[2]);
    hide CreateStep;
    RunsOn(events, 3, PAIR, WithFile(replicaReached));
  }

  /**
    The replica was not reached, the primary falls silent, a lookup caches the replica, the primary comes back:
    the next lookup still names the replica, though the cache-free one names the primary.
  */
  lemma StaleAfterHeartbeat()
    ensures Roomy(STALE_RUN, 6)
    ensures var s := After(STALE_RUN, 6); Stale(s, "f") && FindSs(s, "f").1 == 1 && CacheFree(s, "f") == 0
  {
    hide *;
    StaleEvents();
    FileCreated(STALE_RUN, false);
    NoCreate(WithFile(false), DetectFailures(20));
    FallsSilent();
    RunsOn(STALE_RUN, 4, WithFile(false), SILENT);
    NoCreate(SILENT, Lookup("f"));
    LooksUp();
    RunsOn(STALE_RUN, 5, SILENT, CACHED);
    NoCreate(CACHED, Heartbeat("a", 1, 21));
    ComesBack();
    RunsOn(STALE_RUN, 6, CACHED, BACK);
    BackIsStale();
  }

  /** One more step of a run, given as values. */
  lemma RunsOn(events: seq<Event>, n: nat, s: Ns, s': Ns)
    requires 0 < n <= |events| && After(events, n - 1) == s && Roomy(events, n - 1)
    requires Step(s, events[n - 1]).0 == s' && HasRoom(s, events[n - 1])
    ensures After(events, n) == s' && Roomy(events, n)
  {
    hide Step;
    hide HasRoom;
  }

  // ----- no fail-over to the primary -----

  const REPLICA_DIES: seq<Event> :=
    REGISTER_BOTH + [Create("f", ERR_CREATED, true), Heartbeat("a", 1, 30), DetectFailures(30)]

  lemma DyingEvents()
    ensures REGISTER_BOTH <= REPLICA_DIES && |REPLICA_DIES| == 5 && REPLICA_DIES[2] == Create("f", ERR_CREATED, true)
    ensures REPLICA_DIES[3] == Heartbeat("a", 1, 30) && REPLICA_DIES[4] == DetectFailures(30)
  {}

  const BEATING := WithFile(true).(servers := [A.(files := ["f"], heartbeat := 30), B.(files := ["f"])])
  const HALF := BEATING.(servers := [A.(files := ["f"], heartbeat := 30), B.(files := ["f"], alive := false)])

  lemma Beats()
    ensures Step(WithFile(true), Heartbeat("a", 1, 30)).0 == BEATING
  {
    FirstAt(WithFile(true).servers, "a", 1);
    assert HeartbeatStep(WithFile(true), "a", 1, 30).0.servers == BEATING.servers;
  }

  lemma ReplicaFallsSilent()
    ensures Step(BEATING, DetectFailures(30)).0 == HALF
  {
    assert DetectStep(BEATING, 30).servers == HALF.servers;
  }

  lemma HalfFindsNothing()
    ensures FindSs(HALF, "f").1 == -1 && Alive(HALF.servers, 0) && Lists(HALF.servers, 0, "f")
  {}

  lemma Harmless(s: Ns, e: Event, f: string)
    requires e.Heartbeat? || e.DetectFailures? || e.Lookup?
    ensures !Creates(s, e, f) && !Puts(s, e, f) && !Takes(s, e, f)
  {}

  lemma NoOtherCreate(events: seq<Event>, i: nat, n: nat, f: string)
    requires i < n <= |events| && Replicated(After(events, i), events[i], f)
    requires forall r :: i < r < n ==> !events[r].Create?
    ensures CreatedAt(events, i, n, f)
  {
    hide After;
    hide Replicated;
    hide Step;
  }

  lemma OnlyHarmless(events: seq<Event>, i: nat, n: nat, f: string)
    requires i < n <= |events|
    requires forall r :: i < r < n ==> events[r].Heartbeat? || events[r].DetectFailures? || events[r].Lookup?
    ensures Undisturbed(events, i, n, f)
  {
    hide After;
    hide Puts;
    hide Takes;
    forall r: nat | i < r < n ensures !Puts(After(events, r), events[r], f) && !Takes(After(events, r), events[r], f) {
      Harmless(After(events, r), events[r], f);
    }
  }

  /** The run is of the kind that `CreatedFileHangsOnReplica` is about. */
  lemma ReplicaDiesAfterCreate()
    ensures |REPLICA_DIES| == 5 && Roomy(REPLICA_DIES, 5)
    ensures CreatedAt(REPLICA_DIES, 2, 5, "f") && Undisturbed(REPLICA_DIES, 2, 5, "f")
    ensures REPLICA_DIES[2].Create? && PutsReplica(After(REPLICA_DIES, 2), REPLICA_DIES[2])
  {
    hide *;
    DyingEvents();
    PairIsReached();
    RunPrefix(REGISTER_BOTH, REPLICA_DIES, 2);
    Accepted();
    FirstCreateHasReplica(ERR_CREATED, true);
    NoOtherCreate(REPLICA_DIES, 2, 5, "f");
    OnlyHarmless(REPLICA_DIES, 2, 5, "f");
    PrimaryIsNotAsked();
  }

  lemma Accepted()
    ensures Succeeds(ERR_CREATED)
  {}

  /** The stale run is of the kind that `UnreachedReplicaIsAsked` is about. */
  lemma StaleRunIsUnreached()
    ensures |STALE_RUN| == 6 && Roomy(STALE_RUN, 6)
    ensures CreatedAt(STALE_RUN, 2, 6, "f") && Undisturbed(STALE_RUN, 2, 6, "f")
    ensures STALE_RUN[2].Create? && !STALE_RUN[2].replicaReached
    ensures Room(After(STALE_RUN, 2), PrimaryOf(After(STALE_RUN, 2)))
  {
    hide *;
    StaleEvents();
    PairIsReached();
    RunPrefix(REGISTER_BOTH, STALE_RUN, 2);
    Accepted();
    FirstCreateHasReplica(ERR_CREATED, false);
    NoOtherCreate(STALE_RUN, 2, 6, "f");
    OnlyHarmless(STALE_RUN, 2, 6, "f");
    StaleAfterHeartbeat();
  }

  /** The replica falls silent while the primary, which holds the file, lives: nothing is found. */
  lemma PrimaryIsNotAsked()
    ensures Roomy(REPLICA_DIES, 5)
    ensures var s := After(REPLICA_DIES, 5);
            && FindSs(s, "f").1 == -1 && Alive(s.servers, 0) && Lists(s.servers, 0, "f")
  {
    hide *;
    DyingEvents();
    FileCreated(REPLICA_DIES, true);
    NoCreate(WithFile(true), Heartbeat("a", 1, 30));
    Beats();
    RunsOn(REPLICA_DIES, 4, WithFile(true), BEATING);
    NoCreate(BEATING, DetectFailures(30));
    ReplicaFallsSilent();
    RunsOn(REPLICA_DIES, 5, BEATING, HALF);
    HalfFindsNothing();
  }

  // ----- fail-over after all -----

  const RETURN_RUN: seq<Event> := REGISTER_BOTH +
    [Create("f", ERR_CREATED, true), Register("a", 1, 2, "f", 11), Heartbeat("a", 1, 30), DetectFailures(30)]

  lemma ReturnEvents()
    ensures REGISTER_BOTH <= RETURN_RUN && |RETURN_RUN| == 6 && RETURN_RUN[2] == Create("f", ERR_CREATED, true)
    ensures RETURN_RUN[3] == Register("a", 1, 2, "f", 11)
    ensures RETURN_RUN[4] == Heartbeat("a", 1, 30) && RETURN_RUN[5] == DetectFailures(30)
  {}

  const RETURNED := Ns([], map["f" := 0], [A.(files := ["f"], heartbeat := 11), B.(files := ["f"])],
                       [Replication("f", 0, 1)], 1)
  const BEATEN := RETURNED.(servers := [A.(files := ["f"], heartbeat := 30), B.(files := ["f"])])
  const ALONE := BEATEN.(servers := [A.(files := ["f"], heartbeat := 30), B.(files := ["f"], alive := false)])

  lemma ListingOfOne()
    ensures Listing("f") == ["f"]
  {
    SplitToken("f", Exactly('|'));
  }

  lemma Returns()
    ensures var s, e := WithFile(true), Register("a", 1, 2, "f", 11);
            Step(s, e).0 == RETURNED && Puts(s, e, "f") && Target(s, e) == 0
  {
    ListingOfOne();
    FirstAt(WithFile(true).servers, "a", 1);
    hide Listing;
    hide ServerAt;
    var moved := RETURNED.(fileMap := map["f" := 1]);
    assert WithFile(true).servers[0 := A.(files := ["f"], heartbeat := 11)] == moved.servers;
    assert ["f"][..0] == [] && MapAddAll(moved, [], 0) == moved;
    assert map["f" := 1]["f" := 0] == map["f" := 0];
    assert MapAddAll(moved, ["f"], 0) == RETURNED;
  }

  lemma BeatsAgain()
    ensures Step(RETURNED, Heartbeat("a", 1, 30)).0 == BEATEN
  {
    FirstAt(RETURNED.servers, "a", 1);
    assert HeartbeatStep(RETURNED, "a", 1, 30).0.servers == BEATEN.servers;
  }

  lemma OtherFallsSilent()
    ensures Step(BEATEN, DetectFailures(30)).0 == ALONE
  {
    assert DetectStep(BEATEN, 30).servers == ALONE.servers;
  }

  lemma AloneFinds()
    ensures FindSs(ALONE, "f").1 == 0 && !Alive(ALONE.servers, 1)
  {}

  /**
    The primary registers again with the file and the replica dies: the file is found. The run is of the kind
    that `ReturnedPrimaryGivesFailover` is about.
  */
  lemma PrimaryAnswersOnceReturned()
    ensures |RETURN_RUN| == 6 && Roomy(RETURN_RUN, 6)
    ensures CreatedAt(RETURN_RUN, 2, 6, "f") && Undisturbed(RETURN_RUN, 3, 6, "f")
    ensures RETURN_RUN[3].Register? && Puts(After(RETURN_RUN, 3), RETURN_RUN[3], "f")
    ensures Target(After(RETURN_RUN, 3), RETURN_RUN[3]) == PrimaryOf(After(RETURN_RUN, 2))
    ensures var s := After(RETURN_RUN, 6); FindSs(s, "f").1 == 0 && !Alive(s.servers, ReplicaOf(After(RETURN_RUN, 2)))
  {
    hide *;
    ReturnEvents();
    FileCreated(RETURN_RUN, true);
    Returns();
    NoCreate(WithFile(true), RETURN_RUN[3]);
    RunsOn(RETURN_RUN, 4, WithFile(true), RETURNED);
    NoCreate(RETURNED, RETURN_RUN[4]);
    BeatsAgain();
    RunsOn(RETURN_RUN, 5, RETURNED, BEATEN);
    NoCreate(BEATEN, RETURN_RUN[5]);
    OtherFallsSilent();
    RunsOn(RETURN_RUN, 6, BEATEN, ALONE);
    AloneFinds();
    PairIsReached();
    RunPrefix(REGISTER_BOTH, RETURN_RUN, 2);
    Accepted();
    FirstCreateHasReplica(ERR_CREATED, true);
    NoOtherCreate(RETURN_RUN, 2, 6, "f");
    OnlyHarmless(RETURN_RUN, 3, 6, "f");
  }

  // ----- a CREATE without room -----

  /** A thousand files. */
  function Thousand(): seq<string> {
    seq(MAX_FILES, _ => "x")
  }

  function Crowd(): string {
    JoinWith(Thousand(), '|')
  }

  const FILL: seq<Event> := REGISTER_BOTH +
    [Register("c", 5, 6, Crowd(), 90), Register("d", 7, 8, "", 90), Create("f", ERR_CREATED, false), DetectFailures(20),
     Lookup("f"), DetectFailures(30), Create("f", ERR_CREATED, false), Heartbeat("b", 3, 200), DetectFailures(200)]

  lemma FillEvents()
    ensures REGISTER_BOTH <= FILL && |FILL| == 11
    ensures FILL[2] == Register("c", 5, 6, Crowd(), 90) && FILL[3] == Register("d", 7, 8, "", 90)
    ensures FILL[4] == FILL[8] == Create("f", ERR_CREATED, false) && FILL[5] == DetectFailures(20)
    ensures FILL[6] == Lookup("f") && FILL[7] == DetectFailures(30)
    ensures FILL[9] == Heartbeat("b", 3, 200) && FILL[10] == DetectFailures(200)
  {
    hide Crowd;
    hide REGISTER_BOTH;
    PairIsReached();
  }

  const AF := A.(files := ["f"])
  const C := SsInfo("c", 5, 6, true, 90, Thousand())
  const D := SsInfo("d", 7, 8, true, 90, [])

  const CROWDED := Ns([], map["x" := 2], [A, B, C], [], -1)
  const FOUR := CROWDED.(servers := [A, B, C, D])
  const PLACED := Ns([], map["x" := 2, "f" := 0], [AF, B, C, D], [Replication("f", 0, 1)], 1)
  const GONE := PLACED.(servers := [AF.(alive := false), B, C, D])
  const KEPT := GONE.(cache := [("f", 1)])
  /** Both servers of "f" are dead, it is still cached at its replica, and the server next in turn is full. */
  const FULL := KEPT.(servers := [AF.(alive := false), B.(alive := false), C, D])
  const MOVED := FULL.(lastUsed := 3, replicas := [Replication("f", 0, 3)])
  const REVIVED := MOVED.(servers := [AF.(alive := false), B.(heartbeat := 200), C, D])

  lemma {:induction false} ManyLength(n: nat)
    ensures |JoinWith(seq(n, _ => "x"), '|')| == if n == 0 then 0 else 2 * n - 1
  {
    if n > 1 {
      assert seq(n, _ => "x")[1..] == seq(n - 1, _ => "x");
      ManyLength(n - 1);
    }
  }

  lemma CrowdIsListed()
    ensures Listing(Crowd()) == Thousand()
  {
    ManyLength(MAX_FILES);
    assert AllTokens(Thousand(), Exactly('|'));
    JoinRoundTrip(Thousand(), '|', Exactly('|'));
    hide Split;
    hide JoinWith;
  }

  lemma {:induction false} MapsCrowd(s: Ns, n: nat, ss: int)
    requires s.cache == []
    ensures MapAddAll(s, seq(n, _ => "x"), ss) == if n == 0 then s else s.(fileMap := s.fileMap["x" := ss])
  {
    var files := seq(n, _ => "x");
    if n > 0 {
      assert files[..n - 1] == seq(n - 1, _ => "x");
      MapsCrowd(s, n - 1, ss);
      assert s.fileMap["x" := ss]["x" := ss] == s.fileMap["x" := ss];
    }
  }

  lemma CrowdRegisters()
    ensures Step(PAIR, Register("c", 5, 6, Crowd(), 90)).0 == CROWDED
  {
    CrowdIsListed();
    hide Listing;
    hide Crowd;
    var t := PAIR.servers;
    assert t[..1][..0] == [] && t[..1] == [A];
    assert ServerAt(t, "c", 5) == -1;
    var added := PAIR.(servers := [A, B, C]);
    assert PAIR.servers + [C] == added.servers;
    MapsCrowd(added, MAX_FILES, 2);
    hide MapAddAll;
    hide ServerAt;
    assert map["x" := 2] == PAIR.fileMap["x" := 2];
  }

  lemma FourthRegisters()
    ensures Step(CROWDED, Register("d", 7, 8, "", 90)).0 == FOUR
  {
    var t := CROWDED.servers;
    assert t[..2][..1] == t[..1] && t[..1][..0] == [];
    assert ServerAt(t[..2], "d", 7) == -1;
    assert ServerAt(t, "d", 7) == -1;
    Registered(CROWDED, "d", 7, 8, 90);
    hide RegisterStep;
    assert [A, B, C] + [D] == [A, B, C, D];
  }

  lemma FourChoices()
    ensures RoundRobin.Choose([true, true, true, true], -1) == 0
    ensures RoundRobin.Choose([true, true, true, true], 0) == 1
  {}

  /** The first CREATE of a file on servers 0 and 1, the replica out of reach. */
  lemma FreshCreate(s: Ns, f: string)
    requires s.cache == [] && f !in s.fileMap && s.replicas == [] && s.lastUsed == -1 && ValidName(f)
    requires |s.servers| > 1 && |s.servers[0].files| < MAX_FILES
    requires FindAvailable(s) == (s.(lastUsed := 0), 0)
    requires RoundRobin.Choose(LiveFlags(s.servers), 0) == 1
    ensures Step(s, Create(f, ERR_CREATED, false)).0 ==
            Ns([], s.fileMap[f := 0], s.servers[0 := s.servers[0].(files := s.servers[0].files + [f])],
               [Replication(f, 0, 1)], 1)
    ensures HasRoom(s, Create(f, ERR_CREATED, false))
  {
    assert FindSs(s, f) == (s, -1);
    assert !Cached(s.cache, f);
    var s2 := s.(lastUsed := 0);
    var placed := AddFileToSs(s2, 0, f);
    FlagsKept(s2, 0, f);
    assert placed == Ns([], s.fileMap[f := 0], s.servers[0 := s.servers[0].(files := s.servers[0].files + [f])], [], 0);
    assert FindAvailable(placed) == (placed.(lastUsed := 1), 1);
    assert AddReplication([], f, 0, 1) == [Replication(f, 0, 1)];
    hide FindAvailable;
    hide FindSs;
    hide AddFileToSs;
    hide AddReplication;
  }

  lemma FilePlaced()
    ensures Step(FOUR, Create("f", ERR_CREATED, false)).0 == PLACED && HasRoom(FOUR, Create("f", ERR_CREATED, false))
  {
    FourFree();
    hide Thousand;
    hide FindAvailable;
    FreshCreate(FOUR, "f");
    hide Step;
    hide HasRoom;
    assert [A, B, C, D][0 := AF] == [AF, B, C, D] && A.files + ["f"] == ["f"];
  }

  lemma FourFree()
    ensures FindAvailable(FOUR) == (FOUR.(lastUsed := 0), 0)
    ensures RoundRobin.Choose(LiveFlags(FOUR.servers), 0) == 1
  {
    FourChoices();
    hide RoundRobin.Choose;
    hide Thousand;
    assert LiveFlags(FOUR.servers) == [true, true, true, true];
  }

  lemma FirstDies()
    ensures Step(PLACED, DetectFailures(20)).0 == GONE
  {
    assert DetectStep(PLACED, 20).servers == GONE.servers;
  }

  lemma ReplicaCached()
    ensures Step(GONE, Lookup("f")).0 == KEPT
  {
    assert FindSs(GONE, "f").0.cache == [("f", 1)];
  }

  lemma ReplicaDies()
    ensures Step(KEPT, DetectFailures(30)).0 == FULL
  {
    assert DetectStep(KEPT, 30).servers == FULL.servers;
  }

  lemma FullChoices()
    ensures FindAvailable(FULL) == (FULL.(lastUsed := 2), 2)
    ensures FindAvailable(FULL.(lastUsed := 2)) == (FULL.(lastUsed := 3), 3)
  {
    LastTwoLive();
    FullFlags();
    hide LiveFlags;
    hide RoundRobin.Choose;
  }

  lemma FullFlags()
    ensures LiveFlags(FULL.servers) == [false, false, true, true]
    ensures LiveFlags(FULL.(lastUsed := 2).servers) == [false, false, true, true]
  {
    hide Thousand;
  }

  lemma LastTwoLive()
    ensures RoundRobin.Choose([false, false, true, true], 1) == 2
    ensures RoundRobin.Choose([false, false, true, true], 2) == 3
  {}

  lemma FullLookup()
    ensures FindSs(FULL, "f") == (FULL, -1) && Get(FULL.cache, "f").1 == 1
  {
    var c := FULL.cache;
    assert Position(c, "f") == 0 && Dropped(c, 0) == [] && Get(c, "f").1 == 1;
    assert Get(c, "f").0 == c;
    assert FindReplica(FULL.replicas, "f") == 1;
    hide Get;
    hide FindReplica;
    hide Thousand;
  }

  /** A CREATE of a file that is cached elsewhere, on a full server, the new replica out of reach. */
  lemma FullServerCreate(s: Ns, f: string, p: int, r: int)
    requires FindSs(s, f) == (s, -1) && ValidName(f) && CachedElsewhere(s, f) && |s.servers| > 1
    requires p >= 0 && r >= 0 && p != r && !Room(s, p)
    requires FindAvailable(s) == (s.(lastUsed := p), p)
    requires FindAvailable(s.(lastUsed := p)) == (s.(lastUsed := r), r)
    requires |s.replicas| == 1 && s.replicas[0].file == f
    ensures Step(s, Create(f, ERR_CREATED, false)).0 ==
            s.(lastUsed := r, replicas := [s.replicas[0].(replica := r)])
    ensures !HasRoom(s, Create(f, ERR_CREATED, false))
  {
    hide FindAvailable;
    hide FindSs;
    hide CachedElsewhere;
    assert AddReplication(s.replicas, f, p, r) == [s.replicas[0].(replica := r)];
    hide AddReplication;
    hide MapAdd;
  }

  lemma FullIsFull()
    ensures !Room(FULL, 2) && CachedElsewhere(FULL, "f")
  {
    FullLookup();
    assert |C.files| == MAX_FILES;
    hide Get;
    hide Thousand;
  }

  lemma FullCreate()
    ensures Step(FULL, Create("f", ERR_CREATED, false)).0 == MOVED && !HasRoom(FULL, Create("f", ERR_CREATED, false))
  {
    FullChoices();
    FullLookup();
    FullIsFull();
    hide Thousand;
    hide FindAvailable;
    hide FindSs;
    hide CachedElsewhere;
    hide Room;
    hide Get;
    FullServerCreate(FULL, "f", 2, 3);
    hide Step;
    hide HasRoom;
  }

  lemma BeatOf(s: Ns, v: nat, now: int)
    requires DistinctServers(s.servers) && v < |s.servers|
    ensures Step(s, Heartbeat(s.servers[v].ip, s.servers[v].nmPort, now)).0
         == s.(servers := s.servers[v := s.servers[v].(alive := true, heartbeat := now)])
  {
    ServerAtOwn(s.servers, v);
    hide ServerAt;
    hide DistinctServers;
  }

  lemma FourDistinct()
    ensures DistinctServers(MOVED.servers)
  {
    hide Thousand;
  }

  lemma BackAgain()
    ensures Step(MOVED, Heartbeat("b", 3, 200)).0 == REVIVED
  {
    FourDistinct();
    hide Thousand;
    hide DistinctServers;
    BeatOf(MOVED, 1, 200);
    hide Step;
    assert [AF.(alive := false), B.(alive := false), C, D][1 := B.(heartbeat := 200)]
        == [AF.(alive := false), B.(heartbeat := 200), C, D];
  }

  lemma OnlySecondLives()
    ensures var s := Step(REVIVED, DetectFailures(200)).0;
            && s == MOVED.(servers := s.servers) && |s.servers| == |MOVED.servers|
            && forall i :: Alive(s.servers, i) <==> i == 1
  {
    hide Thousand;
  }

  lemma MovedIsAstray()
    ensures Astray(MOVED, "f", 1)
  {
    FullLookup();
    hide Thousand;
    hide Get;
    assert FindReplica(MOVED.replicas, "f") == 3;
  }

  lemma LastOneLives()
    ensures var s := Step(REVIVED, DetectFailures(200)).0; FindSs(s, "f").1 == 1 && CacheFree(s, "f") == -1
  {
    OnlySecondLives();
    MovedIsAstray();
    hide *;
    AstrayDisagrees(MOVED, "f", 1, Step(REVIVED, DetectFailures(200)).0.servers);
  }

  /**
    From the start: four servers, one of them full, and a file that is cached at its replica when both its
    servers are dead. A CREATE then succeeds without listing the file anywhere, and moves the replica. Once the
    old replica is back and the others are silent, a lookup finds the file there, and the cache-free lookup does
    not.
  */
  lemma CreateWithoutRoom()
    ensures |FILL| == 11 && Roomy(FILL, 8) && !Roomy(FILL, 9)
    ensures var s := After(FILL, 11); FindSs(s, "f").1 == 1 && CacheFree(s, "f") == -1
  {
    hide *;
    FillEvents();
    PairIsReached();
    RunPrefix(REGISTER_BOTH, FILL, 2);
    CrowdRegisters();
    NoCreate(PAIR, FILL[2]);
    RunsOn(FILL, 3, PAIR, CROWDED);
    FourthRegisters();
    NoCreate(CROWDED, FILL[3]);
    RunsOn(FILL, 4, CROWDED, FOUR);
    FilePlaced();
    RunsOn(FILL, 5, FOUR, PLACED);
    FirstDies();
    NoCreate(PLACED, FILL[5]);
    RunsOn(FILL, 6, PLACED, GONE);
    ReplicaCached();
    NoCreate(GONE, FILL[6]);
    RunsOn(FILL, 7, GONE, KEPT);
    ReplicaDies();
    NoCreate(KEPT, FILL[7]);
    RunsOn(FILL, 8, KEPT, FULL);
    FullCreate();
    BackAgain();
    LastOneLives();
    EndsBadly(FILL);
  }

  lemma EndsBadly(events: seq<Event>)
    requires |events| == 11 && After(events, 8) == FULL && !HasRoom(FULL, events[8])
    requires Step(FULL, events[8]).0 == MOVED && Step(MOVED, events[9]).0 == REVIVED
    ensures !Roomy(events, 9) && After(events, 11) == Step(REVIVED, events[10]).0
  {
    hide Step;
    hide HasRoom;
    RunStep(events, 9);
    RunStep(events, 10);
    RunStep(events, 11);
  }
}
