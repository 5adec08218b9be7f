/** Choosing the storage server for a new file (nameserver/nameserver.c:449-467). */
module RoundRobin {

  /** The first live server at offset `i` or later, counting cyclically from `start`; -1 if none is left. */
  function Scan(live: seq<bool>, start: nat, i: nat): int
    requires start < |live| && i <= |live|
    decreases |live| - i
  {
    if i == |live| then -1
    else if live[(start + i) % |live|] then (start + i) % |live|
    else Scan(live, start, i + 1)
  }

  /** `find_available_ss`, given the server used last. */
  function Choose(live: seq<bool>, last: int): int
    requires -1 <= last
  {
    if |live| == 0 then -1 else Scan(live, (last + 1) % |live|, 0)
  }

  /** How far `x` stands behind `start`, going round. */
  function Offset(n: nat, start: nat, x: nat): int {
    if x >= start then x - start else x - start + n
  }

  function LiveSet(live: seq<bool>): set<nat> {
    set x: nat | x < |live| && live[x]
  }

  lemma WrapAround(n: nat, start: nat, i: nat)
    requires start < n && i < n
    ensures (start + i) % n == if start + i < n then start + i else start + i - n
    ensures Offset(n, start, (start + i) % n) == i
  {
    if start + i >= n {
      ModOnce(start + i, n);
    }
  }

  lemma ModOnce(x: nat, n: nat)
    requires 0 < n <= x < 2 * n
    ensures x % n == x - n
  {
    assert x / n == 1;
  }

  lemma {:induction false} ScanFinds(live: seq<bool>, start: nat, i: nat)
    requires start < |live| && i <= |live|
    ensures var r := Scan(live, start, i);
            if r == -1
            then forall x: nat :: x < |live| && Offset(|live|, start, x) >= i ==> !live[x]
            else 0 <= r < |live| && live[r] && Offset(|live|, start, r) >= i
                 && forall x: nat :: x < |live| && i <= Offset(|live|, start, x) < Offset(|live|, start, r) ==> !live[x]
    decreases |live| - i
  {
    if i < |live| {
      WrapAround(|live|, start, i);
      var idx := (start + i) % |live|;
      assert forall x: nat :: x < |live| && Offset(|live|, start, x) == i ==> x == idx;
      if !live[idx] {
        ScanFinds(live, start, i + 1);
      }
    }
  }

  function Start(n: nat, last: int): (start: nat)
    requires -1 <= last < n && n > 0
    ensures start < n
  {
    if last + 1 == n then 0 else last + 1
  }

  /** The choice is the first live server cyclically after the last one, and -1 exactly when none is live. */
  lemma ChooseIsNext(live: seq<bool>, last: int)
    requires -1 <= last < |live| && live != []
    ensures Choose(live, last) == -1 <==> LiveSet(live) == {}
    ensures var r, start := Choose(live, last), Start(|live|, last);
            r != -1 ==>
              && 0 <= r < |live| && live[r]
              && forall x: nat :: x < |live| && Offset(|live|, start, x) < Offset(|live|, start, r) ==> !live[x]
  {
    if last + 1 == |live| {
      ModOnce(last + 1, |live|);
    }
    assert (last + 1) % |live| == Start(|live|, last);
    ScanFinds(live, Start(|live|, last), 0);
    var r := Choose(live, last);
    if r == -1 {
      assert forall x: nat :: x < |live| ==> Offset(|live|, Start(|live|, last), x) >= 0;
    } else {
      assert r in LiveSet(live);
    }
  }

  /** The choices of `k` calls in a row with nothing happening to the servers. */
  function Picks(live: seq<bool>, last: int, k: nat): seq<int>
    requires -1 <= last
    decreases k
  {
    if k == 0 then []
    else
      var before := Picks(live, last, k - 1);
      var prev := if before == [] then last else before[|before| - 1];
      if prev < -1 then before else before + [Choose(live, prev)]
  }

  /** The live servers up to and including `p` in the order that begins after `last`. */
  function UpTo(live: seq<bool>, start: nat, p: nat): set<nat> {
    set x: nat | x < |live| && live[x] && Offset(|live|, start, x) <= Offset(|live|, start, p)
  }

  lemma NextAfter(live: seq<bool>, start: nat, p: nat)
    requires start < |live| && p < |live| && live[p] && UpTo(live, start, p) != LiveSet(live)
    ensures var r := Choose(live, p);
            && 0 <= r < |live| && live[r] && r !in UpTo(live, start, p)
            && UpTo(live, start, r) == UpTo(live, start, p) + {r}
  {
    var n := |live|;
    var y :| y in LiveSet(live) && y !in UpTo(live, start, p);
    ChooseIsNext(live, p);
    var r := Choose(live, p);
    forall x: nat | x < n ensures OffsetBehind(n, start, p, x) {
      OffsetShifts(n, start, p, x);
    }
    assert OffsetBehind(n, start, p, y) && OffsetBehind(n, start, p, r);
    forall x | x in UpTo(live, start, r) ensures x in UpTo(live, start, p) + {r} {
      assert OffsetBehind(n, start, p, x);
      SameOffset(n, start, x, r);
    }
  }

  /** Offsets counted from behind `p`: those beyond `p` come first, the others after a full round. */
  predicate OffsetBehind(n: nat, start: nat, p: nat, x: nat)
    requires start < n && p < n
  {
    var d := Offset(n, start, x) - Offset(n, start, p) - 1;
    Offset(n, Start(n, p), x) == if d >= 0 then d else d + n
  }

  lemma OffsetShifts(n: nat, start: nat, p: nat, x: nat)
    requires start < n && p < n && x < n
    ensures OffsetBehind(n, start, p, x)
  {}

  lemma SameOffset(n: nat, start: nat, x: nat, y: nat)
    requires start < n && x < n && y < n
    ensures Offset(n, start, x) == Offset(n, start, y) <==> x == y
  {}

  lemma {:induction false} PicksCover(live: seq<bool>, last: int, k: nat)
    requires -1 <= last < |live| && live != [] && 0 < k <= |LiveSet(live)|
    ensures var ps, start := Picks(live, last, k), Start(|live|, last);
            && |ps| == k
            && (forall i :: 0 <= i < k ==> 0 <= ps[i] < |live| && live[ps[i]])
            && UpTo(live, start, ps[k - 1]) == Values(ps)
            && |UpTo(live, start, ps[k - 1])| == k
    decreases k
  {
    var start := Start(|live|, last);
    if k == 1 {
      ChooseIsNext(live, last);
      var r := Choose(live, last);
      assert Picks(live, last, 0) == [] && Picks(live, last, 1) == [r];
      assert LiveSet(live) != {};
      FirstPick(live, start, r);
    } else {
      PicksCover(live, last, k - 1);
      var before := Picks(live, last, k - 1);
      var p := before[k - 2];
      assert UpTo(live, start, p) <= LiveSet(live);
      assert UpTo(live, start, p) != LiveSet(live);
      NextAfter(live, start, p);
      var r := Choose(live, p);
      assert Picks(live, last, k) == before + [r];
      OneMore(before, r);
    }
  }

  function Values(ps: seq<int>): set<int> {
    set x | x in ps
  }

  lemma OneMore(before: seq<int>, r: int)
    ensures Values(before + [r]) == Values(before) + {r}
  {
    assert forall x :: x in before + [r] <==> x in before || x == r;
  }

  lemma FirstPick(live: seq<bool>, start: nat, r: nat)
    requires start < |live| && r < |live| && live[r]
    requires forall x: nat :: x < |live| && Offset(|live|, start, x) < Offset(|live|, start, r) ==> !live[x]
    ensures UpTo(live, start, r) == {r}
    ensures Values([r]) == {r}
  {
    assert forall x: nat :: x < |live| && Offset(|live|, start, x) == Offset(|live|, start, r) ==> x == r;
    assert [r][0] == r;
  }

  /** While nothing changes, as many calls as there are live servers choose each of them exactly once. */
  lemma RoundIsFair(live: seq<bool>, last: int)
    requires -1 <= last < |live| && live != [] && LiveSet(live) != {}
    ensures var ps := Picks(live, last, |LiveSet(live)|);
            && |ps| == |LiveSet(live)|
            && (forall i, j :: 0 <= i < j < |ps| ==> ps[i] != ps[j])
            && (forall i :: 0 <= i < |ps| ==> ps[i] >= 0 && ps[i] as nat in LiveSet(live))
            && (forall x :: x in LiveSet(live) ==> x in ps)
  {
    var k := |LiveSet(live)|;
    PicksCover(live, last, k);
    var ps := Picks(live, last, k);
    var all := UpTo(live, Start(|live|, last), ps[k - 1]);
    assert all <= LiveSet(live);
    SameSize(all, LiveSet(live));
    DistinctBySize(ps);
    forall x | x in LiveSet(live) ensures x in ps {
      assert x in Values(ps);
    }
  }

  /** A list that holds as many values as it is long repeats none. */
  lemma {:induction false} DistinctBySize(ps: seq<int>)
    requires |Values(ps)| == |ps|
    ensures forall i, j :: 0 <= i < j < |ps| ==> ps[i] != ps[j]
  {
    if ps != [] {
      var front, r := ps[..|ps| - 1], ps[|ps| - 1];
      assert ps == front + [r];
      OneMore(front, r);
      var values := Values(front);
      SizeAtMost(front);
      assert r !in values;
      DistinctBySize(front);
    }
  }

  lemma {:induction false} SizeAtMost(ps: seq<int>)
    ensures |Values(ps)| <= |ps|
  {
    if ps != [] {
      var front, r := ps[..|ps| - 1], ps[|ps| - 1];
      assert ps == front + [r];
      OneMore(front, r);
      SizeAtMost(front);
    }
  }

  lemma SameSize(a: set<nat>, b: set<nat>)
    requires a <= b && |a| == |b|
    ensures a == b
  {
    assert b == a + (b - a);
  }

  /** With two live servers or more, the choice that follows another differs from it. */
  lemma ReplicaDiffers(live: seq<bool>, primary: nat)
    requires primary < |live| && live[primary] && |LiveSet(live)| >= 2
    ensures Choose(live, primary) != primary && Choose(live, primary) != -1
  {
    var start := Start(|live|, primary);
    ChooseIsNext(live, primary);
    var others := LiveSet(live) - {primary};
    assert LiveSet(live) == others + {primary};
    var y :| y in others;
    assert Offset(|live|, start, y) < Offset(|live|, start, primary);
  }

  lemma ChooseBounds(live: seq<bool>, last: int)
    requires -1 <= last < |live|
    ensures -1 <= Choose(live, last) < |live|
  {
    if live != [] { ChooseIsNext(live, last); }
  }
}
