/**
  The chained hash table that the lock table, the undo table, the inverted index, the access lists and the
  name server's file map all are: an array of buckets, each a singly linked list of nodes.
*/
module HashTables {
  import opened Text

  lemma SizeWith<K, V>(m: map<K, V>, k: K, v: V)
    ensures |m[k := v]| == if k in m then |m| else |m| + 1
  {
    assert m[k := v].Keys == m.Keys + {k};
  }

  lemma SizeWithout<K, V>(m: map<K, V>, k: K)
    ensures |m - {k}| == if k in m then |m| - 1 else |m|
    ensures k !in m ==> m - {k} == m
  {
    assert (m - {k}).Keys == m.Keys - {k};
  }

  // ----- what the chains hold, as values -----

  type Chain<K, V> = seq<(K, V)>

  ghost function Bucket<K>(hash: K -> nat, size: nat, k: K): (b: nat)
    requires size > 0
    ensures b < size
  {
    hash(k) % size
  }

  ghost predicate Listed<K, V>(c: Chain<K, V>, k: K) {
    exists j :: 0 <= j < |c| && c[j].0 == k
  }

  /** The keys of a chain are distinct, belong to its bucket and carry the values of the map. */
  ghost predicate ChainFits<K(!new), V>(hash: K -> nat, size: nat, c: Chain<K, V>, b: nat, m: map<K, V>)
    requires size > 0
  {
    && (forall j :: 0 <= j < |c| ==> Bucket(hash, size, c[j].0) == b && c[j].0 in m && m[c[j].0] == c[j].1)
    && (forall i, j :: 0 <= i < j < |c| ==> c[i].0 != c[j].0)
    && (forall k :: k in m && Bucket(hash, size, k) == b ==> Listed(c, k))
  }

  /** The chains hold exactly the map. */
  ghost predicate Represents<K(!new), V>(hash: K -> nat, chains: seq<Chain<K, V>>, m: map<K, V>) {
    && |chains| > 0
    && forall b :: 0 <= b < |chains| ==> ChainFits(hash, |chains|, chains[b], b, m)
  }

  lemma ChainUpdate<K(!new), V>(hash: K -> nat, size: nat, c: Chain<K, V>, b: nat, m: map<K, V>, j: nat, v: V)
    requires size > 0 && ChainFits(hash, size, c, b, m) && j < |c|
    ensures ChainFits(hash, size, c[j := (c[j].0, v)], b, m[c[j].0 := v])
  {
    var c' := c[j := (c[j].0, v)];
    forall k | k in m && Bucket(hash, size, k) == b ensures Listed(c', k) {
      assert Listed(c, k);
      var i :| 0 <= i < |c| && c[i].0 == k;
      assert c'[i].0 == k;
    }
  }

  lemma ChainDelete<K(!new), V>(hash: K -> nat, size: nat, c: Chain<K, V>, b: nat, m: map<K, V>, j: nat)
    requires size > 0 && ChainFits(hash, size, c, b, m) && j < |c|
    ensures ChainFits(hash, size, c[..j] + c[j + 1..], b, m - {c[j].0})
  {
    var k0 := c[j].0;
    var c', m' := c[..j] + c[j + 1..], m - {k0};
    forall i | 0 <= i < |c'|
      ensures Bucket(hash, size, c'[i].0) == b && c'[i].0 in m' && m'[c'[i].0] == c'[i].1
    {
      var i0 := if i < j then i else i + 1;
      assert c'[i] == c[i0] && c[i0].0 != k0;
    }
    forall i, l | 0 <= i < l < |c'| ensures c'[i].0 != c'[l].0 {
      assert c'[i] == c[if i < j then i else i + 1] && c'[l] == c[if l < j then l else l + 1];
    }
    forall k | k in m' && Bucket(hash, size, k) == b ensures Listed(c', k) {
      assert Listed(c, k);
      var i :| 0 <= i < |c| && c[i].0 == k;
      assert c'[if i < j then i else i - 1].0 == k;
    }
  }

  lemma ChainInsert<K(!new), V>(hash: K -> nat, size: nat, c: Chain<K, V>, m: map<K, V>, k: K, v: V, j: nat)
    requires size > 0 && ChainFits(hash, size, c, Bucket(hash, size, k), m) && k !in m && j <= |c|
    ensures ChainFits(hash, size, c[..j] + [(k, v)] + c[j..], Bucket(hash, size, k), m[k := v])
  {
    hide Bucket;
    var c' := c[..j] + [(k, v)] + c[j..];
    assert forall i :: 0 <= i < |c'| ==> c'[i] == if i < j then c[i] else if i == j then (k, v) else c[i - 1];
    forall i, l | 0 <= i < l < |c'| ensures c'[i].0 != c'[l].0 {
      assert forall q :: 0 <= q < |c| ==> c[q].0 != k;
    }
    forall x | x in m[k := v] && Bucket(hash, size, x) == Bucket(hash, size, k) ensures Listed(c', x) {
      if x == k {
        assert c'[j].0 == x;
      } else {
        assert Listed(c, x);
        var i :| 0 <= i < |c| && c[i].0 == x;
        assert c'[if i < j then i else i + 1].0 == x;
      }
    }
  }

  /** A change confined to the keys of one bucket leaves the other chains fitting. */
  lemma OtherChains<K(!new), V>(hash: K -> nat, chains: seq<Chain<K, V>>, m: map<K, V>, b: nat, c: Chain<K, V>,
                                m': map<K, V>)
    requires Represents(hash, chains, m) && b < |chains| && ChainFits(hash, |chains|, c, b, m')
    requires forall k :: k in m && Bucket(hash, |chains|, k) != b ==> k in m' && m'[k] == m[k]
    requires forall k :: k in m' && Bucket(hash, |chains|, k) != b ==> k in m
    ensures Represents(hash, chains[b := c], m')
  {
    var next := chains[b := c];
    forall b' | 0 <= b' < |next| ensures ChainFits(hash, |next|, next[b'], b', m') {
      assert ChainFits(hash, |chains|, chains[b'], b', m);
    }
  }

  lemma UpdateRepresents<K(!new), V>(hash: K -> nat, chains: seq<Chain<K, V>>, m: map<K, V>, b: nat, j: nat, v: V)
    requires Represents(hash, chains, m) && b < |chains| && j < |chains[b]|
    ensures var k := chains[b][j].0; Represents(hash, chains[b := chains[b][j := (k, v)]], m[k := v])
  {
    ChainUpdate(hash, |chains|, chains[b], b, m, j, v);
    var k := chains[b][j].0;
    OtherChains(hash, chains, m, b, chains[b][j := (k, v)], m[k := v]);
  }

  lemma DeleteRepresents<K(!new), V>(hash: K -> nat, chains: seq<Chain<K, V>>, m: map<K, V>, b: nat, j: nat)
    requires Represents(hash, chains, m) && b < |chains| && j < |chains[b]|
    ensures Represents(hash, chains[b := chains[b][..j] + chains[b][j + 1..]], m - {chains[b][j].0})
  {
    ChainDelete(hash, |chains|, chains[b], b, m, j);
    OtherChains(hash, chains, m, b, chains[b][..j] + chains[b][j + 1..], m - {chains[b][j].0});
  }

  /** A new entry at the head of its chain, or at its end. */
  lemma InsertRepresents<K(!new), V>(hash: K -> nat, chains: seq<Chain<K, V>>, m: map<K, V>, k: K, v: V)
    requires Represents(hash, chains, m) && k !in m
    ensures var b := Bucket(hash, |chains|, k);
            && Represents(hash, chains[b := [(k, v)] + chains[b]], m[k := v])
            && Represents(hash, chains[b := chains[b] + [(k, v)]], m[k := v])
  {
    var b := Bucket(hash, |chains|, k);
    var c := chains[b];
    ChainInsert(hash, |chains|, c, m, k, v, 0);
    assert c[..0] + [(k, v)] + c[0..] == [(k, v)] + c;
    OtherChains(hash, chains, m, b, [(k, v)] + c, m[k := v]);
    ChainInsert(hash, |chains|, c, m, k, v, |c|);
    assert c[..|c|] + [(k, v)] + c[|c|..] == c + [(k, v)];
    OtherChains(hash, chains, m, b, c + [(k, v)], m[k := v]);
  }

  // ----- listings -----

  /** The keys of a list of entries are distinct. */
  ghost predicate DistinctItems<K, V>(items: Chain<K, V>) {
    forall i, j :: 0 <= i < j < |items| ==> items[i].0 != items[j].0
  }

  /** A list of all entries of the map, each once. */
  ghost predicate Enumerates<K, V>(items: Chain<K, V>, m: map<K, V>) {
    && DistinctItems(items)
    && (forall i :: 0 <= i < |items| ==> items[i].0 in m && m[items[i].0] == items[i].1)
    && (forall k :: k in m ==> Listed(items, k))
  }

  /** The list so far covers the buckets below `b` and the first `j` entries of bucket `b`. */
  ghost predicate Covers<K(!new), V>(hash: K -> nat, chains: seq<Chain<K, V>>, m: map<K, V>, items: Chain<K, V>,
                                     b: nat, j: nat)
    requires |chains| > 0 && (b < |chains| ==> j <= |chains[b]|)
  {
    && DistinctItems(items)
    && (forall i :: 0 <= i < |items| ==> items[i].0 in m && m[items[i].0] == items[i].1)
    && (forall i :: 0 <= i < |items| ==>
          var at := Bucket(hash, |chains|, items[i].0);
          at < b || (at == b < |chains| && Listed(chains[b][..j], items[i].0)))
    && (forall k :: k in m && Bucket(hash, |chains|, k) < b ==> Listed(items, k))
    && (b < |chains| ==> forall i :: 0 <= i < j ==> Listed(items, chains[b][i].0))
  }

  lemma CoversStep<K(!new), V>(hash: K -> nat, chains: seq<Chain<K, V>>, m: map<K, V>, items: Chain<K, V>,
                               b: nat, j: nat)
    requires Represents(hash, chains, m) && b < |chains| && j < |chains[b]| && Covers(hash, chains, m, items, b, j)
    ensures Covers(hash, chains, m, items + [chains[b][j]], b, j + 1)
  {
    var c := chains[b];
    var next := items + [c[j]];
    assert ChainFits(hash, |chains|, c, b, m);
    forall i | 0 <= i < |items| ensures items[i].0 != c[j].0 {
      if Listed(c[..j], items[i].0) {
        var l :| 0 <= l < j && c[..j][l].0 == items[i].0;
        assert c[l].0 != c[j].0;
      }
    }
    forall k | Listed(items, k) ensures Listed(next, k) {
      var i :| 0 <= i < |items| && items[i].0 == k;
      assert next[i].0 == k;
    }
    assert next[|items|].0 == c[j].0;
    forall k | Listed(c[..j], k) || k == c[j].0 ensures Listed(c[..j + 1], k) {
      if k == c[j].0 {
        assert c[..j + 1][j].0 == k;
      } else {
        var i :| 0 <= i < j && c[..j][i].0 == k;
        assert c[..j + 1][i].0 == k;
      }
    }
  }

  lemma CoversNothing<K(!new), V>(hash: K -> nat, chains: seq<Chain<K, V>>, m: map<K, V>)
    requires Represents(hash, chains, m)
    ensures |chains| > 0 && Covers(hash, chains, m, [], 0, 0)
  {}

  lemma CoversAll<K(!new), V>(hash: K -> nat, chains: seq<Chain<K, V>>, m: map<K, V>, items: Chain<K, V>)
    requires Represents(hash, chains, m) && Covers(hash, chains, m, items, |chains|, 0)
    ensures Enumerates(items, m)
  {}

  lemma CoversBucket<K(!new), V>(hash: K -> nat, chains: seq<Chain<K, V>>, m: map<K, V>, items: Chain<K, V>, b: nat)
    requires Represents(hash, chains, m) && b < |chains| && Covers(hash, chains, m, items, b, |chains[b]|)
    ensures Covers(hash, chains, m, items, b + 1, 0)
  {
    forall k | k in m && Bucket(hash, |chains|, k) < b + 1 ensures Listed(items, k) {
      if Bucket(hash, |chains|, k) == b {
        assert ChainFits(hash, |chains|, chains[b], b, m);
        assert Listed(chains[b], k);
      }
    }
  }

  // ----- sweeps -----

  /** What a sweep does to an entry: None drops it, Some keeps it with the given value. */
  type Fate<!K, !V> = (K, V) -> Option<V>

  /** The map after the keys in `done` have met their fate. */
  ghost function Swept<K, V>(m: map<K, V>, done: set<K>, f: Fate<K, V>): map<K, V> {
    map k | k in m && (k in done ==> f(k, m[k]).Some?) :: if k in done then f(k, m[k]).value else m[k]
  }

  /** The keys in `done` whose entry the sweep changes or drops. */
  ghost function Touched<K, V>(m: map<K, V>, done: set<K>, f: Fate<K, V>): set<K> {
    set k | k in m && k in done && f(k, m[k]) != Some(m[k])
  }

  ghost function BucketKeys<K, V>(hash: K -> nat, size: nat, m: map<K, V>, b: nat): set<K>
    requires size > 0
  {
    set k | k in m && Bucket(hash, size, k) == b
  }

  ghost function BelowKeys<K, V>(hash: K -> nat, size: nat, m: map<K, V>, b: nat): set<K>
    requires size > 0
  {
    set k | k in m && Bucket(hash, size, k) < b
  }

  lemma BelowStep<K, V>(hash: K -> nat, size: nat, m: map<K, V>, f: Fate<K, V>, b: nat)
    requires size > 0
    ensures var below := BelowKeys(hash, size, m, b);
            var here := BucketKeys(hash, size, Swept(m, below, f), b);
            && here == BucketKeys(hash, size, m, b) && below !! here
            && BelowKeys(hash, size, m, b + 1) == below + here
  {}

  lemma SweptNone<K, V>(m: map<K, V>, f: Fate<K, V>)
    ensures Swept(m, {}, f) == m && Touched(m, {}, f) == {}
  {}

  /** Once every key of the bucket that is left has been visited, the whole bucket has been. */
  lemma SweptAll<K, V>(hash: K -> nat, size: nat, m: map<K, V>, done: set<K>, f: Fate<K, V>, b: nat)
    requires size > 0 && done <= BucketKeys(hash, size, m, b)
    requires forall k :: k in Swept(m, done, f) && Bucket(hash, size, k) == b ==> k in done
    ensures done == BucketKeys(hash, size, m, b)
  {
    forall k | k in BucketKeys(hash, size, m, b) ensures k in done {
      assert k !in done ==> k in Swept(m, done, f);
    }
  }

  lemma SweptTwice<K, V>(m: map<K, V>, a: set<K>, b: set<K>, f: Fate<K, V>)
    requires a !! b
    ensures Swept(Swept(m, a, f), b, f) == Swept(m, a + b, f)
    ensures Touched(m, a + b, f) == Touched(m, a, f) + Touched(Swept(m, a, f), b, f)
    ensures |Touched(m, a + b, f)| == |Touched(m, a, f)| + |Touched(Swept(m, a, f), b, f)|
  {
    var u, v := Touched(m, a, f), Touched(Swept(m, a, f), b, f);
    assert Touched(m, a + b, f) == u + v;
    assert u !! v;
  }

  /** One entry meets its fate. */
  lemma SweptOne<K, V>(m: map<K, V>, done: set<K>, k: K, f: Fate<K, V>)
    requires k in Swept(m, done, f) && k !in done
    ensures var now := Swept(m, done, f);
            && k in m && now[k] == m[k]
            && Swept(m, done + {k}, f) == (match f(k, m[k]) case None => now - {k} case Some(v) => now[k := v])
    ensures |Touched(m, done + {k}, f)| == |Touched(m, done, f)| + (if f(k, m[k]) == Some(m[k]) then 0 else 1)
  {
    var t := Touched(m, done, f);
    assert Touched(m, done + {k}, f) == if f(k, m[k]) == Some(m[k]) then t else t + {k};
  }

  // ----- the linked nodes -----

  class Node<K, V> {
    const key: K
    var val: V
    var next: Node?<K, V>

    constructor (key: K, val: V, next: Node?<K, V>)
      ensures this.key == key && this.val == val && this.next == next
    {
      this.key, this.val, this.next := key, val, next;
    }
  }

  /** The `j`-th node of a list, or the null that ends it. */
  ghost function At<K, V>(nodes: seq<Node<K, V>>, j: nat): Node?<K, V> {
    if j < |nodes| then nodes[j] else null
  }

  /** A walk over a list stands before its `j`-th node: the keys behind it are in `done`, the others are not. */
  ghost predicate Stands<K, V>(row: seq<Node<K, V>>, j: nat, prev: Node?<K, V>, entry: Node?<K, V>, done: set<K>) {
    && j <= |row| && entry == At(row, j)
    && prev == (if j > 0 then row[j - 1] else null)
    && (forall i :: 0 <= i < j ==> row[i].key in done)
    && (forall i :: j <= i < |row| ==> row[i].key !in done)
  }

  /** The walk moves on, over a node that stays or past one that is cut out. */
  lemma StandsOn<K, V>(row: seq<Node<K, V>>, j: nat, prev: Node?<K, V>, entry: Node<K, V>, done: set<K>)
    requires Stands(row, j, prev, entry, done)
    requires forall i, l :: 0 <= i < l < |row| ==> row[i].key != row[l].key
    ensures j < |row| && row[j] == entry && prev == (if j > 0 then row[j - 1] else null)
    ensures Stands(row, j + 1, entry, At(row, j + 1), done + {entry.key})
    ensures Stands(row[..j] + row[j + 1..], j, prev, At(row, j + 1), done + {entry.key})
  {
    var cut := row[..j] + row[j + 1..];
    assert forall i :: 0 <= i < |cut| ==> cut[i] == row[if i < j then i else i + 1];
    assert At(cut, j) == At(row, j + 1);
  }

  class HashTable<K(==,!new), V(==)> {
    const hash: K -> nat
    const buckets: array<Node?<K, V>>
    ghost var nodes: seq<seq<Node<K, V>>>
    ghost var chains: seq<Chain<K, V>>
    ghost var M: map<K, V>
    ghost var Repr: set<object>

    /** The `j`-th node of bucket `b` holds its entry and links to the next one. */
    ghost predicate NodeLinked(b: nat, j: nat)
      requires b < |nodes| == |chains| && j < |nodes[b]| == |chains[b]|
      reads this, Repr
    {
      var n := nodes[b][j];
      && n in Repr
      && Bucket(hash, |nodes|, n.key) == b
      && (n.key, n.val) == chains[b][j]
      && n.next == At(nodes[b], j + 1)
    }

    /** Bucket `b` links exactly `nodes[b]`, whose contents are `chains[b]`. */
    ghost predicate Linked(b: nat)
      requires b < |nodes| == |chains| == buckets.Length
      reads this, Repr, buckets
    {
      && |nodes[b]| == |chains[b]|
      && buckets[b] == At(nodes[b], 0)
      && (forall j :: 0 <= j < |nodes[b]| ==> NodeLinked(b, j))
      && (forall i, j :: 0 <= i < j < |nodes[b]| ==> nodes[b][i] != nodes[b][j])
    }

    ghost predicate Valid()
      reads this, Repr
      ensures Valid() ==> this in Repr && buckets in Repr
    {
      && this in Repr && buckets in Repr
      && |nodes| == |chains| == buckets.Length > 0
      && (forall b :: 0 <= b < |nodes| ==> Linked(b))
      && Represents(hash, chains, M)
    }

    /** An operation that touches one bucket leaves the others linked. */
    twostate lemma OthersLinked(b: nat)
      requires old(|nodes| == |chains| == buckets.Length)
      requires old(forall b' :: 0 <= b' < |nodes| ==> Linked(b'))
      requires |nodes| == |chains| == buckets.Length && b < |nodes|
      requires old(Repr) <= Repr
      requires forall b' :: 0 <= b' < |nodes| && b' != b ==>
                 && nodes[b'] == old(nodes[b']) && chains[b'] == old(chains[b'])
                 && buckets[b'] == old(buckets[b'])
      requires forall n: Node<K, V> :: old(allocated(n)) && Bucket(hash, |nodes|, n.key) != b ==>
                 n.val == old(n.val) && n.next == old(n.next)
      ensures forall b' :: 0 <= b' < |nodes| && b' != b ==> Linked(b')
    {
      forall b' | 0 <= b' < |nodes| && b' != b ensures Linked(b') {
        assert old(Linked(b'));
        forall j | 0 <= j < |nodes[b']| ensures NodeLinked(b', j) {
          assert old(NodeLinked(b', j));
        }
      }
    }

    /** `n` is the `j`-th node of its bucket. */
    ghost predicate IsNode(n: Node?<K, V>, j: nat)
      reads this
    {
      n != null && |nodes| == buckets.Length > 0 &&
      var b := Bucket(hash, |nodes|, n.key);
      j < |nodes[b]| && nodes[b][j] == n
    }

    constructor (size: nat, hash: K -> nat)
      requires size > 0
      ensures Valid() && fresh(Repr)
      ensures M == map[] && this.hash == hash && buckets.Length == size
    {
      this.hash := hash;
      buckets := new Node?<K, V>[size](_ => null);
      nodes := seq(size, _ => []);
      chains := seq(size, _ => []);
      M := map[];
      new;
      Repr := {this, buckets};
    }

    /** The walk every table function starts with: the node of `k`, or null and the last node walked over. */
    method Find(k: K) returns (prev: Node?<K, V>, n: Node?<K, V>, ghost j: nat)
      requires Valid()
      ensures n == null <==> k !in M
      ensures var b := Bucket(hash, |nodes|, k);
              && j <= |nodes[b]| && n == At(nodes[b], j)
              && prev == if j > 0 then nodes[b][j - 1] else null
      ensures n != null ==> n.key == k && IsNode(n, j) && n.val == M[k]
    {
      var b := hash(k) % buckets.Length;
      assert Linked(b) && ChainFits(hash, |chains|, chains[b], b, M);
      n := buckets[b];
      prev := null;
      j := 0;
      while n != null
        invariant j <= |nodes[b]| && n == At(nodes[b], j)
        invariant prev == if j > 0 then nodes[b][j - 1] else null
        invariant forall i :: 0 <= i < j ==> chains[b][i].0 != k
        decreases |nodes[b]| - j
      {
        assert NodeLinked(b, j);
        if n.key == k {
          return;
        }
        prev := n;
        n := n.next;
        j := j + 1;
      }
      assert !Listed(chains[b], k);
    }

    /** Overwrites the value of a node in place. */
    method SetVal(n: Node<K, V>, ghost j: nat, v: V)
      requires Valid() && IsNode(n, j)
      modifies Repr
      ensures Valid() && Repr == old(Repr) && nodes == old(nodes)
      ensures M == old(M)[n.key := v]
    {
      ghost var b := Bucket(hash, |nodes|, n.key);
      assert Linked(b) && NodeLinked(b, j);
      hide Represents;
      UpdateRepresents(hash, chains, M, b, j, v);
      n.val := v;
      chains := chains[b := chains[b][j := (n.key, v)]];
      M := M[n.key := v];
      assert Linked(b) by {
        forall i | 0 <= i < |nodes[b]| ensures NodeLinked(b, i) {
          assert old(NodeLinked(b, i));
        }
      }
      OthersLinked(b);
    }

    /** Inserts a new node at the head of its bucket. */
    method Prepend(k: K, v: V)
      requires Valid() && k !in M
      modifies Repr
      ensures Valid() && fresh(Repr - old(Repr))
      ensures M == old(M)[k := v]
    {
      var b := hash(k) % buckets.Length;
      assert Linked(b);
      hide Represents;
      InsertRepresents(hash, chains, M, k, v);
      var n := new Node(k, v, buckets[b]);
      buckets[b] := n;
      nodes := nodes[b := [n] + nodes[b]];
      chains := chains[b := [(k, v)] + chains[b]];
      M := M[k := v];
      Repr := Repr + {n};
      assert Linked(b) by {
        forall i | 0 <= i < |nodes[b]| ensures NodeLinked(b, i) {
          assert i > 0 ==> old(NodeLinked(b, i - 1));
        }
      }
      OthersLinked(b);
    }

    /** Inserts a new node behind the last node of its bucket, which the walk has found. */
    method Append(last: Node?<K, V>, k: K, v: V)
      requires Valid() && k !in M
      requires var c := nodes[Bucket(hash, |nodes|, k)]; last == if c == [] then null else c[|c| - 1]
      modifies Repr
      ensures Valid() && fresh(Repr - old(Repr))
      ensures M == old(M)[k := v]
    {
      var b := hash(k) % buckets.Length;
      assert Linked(b) && (last != null ==> NodeLinked(b, |nodes[b]| - 1));
      hide Represents;
      InsertRepresents(hash, chains, M, k, v);
      var n := new Node(k, v, null);
      if last == null {
        buckets[b] := n;
      } else {
        last.next := n;
      }
      nodes := nodes[b := nodes[b] + [n]];
      chains := chains[b := chains[b] + [(k, v)]];
      M := M[k := v];
      Repr := Repr + {n};
      assert Linked(b) by {
        forall i | 0 <= i < |nodes[b]| ensures NodeLinked(b, i) {
          assert i < |nodes[b]| - 1 ==> old(NodeLinked(b, i));
        }
      }
      OthersLinked(b);
    }

    /** With one node cut out, the `cut.1`-th of bucket `cut.0`, all buckets are linked again. */
    twostate lemma LinkedWithout(cut: (nat, nat))
      requires old(|nodes| == |chains| == buckets.Length && cut.0 < |nodes| && cut.1 < |nodes[cut.0]|)
      requires old(forall b' :: 0 <= b' < |nodes| ==> Linked(b'))
      requires |nodes| == |chains| == buckets.Length && cut.0 < |nodes| && old(Repr) <= Repr
      requires var (b, j) := cut; nodes[b] == old(nodes[b][..j] + nodes[b][j + 1..])
      requires var (b, j) := cut; old(|chains[b]| == |nodes[b]|) && chains[b] == old(chains[b][..j] + chains[b][j + 1..])
      requires var (b, j) := cut; j == 0 ==> buckets[b] == old(At(nodes[b], 1))
      requires var (b, j) := cut;
               j > 0 ==> buckets[b] == old(buckets[b]) && old(nodes[b])[j - 1].next == old(At(nodes[b], j + 1))
      requires var was := old(nodes[cut.0]); forall i :: 0 <= i < |was| ==> was[i].val == old(was[i].val)
      requires var was, j := old(nodes[cut.0]), cut.1;
               forall i :: 0 <= i < |was| && i != j && i + 1 != j ==> was[i].next == old(was[i].next)
      requires forall b' :: 0 <= b' < |nodes| && b' != cut.0 ==>
                 && nodes[b'] == old(nodes[b']) && chains[b'] == old(chains[b'])
                 && buckets[b'] == old(buckets[b'])
      requires forall n: Node<K, V> :: old(allocated(n)) && Bucket(hash, |nodes|, n.key) != cut.0 ==>
                 n.val == old(n.val) && n.next == old(n.next)
      ensures forall b' :: 0 <= b' < |nodes| ==> Linked(b')
    {
      hide Bucket;
      var (b, j) := cut;
      var was := old(nodes[b]);
      assert old(Linked(b));
      forall i | 0 <= i < |nodes[b]| ensures NodeLinked(b, i) {
        var before := if i < j then i else i + 1;
        assert old(NodeLinked(b, before)) && nodes[b][i] == was[before] && chains[b][i] == old(chains[b])[before];
      }
      assert Linked(b);
      OthersLinked(b);
    }

    /** Unlinks the `j`-th node of bucket `b`, whose predecessor is `prev`. */
    method Unlink(b: nat, ghost j: nat, prev: Node?<K, V>, n: Node<K, V>)
      requires Valid() && b < |nodes| && j < |nodes[b]| && nodes[b][j] == n
      requires prev == if j > 0 then nodes[b][j - 1] else null
      modifies Repr
      ensures Valid() && Repr == old(Repr)
      ensures nodes == old(nodes[b := nodes[b][..j] + nodes[b][j + 1..]])
      ensures M == old(M) - {n.key}
    {
      assert Linked(b) && NodeLinked(b, j) && (j > 0 ==> NodeLinked(b, j - 1));
      hide Represents;
      DeleteRepresents(hash, chains, M, b, j);
      if prev != null {
        prev.next := n.next;
      } else {
        buckets[b] := n.next;
      }
      nodes := nodes[b := nodes[b][..j] + nodes[b][j + 1..]];
      chains := chains[b := chains[b][..j] + chains[b][j + 1..]];
      M := M - {n.key};
      LinkedWithout((b, j));
    }

    /** Removes the entry of `k`, if there is one. */
    method Remove(k: K) returns (found: bool)
      requires Valid()
      modifies Repr
      ensures Valid() && Repr == old(Repr)
      ensures found <==> k in old(M)
      ensures M == old(M) - {k}
    {
      var prev, n, j := Find(k);
      if n == null {
        return false;
      }
      Unlink(hash(k) % buckets.Length, j, prev, n);
      return true;
    }

    /** The nodes of a bucket carry distinct keys: all keys of the map that belong there. */
    lemma DistinctKeys(b: nat)
      requires Valid() && b < |nodes|
      ensures |nodes| == buckets.Length > 0 && buckets[b] == At(nodes[b], 0)
      ensures forall i, j :: 0 <= i < j < |nodes[b]| ==> nodes[b][i].key != nodes[b][j].key
      ensures forall j :: 0 <= j < |nodes[b]| ==>
                && nodes[b][j].key in M && M[nodes[b][j].key] == nodes[b][j].val
                && Bucket(hash, |nodes|, nodes[b][j].key) == b
                && nodes[b][j].next == At(nodes[b], j + 1)
      ensures forall k :: k in M && Bucket(hash, |nodes|, k) == b ==>
                exists j :: 0 <= j < |nodes[b]| && nodes[b][j].key == k
    {
      var c := chains[b];
      assert Linked(b) && ChainFits(hash, |chains|, c, b, M);
      forall j | 0 <= j < |nodes[b]|
        ensures (nodes[b][j].key, nodes[b][j].val) == c[j] && nodes[b][j].next == At(nodes[b], j + 1)
      {
        assert NodeLinked(b, j);
      }
      forall i, j | 0 <= i < j < |nodes[b]| ensures nodes[b][i].key != nodes[b][j].key {
        assert c[i].0 != c[j].0;
      }
      forall k | k in M && Bucket(hash, |nodes|, k) == b
        ensures exists j :: 0 <= j < |nodes[b]| && nodes[b][j].key == k
      {
        assert Listed(c, k);
        var j :| 0 <= j < |c| && c[j].0 == k;
        assert nodes[b][j].key == k;
      }
    }

    ghost predicate Standing(b: nat, j: nat, prev: Node?<K, V>, entry: Node?<K, V>, done: set<K>)
      reads this
    {
      b < |nodes| && Stands(nodes[b], j, prev, entry, done)
    }

    /** The nodes ahead of the walk. */
    ghost function Ahead(b: nat, j: nat): int
      reads this
    {
      if b < |nodes| then |nodes[b]| - j else 0
    }

    /** One node meets its fate and the walk moves on. */
    method SweepNode(b: nat, ghost j: nat, prev: Node?<K, V>, entry: Node<K, V>, v: Option<V>, ghost done: set<K>)
      returns (last: Node?<K, V>, next: Node?<K, V>, ghost at: nat)
      requires Valid() && Standing(b, j, prev, entry, done)
      modifies Repr
      ensures Valid() && Repr == old(Repr) && |nodes| == old(|nodes|)
      ensures M == match v case None => old(M) - {entry.key} case Some(x) => old(M)[entry.key := x]
      ensures Standing(b, at, last, next, done + {entry.key}) && Ahead(b, at) == old(Ahead(b, j)) - 1
    {
      DistinctKeys(b);
      StandsOn(nodes[b], j, prev, entry, done);
      hide Valid;
      hide Stands;
      last, next, at := prev, entry.next, j;
      match v {
        case None =>
          Unlink(b, j, prev, entry);
        case Some(x) =>
          SetVal(entry, j, x);
          last, at := entry, j + 1;
      }
    }

    lemma WalkBegins(b: nat)
      requires Valid() && b < |nodes|
      ensures |nodes| == buckets.Length > 0 && Standing(b, 0, null, buckets[b], {}) && Ahead(b, 0) >= 0
    {
      DistinctKeys(b);
    }

    /** What the walk knows of the entry it stands before, and of the whole bucket at its end. */
    lemma WalkStands(b: nat, j: nat, prev: Node?<K, V>, entry: Node?<K, V>, done: set<K>)
      requires Valid() && Standing(b, j, prev, entry, done)
      ensures |nodes| == buckets.Length > 0 && Ahead(b, j) >= 0
      ensures entry != null ==>
                && entry.key in M && entry.key !in done && M[entry.key] == entry.val
                && Bucket(hash, |nodes|, entry.key) == b && Ahead(b, j) > 0
      ensures entry == null ==> forall k :: k in M && Bucket(hash, |nodes|, k) == b ==> k in done
    {
      DistinctKeys(b);
      hide Valid;
      hide Bucket;
    }

    /** Walks bucket `b`, overwriting or unlinking nodes in place. */
    method SweepBucket(b: nat, f: Fate<K, V>) returns (touched: nat)
      requires Valid() && b < |nodes|
      modifies Repr
      ensures Valid() && Repr == old(Repr)
      ensures var d := BucketKeys(hash, |nodes|, old(M), b);
              && M == Swept(old(M), d, f) && touched == |Touched(old(M), d, f)|
    {
      WalkBegins(b);
      hide Valid;
      hide Standing;
      hide Ahead;
      hide Swept;
      hide Touched;
      ghost var done := {};
      SweptNone(M, f);
      touched := 0;
      var prev: Node?<K, V>, entry := null, buckets[b];
      ghost var j := 0;
      while entry != null
        invariant Valid() && Repr == old(Repr) && |nodes| == old(|nodes|) && this in Repr
        invariant Standing(b, j, prev, entry, done) && Ahead(b, j) >= 0
        invariant M == Swept(old(M), done, f) && touched == |Touched(old(M), done, f)|
        invariant done <= BucketKeys(hash, |nodes|, old(M), b)
        decreases Ahead(b, j)
      {
        WalkStands(b, j, prev, entry, done);
        SweptOne(old(M), done, entry.key, f);
        var v := f(entry.key, entry.val);
        if v != Some(entry.val) {
          touched := touched + 1;
        }
        ghost var key := entry.key;
        prev, entry, j := SweepNode(b, j, prev, entry, v, done);
        done := done + {key};
        WalkStands(b, j, prev, entry, done);
      }
      WalkStands(b, j, prev, entry, done);
      SweptAll(hash, |nodes|, old(M), done, f, b);
    }

    /** Lets every entry meet its fate; counts the entries changed or dropped. */
    method Sweep(f: Fate<K, V>) returns (touched: nat)
      requires Valid()
      modifies Repr
      ensures Valid() && Repr == old(Repr)
      ensures M == Swept(old(M), old(M).Keys, f) && touched == |Touched(old(M), old(M).Keys, f)|
    {
      hide Represents;
      hide Linked;
      hide Swept;
      hide Touched;
      ghost var done := {};
      SweptNone(M, f);
      touched := 0;
      var b := 0;
      while b < buckets.Length
        invariant Valid() && Repr == old(Repr) && b <= |nodes| == buckets.Length
        invariant M == Swept(old(M), done, f) && touched == |Touched(old(M), done, f)|
        invariant done == BelowKeys(hash, |nodes|, old(M), b)
      {
        ghost var here := BucketKeys(hash, |nodes|, M, b);
        BelowStep(hash, |nodes|, old(M), f, b);
        SweptTwice(old(M), done, here, f);
        var n := SweepBucket(b, f);
        touched := touched + n;
        done := done + here;
        b := b + 1;
      }
      assert done == old(M).Keys;
    }

    /** Walks every chain of every bucket and lists the entries met. */
    method Entries() returns (items: seq<(K, V)>)
      requires Valid()
      ensures Enumerates(items, M)
    {
      hide Represents;
      hide Covers;
      items := [];
      var b := 0;
      CoversNothing(hash, chains, M);
      while b < buckets.Length
        invariant 0 <= b <= |nodes| == |chains| == buckets.Length
        invariant Covers(hash, chains, M, items, b, 0)
      {
        var n := buckets[b];
        ghost var j := 0;
        assert Linked(b);
        while n != null
          invariant 0 <= j <= |nodes[b]| == |chains[b]| && n == At(nodes[b], j)
          invariant Covers(hash, chains, M, items, b, j)
          decreases |nodes[b]| - j
        {
          assert NodeLinked(b, j);
          CoversStep(hash, chains, M, items, b, j);
          items := items + [(n.key, n.val)];
          n := n.next;
          j := j + 1;
        }
        CoversBucket(hash, chains, M, items, b);
        b := b + 1;
      }
      CoversAll(hash, chains, M, items);
    }
  }
}
