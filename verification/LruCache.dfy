/**
  The cache in front of the file map: a doubly linked list, most recently used first
  (nameserver/nameserver.c:76-285).
*/
module LruCaches {
  import opened Text

  const LRU_CACHE_SIZE := 100

  // ----- the cache as a list -----

  type Cache = seq<(string, int)>

  /** Where a key stands, or the length of the list. */
  function Position(c: Cache, f: string): (i: nat)
    ensures i <= |c|
    ensures i < |c| ==> c[i].0 == f
    ensures forall l :: 0 <= l < i ==> c[l].0 != f
  {
    if c == [] || c[0].0 == f then 0 else 1 + Position(c[1..], f)
  }

  predicate Cached(c: Cache, f: string) {
    Position(c, f) < |c|
  }

  function Dropped(c: Cache, i: nat): Cache
    requires i < |c|
  {
    c[..i] + c[i + 1..]
  }

  function Get(c: Cache, f: string): (Cache, int) {
    var i := Position(c, f);
    if i < |c| then ([c[i]] + Dropped(c, i), c[i].1) else (c, -1)
  }

  /** A new key pushes the least recently used one out of a full cache. */
  function Put(c: Cache, f: string, ss: int): Cache {
    var i := Position(c, f);
    if i < |c| then [(f, ss)] + Dropped(c, i)
    else if |c| < LRU_CACHE_SIZE then [(f, ss)] + c
    else ([(f, ss)] + c)[..LRU_CACHE_SIZE]
  }

  function Invalidate(c: Cache, f: string): Cache {
    var i := Position(c, f);
    if i < |c| then Dropped(c, i) else c
  }

  // ----- the linked list -----

  /** Cutting one element out of a list without repetition. */
  lemma CutOut<T>(s: seq<T>, i: nat)
    requires i < |s| && forall j, l :: 0 <= j < l < |s| ==> s[j] != s[l]
    ensures var t := s[..i] + s[i + 1..];
            && s[i] !in t && (forall j, l :: 0 <= j < l < |t| ==> t[j] != t[l])
            && forall j :: 0 <= j < |t| ==> t[j] == s[if j < i then j else j + 1]
  {}

  class LruNode {
    const filename: string
    var ss: int
    var prev: LruNode?
    var next: LruNode?

    constructor (filename: string, ss: int, next: LruNode?)
      ensures this.filename == filename && this.ss == ss && prev == null && this.next == next
    {
      this.filename, this.ss, this.prev, this.next := filename, ss, null, next;
    }
  }

  ghost function At(nodes: seq<LruNode>, i: int): LruNode? {
    if 0 <= i < |nodes| then nodes[i] else null
  }

  class LruCache {
    var head: LruNode?
    var tail: LruNode?
    var size: nat
    var hits: nat
    var misses: nat
    ghost var nodes: seq<LruNode>
    ghost var contents: Cache
    ghost var Repr: set<object>

    /** The `i`-th node holds its entry and is linked both ways. */
    ghost predicate Linked(i: nat)
      requires i < |nodes| == |contents|
      reads this, Repr
    {
      var n := nodes[i];
      n in Repr && (n.filename, n.ss) == contents[i] && n.next == At(nodes, i + 1) && n.prev == At(nodes, i - 1)
    }

    /** The list is exactly `nodes`, acyclic and of the recorded size. */
    ghost predicate LinkedList()
      reads this, Repr
    {
      && this in Repr && |nodes| == |contents|
      && head == At(nodes, 0) && tail == At(nodes, |nodes| - 1) && size == |nodes|
      && (forall i :: 0 <= i < |nodes| ==> Linked(i))
      && (forall i, j :: 0 <= i < j < |nodes| ==> nodes[i] != nodes[j])
    }

    ghost predicate Valid()
      reads this, Repr
      ensures Valid() ==> this in Repr
    {
      LinkedList() && CacheOk(contents)
    }

    constructor ()
      ensures Valid() && fresh(Repr) && contents == []
    {
      head, tail, size, hits, misses := null, null, 0, 0, 0;
      nodes, contents := [], [];
      Repr := {this};
    }

    /** The walk shared by all three operations. */
    method Find(filename: string) returns (node: LruNode?, ghost i: nat)
      requires LinkedList()
      ensures i == Position(contents, filename) && node == At(nodes, i)
      ensures node != null ==> node.filename == filename && node.ss == contents[i].1
    {
      node := head;
      i := 0;
      while node != null
        invariant i <= |nodes| && node == At(nodes, i)
        invariant forall l :: 0 <= l < i ==> contents[l].0 != filename
        decreases |nodes| - i
      {
        assert Linked(i);
        if node.filename == filename {
          break;
        }
        node := node.next;
        i := i + 1;
      }
      assert node != null ==> Linked(i);
      PositionIs(contents, filename, i);
    }

    /** Closing the links over node `i` leaves the rest a linked list. */
    twostate lemma RelinkedWithout(i: nat)
      requires old(|nodes| == |contents|) && i < old(|nodes|)
      requires old(forall l :: 0 <= l < |nodes| ==> Linked(l))
      requires nodes == old(nodes)[..i] + old(nodes)[i + 1..] && contents == Dropped(old(contents), i)
      requires Repr == old(Repr)
      requires forall l :: 0 <= l < old(|nodes|) && l != i ==>
                 var n := old(nodes)[l];
                 && n.ss == old(n.ss)
                 && n.next == (if l == i - 1 then old(nodes[i].next) else old(n.next))
                 && n.prev == (if l == i + 1 then old(nodes[i].prev) else old(n.prev))
      ensures forall l :: 0 <= l < |nodes| ==> Linked(l)
    {
      ghost var ns := old(nodes);
      assert old(Linked(i));
      forall l | 0 <= l < |nodes| ensures Linked(l) {
        var l0 := if l < i then l else l + 1;
        assert nodes[l] == ns[l0] && contents[l] == old(contents)[l0];
        assert old(Linked(l0));
      }
    }

    /** Unlinks a node from wherever it stands. */
    method Detach(node: LruNode, ghost i: nat)
      requires LinkedList() && i < |nodes| && nodes[i] == node
      modifies Repr
      ensures LinkedList() && Repr == old(Repr)
      ensures contents == Dropped(old(contents), i) && node !in nodes
      ensures node.ss == old(node.ss)
    {
      assert Linked(i) && (i > 0 ==> Linked(i - 1)) && (i + 1 < |nodes| ==> Linked(i + 1));
      CutOut(nodes, i);
      if node.prev != null {
        node.prev.next := node.next;
      }
      if node.next != null {
        node.next.prev := node.prev;
      }
      if node == head {
        head := node.next;
      }
      if node == tail {
        tail := node.prev;
      }
      size := size - 1;
      nodes := nodes[..i] + nodes[i + 1..];
      contents := Dropped(contents, i);
      RelinkedWithout(i);
    }

    /** Links a detached node in at the head. */
    method Attach(node: LruNode)
      requires LinkedList() && node !in nodes && node in Repr
      modifies Repr
      ensures LinkedList() && Repr == old(Repr)
      ensures contents == [(node.filename, old(node.ss))] + old(contents)
    {
      assert |nodes| > 0 ==> Linked(0);
      node.prev := null;
      node.next := head;
      if head != null {
        head.prev := node;
      }
      head := node;
      if tail == null {
        tail := node;
      }
      size := size + 1;
      nodes := [node] + nodes;
      contents := [(node.filename, node.ss)] + contents;
      forall l | 0 <= l < |nodes| ensures Linked(l) {
        if l > 0 {
          assert old(Linked(l - 1));
        }
      }
    }

    /** `lru_move_to_front`. */
    method MoveToFront(node: LruNode, ghost i: nat)
      requires LinkedList() && i < |nodes| && nodes[i] == node
      modifies Repr
      ensures LinkedList() && Repr == old(Repr)
      ensures contents == [old(contents)[i]] + Dropped(old(contents), i)
    {
      assert Linked(i);
      if node == head {
        assert contents == [contents[0]] + Dropped(contents, 0);
        return;
      }
      Detach(node, i);
      Attach(node);
    }

    /** The statistics. */
    method Count(hit: bool)
      requires LinkedList()
      modifies this`hits, this`misses
      ensures LinkedList()
    {
      if hit {
        hits := hits + 1;
      } else {
        misses := misses + 1;
      }
      forall l | 0 <= l < |nodes| ensures Linked(l) {
        assert old(Linked(l));
      }
    }

    /** `lru_get`. */
    method LruGet(filename: string) returns (ss: int)
      requires Valid()
      modifies Repr
      ensures Valid() && Repr == old(Repr)
      ensures (contents, ss) == Get(old(contents), filename)
    {
      GetKeepsOk(contents, filename);
      var node, i := Find(filename);
      Count(node != null);
      if node == null {
        return -1;
      }
      ss := node.ss;
      MoveToFront(node, i);
    }

    /** `lru_put`. */
    method LruPut(filename: string, ss: int)
      requires Valid()
      modifies Repr
      ensures Valid() && fresh(Repr - old(Repr))
      ensures contents == Put(old(contents), filename, ss)
    {
      PutKeepsOk(contents, filename, ss);
      var node, i := Find(filename);
      if node != null {
        assert Linked(i);
        node.ss := ss;
        contents := contents[i := (filename, ss)];
        forall l | 0 <= l < |nodes| ensures Linked(l) {
          assert old(Linked(l));
        }
        assert Dropped(contents, i) == Dropped(old(contents), i);
        MoveToFront(node, i);
        return;
      }
      var newNode := new LruNode(filename, ss, null);
      Repr := Repr + {newNode};
      forall l | 0 <= l < |nodes| ensures Linked(l) {
        assert old(Linked(l));
      }
      Attach(newNode);
      if size > LRU_CACHE_SIZE {
        ghost var last := |nodes| - 1;
        assert contents[..LRU_CACHE_SIZE] == Dropped(contents, last);
        Detach(tail, last);
      }
    }

    /** `lru_invalidate`. */
    method LruInvalidate(filename: string)
      requires Valid()
      modifies Repr
      ensures Valid() && Repr == old(Repr)
      ensures contents == Invalidate(old(contents), filename)
    {
      InvalidateKeepsOk(contents, filename);
      var node, i := Find(filename);
      if node != null {
        Detach(node, i);
      }
    }
  }

  lemma PositionIs(c: Cache, f: string, i: nat)
    requires i <= |c| && (i < |c| ==> c[i].0 == f)
    requires forall l :: 0 <= l < i ==> c[l].0 != f
    ensures Position(c, f) == i
  {}

  // ----- what the operations keep -----

  /** No key twice, and never more than 100 keys. */
  predicate CacheOk(c: Cache) {
    |c| <= LRU_CACHE_SIZE && forall i, j :: 0 <= i < j < |c| ==> c[i].0 != c[j].0
  }

  lemma DroppedKeeps(c: Cache, i: nat)
    requires CacheOk(c) && i < |c|
    ensures CacheOk(Dropped(c, i)) && forall l :: 0 <= l < |c| - 1 ==> Dropped(c, i)[l].0 != c[i].0
  {
    var d := Dropped(c, i);
    assert forall l :: 0 <= l < |d| ==> d[l] == c[if l < i then l else l + 1];
  }

  lemma GetKeepsOk(c: Cache, f: string)
    requires CacheOk(c)
    ensures CacheOk(Get(c, f).0)
  {
    if Cached(c, f) { DroppedKeeps(c, Position(c, f)); }
  }

  lemma PutKeepsOk(c: Cache, f: string, ss: int)
    requires CacheOk(c)
    ensures CacheOk(Put(c, f, ss))
  {
    if Cached(c, f) { DroppedKeeps(c, Position(c, f)); }
  }

  lemma InvalidateKeepsOk(c: Cache, f: string)
    requires CacheOk(c)
    ensures CacheOk(Invalidate(c, f))
  {
    if Cached(c, f) { DroppedKeeps(c, Position(c, f)); }
  }
}
