/** Access control lists: per file an owner, readers and writers (nameserver/acl.c). */
module Acl {
  import opened Text
  import opened Protocol
  import opened HashTables

  const ACL_HASH_SIZE := 1009
  const ACL_MAX_USERS := 50
  const ACCESS_READ := 1
  const ACCESS_WRITE := 2

  datatype AclEntry = AclEntry(owner: string, readers: seq<string>, writers: seq<string>)

  type AclMap = map<string, AclEntry>

  // ----- user lists -----

  /** `add_to_list` as a function: 0 already there, -1 full, 1 added. */
  function Added(list: seq<string>, user: string): (seq<string>, int) {
    if user in list then (list, 0)
    else if |list| >= ACL_MAX_USERS then (list, -1)
    else (list + [user], 1)
  }

  /** `is_in_list`. */
  method IsInList(list: seq<string>, user: string) returns (found: bool)
    ensures found <==> user in list
  {
    var i := 0;
    while i < |list|
      invariant 0 <= i <= |list| && user !in list[..i]
    {
      if list[i] == user {
        return true;
      }
      i := i + 1;
    }
    assert list[..i] == list;
    return false;
  }

  /** `add_to_list`. */
  method AddToList(list: seq<string>, user: string) returns (result: seq<string>, code: int)
    ensures (result, code) == Added(list, user)
  {
    var found := IsInList(list, user);
    if found {
      return list, 0;
    }
    if |list| >= ACL_MAX_USERS {
      return list, -1;
    }
    return list + [user], 1;
  }

  /** The shifting loop of `remove_from_list`: the entries behind position `i` move up by one. */
  method CloseGap(list: seq<string>, i: nat) returns (result: seq<string>)
    requires i < |list|
    ensures result == list[..i] + list[i + 1..]
  {
    var shifted := new string[|list|](k requires 0 <= k < |list| => list[k]);
    var j := i;
    assert shifted[..j] == list[..i];
    while j < |list| - 1
      invariant i <= j <= |list| - 1
      invariant shifted[..j] == list[..i] + list[i + 1..j + 1]
      invariant forall k :: j <= k < |list| ==> shifted[k] == list[k]
    {
      shifted[j] := shifted[j + 1];
      j := j + 1;
    }
    assert list[i + 1..j + 1] == list[i + 1..];
    result := shifted[..|list| - 1];
  }

  /** `remove_from_list`: drops the first match. */
  method RemoveFromList(list: seq<string>, user: string) returns (result: seq<string>, removed: bool)
    ensures result == RemoveFirst(list, user) && (removed <==> user in list)
  {
    var i := 0;
    while i < |list|
      invariant 0 <= i <= |list| && user !in list[..i]
      invariant RemoveFirst(list, user) == list[..i] + RemoveFirst(list[i..], user)
    {
      assert list[i..][1..] == list[i + 1..];
      if list[i] == user {
        result := CloseGap(list, i);
        return result, true;
      }
      i := i + 1;
    }
    assert list[..i] == list;
    return list, false;
  }

  // ----- the operations on the map of entries -----

  function AddFile(m: AclMap, file: string, owner: string): (AclMap, int) {
    if file in m then (m, -1) else (m[file := AclEntry(owner, [], [])], 0)
  }

  predicate IsOwner(m: AclMap, file: string, user: string) {
    file in m && m[file].owner == user
  }

  predicate CanWrite(m: AclMap, file: string, user: string) {
    file in m && (m[file].owner == user || user in m[file].writers)
  }

  /** Write implies read. */
  predicate CanRead(m: AclMap, file: string, user: string) {
    file in m && (m[file].owner == user || user in m[file].readers || user in m[file].writers)
  }

  function AddAccess(m: AclMap, file: string, user: string, access: int): (AclMap, int) {
    if file !in m || (access != ACCESS_READ && access != ACCESS_WRITE) then (m, -1)
    else if access == ACCESS_READ then
      var (list, code) := Added(m[file].readers, user);
      (m[file := m[file].(readers := list)], if code >= 0 then 0 else -1)
    else
      var (list, code) := Added(m[file].writers, user);
      (m[file := m[file].(writers := list)], if code >= 0 then 0 else -1)
  }

  function RemoveAccess(m: AclMap, file: string, user: string): (AclMap, int) {
    if file !in m then (m, -1)
    else
      var e := m[file];
      (m[file := e.(readers := RemoveFirst(e.readers, user), writers := RemoveFirst(e.writers, user))],
       if user in e.readers || user in e.writers then 0 else -1)
  }

  function RemoveFile(m: AclMap, file: string): (AclMap, int) {
    (m - {file}, if file in m then 0 else -1)
  }

  // ----- the table -----

  class AclTable {
    const table: HashTable<string, AclEntry>
    var fileCount: nat

    ghost predicate Valid()
      reads this, table, table.Repr
    {
      table.Valid() && this !in table.Repr && fileCount == |table.M|
    }

    /** `acl_init`. */
    constructor ()
      ensures Valid() && fresh(table) && fresh(table.Repr) && table.M == map[]
    {
      table := new HashTable(ACL_HASH_SIZE, Hash64);
      fileCount := 0;
    }

    /** `acl_add_file`. */
    method AclAddFile(file: string, owner: string) returns (code: int)
      requires Valid()
      modifies this, table.Repr
      ensures Valid() && fresh(table.Repr - old(table.Repr))
      ensures (table.M, code) == AddFile(old(table.M), file, owner)
    {
      var prev, node, j := table.Find(file);
      if node != null {
        return -1;
      }
      table.Prepend(file, AclEntry(owner, [], []));
      fileCount := fileCount + 1;
      SizeWith(old(table.M), file, AclEntry(owner, [], []));
      return 0;
    }

    /** `acl_check_read`. */
    method CheckRead(file: string, user: string) returns (allowed: bool)
      requires Valid()
      ensures allowed <==> CanRead(table.M, file, user)
    {
      var prev, node, j := table.Find(file);
      if node == null {
        return false;
      }
      if node.val.owner == user {
        return true;
      }
      var listed := IsInList(node.val.readers, user);
      if listed {
        return true;
      }
      allowed := IsInList(node.val.writers, user);
    }

    /** `acl_check_write`. */
    method CheckWrite(file: string, user: string) returns (allowed: bool)
      requires Valid()
      ensures allowed <==> CanWrite(table.M, file, user)
    {
      var prev, node, j := table.Find(file);
      if node == null {
        return false;
      }
      if node.val.owner == user {
        return true;
      }
      allowed := IsInList(node.val.writers, user);
    }

    /** `acl_check_owner`. */
    method CheckOwner(file: string, user: string) returns (owns: bool)
      requires Valid()
      ensures owns <==> IsOwner(table.M, file, user)
    {
      var prev, node, j := table.Find(file);
      return node != null && node.val.owner == user;
    }

    method SetEntry(node: Node<string, AclEntry>, ghost j: nat, entry: AclEntry)
      requires Valid() && table.IsNode(node, j) && node.key in table.M
      modifies table.Repr
      ensures Valid() && table.Repr == old(table.Repr)
      ensures table.M == old(table.M)[node.key := entry]
    {
      SizeWith(table.M, node.key, entry);
      table.SetVal(node, j, entry);
    }

    /** `acl_add_access`. */
    method AclAddAccess(file: string, user: string, access: int) returns (code: int)
      requires Valid()
      modifies table.Repr
      ensures Valid() && table.Repr == old(table.Repr)
      ensures (table.M, code) == AddAccess(old(table.M), file, user, access)
    {
      var prev, node, j := table.Find(file);
      if node == null {
        return -1;
      }
      var list, added;
      if access == ACCESS_READ {
        list, added := AddToList(node.val.readers, user);
        SetEntry(node, j, node.val.(readers := list));
      } else if access == ACCESS_WRITE {
        list, added := AddToList(node.val.writers, user);
        SetEntry(node, j, node.val.(writers := list));
      } else {
        return -1;
      }
      return if added >= 0 then 0 else -1;
    }

    /** `acl_remove_access`: from both lists. */
    method AclRemoveAccess(file: string, user: string) returns (code: int)
      requires Valid()
      modifies table.Repr
      ensures Valid() && table.Repr == old(table.Repr)
      ensures (table.M, code) == RemoveAccess(old(table.M), file, user)
    {
      var prev, node, j := table.Find(file);
      if node == null {
        return -1;
      }
      var readers, wasReader := RemoveFromList(node.val.readers, user);
      var writers, wasWriter := RemoveFromList(node.val.writers, user);
      SetEntry(node, j, node.val.(readers := readers, writers := writers));
      return if wasReader || wasWriter then 0 else -1;
    }

    /** `acl_remove_file`. */
    method AclRemoveFile(file: string) returns (code: int)
      requires Valid()
      modifies this, table.Repr
      ensures Valid() && table.Repr == old(table.Repr)
      ensures (table.M, code) == RemoveFile(old(table.M), file)
    {
      hide HashTable.Valid;
      SizeWithout(table.M, file);
      var found := table.Remove(file);
      if found {
        fileCount := fileCount - 1;
        return 0;
      }
      return -1;
    }

    /** `acl_get_accessible_files`: every file the user can read, unless the result is full. */
    method AccessibleFiles(user: string, maxFiles: nat) returns (files: seq<string>)
      requires Valid()
      ensures |files| <= maxFiles && NoDuplicates(files)
      ensures forall f :: f in files ==> CanRead(table.M, f, user)
      ensures |files| < maxFiles ==> forall f :: CanRead(table.M, f, user) ==> f in files
    {
      var items := table.Entries();
      files := [];
      var i := 0;
      while i < |items| && |files| < maxFiles
        invariant 0 <= i <= |items| && |files| <= maxFiles && NoDuplicates(files)
        invariant forall f :: f in files ==> CanRead(table.M, f, user) && Listed(items[..i], f)
        invariant forall l :: 0 <= l < i && CanRead(table.M, items[l].0, user) ==> items[l].0 in files
      {
        var (name, entry) := items[i];
        if entry.owner == user || user in entry.readers || user in entry.writers {
          assert !Listed(items[..i], name) by {
            assert forall l :: 0 <= l < i ==> items[..i][l] == items[l];
          }
          files := files + [name];
        }
        forall f | Listed(items[..i], f) || f == name ensures Listed(items[..i + 1], f) {
          if f == name {
            assert items[..i + 1][i].0 == f;
          } else {
            var l :| 0 <= l < i && items[..i][l].0 == f;
            assert items[..i + 1][l].0 == f;
          }
        }
        i := i + 1;
      }
      if |files| < maxFiles {
        forall f | CanRead(table.M, f, user) ensures f in files {
          assert Listed(items, f);
          var l :| 0 <= l < |items| && items[l].0 == f;
        }
      }
    }
  }

  // ----- revocation -----

  predicate ListOk(list: seq<string>) {
    NoDuplicates(list) && |list| <= ACL_MAX_USERS
  }

  /** No user stands in a list twice: what revocation depends on. */
  predicate ListsOk(m: AclMap) {
    forall f :: f in m ==> ListOk(m[f].readers) && ListOk(m[f].writers)
  }

  /**
    One revocation takes from the user all access that does not come from ownership, and takes nothing from
    anybody else, on this file or any other.
  */
  lemma RevocationExact(m: AclMap, file: string, user: string, f: string, u: string)
    requires ListsOk(m)
    ensures var m' := RemoveAccess(m, file, user).0;
            if f == file && u == user
            then (CanRead(m', f, u) <==> IsOwner(m, f, u)) && (CanWrite(m', f, u) <==> IsOwner(m, f, u))
            else (CanRead(m', f, u) <==> CanRead(m, f, u)) && (CanWrite(m', f, u) <==> CanWrite(m, f, u))
  {
    if file in m {
      RemoveFirstOfDistinct(m[file].readers, user);
      RemoveFirstOfDistinct(m[file].writers, user);
      WithoutMembers(m[file].readers, user);
      WithoutMembers(m[file].writers, user);
    }
  }

  lemma {:induction false} RemoveFirstCount(list: seq<string>, user: string)
    ensures user in RemoveFirst(list, user) <==> multiset(list)[user] >= 2
  {
    if list != [] {
      assert list == [list[0]] + list[1..];
      assert multiset(list) == multiset{list[0]} + multiset(list[1..]);
      RemoveFirstCount(list[1..], user);
      assert user in list[1..] <==> multiset(list[1..])[user] >= 1;
    }
  }

  /** What the invariant is for: one revocation fails exactly on a user who stands twice in a list. */
  lemma DuplicateDefeatsRevocation(m: AclMap, file: string, user: string)
    requires file in m && !IsOwner(m, file, user)
    ensures CanRead(RemoveAccess(m, file, user).0, file, user) <==>
            multiset(m[file].readers)[user] >= 2 || multiset(m[file].writers)[user] >= 2
  {
    RemoveFirstCount(m[file].readers, user);
    RemoveFirstCount(m[file].writers, user);
    hide RemoveFirst;
  }
}
