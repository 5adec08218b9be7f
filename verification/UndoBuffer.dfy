/** One undo buffer per file (storage_server/undo_buffer.c). */
module UndoBuffer {
  import opened Text
  import opened Protocol
  import opened HashTables

  const UNDO_HASH_SIZE := 509
  const MAX_UNDO_SIZE := 1024 * 1024

  /** An entry stays in the table when its content has been handed out; it is then no longer valid. */
  datatype Undo = Undo(content: string, valid: bool)

  type Undos = map<string, Undo>

  function Saved(u: Undos, filename: string, content: string): (Undos, int) {
    if |content| > MAX_UNDO_SIZE then (u, ERR_SERVER_ERROR)
    else (u[filename := Undo(content, true)], ERR_SUCCESS)
  }

  predicate Available(u: Undos, filename: string) {
    filename in u && u[filename].valid
  }

  function Restored(u: Undos, filename: string): (Undos, Option<string>) {
    if Available(u, filename)
    then (u[filename := Undo("", false)], Some(u[filename].content))
    else (u, None)
  }

  class UndoTable {
    const table: HashTable<string, Undo>
    var entryCount: nat

    ghost predicate Valid()
      reads this, table, table.Repr
    {
      table.Valid() && this !in table.Repr && entryCount == |table.M|
    }

    /** `undo_table_init`. */
    constructor ()
      ensures Valid() && fresh(table) && fresh(table.Repr) && table.M == map[]
    {
      table := new HashTable(UNDO_HASH_SIZE, Hash32);
      entryCount := 0;
    }

    /** `undo_save`. */
    method Save(filename: string, content: string) returns (code: int)
      requires Valid()
      modifies this, table.Repr
      ensures Valid() && fresh(table.Repr - old(table.Repr))
      ensures (table.M, code) == Saved(old(table.M), filename, content)
    {
      if |content| > MAX_UNDO_SIZE {
        return ERR_SERVER_ERROR;
      }
      SizeWith(table.M, filename, Undo(content, true));
      var prev, node, j := table.Find(filename);
      if node != null {
        table.SetVal(node, j, Undo(content, true));
        return ERR_SUCCESS;
      }
      table.Prepend(filename, Undo(content, true));
      entryCount := entryCount + 1;
      return ERR_SUCCESS;
    }

    /** `undo_restore`: hands the content out once. */
    method Restore(filename: string) returns (content: Option<string>)
      requires Valid()
      modifies table.Repr
      ensures Valid() && table.Repr == old(table.Repr)
      ensures (table.M, content) == Restored(old(table.M), filename)
    {
      var prev, node, j := table.Find(filename);
      if node == null || !node.val.valid {
        return None;
      }
      content := Some(node.val.content);
      SizeWith(table.M, filename, Undo("", false));
      table.SetVal(node, j, Undo("", false));
    }

    /** `undo_available`. */
    method IsAvailable(filename: string) returns (available: bool)
      requires Valid()
      ensures available <==> Available(table.M, filename)
    {
      var prev, node, j := table.Find(filename);
      return node != null && node.val.valid;
    }

    /** `undo_clear_file`. */
    method ClearFile(filename: string)
      requires Valid()
      modifies this, table.Repr
      ensures Valid() && table.Repr == old(table.Repr)
      ensures table.M == old(table.M) - {filename}
    {
      hide HashTable.Valid;
      SizeWithout(table.M, filename);
      var found := table.Remove(filename);
      if found {
        entryCount := entryCount - 1;
      }
    }
  }

  /**
    A round trip: what was saved last is handed out, once. Content over a megabyte is refused and leaves what
    was saved before; other files are not touched by either.
  */
  lemma SaveThenRestore(u: Undos, f: string, content: string, g: string)
    ensures var (saved, code) := Saved(u, f, content);
            var (restored, first) := Restored(saved, f);
            && (|content| <= 1_048_576 ==>
                  code == ERR_SUCCESS && first == Some(content) && Restored(restored, f) == (restored, None))
            && (|content| > 1_048_576 ==> code == ERR_SERVER_ERROR && saved == u)
            && (g != f ==> Restored(saved, g).1 == Restored(u, g).1 && Restored(restored, g).1 == Restored(u, g).1)
  {}
}
