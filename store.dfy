/** The entry store (the `file_entries` table) as a mutable object: the rows in the order
    a query returns them, and a journal of the writes performed on it. */
module Store {
  import opened Wrappers
  import opened Paths
  import opened Entries

  /** One write statement issued against the table. */
  datatype Write =
    | ParentsUpdated(ids: seq<int>, destination: Option<int>)
    | PathsUpdated(oldPath: string, newPath: string)

  class EntryStore {
    var rows: seq<Entry>
    var writes: seq<Write>

    ghost predicate Valid()
      reads this
    {
      UniqueIds(rows)
    }

    constructor (initial: seq<Entry>)
      requires UniqueIds(initial)
      ensures Valid() && rows == initial && writes == []
    {
      rows := initial;
      writes := [];
    }

    /** `whereIn('id', ids)->update(['parent_id' => destination])`: every row whose id is
        listed gets the destination as parent; no other row and no other column changes. */
    method UpdateParent(ids: seq<int>, destination: Option<int>)
      requires Valid()
      modifies this
      ensures Valid()
      ensures rows == SetParents(old(rows), ids, destination)
      ensures writes == old(writes) + [ParentsUpdated(ids, destination)]
    {
      ghost var before := rows;
      var i := 0;
      while i < |rows|
        invariant 0 <= i <= |rows| == |before|
        invariant writes == old(writes)
        invariant forall k :: 0 <= k < |rows| ==>
                    rows[k] == if k < i then Reparent(before[k], ids, destination) else before[k]
      {
        if rows[i].id in ids {
          rows := rows[i := rows[i].(parent := destination)];
        }
        i := i + 1;
      }
      writes := writes + [ParentsUpdated(ids, destination)];
      assert forall k :: 0 <= k < |rows| ==> rows[k].id == before[k].id;
    }

    /** `updatePaths(oldPath, newPath)`. Its implementation lives in the entry model, which
        is not part of this model; this is the behaviour the move relies on: the row whose
        path is `oldPath` gets `newPath`, each row under `oldPath/` has that prefix replaced
        by `newPath`, and every other row is untouched. */
    method UpdatePaths(oldPath: string, newPath: string)
      requires Valid()
      modifies this
      ensures Valid()
      ensures rows == RewriteAll(old(rows), oldPath, newPath)
      ensures writes == old(writes) + [PathsUpdated(oldPath, newPath)]
    {
      ghost var before := rows;
      var i := 0;
      while i < |rows|
        invariant 0 <= i <= |rows| == |before|
        invariant writes == old(writes)
        invariant forall k :: 0 <= k < |rows| ==>
                    rows[k] == if k < i then Repath(before[k], oldPath, newPath) else before[k]
      {
        rows := rows[i := rows[i].(path := RewritePath(rows[i].path, oldPath, newPath))];
        i := i + 1;
      }
      writes := writes + [PathsUpdated(oldPath, newPath)];
      assert forall k :: 0 <= k < |rows| ==> rows[k].id == before[k].id;
    }
  }
}
