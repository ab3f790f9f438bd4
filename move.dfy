/** The batch move of file entries: load the requested entries, drop every entry whose
    id text occurs anywhere in the destination's path (which includes every entry that
    would be moved into itself or a descendant), re-parent the rest in one bulk update,
    rewrite each one's path (and its subtree's), and emit one "moved" event. */
module MoveFileEntries {
  import opened Wrappers
  import opened Sequences
  import opened Paths
  import opened Entries
  import opened Requests
  import opened Store

  datatype MoveError =
    | UndefinedIndex      // an item without an `id` key: `$entry['id']` raises an error
    | Unauthorized        // the capability check refused the (capped) ids
    | ValidationFailed    // a request validation rule failed
    | NothingToMove       // nothing was left after loading and filtering

  /** The notification `FileEntriesMoved(ids, destination, source)`. */
  datatype FileEntriesMoved = FileEntriesMoved(ids: seq<int>, destination: Option<int>, source: Option<int>)

  /** `whereIn('id', ids)->get()`: the rows whose id is listed, in store order. */
  function WhereIdIn(rows: seq<Entry>, ids: set<int>): (r: seq<Entry>)
    ensures forall x :: x in r <==> x in rows && x.id in ids
    ensures IsSubsequence(r, rows)
  {
    if rows == [] then []
    else if rows[0].id in ids then [rows[0]] + WhereIdIn(rows[1..], ids)
    else WhereIdIn(rows[1..], ids)
  }

  /** `getEntries`: the rows whose id is among the requested ids, in store order; ids
      that match no row are silently skipped, and no row is loaded twice. */
  function GetEntries(rows: seq<Entry>, items: seq<RequestItem>): (r: seq<Entry>)
    ensures forall x :: x in r <==> x in rows && x.id in RequestedIds(items)
    ensures IsSubsequence(r, rows)
    ensures UniqueIds(rows) ==> UniqueIds(r)
  {
    var r := WhereIdIn(rows, RequestedIds(items));
    if UniqueIds(rows) then SubsequenceUniqueIds(r, rows); r else r
  }

  /** `getNewParent`: no parent for a falsy destination (null or 0), otherwise the entry
      found under that id, if any. */
  function GetNewParent(rows: seq<Entry>, destination: Option<int>): (r: Option<Entry>)
    ensures destination.None? || destination == Some(0) ==> r.None?
    ensures r.Some? ==> r.value in rows && destination == Some(r.value.id)
    ensures (destination.Some? && destination != Some(0)
             && exists x :: x in rows && x.id == destination.value) ==> r.Some?
  {
    if destination.None? || destination.value == 0 then None
    else FindEntry(rows, destination.value)
  }

  /** The cycle guard's test: the decimal text of the entry's id is not a substring of the
      new parent's path. */
  predicate MayMoveInto(newParent: Entry, x: Entry)
  {
    !Contains(newParent.path, DecimalText(x.id))
  }

  /** The entries that pass the cycle guard's test for `newParent`, in order. */
  function KeepMovable(entries: seq<Entry>, newParent: Entry): (r: seq<Entry>)
    ensures forall x :: x in r <==> x in entries && MayMoveInto(newParent, x)
    ensures IsSubsequence(r, entries)
  {
    if entries == [] then []
    else if MayMoveInto(newParent, entries[0]) then [entries[0]] + KeepMovable(entries[1..], newParent)
    else KeepMovable(entries[1..], newParent)
  }

  /** `removeInvalidEntries`: without a new parent nothing is dropped; otherwise exactly the
      entries that pass the cycle guard's test are kept, in order. */
  function RemoveInvalidEntries(entries: seq<Entry>, newParent: Option<Entry>): (r: seq<Entry>)
    ensures newParent.None? ==> r == entries
    ensures newParent.Some? ==> forall x :: x in r <==> x in entries && MayMoveInto(newParent.value, x)
    ensures IsSubsequence(r, entries)
  {
    match newParent
    case None => SubsequenceReflexive(entries); entries
    case Some(parent) => KeepMovable(entries, parent)
  }

  /** The prefix of every new path: the new parent's path, or "" when moving to the root. */
  function DestinationPath(newParent: Option<Entry>): string
  {
    if newParent.None? then "" else newParent.value.path
  }

  /** An entry as the loop leaves it: the destination as parent and its new path. */
  function MovedEntry(x: Entry, destination: Option<int>, newParent: Option<Entry>): Entry
  {
    x.(parent := destination, path := NewPath(DestinationPath(newParent), x.path))
  }

  function MovedEntries(entries: seq<Entry>, destination: Option<int>, newParent: Option<Entry>): seq<Entry>
  {
    seq(|entries|, k requires 0 <= k < |entries| => MovedEntry(entries[k], destination, newParent))
  }

  /** The table after the loop has called the path update for each entry, in order, with
      the entry's loaded path and its new path. */
  function ApplyPathUpdates(rows: seq<Entry>, entries: seq<Entry>, newParent: Option<Entry>): seq<Entry>
    decreases |entries|
  {
    if entries == [] then rows
    else
      var x := entries[|entries| - 1];
      RewriteAll(ApplyPathUpdates(rows, entries[..|entries| - 1], newParent),
                 x.path, NewPath(DestinationPath(newParent), x.path))
  }

  /** The path-update calls the loop issues, in order: one per entry, from its loaded path
      to its new path. */
  function PathUpdateWrites(entries: seq<Entry>, newParent: Option<Entry>): seq<Write>
  {
    seq(|entries|, k requires 0 <= k < |entries| =>
      PathsUpdated(entries[k].path, NewPath(DestinationPath(newParent), entries[k].path)))
  }

  /** The entries the move acts on: the capped request's rows, after the cycle guard. */
  function Selected(rows: seq<Entry>, request: MoveRequest): seq<Entry>
  {
    var destination := DestinationId(request.destination);
    RemoveInvalidEntries(GetEntries(rows, Capped(request.entries)), GetNewParent(rows, destination))
  }

  /** Everything one call of the move produces. */
  datatype Outcome = Outcome(
    response: Result<seq<Entry>, MoveError>,
    event: Option<FileEntriesMoved>,
    rows: seq<Entry>,
    writes: seq<Write>)

  /** The reference definition of the move: what it answers, what it emits, what the table
      becomes and which writes it issues, as a function of the table and the request.
      `authorize` is the foreign capability check, asked about the capped ids. */
  function MoveSpec(rows: seq<Entry>, authorize: seq<Value> -> bool, request: MoveRequest): Outcome
  {
    if HasMissingId(Capped(request.entries)) then Outcome(Failure(UndefinedIndex), None, rows, [])
    else if !authorize(IdValues(Capped(request.entries))) then Outcome(Failure(Unauthorized), None, rows, [])
    else if !Validates(request, rows) then Outcome(Failure(ValidationFailed), None, rows, [])
    else
      var destination := DestinationId(request.destination);
      var newParent := GetNewParent(rows, destination);
      var entries := Selected(rows, request);
      if entries == [] then Outcome(Failure(NothingToMove), None, rows, [])
      else
        Outcome(
          Success(MovedEntries(entries, destination, newParent)),
          Some(FileEntriesMoved(Ids(entries), destination, entries[0].parent)),
          ApplyPathUpdates(SetParents(rows, Ids(entries), destination), entries, newParent),
          [ParentsUpdated(Ids(entries), destination)] + PathUpdateWrites(entries, newParent))
  }

  /** One more entry adds one more path update, applied last. */
  lemma PathUpdateStep(rows: seq<Entry>, entries: seq<Entry>, newParent: Option<Entry>, i: int)
    requires 0 <= i < |entries|
    ensures ApplyPathUpdates(rows, entries[..i + 1], newParent)
            == RewriteAll(ApplyPathUpdates(rows, entries[..i], newParent),
                          entries[i].path, NewPath(DestinationPath(newParent), entries[i].path))
  {
    assert entries[..i + 1][..i] == entries[..i];
  }

  /** One more entry adds one more path-update write, after those already journaled. */
  lemma JournalStep(journal: seq<Write>, entries: seq<Entry>, newParent: Option<Entry>, i: int)
    requires 0 <= i < |entries|
    ensures journal + PathUpdateWrites(entries[..i + 1], newParent)
            == journal + PathUpdateWrites(entries[..i], newParent)
               + [PathsUpdated(entries[i].path, NewPath(DestinationPath(newParent), entries[i].path))]
  {
    var issued := PathUpdateWrites(entries[..i], newParent);
    var w := PathsUpdated(entries[i].path, NewPath(DestinationPath(newParent), entries[i].path));
    assert PathUpdateWrites(entries[..i + 1], newParent) == issued + [w];
  }

  /** The body of the `each` loop for one entry: set its parent to the destination, build
      its new path from the new parent's path (or the root) and its own last segment, call
      the path update with the old and the new path, then set its path. */
  method MoveEntry(store: EntryStore, entry: Entry, destination: Option<int>, newParent: Option<Entry>)
    returns (moved: Entry)
    requires store.Valid()
    modifies store
    ensures store.Valid()
    ensures moved == MovedEntry(entry, destination, newParent)
    ensures store.rows == RewriteAll(old(store.rows), entry.path, moved.path)
    ensures store.writes == old(store.writes) + [PathsUpdated(entry.path, moved.path)]
  {
    moved := entry.(parent := destination);
    var oldPath := moved.path;
    var newPath := if newParent.None? then "" else newParent.value.path;
    newPath := newPath + [Separator] + LastSegment(oldPath);
    store.UpdatePaths(oldPath, newPath);
    moved := moved.(path := newPath);
  }

  /** The `each` loop of the move: every entry, in order, goes through `MoveEntry`. */
  method MoveEach(store: EntryStore, entries: seq<Entry>, destination: Option<int>, newParent: Option<Entry>)
    returns (moved: seq<Entry>)
    requires store.Valid()
    modifies store
    ensures store.Valid()
    ensures moved == MovedEntries(entries, destination, newParent)
    ensures store.rows == ApplyPathUpdates(old(store.rows), entries, newParent)
    ensures store.writes == old(store.writes) + PathUpdateWrites(entries, newParent)
  {
    moved := [];
    var i := 0;
    while i < |entries|
      invariant 0 <= i <= |entries| && |moved| == i
      invariant forall k :: 0 <= k < i ==> moved[k] == MovedEntry(entries[k], destination, newParent)
      invariant store.Valid()
      invariant store.rows == ApplyPathUpdates(old(store.rows), entries[..i], newParent)
      invariant store.writes == old(store.writes) + PathUpdateWrites(entries[..i], newParent)
    {
      PathUpdateStep(old(store.rows), entries, newParent, i);
      JournalStep(old(store.writes), entries, newParent, i);
      var entry := MoveEntry(store, entries[i], destination, newParent);
      moved := moved + [entry];
      i := i + 1;
    }
    assert entries[..i] == entries;
  }

  /** The writing half of the move, once a non-empty selection is known: the bulk parent
      update, the pre-move parent of the first entry as source, the `each` loop, the event
      and the response. */
  method MoveSelected(store: EntryStore, entries: seq<Entry>, destination: Option<int>, newParent: Option<Entry>)
    returns (response: Result<seq<Entry>, MoveError>, event: Option<FileEntriesMoved>)
    requires store.Valid() && entries != []
    modifies store
    ensures store.Valid()
    ensures response == Success(MovedEntries(entries, destination, newParent))
    ensures event == Some(FileEntriesMoved(Ids(entries), destination, entries[0].parent))
    ensures store.rows == ApplyPathUpdates(SetParents(old(store.rows), Ids(entries), destination), entries, newParent)
    ensures store.writes == old(store.writes) + ([ParentsUpdated(Ids(entries), destination)]
                                                 + PathUpdateWrites(entries, newParent))
  {
    store.UpdateParent(Ids(entries), destination);
    var source := entries[0].parent;
    var moved := MoveEach(store, entries, destination, newParent);
    assert Ids(moved) == Ids(entries);
    event := Some(FileEntriesMoved(Ids(moved), destination, source));
    response := Success(moved);
  }

  /** `MoveFileEntriesController::move`, step by step against the store. */
  method Move(store: EntryStore, authorize: seq<Value> -> bool, request: MoveRequest)
    returns (response: Result<seq<Entry>, MoveError>, event: Option<FileEntriesMoved>)
    requires store.Valid()
    modifies store
    ensures store.Valid()
    ensures var outcome := MoveSpec(old(store.rows), authorize, request);
            && response == outcome.response
            && event == outcome.event
            && store.rows == outcome.rows
            && store.writes == old(store.writes) + outcome.writes
    ensures response.Success? ==>
              && |response.value| >= 1 && event.Some?
              && FindEntry(old(store.rows), response.value[0].id).Some?
              && event.value.source == FindEntry(old(store.rows), response.value[0].id).value.parent
  {
    ghost var rows0 := store.rows;
    var entryIds := Capped(request.entries);
    if HasMissingId(entryIds) {
      return Failure(UndefinedIndex), None;
    }
    if !authorize(IdValues(entryIds)) {
      return Failure(Unauthorized), None;
    }
    if !Validates(request, store.rows) {
      return Failure(ValidationFailed), None;
    }
    var destination := DestinationId(request.destination);
    var loaded := GetEntries(store.rows, entryIds);
    var newParent := GetNewParent(store.rows, destination);
    var entries := RemoveInvalidEntries(loaded, newParent);
    assert entries == Selected(rows0, request);

    // there was an issue with the entries or the parent: bail
    if entries == [] {
      return Failure(NothingToMove), None;
    }

    response, event := MoveSelected(store, entries, destination, newParent);
    // the source is the stored parent of the row the first entry was loaded from
    SubsequenceMembers(entries, loaded);
    FindUnique(rows0, entries[0]);
  }
}
