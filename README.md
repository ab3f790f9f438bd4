# Batch move of file entries

This project models the batch **move** of a file manager whose files and folders live in
one `file_entries` table, with each row addressed by a materialized path: an entry's path
is its parent's path, then `/`, then the entry's own id (`/2/5/12`).
`MoveFileEntriesController::move` takes a list of `{id, type}` items and a destination
folder id (or null for the root), and then works in this order:

1. It keeps the first 30 items.
2. It reads their `id` fields and asks the authorization check about them.
3. It validates the request.
4. It loads the requested rows and the destination row.
5. Its cycle guard drops every entry whose id occurs in the destination's path.
6. It sets the parent of the remaining entries in one bulk update.
7. It asks the entry model to rewrite the path of each entry and of everything below it.
8. It emits one `FileEntriesMoved(ids, destination, source)` event and returns the moved entries.

Modules:

- `Wrappers`: `Option` and `Result`.
- `Sequences`: the subsequence relation, used to state that order is kept.
- `Paths`:
  - PHP's `str_contains` as `Contains`, with its characterization by occurrence index;
  - `explode`/`implode` on `/` and their round trips;
  - `last(explode('/', path))` as `LastSegment`;
  - the canonical decimal text of an id and its parser, as a round trip;
  - the new path of a moved entry;
  - the subtree rewrite that the path update performs.
- `Entries`: a table row, lookup by id, and the row-level effect of the two writes. It also
  defines the materialized-path invariant `TreeShaped`: ids are unique and every row's path
  is its parent's path followed by `/id`.
- `Requests`: the request as received (a field may be missing, null, an integer or text),
  the 30-item cap and the validation rules.
- `Store`: the table as a mutable `EntryStore` object. It holds its rows and a journal of
  the writes issued against it. `UpdateParent` is the bulk `whereIn(...)->update(...)` and
  `UpdatePaths` is the path update.
- `MoveFileEntries`:
  - `getEntries`, `getNewParent` and `removeInvalidEntries` as functions;
  - `MoveSpec`, the reference definition of a whole call as a function of the table and
    the request;
  - the `Move` method, proved to implement `MoveSpec` step by step against an
    `EntryStore`, with the `each` loop as `MoveEach`.
- `MoveProperties`: what a move guarantees, proved over `MoveSpec`, and the effect of
  moving a single entry.
- `BatchMoves`: the tree shape after a batch whose entries are not nested in one another.
- `MoveExamples`: concrete moves, worked out completely.

Points where the code does less, or other, than its own comments promise:

- **Validation sees the whole request.** The comment at
  `MoveFileEntriesController.php:39` limits moves to 30 items, and only authorization,
  loading and moving use the capped list. Validation (`MoveFileEntriesController.php:46-51`)
  reads the original request. So an invalid 31st item still fails the request
  (`ValidationSeesWholeRequest`).
- **The cycle guard is a substring test.** The docblock at `MoveFileEntriesController.php:79`
  promises that entries cannot be moved into themselves or their children. The test at
  `MoveFileEntriesController.php:90` refuses an entry whenever its id's decimal text occurs
  anywhere in the destination's path (`str_contains`). This keeps the promise
  (`NeverIntoOwnSubtree`) but also refuses unrelated moves: id 5 cannot be moved into the
  folder at `/15` (`GuardRefusesDigitOverlap`).
- **A destination of 0 is falsy.** `getNewParent` and `removeInvalidEntries` then see no
  new parent, so paths are rebuilt under the root and the guard is skipped. The parent
  column is still set to 0.
- **An item without an `id` key fails early.** Reading `$entry['id']` at
  `MoveFileEntriesController.php:43` raises an undefined-index error before authorization
  and validation run. The model answers `UndefinedIndex` with no effect.

Under the path-update behaviour assumed here, a batch that holds a folder together with
its own child goes wrong in one of two ways. The outcome depends on the order in which
`getEntries` loads them, which is store order (`MoveFileEntriesController.php:110-112`).
The bulk update at `:60` gives the child the destination as parent in both orders.

- **The folder is loaded before its selected descendant.** The child's stored path is
  left stale. The folder's rewrite has already moved the child's row. The child's own
  rewrite then looks for its old path, which no longer exists.
  `NestedBatchLeavesStalePath` works this out on a three-row table. The response reports
  the child at `/3/2`, while the table keeps `/3/1/2`, and the table is no longer well
  formed.
- **The child is loaded first.** Its rewrite runs while the folder is still in place. The
  child is taken out of its folder and placed directly under the destination.
  `ChildFirstBatchDetachesChild` shows this on the same rows in the other order. The
  child ends up at `/3/2` under folder 3, and the table stays well formed.

The invariant preserved by a move is therefore proved for batches in which no selected
entry lies within another's subtree (`BatchMoveKeepsTree`). A batch of one entry always
qualifies.

## Model

| member | source | states |
|---|---|---|
| MoveFileEntries.Move | MoveFileEntriesController.php:37-76 | The method's response, event, final rows and appended writes are exactly those of the reference definition `MoveSpec` for the table it started from; ids stay unique; on success the event's source is the stored parent of the row found under the first moved id |
| MoveFileEntries.MoveSpec | MoveFileEntriesController.php:37-76 | The reference definition of one call: the stages in the code's order (reading the ids, authorization, validation, loading and the guard, the empty check), then the bulk parent write, the per-entry path writes, the event and the response |
| MoveFileEntries.MoveSelected | MoveFileEntriesController.php:60-75 | For a non-empty selection: one bulk parent write, then the path writes in order; the response lists the moved entries and the event carries their ids, the destination and the first entry's pre-move parent |
| MoveFileEntries.MoveEach | MoveFileEntriesController.php:63-71 | Each entry, in order, gets the destination as parent and the path built from the new parent's path and its last segment; one path update is issued per entry with its loaded and new path, and the table is the result of those updates in order |
| MoveFileEntries.MoveEntry | MoveFileEntriesController.php:63-70 | One entry is returned under the destination with its new path, and the path update from its loaded path to that new path is applied to the table and journaled |
| Store.EntryStore.UpdateParent | MoveFileEntriesController.php:119-124 | Every row whose id is listed gets the destination as parent, nothing else changes, and one bulk write is journaled |
| Store.EntryStore.UpdatePaths | MoveFileEntriesController.php:69 | The row at the old path gets the new path, rows under `old/` get the prefix replaced, all other rows are untouched, and one write is journaled (the behaviour the move relies on) |
| Store.EntryStore.constructor | MoveFileEntriesController.php:28-31 | A store over a table with unique ids starts with those rows and an empty journal |
| MoveFileEntries.ApplyPathUpdates | MoveFileEntriesController.php:63-71 | The table after the loop's path updates: one subtree rewrite per entry, in order, from its loaded path to its new path |
| Entries.SetParents | MoveFileEntriesController.php:119-124 | The bulk `whereIn` update: a row gets the destination as parent exactly when its id is listed |
| Requests.Capped | MoveFileEntriesController.php:40 | `take(30)`: the first 30 items, or all of them when there are fewer |
| Requests.Validates | MoveFileEntriesController.php:46-51 | The validation rules over the whole request: a non-empty list, each item with an integer id and a type of file or folder, and a destination that is absent, null or the id of an existing row |
| Requests.HasMissingId | MoveFileEntriesController.php:43 | Some capped item has no `id` key, so reading it fails |
| MoveFileEntries.Selected | MoveFileEntriesController.php:53-55 | The entries the move acts on: the rows loaded for the capped items, filtered by the guard against the destination row found for the destination id |
| MoveFileEntries.MovedEntry | MoveFileEntriesController.php:64-70 | One entry as the loop leaves it in memory: the destination as parent and its new path |
| MoveFileEntries.MovedEntries | MoveFileEntriesController.php:63-75 | The selected entries after the loop, in order; this is the response's list |
| MoveFileEntries.PathUpdateWrites | MoveFileEntriesController.php:69 | The `updatePaths` calls of the loop, in order: one per entry, from its loaded path to its new path |
| MoveFileEntries.DestinationPath | MoveFileEntriesController.php:66 | The prefix of every new path: the new parent's path, or the empty string when there is none |
| Entries.Ids | MoveFileEntriesController.php:73 | The ids of a collection in its order, as `pluck('id')` gives them for the event here and for the bulk update at line 122 |
| Entries.Reparent | MoveFileEntriesController.php:121-123 | One row under the bulk update: it gets the destination as parent exactly when its id is listed |
| Entries.Repath | MoveFileEntriesController.php:69 | One row under a path update: only its path is rewritten, by `RewritePath` |
| Entries.RewriteAll | MoveFileEntriesController.php:69 | The table-wide effect of one path update: every row's path rewritten by `RewritePath` |
| Requests.ValidItem | MoveFileEntriesController.php:48-49 | One item passes the item rules exactly when its `id` is an integer and its `type` is `file` or `folder` |
| Requests.DestinationId | MoveFileEntriesController.php:41 | The destination as the controller uses it: the integer when one was sent, otherwise none (an absent field reads as null) |
| Requests.IdValues | MoveFileEntriesController.php:43 | The `id` field of each capped item, in order, as handed to the authorization check |
| Requests.RequestedIds | MoveFileEntriesController.php:111 | `pluck('id')` as `whereIn` uses it: the integer ids among the items |
| MoveFileEntries.MayMoveInto | MoveFileEntriesController.php:89-91 | The filter closure of the guard: an entry may move exactly when its id's decimal text is not a substring of the new parent's path |
| MoveFileEntries.WhereIdIn | MoveFileEntriesController.php:110-112 | A row is returned exactly when its id is in the set, and the result keeps store order |
| MoveFileEntries.GetEntries | MoveFileEntriesController.php:108-113 | Loads exactly the rows whose id is among the requested integer ids, in store order, skipping unknown ids and never loading a row twice |
| MoveFileEntries.GetNewParent | MoveFileEntriesController.php:98-102 | No parent for a null or 0 destination; otherwise the row with that id, found whenever it exists |
| MoveFileEntries.KeepMovable | MoveFileEntriesController.php:89-91 | Keeps exactly the entries whose id text does not occur in the new parent's path, in order |
| MoveFileEntries.RemoveInvalidEntries | MoveFileEntriesController.php:85-92 | Without a new parent every entry is kept; with one, exactly the entries passing the substring guard are kept, in order |
| Requests.CappedIsLeadingPart | MoveFileEntriesController.php:39-40 | The cap keeps the first 30 items in submitted order, drops only what follows, and is unaffected by items appended after the 30th |
| Requests.ValidatedRequestShape | MoveFileEntriesController.php:46-51 | A validated request names an existing destination or none, and each of its first 30 items has an integer id that is requested |
| MoveProperties.FailureChangesNothing | MoveFileEntriesController.php:43-58 | A missing `id` key, refused authorization, failed validation and nothing-to-move each occur exactly when their stage fails, in the code's order; a failure leaves the table, the journal and the events untouched; a success emits an event and issues one bulk write plus one path write per entry |
| MoveProperties.ValidationSeesWholeRequest | MoveFileEntriesController.php:40-51 | An authorized request whose first 30 items all have ids and whose 31st item is invalid fails validation, although that item is never loaded |
| MoveProperties.OnlyFirstThirtyMove | MoveFileEntriesController.php:39-43 | Every moved entry was named among the first 30 items, and two requests agreeing on those, on the destination and on validity behave identically |
| MoveProperties.FalsyDestinationKeepsAll | MoveFileEntriesController.php:87 | With an absent, null or 0 destination the guard drops nothing. The model also maps a text destination to no parent; that case is the model's own, since its validation refuses text |
| MoveProperties.GuardIsSubstringTest | MoveFileEntriesController.php:85-92 | With a non-zero destination, a loaded entry is moved exactly when its id text is not a substring of the destination's path; survivors keep their order |
| MoveProperties.GuardRefusesDigitOverlap | MoveFileEntriesController.php:89-91 | Id 5 is refused for the folder at `/15` although `5` is not a segment of that path |
| MoveProperties.GuardKeepsOutsideSubtree | MoveFileEntriesController.php:79-91 | In a well-formed table an entry that passes the guard is not moved into itself or its subtree |
| MoveProperties.NeverIntoOwnSubtree | MoveFileEntriesController.php:53-55 | In a well-formed table, when the destination row was found, no selected entry is moved into itself or a descendant, and its id is never a segment of the destination's path |
| MoveProperties.SelectedAreRows | MoveFileEntriesController.php:53-55 | Every entry the move acts on is a row of the table |
| MoveProperties.SuccessOutcome | MoveFileEntriesController.php:57-75 | A successful call passed authorization and validation with a non-empty selection, and its response, event, rows and writes are those of that selection |
| MoveProperties.PathUpdatesKeepOtherColumns | MoveFileEntriesController.php:63-70 | The path updates change only paths: row count, ids, kinds and parents stay as they were |
| MoveProperties.ParentsAfterMove | MoveFileEntriesController.php:60 | After a successful move every moved row has the destination as parent and every other row keeps the parent it had; ids and kinds are unchanged and no row is added or dropped |
| MoveProperties.ReturnedEntries | MoveFileEntriesController.php:63-75 | The response lists the selected entries in order, each under the destination with the new parent's path, `/`, and its own last segment as path |
| MoveProperties.WritesInOrder | MoveFileEntriesController.php:60-69 | The bulk parent write comes first, then one path write per entry in order, from its loaded path to its returned path |
| MoveProperties.EventContents | MoveFileEntriesController.php:61-73 | The event carries the returned ids and the destination; its source is the parent a row with the first moved id had before the move, and with unique ids it is the parent of the row found under that id |
| MoveProperties.MoveOneLookup | MoveFileEntriesController.php:60-70 | Moving one entry keeps ids unique and every row findable by its id |
| MoveProperties.MoveOneAt | MoveFileEntriesController.php:60-70 | Moving one entry changes each row's parent only if it is the moved row and its path by the subtree rewrite |
| MoveProperties.SingleMoveRowSelf | MoveFileEntriesController.php:63-70 | A legally moved entry lands directly under its destination's path |
| MoveProperties.SingleMoveRowOther | MoveFileEntriesController.php:63-70 | Every other row, inside or outside the moved subtree, stays under its parent's path |
| MoveProperties.SingleMoveKeepsTree | MoveFileEntriesController.php:60-70 | Moving one entry to a target outside its subtree keeps the table a well-formed tree |
| MoveProperties.SelectedTargetIsLegal | MoveFileEntriesController.php:54-55 | For a validated request whose destination is not 0, an entry that survives the guard has a legal target: the root, or a destination row whose path does not contain its id |
| MoveProperties.OneEntryOutcome | MoveFileEntriesController.php:60-70 | The move of a single entry is the single-entry parent update followed by its subtree rewrite |
| BatchMoves.BatchMoveKeepsTree | MoveFileEntriesController.php:60-71 | A successful move to the root or a non-zero destination, in a well-formed table, whose selected entries are not nested in one another, keeps the table well formed; each row within a selected entry's subtree gets that entry's new path followed by the rest of its own path, and every other row keeps its path |
| BatchMoves.BatchKeepsTree | MoveFileEntriesController.php:60-71 | For a non-nested selection with legal targets, the parent update followed by the path updates keeps the table well formed and re-addresses exactly the selected subtrees |
| BatchMoves.BatchStep | MoveFileEntriesController.php:60-71 | Moving the first k+1 entries is moving the first k and then a single-entry move of the next |
| BatchMoves.PathUpdatesAfterParents | MoveFileEntriesController.php:60-69 | The bulk parent update and the path updates touch different columns, so their order does not matter |
| BatchMoves.MovedSoFarKeepsTree | MoveFileEntriesController.php:63-71 | After every prefix of a non-nested batch the table is well formed |
| BatchMoves.MovedSoFarDescendant | MoveFileEntriesController.php:63-71 | Once an entry has been moved, every row of its subtree carries the entry's new path followed by the rest of its own path, and later path updates leave it there |
| BatchMoves.NoLaterCapture | MoveFileEntriesController.php:69 | A path re-addressed with one selected entry is never inside another selected entry's old subtree |
| BatchMoves.MovedSoFarUntouched | MoveFileEntriesController.php:69 | A row outside the subtrees of the entries moved so far keeps its path |
| MoveExamples.MoveToRoot | MoveFileEntriesController.php:63-75 | Entry 7 at `/3/7` moved to the root is returned and stored as `/7` with no parent |
| MoveExamples.MoveFolderWithChild | MoveFileEntriesController.php:60-75 | Folder 5 at `/2/5` moved into 9 is returned as `/9/5` under 9, and the event names source 2 |
| MoveExamples.MoveFolderWithChildRows | MoveFileEntriesController.php:60-71 | After that move the table holds folder 5 at `/9/5` under 9 and its child at `/9/5/12`, other rows untouched |
| MoveExamples.MoveIntoDescendantFails | MoveFileEntriesController.php:55-58 | Moving folder 5 into its descendant 12 leaves nothing to move and changes nothing |
| MoveExamples.NestedBatchLeavesStalePath | MoveFileEntriesController.php:63-71 | With the folder stored before its child, moving both returns the child at `/3/2` but leaves `/3/1/2` in the table, which is no longer well formed |
| MoveExamples.ChildFirstBatchDetachesChild | MoveFileEntriesController.php:60-71 | With the child stored before its folder, a batch moving both into folder 3 succeeds on a nested selection; the response and the table put the child at `/3/2` directly under 3, and the table stays well formed |
| Paths.Contains | MoveFileEntriesController.php:90 | PHP's `str_contains`: the needle is a prefix of the haystack at some offset |
| Paths.LastSegment | MoveFileEntriesController.php:67 | `last(explode('/', $oldPath))` |
| Paths.NewPath | MoveFileEntriesController.php:66-68 | The new parent's path (empty for the root), `/`, and the old path's last segment |
| Paths.RewritePath | MoveFileEntriesController.php:69 | The assumed effect of the path update on one stored path: the old path becomes the new one, `old/rest` becomes `new/rest`, other paths stay |
| Paths.ContainsIffOccurs | MoveFileEntriesController.php:90 | The substring test holds exactly when the needle occurs at some index |
| Paths.ContainsChar | MoveFileEntriesController.php:90 | A one-character needle is contained exactly when the character occurs |
| Paths.ContainsSuffix | MoveFileEntriesController.php:90 | A suffix of a string is contained in it |
| Paths.ContainsExtend | MoveFileEntriesController.php:90 | Containment survives appending text |
| Paths.ContainsThroughPrefix | MoveFileEntriesController.php:90 | What a prefix contains, the whole string contains |
| Paths.Explode | MoveFileEntriesController.php:67 | Splitting yields at least one segment and no segment holds the separator |
| Paths.ImplodeExplode | MoveFileEntriesController.php:67 | Joining the segments of a path gives the path back |
| Paths.ExplodeImplode | MoveFileEntriesController.php:67 | Splitting the join of separator-free segments gives the segments back |
| Paths.ExplodeSingle | MoveFileEntriesController.php:67 | A path without separator is its only segment |
| Paths.ExplodeAppend | MoveFileEntriesController.php:67 | Appending `/b` appends the segment `b` |
| Paths.LastSegmentSplit | MoveFileEntriesController.php:67 | The last segment has no separator, ends the path, and is the whole path or follows a separator |
| Paths.LastSegmentOfJoin | MoveFileEntriesController.php:67 | The last segment of `a/b` is `b` |
| Paths.SegmentsAreContained | MoveFileEntriesController.php:67 | Every segment of a path is a substring of it |
| Paths.DecimalText | MoveFileEntriesController.php:90 | An id's text is non-empty canonical decimal text: a minus sign exactly for negative ids, no leading zero, no `-0`, and no separator |
| Paths.WithinComparable | MoveFileEntriesController.php:69 | Two subtrees that share a path are nested, one within the other |
| Paths.DigitsRoundTrip | MoveFileEntriesController.php:90 | Parsing the digits of a natural number gives it back |
| Paths.DecimalRoundTrip | MoveFileEntriesController.php:90 | Parsing an id's decimal text gives the id back |
| Paths.DecimalTextInjective | MoveFileEntriesController.php:90 | Distinct ids have distinct texts |
| Paths.NewPathShape | MoveFileEntriesController.php:66-68 | The new path lies directly under the destination path and keeps the entry's last segment |
| Paths.RewritePathSubtree | MoveFileEntriesController.php:69 | The path update moves exactly the subtree of the old path under the new one, leaves other paths alone, and rewriting back restores them |
| Paths.ChildWithin | MoveFileEntriesController.php:69 | `parent/child` is strictly inside a subtree exactly when `parent` is within it, and then rewrites to the rewritten parent followed by `/child` |
| Entries.FindEntry | MoveFileEntriesController.php:101 | A lookup by id returns a row with that id, or none when no row has it |
| Entries.FindUnique | MoveFileEntriesController.php:101 | With unique ids the lookup returns the row holding the id |
| Entries.SubsequenceUniqueIds | MoveFileEntriesController.php:110-112 | Rows loaded in store order from a table with unique ids have unique ids |
| Entries.AncestorExists | MoveFileEntriesController.php:63-69 | In a well-formed table every ancestor path of a row, cut at a separator, is the path of a row |
| Entries.SameIdSameRow | MoveFileEntriesController.php:101 | With unique ids, two rows carrying the same id are the same row |
| Entries.PathNamesEntry | MoveFileEntriesController.php:67-68 | In a well-formed table a path's last segment is its entry's id, so equal paths mean the same row |

## Left out

- `UpdateController.php` (the site update and migration runner) is not part of this model. It is unrelated to the move.
- The authorization check is a parameter `authorize` applied to the id fields of the first 30 items. Its policy is not part of this model.
- Framework validation details are left out. These are numeric strings accepted as integers, field-level error messages, and a non-array `entries` field. The model receives items already parsed into missing, null, integer or text fields.
- An item that is not itself an array (a bare number or string in the `entries` list) is not modelled. Depending on its type, reading `$entry['id']` from it fails or yields null; the model only has items with `id` and `type` fields, each of which may be missing.
- HTTP response encoding is left out. This includes the key-preserving `filter` that can turn the JSON list into an object. The model returns the moved entries in order.
- The event dispatcher and its listeners are left out. The event is returned as a value.
- The entry model's `updatePaths` implementation is not part of this model. `Store.EntryStore.UpdatePaths` states the behaviour the move relies on (rewrite the row at the old path and everything under `old/`) as its own definition.
- Transactions, concurrency and partial-write failure are not modelled. Every write succeeds and is applied in order.
- `select('path', 'id')` on the destination is not modelled. The whole destination row is loaded, and only its id and path are used.
- BatchMoves.BatchMoveKeepsTree: the well-formedness invariant is proved for batches in which no selected entry lies within another selected entry's subtree only, because a batch holding a folder together with its own child can fail to keep it (`MoveExamples.NestedBatchLeavesStalePath`, when the folder is loaded first) and otherwise detaches the child from its folder (`MoveExamples.ChildFirstBatchDetachesChild`).
- BatchMoves.BatchMoveKeepsTree: it also excludes destination 0. In that case the entries are rebuilt at the root while their parent column says 0.
