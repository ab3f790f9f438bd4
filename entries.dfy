/** File and folder entries as rows of the entry store, and the row-level effects of the
    two store writes a move performs: the bulk parent update and the path update. */
module Entries {
  import opened Wrappers
  import opened Paths
  import opened Sequences

  datatype Kind = File | Folder

  /** One row of the entry store. `parent` is `None` for an entry at the root. */
  datatype Entry = Entry(id: int, kind: Kind, parent: Option<int>, path: string)

  /** No two rows share an id (the primary key). */
  predicate UniqueIds(rows: seq<Entry>)
  {
    forall i, j :: 0 <= i < j < |rows| ==> rows[i].id != rows[j].id
  }

  /** The ids of some entries, in order (a collection's `pluck('id')`). */
  function Ids(entries: seq<Entry>): seq<int>
  {
    seq(|entries|, k requires 0 <= k < |entries| => entries[k].id)
  }

  /** A lookup by primary key (`find`): the first row with the id, if any. */
  function FindEntry(rows: seq<Entry>, id: int): (r: Option<Entry>)
    ensures r.Some? ==> r.value in rows && r.value.id == id
    ensures r.None? ==> forall x :: x in rows ==> x.id != id
  {
    if rows == [] then None
    else if rows[0].id == id then Some(rows[0])
    else FindEntry(rows[1..], id)
  }

  /** With unique ids, a lookup finds exactly the row that carries the id. */
  lemma {:induction false} FindUnique(rows: seq<Entry>, x: Entry)
    requires UniqueIds(rows) && x in rows
    ensures FindEntry(rows, x.id) == Some(x)
  {
    if rows[0] != x {
      assert x in rows[1..];
      var j :| 0 <= j < |rows[1..]| && rows[1..][j] == x;
      assert rows[0].id != rows[j + 1].id;
      FindUnique(rows[1..], x);
    }
  }

  /** With unique ids, two rows that carry the same id are the same row. */
  lemma SameIdSameRow(rows: seq<Entry>, x: Entry, y: Entry)
    requires UniqueIds(rows) && x in rows && y in rows && x.id == y.id
    ensures x == y
  {
    FindUnique(rows, x);
    FindUnique(rows, y);
  }

  /** With unique ids, distinct rows carry distinct ids. */
  lemma DistinctRowsDistinctIds(rows: seq<Entry>, x: Entry, y: Entry)
    requires UniqueIds(rows) && x in rows && y in rows && x != y
    ensures x.id != y.id
  {
    FindUnique(rows, x);
    FindUnique(rows, y);
  }

  /** A subsequence of rows with unique ids has unique ids. */
  lemma {:induction false} SubsequenceUniqueIds(a: seq<Entry>, b: seq<Entry>)
    requires IsSubsequence(a, b) && UniqueIds(b)
    ensures UniqueIds(a)
    decreases |b|
  {
    if a != [] && b != [] {
      assert UniqueIds(b[1..]) by {
        forall i, j | 0 <= i < j < |b[1..]| ensures b[1..][i].id != b[1..][j].id {
          assert b[i + 1].id != b[j + 1].id;
        }
      }
      if a[0] == b[0] && IsSubsequence(a[1..], b[1..]) {
        SubsequenceUniqueIds(a[1..], b[1..]);
        SubsequenceMembers(a[1..], b[1..]);
        forall i, j | 0 <= i < j < |a| ensures a[i].id != a[j].id {
          if i == 0 {
            assert a[j] in a[1..];
            var m :| 0 <= m < |b[1..]| && b[1..][m] == a[j];
            assert b[0].id != b[m + 1].id;
          } else {
            assert a[1..][i - 1] == a[i] && a[1..][j - 1] == a[j];
          }
        }
      } else {
        SubsequenceUniqueIds(a, b[1..]);
      }
    }
  }

  /** The bulk parent update's effect on one row. */
  function Reparent(x: Entry, ids: seq<int>, destination: Option<int>): Entry
  {
    if x.id in ids then x.(parent := destination) else x
  }

  /** `whereIn('id', ids)->update(['parent_id' => destination])` over the whole table. */
  function SetParents(rows: seq<Entry>, ids: seq<int>, destination: Option<int>): (r: seq<Entry>)
  {
    seq(|rows|, k requires 0 <= k < |rows| => Reparent(rows[k], ids, destination))
  }

  /** The path update's effect on one row. */
  function Repath(x: Entry, oldPath: string, newPath: string): Entry
  {
    x.(path := RewritePath(x.path, oldPath, newPath))
  }

  /** The path update over the whole table. */
  function RewriteAll(rows: seq<Entry>, oldPath: string, newPath: string): (r: seq<Entry>)
  {
    seq(|rows|, k requires 0 <= k < |rows| => Repath(rows[k], oldPath, newPath))
  }

  /** The path of the row's parent, or the empty string for the root. */
  function ParentPath(rows: seq<Entry>, x: Entry): Option<string>
  {
    match x.parent
    case None => Some("")
    case Some(p) =>
      match FindEntry(rows, p)
      case None => None
      case Some(parent) => Some(parent.path)
  }

  /** The materialized-path convention of the store: an entry's path is its parent's path
      (empty at the root), a separator, and the decimal text of its own id. */
  predicate PlacedUnderParent(rows: seq<Entry>, x: Entry)
  {
    ParentPath(rows, x).Some? && x.path == ParentPath(rows, x).value + [Separator] + DecimalText(x.id)
  }

  /** The store is a well-formed forest addressed by materialized paths. */
  predicate TreeShaped(rows: seq<Entry>)
  {
    UniqueIds(rows) && forall k :: 0 <= k < |rows| ==> PlacedUnderParent(rows, rows[k])
  }

  /** In a well-formed store every path is non-empty, and every ancestor path of a row,
      cut at a separator, is the path of a row. */
  lemma {:induction false} AncestorExists(rows: seq<Entry>, x: Entry, prefix: string)
    requires TreeShaped(rows) && x in rows
    requires prefix != [] && prefix + [Separator] <= x.path
    ensures exists y :: y in rows && y.path == prefix
    decreases |x.path|
  {
    var k :| 0 <= k < |rows| && rows[k] == x;
    assert PlacedUnderParent(rows, rows[k]);
    var parentPath := ParentPath(rows, x).value;
    ChildWithin(parentPath, DecimalText(x.id), prefix, prefix);
    assert Within(parentPath, prefix);
    assert x.parent.Some?;
    var y := FindEntry(rows, x.parent.value).value;
    if parentPath != prefix {
      AncestorExists(rows, y, prefix);
    }
  }

  /** In a well-formed store the last segment of a path is the entry's id, so two rows with
      the same path are the same row. */
  lemma PathNamesEntry(rows: seq<Entry>, x: Entry, y: Entry)
    requires TreeShaped(rows) && x in rows && y in rows
    ensures LastSegment(x.path) == DecimalText(x.id)
    ensures x.path == y.path ==> x == y
  {
    var i :| 0 <= i < |rows| && rows[i] == x;
    var j :| 0 <= j < |rows| && rows[j] == y;
    assert PlacedUnderParent(rows, rows[i]) && PlacedUnderParent(rows, rows[j]);
    LastSegmentOfJoin(ParentPath(rows, x).value, DecimalText(x.id));
    LastSegmentOfJoin(ParentPath(rows, y).value, DecimalText(y.id));
    if x.path == y.path {
      DecimalTextInjective(x.id, y.id);
    }
  }
}
