/** Moves of several entries at once. When no selected entry lies inside another's
    subtree, the batch works as a sequence of single moves, each of which keeps the store
    a well-formed forest, and every selected subtree ends up re-addressed under the
    destination. */
module BatchMoves {
  import opened Wrappers
  import opened Sequences
  import opened Paths
  import opened Entries
  import opened Requests
  import opened MoveFileEntries
  import opened MoveProperties

  /** No selected entry's loaded path lies within another selected entry's path. */
  predicate NotNested(entries: seq<Entry>)
  {
    forall i, j :: 0 <= i < |entries| && 0 <= j < |entries| && i != j ==>
      !Within(entries[i].path, entries[j].path)
  }

  /** What a successful call establishes about its selection in a well-formed store,
      together with the absence of nesting. */
  predicate BatchReady(rows: seq<Entry>, entries: seq<Entry>, destination: Option<int>, newParent: Option<Entry>)
  {
    && TreeShaped(rows) && UniqueIds(entries) && NotNested(entries)
    && forall i :: 0 <= i < |entries| ==>
         entries[i] in rows && LegalTarget(rows, entries[i], destination, newParent)
  }

  /** The store once the first `k` entries of the batch have been moved: their parent
      update, then their path updates in order. */
  function MovedSoFar(rows: seq<Entry>, entries: seq<Entry>, destination: Option<int>,
                      newParent: Option<Entry>, k: int): seq<Entry>
    requires 0 <= k <= |entries|
  {
    ApplyPathUpdates(SetParents(rows, Ids(entries[..k]), destination), entries[..k], newParent)
  }

  lemma SetParentsRewriteAll(rows: seq<Entry>, ids: seq<int>, destination: Option<int>,
                             oldPath: string, newPath: string)
    ensures RewriteAll(SetParents(rows, ids, destination), oldPath, newPath)
            == SetParents(RewriteAll(rows, oldPath, newPath), ids, destination)
  {
  }

  /** The parent update and the path updates touch different columns, so they commute. */
  lemma {:induction false} PathUpdatesAfterParents(rows: seq<Entry>, ids: seq<int>, destination: Option<int>,
                                                   entries: seq<Entry>, newParent: Option<Entry>)
    ensures ApplyPathUpdates(SetParents(rows, ids, destination), entries, newParent)
            == SetParents(ApplyPathUpdates(rows, entries, newParent), ids, destination)
    decreases |entries|
  {
    if entries != [] {
      var init := entries[..|entries| - 1];
      var x := entries[|entries| - 1];
      PathUpdatesAfterParents(rows, ids, destination, init, newParent);
      SetParentsRewriteAll(ApplyPathUpdates(rows, init, newParent), ids, destination,
                           x.path, NewPath(DestinationPath(newParent), x.path));
    }
  }

  lemma SetParentsTwice(rows: seq<Entry>, ids: seq<int>, more: seq<int>, destination: Option<int>)
    ensures SetParents(SetParents(rows, ids, destination), more, destination)
            == SetParents(rows, ids + more, destination)
  {
  }

  /** Moving one more entry of the batch is a single-entry move of the store so far. */
  lemma BatchStep(rows: seq<Entry>, entries: seq<Entry>, destination: Option<int>,
                  newParent: Option<Entry>, k: int)
    requires 0 <= k < |entries|
    ensures MovedSoFar(rows, entries, destination, newParent, k + 1)
            == MoveOne(MovedSoFar(rows, entries, destination, newParent, k), entries[k], destination, newParent)
  {
    var e := entries[k];
    assert Ids(entries[..k + 1]) == Ids(entries[..k]) + [e.id];
    var before := SetParents(rows, Ids(entries[..k]), destination);
    SetParentsTwice(rows, Ids(entries[..k]), [e.id], destination);
    PathUpdateStep(SetParents(rows, Ids(entries[..k + 1]), destination), entries, newParent, k);
    PathUpdatesAfterParents(before, [e.id], destination, entries[..k], newParent);
  }

  /** Row `m` after `k` entries keeps its id and kind, and has the destination as parent
      exactly when it is one of those entries. */
  lemma MovedSoFarColumns(rows: seq<Entry>, entries: seq<Entry>, destination: Option<int>,
                          newParent: Option<Entry>, k: int, m: int)
    requires 0 <= k <= |entries| && 0 <= m < |rows|
    ensures var after := MovedSoFar(rows, entries, destination, newParent, k);
            && |after| == |rows|
            && after[m].id == rows[m].id && after[m].kind == rows[m].kind
            && after[m].parent == if rows[m].id in Ids(entries[..k]) then destination else rows[m].parent
  {
    PathUpdatesKeepOtherColumns(SetParents(rows, Ids(entries[..k]), destination), entries[..k], newParent);
  }

  /** A row outside the subtrees of the first `k` entries keeps its path. */
  lemma {:induction false} MovedSoFarUntouched(rows: seq<Entry>, entries: seq<Entry>, destination: Option<int>,
                                               newParent: Option<Entry>, k: int, m: int)
    requires 0 <= k <= |entries| && 0 <= m < |rows|
    requires forall i :: 0 <= i < k ==> !Within(rows[m].path, entries[i].path)
    ensures var after := MovedSoFar(rows, entries, destination, newParent, k);
            |after| == |rows| && after[m].path == rows[m].path
    decreases k
  {
    MovedSoFarColumns(rows, entries, destination, newParent, k, m);
    if k > 0 {
      var e := entries[k - 1];
      MovedSoFarUntouched(rows, entries, destination, newParent, k - 1, m);
      BatchStep(rows, entries, destination, newParent, k - 1);
      MoveOneAt(MovedSoFar(rows, entries, destination, newParent, k - 1), e, destination, newParent, m);
      RewritePathSubtree(rows[m].path, e.path, NewPath(DestinationPath(newParent), e.path));
    } else {
      assert entries[..0] == [];
    }
  }

  /** A row that is none of the first `k` entries and lies outside their subtrees is
      exactly as it was. */
  lemma MovedSoFarKeepsRow(rows: seq<Entry>, entries: seq<Entry>, destination: Option<int>,
                           newParent: Option<Entry>, k: int, m: int)
    requires 0 <= k <= |entries| && 0 <= m < |rows|
    requires forall i :: 0 <= i < k ==> rows[m].id != entries[i].id && !Within(rows[m].path, entries[i].path)
    ensures rows[m] in MovedSoFar(rows, entries, destination, newParent, k)
  {
    var after := MovedSoFar(rows, entries, destination, newParent, k);
    MovedSoFarColumns(rows, entries, destination, newParent, k, m);
    MovedSoFarUntouched(rows, entries, destination, newParent, k, m);
    assert after[m] == rows[m];
  }

  /** In a well-formed store no selected entry has the destination (or, for a move to
      the root, the empty root path) within its subtree. */
  lemma DestinationOutside(rows: seq<Entry>, entries: seq<Entry>, destination: Option<int>,
                           newParent: Option<Entry>, i: int)
    requires BatchReady(rows, entries, destination, newParent) && 0 <= i < |entries|
    ensures !Within(DestinationPath(newParent), entries[i].path)
  {
    var e := entries[i];
    assert e in rows && LegalTarget(rows, e, destination, newParent);
    if newParent.Some? {
      GuardKeepsOutsideSubtree(rows, e, newParent.value);
    } else {
      var m :| 0 <= m < |rows| && rows[m] == e;
      assert PlacedUnderParent(rows, rows[m]);
    }
  }

  /** A path re-addressed with one selected entry is not caught by the path update of
      another selected entry. */
  lemma NoLaterCapture(rows: seq<Entry>, entries: seq<Entry>, destination: Option<int>,
                       newParent: Option<Entry>, i: int, j: int, q: string)
    requires BatchReady(rows, entries, destination, newParent)
    requires 0 <= i < |entries| && 0 <= j < |entries| && i != j
    requires Within(q, NewPath(DestinationPath(newParent), entries[i].path))
    ensures !Within(q, entries[j].path)
  {
    var base := DestinationPath(newParent);
    var ei, ej := entries[i], entries[j];
    var n := NewPath(base, ei.path);
    var name := LastSegment(ei.path);
    assert ei in rows && ej in rows;
    PathNamesEntry(rows, ei, ei);
    PathNamesEntry(rows, ej, ej);
    LastSegmentSplit(ei.path);
    LastSegmentOfJoin(base, name);
    if Within(q, ej.path) {
      WithinComparable(q, n, ej.path);
      if Within(n, ej.path) {
        ChildWithin(base, name, ej.path, ej.path);
        DestinationOutside(rows, entries, destination, newParent, j);
        assert n == ej.path;
        DecimalTextInjective(ei.id, ej.id);
        assert false;
      } else {
        AncestorExists(rows, ej, n);
        var z :| z in rows && z.path == n;
        PathNamesEntry(rows, z, z);
        DecimalTextInjective(z.id, ei.id);
        SameIdSameRow(rows, z, ei);
        assert false;
      }
    }
  }

  /** A row within the subtree of the `i`-th entry has that entry's new path followed by
      the rest of its own path once that entry has been moved. */
  lemma DescendantReaddressed(rows: seq<Entry>, entries: seq<Entry>, destination: Option<int>,
                              newParent: Option<Entry>, i: int, m: int)
    requires BatchReady(rows, entries, destination, newParent)
    requires 0 <= i < |entries| && 0 <= m < |rows|
    requires Within(rows[m].path, entries[i].path)
    ensures var after := MovedSoFar(rows, entries, destination, newParent, i + 1);
            && |after| == |rows|
            && after[m].path == NewPath(DestinationPath(newParent), entries[i].path)
                                + rows[m].path[|entries[i].path|..]
  {
    var o := entries[i].path;
    var p := rows[m].path;
    forall i' | 0 <= i' < i ensures !Within(p, entries[i'].path) {
      if Within(p, entries[i'].path) {
        WithinComparable(p, o, entries[i'].path);
        assert false;
      }
    }
    MovedSoFarUntouched(rows, entries, destination, newParent, i, m);
    BatchStep(rows, entries, destination, newParent, i);
    MoveOneAt(MovedSoFar(rows, entries, destination, newParent, i), entries[i], destination, newParent, m);
    RewritePathSubtree(p, o, NewPath(DestinationPath(newParent), o));
  }

  /** A re-addressed path is left alone by the path updates of the entries after it. */
  lemma DescendantStays(rows: seq<Entry>, entries: seq<Entry>, destination: Option<int>,
                        newParent: Option<Entry>, i: int, k: int, m: int, q: string)
    requires BatchReady(rows, entries, destination, newParent)
    requires 0 <= i < k < |entries| && 0 <= m < |rows|
    requires Within(q, NewPath(DestinationPath(newParent), entries[i].path))
    requires var before := MovedSoFar(rows, entries, destination, newParent, k);
             |before| == |rows| && before[m].path == q
    ensures var after := MovedSoFar(rows, entries, destination, newParent, k + 1);
            |after| == |rows| && after[m].path == q
  {
    var e := entries[k];
    NoLaterCapture(rows, entries, destination, newParent, i, k, q);
    BatchStep(rows, entries, destination, newParent, k);
    MoveOneAt(MovedSoFar(rows, entries, destination, newParent, k), e, destination, newParent, m);
    RewritePathSubtree(q, e.path, NewPath(DestinationPath(newParent), e.path));
  }

  /** A row within the subtree of the `i`-th entry, once `k > i` entries have been moved,
      has that entry's new path followed by the rest of its own path. */
  lemma {:induction false} MovedSoFarDescendant(rows: seq<Entry>, entries: seq<Entry>, destination: Option<int>,
                                                newParent: Option<Entry>, i: int, k: int, m: int)
    requires BatchReady(rows, entries, destination, newParent)
    requires 0 <= i < k <= |entries| && 0 <= m < |rows|
    requires Within(rows[m].path, entries[i].path)
    ensures var after := MovedSoFar(rows, entries, destination, newParent, k);
            && |after| == |rows|
            && after[m].path == NewPath(DestinationPath(newParent), entries[i].path)
                                + rows[m].path[|entries[i].path|..]
    decreases k
  {
    if k - 1 == i {
      DescendantReaddressed(rows, entries, destination, newParent, i, m);
    } else {
      MovedSoFarDescendant(rows, entries, destination, newParent, i, k - 1, m);
      var n := NewPath(DestinationPath(newParent), entries[i].path);
      var q := n + rows[m].path[|entries[i].path|..];
      RewritePathSubtree(rows[m].path, entries[i].path, n);
      DescendantStays(rows, entries, destination, newParent, i, k - 1, m, q);
    }
  }

  /** The `k`-th entry still stands unchanged in the store before its own move. */
  lemma EntryStillLoaded(rows: seq<Entry>, entries: seq<Entry>, destination: Option<int>,
                         newParent: Option<Entry>, k: int)
    requires BatchReady(rows, entries, destination, newParent) && 0 <= k < |entries|
    ensures entries[k] in MovedSoFar(rows, entries, destination, newParent, k)
  {
    assert entries[k] in rows;
    var m :| 0 <= m < |rows| && rows[m] == entries[k];
    MovedSoFarKeepsRow(rows, entries, destination, newParent, k, m);
  }

  /** The destination row is none of the selected entries and lies outside their subtrees. */
  lemma DestinationNotSelected(rows: seq<Entry>, entries: seq<Entry>, destination: Option<int>,
                               newParent: Option<Entry>, i: int)
    requires BatchReady(rows, entries, destination, newParent) && 0 <= i < |entries|
    requires newParent.Some?
    ensures newParent.value.id != entries[i].id && !Within(newParent.value.path, entries[i].path)
  {
    DestinationOutside(rows, entries, destination, newParent, i);
    assert entries[i] in rows && LegalTarget(rows, entries[i], destination, newParent);
    DistinctRowsDistinctIds(rows, newParent.value, entries[i]);
  }

  /** The destination row stands unchanged in the store throughout the batch. */
  lemma DestinationStillLoaded(rows: seq<Entry>, entries: seq<Entry>, destination: Option<int>,
                               newParent: Option<Entry>, k: int)
    requires BatchReady(rows, entries, destination, newParent) && 0 <= k < |entries|
    requires newParent.Some?
    ensures newParent.value in MovedSoFar(rows, entries, destination, newParent, k)
  {
    assert LegalTarget(rows, entries[k], destination, newParent);
    var t :| 0 <= t < |rows| && rows[t] == newParent.value;
    forall i | 0 <= i < k ensures rows[t].id != entries[i].id && !Within(rows[t].path, entries[i].path) {
      DestinationNotSelected(rows, entries, destination, newParent, i);
    }
    MovedSoFarKeepsRow(rows, entries, destination, newParent, k, t);
  }

  /** Every prefix of the batch leaves the store a well-formed forest. */
  lemma {:induction false} MovedSoFarKeepsTree(rows: seq<Entry>, entries: seq<Entry>, destination: Option<int>,
                                               newParent: Option<Entry>, k: int)
    requires BatchReady(rows, entries, destination, newParent) && 0 <= k <= |entries|
    ensures TreeShaped(MovedSoFar(rows, entries, destination, newParent, k))
    decreases k
  {
    if k == 0 {
      assert entries[..0] == [];
      assert MovedSoFar(rows, entries, destination, newParent, 0) == rows;
    } else {
      var j := k - 1;
      var before := MovedSoFar(rows, entries, destination, newParent, j);
      var e := entries[j];
      MovedSoFarKeepsTree(rows, entries, destination, newParent, j);
      EntryStillLoaded(rows, entries, destination, newParent, j);
      assert LegalTarget(rows, e, destination, newParent);
      if newParent.Some? {
        DestinationStillLoaded(rows, entries, destination, newParent, j);
      }
      assert LegalTarget(before, e, destination, newParent);
      SingleMoveKeepsTree(before, e, destination, newParent);
      BatchStep(rows, entries, destination, newParent, j);
    }
  }

  /** The paths after a batch whose entries receive new paths under `base`: a row within
      a selected entry's subtree has that entry's new path followed by the rest of its own
      path, and every other row keeps its path. */
  predicate Readdressed(rows: seq<Entry>, selected: seq<Entry>, base: string, after: seq<Entry>)
  {
    && |after| == |rows|
    && (forall m, i :: 0 <= m < |rows| && 0 <= i < |selected| && Within(rows[m].path, selected[i].path) ==>
          after[m].path == NewPath(base, selected[i].path) + rows[m].path[|selected[i].path|..])
    && (forall m :: 0 <= m < |rows| && (forall i :: 0 <= i < |selected| ==> !Within(rows[m].path, selected[i].path)) ==>
          after[m].path == rows[m].path)
  }

  /** The whole batch keeps the store well formed and re-addresses exactly the selected
      subtrees. */
  lemma BatchKeepsTree(rows: seq<Entry>, entries: seq<Entry>, destination: Option<int>, newParent: Option<Entry>)
    requires BatchReady(rows, entries, destination, newParent)
    ensures var after := MovedSoFar(rows, entries, destination, newParent, |entries|);
            TreeShaped(after) && Readdressed(rows, entries, DestinationPath(newParent), after)
  {
    var after := MovedSoFar(rows, entries, destination, newParent, |entries|);
    MovedSoFarKeepsTree(rows, entries, destination, newParent, |entries|);
    if |rows| > 0 {
      MovedSoFarColumns(rows, entries, destination, newParent, |entries|, 0);
    }
    forall m, i | 0 <= m < |rows| && 0 <= i < |entries| && Within(rows[m].path, entries[i].path)
      ensures after[m].path == NewPath(DestinationPath(newParent), entries[i].path)
                               + rows[m].path[|entries[i].path|..]
    {
      MovedSoFarDescendant(rows, entries, destination, newParent, i, |entries|, m);
    }
    forall m | 0 <= m < |rows| && (forall i :: 0 <= i < |entries| ==> !Within(rows[m].path, entries[i].path))
      ensures after[m].path == rows[m].path
    {
      MovedSoFarUntouched(rows, entries, destination, newParent, |entries|, m);
    }
  }

  /** A successful move, to the root or to a non-zero destination, whose selected entries
      are not nested in one another keeps a well-formed store well formed. Every row within
      a selected entry's subtree gets that entry's new path followed by the rest of its own
      path, and every other row keeps its path. */
  lemma BatchMoveKeepsTree(rows: seq<Entry>, authorize: seq<Value> -> bool, request: MoveRequest)
    requires TreeShaped(rows)
    requires request.destination != Int(0)
    requires MoveSpec(rows, authorize, request).response.Success?
    requires NotNested(Selected(rows, request))
    ensures var after := MoveSpec(rows, authorize, request).rows;
            && TreeShaped(after)
            && Readdressed(rows, Selected(rows, request),
                           DestinationPath(GetNewParent(rows, DestinationId(request.destination))), after)
  {
    SuccessOutcome(rows, authorize, request);
    var selected := Selected(rows, request);
    var destination := DestinationId(request.destination);
    var newParent := GetNewParent(rows, destination);
    var loaded := GetEntries(rows, Capped(request.entries));
    SubsequenceUniqueIds(selected, loaded);
    SelectedAreRows(rows, request);
    forall i | 0 <= i < |selected| ensures LegalTarget(rows, selected[i], destination, newParent) {
      SelectedTargetIsLegal(rows, request, selected[i]);
    }
    assert selected[..|selected|] == selected;
    BatchKeepsTree(rows, selected, destination, newParent);
  }
}
