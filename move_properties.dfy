/** What the batch move guarantees, stated over its reference definition `MoveSpec`
    (which the `Move` method is proved to implement). */
module MoveProperties {
  import opened Wrappers
  import opened Sequences
  import opened Paths
  import opened Entries
  import opened Requests
  import opened Store
  import opened MoveFileEntries

  // ---------------------------------------------------------------------------
  // Failure paths

  /** Each error answers exactly one failed stage, checked in the controller's order (reading
      the ids, authorization, validation, then "nothing left"); a failed call leaves the
      table as it was, issues no write and emits no event. */
  lemma FailureChangesNothing(rows: seq<Entry>, authorize: seq<Value> -> bool, request: MoveRequest)
    ensures var o := MoveSpec(rows, authorize, request);
            o.response == Failure(UndefinedIndex) <==> HasMissingId(Capped(request.entries))
    ensures var o := MoveSpec(rows, authorize, request);
            (o.response == Failure(Unauthorized) <==>
               !HasMissingId(Capped(request.entries)) && !authorize(IdValues(Capped(request.entries))))
    ensures var o := MoveSpec(rows, authorize, request);
            (o.response == Failure(ValidationFailed) <==>
               !HasMissingId(Capped(request.entries)) && authorize(IdValues(Capped(request.entries)))
               && !Validates(request, rows))
    ensures var o := MoveSpec(rows, authorize, request);
            (o.response == Failure(NothingToMove) <==>
               !HasMissingId(Capped(request.entries)) && authorize(IdValues(Capped(request.entries)))
               && Validates(request, rows) && Selected(rows, request) == [])
    ensures var o := MoveSpec(rows, authorize, request);
            o.response.Failure? ==> o.rows == rows && o.writes == [] && o.event == None
    ensures var o := MoveSpec(rows, authorize, request);
            o.response.Success? ==> o.event.Some? && |o.writes| == 1 + |Selected(rows, request)|
  {
  }

  /** Validation looks at the whole request: an invalid item after the 30th still fails an
      authorized request, although the cap keeps that item from being loaded or moved. */
  lemma ValidationSeesWholeRequest(rows: seq<Entry>, authorize: seq<Value> -> bool, request: MoveRequest)
    requires !HasMissingId(Capped(request.entries)) && authorize(IdValues(Capped(request.entries)))
    requires |request.entries| > MaxEntries && !ValidItem(request.entries[MaxEntries])
    ensures MoveSpec(rows, authorize, request).response == Failure(ValidationFailed)
  {
    assert !Validates(request, rows);
  }

  // ---------------------------------------------------------------------------
  // The cap

  /** Only the first 30 requested items are authorized, loaded or moved: every moved entry
      was named by one of them, and two validated requests that agree on their first 30
      items and their destination behave identically. */
  lemma OnlyFirstThirtyMove(rows: seq<Entry>, authorize: seq<Value> -> bool, request: MoveRequest, other: MoveRequest)
    ensures forall x :: x in Selected(rows, request) ==>
              exists k :: 0 <= k < |request.entries| && k < MaxEntries && request.entries[k].id == Int(x.id)
    ensures Capped(request.entries) == Capped(other.entries) && request.destination == other.destination
            && Validates(request, rows) == Validates(other, rows)
            ==> MoveSpec(rows, authorize, request) == MoveSpec(rows, authorize, other)
  {
    var capped := Capped(request.entries);
    forall x | x in Selected(rows, request)
      ensures exists k :: 0 <= k < |request.entries| && k < MaxEntries && request.entries[k].id == Int(x.id)
    {
      assert x in GetEntries(rows, capped);
      assert x.id in RequestedIds(capped);
      var k :| 0 <= k < |capped| && capped[k].id.Int? && capped[k].id.number == x.id;
      assert capped[k] == request.entries[k];
    }
  }

  // ---------------------------------------------------------------------------
  // The cycle guard

  /** With no new parent (destination absent, null, not a number, or 0) the guard keeps
      every loaded entry. */
  lemma FalsyDestinationKeepsAll(rows: seq<Entry>, request: MoveRequest)
    requires !request.destination.Int? || request.destination == Int(0)
    ensures Selected(rows, request) == GetEntries(rows, Capped(request.entries))
  {
  }

  /** With a destination, a loaded entry survives exactly when the decimal text of its id
      is not a substring of the destination's path; survivors keep their loaded order. */
  lemma GuardIsSubstringTest(rows: seq<Entry>, request: MoveRequest)
    requires Validates(request, rows)
    requires request.destination.Int? && request.destination != Int(0)
    ensures var destination := FindEntry(rows, request.destination.number);
            && destination.Some?
            && GetNewParent(rows, DestinationId(request.destination)) == destination
            && (forall x :: x in Selected(rows, request) <==>
                  x in GetEntries(rows, Capped(request.entries))
                  && !Contains(destination.value.path, DecimalText(x.id)))
    ensures IsSubsequence(Selected(rows, request), GetEntries(rows, Capped(request.entries)))
  {
  }

  /** The guard is coarser than segment matching: id 5 is refused for a folder at "/15",
      although "5" is not a segment of that path. */
  lemma GuardRefusesDigitOverlap()
    ensures var five := Entry(5, Folder, None, "/5");
            var fifteen := Entry(15, Folder, None, "/15");
            && DecimalText(five.id) !in Explode(fifteen.path)
            && RemoveInvalidEntries([five], Some(fifteen)) == []
  {
    var five := Entry(5, Folder, None, "/5");
    var fifteen := Entry(15, Folder, None, "/15");
    assert DecimalText(5) == "5";
    assert Implode(["", "15"]) == "/15";
    ExplodeImplode(["", "15"]);
    assert "/15"[1..][1..] == "5";
    assert Contains("/15", "5");
  }

  /** In a well-formed store an entry can be moved neither into itself nor into any entry
      of its own subtree (whose path lies within its path). */
  lemma GuardKeepsOutsideSubtree(rows: seq<Entry>, e: Entry, destination: Entry)
    requires TreeShaped(rows) && e in rows
    requires MayMoveInto(destination, e)
    ensures !Within(destination.path, e.path)
  {
    var name := DecimalText(e.id);
    PathNamesEntry(rows, e, e);
    LastSegmentSplit(e.path);
    ContainsSuffix(e.path, name);
    if Within(destination.path, e.path) {
      assert e.path <= destination.path;
      ContainsThroughPrefix(e.path, destination.path, name);
      assert false;
    }
  }

  /** No selected entry is moved into itself or its descendants, and in particular its id
      is never a segment of the destination's path. */
  lemma NeverIntoOwnSubtree(rows: seq<Entry>, request: MoveRequest, x: Entry)
    requires TreeShaped(rows) && x in Selected(rows, request)
    requires GetNewParent(rows, DestinationId(request.destination)).Some?
    ensures var destination := GetNewParent(rows, DestinationId(request.destination)).value;
            && !Within(destination.path, x.path)
            && DecimalText(x.id) !in Explode(destination.path)
  {
    var destination := GetNewParent(rows, DestinationId(request.destination)).value;
    var loaded := GetEntries(rows, Capped(request.entries));
    assert x in loaded && MayMoveInto(destination, x);
    GuardKeepsOutsideSubtree(rows, x, destination);
    var segments := Explode(destination.path);
    if DecimalText(x.id) in segments {
      var k :| 0 <= k < |segments| && segments[k] == DecimalText(x.id);
      SegmentsAreContained(destination.path, k);
      assert false;
    }
  }

  // ---------------------------------------------------------------------------
  // Effects of a successful move

  /** The selected entries are rows of the store. */
  lemma SelectedAreRows(rows: seq<Entry>, request: MoveRequest)
    ensures forall x :: x in Selected(rows, request) ==> x in rows
  {
    forall x | x in Selected(rows, request) ensures x in rows {
      assert x in GetEntries(rows, Capped(request.entries));
    }
  }

  /** A successful outcome, spelled out once in terms of the selected entries. */
  lemma SuccessOutcome(rows: seq<Entry>, authorize: seq<Value> -> bool, request: MoveRequest)
    requires MoveSpec(rows, authorize, request).response.Success?
    ensures var selected := Selected(rows, request);
            var destination := DestinationId(request.destination);
            var newParent := GetNewParent(rows, destination);
            && !HasMissingId(Capped(request.entries))
            && authorize(IdValues(Capped(request.entries)))
            && Validates(request, rows)
            && selected != []
            && MoveSpec(rows, authorize, request) == Outcome(
                 Success(MovedEntries(selected, destination, newParent)),
                 Some(FileEntriesMoved(Ids(selected), destination, selected[0].parent)),
                 ApplyPathUpdates(SetParents(rows, Ids(selected), destination), selected, newParent),
                 [ParentsUpdated(Ids(selected), destination)] + PathUpdateWrites(selected, newParent))
  {
  }

  /** The path updates change only paths. */
  lemma {:induction false} PathUpdatesKeepOtherColumns(rows: seq<Entry>, entries: seq<Entry>, newParent: Option<Entry>)
    ensures |ApplyPathUpdates(rows, entries, newParent)| == |rows|
    ensures forall k :: 0 <= k < |rows| ==>
              && ApplyPathUpdates(rows, entries, newParent)[k].id == rows[k].id
              && ApplyPathUpdates(rows, entries, newParent)[k].kind == rows[k].kind
              && ApplyPathUpdates(rows, entries, newParent)[k].parent == rows[k].parent
    decreases |entries|
  {
    if entries != [] {
      PathUpdatesKeepOtherColumns(rows, entries[..|entries| - 1], newParent);
    }
  }

  /** After a successful move every selected row has the destination as parent, every
      other row keeps its parent, and no row is created, dropped, renumbered or retyped. */
  lemma ParentsAfterMove(rows: seq<Entry>, authorize: seq<Value> -> bool, request: MoveRequest)
    requires MoveSpec(rows, authorize, request).response.Success?
    ensures var after := MoveSpec(rows, authorize, request).rows;
            var moved := Ids(Selected(rows, request));
            && |after| == |rows|
            && forall k :: 0 <= k < |rows| ==>
                 && after[k].id == rows[k].id
                 && after[k].kind == rows[k].kind
                 && after[k].parent
                    == if rows[k].id in moved then DestinationId(request.destination) else rows[k].parent
  {
    SuccessOutcome(rows, authorize, request);
    var entries := Selected(rows, request);
    var destination := DestinationId(request.destination);
    PathUpdatesKeepOtherColumns(SetParents(rows, Ids(entries), destination), entries,
                                GetNewParent(rows, destination));
  }

  /** The returned entries are the selected ones, in order, each with the destination as
      parent and a new path that lies directly under the destination's path (or the root)
      and ends in the entry's own last segment. */
  lemma ReturnedEntries(rows: seq<Entry>, authorize: seq<Value> -> bool, request: MoveRequest)
    requires MoveSpec(rows, authorize, request).response.Success?
    ensures var moved := MoveSpec(rows, authorize, request).response.value;
            var selected := Selected(rows, request);
            var base := DestinationPath(GetNewParent(rows, DestinationId(request.destination)));
            && |moved| == |selected| > 0
            && forall k :: 0 <= k < |moved| ==>
                 && moved[k].id == selected[k].id
                 && moved[k].kind == selected[k].kind
                 && moved[k].parent == DestinationId(request.destination)
                 && moved[k].path == NewPath(base, selected[k].path)
                 && base + [Separator] <= moved[k].path
                 && LastSegment(moved[k].path) == LastSegment(selected[k].path)
                 && Separator !in LastSegment(moved[k].path)
  {
    SuccessOutcome(rows, authorize, request);
    var selected := Selected(rows, request);
    var base := DestinationPath(GetNewParent(rows, DestinationId(request.destination)));
    forall k | 0 <= k < |selected|
      ensures base + [Separator] <= NewPath(base, selected[k].path)
      ensures LastSegment(NewPath(base, selected[k].path)) == LastSegment(selected[k].path)
      ensures Separator !in LastSegment(selected[k].path)
    {
      NewPathShape(base, selected[k].path);
      LastSegmentSplit(selected[k].path);
    }
  }

  /** A successful move first issues one bulk parent update for the selected ids, then
      exactly one path update per selected entry, in order, with that entry's path before
      the move and the path it is returned with. */
  lemma WritesInOrder(rows: seq<Entry>, authorize: seq<Value> -> bool, request: MoveRequest)
    requires MoveSpec(rows, authorize, request).response.Success?
    ensures var o := MoveSpec(rows, authorize, request);
            var selected := Selected(rows, request);
            && |o.writes| == 1 + |selected|
            && o.writes[0] == ParentsUpdated(Ids(selected), DestinationId(request.destination))
            && forall k :: 0 <= k < |selected| ==>
                 o.writes[k + 1] == PathsUpdated(selected[k].path, o.response.value[k].path)
  {
    SuccessOutcome(rows, authorize, request);
    var selected := Selected(rows, request);
    var destination := DestinationId(request.destination);
    var newParent := GetNewParent(rows, destination);
    var moved := MovedEntries(selected, destination, newParent);
    var writes := [ParentsUpdated(Ids(selected), destination)] + PathUpdateWrites(selected, newParent);
    assert MoveSpec(rows, authorize, request).writes == writes;
    assert MoveSpec(rows, authorize, request).response.value == moved;
    forall k | 0 <= k < |selected|
      ensures writes[k + 1] == PathsUpdated(selected[k].path, moved[k].path)
    {
      assert writes[k + 1] == PathUpdateWrites(selected, newParent)[k];
    }
  }

  /** One event per successful move: the moved ids in order, the destination, and as
      source the parent that the first moved entry had in the store before the move (the
      parent of the row found under its id, when ids are unique). */
  lemma EventContents(rows: seq<Entry>, authorize: seq<Value> -> bool, request: MoveRequest)
    requires MoveSpec(rows, authorize, request).response.Success?
    ensures |MoveSpec(rows, authorize, request).response.value| >= 1
    ensures var o := MoveSpec(rows, authorize, request);
            var first := o.response.value[0];
            && o.event.Some?
            && o.event.value.ids == Ids(o.response.value)
            && o.event.value.destination == DestinationId(request.destination)
            && exists x :: x in rows && x.id == first.id && o.event.value.source == x.parent
    ensures var o := MoveSpec(rows, authorize, request);
            var first := o.response.value[0];
            UniqueIds(rows) ==>
              FindEntry(rows, first.id).Some? && o.event.value.source == FindEntry(rows, first.id).value.parent
  {
    var o := MoveSpec(rows, authorize, request);
    SuccessOutcome(rows, authorize, request);
    var selected := Selected(rows, request);
    var destination := DestinationId(request.destination);
    var moved := MovedEntries(selected, destination, GetNewParent(rows, destination));
    assert Ids(moved) == Ids(selected);
    assert moved[0].id == selected[0].id;
    SelectedAreRows(rows, request);
    assert selected[0] in rows;
    if UniqueIds(rows) {
      FindUnique(rows, selected[0]);
    }
  }

  // ---------------------------------------------------------------------------
  // The tree shape after a single-entry move

  /** The table after moving one entry `e`: the parent update, then one path update. */
  function MoveOne(rows: seq<Entry>, e: Entry, destination: Option<int>, newParent: Option<Entry>): seq<Entry>
  {
    RewriteAll(SetParents(rows, [e.id], destination), e.path, NewPath(DestinationPath(newParent), e.path))
  }

  /** Moving one entry keeps every row's id, so ids stay unique and lookups find the
      moved versions of the same rows. */
  lemma MoveOneLookup(rows: seq<Entry>, e: Entry, destination: Option<int>, newParent: Option<Entry>, j: int)
    requires UniqueIds(rows) && 0 <= j < |rows|
    ensures var after := MoveOne(rows, e, destination, newParent);
            |after| == |rows| && UniqueIds(after) && FindEntry(after, rows[j].id) == Some(after[j])
  {
    var after := MoveOne(rows, e, destination, newParent);
    assert forall k :: 0 <= k < |rows| ==> after[k].id == rows[k].id;
    FindUnique(after, after[j]);
  }

  /** The conditions under which the move hands `e` and its target to the path update. */
  predicate LegalTarget(rows: seq<Entry>, e: Entry, destination: Option<int>, newParent: Option<Entry>)
  {
    || (destination.None? && newParent.None?)
    || (newParent.Some? && newParent.value in rows && destination == Some(newParent.value.id)
        && MayMoveInto(newParent.value, e))
  }

  /** One row after moving `e`: only its parent (if it is `e`) and its path change. */
  lemma MoveOneAt(rows: seq<Entry>, e: Entry, destination: Option<int>, newParent: Option<Entry>, k: int)
    requires 0 <= k < |rows|
    ensures var after := MoveOne(rows, e, destination, newParent);
            && |after| == |rows|
            && after[k] == Entry(rows[k].id, rows[k].kind,
                                 if rows[k].id == e.id then destination else rows[k].parent,
                                 RewritePath(rows[k].path, e.path, NewPath(DestinationPath(newParent), e.path)))
  {
  }

  /** The moved entry itself lands directly under its destination. */
  lemma SingleMoveRowSelf(rows: seq<Entry>, e: Entry, destination: Option<int>, newParent: Option<Entry>, k: int)
    requires TreeShaped(rows) && e in rows && LegalTarget(rows, e, destination, newParent)
    requires 0 <= k < |rows| && rows[k] == e
    ensures var after := MoveOne(rows, e, destination, newParent);
            |after| == |rows| && PlacedUnderParent(after, after[k])
  {
    var after := MoveOne(rows, e, destination, newParent);
    var n := NewPath(DestinationPath(newParent), e.path);
    MoveOneAt(rows, e, destination, newParent, k);
    PathNamesEntry(rows, e, e);
    assert after[k].parent == destination && after[k].path == n;
    assert n == DestinationPath(newParent) + [Separator] + DecimalText(e.id);
    if newParent.Some? {
      var target := newParent.value;
      var j :| 0 <= j < |rows| && rows[j] == target;
      MoveOneLookup(rows, e, destination, newParent, j);
      MoveOneAt(rows, e, destination, newParent, j);
      GuardKeepsOutsideSubtree(rows, e, target);
      RewritePathSubtree(target.path, e.path, n);
      assert after[j].path == target.path;
    } else {
      assert n == [Separator] + DecimalText(e.id);
    }
  }

  /** A row other than the moved one keeps its parent, and its path follows its parent's. */
  lemma SingleMoveRowOther(rows: seq<Entry>, e: Entry, destination: Option<int>, newParent: Option<Entry>, k: int)
    requires TreeShaped(rows) && e in rows && LegalTarget(rows, e, destination, newParent)
    requires 0 <= k < |rows| && rows[k].id != e.id
    ensures var after := MoveOne(rows, e, destination, newParent);
            |after| == |rows| && PlacedUnderParent(after, after[k])
  {
    var after := MoveOne(rows, e, destination, newParent);
    var o := e.path;
    var n := NewPath(DestinationPath(newParent), o);
    var x := rows[k];
    var name := DecimalText(x.id);
    MoveOneAt(rows, e, destination, newParent, k);
    PathNamesEntry(rows, x, e);
    assert x.path != o;
    assert PlacedUnderParent(rows, rows[k]);
    match x.parent
    case None =>
      assert !Within("", o) by {
        var m :| 0 <= m < |rows| && rows[m] == e;
        assert PlacedUnderParent(rows, rows[m]);
      }
      ChildWithin("", name, o, n);
      assert x.path == "" + [Separator] + name;
      RewritePathSubtree(x.path, o, n);
    case Some(p) =>
      var parent := FindEntry(rows, p).value;
      var j :| 0 <= j < |rows| && rows[j] == parent;
      MoveOneLookup(rows, e, destination, newParent, j);
      MoveOneAt(rows, e, destination, newParent, j);
      assert x.path == parent.path + [Separator] + name;
      ChildWithin(parent.path, name, o, n);
      RewritePathSubtree(parent.path, o, n);
      RewritePathSubtree(x.path, o, n);
  }

  /** Moving a single entry into the root or into a legal destination keeps the store a
      well-formed forest: the entry and its whole subtree are re-addressed below the
      destination and every other path is untouched. */
  lemma SingleMoveKeepsTree(rows: seq<Entry>, e: Entry, destination: Option<int>, newParent: Option<Entry>)
    requires TreeShaped(rows) && e in rows && LegalTarget(rows, e, destination, newParent)
    ensures TreeShaped(MoveOne(rows, e, destination, newParent))
  {
    var after := MoveOne(rows, e, destination, newParent);
    if |rows| > 0 {
      MoveOneLookup(rows, e, destination, newParent, 0);
    }
    forall k | 0 <= k < |after| ensures PlacedUnderParent(after, after[k]) {
      if rows[k].id == e.id {
        var m :| 0 <= m < |rows| && rows[m] == e;
        assert m == k;
        SingleMoveRowSelf(rows, e, destination, newParent, k);
      } else {
        SingleMoveRowOther(rows, e, destination, newParent, k);
      }
    }
  }

  /** A selected entry and the validated destination are a legal target for the move. */
  lemma SelectedTargetIsLegal(rows: seq<Entry>, request: MoveRequest, e: Entry)
    requires Validates(request, rows) && request.destination != Int(0)
    requires e in Selected(rows, request)
    ensures LegalTarget(rows, e, DestinationId(request.destination),
                        GetNewParent(rows, DestinationId(request.destination)))
  {
    var destination := DestinationId(request.destination);
    if destination.Some? {
      var target := FindEntry(rows, destination.value).value;
      assert GetNewParent(rows, destination) == Some(target);
    }
  }

  /** The table after a move whose selection is the single entry `e`. */
  lemma OneEntryOutcome(rows: seq<Entry>, e: Entry, destination: Option<int>, newParent: Option<Entry>)
    ensures ApplyPathUpdates(SetParents(rows, Ids([e]), destination), [e], newParent)
            == MoveOne(rows, e, destination, newParent)
  {
    assert Ids([e]) == [e.id];
    assert [e][..0] == [];
  }
}
