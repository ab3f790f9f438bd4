/** Concrete moves on a small store. */
module MoveExamples {
  import opened Wrappers
  import opened Paths
  import opened Entries
  import opened Requests
  import opened MoveFileEntries
  import opened MoveProperties
  import opened BatchMoves

  function AllowAll(ids: seq<Value>): bool { true }

  /** Entry 7 at "/3/7" moved to the root becomes "/7" with no parent. */
  lemma MoveToRoot()
    ensures var rows := [Entry(3, Folder, None, "/3"), Entry(7, File, Some(3), "/3/7")];
            var o := MoveSpec(rows, AllowAll, MoveRequest([RequestItem(Int(7), Text("file"))], Null));
            && o.response == Success([Entry(7, File, None, "/7")])
            && o.rows == [Entry(3, Folder, None, "/3"), Entry(7, File, None, "/7")]
  {
    var rows := [Entry(3, Folder, None, "/3"), Entry(7, File, Some(3), "/3/7")];
    var items := [RequestItem(Int(7), Text("file"))];
    var request := MoveRequest(items, Null);
    assert Capped(items) == items;
    assert Validates(request, rows);
    assert items[0].id.Int? && items[0].id.number == 7;
    assert 7 in RequestedIds(items);
    assert RequestedIds(items) == {7};
    assert rows[1..] == [rows[1]] && rows[1..][1..] == [];
    assert WhereIdIn(rows, {7}) == [rows[1]];
    assert Selected(rows, request) == [rows[1]];
    LastSegmentOfJoin("/3", "7");
    assert "/3/7" == "/3" + [Separator] + "7";
    assert NewPath("", "/3/7") == "/7";
    SuccessOutcome(rows, AllowAll, request);
    OneEntryOutcome(rows, rows[1], None, None);
    MoveOneAt(rows, rows[1], None, None, 0);
    MoveOneAt(rows, rows[1], None, None, 1);
    assert !("/3/7" + [Separator] <= "/3");
    var o := MoveSpec(rows, AllowAll, request);
    var moved := MovedEntries([rows[1]], None, None);
    assert |moved| == 1 && moved[0] == Entry(7, File, None, "/7");
    assert moved == [Entry(7, File, None, "/7")];
    assert o.response == Success(moved);
    var after := MoveOne(rows, rows[1], None, None);
    assert o.rows == after;
    assert after[0] == Entry(3, Folder, None, "/3") && after[1] == Entry(7, File, None, "/7");
    assert after == [Entry(3, Folder, None, "/3"), Entry(7, File, None, "/7")];
  }

  /** A lookup finds nothing when no row carries a listed id. */
  lemma {:induction false} WhereNoneListed(rows: seq<Entry>, ids: set<int>)
    requires forall y :: y in rows ==> y.id !in ids
    ensures WhereIdIn(rows, ids) == []
  {
    if rows != [] {
      assert rows[0] in rows;
      WhereNoneListed(rows[1..], ids);
    }
  }

  /** A lookup by a single id finds exactly the row with that id. */
  lemma {:induction false} WhereSingleId(rows: seq<Entry>, x: Entry)
    requires UniqueIds(rows) && x in rows
    ensures WhereIdIn(rows, {x.id}) == [x]
  {
    if rows[0] == x {
      assert forall y :: y in rows[1..] ==> y.id != x.id by {
        forall j | 1 <= j < |rows| ensures rows[j].id != x.id {
          assert rows[0].id != rows[j].id;
        }
      }
      WhereNoneListed(rows[1..], {x.id});
    } else {
      assert rows[0].id != x.id by {
        var j :| 0 <= j < |rows| && rows[j] == x;
        assert j != 0;
        assert rows[0].id != rows[j].id;
      }
      assert UniqueIds(rows[1..]) by {
        forall i, j | 0 <= i < j < |rows| - 1 ensures rows[1..][i].id != rows[1..][j].id {
          assert rows[i + 1].id != rows[j + 1].id;
        }
      }
      WhereSingleId(rows[1..], x);
    }
  }

  /** A single requested item names exactly its own id. */
  lemma OneRequested(item: RequestItem)
    requires item.id.Int?
    ensures RequestedIds([item]) == {item.id.number}
  {
    assert [item][0] == item;
  }

  /** Two requested items name exactly their two ids. */
  lemma TwoRequested(first: RequestItem, second: RequestItem)
    requires first.id.Int? && second.id.Int?
    ensures RequestedIds([first, second]) == {first.id.number, second.id.number}
  {
    var items := [first, second];
    assert items[0] == first && items[1] == second;
    assert first.id.number in RequestedIds(items);
    assert second.id.number in RequestedIds(items);
  }

  /** A one-digit id's text is its digit. */
  lemma OneDigit(n: int)
    requires 0 <= n < 10
    ensures DecimalText(n) == [DigitChar(n)]
  {
  }

  /** A single entry passes the guard exactly when its one-digit id does not occur in the
      new parent's path. */
  lemma GuardOneDigit(x: Entry, newParent: Entry)
    requires 0 <= x.id < 10
    ensures KeepMovable([x], newParent) == if DigitChar(x.id) in newParent.path then [] else [x]
  {
    OneDigit(x.id);
    ContainsChar(newParent.path, DigitChar(x.id));
    assert [x][1..] == [];
  }

  /** Folders 2, 5 and 9 with file 12 inside folder 5. */
  function FolderTree(): seq<Entry>
  {
    [Entry(2, Folder, None, "/2"), Entry(5, Folder, Some(2), "/2/5"),
     Entry(9, Folder, None, "/9"), Entry(12, File, Some(5), "/2/5/12")]
  }

  function MoveFiveIntoNine(): MoveRequest
  {
    MoveRequest([RequestItem(Int(5), Text("folder"))], Int(9))
  }

  lemma FolderTreeLookup(k: int)
    requires 0 <= k < |FolderTree()|
    ensures FindEntry(FolderTree(), FolderTree()[k].id) == Some(FolderTree()[k])
  {
    assert UniqueIds(FolderTree());
    FindUnique(FolderTree(), FolderTree()[k]);
  }

  /** The request loads folder 5 only, and the guard keeps it for folder 9 at "/9". */
  lemma FiveIntoNineSelected()
    ensures Validates(MoveFiveIntoNine(), FolderTree())
    ensures GetNewParent(FolderTree(), Some(9)) == Some(FolderTree()[2])
    ensures Selected(FolderTree(), MoveFiveIntoNine()) == [FolderTree()[1]]
  {
    var rows := FolderTree();
    var items := MoveFiveIntoNine().entries;
    FolderTreeLookup(2);
    assert Capped(items) == items;
    OneRequested(items[0]);
    assert UniqueIds(rows);
    WhereSingleId(rows, rows[1]);
    GuardOneDigit(rows[1], rows[2]);
    assert DigitChar(5) !in "/9";
  }

  /** The path rewrites of moving "/2/5" to "/9/5", row by row. */
  lemma FiveIntoNinePaths()
    ensures NewPath("/9", "/2/5") == "/9/5"
    ensures RewritePath("/2", "/2/5", "/9/5") == "/2"
    ensures RewritePath("/2/5", "/2/5", "/9/5") == "/9/5"
    ensures RewritePath("/9", "/2/5", "/9/5") == "/9"
    ensures RewritePath("/2/5/12", "/2/5", "/9/5") == "/9/5/12"
  {
    LastSegmentOfJoin("/2", "5");
    assert "/2/5" == "/2" + [Separator] + "5";
    assert "/2/5" + [Separator] <= "/2/5/12";
    assert "/9/5" + "/2/5/12"[4..] == "/9/5/12";
  }

  lemma FiveIntoNineRows()
    ensures MoveOne(FolderTree(), FolderTree()[1], Some(9), Some(FolderTree()[2]))
            == [Entry(2, Folder, None, "/2"), Entry(5, Folder, Some(9), "/9/5"),
                Entry(9, Folder, None, "/9"), Entry(12, File, Some(5), "/9/5/12")]
  {
    var rows := FolderTree();
    var e := rows[1];
    var np := Some(rows[2]);
    FiveIntoNinePaths();
    assert e.path == "/2/5" && DestinationPath(np) == "/9";
    var after := MoveOne(rows, e, Some(9), np);
    MoveOneAt(rows, e, Some(9), np, 0);
    MoveOneAt(rows, e, Some(9), np, 1);
    MoveOneAt(rows, e, Some(9), np, 2);
    MoveOneAt(rows, e, Some(9), np, 3);
    assert after[0] == Entry(2, Folder, None, "/2");
    assert after[1] == Entry(5, Folder, Some(9), "/9/5");
    assert after[2] == Entry(9, Folder, None, "/9");
    assert after[3] == Entry(12, File, Some(5), "/9/5/12");
  }

  /** What the move of folder 5 into folder 9 answers and announces. */
  lemma FiveIntoNineAnswer()
    ensures MovedEntries([FolderTree()[1]], Some(9), Some(FolderTree()[2])) == [Entry(5, Folder, Some(9), "/9/5")]
    ensures Ids([FolderTree()[1]]) == [5] && FolderTree()[1].parent == Some(2)
  {
    var e := FolderTree()[1];
    FiveIntoNinePaths();
    assert e.path == "/2/5" && DestinationPath(Some(FolderTree()[2])) == "/9";
    var moved := MovedEntries([e], Some(9), Some(FolderTree()[2]));
    assert |moved| == 1 && moved[0] == Entry(5, Folder, Some(9), "/9/5");
  }

  /** The move of folder 5 into folder 9, in terms of the single-entry move. */
  lemma FiveIntoNineOutcome()
    ensures var rows := FolderTree();
            var selected := [rows[1]];
            var o := MoveSpec(rows, AllowAll, MoveFiveIntoNine());
            && o.response == Success(MovedEntries(selected, Some(9), Some(rows[2])))
            && o.rows == MoveOne(rows, rows[1], Some(9), Some(rows[2]))
            && o.event == Some(FileEntriesMoved(Ids(selected), Some(9), rows[1].parent))
  {
    var rows := FolderTree();
    FiveIntoNineSelected();
    assert DestinationId(MoveFiveIntoNine().destination) == Some(9);
    SuccessOutcome(rows, AllowAll, MoveFiveIntoNine());
    OneEntryOutcome(rows, rows[1], Some(9), Some(rows[2]));
  }

  /** Folder 5 at "/2/5" with a child 12, moved into folder 9 at "/9": folder 5 is
      returned as "/9/5" under 9, and the event reports 5's former parent 2 as the
      source. */
  lemma MoveFolderWithChild()
    ensures var o := MoveSpec(FolderTree(), AllowAll, MoveFiveIntoNine());
            && o.response == Success([Entry(5, Folder, Some(9), "/9/5")])
            && o.event == Some(FileEntriesMoved([5], Some(9), Some(2)))
  {
    FiveIntoNineOutcome();
    FiveIntoNineAnswer();
  }

  /** The same move in the table: folder 5 becomes "/9/5" under 9 and its child follows
      to "/9/5/12"; the other rows are untouched. */
  lemma MoveFolderWithChildRows()
    ensures MoveSpec(FolderTree(), AllowAll, MoveFiveIntoNine()).rows
            == [Entry(2, Folder, None, "/2"), Entry(5, Folder, Some(9), "/9/5"),
                Entry(9, Folder, None, "/9"), Entry(12, File, Some(5), "/9/5/12")]
  {
    FiveIntoNineOutcome();
    FiveIntoNineRows();
  }

  /** The request loads folder 5 only, and the guard drops it for folder 12 at
      "/2/5/12". */
  lemma FiveIntoTwelveSelected()
    ensures var request := MoveRequest([RequestItem(Int(5), Text("folder"))], Int(12));
            Validates(request, FolderTree()) && Selected(FolderTree(), request) == []
  {
    var rows := FolderTree();
    var items := [RequestItem(Int(5), Text("folder"))];
    var request := MoveRequest(items, Int(12));
    FolderTreeLookup(3);
    assert Capped(items) == items;
    assert Validates(request, rows);
    OneRequested(items[0]);
    assert UniqueIds(rows);
    WhereSingleId(rows, rows[1]);
    assert GetNewParent(rows, Some(12)) == Some(rows[3]);
    GuardOneDigit(rows[1], rows[3]);
    assert "/2/5/12"[3] == DigitChar(5);
  }

  /** Folder 5 cannot be moved into its own descendant 12 at "/2/5/12": the guard drops
      it, nothing is left, and the store is not touched. */
  lemma MoveIntoDescendantFails()
    ensures var o := MoveSpec(FolderTree(), AllowAll, MoveRequest([RequestItem(Int(5), Text("folder"))], Int(12)));
            o == Outcome(Failure(NothingToMove), None, FolderTree(), [])
  {
    FiveIntoTwelveSelected();
  }

  /** Folder 1 with its child folder 2, and folder 3, all correctly placed. */
  function NestedTree(): seq<Entry>
  {
    [Entry(1, Folder, None, "/1"), Entry(2, Folder, Some(1), "/1/2"), Entry(3, Folder, None, "/3")]
  }

  function MoveBothIntoThree(): MoveRequest
  {
    MoveRequest([RequestItem(Int(1), Text("folder")), RequestItem(Int(2), Text("folder"))], Int(3))
  }

  lemma NestedTreeShaped()
    ensures TreeShaped(NestedTree())
  {
    var rows := NestedTree();
    assert DecimalText(1) == "1" && DecimalText(2) == "2" && DecimalText(3) == "3";
    assert UniqueIds(rows);
    FindUnique(rows, rows[0]);
    assert PlacedUnderParent(rows, rows[0]);
    assert PlacedUnderParent(rows, rows[1]);
    assert PlacedUnderParent(rows, rows[2]);
  }

  /** The request loads folders 1 and 2, in store order. */
  lemma BothIntoThreeLoaded()
    ensures WhereIdIn(NestedTree(), RequestedIds(MoveBothIntoThree().entries)) == [NestedTree()[0], NestedTree()[1]]
  {
    var rows := NestedTree();
    var items := MoveBothIntoThree().entries;
    TwoRequested(items[0], items[1]);
    assert items == [items[0], items[1]];
    assert rows[1..] == [rows[1], rows[2]] && rows[1..][1..] == [rows[2]] && rows[1..][1..][1..] == [];
  }

  /** Both folders pass the guard for folder 3 at "/3". */
  lemma BothIntoThreeGuarded()
    ensures KeepMovable([NestedTree()[0], NestedTree()[1]], NestedTree()[2]) == [NestedTree()[0], NestedTree()[1]]
  {
    var rows := NestedTree();
    GuardOneDigit(rows[1], rows[2]);
    assert DigitChar(2) !in "/3";
    OneDigit(1);
    ContainsChar("/3", DigitChar(1));
    assert DigitChar(1) !in "/3";
    assert [rows[0], rows[1]][1..] == [rows[1]];
  }

  lemma BothIntoThreeSelected()
    ensures Validates(MoveBothIntoThree(), NestedTree())
    ensures GetNewParent(NestedTree(), Some(3)) == Some(NestedTree()[2])
    ensures Selected(NestedTree(), MoveBothIntoThree()) == [NestedTree()[0], NestedTree()[1]]
  {
    var rows := NestedTree();
    var items := MoveBothIntoThree().entries;
    assert UniqueIds(rows);
    FindUnique(rows, rows[2]);
    assert Capped(items) == items;
    BothIntoThreeLoaded();
    BothIntoThreeGuarded();
  }

  /** The new paths of "/1" and "/1/2" under "/3". */
  lemma BothIntoThreeNewPaths()
    ensures NewPath("/3", "/1") == "/3/1"
    ensures NewPath("/3", "/1/2") == "/3/2"
  {
    ExplodeSingle("1");
    LastSegmentOfJoin("", "1");
    LastSegmentOfJoin("/1", "2");
    assert "/1" == "" + [Separator] + "1" && "/1/2" == "/1" + [Separator] + "2";
  }

  /** The path rewrites of moving "/1" and then "/1/2" under "/3". */
  lemma BothIntoThreePaths()
    ensures RewritePath("/1", "/1", "/3/1") == "/3/1"
    ensures RewritePath("/1/2", "/1", "/3/1") == "/3/1/2"
    ensures RewritePath("/3", "/1", "/3/1") == "/3"
    ensures RewritePath("/3/1", "/1/2", "/3/2") == "/3/1"
    ensures RewritePath("/3/1/2", "/1/2", "/3/2") == "/3/1/2"
    ensures RewritePath("/3", "/1/2", "/3/2") == "/3"
  {
    assert "/1" + [Separator] <= "/1/2";
    assert "/3/1" + "/1/2"[2..] == "/3/1/2";
    assert ("/1" + [Separator])[1] != "/3"[1];
    assert ("/1/2" + [Separator])[1] != "/3/1/2"[1];
    assert ("/1/2" + [Separator])[1] != "/3/1"[1];
    assert |"/1/2" + [Separator]| > |"/3"|;
  }

  lemma BothIntoThreeRows()
    ensures var rows := NestedTree();
            var after := ApplyPathUpdates(SetParents(rows, [1, 2], Some(3)), [rows[0], rows[1]], Some(rows[2]));
            |after| == 3 && after[1] == Entry(2, Folder, Some(3), "/3/1/2") && after[2] == rows[2]
    ensures MovedEntry(NestedTree()[1], Some(3), Some(NestedTree()[2])) == Entry(2, Folder, Some(3), "/3/2")
  {
    var rows := NestedTree();
    var a, b, np := rows[0], rows[1], Some(rows[2]);
    var selected := [a, b];
    BothIntoThreeNewPaths();
    BothIntoThreePaths();
    assert a.path == "/1" && b.path == "/1/2" && DestinationPath(np) == "/3";
    var reparented := SetParents(rows, [1, 2], Some(3));
    assert |reparented| == 3;
    assert reparented[1] == Entry(2, Folder, Some(3), "/1/2");
    assert reparented[2] == rows[2];
    // the parent's path update carries the child's row along
    assert selected[..1] == [a] && [a][..0] == [];
    var first := ApplyPathUpdates(reparented, [a], np);
    assert ApplyPathUpdates(reparented, [], np) == reparented;
    assert first == RewriteAll(reparented, "/1", "/3/1");
    assert first[1] == Entry(2, Folder, Some(3), "/3/1/2");
    assert first[2] == rows[2];
    // the child's own path update no longer matches its row
    var after := ApplyPathUpdates(reparented, selected, np);
    assert after == RewriteAll(first, "/1/2", "/3/2");
    assert after[1] == first[1];
    assert after[2] == first[2];
  }

  /** A child recorded under folder 3 at "/3" whose path is not "/3/2" is misplaced. */
  lemma StaleChildBreaksTree(rows: seq<Entry>)
    requires |rows| == 3
    requires rows[1] == Entry(2, Folder, Some(3), "/3/1/2") && rows[2] == Entry(3, Folder, None, "/3")
    ensures !TreeShaped(rows)
  {
    if UniqueIds(rows) {
      FindUnique(rows, rows[2]);
      assert DecimalText(2) == "2";
      assert ParentPath(rows, rows[1]) == Some("/3");
      assert |"/3" + [Separator] + DecimalText(2)| != |rows[1].path|;
      assert !PlacedUnderParent(rows, rows[1]);
    }
  }

  lemma BothIntoThreeOutcome()
    ensures var rows := NestedTree();
            var o := MoveSpec(rows, AllowAll, MoveBothIntoThree());
            && o.response == Success(MovedEntries([rows[0], rows[1]], Some(3), Some(rows[2])))
            && o.rows == ApplyPathUpdates(SetParents(rows, [1, 2], Some(3)), [rows[0], rows[1]], Some(rows[2]))
  {
    var rows := NestedTree();
    BothIntoThreeSelected();
    assert Ids([rows[0], rows[1]]) == [1, 2];
    assert DestinationId(MoveBothIntoThree().destination) == Some(3);
  }

  /** A batch holding a folder and its own child: the folder's path update already moves
      the child's row to "/3/1/2", so the child's own update (for "/1/2") matches nothing.
      The child is returned with path "/3/2" and parent 3, while the store keeps
      "/3/1/2" for it, which is no longer its parent's path followed by its id. */
  lemma NestedBatchLeavesStalePath()
    ensures TreeShaped(NestedTree())
    ensures var o := MoveSpec(NestedTree(), AllowAll, MoveBothIntoThree());
            && o.response.Success? && |o.response.value| == 2
            && o.response.value[1] == Entry(2, Folder, Some(3), "/3/2")
            && |o.rows| == 3 && o.rows[1] == Entry(2, Folder, Some(3), "/3/1/2")
            && !TreeShaped(o.rows)
  {
    var rows := NestedTree();
    NestedTreeShaped();
    BothIntoThreeOutcome();
    BothIntoThreeRows();
    var o := MoveSpec(rows, AllowAll, MoveBothIntoThree());
    var moved := MovedEntries([rows[0], rows[1]], Some(3), Some(rows[2]));
    assert moved[1] == MovedEntry(rows[1], Some(3), Some(rows[2]));
    assert o.response.value[1] == Entry(2, Folder, Some(3), "/3/2");
    assert rows[2] == Entry(3, Folder, None, "/3");
    assert |o.rows| == 3 && o.rows[1] == Entry(2, Folder, Some(3), "/3/1/2") && o.rows[2] == rows[2];
    StaleChildBreaksTree(o.rows);
  }

  /** The same two folders with the child's row stored before its folder's. */
  function ChildFirstTree(): seq<Entry>
  {
    [Entry(2, Folder, Some(1), "/1/2"), Entry(1, Folder, None, "/1"), Entry(3, Folder, None, "/3")]
  }

  lemma ChildFirstTreeShaped()
    ensures TreeShaped(ChildFirstTree())
  {
    var rows := ChildFirstTree();
    assert DecimalText(1) == "1" && DecimalText(2) == "2" && DecimalText(3) == "3";
    assert UniqueIds(rows);
    FindUnique(rows, rows[1]);
    assert PlacedUnderParent(rows, rows[0]);
    assert PlacedUnderParent(rows, rows[1]);
    assert PlacedUnderParent(rows, rows[2]);
  }

  /** The request for folders 1 and 2 loads them in store order: the child first. */
  lemma ChildFirstLoaded()
    ensures WhereIdIn(ChildFirstTree(), RequestedIds(MoveBothIntoThree().entries)) == [ChildFirstTree()[0], ChildFirstTree()[1]]
  {
    var rows := ChildFirstTree();
    var items := MoveBothIntoThree().entries;
    TwoRequested(items[0], items[1]);
    assert items == [items[0], items[1]];
    assert rows[1..] == [rows[1], rows[2]] && rows[1..][1..] == [rows[2]] && rows[1..][1..][1..] == [];
  }

  /** Both folders pass the guard for folder 3 at "/3". */
  lemma ChildFirstGuarded()
    ensures KeepMovable([ChildFirstTree()[0], ChildFirstTree()[1]], ChildFirstTree()[2]) == [ChildFirstTree()[0], ChildFirstTree()[1]]
  {
    var rows := ChildFirstTree();
    GuardOneDigit(rows[1], rows[2]);
    assert DigitChar(1) !in "/3";
    OneDigit(2);
    ContainsChar("/3", DigitChar(2));
    assert DigitChar(2) !in "/3";
    assert [rows[0], rows[1]][1..] == [rows[1]];
  }

  lemma ChildFirstSelected()
    ensures Validates(MoveBothIntoThree(), ChildFirstTree())
    ensures GetNewParent(ChildFirstTree(), Some(3)) == Some(ChildFirstTree()[2])
    ensures Selected(ChildFirstTree(), MoveBothIntoThree()) == [ChildFirstTree()[0], ChildFirstTree()[1]]
  {
    var rows := ChildFirstTree();
    var items := MoveBothIntoThree().entries;
    assert UniqueIds(rows);
    FindUnique(rows, rows[2]);
    assert Capped(items) == items;
    ChildFirstLoaded();
    ChildFirstGuarded();
  }

  /** The path rewrites of moving "/1/2" and then "/1" under "/3". */
  lemma ChildFirstPaths()
    ensures RewritePath("/1/2", "/1/2", "/3/2") == "/3/2"
    ensures RewritePath("/1", "/1/2", "/3/2") == "/1"
    ensures RewritePath("/3", "/1/2", "/3/2") == "/3"
    ensures RewritePath("/3/2", "/1", "/3/1") == "/3/2"
    ensures RewritePath("/1", "/1", "/3/1") == "/3/1"
    ensures RewritePath("/3", "/1", "/3/1") == "/3"
  {
    assert |"/1/2" + [Separator]| > |"/1"|;
    assert |"/1/2" + [Separator]| > |"/3"|;
    assert ("/1" + [Separator])[1] != "/3/2"[1];
    assert ("/1" + [Separator])[1] != "/3"[1];
  }

  lemma ChildFirstOutcome()
    ensures var rows := ChildFirstTree();
            var o := MoveSpec(rows, AllowAll, MoveBothIntoThree());
            && o.response == Success(MovedEntries([rows[0], rows[1]], Some(3), Some(rows[2])))
            && o.rows == ApplyPathUpdates(SetParents(rows, [2, 1], Some(3)), [rows[0], rows[1]], Some(rows[2]))
  {
    var rows := ChildFirstTree();
    ChildFirstSelected();
    assert Ids([rows[0], rows[1]]) == [2, 1];
    assert DestinationId(MoveBothIntoThree().destination) == Some(3);
  }

  /** The child's update runs while its folder is still at "/1"; the folder's update then
      no longer matches the child's row. */
  lemma ChildFirstRows()
    ensures var rows := ChildFirstTree();
            ApplyPathUpdates(SetParents(rows, [2, 1], Some(3)), [rows[0], rows[1]], Some(rows[2]))
            == [Entry(2, Folder, Some(3), "/3/2"), Entry(1, Folder, Some(3), "/3/1"), Entry(3, Folder, None, "/3")]
    ensures var rows := ChildFirstTree();
            MovedEntries([rows[0], rows[1]], Some(3), Some(rows[2]))
            == [Entry(2, Folder, Some(3), "/3/2"), Entry(1, Folder, Some(3), "/3/1")]
  {
    var rows := ChildFirstTree();
    var child, folder, np := rows[0], rows[1], Some(rows[2]);
    var selected := [child, folder];
    BothIntoThreeNewPaths();
    BothIntoThreePaths();
    ChildFirstPaths();
    assert child.path == "/1/2" && folder.path == "/1" && DestinationPath(np) == "/3";
    var moved := MovedEntries(selected, Some(3), np);
    assert moved[0] == Entry(2, Folder, Some(3), "/3/2");
    assert moved[1] == Entry(1, Folder, Some(3), "/3/1");
    var reparented := SetParents(rows, [2, 1], Some(3));
    assert reparented == [Entry(2, Folder, Some(3), "/1/2"), Entry(1, Folder, Some(3), "/1"), rows[2]];
    assert selected[..1] == [child] && [child][..0] == [];
    assert ApplyPathUpdates(reparented, [], np) == reparented;
    var first := ApplyPathUpdates(reparented, [child], np);
    assert first == RewriteAll(reparented, "/1/2", "/3/2");
    assert first == [Entry(2, Folder, Some(3), "/3/2"), Entry(1, Folder, Some(3), "/1"), rows[2]];
    var after := ApplyPathUpdates(reparented, selected, np);
    assert after == RewriteAll(first, "/1", "/3/1");
    assert after[0] == Entry(2, Folder, Some(3), "/3/2");
    assert after[1] == Entry(1, Folder, Some(3), "/3/1");
  }

  lemma ChildFirstResultShaped()
    ensures TreeShaped([Entry(2, Folder, Some(3), "/3/2"), Entry(1, Folder, Some(3), "/3/1"), Entry(3, Folder, None, "/3")])
  {
    var rows := [Entry(2, Folder, Some(3), "/3/2"), Entry(1, Folder, Some(3), "/3/1"), Entry(3, Folder, None, "/3")];
    assert DecimalText(1) == "1" && DecimalText(2) == "2" && DecimalText(3) == "3";
    assert UniqueIds(rows);
    FindUnique(rows, rows[2]);
    assert PlacedUnderParent(rows, rows[0]);
    assert PlacedUnderParent(rows, rows[1]);
    assert PlacedUnderParent(rows, rows[2]);
  }

  /** A batch holding a folder and its own child, with the child loaded first: the child
      is returned and stored at "/3/2" under folder 3, so it leaves its folder and ends up
      directly under the destination, and the table stays well formed. */
  lemma ChildFirstBatchDetachesChild()
    ensures TreeShaped(ChildFirstTree())
    ensures !NotNested(Selected(ChildFirstTree(), MoveBothIntoThree()))
    ensures var o := MoveSpec(ChildFirstTree(), AllowAll, MoveBothIntoThree());
            && o.response == Success([Entry(2, Folder, Some(3), "/3/2"), Entry(1, Folder, Some(3), "/3/1")])
            && o.rows == [Entry(2, Folder, Some(3), "/3/2"), Entry(1, Folder, Some(3), "/3/1"), Entry(3, Folder, None, "/3")]
            && TreeShaped(o.rows)
  {
    var rows := ChildFirstTree();
    ChildFirstTreeShaped();
    ChildFirstSelected();
    var selected := Selected(rows, MoveBothIntoThree());
    assert Within(selected[0].path, selected[1].path);
    ChildFirstOutcome();
    ChildFirstRows();
    ChildFirstResultShaped();
  }
}
