/** The scenarios of TableUpdateTests.swift, stated for a list of any
    length rather than for four sample lists.  A "mutated" value is a
    different value that keeps its hash. */
module TableUpdateScenarios {
  import opened SwiftCollections
  import opened TableUpdates
  import opened TableUpdateProperties

  /** With no value inserted, no move hash exists and so no move. */
  lemma NoInsertionsNoMoves<T>(oldElements: seq<T>, newElements: seq<T>, section: int, hash: T -> int)
    requires forall y :: y in newElements ==> y in oldElements
    ensures Moves(oldElements, newElements, section, hash) == []
  {
    assert Insertions(oldElements, newElements) == {};
    assert MoveHashes(oldElements, newElements, hash) == {};
    MovesOnePerHash(oldElements, newElements, section, hash);
  }

  /** With no value deleted, no move hash exists and so no move. */
  lemma NoDeletionsNoMoves<T>(oldElements: seq<T>, newElements: seq<T>, section: int, hash: T -> int)
    requires forall y :: y in oldElements ==> y in newElements
    ensures Moves(oldElements, newElements, section, hash) == []
  {
    assert Deletions(oldElements, newElements) == {};
    assert MoveHashes(oldElements, newElements, hash) == {};
    MovesOnePerHash(oldElements, newElements, section, hash);
  }

  /** With no value deleted, no row is deleted. */
  lemma NoDeletionsNoRows<T>(oldElements: seq<T>, newElements: seq<T>, section: int, hash: T -> int)
    requires forall y :: y in oldElements ==> y in newElements
    ensures DeletionIndexPaths(oldElements, newElements, section, hash) == []
  {
    SelectNone(Distinct(oldElements), Deletions(oldElements, newElements));
    assert ItemsAndIndexPaths([], oldElements, section) == [];
  }

  /** With no value inserted, no row is inserted. */
  lemma NoInsertionsNoRows<T>(oldElements: seq<T>, newElements: seq<T>, section: int, hash: T -> int)
    requires forall y :: y in newElements ==> y in oldElements
    ensures InsertionIndexPaths(oldElements, newElements, section, hash) == []
  {
    SelectNone(Distinct(newElements), Insertions(oldElements, newElements));
    assert ItemsAndIndexPaths([], newElements, section) == [];
  }

  /** testDeletes: dropping the last row of a non-empty list deletes that
      row and nothing else. */
  lemma DropLast<T>(s: seq<T>, x: T, section: int, allowedEmptySections: set<int>, hash: T -> int)
    requires x !in s && |s| > 0
    ensures Updates(s, s + [x], section, allowedEmptySections, hash)
      == [DeleteRows([IndexPath(|s|, section)])]
  {
    var oldElements, newElements := s + [x], s;
    var p := IndexPath(|s|, section);
    var deletions := DeletionIndexPaths(oldElements, newElements, section, hash);
    var insertions := InsertionIndexPaths(oldElements, newElements, section, hash);
    DeleteRowsPayload(oldElements, newElements, section, hash);
    InsertRowsPayload(oldElements, newElements, section, hash);
    assert Insertions(oldElements, newElements) == {};
    assert HashValues(Insertions(oldElements, newElements), hash) == {};
    assert FirstOccurrence(oldElements, |s|);
    assert forall i :: 0 <= i < |s| ==> oldElements[i] == s[i];
    Singleton(deletions, p);
    Empty(insertions);
    NoInsertionsNoMoves(oldElements, newElements, section, hash);
    assert Updates(newElements, oldElements, section, allowedEmptySections, hash)
      == Batch([], [p], [], {}, {});
  }

  /** testInserts: appending a row to a non-empty list inserts that row and
      nothing else. */
  lemma Append<T>(s: seq<T>, x: T, section: int, allowedEmptySections: set<int>, hash: T -> int)
    requires x !in s && |s| > 0
    ensures Updates(s + [x], s, section, allowedEmptySections, hash)
      == [InsertRows([IndexPath(|s|, section)])]
  {
    var oldElements, newElements := s, s + [x];
    var p := IndexPath(|s|, section);
    var deletions := DeletionIndexPaths(oldElements, newElements, section, hash);
    var insertions := InsertionIndexPaths(oldElements, newElements, section, hash);
    DeleteRowsPayload(oldElements, newElements, section, hash);
    InsertRowsPayload(oldElements, newElements, section, hash);
    assert Deletions(oldElements, newElements) == {};
    assert HashValues(Deletions(oldElements, newElements), hash) == {};
    assert FirstOccurrence(newElements, |s|);
    assert forall i :: 0 <= i < |s| ==> newElements[i] == s[i];
    Singleton(insertions, p);
    Empty(deletions);
    NoDeletionsNoMoves(oldElements, newElements, section, hash);
    assert Updates(newElements, oldElements, section, allowedEmptySections, hash)
      == Batch([], [], [p], {}, {});
  }

  /** `Updates` assembled from its parts. */
  lemma UpdatesFromParts<T>(newElements: seq<T>, oldElements: seq<T>, section: int,
                            allowedEmptySections: set<int>, hash: T -> int,
                            moves: seq<RowMove>, deletionIndexPaths: seq<IndexPath>,
                            insertionIndexPaths: seq<IndexPath>)
    requires Moves(oldElements, newElements, section, hash) == moves
    requires DeletionIndexPaths(oldElements, newElements, section, hash) == deletionIndexPaths
    requires InsertionIndexPaths(oldElements, newElements, section, hash) == insertionIndexPaths
    ensures var sections := SectionInsertsAndDeletes(oldElements, newElements, section, allowedEmptySections);
      Updates(newElements, oldElements, section, allowedEmptySections, hash)
        == Batch(moves, deletionIndexPaths, insertionIndexPaths, sections.0, sections.1)
  {
  }

  /** One deleted value `a` and one inserted value `b` sharing a hash that
      no other value of either snapshot carries: no row is deleted or
      inserted, and the only move goes from the first row holding `a` to the
      first row holding `b`. */
  lemma SwapOneValue<T>(oldElements: seq<T>, newElements: seq<T>, a: T, b: T, section: int, hash: T -> int,
                        oldRow: nat, newRow: nat)
    requires Deletions(oldElements, newElements) == {a}
    requires Insertions(oldElements, newElements) == {b}
    requires hash(a) == hash(b)
    requires FirstWithHash(oldElements, hash, oldRow, hash(a))
    requires FirstWithHash(newElements, hash, newRow, hash(a))
    ensures Moves(oldElements, newElements, section, hash)
      == [RowMove(IndexPath(oldRow, section), IndexPath(newRow, section))]
    ensures DeletionIndexPaths(oldElements, newElements, section, hash) == []
    ensures InsertionIndexPaths(oldElements, newElements, section, hash) == []
  {
    var h := hash(a);
    assert HashValues({a}, hash) == {h};
    assert HashValues({b}, hash) == {h};
    assert MoveHashes(oldElements, newElements, hash) == {h};
    SwapOneValueMoves(oldElements, newElements, section, hash, h, oldRow, newRow);
    AllDeletionsMove(oldElements, newElements, section, hash);
    AllInsertionsMove(oldElements, newElements, section, hash);
  }

  /** When every deleted value shares its hash with an inserted one, every
      deletion is a move and no row is deleted. */
  lemma AllDeletionsMove<T>(oldElements: seq<T>, newElements: seq<T>, section: int, hash: T -> int)
    requires forall x :: x in Deletions(oldElements, newElements) ==>
      hash(x) in HashValues(Insertions(oldElements, newElements), hash)
    ensures DeletionIndexPaths(oldElements, newElements, section, hash) == []
  {
    DeleteRowsPayload(oldElements, newElements, section, hash);
    Empty(DeletionIndexPaths(oldElements, newElements, section, hash));
  }

  /** When every inserted value shares its hash with a deleted one, every
      insertion is a move and no row is inserted. */
  lemma AllInsertionsMove<T>(oldElements: seq<T>, newElements: seq<T>, section: int, hash: T -> int)
    requires forall x :: x in Insertions(oldElements, newElements) ==>
      hash(x) in HashValues(Deletions(oldElements, newElements), hash)
    ensures InsertionIndexPaths(oldElements, newElements, section, hash) == []
  {
    InsertRowsPayload(oldElements, newElements, section, hash);
    Empty(InsertionIndexPaths(oldElements, newElements, section, hash));
  }

  /** A single move hash gives a single move, between the first rows that
      carry it. */
  lemma SwapOneValueMoves<T>(oldElements: seq<T>, newElements: seq<T>, section: int, hash: T -> int,
                             h: int, oldRow: nat, newRow: nat)
    requires MoveHashes(oldElements, newElements, hash) == {h}
    requires FirstWithHash(oldElements, hash, oldRow, h)
    requires FirstWithHash(newElements, hash, newRow, h)
    ensures Moves(oldElements, newElements, section, hash)
      == [RowMove(IndexPath(oldRow, section), IndexPath(newRow, section))]
  {
    var moves := Moves(oldElements, newElements, section, hash);
    MovesOnePerHash(oldElements, newElements, section, hash);
    assert |moves| == 1;
    assert IsMoveFor(moves[0], h, oldElements, newElements, section, hash);
  }

  /** Two snapshots over the same values `s` but for `a` in the old one
      and `b` in the new one: `a` is the only deletion, `b` the only
      insertion. */
  lemma ExchangedValue<T>(s: seq<T>, a: T, b: T, oldElements: seq<T>, newElements: seq<T>)
    requires a != b && a !in s && b !in s
    requires Elements(oldElements) == Elements(s) + {a}
    requires Elements(newElements) == Elements(s) + {b}
    ensures Deletions(oldElements, newElements) == {a}
    ensures Insertions(oldElements, newElements) == {b}
  {
  }

  /** testMoves: moving the first row to the end while mutating it, the
      mutated value keeping its hash and no other row sharing that hash,
      is one move from row 0 to the last row. */
  lemma MoveToEnd<T>(s: seq<T>, a: T, b: T, section: int, allowedEmptySections: set<int>, hash: T -> int)
    requires a != b && a !in s && b !in s && hash(a) == hash(b)
    requires forall y :: y in s ==> hash(y) != hash(a)
    requires |s| > 0
    ensures Updates(s + [b], [a] + s, section, allowedEmptySections, hash)
      == [Move(IndexPath(0, section), IndexPath(|s|, section))]
  {
    var oldElements, newElements := [a] + s, s + [b];
    var m := RowMove(IndexPath(0, section), IndexPath(|s|, section));
    assert Elements(oldElements) == Elements(s) + {a};
    assert Elements(newElements) == Elements(s) + {b};
    ExchangedValue(s, a, b, oldElements, newElements);
    assert FirstWithHash(newElements, hash, |s|, hash(a)) by {
      assert forall i :: 0 <= i < |s| ==> newElements[i] == s[i];
    }
    SwapOneValue(oldElements, newElements, a, b, section, hash, 0, |s|);
    UpdatesFromParts(newElements, oldElements, section, allowedEmptySections, hash, [m], [], []);
    assert Batch([m], [], [], {}, {}) == [m.Update()];
  }

  /** testReload: mutating the first row in place, the mutated value
      keeping its hash, is one reload of row 0. */
  lemma MutateFirst<T>(s: seq<T>, a: T, b: T, section: int, allowedEmptySections: set<int>, hash: T -> int)
    requires a != b && a !in s && b !in s && hash(a) == hash(b)
    ensures Updates([b] + s, [a] + s, section, allowedEmptySections, hash)
      == [Reload(IndexPath(0, section))]
  {
    var oldElements, newElements := [a] + s, [b] + s;
    var m := RowMove(IndexPath(0, section), IndexPath(0, section));
    assert Elements(oldElements) == Elements(s) + {a};
    assert Elements(newElements) == Elements(s) + {b};
    ExchangedValue(s, a, b, oldElements, newElements);
    SwapOneValue(oldElements, newElements, a, b, section, hash, 0, 0);
    UpdatesFromParts(newElements, oldElements, section, allowedEmptySections, hash, [m], [], []);
    assert Batch([m], [], [], {}, {}) == [m.Update()];
  }

  /** Rows `0 .. n - 1` of `section`, in order. */
  function Rows(n: nat, section: int): (r: seq<IndexPath>)
    ensures |r| == n
    ensures forall p :: p in r <==> p.section == section && 0 <= p.row < n
    ensures NoDuplicates(r)
  {
    var r := seq(n, i => IndexPath(i, section));
    assert forall p: IndexPath :: p.section == section && 0 <= p.row < n ==> r[p.row] == p;
    r
  }

  /** Every value of `items`, none of them dropped as a move, at its own
      row of `items`. */
  lemma AllRowsListed<T>(items: seq<T>, section: int, moveHashes: set<int>, hash: T -> int)
    requires NoDuplicates(items)
    requires moveHashes == {}
    ensures WithoutMoves(ItemsAndIndexPaths(items, items, section), moveHashes, hash) == Rows(|items|, section)
  {
    var pairs := ItemsAndIndexPaths(items, items, section);
    var paths := WithoutMoves(pairs, moveHashes, hash);
    ItemsAllFound(items, items, section);
    WithoutMovesKeepsAll(pairs, moveHashes, hash);
    forall k | 0 <= k < |items|
      ensures paths[k] == IndexPath(k, section)
    {
      assert FirstOccurrence(items, k);
      FirstOccurrenceUnique(items, k, pairs[k].1.row);
    }
  }

  /** Against an empty old snapshot, the inserted rows of distinct values
      are all the rows of `section`. */
  lemma AllRowsInserted<T>(s: seq<T>, section: int, hash: T -> int)
    requires NoDuplicates(s)
    ensures InsertionIndexPaths([], s, section, hash) == Rows(|s|, section)
  {
    var oldElements: seq<T> := [];
    DistinctOfDistinct(s);
    SelectAll(s, Insertions(oldElements, s));
    assert InsertionOrder(oldElements, s) == s;
    assert Deletions(oldElements, s) == {};
    assert MoveHashes(oldElements, s, hash) == {};
    AllRowsListed(s, section, MoveHashes(oldElements, s, hash), hash);
  }

  /** Against an empty new snapshot, the deleted rows of distinct values
      are all the rows of `section`. */
  lemma AllRowsDeleted<T>(s: seq<T>, section: int, hash: T -> int)
    requires NoDuplicates(s)
    ensures DeletionIndexPaths(s, [], section, hash) == Rows(|s|, section)
  {
    var newElements: seq<T> := [];
    DistinctOfDistinct(s);
    SelectAll(s, Deletions(s, newElements));
    assert DeletionOrder(s, newElements) == s;
    assert Insertions(s, newElements) == {};
    assert MoveHashes(s, newElements, hash) == {};
    AllRowsListed(s, section, MoveHashes(s, newElements, hash), hash);
  }

  /** A batch with no moves and rows of one kind only. */
  lemma RowsOnlyBatch(deletionIndexPaths: seq<IndexPath>, insertionIndexPaths: seq<IndexPath>,
                      sectionsToInsert: set<int>, sectionsToDelete: set<int>)
    requires deletionIndexPaths == [] || insertionIndexPaths == []
    ensures Batch([], deletionIndexPaths, insertionIndexPaths, sectionsToInsert, sectionsToDelete)
      == AppendedIf(deletionIndexPaths != [], DeleteRows(deletionIndexPaths))
         + AppendedIf(insertionIndexPaths != [], InsertRows(insertionIndexPaths))
         + AppendedIf(sectionsToInsert != {}, InsertSections(sectionsToInsert))
         + AppendedIf(sectionsToDelete != {}, DeleteSections(sectionsToDelete))
  {
    assert MoveUpdates([]) == [];
  }

  /** Growing from an empty snapshot deletes no row and moves none, and
      inserts some row unless the new snapshot is empty too. */
  lemma FromEmpty<T>(newElements: seq<T>, section: int, hash: T -> int)
    ensures DeletionIndexPaths([], newElements, section, hash) == []
    ensures Moves([], newElements, section, hash) == []
    ensures |newElements| > 0 ==> InsertionIndexPaths([], newElements, section, hash) != []
  {
    var oldElements: seq<T> := [];
    InsertRowsPayload(oldElements, newElements, section, hash);
    assert HashValues(Deletions(oldElements, newElements), hash) == {};
    assert |newElements| > 0 ==> IndexPath(0, section) in InsertionIndexPaths(oldElements, newElements, section, hash);
    NoDeletionsNoRows([], newElements, section, hash);
    NoDeletionsNoMoves([], newElements, section, hash);
  }

  /** Shrinking to an empty snapshot inserts no row and moves none, and
      deletes some row unless the old snapshot was empty too. */
  lemma ToEmpty<T>(oldElements: seq<T>, section: int, hash: T -> int)
    ensures InsertionIndexPaths(oldElements, [], section, hash) == []
    ensures Moves(oldElements, [], section, hash) == []
    ensures |oldElements| > 0 ==> DeletionIndexPaths(oldElements, [], section, hash) != []
  {
    var newElements: seq<T> := [];
    DeleteRowsPayload(oldElements, newElements, section, hash);
    assert HashValues(Insertions(oldElements, newElements), hash) == {};
    assert |oldElements| > 0 ==> IndexPath(0, section) in DeletionIndexPaths(oldElements, newElements, section, hash);
    NoInsertionsNoRows(oldElements, [], section, hash);
    NoInsertionsNoMoves(oldElements, [], section, hash);
  }

  /** Filling an empty section: one edit inserting the rows, then the
      section itself unless it may stay empty. */
  lemma FillSectionUpdates<T>(s: seq<T>, section: int, allowedEmptySections: set<int>, hash: T -> int)
    requires |s| > 0
    ensures Updates(s, [], section, allowedEmptySections, hash)
      == [InsertRows(InsertionIndexPaths([], s, section, hash))]
         + AppendedIf(section !in allowedEmptySections, InsertSections({section}))
  {
    var oldElements: seq<T> := [];
    var paths := InsertionIndexPaths(oldElements, s, section, hash);
    FromEmpty(s, section, hash);
    UpdatesFromParts(s, oldElements, section, allowedEmptySections, hash, [], [], paths);
    var sectionsToInsert := if section in allowedEmptySections then {} else {section};
    assert SectionInsertsAndDeletes(oldElements, s, section, allowedEmptySections) == (sectionsToInsert, {});
    RowsOnlyBatch([], paths, sectionsToInsert, {});
  }

  /** Emptying a section: one edit deleting the rows, then the section
      itself unless it may stay empty. */
  lemma EmptySectionUpdates<T>(s: seq<T>, section: int, allowedEmptySections: set<int>, hash: T -> int)
    requires |s| > 0
    ensures Updates([], s, section, allowedEmptySections, hash)
      == [DeleteRows(DeletionIndexPaths(s, [], section, hash))]
         + AppendedIf(section !in allowedEmptySections, DeleteSections({section}))
  {
    var newElements: seq<T> := [];
    var paths := DeletionIndexPaths(s, newElements, section, hash);
    ToEmpty(s, section, hash);
    UpdatesFromParts(newElements, s, section, allowedEmptySections, hash, [], paths, []);
    var sectionsToDelete := if section in allowedEmptySections then {} else {section};
    assert SectionInsertsAndDeletes(s, newElements, section, allowedEmptySections) == ({}, sectionsToDelete);
    RowsOnlyBatch(paths, [], {}, sectionsToDelete);
  }

  /** testInsertSection: filling an empty section with distinct values
      inserts every row of the section, once each, and then the section
      itself unless it may stay empty. */
  lemma FillSection<T>(s: seq<T>, section: int, allowedEmptySections: set<int>, hash: T -> int)
    requires NoDuplicates(s) && |s| > 0
    ensures Updates(s, [], section, allowedEmptySections, hash)
      == [InsertRows(Rows(|s|, section))] + AppendedIf(section !in allowedEmptySections, InsertSections({section}))
  {
    FillSectionUpdates(s, section, allowedEmptySections, hash);
    AllRowsInserted(s, section, hash);
  }

  /** testDeleteSection: emptying a section of distinct values deletes
      every row of the section, once each, and then the section itself
      unless it may stay empty. */
  lemma EmptySection<T>(s: seq<T>, section: int, allowedEmptySections: set<int>, hash: T -> int)
    requires NoDuplicates(s) && |s| > 0
    ensures Updates([], s, section, allowedEmptySections, hash)
      == [DeleteRows(Rows(|s|, section))] + AppendedIf(section !in allowedEmptySections, DeleteSections({section}))
  {
    EmptySectionUpdates(s, section, allowedEmptySections, hash);
    AllRowsDeleted(s, section, hash);
  }

  // ---------------------------------------------------------------------
  // Shared hashes: a move stands for every value carrying its hash

  /** The hash under which all values collide. */
  function SameHash(x: int): int {
    0
  }

  /** The value sets of the first collision example. */
  lemma ReplacedPairSets()
    ensures Deletions([1, 2], [3]) == {1, 2}
    ensures Insertions([1, 2], [3]) == {3}
  {
    assert Elements([1, 2]) == {1, 2};
    assert Elements([3]) == {3};
  }

  /** The move hashes of the first collision example. */
  lemma ReplacedPairMoveHashes()
    ensures MoveHashes([1, 2], [3], SameHash) == {0}
    ensures HashValues(Deletions([1, 2], [3]), SameHash) == {0}
    ensures HashValues(Insertions([1, 2], [3]), SameHash) == {0}
  {
    ReplacedPairSets();
    assert HashValues({1, 2}, SameHash) == {0};
    assert HashValues({3}, SameHash) == {0};
  }

  /** The parts of the first collision example: one move between the two
      rows 0, and no row deletes or inserts. */
  lemma ReplacedPairParts()
    ensures Moves([1, 2], [3], 0, SameHash) == [RowMove(IndexPath(0, 0), IndexPath(0, 0))]
    ensures DeletionIndexPaths([1, 2], [3], 0, SameHash) == []
    ensures InsertionIndexPaths([1, 2], [3], 0, SameHash) == []
  {
    ReplacedPairMoveHashes();
    SwapOneValueMoves([1, 2], [3], 0, SameHash, 0, 0, 0);
    AllDeletionsMove([1, 2], [3], 0, SameHash);
    AllInsertionsMove([1, 2], [3], 0, SameHash);
  }

  /** Rows 0 and 1 give way to one new row, all three values sharing a
      hash: the only edit is a reload of row 0, and row 1 disappears
      without a `deleteRows`. */
  lemma CollisionHidesDeletion()
    ensures Updates([3], [1, 2], 0, {}, SameHash) == [Reload(IndexPath(0, 0))]
  {
    var m := RowMove(IndexPath(0, 0), IndexPath(0, 0));
    ReplacedPairParts();
    UpdatesFromParts([3], [1, 2], 0, {}, SameHash, [m], [], []);
    assert Batch([m], [], [], {}, {}) == [m.Update()];
  }

  /** The value sets of the second collision example. */
  lemma ChangedSecondSets()
    ensures Deletions([5, 1], [5, 3]) == {1}
    ensures Insertions([5, 1], [5, 3]) == {3}
  {
    assert Elements([5, 1]) == {5, 1};
    assert Elements([5, 3]) == {5, 3};
  }

  /** Row 1 changes while row 0 stays, all values sharing a hash: the only
      edit is a reload of the unchanged row 0, and the changed row 1 gets
      none. */
  lemma CollisionReloadsUnchangedRow()
    ensures Updates([5, 3], [5, 1], 0, {}, SameHash) == [Reload(IndexPath(0, 0))]
  {
    var m := RowMove(IndexPath(0, 0), IndexPath(0, 0));
    ChangedSecondSets();
    SwapOneValue([5, 1], [5, 3], 1, 3, 0, SameHash, 0, 0);
    UpdatesFromParts([5, 3], [5, 1], 0, {}, SameHash, [m], [], []);
    assert Batch([m], [], [], {}, {}) == [m.Update()];
  }
}
