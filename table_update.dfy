/** The diff engine of TableUpdate.swift: given the old and the new rows of
    one table section, `generateUpdates` computes the batch of table edits
    (row deletes and inserts, moves, reloads, section inserts and deletes)
    that turns the old rows into the new ones.

    Rows are values of an equality type `T`.  Their `hashValue` is the
    parameter `hash`: nothing is assumed of it beyond being a function, so
    two different values may share a hash. */
module TableUpdates {
  import opened SwiftCollections

  /** `IndexPath(row:section:)` */
  datatype IndexPath = IndexPath(row: int, section: int)

  /** The edits a table view can replay; an `IndexSet` is a `set<int>`. */
  datatype TableUpdate =
    | InsertRows(indexPaths: seq<IndexPath>)
    | DeleteRows(indexPaths: seq<IndexPath>)
    | InsertSections(sections: set<int>)
    | DeleteSections(sections: set<int>)
    | Move(oldIndexPath: IndexPath, newIndexPath: IndexPath)
    | Reload(indexPath: IndexPath)
    | ReloadData
    | NoOp

  /** `TableUpdate.Move`: a value whose content changed while its hash
      persisted, found at `oldIndexPath` before and `newIndexPath` after. */
  datatype RowMove = RowMove(oldIndexPath: IndexPath, newIndexPath: IndexPath) {

    /** `Move.update`: a move that stays in place is a reload. */
    function Update(): (u: TableUpdate)
      ensures u.Reload? || u.Move?
      ensures u.Reload? <==> oldIndexPath == newIndexPath
      ensures u.Reload? ==> u.indexPath == oldIndexPath
      ensures u.Move? ==> u.oldIndexPath == oldIndexPath && u.newIndexPath == newIndexPath
    {
      if oldIndexPath == newIndexPath then Reload(oldIndexPath)
      else Move(oldIndexPath, newIndexPath)
    }
  }

  // ---------------------------------------------------------------------
  // The set algebra of generateUpdates

  /** `oldSet.subtracting(newSet)` */
  function Deletions<T(==)>(oldElements: seq<T>, newElements: seq<T>): set<T> {
    Elements(oldElements) - Elements(newElements)
  }

  /** `newSet.subtracting(oldSet)` */
  function Insertions<T(==)>(oldElements: seq<T>, newElements: seq<T>): set<T> {
    Elements(newElements) - Elements(oldElements)
  }

  /** `Set<Int>(items.map { $0.hashValue })` */
  function HashValues<T>(items: set<T>, hash: T -> int): set<int> {
    set x | x in items :: hash(x)
  }

  /** `deleteHashes.intersection(insertHashes)`: the hashes carried both by a
      value that disappeared and by a value that appeared. */
  function MoveHashes<T(==)>(oldElements: seq<T>, newElements: seq<T>, hash: T -> int): set<int> {
    HashValues(Deletions(oldElements, newElements), hash)
      * HashValues(Insertions(oldElements, newElements), hash)
  }

  /** The order in which the model enumerates `deletions`. */
  function DeletionOrder<T(==)>(oldElements: seq<T>, newElements: seq<T>): seq<T> {
    Select(Distinct(oldElements), Deletions(oldElements, newElements))
  }

  /** The order in which the model enumerates `insertions`. */
  function InsertionOrder<T(==)>(oldElements: seq<T>, newElements: seq<T>): seq<T> {
    Select(Distinct(newElements), Insertions(oldElements, newElements))
  }

  /** The hash of each item, in order. */
  function HashSequence<T>(items: seq<T>, hash: T -> int): seq<int> {
    seq(|items|, i requires 0 <= i < |items| => hash(items[i]))
  }

  /** The order in which the model enumerates `moveHashes`: by the first
      deleted value carrying each hash. */
  function MoveHashOrder<T(==)>(oldElements: seq<T>, newElements: seq<T>, hash: T -> int): seq<int> {
    Select(Distinct(HashSequence(DeletionOrder(oldElements, newElements), hash)),
           MoveHashes(oldElements, newElements, hash))
  }

  // ---------------------------------------------------------------------
  // The flatMaps of generateUpdates

  /** `deletionItemsAndIndexPaths` and `insertionItemsAndIndexPaths`: each
      item with the index path of its first occurrence in `elements`; an item
      that `elements` does not hold is dropped. */
  function ItemsAndIndexPaths<T(==)>(items: seq<T>, elements: seq<T>, section: int): (r: seq<(T, IndexPath)>)
    ensures |r| <= |items|
  {
    if items == [] then []
    else
      var rest := ItemsAndIndexPaths(items[1..], elements, section);
      match IndexOf(elements, items[0])
      case None => rest
      case Some(index) => [(items[0], IndexPath(index, section))] + rest
  }

  /** When `elements` holds every item, no item is dropped: the k-th pair is
      the k-th item with the first row of `elements` holding it. */
  lemma {:induction false} ItemsAllFound<T>(items: seq<T>, elements: seq<T>, section: int)
    requires forall x :: x in items ==> x in elements
    ensures var r := ItemsAndIndexPaths(items, elements, section);
      && |r| == |items|
      && forall k :: 0 <= k < |r| ==>
           && r[k].0 == items[k]
           && r[k].1.section == section
           && FirstOccurrence(elements, r[k].1.row)
           && elements[r[k].1.row] == items[k]
  {
    if items != [] {
      assert items[0] in items;
      ItemsAllFound(items[1..], elements, section);
    }
  }

  /** `flatMap(indexPathMap)`: the index paths of the items whose hash is
      not a move hash. */
  function WithoutMoves<T>(pairs: seq<(T, IndexPath)>, moveHashes: set<int>, hash: T -> int): (r: seq<IndexPath>)
    ensures |r| <= |pairs|
  {
    if pairs == [] then []
    else
      var rest := WithoutMoves(pairs[1..], moveHashes, hash);
      if hash(pairs[0].0) in moveHashes then rest
      else [pairs[0].1] + rest
  }

  /** A path survives exactly when some pair carries it with an item whose
      hash is not a move hash. */
  lemma {:induction false} WithoutMovesMembers<T>(pairs: seq<(T, IndexPath)>, moveHashes: set<int>, hash: T -> int)
    ensures forall p :: p in WithoutMoves(pairs, moveHashes, hash) <==>
      exists k :: 0 <= k < |pairs| && pairs[k].1 == p && hash(pairs[k].0) !in moveHashes
  {
    if pairs != [] {
      var tail := pairs[1..];
      WithoutMovesMembers(tail, moveHashes, hash);
      forall p
        ensures p in WithoutMoves(pairs, moveHashes, hash) <==>
          exists k :: 0 <= k < |pairs| && pairs[k].1 == p && hash(pairs[k].0) !in moveHashes
      {
        if exists k :: 0 <= k < |pairs| && pairs[k].1 == p && hash(pairs[k].0) !in moveHashes {
          var k :| 0 <= k < |pairs| && pairs[k].1 == p && hash(pairs[k].0) !in moveHashes;
          if k > 0 {
            assert tail[k - 1] == pairs[k];
          }
        }
        if p in WithoutMoves(tail, moveHashes, hash) {
          var k :| 0 <= k < |tail| && tail[k].1 == p && hash(tail[k].0) !in moveHashes;
          assert pairs[k + 1] == tail[k];
        }
      }
    }
  }

  /** Pairwise distinct paths survive without repeats. */
  lemma {:induction false} WithoutMovesDistinct<T>(pairs: seq<(T, IndexPath)>, moveHashes: set<int>, hash: T -> int)
    requires forall i, j :: 0 <= i < j < |pairs| ==> pairs[i].1 != pairs[j].1
    ensures NoDuplicates(WithoutMoves(pairs, moveHashes, hash))
  {
    if pairs != [] {
      var tail := pairs[1..];
      var rest := WithoutMoves(tail, moveHashes, hash);
      WithoutMovesDistinct(tail, moveHashes, hash);
      WithoutMovesMembers(tail, moveHashes, hash);
      forall k | 0 <= k < |tail|
        ensures tail[k].1 != pairs[0].1
      {
        assert tail[k] == pairs[k + 1];
      }
      assert pairs[0].1 !in rest;
      var r := [pairs[0].1] + rest;
      assert forall j :: 0 < j < |r| ==> r[j] == rest[j - 1];
    }
  }

  /** When no item carries a move hash, every path survives, in order. */
  lemma {:induction false} WithoutMovesKeepsAll<T>(pairs: seq<(T, IndexPath)>, moveHashes: set<int>, hash: T -> int)
    requires forall k :: 0 <= k < |pairs| ==> hash(pairs[k].0) !in moveHashes
    ensures var r := WithoutMoves(pairs, moveHashes, hash);
      |r| == |pairs| && forall k :: 0 <= k < |r| ==> r[k] == pairs[k].1
  {
    if pairs != [] {
      WithoutMovesKeepsAll(pairs[1..], moveHashes, hash);
    }
  }

  /** Some value of `s` has hash `h`. */
  predicate Carries<T>(s: seq<T>, hash: T -> int, h: int) {
    exists i :: 0 <= i < |s| && hash(s[i]) == h
  }

  /** A move for hash `h`: from the first old row carrying `h` to the first
      new row carrying `h`, both in `section`. */
  predicate IsMoveFor<T>(m: RowMove, h: int, oldElements: seq<T>, newElements: seq<T>,
                         section: int, hash: T -> int)
  {
    && m.oldIndexPath.section == section
    && m.newIndexPath.section == section
    && FirstWithHash(oldElements, hash, m.oldIndexPath.row, h)
    && FirstWithHash(newElements, hash, m.newIndexPath.row, h)
  }

  /** `moveHashes.flatMap { ... }`: one move per hash found in both the old
      and the new rows; a hash missing from either is dropped. */
  function MovesFor<T>(moveHashes: seq<int>, oldElements: seq<T>, newElements: seq<T>,
                       section: int, hash: T -> int): (r: seq<RowMove>)
    ensures |r| <= |moveHashes|
  {
    if moveHashes == [] then []
    else
      var rest := MovesFor(moveHashes[1..], oldElements, newElements, section, hash);
      match (IndexOfHash(oldElements, hash, moveHashes[0]), IndexOfHash(newElements, hash, moveHashes[0]))
      case (Some(oldIndex), Some(newIndex)) =>
        [RowMove(IndexPath(oldIndex, section), IndexPath(newIndex, section))] + rest
      case _ => rest
  }

  /** When every hash is carried by some old value and by some new value, no
      hash is dropped: the k-th move is the move for the k-th hash. */
  lemma {:induction false} MovesForAllFound<T>(moveHashes: seq<int>, oldElements: seq<T>, newElements: seq<T>,
                                               section: int, hash: T -> int)
    requires forall k :: 0 <= k < |moveHashes| ==>
      Carries(oldElements, hash, moveHashes[k]) && Carries(newElements, hash, moveHashes[k])
    ensures var r := MovesFor(moveHashes, oldElements, newElements, section, hash);
      && |r| == |moveHashes|
      && forall k :: 0 <= k < |r| ==> IsMoveFor(r[k], moveHashes[k], oldElements, newElements, section, hash)
  {
    if moveHashes != [] {
      var tail := moveHashes[1..];
      assert forall k :: 0 <= k < |tail| ==> tail[k] == moveHashes[k + 1];
      MovesForAllFound(tail, oldElements, newElements, section, hash);
      var h := moveHashes[0];
      assert Carries(oldElements, hash, h) && Carries(newElements, hash, h);
    }
  }

  /** `moves` */
  function Moves<T(==)>(oldElements: seq<T>, newElements: seq<T>, section: int, hash: T -> int): seq<RowMove> {
    MovesFor(MoveHashOrder(oldElements, newElements, hash), oldElements, newElements, section, hash)
  }

  /** `deletionIndexPaths` */
  function DeletionIndexPaths<T(==)>(oldElements: seq<T>, newElements: seq<T>, section: int, hash: T -> int): seq<IndexPath> {
    WithoutMoves(ItemsAndIndexPaths(DeletionOrder(oldElements, newElements), oldElements, section),
                 MoveHashes(oldElements, newElements, hash), hash)
  }

  /** `insertionIndexPaths` */
  function InsertionIndexPaths<T(==)>(oldElements: seq<T>, newElements: seq<T>, section: int, hash: T -> int): seq<IndexPath> {
    WithoutMoves(ItemsAndIndexPaths(InsertionOrder(oldElements, newElements), newElements, section),
                 MoveHashes(oldElements, newElements, hash), hash)
  }

  /** `sectionInsertsAndDeletes`: a section that becomes non-empty is
      inserted and one that becomes empty is deleted, unless it may stay
      empty. */
  function SectionInsertsAndDeletes<T>(oldItems: seq<T>, newItems: seq<T>, section: int,
                                       allowedEmptySections: set<int>): (r: (set<int>, set<int>))
    ensures r.0 <= {section} && r.1 <= {section}
    ensures section in r.0 <==> |oldItems| == 0 && |newItems| != 0 && section !in allowedEmptySections
    ensures section in r.1 <==> |oldItems| != 0 && |newItems| == 0 && section !in allowedEmptySections
    ensures r.0 == {} || r.1 == {}
  {
    if |oldItems| == 0 && |newItems| != 0 && section !in allowedEmptySections then ({section}, {})
    else if |oldItems| != 0 && |newItems| == 0 && section !in allowedEmptySections then ({}, {section})
    else ({}, {})
  }

  /** `sectionInsertsAndDeletes` as written: start from two empty index
      sets and insert `section` into the one the switch selects. */
  method ComputeSectionInsertsAndDeletes<T>(oldItems: seq<T>, newItems: seq<T>, section: int,
                                            allowedEmptySections: set<int>)
    returns (sectionsToInsert: set<int>, sectionsToDelete: set<int>)
    ensures (sectionsToInsert, sectionsToDelete)
      == SectionInsertsAndDeletes(oldItems, newItems, section, allowedEmptySections)
  {
    sectionsToInsert := {};
    sectionsToDelete := {};
    if |oldItems| == 0 && |newItems| != 0 && section !in allowedEmptySections {
      sectionsToInsert := sectionsToInsert + {section};
      assert sectionsToInsert == {section};
    } else if |oldItems| != 0 && |newItems| == 0 && section !in allowedEmptySections {
      sectionsToDelete := sectionsToDelete + {section};
      assert sectionsToDelete == {section};
    }
  }

  // ---------------------------------------------------------------------
  // The result of generateUpdates

  /** The edit of each move, in order. */
  function MoveUpdates(moves: seq<RowMove>): seq<TableUpdate> {
    seq(|moves|, i requires 0 <= i < |moves| => moves[i].Update())
  }

  /** `[u]` when `present`, else nothing: one conditional `append`. */
  function AppendedIf(present: bool, u: TableUpdate): seq<TableUpdate> {
    if present then [u] else []
  }

  /** The row and section edits that follow the moves: the row deletes, the
      row inserts, the section inserts and the section deletes, each present
      only when it carries something. */
  function RowAndSectionUpdates(deletionIndexPaths: seq<IndexPath>, insertionIndexPaths: seq<IndexPath>,
                                sectionsToInsert: set<int>, sectionsToDelete: set<int>): seq<TableUpdate>
  {
    AppendedIf(deletionIndexPaths != [], DeleteRows(deletionIndexPaths))
    + AppendedIf(insertionIndexPaths != [], InsertRows(insertionIndexPaths))
    + AppendedIf(sectionsToInsert != {}, InsertSections(sectionsToInsert))
    + AppendedIf(sectionsToDelete != {}, DeleteSections(sectionsToDelete))
  }

  /** The batch built from its parts: the edits of the moves, then the row
      and section edits. */
  function Batch(moves: seq<RowMove>, deletionIndexPaths: seq<IndexPath>, insertionIndexPaths: seq<IndexPath>,
                 sectionsToInsert: set<int>, sectionsToDelete: set<int>): seq<TableUpdate>
  {
    MoveUpdates(moves) + RowAndSectionUpdates(deletionIndexPaths, insertionIndexPaths, sectionsToInsert, sectionsToDelete)
  }

  /** What `generateUpdates(newElements:oldElements:in:allowedEmptySections:)`
      returns. */
  function Updates<T(==)>(newElements: seq<T>, oldElements: seq<T>, section: int,
                          allowedEmptySections: set<int>, hash: T -> int): seq<TableUpdate>
  {
    var sections := SectionInsertsAndDeletes(oldElements, newElements, section, allowedEmptySections);
    Batch(Moves(oldElements, newElements, section, hash),
          DeletionIndexPaths(oldElements, newElements, section, hash),
          InsertionIndexPaths(oldElements, newElements, section, hash),
          sections.0, sections.1)
  }

  /** `Batch` regrouped as the four appends that follow the moves. */
  lemma BatchInAppendOrder(moves: seq<RowMove>, deletionIndexPaths: seq<IndexPath>, insertionIndexPaths: seq<IndexPath>,
                           sectionsToInsert: set<int>, sectionsToDelete: set<int>)
    ensures Batch(moves, deletionIndexPaths, insertionIndexPaths, sectionsToInsert, sectionsToDelete)
      == MoveUpdates(moves)
         + AppendedIf(deletionIndexPaths != [], DeleteRows(deletionIndexPaths))
         + AppendedIf(insertionIndexPaths != [], InsertRows(insertionIndexPaths))
         + AppendedIf(sectionsToInsert != {}, InsertSections(sectionsToInsert))
         + AppendedIf(sectionsToDelete != {}, DeleteSections(sectionsToDelete))
  {
  }

  /** The assembly phase of `generateUpdates`: append each move's edit to
      `updates`, then each non-empty row and section edit. */
  method AppendUpdates(moves: seq<RowMove>, deletionIndexPaths: seq<IndexPath>, insertionIndexPaths: seq<IndexPath>,
                       sectionsToInsert: set<int>, sectionsToDelete: set<int>)
    returns (updates: seq<TableUpdate>)
    ensures updates == Batch(moves, deletionIndexPaths, insertionIndexPaths, sectionsToInsert, sectionsToDelete)
  {
    updates := [];
    for i := 0 to |moves|
      invariant |updates| == i
      invariant forall k :: 0 <= k < i ==> updates[k] == moves[k].Update()
    {
      updates := updates + [moves[i].Update()];
    }
    assert updates == MoveUpdates(moves);
    ghost var done := updates;

    if deletionIndexPaths != [] {
      updates := updates + [DeleteRows(deletionIndexPaths)];
    }
    assert updates == done + AppendedIf(deletionIndexPaths != [], DeleteRows(deletionIndexPaths));
    done := updates;
    if insertionIndexPaths != [] {
      updates := updates + [InsertRows(insertionIndexPaths)];
    }
    assert updates == done + AppendedIf(insertionIndexPaths != [], InsertRows(insertionIndexPaths));
    done := updates;
    if sectionsToInsert != {} {
      updates := updates + [InsertSections(sectionsToInsert)];
    }
    assert updates == done + AppendedIf(sectionsToInsert != {}, InsertSections(sectionsToInsert));
    done := updates;
    if sectionsToDelete != {} {
      updates := updates + [DeleteSections(sectionsToDelete)];
    }
    assert updates == done + AppendedIf(sectionsToDelete != {}, DeleteSections(sectionsToDelete));
    BatchInAppendOrder(moves, deletionIndexPaths, insertionIndexPaths, sectionsToInsert, sectionsToDelete);
  }

  /** `generateUpdates`: the set algebra, then the assembly. */
  method GenerateUpdates<T(==)>(newElements: seq<T>, oldElements: seq<T>, section: int,
                                allowedEmptySections: set<int>, hash: T -> int)
    returns (updates: seq<TableUpdate>)
    ensures updates == Updates(newElements, oldElements, section, allowedEmptySections, hash)
  {
    var moves := Moves(oldElements, newElements, section, hash);
    var deletionIndexPaths := DeletionIndexPaths(oldElements, newElements, section, hash);
    var insertionIndexPaths := InsertionIndexPaths(oldElements, newElements, section, hash);
    var sectionsToInsert, sectionsToDelete :=
      ComputeSectionInsertsAndDeletes(oldElements, newElements, section, allowedEmptySections);
    updates := AppendUpdates(moves, deletionIndexPaths, insertionIndexPaths, sectionsToInsert, sectionsToDelete);
  }
}
