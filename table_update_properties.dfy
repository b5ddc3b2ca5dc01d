/** What `generateUpdates` promises about the batch it returns, for every
    pair of snapshots and every hash function. */
module TableUpdateProperties {
  import opened SwiftCollections
  import opened TableUpdates

  /** Two positions that both hold the first occurrence of one value are the
      same position. */
  lemma FirstOccurrenceUnique<T>(s: seq<T>, i: int, j: int)
    requires FirstOccurrence(s, i) && FirstOccurrence(s, j) && s[i] == s[j]
    ensures i == j
  {
  }

  /** The paths paired with the deleted (or inserted) values are pairwise
      distinct, because each is the first occurrence of its own value. */
  lemma PairedPathsDistinct<T>(items: seq<T>, elements: seq<T>, section: int)
    requires NoDuplicates(items)
    requires forall x :: x in items ==> x in elements
    ensures var pairs := ItemsAndIndexPaths(items, elements, section);
      forall i, j :: 0 <= i < j < |pairs| ==> pairs[i].1 != pairs[j].1
  {
    var pairs := ItemsAndIndexPaths(items, elements, section);
    ItemsAllFound(items, elements, section);
    forall i, j | 0 <= i < j < |pairs|
      ensures pairs[i].1 != pairs[j].1
    {
      assert items[i] == elements[pairs[i].1.row];
      assert items[j] == elements[pairs[j].1.row];
    }
  }

  /** Every value of a set of values is reached by the enumeration of that
      set. */
  lemma InDeletionOrder<T>(oldElements: seq<T>, newElements: seq<T>, x: T)
    requires x in Deletions(oldElements, newElements)
    ensures x in DeletionOrder(oldElements, newElements)
  {
    assert x in oldElements;
    assert x in Distinct(oldElements);
  }

  lemma InInsertionOrder<T>(oldElements: seq<T>, newElements: seq<T>, x: T)
    requires x in Insertions(oldElements, newElements)
    ensures x in InsertionOrder(oldElements, newElements)
  {
    assert x in newElements;
    assert x in Distinct(newElements);
  }

  /** The index paths that survive `indexPathMap`: pairwise distinct, and
      exactly the first occurrences of the listed items whose hash is not a
      move hash. */
  lemma SurvivingPaths<T>(items: seq<T>, elements: seq<T>, section: int, moveHashes: set<int>, hash: T -> int)
    requires NoDuplicates(items)
    requires forall x :: x in items ==> x in elements
    ensures var paths := WithoutMoves(ItemsAndIndexPaths(items, elements, section), moveHashes, hash);
      && NoDuplicates(paths)
      && forall p :: p in paths <==>
           && p.section == section
           && FirstOccurrence(elements, p.row)
           && elements[p.row] in items
           && hash(elements[p.row]) !in moveHashes
  {
    var pairs := ItemsAndIndexPaths(items, elements, section);
    var paths := WithoutMoves(pairs, moveHashes, hash);
    ItemsAllFound(items, elements, section);
    PairedPathsDistinct(items, elements, section);
    WithoutMovesDistinct(pairs, moveHashes, hash);
    WithoutMovesMembers(pairs, moveHashes, hash);
    forall p
      ensures p in paths <==>
           && p.section == section
           && FirstOccurrence(elements, p.row)
           && elements[p.row] in items
           && hash(elements[p.row]) !in moveHashes
    {
      if && p.section == section
         && FirstOccurrence(elements, p.row)
         && elements[p.row] in items
         && hash(elements[p.row]) !in moveHashes
      {
        var k :| 0 <= k < |items| && items[k] == elements[p.row];
        FirstOccurrenceUnique(elements, pairs[k].1.row, p.row);
        assert pairs[k].1 == p;
      }
    }
  }

  /** The `deleteRows` payload: pairwise distinct positions in `section`,
      and a position is in it exactly when its row is the first occurrence in
      `oldElements` of a value absent from `newElements` whose hash no
      inserted value carries.  So no value present in both snapshots, and no
      value that moved, contributes a position. */
  lemma DeleteRowsPayload<T>(oldElements: seq<T>, newElements: seq<T>, section: int, hash: T -> int)
    ensures var paths := DeletionIndexPaths(oldElements, newElements, section, hash);
      && NoDuplicates(paths)
      && forall p :: p in paths <==>
           && p.section == section
           && FirstOccurrence(oldElements, p.row)
           && oldElements[p.row] !in newElements
           && hash(oldElements[p.row]) !in HashValues(Insertions(oldElements, newElements), hash)
  {
    var items := DeletionOrder(oldElements, newElements);
    var moveHashes := MoveHashes(oldElements, newElements, hash);
    SelectDistinct(Distinct(oldElements), Deletions(oldElements, newElements));
    SurvivingPaths(items, oldElements, section, moveHashes, hash);
    forall i | 0 <= i < |oldElements| && oldElements[i] !in newElements
      ensures oldElements[i] in items
      ensures hash(oldElements[i]) in HashValues(Deletions(oldElements, newElements), hash)
    {
      InDeletionOrder(oldElements, newElements, oldElements[i]);
    }
  }

  /** The `insertRows` payload, the mirror image of `DeleteRowsPayload`:
      pairwise distinct positions in `section`, and a position is in it
      exactly when its row is the first occurrence in `newElements` of a
      value absent from `oldElements` whose hash no deleted value carries. */
  lemma InsertRowsPayload<T>(oldElements: seq<T>, newElements: seq<T>, section: int, hash: T -> int)
    ensures var paths := InsertionIndexPaths(oldElements, newElements, section, hash);
      && NoDuplicates(paths)
      && forall p :: p in paths <==>
           && p.section == section
           && FirstOccurrence(newElements, p.row)
           && newElements[p.row] !in oldElements
           && hash(newElements[p.row]) !in HashValues(Deletions(oldElements, newElements), hash)
  {
    var items := InsertionOrder(oldElements, newElements);
    var moveHashes := MoveHashes(oldElements, newElements, hash);
    SelectDistinct(Distinct(newElements), Insertions(oldElements, newElements));
    SurvivingPaths(items, newElements, section, moveHashes, hash);
    forall i | 0 <= i < |newElements| && newElements[i] !in oldElements
      ensures newElements[i] in items
      ensures hash(newElements[i]) in HashValues(Insertions(oldElements, newElements), hash)
    {
      InInsertionOrder(oldElements, newElements, newElements[i]);
    }
  }

  /** The enumeration of `moveHashes` lists each move hash exactly once. */
  lemma MoveHashOrderEnumerates<T>(oldElements: seq<T>, newElements: seq<T>, hash: T -> int)
    ensures var order := MoveHashOrder(oldElements, newElements, hash);
      && NoDuplicates(order)
      && Elements(order) == MoveHashes(oldElements, newElements, hash)
  {
    var order := MoveHashOrder(oldElements, newElements, hash);
    var moveHashes := MoveHashes(oldElements, newElements, hash);
    var items := DeletionOrder(oldElements, newElements);
    var hashes := HashSequence(items, hash);
    SelectDistinct(Distinct(hashes), moveHashes);
    forall h | h in moveHashes
      ensures h in order
    {
      var x :| x in Deletions(oldElements, newElements) && hash(x) == h;
      InDeletionOrder(oldElements, newElements, x);
      var k :| 0 <= k < |items| && items[k] == x;
      assert hashes[k] == h;
      assert h in Distinct(hashes);
    }
  }

  /** A move hash is carried by some old value and by some new value. */
  lemma MoveHashFound<T>(oldElements: seq<T>, newElements: seq<T>, hash: T -> int, h: int)
    requires h in MoveHashes(oldElements, newElements, hash)
    ensures Carries(oldElements, hash, h) && Carries(newElements, hash, h)
  {
    var x :| x in Deletions(oldElements, newElements) && hash(x) == h;
    var y :| y in Insertions(oldElements, newElements) && hash(y) == h;
    var i :| 0 <= i < |oldElements| && oldElements[i] == x;
    var j :| 0 <= j < |newElements| && newElements[j] == y;
  }

  /** Moves that follow an enumeration of a set of hashes, the k-th move
      being a move for the k-th hash: one move per hash of the set. */
  lemma MovesForEnumeration<T>(moves: seq<RowMove>, order: seq<int>, hashes: set<int>,
                               oldElements: seq<T>, newElements: seq<T>, section: int, hash: T -> int)
    requires NoDuplicates(order) && Elements(order) == hashes
    requires |moves| == |order|
    requires forall k :: 0 <= k < |moves| ==> IsMoveFor(moves[k], order[k], oldElements, newElements, section, hash)
    ensures |moves| == |hashes|
    ensures forall k :: 0 <= k < |moves| ==>
      exists h :: h in hashes && IsMoveFor(moves[k], h, oldElements, newElements, section, hash)
    ensures forall h :: h in hashes ==>
      exists k :: 0 <= k < |moves| && IsMoveFor(moves[k], h, oldElements, newElements, section, hash)
    ensures forall k1, k2, h ::
      && 0 <= k1 < |moves| && 0 <= k2 < |moves|
      && IsMoveFor(moves[k1], h, oldElements, newElements, section, hash)
      && IsMoveFor(moves[k2], h, oldElements, newElements, section, hash)
      ==> k1 == k2
  {
    DistinctCount(order);
    forall k | 0 <= k < |moves|
      ensures exists h :: h in hashes && IsMoveFor(moves[k], h, oldElements, newElements, section, hash)
    {
      assert order[k] in Elements(order);
    }
    forall h | h in hashes
      ensures exists k :: 0 <= k < |moves| && IsMoveFor(moves[k], h, oldElements, newElements, section, hash)
    {
      assert h in Elements(order);
      var k :| 0 <= k < |order| && order[k] == h;
      assert IsMoveFor(moves[k], h, oldElements, newElements, section, hash);
    }
    forall k1, k2, h |
      && 0 <= k1 < |moves| && 0 <= k2 < |moves|
      && IsMoveFor(moves[k1], h, oldElements, newElements, section, hash)
      && IsMoveFor(moves[k2], h, oldElements, newElements, section, hash)
      ensures k1 == k2
    {
      assert IsMoveFor(moves[k1], order[k1], oldElements, newElements, section, hash);
      assert IsMoveFor(moves[k2], order[k2], oldElements, newElements, section, hash);
      assert order[k1] == h == order[k2];
    }
  }

  /** The moves: exactly one per hash in `deleteHashes ∩ insertHashes`,
      going from the first old row carrying that hash to the first new row
      carrying it, both in `section`. */
  lemma MovesOnePerHash<T>(oldElements: seq<T>, newElements: seq<T>, section: int, hash: T -> int)
    ensures var moves := Moves(oldElements, newElements, section, hash);
            var moveHashes := MoveHashes(oldElements, newElements, hash);
      && |moves| == |moveHashes|
      && (forall k :: 0 <= k < |moves| ==>
            exists h :: h in moveHashes && IsMoveFor(moves[k], h, oldElements, newElements, section, hash))
      && (forall h :: h in moveHashes ==>
            exists k :: 0 <= k < |moves| && IsMoveFor(moves[k], h, oldElements, newElements, section, hash))
      && (forall k1, k2, h ::
            && 0 <= k1 < |moves| && 0 <= k2 < |moves|
            && IsMoveFor(moves[k1], h, oldElements, newElements, section, hash)
            && IsMoveFor(moves[k2], h, oldElements, newElements, section, hash)
            ==> k1 == k2)
  {
    var moveHashes := MoveHashes(oldElements, newElements, hash);
    MoveHashOrderEnumerates(oldElements, newElements, hash);
    var order := MoveHashOrder(oldElements, newElements, hash);
    forall k | 0 <= k < |order|
      ensures Carries(oldElements, hash, order[k]) && Carries(newElements, hash, order[k])
    {
      assert order[k] in Elements(order);
      MoveHashFound(oldElements, newElements, hash, order[k]);
    }
    MovesForAllFound(order, oldElements, newElements, section, hash);
    MovesForEnumeration(Moves(oldElements, newElements, section, hash), order, moveHashes,
                        oldElements, newElements, section, hash);
  }

  /** Where each kind of edit stands in a batch. */
  function Rank(u: TableUpdate): nat {
    match u
    case Move(_, _) => 0
    case Reload(_) => 0
    case DeleteRows(_) => 1
    case InsertRows(_) => 2
    case InsertSections(_) => 3
    case DeleteSections(_) => 4
    case ReloadData => 5
    case NoOp => 5
  }

  /** Edits whose kinds come in strictly increasing order, all after the
      moves and reloads: each rank lies between 1 and 4 and is above the
      rank of the edit before it. */
  predicate Ordered(t: seq<TableUpdate>) {
    && (forall k :: 0 <= k < |t| ==> 1 <= Rank(t[k]) <= 4)
    && (forall k :: 0 < k < |t| ==> Rank(t[k - 1]) < Rank(t[k]))
  }

  /** The rank of the last edit of `t`, or 0 when there is none. */
  function LastRank(t: seq<TableUpdate>): nat {
    if t == [] then 0 else Rank(t[|t| - 1])
  }

  /** Appending, or not, an edit of a later kind keeps the order. */
  lemma AppendOrdered(t: seq<TableUpdate>, present: bool, u: TableUpdate)
    requires Ordered(t) && 1 <= Rank(u) <= 4 && LastRank(t) < Rank(u)
    ensures Ordered(t + AppendedIf(present, u))
    ensures LastRank(t + AppendedIf(present, u)) <= Rank(u)
  {
    var t' := t + AppendedIf(present, u);
    assert forall k :: 0 <= k < |t| ==> t'[k] == t[k];
  }

  /** The row deletes alone are ordered. */
  lemma DeletesOrdered(deletionIndexPaths: seq<IndexPath>)
    ensures var t := AppendedIf(deletionIndexPaths != [], DeleteRows(deletionIndexPaths));
      Ordered(t) && LastRank(t) <= 1
  {
    AppendOrdered([], deletionIndexPaths != [], DeleteRows(deletionIndexPaths));
    assert [] + AppendedIf(deletionIndexPaths != [], DeleteRows(deletionIndexPaths))
        == AppendedIf(deletionIndexPaths != [], DeleteRows(deletionIndexPaths));
  }

  /** The row deletes, then the row inserts, are ordered. */
  lemma RowUpdatesOrdered(deletionIndexPaths: seq<IndexPath>, insertionIndexPaths: seq<IndexPath>)
    ensures var t := AppendedIf(deletionIndexPaths != [], DeleteRows(deletionIndexPaths))
                   + AppendedIf(insertionIndexPaths != [], InsertRows(insertionIndexPaths));
      Ordered(t) && LastRank(t) <= 2
  {
    DeletesOrdered(deletionIndexPaths);
    AppendOrdered(AppendedIf(deletionIndexPaths != [], DeleteRows(deletionIndexPaths)),
                  insertionIndexPaths != [], InsertRows(insertionIndexPaths));
  }

  /** The row edits, then the section inserts, are ordered. */
  lemma UpToSectionInsertsOrdered(deletionIndexPaths: seq<IndexPath>, insertionIndexPaths: seq<IndexPath>,
                                  sectionsToInsert: set<int>)
    ensures var t := AppendedIf(deletionIndexPaths != [], DeleteRows(deletionIndexPaths))
                   + AppendedIf(insertionIndexPaths != [], InsertRows(insertionIndexPaths))
                   + AppendedIf(sectionsToInsert != {}, InsertSections(sectionsToInsert));
      Ordered(t) && LastRank(t) <= 3
  {
    RowUpdatesOrdered(deletionIndexPaths, insertionIndexPaths);
    AppendOrdered(AppendedIf(deletionIndexPaths != [], DeleteRows(deletionIndexPaths))
                  + AppendedIf(insertionIndexPaths != [], InsertRows(insertionIndexPaths)),
                  sectionsToInsert != {}, InsertSections(sectionsToInsert));
  }

  /** The row and section edits come in strictly increasing kind order, so
      at most one of each. */
  lemma RowAndSectionUpdatesOrdered(deletionIndexPaths: seq<IndexPath>, insertionIndexPaths: seq<IndexPath>,
                                    sectionsToInsert: set<int>, sectionsToDelete: set<int>)
    ensures Ordered(RowAndSectionUpdates(deletionIndexPaths, insertionIndexPaths, sectionsToInsert, sectionsToDelete))
  {
    UpToSectionInsertsOrdered(deletionIndexPaths, insertionIndexPaths, sectionsToInsert);
    AppendOrdered(AppendedIf(deletionIndexPaths != [], DeleteRows(deletionIndexPaths))
                  + AppendedIf(insertionIndexPaths != [], InsertRows(insertionIndexPaths))
                  + AppendedIf(sectionsToInsert != {}, InsertSections(sectionsToInsert)),
                  sectionsToDelete != {}, DeleteSections(sectionsToDelete));
  }

  /** The order of any batch: the edit of each move in order, then at most
      one edit of each other kind, ordered delete rows, insert rows, insert
      sections, delete sections; so `reloadData` and `none` never occur. */
  lemma BatchOrder(moves: seq<RowMove>, deletionIndexPaths: seq<IndexPath>, insertionIndexPaths: seq<IndexPath>,
                   sectionsToInsert: set<int>, sectionsToDelete: set<int>)
    ensures var us := Batch(moves, deletionIndexPaths, insertionIndexPaths, sectionsToInsert, sectionsToDelete);
      && |moves| <= |us|
      && (forall k :: 0 <= k < |moves| ==> us[k] == moves[k].Update())
      && Ordered(us[|moves|..])
      && (forall u :: u in us ==> !u.ReloadData? && !u.NoOp?)
  {
    var head := MoveUpdates(moves);
    var tail := RowAndSectionUpdates(deletionIndexPaths, insertionIndexPaths, sectionsToInsert, sectionsToDelete);
    RowAndSectionUpdatesOrdered(deletionIndexPaths, insertionIndexPaths, sectionsToInsert, sectionsToDelete);
    MoveUpdatesKinds(moves);
    MovesThenOrdered(moves, head, tail);
  }

  /** The edits of the moves followed by an ordered run: the moves come
      first, in order, and neither `reloadData` nor `none` occurs. */
  lemma MovesThenOrdered(moves: seq<RowMove>, head: seq<TableUpdate>, tail: seq<TableUpdate>)
    requires |head| == |moves| && forall k :: 0 <= k < |moves| ==> head[k] == moves[k].Update()
    requires forall u :: u in head ==> u.Move? || u.Reload?
    requires Ordered(tail)
    ensures var us := head + tail;
      && |moves| <= |us|
      && (forall k :: 0 <= k < |moves| ==> us[k] == moves[k].Update())
      && Ordered(us[|moves|..])
      && (forall u :: u in us ==> !u.ReloadData? && !u.NoOp?)
  {
    assert (head + tail)[|moves|..] == tail;
    forall u | u in tail
      ensures 1 <= Rank(u) <= 4
    {
      var k :| 0 <= k < |tail| && tail[k] == u;
    }
  }

  /** The edits of the moves are moves and reloads. */
  lemma MoveUpdatesKinds(moves: seq<RowMove>)
    ensures forall u :: u in MoveUpdates(moves) ==> u.Move? || u.Reload?
  {
  }

  /** The payloads of any batch: its row and section edits carry exactly the
      parts it was built from, and each is present exactly when its part is
      not empty. */
  lemma BatchPayloads(moves: seq<RowMove>, deletionIndexPaths: seq<IndexPath>, insertionIndexPaths: seq<IndexPath>,
                      sectionsToInsert: set<int>, sectionsToDelete: set<int>)
    ensures var us := Batch(moves, deletionIndexPaths, insertionIndexPaths, sectionsToInsert, sectionsToDelete);
      && (forall u :: u in us && u.DeleteRows? ==> u.indexPaths == deletionIndexPaths != [])
      && (forall u :: u in us && u.InsertRows? ==> u.indexPaths == insertionIndexPaths != [])
      && (forall u :: u in us && u.InsertSections? ==> u.sections == sectionsToInsert != {})
      && (forall u :: u in us && u.DeleteSections? ==> u.sections == sectionsToDelete != {})
      && (deletionIndexPaths != [] ==> DeleteRows(deletionIndexPaths) in us)
      && (insertionIndexPaths != [] ==> InsertRows(insertionIndexPaths) in us)
      && (sectionsToInsert != {} ==> InsertSections(sectionsToInsert) in us)
      && (sectionsToDelete != {} ==> DeleteSections(sectionsToDelete) in us)
  {
    MoveUpdatesKinds(moves);
    RowAndSectionMembers(deletionIndexPaths, insertionIndexPaths, sectionsToInsert, sectionsToDelete);
  }

  /** The row and section edits are exactly the edits of the non-empty
      parts. */
  lemma RowAndSectionMembers(deletionIndexPaths: seq<IndexPath>, insertionIndexPaths: seq<IndexPath>,
                             sectionsToInsert: set<int>, sectionsToDelete: set<int>)
    ensures forall u ::
      (u in RowAndSectionUpdates(deletionIndexPaths, insertionIndexPaths, sectionsToInsert, sectionsToDelete)
       <==> (|| (u == DeleteRows(deletionIndexPaths) && deletionIndexPaths != [])
             || (u == InsertRows(insertionIndexPaths) && insertionIndexPaths != [])
             || (u == InsertSections(sectionsToInsert) && sectionsToInsert != {})
             || (u == DeleteSections(sectionsToDelete) && sectionsToDelete != {})))
  {
  }

  /** The batch `generateUpdates` returns has the shape of `BatchShape`
      built from its moves, its row paths and its sections. */
  lemma UpdatesShape<T>(newElements: seq<T>, oldElements: seq<T>, section: int,
                        allowedEmptySections: set<int>, hash: T -> int)
    ensures var us := Updates(newElements, oldElements, section, allowedEmptySections, hash);
            var moves := Moves(oldElements, newElements, section, hash);
            var deletionIndexPaths := DeletionIndexPaths(oldElements, newElements, section, hash);
            var insertionIndexPaths := InsertionIndexPaths(oldElements, newElements, section, hash);
      && |moves| <= |us|
      && (forall k :: 0 <= k < |moves| ==> us[k] == moves[k].Update())
      && Ordered(us[|moves|..])
      && (forall u :: u in us ==> !u.ReloadData? && !u.NoOp?)
      && (forall u :: u in us && u.DeleteRows? ==> u.indexPaths == deletionIndexPaths != [])
      && (forall u :: u in us && u.InsertRows? ==> u.indexPaths == insertionIndexPaths != [])
      && (deletionIndexPaths != [] ==> DeleteRows(deletionIndexPaths) in us)
      && (insertionIndexPaths != [] ==> InsertRows(insertionIndexPaths) in us)
  {
    var sections := SectionInsertsAndDeletes(oldElements, newElements, section, allowedEmptySections);
    BatchOrder(Moves(oldElements, newElements, section, hash),
               DeletionIndexPaths(oldElements, newElements, section, hash),
               InsertionIndexPaths(oldElements, newElements, section, hash),
               sections.0, sections.1);
    BatchPayloads(Moves(oldElements, newElements, section, hash),
               DeletionIndexPaths(oldElements, newElements, section, hash),
               InsertionIndexPaths(oldElements, newElements, section, hash),
               sections.0, sections.1);
  }

  /** The section edits of `generateUpdates`: `insertSections([section])`
      exactly when the section goes from empty to non-empty,
      `deleteSections([section])` exactly when it goes from non-empty to
      empty, never both, and neither for a section allowed to be empty. */
  lemma SectionRule<T>(newElements: seq<T>, oldElements: seq<T>, section: int,
                       allowedEmptySections: set<int>, hash: T -> int)
    ensures var us := Updates(newElements, oldElements, section, allowedEmptySections, hash);
      && (InsertSections({section}) in us <==>
            |oldElements| == 0 && |newElements| != 0 && section !in allowedEmptySections)
      && (DeleteSections({section}) in us <==>
            |oldElements| != 0 && |newElements| == 0 && section !in allowedEmptySections)
      && (forall u :: u in us && (u.InsertSections? || u.DeleteSections?) ==> u.sections == {section})
      && !(InsertSections({section}) in us && DeleteSections({section}) in us)
      && (section in allowedEmptySections ==> forall u :: u in us ==> !u.InsertSections? && !u.DeleteSections?)
  {
    var sections := SectionInsertsAndDeletes(oldElements, newElements, section, allowedEmptySections);
    BatchPayloads(Moves(oldElements, newElements, section, hash),
                  DeletionIndexPaths(oldElements, newElements, section, hash),
                  InsertionIndexPaths(oldElements, newElements, section, hash),
                  sections.0, sections.1);
  }

  /** A sequence is empty exactly when its set of values is. */
  lemma EmptyElements<T>(s: seq<T>)
    ensures |s| == 0 <==> Elements(s) == {}
  {
    if |s| != 0 {
      assert s[0] in Elements(s);
    }
  }

  /** Snapshots holding the same set of values, such as a snapshot and
      itself or any reordering of unchanged values, produce no edit at all:
      reorders of unchanged values go undetected. */
  lemma SameValuesNoUpdates<T>(newElements: seq<T>, oldElements: seq<T>, section: int,
                               allowedEmptySections: set<int>, hash: T -> int)
    requires Elements(oldElements) == Elements(newElements)
    ensures Updates(newElements, oldElements, section, allowedEmptySections, hash) == []
  {
    assert Deletions(oldElements, newElements) == {};
    assert Insertions(oldElements, newElements) == {};
    SelectNone(Distinct(oldElements), Deletions(oldElements, newElements));
    SelectNone(Distinct(newElements), Insertions(oldElements, newElements));
    assert MoveHashes(oldElements, newElements, hash) == {};
    SelectNone(Distinct(HashSequence(DeletionOrder(oldElements, newElements), hash)), {});
    EmptyElements(oldElements);
    EmptyElements(newElements);
  }
}
