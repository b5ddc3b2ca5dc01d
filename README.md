# SetTableDiff diff engine in Dafny

A model of the diff engine of SetTableDiff, `TableUpdate.swift`. Given the
old and the new rows of one table section,
`TableUpdate.generateUpdates(newElements:oldElements:in:allowedEmptySections:)`
returns the batch of `TableUpdate` edits that a table view replays:

- `deleteRows` and `insertRows`, from the set difference of the two snapshots;
- one `move` per hash carried both by a deleted value and by an inserted
  value, from the first old row carrying that hash to the first new row
  carrying it, turned into a `reload` by `Move.update` when the two rows
  are equal; every deleted or inserted value carrying such a hash loses its
  own row edit. When hashes are unique, this is one move for each value
  whose content changed while its `hashValue` stayed the same;
- `insertSections` or `deleteSections` when the section becomes non-empty or
  empty, unless the section is allowed to stay empty.

Files:

- `swift_collections.dfy` (module `SwiftCollections`) holds the parts of the
  Swift standard library the engine relies on:
  - `Set<T>(array)` and its iteration order;
  - `Array.index(of:)` and `Array.index(where:)`;
  - filtering.
- `table_update.dfy` (module `TableUpdates`) holds:
  - the `TableUpdate` enum and `Move.update`;
  - the set algebra and the `flatMap`s of `generateUpdates`, as functions;
  - `sectionInsertsAndDeletes`, as a function and as the method that fills
    two local index sets;
  - the assembly phase, a method that appends edits to `updates` one by one.
    It is proved equal to the function `Updates`.
- `table_update_properties.dfy` (module `TableUpdateProperties`) holds what
  the batch satisfies for every pair of snapshots and every hash function:
  - the payloads of `deleteRows` and `insertRows`;
  - one move per shared hash;
  - the fixed order of the edits;
  - the section rule;
  - no edits for snapshots holding the same values.
- `table_update_scenarios.dfy` (module `TableUpdateScenarios`) holds the
  scenarios of `TableUpdateTests.swift`, each stated for a whole family of
  lists instead of four sample lists (the conditions are listed under
  "## Left out"), and two lemmas showing what shared hashes do.

Modelling choices:

- Values are of an equality type `T`.
- `hashValue` is the parameter `hash: T -> int`. It is not assumed to be
  injective. As in the source, a hash shared by several values resolves to
  the first row that carries it.
- Swift leaves the iteration order of a `Set` unspecified. The model
  enumerates each set in one fixed order:
  - `deletions` and `insertions` by the first row that holds each value;
  - `moveHashes` by the first deleted value that carries each hash.

  The properties in `TableUpdateProperties` state the payloads as sets of
  positions without repeats, and the moves one per hash. They do not depend
  on this order.
- `IndexSet` is `set<int>`.
- `IndexPath` has unbounded `int` fields.

## Model

| member | source | states |
|---|---|---|
| TableUpdates.RowMove.Update | SetTableDiff/SetTableDiff/TableUpdate.swift:26-32 | The edit is a reload exactly when the old and new paths are equal, and it then carries that path. Otherwise it is a move carrying both paths unchanged. |
| SwiftCollections.IndexOf | SetTableDiff/SetTableDiff/TableUpdate.swift:49 | `index(of:)` is nil exactly when the value is absent. Otherwise it is the first position holding the value. |
| SwiftCollections.IndexOfHash | SetTableDiff/SetTableDiff/TableUpdate.swift:74-75 | `index(where: hashValue == h)` is nil exactly when no value has hash `h`. Otherwise it is the first position whose value has hash `h`. |
| SwiftCollections.Distinct | SetTableDiff/SetTableDiff/TableUpdate.swift:39-40 | The enumeration of `Set<T>(array)` holds exactly the values of the array, each once. |
| SwiftCollections.Select | SetTableDiff/SetTableDiff/TableUpdate.swift:43-44 | Keeping the values in `keep` yields exactly the values of the input that are in `keep`. |
| SwiftCollections.SelectDistinct | SetTableDiff/SetTableDiff/TableUpdate.swift:43-44 | Filtering an enumeration without repeats leaves no repeats. |
| SwiftCollections.SelectNone | SetTableDiff/SetTableDiff/TableUpdate.swift:43-44 | Filtering with no value kept yields nothing. |
| SwiftCollections.DistinctCount | SetTableDiff/SetTableDiff/TableUpdate.swift:39-40 | A sequence without repeats has as many elements as its set of values. |
| SwiftCollections.DistinctOfDistinct | SetTableDiff/SetTableDiff/TableUpdate.swift:39-40 | The set of a sequence without repeats is enumerated as that sequence. |
| TableUpdates.ItemsAllFound | SetTableDiff/SetTableDiff/TableUpdate.swift:47-57 | When every enumerated value occurs in the snapshot, the `flatMap` drops none. The k-th pair is the k-th value with the first row that holds it, in `section`. |
| TableUpdateProperties.PairedPathsDistinct | SetTableDiff/SetTableDiff/TableUpdate.swift:47-57 | Distinct values are paired with distinct index paths. |
| TableUpdates.WithoutMovesMembers | SetTableDiff/SetTableDiff/TableUpdate.swift:84-90 | `flatMap(indexPathMap)` keeps a path exactly when some pair carries it with a value whose hash is not a move hash. |
| TableUpdates.WithoutMovesDistinct | SetTableDiff/SetTableDiff/TableUpdate.swift:84-90 | Pairwise distinct paths stay pairwise distinct after `indexPathMap`. |
| TableUpdates.WithoutMovesKeepsAll | SetTableDiff/SetTableDiff/TableUpdate.swift:84-90 | With no value carrying a move hash, every path is kept, in order. |
| TableUpdateProperties.SurvivingPaths | SetTableDiff/SetTableDiff/TableUpdate.swift:47-90 | The paths kept after `indexPathMap` have no repeats. They are exactly the first occurrences, in `section`, of the enumerated values whose hash is not a move hash. |
| TableUpdates.MovesForAllFound | SetTableDiff/SetTableDiff/TableUpdate.swift:70-80 | When both snapshots carry every move hash, the `flatMap` drops none. The k-th move goes from the first old row with the k-th hash to the first new row with it. |
| TableUpdates.SectionInsertsAndDeletes | SetTableDiff/SetTableDiff/TableUpdate.swift:118-137 | The section is inserted exactly when the old rows are empty, the new rows are not, and the section may not stay empty. It is deleted in the mirror case. Both sets are within `{section}`, and at most one is non-empty. |
| TableUpdates.ComputeSectionInsertsAndDeletes | SetTableDiff/SetTableDiff/TableUpdate.swift:123-135 | Filling the two local index sets through the switch gives the result of `SectionInsertsAndDeletes`. |
| TableUpdates.AppendUpdates | SetTableDiff/SetTableDiff/TableUpdate.swift:95-113 | Appending each move's edit, then each non-empty row or section edit, builds exactly `Batch` of those parts. |
| TableUpdates.GenerateUpdates | SetTableDiff/SetTableDiff/TableUpdate.swift:35-116 | The method returns `Updates` of its inputs. The lemmas of `TableUpdateProperties` characterise that value. |
| SwiftCollections.Elements | SetTableDiff/SetTableDiff/TableUpdate.swift:39-40 | Definition of `Set<T>(array)` as the set of the array's values; no contract of its own (`Distinct` enumerates it). |
| TableUpdates.Deletions | SetTableDiff/SetTableDiff/TableUpdate.swift:43 | Definition of `oldSet.subtracting(newSet)`; no contract of its own, its use is characterised by `DeleteRowsPayload` and `InDeletionOrder`. |
| TableUpdates.Insertions | SetTableDiff/SetTableDiff/TableUpdate.swift:44 | Definition of `newSet.subtracting(oldSet)`; no contract of its own, its use is characterised by `InsertRowsPayload` and `InInsertionOrder`. |
| TableUpdates.HashValues | SetTableDiff/SetTableDiff/TableUpdate.swift:64-65 | Definition of `Set<Int>(items.map { $0.hashValue })`; no contract of its own. |
| TableUpdates.MoveHashes | SetTableDiff/SetTableDiff/TableUpdate.swift:66 | Definition of `deleteHashes.intersection(insertHashes)`; no contract of its own, its enumeration is characterised by `MoveHashOrderEnumerates` and `MoveHashFound`. |
| TableUpdates.ItemsAndIndexPaths | SetTableDiff/SetTableDiff/TableUpdate.swift:47-57 | Length bound only (at most one pair per item, since nil lookups are dropped); its value is given by `ItemsAllFound`. |
| TableUpdates.WithoutMoves | SetTableDiff/SetTableDiff/TableUpdate.swift:84-90 | Length bound only; its value is given by `WithoutMovesMembers`, `WithoutMovesDistinct` and `WithoutMovesKeepsAll`. |
| TableUpdates.MovesFor | SetTableDiff/SetTableDiff/TableUpdate.swift:70-80 | Length bound only (at most one move per hash, since failed lookups are dropped); its value is given by `MovesForAllFound`. |
| TableUpdates.Moves | SetTableDiff/SetTableDiff/TableUpdate.swift:70-80 | Definition of `moves`; no contract of its own, characterised by `MovesOnePerHash`. |
| TableUpdates.DeletionIndexPaths | SetTableDiff/SetTableDiff/TableUpdate.swift:89 | Definition of `deletionIndexPaths`; no contract of its own, characterised by `DeleteRowsPayload`. |
| TableUpdates.InsertionIndexPaths | SetTableDiff/SetTableDiff/TableUpdate.swift:90 | Definition of `insertionIndexPaths`; no contract of its own, characterised by `InsertRowsPayload`. |
| TableUpdates.MoveUpdates | SetTableDiff/SetTableDiff/TableUpdate.swift:95-97 | Definition of the edits appended by `moves.forEach`; no contract of its own, characterised by `BatchOrder`. |
| TableUpdates.RowAndSectionUpdates | SetTableDiff/SetTableDiff/TableUpdate.swift:99-113 | Definition of the four conditional appends; no contract of its own, characterised by `RowAndSectionUpdatesOrdered` and `BatchPayloads`. |
| TableUpdates.Batch | SetTableDiff/SetTableDiff/TableUpdate.swift:95-113 | Definition of the assembled batch; no contract of its own, characterised by `BatchOrder` and `BatchPayloads`. |
| TableUpdates.Updates | SetTableDiff/SetTableDiff/TableUpdate.swift:35-116 | Definition of the value `generateUpdates` returns; no contract of its own, characterised by `UpdatesShape`, `SectionRule`, `DeleteRowsPayload`, `InsertRowsPayload`, `MovesOnePerHash` and `SameValuesNoUpdates`. |
| TableUpdateProperties.InDeletionOrder | SetTableDiff/SetTableDiff/TableUpdate.swift:43-47 | Every deleted value is enumerated by the `flatMap` over `deletions`. |
| TableUpdateProperties.InInsertionOrder | SetTableDiff/SetTableDiff/TableUpdate.swift:44-53 | Every inserted value is enumerated by the `flatMap` over `insertions`. |
| TableUpdateProperties.DeleteRowsPayload | SetTableDiff/SetTableDiff/TableUpdate.swift:43-89 | The `deleteRows` paths are pairwise distinct. A path is among them exactly when it is in `section`, its row is the first occurrence in the old rows of a value absent from the new rows, and no inserted value carries that value's hash. |
| TableUpdateProperties.InsertRowsPayload | SetTableDiff/SetTableDiff/TableUpdate.swift:44-90 | The mirror of `DeleteRowsPayload` for `insertRows`: first occurrences in the new rows of values absent from the old rows, whose hash no deleted value carries. |
| TableUpdateProperties.MoveHashOrderEnumerates | SetTableDiff/SetTableDiff/TableUpdate.swift:64-70 | The enumeration of `moveHashes` lists every hash of `deleteHashes ∩ insertHashes` exactly once. |
| TableUpdateProperties.MoveHashFound | SetTableDiff/SetTableDiff/TableUpdate.swift:64-75 | A move hash is carried by some old row and by some new row, so the `guard` at lines 74-75 never drops it. |
| TableUpdateProperties.MovesForEnumeration | SetTableDiff/SetTableDiff/TableUpdate.swift:70-80 | Moves that follow an enumeration of a set of hashes, one per position, are one move per hash of that set, and no hash has two. |
| TableUpdateProperties.MovesOnePerHash | SetTableDiff/SetTableDiff/TableUpdate.swift:64-80 | There are exactly as many moves as hashes in `deleteHashes ∩ insertHashes`, and each hash has exactly one move. That move goes from the first old row with the hash to the first new row with it, both in `section`. |
| TableUpdateProperties.AppendOrdered | SetTableDiff/SetTableDiff/TableUpdate.swift:99-113 | One conditional `append` of an edit of a later kind keeps the edits in strictly increasing kind order. |
| TableUpdateProperties.RowAndSectionUpdatesOrdered | SetTableDiff/SetTableDiff/TableUpdate.swift:99-113 | After the moves come at most one `deleteRows`, one `insertRows`, one `insertSections` and one `deleteSections`, in that order. |
| TableUpdateProperties.MovesThenOrdered | SetTableDiff/SetTableDiff/TableUpdate.swift:95-113 | The move edits followed by an ordered run put the moves first, in order, and contain neither `reloadData` nor `none`. |
| TableUpdateProperties.BatchOrder | SetTableDiff/SetTableDiff/TableUpdate.swift:95-113 | Any batch starts with the edit of each move, in order. The row and section edits follow in kind order. `reloadData` and `none` never occur. |
| TableUpdateProperties.BatchPayloads | SetTableDiff/SetTableDiff/TableUpdate.swift:99-113 | A row or section edit is in the batch exactly when its part is non-empty, and it carries that part. |
| TableUpdateProperties.UpdatesShape | SetTableDiff/SetTableDiff/TableUpdate.swift:95-113 | The same shape for the result of `generateUpdates`: its moves first, then the ordered row and section edits, carrying exactly the `deletionIndexPaths` and `insertionIndexPaths`. |
| TableUpdateProperties.SectionRule | SetTableDiff/SetTableDiff/TableUpdate.swift:107-137 | `insertSections({section})` appears exactly when the section goes from empty to non-empty and may not stay empty. `deleteSections({section})` appears in the mirror case. Never both appear, and neither appears for a section allowed to stay empty. |
| TableUpdateProperties.SameValuesNoUpdates | SetTableDiff/SetTableDiff/TableUpdate.swift:39-66 | Two snapshots holding the same set of values, such as any reordering of unchanged values, produce no edit. |
| TableUpdateScenarios.NoInsertionsNoMoves | SetTableDiff/SetTableDiff/TableUpdate.swift:64-80 | When no value appears, there is no move. |
| TableUpdateScenarios.NoDeletionsNoMoves | SetTableDiff/SetTableDiff/TableUpdate.swift:64-80 | When no value disappears, there is no move. |
| TableUpdateScenarios.NoDeletionsNoRows | SetTableDiff/SetTableDiff/TableUpdate.swift:43-51 | When no value disappears, no row is deleted. |
| TableUpdateScenarios.NoInsertionsNoRows | SetTableDiff/SetTableDiff/TableUpdate.swift:44-57 | When no value appears, no row is inserted. |
| TableUpdateScenarios.AllDeletionsMove | SetTableDiff/SetTableDiff/TableUpdate.swift:84-89 | When every deleted value shares its hash with an inserted one, no row is deleted. |
| TableUpdateScenarios.AllInsertionsMove | SetTableDiff/SetTableDiff/TableUpdate.swift:84-90 | When every inserted value shares its hash with a deleted one, no row is inserted. |
| TableUpdateScenarios.SwapOneValueMoves | SetTableDiff/SetTableDiff/TableUpdate.swift:70-80 | A single move hash gives a single move, between the first rows carrying it. |
| TableUpdateScenarios.SwapOneValue | SetTableDiff/SetTableDiff/TableUpdate.swift:64-90 | One deleted and one inserted value sharing a hash give one move and no row deletes or inserts. |
| TableUpdateScenarios.ExchangedValue | SetTableDiff/SetTableDiff/TableUpdate.swift:43-44 | Exchanging one value for another makes the first the only deletion and the second the only insertion. |
| TableUpdateScenarios.DropLast | SetTableDiff/SetTableDiffTests/TableUpdateTests.swift:33-52 | Dropping the last row of a list of at least two rows, whose last value occurs nowhere else, yields exactly `[deleteRows([(last row, section)])]`. |
| TableUpdateScenarios.Append | SetTableDiff/SetTableDiffTests/TableUpdateTests.swift:54-73 | Appending a value the list does not hold to a non-empty list yields exactly `[insertRows([(new row, section)])]`. |
| TableUpdateScenarios.MoveToEnd | SetTableDiff/SetTableDiffTests/TableUpdateTests.swift:75-96 | Moving the first row to the end while mutating it (its hash kept, shared by no other row) yields exactly `[move((0, section), (last row, section))]`. |
| TableUpdateScenarios.MutateFirst | SetTableDiff/SetTableDiffTests/TableUpdateTests.swift:149-168 | Mutating the first row in place, with its hash kept, yields exactly `[reload((0, section))]`. |
| TableUpdateScenarios.FromEmpty | SetTableDiff/SetTableDiff/TableUpdate.swift:39-90 | Growing from an empty snapshot deletes and moves nothing, and inserts some row when the new snapshot is non-empty. |
| TableUpdateScenarios.ToEmpty | SetTableDiff/SetTableDiff/TableUpdate.swift:39-90 | Shrinking to an empty snapshot inserts and moves nothing, and deletes some row when the old snapshot was non-empty. |
| TableUpdateScenarios.AllRowsListed | SetTableDiff/SetTableDiff/TableUpdate.swift:47-90 | Distinct values listed against themselves, with no move hash, give their rows `0 .. n - 1` in order. |
| TableUpdateScenarios.AllRowsInserted | SetTableDiff/SetTableDiff/TableUpdate.swift:53-90 | Against an empty old snapshot, the `insertRows` payload for distinct values is every row of the section, once each. |
| TableUpdateScenarios.AllRowsDeleted | SetTableDiff/SetTableDiff/TableUpdate.swift:47-89 | Against an empty new snapshot, the `deleteRows` payload for distinct values is every row of the section, once each. |
| TableUpdateScenarios.FillSectionUpdates | SetTableDiff/SetTableDiff/TableUpdate.swift:95-130 | Filling an empty section yields one `insertRows`, then `insertSections({section})` unless the section may stay empty. |
| TableUpdateScenarios.EmptySectionUpdates | SetTableDiff/SetTableDiff/TableUpdate.swift:95-130 | Emptying a section yields one `deleteRows`, then `deleteSections({section})` unless the section may stay empty. |
| TableUpdateScenarios.CollisionHidesDeletion | SetTableDiff/SetTableDiff/TableUpdate.swift:64-89 | With all values sharing one hash, replacing old rows `[1, 2]` by `[3]` yields only `[reload((0, 0))]`: row 1 disappears without a `deleteRows`. |
| TableUpdateScenarios.CollisionReloadsUnchangedRow | SetTableDiff/SetTableDiff/TableUpdate.swift:70-89 | With all values sharing one hash, changing `[5, 1]` into `[5, 3]` yields only `[reload((0, 0))]`: the unchanged row 0 is reloaded and the changed row 1 gets no edit. |
| TableUpdateScenarios.FillSection | SetTableDiff/SetTableDiffTests/TableUpdateTests.swift:98-121 | Filling an empty section with distinct values inserts rows `0 .. n - 1` of the section, then the section itself unless it may stay empty. |
| TableUpdateScenarios.EmptySection | SetTableDiff/SetTableDiffTests/TableUpdateTests.swift:123-147 | Emptying a section of distinct values deletes rows `0 .. n - 1` of the section, then the section itself unless it may stay empty. |

## Left out

- `UITableView+Updates.swift` and `UICollectionView+Updates.swift` are not part of this model. They only forward each edit to UIKit.
- Animations, cell-update callbacks and the replay of `reloadData` are UI side effects and are not modelled. `generateUpdates` never produces `reloadData` or `none`, and `BatchOrder` proves this.
- Concrete hashing is not modelled, because Swift's `hashValue` is seeded per process. `hash` is an arbitrary function parameter.
- The iteration order of a Swift `Set` is unspecified. The model fixes one order, described above. The exact payload orders in `AllRowsListed`, `AllRowsInserted`, `AllRowsDeleted`, `FillSection` and `EmptySection` (ascending rows) are those of this order. Their sets of positions hold for any order.
- The `List` model type of the tests is not part of this model. The scenarios take any values instead. Like the tests, they assume a mutated value keeps its hash and no other row shares it.
- DropLast, Append, MoveToEnd and MutateFirst require that the changed value does not occur elsewhere in the list.
- DropLast, Append and MoveToEnd require the kept list `s` to be non-empty. For DropLast this means an old list of at least two rows: dropping the only row also empties the section, and then `deleteSections({section})` follows (`EmptySectionUpdates` covers that case).
- FillSection and EmptySection require a non-empty list of distinct values. The four-element lists of the tests meet all of these conditions.
- Shared hashes: one move stands for every deleted and inserted value carrying its hash, and it may point at a row whose value did not change. `CollisionHidesDeletion` and `CollisionReloadsUnchangedRow` show both consequences; the model keeps this behaviour of the source.
- Integer width is not modelled. Rows and sections are unbounded integers, and Swift's `Int` overflow cannot arise for array indices.
- Reorders of unchanged values go undetected in the source, as its comment at lines 62-63 says. The model keeps this behaviour, and `SameValuesNoUpdates` states it.
