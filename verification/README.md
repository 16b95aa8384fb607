# gcci-model: the materialized-path tree engine, in Dafny

gcci-model keeps an organisation chart as a flat collection of records in a
key-value store. Each record carries a `path`. The path is a string of 4-digit
segments, and each segment is the record's index among its siblings at that
depth: `0001` is the first top-level node, `00010002` its second child, and so
on. Every hierarchy question is answered by string arithmetic on these paths.
Who are the children, the descendants, the siblings or the parent of a node?
In which order are nodes listed? The same goes for every mutation: adding a
child, inserting a sibling and shifting the later ones right, removing a
subtree and closing the gap, and moving a subtree elsewhere.

The repository holds five overlapping versions of this logic:

- `src/assets/js/model.js` is the cached model. It queries an in-memory list of
  records and writes through the store.
- `src/assets/js/model-deferred.js` is the deferred model. It queries the store
  with range queries ordered by path. Its records also carry `depth` and
  `numChild`.
- Three copies of the read-only query API select records by their stored
  `depth`: `src/api/v1/api.js`, `src/assets/libs/gcci-model/api.js` and
  `src/assets/js/api.js`. Version 1 adds sibling indices and one-sided sibling
  lists.

The store is modelled as a sequence of records (`Nodes.Node`: key, path, depth,
child count, payload). Queries are pure functions over that sequence. A
mutation is a pure function from the store before the call to the store after
all of its writes. Every write is computed from the store as it was when the
call began. For the cached model this is an assumption: it reads
`this.nodes`, and the model takes that list to stay as it was for the whole
call (see Left out). When a record is written twice, the later write wins.

Modules:

- `JsText`: the JavaScript string and number primitives the code relies on.
  These are `substr` (with its clamping), `Number#toString` and `parseInt` on
  digit strings.
- `PathCodec`: the static helpers of both model classes (`indexToPath`,
  `getPathIndex`, `calcPathShift`, `calcPathAppend`, `getDepth`,
  `getPathAtDepth`, `getParentPath`, `isDescendantOf`).
- `PathOrder`: `localeCompare` on digit paths, read as ordinal lexicographic
  order.
- `Nodes`: records, snapshots, `parse`, filtering and sorting by path.
- `TreeShape`: the shape invariants of a well-formed store. Paths are
  well-formed and distinct, every parent is present, and stored depths agree
  with the paths.
- `StoreEdit`: `updatePath` and the sibling shifts that both models issue.
- `CachedModel`: the queries of `model.js`, plus `dfs`/`getTree`, `addChild`,
  `addSibling` and `remove`.
- `CachedRefs`: where the cached model's deletions land, with `getRefById` as written and as intended.
- `CachedMove`: `model.js`'s `move`, both as written and as documented.
- `DeferredModel`: the queries and mutations of `model-deferred.js`.
- `StoreApi`: the query logic shared by the three API copies.
- `ApiV1`: what `src/api/v1/api.js` adds to that logic.

## Model

| member | source | states |
|---|---|---|
| PathCodec.IndexToPath | src/assets/js/model.js:403-405 | for an index in 0..9999 the segment is four digits, and parsing it gives the index back |
| PathCodec.IndexToPathIsPad4 | src/assets/js/model.js:403-405 | adding 10000 and dropping the first digit is the same as zero-padding the index to four digits |
| PathCodec.SegmentRoundTrip | src/assets/js/model.js:392-397 | every 4-digit segment parses to an index in 0..9999 whose encoding is that same segment |
| PathCodec.IndexToPathInjective | src/assets/js/model.js:403-405 | two in-range indices with the same segment are equal, so sibling slots never collide |
| PathCodec.IndexToPathOutOfRange | src/assets/js/model.js:403-405 | outside 0..9999 the width breaks: -1 encodes as "999" and 10000 as "0000" |
| PathCodec.GetDepth | src/assets/js/model-deferred.js:435-437 | for a path whose length is a multiple of four, the depth is the number of segments |
| PathCodec.GetPathAtDepth | src/assets/js/model-deferred.js:443-445 | the result is a prefix of the path of length min(4·depth, length), and empty for depth ≤ 0 |
| PathCodec.PathAtOwnDepth | src/assets/js/model-deferred.js:435-445 | cutting a path at its own depth gives the path back |
| PathCodec.GetParentPath | src/assets/js/model.js:383-385 | the parent path is the prefix one segment shorter, or empty for a path shorter than a segment |
| PathCodec.GetPathIndex | src/assets/js/model.js:392-397 | the last segment of a well-formed path is an index in 0..9999 |
| PathCodec.GetPathIndexAt | src/assets/js/model.js:392-395 | the index at depth k is the last index of the path cut at depth k |
| PathCodec.CalcPathShift | src/assets/js/model.js:351-353 | a shift keeps the parent prefix; when the new index stays in 0..9999 the path keeps its length and parent and its last index moves by the shift |
| PathCodec.ShiftRightStaysValid | src/assets/js/model.js:351-353 | a shift right by one always gives a well-formed path under the same parent, and index 9999 wraps to 0 |
| PathCodec.ParentJoin | src/assets/js/model.js:367-397 | parent path plus the encoded last index rebuilds the path, and the parent is one level shallower |
| PathCodec.CalcPathAppend | src/assets/js/model-deferred.js:427-429 | the appended path starts with the base path and continues with the appended text, and its length is the sum |
| PathCodec.AppendThenSplit | src/assets/js/model.js:359-361 | appending slot i to a path gives a well-formed child whose parent is that path and whose index is i |
| PathCodec.IsDescendantPath | src/assets/js/model-deferred.js:411-413 | a path descends from another exactly when the other is a strict prefix of it |
| PathCodec.DescendantIrreflexive | src/assets/js/model-deferred.js:411-413 | no node descends from itself |
| PathCodec.DescendantTransitive | src/assets/js/model-deferred.js:411-413 | a descendant of a descendant is a descendant |
| JsText.IntToString | src/assets/js/model-deferred.js:471-473 | `toString` of a non-negative number is a nonempty run of digits, and of a negative one a minus sign followed by digits |
| JsText.ParseInt | src/assets/js/model-deferred.js:460-465 | a string of n digits parses to a natural number below 10^n; `DecimalRoundTrip` and `ParseIntInjective` give its exact value |
| JsText.DecimalRoundTrip | src/assets/js/model.js:403-405 | parsing the decimal text of a natural number gives the number back |
| JsText.ParseIntInjective | src/assets/js/model.js:392-397 | two digit strings of equal length with the same value are the same string |
| JsText.Substr | src/assets/js/model.js:375-377 | `substr` is the slice clamped to the string, and empty for a non-positive length |
| PathOrder.LexLeReflexive | src/assets/js/model-deferred.js:401-405 | the path comparison used for sorting is reflexive |
| PathOrder.LexLeAntisymmetric | src/assets/js/model-deferred.js:401-405 | two paths that sort at or before each other are equal |
| PathOrder.LexLeTransitive | src/assets/js/model-deferred.js:401-405 | the path comparison is transitive |
| PathOrder.LexLeTotal | src/assets/js/model-deferred.js:401-405 | any two paths are comparable, so sorting by path is well defined |
| PathOrder.PrefixSortsFirst | src/assets/js/model-deferred.js:70-80 | an ancestor's path sorts before every path below it, so the path order lists parents before children |
| PathOrder.BetweenPrefixAndExtension | src/assets/js/model-deferred.js:70-80 | a path that sorts between a node and one of its descendants is itself below the node |
| Nodes.Parse | src/assets/js/model-deferred.js:385-395 | one node per snapshot key, carrying that key as its id and the record stored under it |
| Nodes.SortByPath | src/assets/js/model-deferred.js:401-405 | the result is sorted by path and is a permutation of the input |
| Nodes.SortIsSortedPermutation | src/assets/libs/gcci-model/api.js:230-234 | `_sort` returns a path-sorted reordering of its input with the same length |
| Nodes.SortKeepsMembers | src/assets/js/api.js:164-168 | sorting neither adds nor drops an element |
| Nodes.FilterAppend | src/assets/js/model.js:116-126 | the push-on-match loop over a longer list extends the result by the new element exactly when it matches |
| TreeShape.AncestorExists | src/assets/js/model.js:155-159 | in a store where every parent is present, every prefix of a record's path at a segment boundary is some record's path |
| TreeShape.RecordAt | src/assets/js/model.js:155-159 | the lookup by path finds a record exactly when one has that path |
| StoreEdit.UpdatePath | src/assets/js/model-deferred.js:341-352 | the node and every record below it are re-rooted at the new path with depth = length/4; every other record is unchanged, and no key or payload changes |
| StoreEdit.UpdatePathRoundTrip | src/assets/js/model.js:334-342 | re-rooting a subtree from A to B and then from B to A restores the store, when no other record lies under B |
| StoreEdit.Rebase | src/assets/js/model-deferred.js:341-352 | a record outside the old root's subtree is unchanged; a record inside it keeps key, numChild and payload, and its path is the new root followed by its part below the old root |
| StoreEdit.RebaseKeepsNesting | src/assets/js/model-deferred.js:341-352 | re-rooting keeps who descends from whom within the moved subtree, and keeps each record's depth below the root |
| StoreEdit.NewRecord | src/assets/js/model-deferred.js:184-190 | the pushed record carries the given key, path and payload, no children, and the depth its path implies |
| StoreEdit.BesidePath | src/assets/js/model.js:227 | the new sibling's path is the target's path for "left" and the next slot for "right", under the same parent |
| StoreEdit.ShiftSiblings | src/assets/js/model.js:228-232 | a shift changes only paths and depths, and only of siblings at or after the start index and the records below them |
| StoreEdit.ShiftKeepsOutside | src/assets/js/model.js:228-232 | records outside the parent's subtree are untouched |
| StoreEdit.ShiftKeepsEarlierSiblings | src/assets/js/model.js:228-232 | siblings with a smaller index are untouched |
| StoreEdit.ShiftMovesLaterSiblings | src/assets/js/model.js:228-232 | a sibling with index ≥ the start moves to its index plus the shift |
| StoreEdit.ShiftNodeIsUpdatePath | src/assets/js/model.js:334-342 | the one-record shift `StoreEdit.ShiftNode` (one sibling's `updatePath(s, calcPathShift(s.path, delta))`, lines 228-232 and 266-271) applied to a record is the `updatePath` of its sibling-level ancestor to the shifted path |
| StoreEdit.ShiftKeepsPathsDistinct | src/assets/js/model.js:226-233 | a shift by one keeps paths distinct, to the right when the last slot is free and to the left into a vacant slot |
| StoreEdit.ShiftVacatesSlot | src/assets/js/model.js:226-233 | after a right shift from slot k, no record is left at slot k, so the new sibling can go there |
| StoreEdit.ShiftFromZero | src/assets/js/model.js:217-221 | with slot 0 empty, shifting every sibling equals shifting from index 1 |
| StoreEdit.Survivors | src/assets/js/model.js:261-264 | the survivors of a removal are exactly the records outside the removed subtree |
| StoreEdit.SurvivorsShape | src/assets/js/model.js:254-264 | removing a whole subtree keeps a well-formed, parent-closed store with distinct paths |
| StoreEdit.RemoveSubtree | src/assets/js/model-deferred.js:266-290 | the result is one record per survivor of the removal, in order, each with the survivor's key, numChild and payload |
| StoreEdit.RemoveSubtreeDropsSubtree | src/assets/js/model.js:261-264 | the keys left after removal are the survivors' keys; no record of the subtree remains |
| StoreEdit.RemoveSubtreeShiftsSiblings | src/assets/js/model.js:266-271 | a later sibling moves to its index minus one, and an earlier one is unchanged |
| StoreEdit.RemoveSubtreeKeepsOutside | src/assets/js/model.js:254-272 | records outside the parent's subtree are unchanged by removal |
| StoreEdit.RemoveKeepsPathsDistinct | src/assets/js/model.js:254-272 | removal with re-indexing keeps paths distinct in a well-formed store |
| CachedModel.GetNodeById | src/assets/js/model.js:73-77 | before the first load, NOT_READY is thrown; afterwards a record is found exactly when the key is present, and it carries that key |
| CachedModel.GetChildren | src/assets/js/model.js:116-126 | exactly the records whose parent path is the node's path, each one segment below it |
| CachedModel.GetDescendants | src/assets/js/model.js:135-146 | exactly the records strictly below the node's path, and never the node itself |
| CachedModel.GetParent | src/assets/js/model.js:155-159 | a record at the parent path, or none exactly when no record has that path |
| CachedModel.GetSiblings | src/assets/js/model.js:168-180 | the records sharing the node's parent path, including the node, sorted by path |
| CachedModel.ChildrenAreDescendantsOneLevelDown | src/assets/js/model.js:116-146 | the children are exactly the descendants one level deeper |
| CachedModel.ParentOfChild | src/assets/js/model.js:155-159 | with distinct paths, the parent of each child of p is p |
| CachedModel.ParentPresentUnlessTopLevel | src/assets/js/model.js:155-159 | in a parent-closed store, exactly the records below the top level have a parent |
| CachedModel.SiblingsAreParentsChildren | src/assets/js/model.js:168-180 | the siblings of a child of p are, as a multiset, exactly p's children |
| CachedModel.Dfs | src/assets/js/model.js:323-328 | the listing starts with the node and holds only the node and records below it |
| CachedModel.DfsAll | src/assets/js/model.js:325-327 | the child loop of `dfs` lists only records strictly below the parent path |
| CachedModel.DfsComplete | src/assets/js/model.js:323-328 | in a parent-closed store with distinct paths, every record below the node is listed |
| CachedModel.DfsAllContains | src/assets/js/model.js:325-327 | the listing of a child list contains every child's own listing |
| CachedModel.GetTree | src/assets/js/model.js:94-107 | NOT_READY before the first load; otherwise the listing starts at a top-level record, and it is empty exactly when no record is top-level |
| CachedModel.GetTreeListsFirstTree | src/assets/js/model.js:94-107 | the tree listed is exactly the first top-level record and everything below it |
| CachedModel.DfsListsSubtreeOnce | src/assets/js/model.js:323-328 | in a parent-closed store with distinct paths, the walk lists each record of the node's subtree exactly once and nothing else |
| CachedModel.DfsSubtreesContiguous | src/assets/js/model.js:323-328 | in the walk every subtree occupies one contiguous run: anything listed between a record and one of its descendants is below that record |
| CachedModel.DfsAncestorsFirst | src/assets/js/model.js:323-328 | the walk lists no record after a record strictly below it: each record comes before its subtree |
| CachedModel.GetTreeIsDepthFirst | src/assets/js/model.js:89-107 | `getTree` lists the first top-level record's tree in depth-first pre-order: each of its records exactly once, each before the records below it, each subtree as one contiguous run |
| CachedModel.AddChild | src/assets/js/model.js:191-199 | one record is appended with the new key and data, at slot (number of children + 1) under the target |
| CachedModel.AddChildListsNewChild | src/assets/js/model.js:191-199 | after the call the target's children are the old ones followed by the new record |
| CachedModel.AddChildSlotFree | src/assets/js/model.js:191-199 | when the children fill slots 1..n, the new child's slot is free |
| CachedModel.AddChildKeepsShape | src/assets/js/model.js:191-199 | adding a child keeps the store well-formed, parent-closed and with distinct paths, and keeps the children in slots 1..n+1 |
| CachedModel.AddBeside | src/assets/js/model.js:226-242 | "left"/"right" append one record at the target's slot or the next one |
| CachedModel.AddFirst | src/assets/js/model.js:217-222 | "first" appends one record at slot 1 under the target's parent |
| CachedModel.AddLast | src/assets/js/model.js:223-225 | "last" appends at slot (number of siblings + 1) and shifts nothing |
| CachedModel.AddSibling | src/assets/js/model.js:209-246 | "Invalid path" is thrown exactly for a position other than first, last, left or right; otherwise exactly one record is added |
| CachedModel.AddBesideShiftsSiblings | src/assets/js/model.js:228-232 | siblings at or after the new slot move one right, earlier siblings and records outside the parent are untouched |
| CachedModel.AddBesideKeepsPathsDistinct | src/assets/js/model.js:226-242 | inserting to the left or right keeps paths distinct when the last slot is free |
| CachedModel.AddFirstKeepsPathsDistinct | src/assets/js/model.js:217-222 | inserting first keeps paths distinct when slot 0 and the last slot are free |
| CachedModel.AddLastKeepsPathsDistinct | src/assets/js/model.js:223-225 | appending last keeps paths distinct when the siblings fill slots 1..n |
| CachedModel.Kept | src/assets/js/model.js:255-264 | deletion goes by key: a record is kept exactly when its key is neither the node's nor a descendant's |
| CachedModel.Remove | src/assets/js/model.js:254-272 | after removal the keys are exactly the kept records' keys, and the node's key is gone |
| CachedModel.RemoveIsRemoveSubtree | src/assets/js/model.js:254-272 | with distinct keys and paths, removal deletes the subtree and shifts the later siblings left |
| CachedModel.KeptAreSurvivors | src/assets/js/model.js:261-264 | deleting by key the node and its descendants leaves exactly the records outside its path |
| CachedModel.KeyGoneIffBelow | src/assets/js/model.js:254-264 | with distinct keys and paths, a record's key is among the deleted ones exactly when its path lies at or below the node's |
| CachedModel.SurvivorsShiftAlike | src/assets/js/model.js:266-271 | `StoreEdit.ShiftEach`, the shift applied to the list left after deletion while the siblings are read from the list before it, gives the same result as shifting after the deletion |
| CachedRefs.RemoveAt | src/assets/js/model.js:261-264 | `remove()` on the root deletes every record; on a key it deletes exactly the records stored under that key |
| CachedRefs.DeletedKeys | src/assets/js/model.js:261-264 | the keys `remove` deletes are exactly the node's key and its descendants' keys |
| CachedRefs.RemoveKeysByKey | src/assets/js/model.js:261-264 | `CachedRefs.RemoveKeys` (one `getRefById(k).remove()` per key, in order) with each reference made by `CachedRefs.RefById`, deleting the keys one by one at their own keys, leaves exactly the records whose key is not in the list |
| CachedRefs.DeletesByKeyAreKept | src/assets/js/model.js:254-264 | with each deletion sent to the record's own key, `remove` leaves exactly the kept records |
| CachedRefs.DeletesAtRootLoseKeptRecord | src/assets/js/model.js:84-86 | with the reference `getRefById` returns (`CachedRefs.RefByIdAsWritten`, the root for every key, against `CachedRefs.RefById`, the record under the key), the deletions of `remove` empty the store, losing a record outside the node's subtree that the keyed deletions keep |
| CachedMove.MoveDestination | src/assets/js/model.js:296-301 | "child" gives the next child slot under the target, "left" the target's slot and "right" the next one, under the target's parent |
| CachedMove.MoveAsWritten | src/assets/js/model.js:282-317 | INVALID_MOVE is thrown exactly when the target lies below the node; otherwise only paths and depths are rewritten |
| CachedMove.MoveRecordAsWritten | src/assets/js/model.js:295-316 | one record's final state under the writes of `move`: its key, child count and payload are kept, whichever of the three write groups reaches it last |
| CachedMove.Move | src/assets/js/model.js:282-317 | refuses a target equal to or below the node, and an unknown position; otherwise rewrites only paths and depths |
| CachedMove.DetachedTarget | src/assets/js/model.js:311-316 | the target as it stands once the node has left: same key and depth, unchanged unless it was a sibling of the node |
| CachedMove.Relocate | src/assets/js/model.js:282-317 | the documented move rewrites paths and depths only |
| CachedMove.TargetStays | src/assets/js/model.js:288-293 | a valid target is not part of the moved subtree and survives the detachment |
| CachedMove.NodeLandsAtDestination | src/assets/js/model.js:295-302 | the node lands at the destination computed in the store without it |
| CachedMove.TargetKeepsDetachedPath | src/assets/js/model.js:296-298 | moving in as a child leaves the target at its detached path |
| CachedMove.MoveChildLandsUnderTarget | src/assets/js/model.js:296-298 | moving in as a child puts the node directly under the target, in the next free child slot |
| CachedMove.TargetRecordMoves | src/assets/js/model.js:304-308 | for "left" and "right" the target takes part in the sibling shift at the destination |
| CachedMove.TargetShiftsRight | src/assets/js/model.js:300-308 | for "left" the target moves one slot right |
| CachedMove.TargetStaysPut | src/assets/js/model.js:300-308 | for "right" the target keeps its detached path |
| CachedMove.MoveLeftLandsBeforeTarget | src/assets/js/model.js:300-308 | after a move to the left, the node sits immediately before the target under one parent |
| CachedMove.MoveRightLandsAfterTarget | src/assets/js/model.js:300-308 | after a move to the right, the node sits immediately after the target under one parent |
| CachedMove.MoveCarriesSubtree | src/assets/js/model.js:298-302 | every descendant keeps its position relative to the node |
| CachedMove.MoveKeepsOthers | src/assets/js/model.js:282-317 | records outside both affected sibling groups and the moved subtree are unchanged |
| CachedMove.MoveIntoLaterSiblingOrphans | src/assets/js/model.js:296-316 | moving a node into its next sibling leaves it under a path no record has |
| CachedMove.MoveLeftOfPreviousSiblingLeavesGap | src/assets/js/model.js:300-316 | moving a node left of its previous sibling leaves that sibling's slot empty |
| CachedMove.MoveUnknownPositionCollides | src/assets/js/model.js:295-316 | an unknown position still shifts the node's siblings, so two records end up with one path |
| CachedMove.MoveOntoItselfOrphans | src/assets/js/model.js:288-298 | moving a node into itself is accepted and leaves it under a path no record has |
| CachedMove.MoveIntoLaterSiblingLandsUnder | src/assets/js/model.js:296-298 | the documented move puts a node moved into its next sibling under that sibling |
| DeferredModel.GetNodeById | src/assets/js/model-deferred.js:38-46 | a record is found exactly when some record has the key, and it is the record stored under that key |
| DeferredModel.GetNodeByIdFindsRecord | src/assets/js/model-deferred.js:38-46 | with one record per key, the lookup returns that record |
| DeferredModel.GetTree | src/assets/js/model-deferred.js:70-80 | no answer exactly for an empty store, where `parse(null)` throws; otherwise the parsed snapshot, one node per key carrying its record, sorted by path |
| DeferredModel.SubtreeIsContiguous | src/assets/js/model-deferred.js:70-80 | in the path-sorted listing every subtree occupies one contiguous run |
| DeferredModel.StartAt | src/assets/js/model-deferred.js:92 | the range query holds exactly the records whose path sorts at or after the start |
| DeferredModel.GetChildrenAsWritten | src/assets/js/model-deferred.js:89-104 | as written: records at or after the node in path order whose depth is one more, sorted |
| DeferredModel.GetChildren | src/assets/js/model-deferred.js:89-104 | corrected: records one level deeper whose parent path is the node's path, sorted |
| DeferredModel.ChildrenByParentPath | src/assets/js/model-deferred.js:89-104 | where depths agree with paths, the corrected children are exactly the records whose parent path is the node's |
| DeferredModel.AsWrittenListsEveryChild | src/assets/js/model-deferred.js:92-98 | the written filter misses no real child |
| DeferredModel.AsWrittenListsNephew | src/assets/js/model-deferred.js:92-98 | in a well-formed store the written filter also lists a later sibling's child |
| DeferredModel.GetDescendants | src/assets/js/model-deferred.js:113-128 | exactly the records strictly below the node, sorted by path |
| DeferredModel.DescendantsNest | src/assets/js/model-deferred.js:113-128 | children are descendants, descendants of descendants are descendants, and a node is never its own |
| DeferredModel.GetParent | src/assets/js/model-deferred.js:137-145 | a record at the parent path, or none exactly when there is none |
| DeferredModel.ParentOfChild | src/assets/js/model-deferred.js:137-145 | the parent of a child of p is p's record, and a top-level node has none |
| DeferredModel.GetSiblings | src/assets/js/model-deferred.js:154-169 | the records sharing the node's parent path, sorted by path |
| DeferredModel.SiblingsAreParentsChildren | src/assets/js/model-deferred.js:154-169 | the siblings of a child of p are exactly p's children, the child included |
| DeferredModel.AddChild | src/assets/js/model-deferred.js:181-210 | appends the new record at slot numChild+1 under the target and raises the target's numChild by one; nothing else changes |
| DeferredModel.SetNumChild | src/assets/js/model-deferred.js:196-197 | the `numChild` update touches only the record under the key, and only its child count |
| DeferredModel.AddChildPlacesChild | src/assets/js/model-deferred.js:184-190 | the new record sits directly under the target, one level deeper, with numChild 0 |
| DeferredModel.AddChildKeepsShape | src/assets/js/model-deferred.js:181-210 | when the slot is free, the store stays well-formed, parent-closed, with distinct paths and keys, and gains exactly the new key |
| DeferredModel.AddChildKeepsCounts | src/assets/js/model-deferred.js:196-197 | if every numChild counted the record's children before, it still does after |
| DeferredModel.AddSibling | src/assets/js/model-deferred.js:220-257 | an error exactly for a position other than "left" or "right"; otherwise the new path and the siblings at or after it |
| DeferredModel.AddSiblingLeftShiftsTarget | src/assets/js/model-deferred.js:222-243 | "left" takes the target's path and the target is among the siblings shifted |
| DeferredModel.AddSiblingRightSkipsTarget | src/assets/js/model-deferred.js:222-243 | "right" takes the next slot and only siblings after the target are shifted |
| DeferredModel.Remove | src/assets/js/model-deferred.js:266-290 | one record per survivor of the subtree removal, in order, with the survivor's key and the path the sibling shift gives it |
| DeferredModel.RemoveDropsSubtree | src/assets/js/model-deferred.js:270-275 | the keys left are those of the records outside the node's subtree |
| DeferredModel.RemoveDecrementsParent | src/assets/js/model-deferred.js:286-289 | the parent survives with numChild one lower; every other record is as the subtree removal leaves it |
| DeferredModel.LowerCount | src/assets/js/model-deferred.js:286-289 | the parent found, if any, gets its child count lowered by one; no path or key changes and every other record is untouched |
| DeferredModel.RemoveTopLevel | src/assets/js/model-deferred.js:286-289 | removing a top-level node writes no count |
| StoreApi.IsRoot | src/assets/js/api.js:120-122 | where the stored depth agrees with the path, a node is a root exactly when its path is one segment long |
| StoreApi.ParentPathOf | src/api/v1/api.js:219-236 | null exactly for a root (depth 1), otherwise the path without its last segment |
| StoreApi.StartsWithIsPrefix | src/assets/libs/gcci-model/api.js:110-112 | the `substr` prefix test holds exactly when the node's path is a prefix |
| StoreApi.ParseGuarded | src/api/v1/api.js:258-270 | a null snapshot parses to nothing; otherwise one entry per key carrying that key |
| StoreApi.GetChildren | src/api/v1/api.js:117-133 | exactly the records of depth d+1 whose path starts with the node's, sorted by path |
| StoreApi.GetDescendants | src/assets/libs/gcci-model/api.js:130-146 | exactly the records of depth ≥ d+1 whose path starts with the node's, sorted by path |
| StoreApi.GetSiblings | src/assets/js/api.js:95-111 | exactly the records of the node's depth with its parent path, sorted by path |
| StoreApi.GetParent | src/api/v1/api.js:94-107 | null exactly for a root; otherwise the record at the parent path, or no answer when there is none |
| StoreApi.QueriesNest | src/assets/libs/gcci-model/api.js:105-171 | children are descendants, a node is never its own descendant, and a stored node is its own sibling |
| StoreApi.ChildrenMatchPaths | src/api/v1/api.js:117-158 | where depths agree with paths, the depth-based filters find the records one segment below and strictly below |
| StoreApi.ReplyUnguarded | src/assets/js/api.js:145-155 | with no guard on `_parse`, a depth query that matched nothing never settles; otherwise the filtered answer is delivered |
| StoreApi.GetChildrenUnguarded | src/assets/js/api.js:59-75 | no reply exactly when no record has depth d+1; otherwise the same children as the guarded copies |
| StoreApi.GetDescendantsUnguarded | src/assets/js/api.js:77-93 | no reply exactly when no record is deeper than d; otherwise the same descendants as the guarded copies |
| StoreApi.GetSiblingsUnguarded | src/assets/js/api.js:95-111 | no reply exactly when no record has depth d; otherwise the same siblings as the guarded copies |
| StoreApi.UnguardedRepliesMatchPaths | src/assets/js/api.js:59-111 | where depths agree with paths, children are answered exactly when some record is one segment longer than the node, descendants exactly when some record is longer, and a stored node always gets its siblings |
| StoreApi.SiblingsMatchPaths | src/assets/libs/gcci-model/api.js:155-171 | where depths agree with paths, the siblings are the records with the node's parent path |
| StoreApi.ParentOfChild | src/assets/js/api.js:44-57 | the parent of a child of p is p's record |
| ApiV1.NodeIndex | src/api/v1/api.js:207-209 | a well-formed path has an index in 0..9999 that rebuilds the path under its parent; any other path has none |
| ApiV1.NodeIndexOfSlot | src/api/v1/api.js:207-209 | a node written into slot i reports index i |
| ApiV1.IsSiblingOf | src/api/v1/api.js:246-248 | two roots are always siblings, whatever their paths; otherwise siblings are both non-roots whose parent paths agree, and two such non-roots are siblings |
| ApiV1.IsSiblingOfEquivalence | src/api/v1/api.js:246-248 | `_isSiblingOf` is reflexive, symmetric and transitive |
| ApiV1.IsSiblingOfMatchesPaths | src/api/v1/api.js:246-248 | where depths agree with paths, two nodes are siblings exactly when they have equal length and the same parent path |
| ApiV1.FilterKeepsSorted | src/api/v1/api.js:184-191 | filtering a path-sorted sibling list keeps it sorted |
| ApiV1.GetSidedSiblings | src/api/v1/api.js:169-198 | "left" keeps siblings with a lower index, "right" those with a higher one, with `inclSelf` also the equal index; any other side gives all siblings; always sorted |
| ApiV1.SidesAndSelf | src/api/v1/api.js:184-191 | without `inclSelf` neither side holds the node, and with it both sides do |
| ApiV1.SidesSplitSiblings | src/api/v1/api.js:184-191 | with distinct paths, each sibling other than the node is on exactly one side |
| ApiV1.InclSelfAddsOnlySelf | src/api/v1/api.js:185-189 | `inclSelf` adds the node and nothing else to a side |

## Left out

- The store itself is not modelled. Firebase queries, `once`/`on` listeners, jQuery `Deferred` promises and the write acknowledgements are all out. Each query is a pure filter over the record sequence, and each mutation maps the store before the call to the store after all its writes.
- Write ordering and interleaving between the asynchronous writes are out. The code sends them unsequenced. The model reads everything from the store before the call and applies the writes in program order, with the later write winning.
- The `on("child_added")` listeners in the deferred `remove` and `updatePath` are out. They stay registered and would fire again on later additions. The model lets them act once, on the records present.
- `getNodeRef`, the constructor, `init` and the loading of the cached list are out. The loading is modelled only as the `ready` flag that `checkReady` tests.
- The cached model assumes one cached record per key. `init` (`src/assets/js/model.js:41-56`) appends the whole snapshot on every `value` event and never clears the list, so after a second event every key is cached twice and the queries list each record twice. The model's list holds the records of one snapshot; `CachedModel.Kept` deletes by key, so it drops every cached copy of a deleted key.
- The cached model assumes that `this.nodes` does not change during a call. In the source, the `value` listener that `init` registers (`src/assets/js/model.js:41-56`) stays active, and a write of the call can fire it before the call's next read, appending fresh copies of records to `this.nodes` mid-call. A later `getDescendants` or `getSiblings` of the same call can then see those copies: with siblings s1 (with child c) and s2, inserting "first" moves s1 to slot 2, a copy of c appears under slot 2, and the later `updatePath` of s2 carries that copy along. The model ignores such mid-call copies and computes every write from the list as it was when the call began.
- The cached model's writes are modelled as landing on the record under the key they name. As written, `getRefById` (`src/assets/js/model.js:84-86`) returns the `ref()` of a query, which is the store root: every `remove()` and `update({path})` of `remove`, `updatePath` and `move` would hit the root instead (see Findings). `CachedRefs` models this for the deletions of `remove`; for the path updates it is not modelled, since on the root they only set a `path` field and rewrite no record.
- The API's `getNodeById`, `getNodeByPath` and `getTree`, and `getNode` of `src/assets/js/api.js`, are out. They are single store lookups or a parse followed by a sort, and `Nodes.Parse` and `Nodes.SortByPath` model those.
- The level list in `src/api/v1/api.js:10` is a constant the engine never reads.
- `localeCompare` is modelled as ordinal order on characters. For paths of ASCII digits the two agree.
- `parseInt` is modelled on well-formed segments only. On a malformed path the version 1 index is `None`, which behaves like `NaN`: the one-sided filters drop such a sibling.
- The unfinished branches are modelled as their surroundings show they were meant:
  - `src/assets/js/model.js:224` calls `calcPathAppend` with one argument. It is modelled as the parent path plus the next slot.
  - `src/assets/js/model.js:305` uses `newNodePath`. It is modelled as `newPath`.
  - `src/assets/js/model.js:335` calls `getDescendants` without `this`. It is modelled as `this.getDescendants`. As written, the call throws a `ReferenceError` before `updatePath` writes anything, so `move` writes nothing, and `addSibling` and `remove` stop at their first sibling shift.
  - The stub at `src/assets/js/model-deferred.js:236-253` only logs. Only its position logic and the set of siblings it would shift are modelled.
- The `_parse` of `src/assets/js/api.js:145-155` has no null guard. The model gives its three list queries the reply `NeverSettles` when the depth query matches nothing (`StoreApi.GetChildrenUnguarded` and its siblings). The other two API copies guard, and `StoreApi.GetChildren`, `GetDescendants` and `GetSiblings` model those.
- The deferred `parse` (`src/assets/js/model-deferred.js:385-395`) has no null guard either. `Nodes.Parse` models a non-null snapshot value, and `DeferredModel.GetTree` returns `None` for an empty store. The deferred `getChildren`, `getDescendants` and `getSiblings` would never settle when their range query finds nothing. That query starts at the node's own path (its parent's path for siblings), so a stored node is always in range; it finds nothing only for a node that is not stored and sorts after every record, where the model answers with no nodes.
- The deferred `move` (`src/assets/js/model-deferred.js:300-335`) is out. It follows the cached `move` but chains promises around the undefined `newNodePath`, so no behaviour of its own can be modelled.
- The commented-out deferred `dfs` (`src/assets/js/model-deferred.js:359-379`) is out.
- `model.js` records carry no `depth` or `numChild` in the store. The model keeps both fields, and `updatePath` sets `depth` to match the path, so the two models share one record type.
- CachedMove.MoveRecordAsWritten: its contract states only that a record keeps its key, child count and payload. Where a record lands under the writes as written is shown by the counterexample lemmas on `CachedMove.MoveAsWritten`, not stated for every input.
- CachedMove.Move: the model does not prove that a move keeps paths distinct. Only landing, subtree carrying and frame lemmas are proved.
- DeferredModel.Remove: the model does not prove that removal keeps every `numChild` equal to the number of children. Only the parent's decrement and the frame are proved.
- DeferredModel.Remove: a shifted record keeps its stored `depth`, while the deferred `updatePath` (`src/assets/js/model-deferred.js:346-349`) writes `depth = getDepth(path)`. The two agree for every record whose stored depth matches its path, because a shift keeps the path's length (`StoreEdit.ShiftNodeIsUpdatePath` states the shift as that `updatePath`); on a record whose depth disagrees, the model does not promise the depth the source would write.
- DeferredModel.AddChildKeepsCounts: this assumes that the slot `numChild + 1` is free, which a consistent store guarantees. The source does not check it.
- PathCodec.GetPathIndex: only the range 0..9999 is stated. The segment round trip is in `SegmentRoundTrip` and `ParentJoin`.
- The user interface, Angular wiring and build files are out: `tree.js`, `main.js`, `node-editor.js`, `config.js`, `service.js`, `controller.js`, `gulpfile.js` and `server.js`.

## Findings

| source | as written | input that shows it | evidently intended | confidence | as-written member | corrected member |
|---|---|---|---|---|---|---|
| src/assets/js/model.js:296-316 | (with lines 305 and 335 read as repaired, and with `this.nodes` taken as unchanged during the call; as written, `updatePath` throws at line 335 before its first write, so `move` writes nothing) the "child" destination is computed from the target's path before the move, then the shift of the node's old siblings renames the target | move the node at slot i into its next sibling at slot i+1 | the node ends up under the target | plausible, not executed | CachedMove.MoveIntoLaterSiblingOrphans | CachedMove.MoveIntoLaterSiblingLandsUnder |
| src/assets/js/model.js:300-316 | (with lines 305 and 335 read as repaired, and with `this.nodes` taken as unchanged during the call; as written, `updatePath` throws at line 335 before its first write, so `move` writes nothing) on a same-parent "left" move the shift at the target also moves the node, and the origin shift then runs over the old slots | move the node at slot i+1 left of its sibling at slot i | the node takes slot i and the sibling slot i+1, with no gap | plausible, not executed | CachedMove.MoveLeftOfPreviousSiblingLeavesGap | CachedMove.MoveLeftLandsBeforeTarget |
| src/assets/js/model.js:288-298 | only descendants are refused as targets, so a node can be moved into itself (with lines 305 and 335 read as repaired; as written, `updatePath` throws at line 335 before its first write, so `move` writes nothing) | a single node moved into itself as a child | refuse the move like one into a descendant | plausible, not executed | CachedMove.MoveOntoItselfOrphans | CachedMove.Move |
| src/assets/js/model.js:295-316 | (with lines 305 and 335 read as repaired, and with `this.nodes` taken as unchanged during the call; as written, `updatePath` throws at line 335 before its first write, so `move` writes nothing) an unknown position inserts nothing but still shifts the old siblings | a node at slot i with a sibling at slot i+1, moved with position "up" | refuse any position other than child, left or right | plausible, not executed | CachedMove.MoveUnknownPositionCollides | CachedMove.Move |
| src/assets/js/model-deferred.js:92-98 | children are the records at or after the node in path order with depth + 1, with no prefix check | a store 0001, 0002, 00020001: the first node's children include 00020001 | only records whose parent path is the node's path | not executed | DeferredModel.AsWrittenListsNephew | DeferredModel.ChildrenByParentPath |
| src/assets/js/model.js:84-86 | `getRefById` returns the `ref()` of the query, which is the store root, so each `remove()` in `remove` (lines 261-264, which run before any `updatePath`) deletes every record; with line 335 repaired, each path update would set a field on the root, and as written `updatePath` throws at line 335 before writing | any store with a record outside the removed node's subtree | the reference of the record under the key | not executed | CachedRefs.DeletesAtRootLoseKeptRecord | CachedRefs.DeletesByKeyAreKept |
