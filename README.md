# Graph store reconciliation (gojs-react minimal hooks example)

This project models the state bookkeeping of the example application's single
React component (`src/App.js`). The component keeps the diagram's nodes
(`key`, `text`, `color`) and links (`key`, `from`, `to`) as two ordered
arrays. It also keeps one key -> position index per array and the
`skipsDiagramUpdate` flag. When the GoJS diagram reports a change batch,
`handleModelChange` folds it into new arrays.

The model's parts:

- `Records`: the keyed records (`Keyed<P>` with `Node = Keyed<NodeData>` and
  `Link = Keyed<LinkData>`), the six-list `ChangeSet`, and the seed graph.
  An absent list is `None`; a present list, even an empty one, is `Some`.
  This matches the source's truthiness tests on the lists.
- `KeyIndex`: when an index agrees with an array (`IndexConsistent`). It
  agrees when its domain is exactly the array's keys and each key maps to the
  last position holding it, so a later duplicate wins. `IndexOf` is what a
  front-to-back rebuild produces. `BuildIndex` is that rebuild as a loop.
- `Reconciliation`: the per-collection passes in the order modify -> insert
  -> remove. Each pass is a loop method (`ModifyStep`, `InsertStep`,
  `RemoveStep`) proved equal to a left fold over the batch list
  (`ModifyAll`, `InsertAll`, `Without`). Lemmas about the folds give the
  closed forms and the invariants. `Reconcile` and `Changed` describe one
  whole collection: the new array, the new index and the change flag.
  `ReconcileCollection` runs the three passes and is proved against them.
  The node block and the link block of the source are the same code, so one
  generic routine serves both.
- `Store`: the class `GraphStore` with fields `nodes`, `links`, `nodeIdx`,
  `linkIdx` and `skips`. `HandleModelChange` runs the node collection first,
  then the link collection, with one shared change flag. It always stores
  the new indices, and it publishes the arrays and sets `skips` only when the
  flag is true.
- `Scenarios`: small clients of the store and of `Reconcile`. One removes
  node 2 from the seed graph and then modifies node 3, which is found at its
  new position 1. Two lemmas cover inserting into an empty collection with
  and without a record.

Two behaviours of the code are easy to misread, and the model follows the code:

- The index is rebuilt whenever a removed list is present, even when no
  element was dropped.
- Only a `null` batch is ignored. An `undefined` batch is not a no-op in the
  code, because the property accesses would throw.

## Model

| member | source | states |
|---|---|---|
| KeyIndex.IndexOf | src/App.js:29-41 | the rebuilt index agrees with the array: its domain is the array's keys and each key maps to its last position |
| KeyIndex.BuildIndex | src/App.js:29-41 | the clear-and-refill loop yields exactly `IndexOf(s)`, so it agrees with `s` (later duplicates win) |
| KeyIndex.ConsistentIndexUnique | src/App.js:24-41 | at most one index agrees with an array, so the index is a pure cache of the array |
| KeyIndex.UniqueIndexAt | src/App.js:29-41 | with unique keys, the index sends each element's key to that element's position |
| KeyIndex.AppendConsistent | src/App.js:77-78 | pushing a record and recording its key at the old length keeps the index consistent |
| KeyIndex.UniqueAppend | src/App.js:72-81 | appending keeps keys unique exactly when the appended key was not present |
| KeyIndex.SameKeysConsistent | src/App.js:62-71 | overwriting elements with records of the same keys keeps the index consistent and keys unique |
| Reconciliation.LatestIsLast | src/App.js:56-64 | the scratch map holds every key of the modified list, each mapped to the last record carrying it |
| Reconciliation.LatestKeyedBy | src/App.js:64 | every scratch-map entry is a record whose key is the entry's key |
| Reconciliation.ModifyAllAt | src/App.js:62-71 | over a consistent index the modify pass keeps the length; a position changes only to the last record for its key when the index points at it, and an unindexed record changes nothing |
| Reconciliation.ModifyKeepsKeys | src/App.js:62-71 | the modify pass keeps every key at its position, so the index stays consistent and unique keys stay unique |
| Reconciliation.ModifyNoMatch | src/App.js:65-69 | a modify pass whose keys are all unindexed leaves the array untouched |
| Reconciliation.ModifyStep | src/App.js:62-71 | the modify loop computes the modify fold and the scratch map; its flag is set iff some record's key was indexed at a position >= 0 |
| Reconciliation.InsertAllGrows | src/App.js:72-81 | the insert pass only appends and never unindexes a key; it grows iff some listed key had a record and was not indexed on entry, and otherwise changes nothing |
| Reconciliation.InsertAllConsistent | src/App.js:72-81 | the insert pass keeps the index consistent and unique keys unique; every listed key with a record ends up indexed |
| Reconciliation.InsertAllAppended | src/App.js:72-81 | each appended element is the scratch-map record of a listed key that was not indexed on entry, and the index records the position where it landed |
| Reconciliation.InsertAppendsOnce | src/App.js:72-81 | a key listed several times is appended at most once |
| Reconciliation.InsertStep | src/App.js:72-81 | the insert loop computes the insert fold; its flag is set iff some listed key had a record and was not indexed on entry |
| Reconciliation.WithoutMembers | src/App.js:84-90 | an element survives removal iff it was present and its key is not listed |
| Reconciliation.WithoutAppend | src/App.js:84-90 | removal distributes over concatenation, so survivors keep their relative order |
| Reconciliation.WithoutShrinks | src/App.js:84-90 | removal never lengthens the array; it is the identity iff no key is listed, and it shortens the array otherwise |
| Reconciliation.WithoutUnique | src/App.js:84-90 | removal keeps keys unique |
| Reconciliation.RemoveStep | src/App.js:83-92 | the filter loop computes the removal; its flag is set iff some element's key was listed |
| Reconciliation.ReconcileValid | src/App.js:61-124 | after a batch the index still agrees with the array, and unique keys stay unique |
| Reconciliation.ReconcileUnchanged | src/App.js:59-124 | when the change flag stays false, the batch returns the same array and the same index |
| Reconciliation.ReconcileRemovedAbsent | src/App.js:72-92 | no listed removed key is in the result or its index, including a key inserted by the same batch |
| Reconciliation.ReconcileCollection | src/App.js:61-92 | the three passes in the order modify -> insert -> remove (with an index rebuild whenever a removed list is present) compute `Reconcile`, and the flag is `Changed` |
| Store.GraphStore.constructor | src/App.js:8-27 | the store starts with the seed nodes and links, both indexed consistently, keys unique, skip flag false |
| Store.GraphStore.RefreshNodeIndex | src/App.js:29-34 | the node index is rebuilt from the given array and agrees with it; nothing else changes |
| Store.GraphStore.RefreshLinkIndex | src/App.js:36-41 | the link index is rebuilt from the given array and agrees with it; nothing else changes |
| Store.GraphStore.HandleModelChange | src/App.js:43-131 | a null batch changes nothing. Otherwise nodes are reconciled, then links. Both indices take their new values. The arrays are replaced and the skip flag set only when some node or link pass changed something; otherwise the whole state stays as it was. Consistency is kept, and keys that were unique stay unique |
| Scenarios.InsertWithoutRecordDropped | src/App.js:72-81 | an inserted key without a record in the batch is dropped and the flag stays false |
| Scenarios.ModifyThenInsertAppends | src/App.js:62-81 | a record supplied as modified and listed as inserted is appended to an empty collection at position 0 |

## Left out

- `initDiagram` (GoJS templates, undo manager) and the JSX rendering: these are configuration calls into the diagram library and contain no logic of their own.
- React's `useState` and re-rendering: the setters are field assignments. The per-render recreation of both index maps is the precondition `Valid()` of `HandleModelChange`.
- Store.GraphStore.HandleModelChange: two callbacks arriving before React re-renders would see stale arrays beside already-updated indices. This interleaving is framework scheduling and is excluded by the `Valid()` precondition.
- The reference identity that `slice()` keeps for unmodified elements: sequences are values here, so only content equalities are stated.
- An `undefined` or non-object batch: the code checks only for `null` and would throw on such a batch.
- Whether link endpoints name existing nodes: the code never checks this, so it is not stated.
- Keys are mathematical integers. JavaScript number oddities such as `NaN` keys, and the `Map`'s same-value-zero key comparison, are not modelled.
- The truthiness test on a scratch-map record (`nd &&`): a record is always an object, so the test is modelled as the key being present.
