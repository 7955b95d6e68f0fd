# Whiteboard board store, modelled in Dafny

This project models the server-side board store of a shared whiteboard: the
`BoardData` class of `server/boardData.js`. A board is one mutable map from
element id to element. Clients create elements (`set`), patch them
(`update`), append points to a line being drawn (`addChild`), delete them
(`delete`, `clearAll`) and read them back (`get`, `getAll`). The store
validates incoming elements against the board's policy (`validate`), bounds
the number of elements (`clean`) and rebuilds a board from what the database
stored (`load`).

Layout:

- `elements.dfy` (module `Elements`): the element record, field presence and the configuration.
- `validator.dfy` (module `Validator`): the policy (`Conforms`), the normalisation `validate` performs (`Normalize`), and their properties.
- `ordering.dfy` (module `Ordering`): JavaScript's `<` on strings, and the stable sort by key used by `clean`.
- `operations.dfy` (module `Operations`): the persistence events, and what `set`, `update`, `addChild`, `clean` and `getAll` do, as functions with lemmas.
- `snapshot.dfy` (module `Snapshot`): how `load` merges a snapshot with the log rows.
- `board.dfy` (module `Board`): the class `BoardData`. Its `board` field is a `map`, and a ghost `log` records every write sent to the database. Each method is proved against the functions above.

Modelling choices:

- **Elements.** An element is a record.
  - `size`, `x`, `y`, `opacity`, `_children` and `time` are typed fields.
  - Every other field is an opaque payload entry, keyed by field name.
  - `Field<T>` records whether the object owns a field (`hasOwnProperty`).
  - A raw numeric field holds the number that the validator's coercion reads from it (`parseInt` for `size`, `parseFloat` for `x`/`y`, numeric conversion for `opacity`). `None` stands for NaN.
- **Configuration.** `MAX_ITEM_COUNT`, `MAX_CHILDREN`, `MAX_BOARD_SIZE_X` and `MAX_BOARD_SIZE_Y` are a `Config` value, fixed when the store is built. Every property is proved for every configuration, except two concrete scenarios: `SetClampsScenario` needs a board height of at most 99999, and `CleanAsWrittenEvictsNewer` is stated for a cap of 1.
- **Parameters.** `Date.now()` is an argument of `Set`. The database's answers to `getBoard` and `getBoardData` are arguments of `Load`.
- **Persistence.** The `db.*` calls of the store become appends to the ghost `log`: `AddData`, `UpdateData`, `DeleteData` and `DeleteAllData`.
- **Numbers.** Numbers are mathematical reals. `Math.round(10 * v) / 10` is `Floor(10 * v + 1/2) / 10`. `time | 0` is written out as a 32-bit signed wrap-around (`ToInt32`).

Behaviour of the code that the model keeps as it is:

- `validate` cuts `_children` to `MAX_CHILDREN` first, then validates the children that remain.
- An element with only `x` also gets `y = 0`, and the other way round.
- `update` neither stamps `time` nor validates, so a patch can store a size of 200 (`MergeMayBreakPolicy`).
- `update` of a missing element stores the stripped patch itself, without validation or a time stamp. With `create` set and an element already stored, it also stores the stripped patch, not the merged element.
- `clean` removes elements from memory only and sends nothing to the database.
- `load` ignores the log when there is no snapshot, and skips rows without `data`.

One behaviour is recorded in the Findings table below: `clean` sorts by `time | 0`, which wraps for real time stamps. The class's `Clean` models this code as written. A corrected eviction by the stamped time itself is defined beside it (`Operations.EvictedOldest`), with its intended property proved.

## Model

| member | source | states |
|---|---|---|
| `Validator.ClampInt` | server/boardData.js:208 | `Math.min(Math.max(v, lo), hi)` lies in [lo, hi], is `v` inside the range and the nearer bound outside it |
| `Validator.ClampReal` | server/boardData.js:212 | the same clamp on numbers, used for x, y and opacity |
| `Validator.RoundTenth` | server/boardData.js:213 | `Math.round(10 * v) / 10` is a whole number of tenths within 0.05 of `v`, and leaves such a number unchanged |
| `Validator.RoundTenthInRange` | server/boardData.js:212-213 | rounding a clamped coordinate keeps it inside [0, max] for a whole-number board size |
| `Validator.NormalizedSize` | server/boardData.js:206-209 | an element owns `size` after validation exactly when it did before; the value is an integer in [1, 50]; NaN and 0 become 1; other integers are clamped |
| `Validator.NormalizedPosition` | server/boardData.js:210-217 | if either coordinate is present, both are present afterwards, each inside [0, max] and on the tenth grid; a missing or unparseable coordinate becomes 0; each lies within 0.05 of the clamped input; an element with neither gains neither |
| `Validator.NormalizedOpacity` | server/boardData.js:218-221 | opacity is clamped to [0.1, 1]; it is deleted when NaN or when the result is 1; an element without opacity gains none |
| `Validator.NormalizedChildren` | server/boardData.js:222-228 | a non-array `_children` becomes `[]`; an array keeps exactly its first `min(length, MAX_CHILDREN)` entries in order, each validated; an element without children gains none |
| `Validator.NormalizeKeepsTimeAndPayload` | server/boardData.js:205-229 | validation leaves `time` and every payload field alone |
| `Validator.NormalizeConforms` | server/boardData.js:205-229 | every validated element follows the whole policy, recursively through its children |
| `Validator.ConformingIsFixpoint` | server/boardData.js:205-229 | validating an element that already follows the policy changes nothing |
| `Validator.NormalizeIdempotent` | server/boardData.js:205-229 | validating twice equals validating once |
| `Board.BoardData.Validate` | server/boardData.js:205-229 | the in-place field rewriting and the loop over the children compute exactly `Normalize` |
| `Board.BoardData.constructor` | server/boardData.js:38-43 | a new store has the given name, an empty board and has written nothing |
| `Operations.SetStoresValidated` | server/boardData.js:46-52 | the element `set` stores carries `time = now`, follows the policy and keeps its payload |
| `Operations.SetClampsScenario` | server/boardData.js:46-52 | `{size: 200, x: -5, y: 99999}` is stored with size 50, x 0 and y at the board's edge |
| `Board.BoardData.Set` | server/boardData.js:46-52 | the board becomes the old board with the validated, stamped element at `id`; every other id is unchanged; exactly one `AddData(id, element)` is logged |
| `Operations.AppendToConformingParent` | server/boardData.js:76-86 | on a validated parent, the child is validated and appended while there is room, and dropped once the parent holds `MAX_CHILDREN` children; every other field is kept |
| `Operations.AppendAllKeepsArrivalPrefix` | server/boardData.js:76-86 | repeated `addChild` on a validated parent keeps the first `MAX_CHILDREN` of (old children, new children), in arrival order |
| `Operations.AppendAllKeepsFields` | server/boardData.js:76-86 | repeated `addChild` on a validated parent keeps it validated and leaves every field other than `_children` as it was |
| `Board.BoardData.AddChild` | server/boardData.js:76-86 | returns true exactly when `parentId` is stored; on false, neither the board nor the log changes; on true, only `parentId` changes, to the appended and re-validated parent, and one `UpdateData` is logged |
| `Operations.Strip` | server/boardData.js:94-95 | the patch loses its `type` and `tool` fields and keeps every other field |
| `Operations.MergeOverwrites` | server/boardData.js:97-101 | a field the patch has overwrites the stored field; a field it lacks is left as it was; the payload keys are the union |
| `Operations.MergeComposes` | server/boardData.js:97-101 | two successive merges equal one merge of the second patch over the first |
| `Operations.MergeIdempotent` | server/boardData.js:97-101 | merging the same patch again changes nothing |
| `Operations.MergeMayBreakPolicy` | server/boardData.js:93-109 | a merged element is not validated and can break the policy |
| `Board.BoardData.Update` | server/boardData.js:93-109 | with the element missing or `create` set, the stripped patch is stored and `AddData` is logged; otherwise the merge is stored and `UpdateData(id, merged)` is logged; every other id is unchanged |
| `Board.BoardData.Delete` | server/boardData.js:114-118 | removes `id` and nothing else; with `id` absent the board is unchanged; `DeleteData(id)` is logged |
| `Board.BoardData.Get` | server/boardData.js:124-126 | returns the element stored at `id`, or nothing when no element is stored there; reads without changing anything |
| `Ordering.StringLessIrreflexive` | server/boardData.js:135 | no id sorts after itself under JavaScript string order |
| `Ordering.StringLessTransitive` | server/boardData.js:135 | JavaScript string order is transitive |
| `Ordering.StringLessTotal` | server/boardData.js:135 | two different ids are ordered one way, and never both ways |
| `Operations.SelectedExcludesAndNarrows` | server/boardData.js:135 | catching up from an id never returns that id's element; catching up from a later id selects a subset |
| `Board.BoardData.GetAll` | server/boardData.js:132-140 | returns as many elements as there are stored keys after `since` (every key when `since` is missing or empty); each such key's element is among the results, and each result is the element of such a key; the ghost `order` lists those keys once each, aligned with the results; changes nothing |
| `Board.KeysOf` | server/boardData.js:186 | `Object.keys` lists every key of the board exactly once |
| `Ordering.SortBy` | server/boardData.js:188-189 | the sort returns a permutation of the ids |
| `Ordering.SortByOrdered` | server/boardData.js:188-189 | the sorted ids are in ascending key order, and distinct ids stay distinct |
| `Operations.ToInt32` | server/boardData.js:189 | `t`'s 32-bit truncation (bitwise or with 0) lies in the signed 32-bit range, is congruent to `t` modulo 2^32, and is `t` when `t` is in range |
| `Operations.TimeKeyWraps` | server/boardData.js:189 | an element stamped at 2^31 sorts before one stamped at 2^31 - 1 |
| `Operations.EvictedIds` | server/boardData.js:187-190 | with more than `MAX_ITEM_COUNT` distinct ids and a positive `MAX_ITEM_COUNT`, exactly `length - MAX_ITEM_COUNT` of them are evicted, each once, whatever the sort key |
| `Operations.EvictedAreOldest` | server/boardData.js:188-190 | every evicted id has a key no greater than the key of any id that is kept |
| `Operations.EvictionKeepsLargestKeys` | server/boardData.js:184-193 | deleting the evicted ids leaves exactly `MAX_ITEM_COUNT` elements above the cap, each with a key at least that of each evicted one; at or below the cap, or with the cap 0, the board is untouched |
| `Operations.EvictionKeepsLargestTimeKeys` | server/boardData.js:184-193 | `clean` as written: the same, with the key `time` or-ed with 0 (`ToInt32`) |
| `Operations.CleanAsWrittenEvictsNewer` | server/boardData.js:183-193 | with the cap 1, elements stamped 2^31 - 1 and 2^31: `clean` as written evicts the newer one and keeps the older |
| `Operations.EvictionKeepsNewest` | server/boardData.js:183-193 | eviction by stamped time: exactly `MAX_ITEM_COUNT` elements remain above the cap, none stamped earlier than an evicted one; at or below the cap, or with the cap 0, the board is untouched |
| `Board.BoardData.Clean` | server/boardData.js:184-193 | the loop of deletions leaves the board as `EvictionKeepsLargestTimeKeys` describes: above the cap exactly `MAX_ITEM_COUNT` elements remain, each with a `ToInt32(time)` key at least that of each evicted one; at or below the cap, or with the cap 0, the board is untouched; retained elements are unchanged; nothing is logged |
| `Board.BoardData.ClearAll` | server/boardData.js:196-199 | the board becomes empty and `DeleteAllData` is logged |
| `Snapshot.ValidateAll` | server/boardData.js:249-251 | every stored element is validated and no key is added or dropped |
| `Snapshot.OverlayKeys` | server/boardData.js:243-247 | after the log rows are merged, an id is on the board exactly when the snapshot or some row with data supplies it |
| `Snapshot.OverlayLastRow` | server/boardData.js:243-247 | an id's element is that of the last row supplying it |
| `Snapshot.OverlayUnsupplied` | server/boardData.js:243-247 | an id no row supplies keeps the snapshot's element, or stays absent |
| `Snapshot.LoadWithoutSnapshot` | server/boardData.js:239-241 | without a snapshot the log is ignored and the board is empty |
| `Snapshot.LoadOverlaysLog` | server/boardData.js:239-252 | with a snapshot, the loaded board holds exactly the supplied ids, each with the validated last supply |
| `Snapshot.LoadedConforms` | server/boardData.js:234-255 | every element of a loaded board follows the policy |
| `Snapshot.ReloadRoundTrip` | server/boardData.js:234-255 | loading a snapshot of validated elements with no log rows gives the same board back |
| `Board.BoardData.Load` | server/boardData.js:234-255 | the two loops (merging the rows, then validating each element) build exactly `Reconstruct`, and nothing is logged |

## Findings

| source | as written | input that shows it | evidently intended | confidence | as-written member | corrected member |
|---|---|---|---|---|---|---|
| server/boardData.js:183-193 | `clean`, documented as removing old elements, sorts by `board[x].time` or-ed with 0, the stamp truncated to a signed 32-bit integer | `MAX_ITEM_COUNT = 1`; element `a` stamped 2147483647, element `b` stamped 2147483648: `b`'s key is -2147483648, so `b` is evicted and `a` is kept | evict the elements with the earliest stamped time | high; not executed | `Operations.CleanAsWrittenEvictsNewer`, with `Operations.EvictionKeepsLargestTimeKeys` and `Operations.TimeKeyWraps` | `Operations.EvictionKeepsNewest`, about `Operations.EvictedOldest` |

## Left out

- Database round-trips are not modelled: `updateBoard` (server/boardData.js:61-69) and `getImagesCount` (server/boardData.js:54-58). Their results live in a database that is not part of this model.
- `save`, `delaySave`, `addDataToBoard` and `updateBoardData` are thin wrappers around one database call each. They are modelled only as the event they append to the log.
- Asynchrony is not modelled. Persistence calls are fire-and-forget, and the order in which they complete is not captured.
- Unused state is not modelled: the empty `addUser`, the `users` set, `lastSaveDate`, the unused `parent` argument of `validate` and the unused `children` argument of `get`.
- String parsing is abstracted. `parseInt`, `parseFloat` and the numeric conversion of strings are represented by their results. A stored raw field therefore keeps its parsed number, not the original string.
- `time` holds the integral part of the raw numeric value. A non-numeric time is represented as 0, which is what `| 0` makes of it.
- IEEE double rounding is not modelled: numbers are exact reals.
- Board sizes are whole numbers. With a board size that is not a whole number of tenths, rounding could move a coordinate past the edge.
- `configuration.js` is not part of this model. The configuration values are parameters of the store.
- Object aliasing is not captured. The source stores and logs the caller's objects by reference, so a later in-place change can show through an earlier log entry. The model logs a value as it was when the call was made.
- Children that are not objects are not modelled: `null` makes `validate` throw, and a primitive is left alone. Every child is an element here.
- Ids are own keys of the board map only. In the source, `this.board` is a plain object, so a lookup also finds names inherited from `Object.prototype`. `get("constructor")` returns the `Object` function. `update("toString", d, false)` finds a function, skips the merge and logs that function with the board unchanged. `addChild("__proto__", c)` writes `_children` onto `Object.prototype` and returns true. `set("__proto__", d)` replaces the board's prototype instead of storing an element. The model treats all of these as ordinary ids.
- Payload field names are assumed distinct from the structural names (`size`, `x`, `y`, `opacity`, `_children`, `time`), from `hasOwnProperty` and from `__proto__`. `validate` calls the element's own `hasOwnProperty` (server/boardData.js:206, 210, 218, 222), so an element or child owning a field of that name makes it throw a TypeError. A patch field `__proto__` in `update` (server/boardData.js:98-100) runs the prototype setter instead of being copied; `Operations.Merge` copies it as a payload entry.
- `Board.BoardData.Validate`: does not model the TypeError thrown when the element or one of its kept children owns a `hasOwnProperty` field. The source then leaves the element partly rewritten in place, up to the field or child where it throws. The model always returns `Normalize` of the element.
- `Board.BoardData.Set`: does not model the throw for data owning a `hasOwnProperty` field. The source sets `time` on the caller's object, then `validate`, called at line 49, throws; nothing is stored or logged. The model stores the element and logs `AddData`.
- `Board.BoardData.AddChild`: does not model the throw when the stored parent or the new child owns a `hasOwnProperty` field. Such a parent can be stored by `update`, which does not validate. The source has already pushed the child into the stored array in place (line 79) when `validate` throws at line 82. It then logs nothing and returns nothing. The model returns true and logs `UpdateData`.
- `Board.BoardData.Load`: does not model the rejection of `load` when a snapshot element or log row owns a `hasOwnProperty` field: `validate` throws at line 250. Because `update` stores and persists a patch without validation (lines 103-105), one such message could leave a board that no longer loads. The model's `Load` always returns the reconstructed board.
- `Ordering.StringLess` compares characters by code point. JavaScript compares UTF-16 code units, and the two orders differ only outside the Basic Multilingual Plane.
- `Board.BoardData.GetAll`: does not state the iteration order of the results. JavaScript's order for integer-like keys first, then insertion order, is not modelled. The ghost `order` names the keys in the order used.
- `Board.BoardData.Clean`: does not state which of several elements with equal keys are evicted. That depends on the same key order.
- The client tools `client-data/tools/pencil/pencil.js` and `client-data/tools/document/document.js` are not part of this model. Their logic is browser event handling, DOM construction and canvas scaling.
