# Dictionary store model

This project is a Dafny model of the state container of a small
dictionary-management UI. The state is a list of dictionaries. Each
dictionary has an `id`, a `name` and a `rowMap` that maps "from" text to
"to" text. The store offers five actions: create dictionary, create row,
update row, delete row and delete dictionary. Each action validates its
payload and commits a mutation of the same name. The mutation validates
again and then changes the list.

Two variants are modelled:

- `Store` models the strict store in `src/store/index.ts`. It throws one of
  the seven error keys, or the engine's TypeError when a row call names an
  unknown id.
- `LegacyStore` models its lenient predecessor in `store/index.js`. Its
  row and delete actions (`store/index.js:137-177`) log a warning and leave
  the list alone when a field they test is blank, and its row mutations do
  the same for a missing row (`store/index.js:81-84`, 102-105). It differs
  in five more ways:
  - Its mutations do no blank checks of their own. CREATE_DICTIONARY with an
    empty id and a new name appends `{name, rowMap: {}}` with no id and no
    warning, where the strict store throws emptyDictionaryId
    (`store/index.js:31-42`, `src/store/index.ts:32-39`). With both id and
    name empty it does nothing and logs nothing, because the branches at
    `store/index.js:43-49` cannot be reached. CREATE_DICTIONARY_ROW and
    UPDATE_DICTIONARY_ROW on a known id write a row whose `from` or `to` is
    empty (`store/index.js:56`, 78), where the strict store throws
    invalidRowData (`src/store/index.ts:45`, 58 via 202).
  - It still throws duplicateDictionaryName on a duplicate name
    (`store/index.js:36-39`).
  - A row call on an unknown id still throws the same TypeError
    (`store/index.js:56`, 68 and 97).
  - It appends a dictionary with an empty name instead of rejecting it
    (`store/index.js:31-42`).
  - It has no duplicate-row check: creating an existing row silently
    overwrites it (`store/index.js:56`).

Every call is a pure function from the current list to
`Result<State, StoreError>`. The result is either the new list or the
error the call throws. All checks in the source run before the first
write, so a call that throws leaves the list as it was.

`Store.Dispatch`, `LegacyStore.Dispatch` and `Store.Run` are driver
functions that pick and sequence actions; they are not store functions, so
they have no row under "## Model".
`Store.Dispatch` and `LegacyStore.Dispatch` pick the action for a command.
`Store.Run` models a caller that dispatches a sequence of commands and
catches each thrown error, keeping the list unchanged for that call.

Modules:

- `Results`: `Option` and `Result`.
- `StoreErrors`: the seven keys of `src/interface-copyright/storeErrors.js`,
  plus `RuntimeTypeError` for the engine's TypeError.
- `DictionaryState`: the shared data model and the JavaScript primitives the
  store uses: `findIndex`, `find`, `splice`, and property reads.
- `Store` and `LegacyStore`: the two variants.
- `StoreLemmas`: invariants and scenarios of the strict store.
- `Variants`: how the two variants relate.
- `IntendedStore`: the strict store with its id guards corrected (see
  Findings).

The source has several quirks, and the model keeps them as written:

- `getDictionaryIndexById` returns `findIndex`. That is `-1` for a missing
  id, never `undefined`. So the `typeof index === "number"` and
  `index !== undefined` guards always pass.
- A row call on an unknown id reaches `dictionaryList[-1].rowMap`. It throws
  a TypeError, not `invalidDictionaryId`.
- Deleting an unknown id runs `splice(-1, 1)`. That removes the last
  dictionary, or nothing when the list is empty.
- The code itself shows that `invalidDictionaryId` was intended for an
  unknown id. The evidence is the
  `else { throw new Error(interfaceCopyright.invalidDictionaryId) }`
  branches at `src/store/index.ts:51-53`, 83-85 and 104-106, and the check
  at 207-208. None of them is ever reached. So the code throws a TypeError,
  and the model follows the code (`StoreLemmas.RowCallsAfterDeleteThrow`).

## Model

| member | source | states |
|---|---|---|
| DictionaryState.IndexById | src/store/index.ts:228-230 | the result is -1 exactly when no dictionary has the id; otherwise it is the first position holding the id |
| DictionaryState.FindByName | src/store/index.ts:184-186 | finds a dictionary exactly when some dictionary has the name, and returns the first one with that name |
| DictionaryState.DictionaryAt | src/store/index.ts:235 | reading `.rowMap` of the entry at an index succeeds exactly for indices inside the list; any other index, -1 included, is a TypeError |
| DictionaryState.RowTo | src/store/index.ts:235 | the value read for `rowMap[from]` is truthy exactly when the key is present with a non-empty value |
| DictionaryState.Rename | src/store/index.ts:70-79 | after an update the keys are the old keys without `prevFrom` plus `from`, `from` maps to `to`, and every other row keeps its value |
| DictionaryState.RelativeStart | src/store/index.ts:113 | splice's start index: a negative start counts back from the end and is clamped to the list bounds |
| DictionaryState.Splice1 | src/store/index.ts:113 | `splice(start, 1)` removes the element at the relative start if there is one, keeping the others in order; otherwise the list is unchanged |
| DictionaryState.SpliceById | src/store/index.ts:109-117 | the delete both variants share: a present id loses its first entry, the others kept in order; an unknown id loses the last entry, or nothing from an empty list |
| DictionaryState.IndexBySameIds | src/store/index.ts:228-230 | two lists with the same ids at the same positions give the same `findIndex` result and agree on whether the id exists |
| Store.CheckDictionaryNameConsistency | src/store/index.ts:182-195 | an empty name is rejected with emptyDictionaryName; a name some dictionary already has is rejected with duplicateDictionaryName; every other name passes |
| Store.GetDictionaryRowToByRowFrom | src/store/index.ts:232-236 | throws a TypeError exactly when the id is missing; otherwise the value read is the target dictionary's `rowMap[from]` when that key is present, and it is truthy exactly when the target has a non-empty row at `from` |
| Store.CheckDictionaryRowDataConsistency | src/store/index.ts:197-226 | the checks run in this order: a blank id, from or to gives invalidRowData; an update that keeps its key passes without the row lookup of lines 214-218; an unknown id gives a TypeError; a taken `from` gives duplicateRowData. invalidDictionaryId never occurs |
| Store.CreateDictionaryMutation | src/store/index.ts:30-41 | an empty id gives emptyDictionaryId, then the name errors apply; success happens exactly when id and name are non-empty and the name is new, and appends `{id, name, {}}` after the untouched old entries |
| Store.CreateDictionaryRowMutation | src/store/index.ts:43-54 | fails with invalidRowData, then TypeError for an unknown id, then duplicateRowData; on success only the target's row map changes, and it gains `from -> to` |
| Store.UpdateDictionaryRowMutation | src/store/index.ts:56-86 | invalidRowData, TypeError for an unknown id, duplicateRowData for a taken new key, invalidDictionaryRowId for a missing `prevFrom`; success happens exactly when none of these apply, and only the target's row map is renamed or overwritten |
| Store.DeleteDictionaryRowMutation | src/store/index.ts:88-107 | TypeError for an unknown id, invalidDictionaryRowId for a missing row; success happens exactly when the row exists and removes only that key of the target |
| Store.DeleteDictionaryMutation | src/store/index.ts:109-117 | never throws; a present id removes its first entry and keeps the others in order; an unknown id removes the last entry, or nothing from an empty list |
| Store.CreateDictionaryAction | src/store/index.ts:121-137 | the name checks come before the id check; with a non-empty generated id it equals the mutation; success appends exactly one dictionary at the end |
| Store.CreateDictionaryRowAction | src/store/index.ts:139-145 | running the check in the action and then in the mutation gives the same outcome as the mutation alone |
| Store.UpdateDictionaryRowAction | src/store/index.ts:147-153 | running the update check in the action and then in the mutation gives the same outcome as the mutation alone |
| Store.DeleteDictionaryRowAction | src/store/index.ts:155-166 | an empty id gives invalidDictionaryId before an empty `from` gives invalidDictionaryRowId; otherwise it equals the mutation |
| Store.DeleteDictionaryAction | src/store/index.ts:168-176 | an empty id gives invalidDictionaryId; otherwise it equals the mutation |
| LegacyStore.CreateDictionaryMutation | store/index.js:29-50 | with neither name nor id it does nothing; otherwise a duplicate name throws and a new name is appended; duplicateDictionaryName is the only error, so lines 43-49 are unreachable |
| LegacyStore.CreateDictionaryRowMutation | store/index.js:52-60 | an unknown id is a TypeError; otherwise it sets `from -> to` in the target with no duplicate check, overwriting any existing row, and touches nothing else |
| LegacyStore.UpdateDictionaryRowMutation | store/index.js:62-89 | an unknown id is a TypeError; a missing `prevFrom` leaves the list unchanged; otherwise only the target's rows are renamed or overwritten, as in the strict store |
| LegacyStore.DeleteDictionaryRowMutation | store/index.js:91-110 | an unknown id is a TypeError; an absent row leaves the list unchanged; a present row is removed and nothing else changes |
| LegacyStore.DeleteDictionaryMutation | store/index.js:112-120 | never throws; a present id removes its first entry; an unknown id removes the last entry, or nothing from an empty list |
| LegacyStore.CreateDictionaryAction | store/index.js:124-135 | with a generated id, an empty name is accepted; only a duplicate name fails, and success appends one dictionary |
| LegacyStore.CreateDictionaryRowAction | store/index.js:137-146 | a blank id, from or to leaves the list unchanged; otherwise it equals the mutation |
| LegacyStore.UpdateDictionaryRowAction | store/index.js:148-157 | a blank id, from or to leaves the list unchanged; otherwise it equals the mutation |
| LegacyStore.DeleteDictionaryRowAction | store/index.js:159-169 | a blank id or from leaves the list unchanged; otherwise it equals the mutation |
| LegacyStore.DeleteDictionaryAction | store/index.js:171-177 | a blank id leaves the list unchanged; otherwise it equals the mutation |
| StoreLemmas.AppendKeepsWellFormed | src/store/index.ts:32-36 | appending a dictionary with a non-empty id, a new non-empty name and no rows keeps the invariant |
| StoreLemmas.RemoveKeepsWellFormed | src/store/index.ts:113 | removing one entry keeps names distinct and rows filled |
| StoreLemmas.DispatchKeepsWellFormed | src/store/index.ts:120-176 | every successful strict action keeps names distinct and non-empty, ids non-empty, and every row's from and to non-empty |
| StoreLemmas.RunKeepsWellFormed | src/store/index.ts:120-176 | the invariant holds after any sequence of actions, with thrown errors caught, so no two dictionaries ever share a name |
| StoreLemmas.DispatchKeepsIdsDistinct | src/store/index.ts:131-136 | ids stay pairwise distinct across an action provided the generated id is fresh; the store itself never checks this |
| StoreLemmas.DuplicateNameRejected | src/store/index.ts:182-191 | creating a dictionary a second time under the same name fails with duplicateDictionaryName |
| StoreLemmas.RowTruthinessIsPresence | src/store/index.ts:202-220 | on a well-formed list, the truthiness test on `rowMap[from]` holds exactly when the key is present |
| StoreLemmas.UpdateRowOutcomes | src/store/index.ts:56-86 | on a well-formed list the update has four outcomes stated by key presence; a success keeps the number of rows |
| StoreLemmas.ReplaceKeepsIndex | src/store/index.ts:228-230 | after a row call the dictionary is still found at the same position by id |
| StoreLemmas.SecondRowCreateIsDuplicate | src/store/index.ts:211-223 | creating the same row twice makes the second call fail with duplicateRowData, and the first value stays |
| StoreLemmas.SameKeyUpdateSucceeds | src/store/index.ts:211-213 | updating a present row under its own key always succeeds and sets its value, whatever other rows exist |
| StoreLemmas.RowCallsAfterDeleteThrow | src/store/index.ts:228-236 | after a dictionary is deleted from a list with distinct ids, its id is gone and every row call on it throws a TypeError |
| StoreLemmas.DeleteUnknownIdRemovesLast | src/store/index.ts:109-117 | on the list `[a, b]`, deleting the unknown id "zz" leaves `[a]` |
| StoreLemmas.ColorsScenario | src/store/index.ts:120-176 | create "Colors", add red -> rouge, rename it to crimson, delete that row, delete the dictionary: each step has the stated result and the list ends empty |
| Variants.StrictSuccessAgreesWithLegacy | store/index.js:28-177 | whenever a strict action succeeds, the lenient action with the same payload yields the same list |
| Variants.LegacyAcceptsEmptyName | store/index.js:31-42 | an empty name is refused by the strict store but appended by the lenient one |
| Variants.LegacyMutationsSkipBlankChecks | store/index.js:29-79 | the lenient mutations append a dictionary with an empty id, do nothing when id and name are both empty, and write a row with an empty `from` or `to` on a known id, where the strict mutations throw emptyDictionaryId and invalidRowData |
| Variants.LegacyOverwritesDuplicateRow | store/index.js:52-57 | a row the strict store reports as a duplicate is overwritten by the lenient store |
| IntendedStore.IndexOrUndefined | src/store/index.ts:228-230 | the lookup the guards expect: undefined exactly when no dictionary has the id, otherwise the first position with it |
| IntendedStore.CreateDictionaryRowMutation | src/store/index.ts:43-54 | blank fields still give invalidRowData first; with the guard working, an unknown id with non-blank fields gives invalidDictionaryId and never a TypeError; on present ids it equals the store as written |
| IntendedStore.UpdateDictionaryRowMutation | src/store/index.ts:56-86 | blank fields still give invalidRowData first; with the guard working, an unknown id with non-blank fields gives invalidDictionaryId and never a TypeError; on present ids it equals the store as written |
| IntendedStore.DeleteDictionaryRowMutation | src/store/index.ts:88-107 | with the guard working, an unknown id gives invalidDictionaryId and never a TypeError; on present ids it equals the store as written |
| IntendedStore.DeleteDictionaryMutation | src/store/index.ts:109-117 | with the guard working, an unknown id gives invalidDictionaryId; success removes exactly the matching entry |
| IntendedStore.DeleteRemovesOnlyRequestedId | src/store/index.ts:109-117 | with distinct ids, the corrected delete removes the requested id and keeps every other dictionary |
| IntendedStore.AgreesWhenIdPresent | src/store/index.ts:109-117 | on a present id the corrected delete equals the store as written |

## Left out

- Vuex plumbing is not modelled: `createStore`, `commit`, the `/* async */`
  markers and the unused `lastError` field. Actions are plain functions that
  call the mutation function.
- `utils.uuid()` comes from a foreign UI library. The generated id is a
  parameter of the create actions. It is assumed fresh only where a lemma
  says so (`StoreLemmas.DispatchKeepsIdsDistinct`).
- A missing payload field (`undefined`) is represented by the empty
  string. This is exact for the truthiness tests, where both are falsy. It
  is not exact wherever the source uses a field as a property key or
  compares it with `===`:
  - As a property key, `undefined` reads and writes the key `"undefined"`,
    not `""`. This happens with `rowMap[payload.prevFrom]`
    (`src/store/index.ts:64-68` through 235, and 73-75; `store/index.js:68`
    and 73-75) and with `rowMap[payload.from]` (`src/store/index.ts:50`, 78,
    100, and the check's lookup at 214-218 through 235; `store/index.js:56`,
    78, 97 and 100). Take `updateDictionaryRow({id: "a", from: "x", to: "y"})`
    with no `prevFrom` on `[{id: "a", name: "A", rowMap: {"undefined": "v"}}]`.
    The action at `src/store/index.ts:147-153` never checks `prevFrom`, so
    the call goes through. The source reads `"v"`, deletes the key
    `"undefined"` and stores `x -> y`. The model reads the key `""` instead
    and fails with invalidDictionaryRowId.
  - With `===`, `undefined` equals neither `""` nor any string. Of the
    name and key comparisons only `store/index.js:33` can be affected: the
    lenient store's `dictionary.name === payload.name` between a dictionary
    stored without a name and a payload whose name is `""`. The model treats
    the two as equal. The strict comparisons cannot be affected. At
    `src/store/index.ts:185` the name is already truthy (line 183), and every
    dictionary the strict store keeps has a non-empty name. At 211 `from` is
    already truthy (line 202).
  - The same merge applies to `dictionary.id === id` (`findIndex`) when a
    dictionary without an id, which only the lenient store can create, meets
    a call whose id is `""`.
- `rowMap` is a Dafny `map<string, string>`, not a plain JavaScript object.
  Inherited keys such as `"toString"` read as truthy in the source and as
  absent in the model. Key insertion order is not modelled.
- Extra payload fields copied into a stored dictionary by `...payload` are
  not modelled, and neither are non-string payload values.
- The error message texts and the lenient store's `console.warn` output are
  not modelled. Errors are keys; a warning is an unchanged list.
- `src/main.ts` and `src/main.js` are app bootstrap, and `src/shims-vuex.d.ts`
  holds type declarations only.
- LegacyStore.CreateDictionaryAction: its contract covers only a non-empty
  generated id, the only kind the id generator returns. With an empty id the
  action is exactly `LegacyStore.CreateDictionaryMutation`, whose contract
  covers that case.
- The notification mixins (`src/mixins/notificationHandler.ts`,
  `src/mixins/notificationHandler.js`, `mixins/errorHandler.js`) are
  asynchronous UI behaviour driven by `nextTick`.

## Findings

| source | as written | input that shows it | evidently intended | confidence | as-written member | corrected member |
|---|---|---|---|---|---|---|
| src/store/index.ts:109-116 | the `dictionaryIndex !== undefined` guard always holds, so `splice(-1, 1)` runs for an unknown id | list `[a, b]`, id `"zz"`: `b` is removed | throw invalidDictionaryId and leave the list unchanged | high; not executed | StoreLemmas.DeleteUnknownIdRemovesLast | IntendedStore.DeleteDictionaryMutation |
| src/store/index.ts:43-53 | the `typeof` guard in the check always holds; the duplicate lookup reads `dictionaryList[-1].rowMap` | create row `(id "zz", from "x", to "y")` on a list without "zz": TypeError | throw invalidDictionaryId | high; not executed | StoreLemmas.RowCallsAfterDeleteThrow | IntendedStore.CreateDictionaryRowMutation |
| src/store/index.ts:56-85 | the `typeof` guard always holds; the `prevFrom` lookup reads `dictionaryList[-1].rowMap` | update row on an id that is not in the list: TypeError | throw invalidDictionaryId | high; not executed | StoreLemmas.RowCallsAfterDeleteThrow | IntendedStore.UpdateDictionaryRowMutation |
| src/store/index.ts:88-106 | the `!== undefined` guard always holds; the lookup reads `dictionaryList[-1].rowMap` | delete row on an id that is not in the list: TypeError | throw invalidDictionaryId | high; not executed | StoreLemmas.RowCallsAfterDeleteThrow | IntendedStore.DeleteDictionaryRowMutation |

`Store` models the code as written, and the other lemmas are about it.
`IntendedStore` adds the corrected guards on top of `Store`. Where the id
exists, it gives the same result as `Store`.
