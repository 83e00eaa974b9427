/**
  The lenient predecessor of the store (store/index.js). Its row and delete
  actions log a warning and leave the list alone when a field they test is
  blank, and its row mutations do the same for a missing row. The mutations
  themselves check no field for blankness: a dictionary may be created
  without an id or a name, and a row with an empty "from" or "to" is written.
  There is no duplicate-row check. Its only thrown error key is
  `duplicateDictionaryName`; a row call on an unknown id still throws the
  TypeError of `dictionaryList[-1].rowMap`, because the
  `index !== undefined` guards never fail.
 */
module LegacyStore {
  import opened Results
  import opened StoreErrors
  import opened DictionaryState

  /**
    CREATE_DICTIONARY: with a name or an id, rejects a duplicate name and
    appends; with neither it does nothing. The two `else if` branches after
    the first test cannot be reached (each repeats a disjunct already false).
   */
  function CreateDictionaryMutation(list: State, id: string, name: string): (r: Result<State, StoreError>)
    ensures name == "" && id == "" ==> r == Ok(list)
    ensures (name != "" || id != "") && HasName(list, name) ==> r == Failure(DuplicateDictionaryName)
    ensures (name != "" || id != "") && !HasName(list, name) ==>
              r.Ok? && |r.value| == |list| + 1 && r.value[..|list|] == list
              && r.value[|list|] == Dictionary(id, name, map[])
    ensures r.Failure? ==> r.error == DuplicateDictionaryName
  {
    if name != "" || id != "" then
      match FindByName(list, name)
      case Some(_) => Failure(DuplicateDictionaryName)
      case None => Ok(list + [Dictionary(id, name, map[])])
    else
      Ok(list)
  }

  /** CREATE_DICTIONARY_ROW: sets `rowMap[from] = to`, overwriting any row already there. */
  function CreateDictionaryRowMutation(list: State, p: RowPayload): (r: Result<State, StoreError>)
    ensures !HasId(list, p.id) ==> r == Failure(RuntimeTypeError)
    ensures r.Ok? <==> HasId(list, p.id)
    ensures r.Ok? ==> ReplacesRowMap(list, r.value, IndexById(list, p.id),
                                     Target(list, p.id).rowMap[p.from := p.to])
  {
    var i := IndexById(list, p.id);
    match DictionaryAt(list, i)
    case Failure(e) => Failure(e)
    case Ok(d) => Ok(WithRowMap(list, i, d.rowMap[p.from := p.to]))
  }

  /** UPDATE_DICTIONARY_ROW: renames or overwrites a truthy row at `prevFrom`; otherwise does nothing. */
  function UpdateDictionaryRowMutation(list: State, p: RowPayload): (r: Result<State, StoreError>)
    ensures !HasId(list, p.id) ==> r == Failure(RuntimeTypeError)
    ensures HasId(list, p.id) && !HasRow(Target(list, p.id).rowMap, p.prevFrom) ==> r == Ok(list)
    ensures HasId(list, p.id) && HasRow(Target(list, p.id).rowMap, p.prevFrom) ==>
              r.Ok? && ReplacesRowMap(list, r.value, IndexById(list, p.id),
                                      Rename(Target(list, p.id).rowMap, p.prevFrom, p.from, p.to))
  {
    var i := IndexById(list, p.id);
    match DictionaryAt(list, i)
    case Failure(e) => Failure(e)
    case Ok(d) =>
      if RowTo(d.rowMap, p.prevFrom) != "" then
        Ok(WithRowMap(list, i, Rename(d.rowMap, p.prevFrom, p.from, p.to)))
      else
        Ok(list)
  }

  /** DELETE_DICTIONARY_ROW: removes a truthy row at `from`; otherwise does nothing. */
  function DeleteDictionaryRowMutation(list: State, id: string, from: string): (r: Result<State, StoreError>)
    ensures !HasId(list, id) ==> r == Failure(RuntimeTypeError)
    ensures HasId(list, id) && !HasRow(Target(list, id).rowMap, from) ==> r == Ok(list)
    ensures HasId(list, id) && HasRow(Target(list, id).rowMap, from) ==>
              r.Ok? && ReplacesRowMap(list, r.value, IndexById(list, id), Target(list, id).rowMap - {from})
  {
    var i := IndexById(list, id);
    match DictionaryAt(list, i)
    case Failure(e) => Failure(e)
    case Ok(d) =>
      if RowTo(d.rowMap, from) != "" then Ok(WithRowMap(list, i, d.rowMap - {from}))
      else Ok(list)
  }

  /** DELETE_DICTIONARY: `splice(findIndex(id), 1)`, which never throws. */
  function DeleteDictionaryMutation(list: State, id: string): (r: Result<State, StoreError>)
    ensures r.Ok?
    ensures HasId(list, id) ==> Removed(list, r.value, IndexById(list, id))
    ensures !HasId(list, id) && |list| > 0 ==> Removed(list, r.value, |list| - 1)
    ensures !HasId(list, id) && |list| == 0 ==> r.value == list
  {
    Ok(SpliceById(list, id))
  }

  /** createDictionary: commits CREATE_DICTIONARY with the generated id and no check of its own. */
  function CreateDictionaryAction(list: State, name: string, newId: string): (r: Result<State, StoreError>)
    ensures newId != "" && HasName(list, name) ==> r == Failure(DuplicateDictionaryName)
    ensures newId != "" && !HasName(list, name) ==>
              r.Ok? && r.value == list + [Dictionary(newId, name, map[])]
    ensures r.Failure? ==> r.error == DuplicateDictionaryName
  {
    CreateDictionaryMutation(list, newId, name)
  }

  /** createDictionaryRow: commits only when `id`, `from` and `to` are all non-empty. */
  function CreateDictionaryRowAction(list: State, p: RowPayload): (r: Result<State, StoreError>)
    ensures Blank(p) ==> r == Ok(list)
    ensures !Blank(p) ==> r == CreateDictionaryRowMutation(list, p)
  {
    if !Blank(p) then CreateDictionaryRowMutation(list, p) else Ok(list)
  }

  /** updateDictionaryRow: commits only when `id`, `from` and `to` are all non-empty. */
  function UpdateDictionaryRowAction(list: State, p: RowPayload): (r: Result<State, StoreError>)
    ensures Blank(p) ==> r == Ok(list)
    ensures !Blank(p) ==> r == UpdateDictionaryRowMutation(list, p)
  {
    if !Blank(p) then UpdateDictionaryRowMutation(list, p) else Ok(list)
  }

  /** deleteDictionaryRow: commits only when `id` and `from` are non-empty. */
  function DeleteDictionaryRowAction(list: State, id: string, from: string): (r: Result<State, StoreError>)
    ensures id == "" || from == "" ==> r == Ok(list)
    ensures id != "" && from != "" ==> r == DeleteDictionaryRowMutation(list, id, from)
  {
    if id != "" && from != "" then DeleteDictionaryRowMutation(list, id, from) else Ok(list)
  }

  /** deleteDictionary: commits only when `id` is non-empty. */
  function DeleteDictionaryAction(list: State, id: string): (r: Result<State, StoreError>)
    ensures id == "" ==> r == Ok(list)
    ensures id != "" ==> r == DeleteDictionaryMutation(list, id)
  {
    if id != "" then DeleteDictionaryMutation(list, id) else Ok(list)
  }

  /** The action a command dispatches. */
  function Dispatch(list: State, c: Command): Result<State, StoreError> {
    match c
    case CreateDictionary(name, newId) => CreateDictionaryAction(list, name, newId)
    case CreateDictionaryRow(p) => CreateDictionaryRowAction(list, p)
    case UpdateDictionaryRow(p) => UpdateDictionaryRowAction(list, p)
    case DeleteDictionaryRow(id, from) => DeleteDictionaryRowAction(list, id, from)
    case DeleteDictionary(id) => DeleteDictionaryAction(list, id)
  }
}
