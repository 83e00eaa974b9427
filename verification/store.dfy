/**
  The strict dictionary store (src/store/index.ts): five mutations, the five
  actions that validate and then commit them, and the validation helpers.

  Each call returns the new dictionary list or the error it throws; the
  store's state is untouched by a call that throws, since every check in the
  source runs before the first write.

  Two guards in the source never fire, and the model keeps that behaviour:
  `getDictionaryIndexById` returns `findIndex`, a number (-1 when the id is
  missing), so `typeof index === "number"` always holds and
  `index !== undefined` always holds. A row call on an unknown id therefore
  reaches `dictionaryList[-1].rowMap` and throws a TypeError, and deleting an
  unknown id removes the last dictionary.
 */
module Store {
  import opened Results
  import opened StoreErrors
  import opened DictionaryState

  /** A non-empty name no existing dictionary already uses. */
  function CheckDictionaryNameConsistency(list: State, name: string): (r: Result<(), StoreError>)
    ensures name == "" ==> r == Failure(EmptyDictionaryName)
    ensures name != "" && HasName(list, name) ==> r == Failure(DuplicateDictionaryName)
    ensures r.Ok? <==> name != "" && !HasName(list, name)
  {
    if name != "" then
      match FindByName(list, name)
      case Some(_) => Failure(DuplicateDictionaryName)
      case None => Ok(())
    else
      Failure(EmptyDictionaryName)
  }

  /** `dictionaryList[findIndex(id)].rowMap[from]`; throws when `id` is missing. */
  function GetDictionaryRowToByRowFrom(list: State, id: string, from: string): (r: Result<string, StoreError>)
    ensures r.Failure? <==> !HasId(list, id)
    ensures r.Failure? ==> r.error == RuntimeTypeError
    ensures r.Ok? ==> HasId(list, id) && (r.value != "" <==> HasRow(Target(list, id).rowMap, from))
    ensures r.Ok? && from in Target(list, id).rowMap ==> r.value == Target(list, id).rowMap[from]
  {
    match DictionaryAt(list, IndexById(list, id))
    case Failure(e) => Failure(e)
    case Ok(d) => Ok(RowTo(d.rowMap, from))
  }

  /**
    Row payload validation: blank fields first, then (unless an update keeps
    its key) the duplicate check, whose lookup throws on an unknown id.
   */
  function CheckDictionaryRowDataConsistency(list: State, p: RowPayload, excludeItself: bool): (r: Result<(), StoreError>)
    ensures Blank(p) ==> r == Failure(InvalidRowData)
    ensures !Blank(p) && excludeItself && p.from == p.prevFrom ==> r == Ok(())
    ensures !Blank(p) && !(excludeItself && p.from == p.prevFrom) ==>
              if !HasId(list, p.id) then r == Failure(RuntimeTypeError)
              else if HasRow(Target(list, p.id).rowMap, p.from) then r == Failure(DuplicateRowData)
              else r == Ok(())
    ensures r != Failure(InvalidDictionaryId)
  {
    if Blank(p) then
      Failure(InvalidRowData)
    // the index is always a number, so the invalidDictionaryId branch is never taken
    else if excludeItself && p.from == p.prevFrom then
      Ok(())
    else
      match GetDictionaryRowToByRowFrom(list, p.id, p.from)
      case Failure(e) => Failure(e)
      case Ok(rowTo) => if rowTo != "" then Failure(DuplicateRowData) else Ok(())
  }

  /** CREATE_DICTIONARY: requires an id, then a valid name, then appends an empty dictionary. */
  function CreateDictionaryMutation(list: State, id: string, name: string): (r: Result<State, StoreError>)
    ensures id == "" ==> r == Failure(EmptyDictionaryId)
    ensures id != "" && name == "" ==> r == Failure(EmptyDictionaryName)
    ensures id != "" && name != "" && HasName(list, name) ==> r == Failure(DuplicateDictionaryName)
    ensures r.Ok? <==> id != "" && name != "" && !HasName(list, name)
    ensures r.Ok? ==> |r.value| == |list| + 1 && r.value[..|list|] == list
                      && r.value[|list|] == Dictionary(id, name, map[])
  {
    if id != "" then
      match CheckDictionaryNameConsistency(list, name)
      case Failure(e) => Failure(e)
      case Ok(_) => Ok(list + [Dictionary(id, name, map[])])
    else
      Failure(EmptyDictionaryId)
  }

  /** CREATE_DICTIONARY_ROW: validates, then sets `rowMap[from] = to` in the target dictionary. */
  function CreateDictionaryRowMutation(list: State, p: RowPayload): (r: Result<State, StoreError>)
    ensures Blank(p) ==> r == Failure(InvalidRowData)
    ensures !Blank(p) && !HasId(list, p.id) ==> r == Failure(RuntimeTypeError)
    ensures !Blank(p) && HasId(list, p.id) && HasRow(Target(list, p.id).rowMap, p.from) ==>
              r == Failure(DuplicateRowData)
    ensures r.Ok? <==> !Blank(p) && HasId(list, p.id) && !HasRow(Target(list, p.id).rowMap, p.from)
    ensures r.Ok? ==> ReplacesRowMap(list, r.value, IndexById(list, p.id),
                                     Target(list, p.id).rowMap[p.from := p.to])
  {
    match CheckDictionaryRowDataConsistency(list, p, false)
    case Failure(e) => Failure(e)
    case Ok(_) =>
      var i := IndexById(list, p.id);
      match DictionaryAt(list, i)
      case Failure(e) => Failure(e)
      case Ok(d) => Ok(WithRowMap(list, i, d.rowMap[p.from := p.to]))
  }

  /**
    UPDATE_DICTIONARY_ROW: validates (a kept key skips the duplicate check),
    requires a truthy row at `prevFrom`, then renames or overwrites.
   */
  function UpdateDictionaryRowMutation(list: State, p: RowPayload): (r: Result<State, StoreError>)
    ensures Blank(p) ==> r == Failure(InvalidRowData)
    ensures !Blank(p) && !HasId(list, p.id) ==> r == Failure(RuntimeTypeError)
    ensures !Blank(p) && HasId(list, p.id) && p.from != p.prevFrom && HasRow(Target(list, p.id).rowMap, p.from) ==>
              r == Failure(DuplicateRowData)
    ensures !Blank(p) && HasId(list, p.id) && (p.from == p.prevFrom || !HasRow(Target(list, p.id).rowMap, p.from))
              && !HasRow(Target(list, p.id).rowMap, p.prevFrom) ==>
              r == Failure(InvalidDictionaryRowId)
    ensures r.Ok? <==> && !Blank(p) && HasId(list, p.id)
                       && (p.from == p.prevFrom || !HasRow(Target(list, p.id).rowMap, p.from))
                       && HasRow(Target(list, p.id).rowMap, p.prevFrom)
    ensures r.Ok? ==> ReplacesRowMap(list, r.value, IndexById(list, p.id),
                                     Rename(Target(list, p.id).rowMap, p.prevFrom, p.from, p.to))
  {
    match CheckDictionaryRowDataConsistency(list, p, true)
    case Failure(e) => Failure(e)
    case Ok(_) =>
      var i := IndexById(list, p.id);
      match GetDictionaryRowToByRowFrom(list, p.id, p.prevFrom)
      case Failure(e) => Failure(e)
      case Ok(prevRowTo) =>
        if prevRowTo != "" then
          Ok(WithRowMap(list, i, Rename(list[i].rowMap, p.prevFrom, p.from, p.to)))
        else
          Failure(InvalidDictionaryRowId)
  }

  /** DELETE_DICTIONARY_ROW: requires a truthy row at `from`, then removes that key. */
  function DeleteDictionaryRowMutation(list: State, id: string, from: string): (r: Result<State, StoreError>)
    ensures !HasId(list, id) ==> r == Failure(RuntimeTypeError)
    ensures HasId(list, id) && !HasRow(Target(list, id).rowMap, from) ==> r == Failure(InvalidDictionaryRowId)
    ensures r.Ok? <==> HasId(list, id) && HasRow(Target(list, id).rowMap, from)
    ensures r.Ok? ==> ReplacesRowMap(list, r.value, IndexById(list, id), Target(list, id).rowMap - {from})
  {
    var i := IndexById(list, id);
    // the index is never undefined, so the invalidDictionaryId branch is never taken
    match GetDictionaryRowToByRowFrom(list, id, from)
    case Failure(e) => Failure(e)
    case Ok(rowTo) =>
      if rowTo != "" then Ok(WithRowMap(list, i, list[i].rowMap - {from}))
      else Failure(InvalidDictionaryRowId)
  }

  /** DELETE_DICTIONARY: `splice(findIndex(id), 1)`, which never throws. */
  function DeleteDictionaryMutation(list: State, id: string): (r: Result<State, StoreError>)
    ensures r.Ok?
    ensures HasId(list, id) ==> Removed(list, r.value, IndexById(list, id))
    ensures !HasId(list, id) && |list| > 0 ==> Removed(list, r.value, |list| - 1)
    ensures !HasId(list, id) && |list| == 0 ==> r.value == list
  {
    // the index is never undefined, so the invalidDictionaryId branch is never taken
    Ok(SpliceById(list, id))
  }

  /** createDictionary: checks the name, takes the generated id, commits CREATE_DICTIONARY. */
  function CreateDictionaryAction(list: State, name: string, newId: string): (r: Result<State, StoreError>)
    ensures name == "" ==> r == Failure(EmptyDictionaryName)
    ensures name != "" && HasName(list, name) ==> r == Failure(DuplicateDictionaryName)
    ensures name != "" && !HasName(list, name) && newId == "" ==> r == Failure(EmptyDictionaryId)
    ensures newId != "" ==> r == CreateDictionaryMutation(list, newId, name)
    ensures r.Ok? ==> |r.value| == |list| + 1 && r.value[..|list|] == list
                      && r.value[|list|] == Dictionary(newId, name, map[])
  {
    match CheckDictionaryNameConsistency(list, name)
    case Failure(e) => Failure(e)
    case Ok(_) => CreateDictionaryMutation(list, newId, name)
  }

  /** createDictionaryRow: the mutation's own check, run once more before committing. */
  function CreateDictionaryRowAction(list: State, p: RowPayload): (r: Result<State, StoreError>)
    ensures r == CreateDictionaryRowMutation(list, p)
  {
    match CheckDictionaryRowDataConsistency(list, p, false)
    case Failure(e) => Failure(e)
    case Ok(_) => CreateDictionaryRowMutation(list, p)
  }

  /** updateDictionaryRow: the mutation's own check, run once more before committing. */
  function UpdateDictionaryRowAction(list: State, p: RowPayload): (r: Result<State, StoreError>)
    ensures r == UpdateDictionaryRowMutation(list, p)
  {
    match CheckDictionaryRowDataConsistency(list, p, true)
    case Failure(e) => Failure(e)
    case Ok(_) => UpdateDictionaryRowMutation(list, p)
  }

  /** deleteDictionaryRow: rejects an empty id, then an empty `from`, then commits. */
  function DeleteDictionaryRowAction(list: State, id: string, from: string): (r: Result<State, StoreError>)
    ensures id == "" ==> r == Failure(InvalidDictionaryId)
    ensures id != "" && from == "" ==> r == Failure(InvalidDictionaryRowId)
    ensures id != "" && from != "" ==> r == DeleteDictionaryRowMutation(list, id, from)
  {
    if id != "" && from != "" then DeleteDictionaryRowMutation(list, id, from)
    else if id == "" then Failure(InvalidDictionaryId)
    else Failure(InvalidDictionaryRowId)
  }

  /** deleteDictionary: rejects an empty id, then commits. */
  function DeleteDictionaryAction(list: State, id: string): (r: Result<State, StoreError>)
    ensures id == "" ==> r == Failure(InvalidDictionaryId)
    ensures id != "" ==> r == DeleteDictionaryMutation(list, id)
  {
    if id != "" then DeleteDictionaryMutation(list, id) else Failure(InvalidDictionaryId)
  }

  /** The action a command dispatches. */
  function Dispatch(list: State, c: Command): Result<State, StoreError> {
    match c
    case CreateDictionary(name, newId) => CreateDictionaryAction(list, name, newId)
    case CreateDictionaryRow(p) => CreateDictionaryRowAction(list, p)
    case UpdateDictionaryRow(p) => UpdateDictionaryRowAction(list, p)
    case DeleteDictionaryRow(id, from) => DeleteDictionaryRowAction(list, id, from)
    case DeleteDictionary(id) => DeleteDictionaryAction(list, id)
  }

  /**
    The list after dispatching `cmds` in order, for a caller that catches each
    thrown error: a call that throws leaves the list as it was.
   */
  function Run(list: State, cmds: seq<Command>): State
    decreases |cmds|
  {
    if |cmds| == 0 then list
    else
      var r := Dispatch(list, cmds[0]);
      Run(if r.Ok? then r.value else list, cmds[1..])
  }
}
