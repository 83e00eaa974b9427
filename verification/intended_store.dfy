/**
  The strict store with its id guards working as written evidently intends:
  `getDictionaryIndexById` yielding `undefined` for a missing id, so that a
  row call or a delete on an unknown id throws `invalidDictionaryId` and
  leaves the list alone. Wherever the id is present it behaves exactly as
  the store.
 */
module IntendedStore {
  import opened Results
  import opened StoreErrors
  import opened DictionaryState
  import Store

  /** The index the guards expect: `None` (undefined) when no dictionary has the id. */
  function IndexOrUndefined(list: State, id: string): (r: Option<nat>)
    ensures r.None? <==> !HasId(list, id)
    ensures r.Some? ==> r.value < |list| && list[r.value].id == id
                        && forall j :: 0 <= j < r.value ==> list[j].id != id
  {
    var i := IndexById(list, id);
    if i < 0 then None else Some(i)
  }

  /** CREATE_DICTIONARY_ROW whose `typeof` guard rejects an unknown id. */
  function CreateDictionaryRowMutation(list: State, p: RowPayload): (r: Result<State, StoreError>)
    ensures Blank(p) ==> r == Failure(InvalidRowData)
    ensures !Blank(p) && !HasId(list, p.id) ==> r == Failure(InvalidDictionaryId)
    ensures HasId(list, p.id) ==> r == Store.CreateDictionaryRowMutation(list, p)
    ensures r != Failure(RuntimeTypeError)
  {
    if !Blank(p) && IndexOrUndefined(list, p.id).None? then Failure(InvalidDictionaryId)
    else Store.CreateDictionaryRowMutation(list, p)
  }

  /** UPDATE_DICTIONARY_ROW whose `typeof` guard rejects an unknown id. */
  function UpdateDictionaryRowMutation(list: State, p: RowPayload): (r: Result<State, StoreError>)
    ensures Blank(p) ==> r == Failure(InvalidRowData)
    ensures !Blank(p) && !HasId(list, p.id) ==> r == Failure(InvalidDictionaryId)
    ensures HasId(list, p.id) ==> r == Store.UpdateDictionaryRowMutation(list, p)
    ensures r != Failure(RuntimeTypeError)
  {
    if !Blank(p) && IndexOrUndefined(list, p.id).None? then Failure(InvalidDictionaryId)
    else Store.UpdateDictionaryRowMutation(list, p)
  }

  /** DELETE_DICTIONARY_ROW whose `!== undefined` guard rejects an unknown id. */
  function DeleteDictionaryRowMutation(list: State, id: string, from: string): (r: Result<State, StoreError>)
    ensures !HasId(list, id) ==> r == Failure(InvalidDictionaryId)
    ensures HasId(list, id) ==> r == Store.DeleteDictionaryRowMutation(list, id, from)
    ensures r != Failure(RuntimeTypeError)
  {
    if IndexOrUndefined(list, id).None? then Failure(InvalidDictionaryId)
    else Store.DeleteDictionaryRowMutation(list, id, from)
  }

  /** DELETE_DICTIONARY whose `!== undefined` guard rejects an unknown id. */
  function DeleteDictionaryMutation(list: State, id: string): (r: Result<State, StoreError>)
    ensures !HasId(list, id) ==> r == Failure(InvalidDictionaryId)
    ensures r.Ok? ==> HasId(list, id) && Removed(list, r.value, IndexById(list, id))
    ensures r.Ok? ==> |r.value| == |list| - 1
  {
    match IndexOrUndefined(list, id)
    case None => Failure(InvalidDictionaryId)
    case Some(i) => Ok(list[..i] + list[i + 1..])
  }

  /**
    With the guard corrected, deleting removes a dictionary carrying the
    requested id or fails: no other dictionary is ever lost.
   */
  lemma DeleteRemovesOnlyRequestedId(list: State, id: string)
    requires IdsDistinct(list)
    ensures var r := DeleteDictionaryMutation(list, id);
            r.Ok? ==> !HasId(r.value, id)
                      && forall d :: d in list && d.id != id ==> d in r.value
  {
    var r := DeleteDictionaryMutation(list, id);
    if r.Ok? {
      var k := IndexById(list, id);
      forall d | d in list && d.id != id
        ensures d in r.value
      {
        var j :| 0 <= j < |list| && list[j] == d;
        if j < k {
          RemovedAt(list, r.value, k, j);
        } else {
          RemovedAt(list, r.value, k, j - 1);
        }
      }
      if HasId(r.value, id) {
        var j :| 0 <= j < |r.value| && r.value[j].id == id;
        RemovedAt(list, r.value, k, j);
        assert false;
      }
    }
  }

  /** The store as written and the corrected one agree on every id that is present. */
  lemma AgreesWhenIdPresent(list: State, id: string)
    requires HasId(list, id)
    ensures DeleteDictionaryMutation(list, id) == Store.DeleteDictionaryMutation(list, id)
  {
  }
}
