/**
  How the two store variants relate: wherever the strict store accepts a
  call, the lenient store reaches the same list.
 */
module Variants {
  import opened Results
  import opened StoreErrors
  import opened DictionaryState
  import Store
  import LegacyStore

  /** Each strict action that succeeds is matched by the lenient action with the same payload. */
  lemma StrictSuccessAgreesWithLegacy(list: State, c: Command)
    ensures Store.Dispatch(list, c).Ok? ==> LegacyStore.Dispatch(list, c) == Store.Dispatch(list, c)
  {
    var r := Store.Dispatch(list, c);
    if r.Ok? {
      match c
      case CreateDictionary(name, newId) =>
        assert r.value == list + [Dictionary(newId, name, map[])];
      case CreateDictionaryRow(p) =>
        SameReplacement(list, r.value, LegacyStore.Dispatch(list, c).value, IndexById(list, p.id),
                        Target(list, p.id).rowMap[p.from := p.to]);
      case UpdateDictionaryRow(p) =>
        SameReplacement(list, r.value, LegacyStore.Dispatch(list, c).value, IndexById(list, p.id),
                        Rename(Target(list, p.id).rowMap, p.prevFrom, p.from, p.to));
      case DeleteDictionaryRow(id, from) =>
        SameReplacement(list, r.value, LegacyStore.Dispatch(list, c).value, IndexById(list, id),
                        Target(list, id).rowMap - {from});
      case DeleteDictionary(id) =>
    }
  }

  /** Two lists that replace the same row map of the same list are equal. */
  lemma SameReplacement(list: State, a: State, b: State, i: int, m: map<string, string>)
    requires ReplacesRowMap(list, a, i, m) && ReplacesRowMap(list, b, i, m)
    ensures a == b
  {
    assert forall j :: 0 <= j < |a| ==> a[j] == b[j];
  }

  /**
    The lenient store's create rejects only duplicate names: it accepts an
    empty name that the strict store refuses.
   */
  lemma LegacyAcceptsEmptyName(list: State, newId: string)
    requires newId != "" && !HasName(list, "")
    ensures Store.CreateDictionaryAction(list, "", newId) == Failure(EmptyDictionaryName)
    ensures LegacyStore.CreateDictionaryAction(list, "", newId) == Ok(list + [Dictionary(newId, "", map[])])
  {
  }

  /**
    The lenient mutations check no field for blankness: an empty id still
    appends a dictionary, and a row with an empty "from" or "to" is written,
    where the strict mutations throw emptyDictionaryId and invalidRowData.
   */
  lemma LegacyMutationsSkipBlankChecks(list: State, name: string, p: RowPayload)
    requires name != "" && !HasName(list, name)
    requires (p.from == "" || p.to == "") && HasId(list, p.id)
    ensures Store.CreateDictionaryMutation(list, "", name) == Failure(EmptyDictionaryId)
    ensures LegacyStore.CreateDictionaryMutation(list, "", name) == Ok(list + [Dictionary("", name, map[])])
    ensures LegacyStore.CreateDictionaryMutation(list, "", "") == Ok(list)
    ensures Store.CreateDictionaryRowMutation(list, p) == Failure(InvalidRowData)
    ensures Store.UpdateDictionaryRowMutation(list, p) == Failure(InvalidRowData)
    ensures var r := LegacyStore.CreateDictionaryRowMutation(list, p);
            r.Ok? && r.value[IndexById(list, p.id)].rowMap == Target(list, p.id).rowMap[p.from := p.to]
    ensures HasRow(Target(list, p.id).rowMap, p.prevFrom) ==>
              var r := LegacyStore.UpdateDictionaryRowMutation(list, p);
              r.Ok? && r.value[IndexById(list, p.id)].rowMap[p.from] == p.to
  {
  }

  /**
    The lenient store's create row overwrites an existing row that the
    strict store reports as a duplicate.
   */
  lemma LegacyOverwritesDuplicateRow(list: State, p: RowPayload)
    requires !Blank(p) && HasId(list, p.id) && HasRow(Target(list, p.id).rowMap, p.from)
    ensures Store.CreateDictionaryRowAction(list, p) == Failure(DuplicateRowData)
    ensures var r := LegacyStore.CreateDictionaryRowAction(list, p);
            r.Ok? && r.value[IndexById(list, p.id)].rowMap[p.from] == p.to
  {
  }
}
