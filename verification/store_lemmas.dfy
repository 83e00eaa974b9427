/**
  Properties of the strict store that relate several calls or hold over every
  reachable list: the invariants each action keeps, what the truthiness tests
  amount to on a well-formed list, and the documented usage scenarios.
 */
module StoreLemmas {
  import opened Results
  import opened StoreErrors
  import opened DictionaryState
  import opened Store

  /** Appending a dictionary whose name is new keeps a well-formed list well-formed. */
  lemma AppendKeepsWellFormed(list: State, list': State, d: Dictionary)
    requires WellFormed(list)
    requires d.id != "" && d.name != "" && d.rowMap == map[] && !HasName(list, d.name)
    requires |list'| == |list| + 1 && list'[..|list|] == list && list'[|list|] == d
    ensures WellFormed(list')
  {
    assert forall i :: 0 <= i < |list| ==> list'[i] == list'[..|list|][i];
  }

  /** Replacing one row map by a filled one keeps a well-formed list well-formed. */
  lemma ReplaceKeepsWellFormed(list: State, list': State, i: int, m: map<string, string>)
    requires WellFormed(list)
    requires ReplacesRowMap(list, list', i, m)
    requires RowsFilled(m)
    ensures WellFormed(list')
  {
  }

  /** Removing one entry keeps a well-formed list well-formed. */
  lemma RemoveKeepsWellFormed(list: State, list': State, k: int)
    requires WellFormed(list)
    requires Removed(list, list', k)
    ensures WellFormed(list')
  {
    forall i | 0 <= i < |list'|
      ensures list'[i].id != "" && list'[i].name != "" && RowsFilled(list'[i].rowMap)
    {
      RemovedAt(list, list', k, i);
    }
    forall i, j | 0 <= i < j < |list'|
      ensures list'[i].name != list'[j].name
    {
      RemovedAt(list, list', k, i);
      RemovedAt(list, list', k, j);
    }
  }

  /** Removing one entry keeps distinct ids distinct. */
  lemma RemoveKeepsIdsDistinct(list: State, list': State, k: int)
    requires IdsDistinct(list)
    requires Removed(list, list', k)
    ensures IdsDistinct(list')
  {
    forall i, j | 0 <= i < j < |list'|
      ensures list'[i].id != list'[j].id
    {
      RemovedAt(list, list', k, i);
      RemovedAt(list, list', k, j);
    }
  }

  /**
    Every action keeps the strict store's invariant: distinct non-empty
    names, non-empty ids, and no empty "from" or "to" in any row.
   */
  lemma DispatchKeepsWellFormed(list: State, c: Command)
    requires WellFormed(list)
    ensures Store.Dispatch(list, c).Ok? ==> WellFormed(Store.Dispatch(list, c).value)
  {
    var r := Store.Dispatch(list, c);
    if r.Ok? {
      match c
      case CreateDictionary(name, newId) =>
        AppendKeepsWellFormed(list, r.value, Dictionary(newId, name, map[]));
      case CreateDictionaryRow(p) =>
        ReplaceKeepsWellFormed(list, r.value, IndexById(list, p.id), Target(list, p.id).rowMap[p.from := p.to]);
      case UpdateDictionaryRow(p) =>
        ReplaceKeepsWellFormed(list, r.value, IndexById(list, p.id),
                               Rename(Target(list, p.id).rowMap, p.prevFrom, p.from, p.to));
      case DeleteDictionaryRow(id, from) =>
        ReplaceKeepsWellFormed(list, r.value, IndexById(list, id), Target(list, id).rowMap - {from});
      case DeleteDictionary(id) =>
        if HasId(list, id) {
          RemoveKeepsWellFormed(list, r.value, IndexById(list, id));
        } else if |list| > 0 {
          RemoveKeepsWellFormed(list, r.value, |list| - 1);
        }
    }
  }

  /**
    Over any sequence of dispatched actions, with every thrown error caught,
    no two dictionaries ever share a name and no stored row is empty.
   */
  lemma {:induction false} RunKeepsWellFormed(list: State, cmds: seq<Command>)
    requires WellFormed(list)
    ensures WellFormed(Run(list, cmds))
    decreases |cmds|
  {
    if |cmds| > 0 {
      DispatchKeepsWellFormed(list, cmds[0]);
      var r := Store.Dispatch(list, cmds[0]);
      RunKeepsWellFormed(if r.Ok? then r.value else list, cmds[1..]);
    }
  }

  /** The store never checks ids for uniqueness: they stay distinct only while every generated id is fresh. */
  lemma DispatchKeepsIdsDistinct(list: State, c: Command)
    requires IdsDistinct(list)
    requires c.CreateDictionary? ==> !HasId(list, c.newId)
    ensures Store.Dispatch(list, c).Ok? ==> IdsDistinct(Store.Dispatch(list, c).value)
  {
    var r := Store.Dispatch(list, c);
    if r.Ok? {
      match c
      case CreateDictionary(name, newId) =>
        assert forall i :: 0 <= i < |list| ==> r.value[i] == r.value[..|list|][i];
      case CreateDictionaryRow(p) =>
      case UpdateDictionaryRow(p) =>
      case DeleteDictionaryRow(id, from) =>
      case DeleteDictionary(id) =>
        if HasId(list, id) {
          RemoveKeepsIdsDistinct(list, r.value, IndexById(list, id));
        } else if |list| > 0 {
          RemoveKeepsIdsDistinct(list, r.value, |list| - 1);
        }
    }
  }

  /** Creating a dictionary twice under one name: the second call fails and changes nothing. */
  lemma DuplicateNameRejected(list: State, name: string, id1: string, id2: string)
    requires CreateDictionaryAction(list, name, id1).Ok?
    ensures CreateDictionaryAction(CreateDictionaryAction(list, name, id1).value, name, id2)
            == Failure(DuplicateDictionaryName)
  {
    var list' := CreateDictionaryAction(list, name, id1).value;
    assert list'[|list|].name == name;
  }

  /**
    On a well-formed list every stored value is non-empty, so the store's
    truthiness test on `rowMap[from]` is exactly key presence.
   */
  lemma RowTruthinessIsPresence(list: State, i: int, from: string)
    requires WellFormed(list)
    requires 0 <= i < |list|
    ensures HasRow(list[i].rowMap, from) <==> from in list[i].rowMap
  {
  }

  /**
    The outcomes of updateDictionaryRow on a well-formed list: a kept key
    overwrites in place, a new key that is taken is a duplicate, a missing
    `prevFrom` is an unknown row, and otherwise the row is renamed; either
    way the number of rows stays the same.
   */
  lemma UpdateRowOutcomes(list: State, p: RowPayload)
    requires WellFormed(list)
    requires !Blank(p) && HasId(list, p.id)
    ensures var m := Target(list, p.id).rowMap;
            var r := UpdateDictionaryRowAction(list, p);
            && (p.from != p.prevFrom && p.from in m ==> r == Failure(DuplicateRowData))
            && ((p.from == p.prevFrom || p.from !in m) && p.prevFrom !in m ==> r == Failure(InvalidDictionaryRowId))
            && (r.Ok? <==> p.prevFrom in m && (p.from == p.prevFrom || p.from !in m))
            && (r.Ok? ==> var m' := r.value[IndexById(list, p.id)].rowMap;
                          && m'.Keys == m.Keys - {p.prevFrom} + {p.from}
                          && m'[p.from] == p.to
                          && |m'| == |m|)
            && (r.Ok? && p.from == p.prevFrom ==> r.value[IndexById(list, p.id)].rowMap == m[p.from := p.to])
  {
    var m := Target(list, p.id).rowMap;
    var r := UpdateDictionaryRowAction(list, p);
    if r.Ok? {
      var m' := r.value[IndexById(list, p.id)].rowMap;
      if p.from == p.prevFrom {
        assert m'.Keys == m.Keys;
      } else {
        assert m.Keys == (m.Keys - {p.prevFrom}) + {p.prevFrom};
        assert |m.Keys| == |m.Keys - {p.prevFrom}| + 1;
        assert m'.Keys == (m.Keys - {p.prevFrom}) + {p.from};
        assert |m'.Keys| == |m.Keys - {p.prevFrom}| + 1;
      }
      assert |m'| == |m'.Keys| && |m| == |m.Keys|;
    }
  }

  /** Row calls on a dictionary write only to that dictionary, so its position is still found by id. */
  lemma ReplaceKeepsIndex(list: State, list': State, i: int, m: map<string, string>, id: string)
    requires ReplacesRowMap(list, list', i, m)
    ensures IndexById(list', id) == IndexById(list, id)
    ensures HasId(list', id) <==> HasId(list, id)
  {
    IndexBySameIds(list, list', id);
  }

  /**
    Creating the same row twice: the second call fails as a duplicate and the
    first value stays.
   */
  lemma SecondRowCreateIsDuplicate(list: State, id: string, from: string, to: string, to2: string, prev: string)
    requires CreateDictionaryRowAction(list, RowPayload(id, from, to, prev)).Ok?
    requires to2 != ""
    ensures var list' := CreateDictionaryRowAction(list, RowPayload(id, from, to, prev)).value;
            && HasId(list', id)
            && Target(list', id).rowMap[from] == to
            && CreateDictionaryRowAction(list', RowPayload(id, from, to2, prev)) == Failure(DuplicateRowData)
  {
    var list' := CreateDictionaryRowAction(list, RowPayload(id, from, to, prev)).value;
    var i := IndexById(list, id);
    ReplaceKeepsIndex(list, list', i, list[i].rowMap[from := to], id);
  }

  /** Updating a present row under its own key always succeeds and sets its value. */
  lemma SameKeyUpdateSucceeds(list: State, id: string, from: string, to: string)
    requires WellFormed(list)
    requires HasId(list, id) && from in Target(list, id).rowMap
    requires id != "" && to != ""
    ensures var r := UpdateDictionaryRowAction(list, RowPayload(id, from, to, from));
            && r.Ok?
            && ReplacesRowMap(list, r.value, IndexById(list, id), Target(list, id).rowMap[from := to])
  {
    var m := Target(list, id).rowMap;
    assert Rename(m, from, from, to) == m[from := to];
  }

  /**
    Once a dictionary is deleted from a list with distinct ids, every row
    call on its id throws the TypeError of `dictionaryList[-1]`.
   */
  lemma RowCallsAfterDeleteThrow(list: State, id: string, from: string, to: string, prev: string)
    requires IdsDistinct(list) && HasId(list, id) && id != ""
    requires from != "" && to != ""
    ensures var list' := DeleteDictionaryAction(list, id).value;
            && !HasId(list', id)
            && CreateDictionaryRowAction(list', RowPayload(id, from, to, prev)) == Failure(RuntimeTypeError)
            && UpdateDictionaryRowAction(list', RowPayload(id, from, to, prev)) == Failure(RuntimeTypeError)
            && DeleteDictionaryRowAction(list', id, from) == Failure(RuntimeTypeError)
  {
    var list' := DeleteDictionaryAction(list, id).value;
    var k := IndexById(list, id);
    if HasId(list', id) {
      var j :| 0 <= j < |list'| && list'[j].id == id;
      RemovedAt(list, list', k, j);
      assert false;
    }
  }

  /**
    Two dictionaries and an id neither of them has: deleteDictionary removes
    the second one.
   */
  lemma DeleteUnknownIdRemovesLast()
    ensures var a := Dictionary("a", "First", map[]);
            var b := Dictionary("b", "Second", map[]);
            DeleteDictionaryAction([a, b], "zz") == Ok([a])
  {
    var a := Dictionary("a", "First", map[]);
    var b := Dictionary("b", "Second", map[]);
    assert !HasId([a, b], "zz");
    assert IndexById([a, b], "zz") == -1;
    var r := Splice1([a, b], -1);
    assert |r| == 1 && r[0] == a;
    assert r == [a];
  }

  /**
    Create "Colors" with generated id "abc", add red -> rouge, rename it to
    crimson, delete that row, delete the dictionary: the list ends empty.
   */
  lemma ColorsScenario()
    ensures var s1 := CreateDictionaryAction([], "Colors", "abc");
            && s1 == Ok([Dictionary("abc", "Colors", map[])])
            && var s2 := CreateDictionaryRowAction(s1.value, RowPayload("abc", "red", "rouge", ""));
            && s2 == Ok([Dictionary("abc", "Colors", map["red" := "rouge"])])
            && var s3 := UpdateDictionaryRowAction(s2.value, RowPayload("abc", "crimson", "rouge", "red"));
            && s3 == Ok([Dictionary("abc", "Colors", map["crimson" := "rouge"])])
            && var s4 := DeleteDictionaryRowAction(s3.value, "abc", "crimson");
            && s4 == Ok([Dictionary("abc", "Colors", map[])])
            && DeleteDictionaryAction(s4.value, "abc") == Ok([])
  {
    var s1 := [Dictionary("abc", "Colors", map[])];
    assert !HasName([], "Colors");
    assert CreateDictionaryAction([], "Colors", "abc") == Ok(s1);
    assert IndexById(s1, "abc") == 0;
    var s2 := [Dictionary("abc", "Colors", map["red" := "rouge"])];
    assert !HasRow(map[], "red");
    assert HasId(s1, "abc") && !HasRow(s1[0].rowMap, "red");
    var r2 := CreateDictionaryRowMutation(s1, RowPayload("abc", "red", "rouge", ""));
    assert r2.Ok? && |r2.value| == 1 && r2.value[0] == s2[0];
    assert r2.value == [r2.value[0]];
    assert r2 == Ok(s2);
    assert IndexById(s2, "abc") == 0;
    assert Rename(map["red" := "rouge"], "red", "crimson", "rouge") == map["crimson" := "rouge"];
    var s3 := [Dictionary("abc", "Colors", map["crimson" := "rouge"])];
    assert HasId(s2, "abc") && !HasRow(s2[0].rowMap, "crimson") && HasRow(s2[0].rowMap, "red");
    var r3 := UpdateDictionaryRowMutation(s2, RowPayload("abc", "crimson", "rouge", "red"));
    assert r3.Ok? && |r3.value| == 1 && r3.value[0] == s3[0];
    assert r3.value == [r3.value[0]];
    assert r3 == Ok(s3);
    assert IndexById(s3, "abc") == 0;
    assert map["crimson" := "rouge"] - {"crimson"} == map[];
    var s4 := [Dictionary("abc", "Colors", map[])];
    assert HasId(s3, "abc") && HasRow(s3[0].rowMap, "crimson");
    var r4 := DeleteDictionaryRowMutation(s3, "abc", "crimson");
    assert r4.Ok? && |r4.value| == 1 && r4.value[0] == s4[0];
    assert r4.value == [r4.value[0]];
    assert r4 == Ok(s4);
    assert IndexById(s4, "abc") == 0;
    assert Splice1(s4, 0) == [];
  }
}
