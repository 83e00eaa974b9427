/**
  The data both store variants share: the dictionary record, the list that is
  the store's state, the array and object primitives the store's code relies
  on (`findIndex`, `find`, `splice`, reading `rowMap[from]`), and the
  invariants the strict store keeps.

  Payload fields are strings; a missing field (`undefined` in the source) is
  represented by the empty string.
 */
module DictionaryState {
  import opened Results
  import opened StoreErrors

  /** One dictionary: `rowMap` maps each "from" text to its "to" text. */
  datatype Dictionary = Dictionary(id: string, name: string, rowMap: map<string, string>)

  /** `state.dictionaryList`, in insertion order. */
  type State = seq<Dictionary>

  /** The payload of a row create or update; `prevFrom` is ignored by create. */
  datatype RowPayload = RowPayload(id: string, from: string, to: string, prevFrom: string)

  /** One dispatched action with its payload; `newId` is what the id generator returned. */
  datatype Command =
    | CreateDictionary(name: string, newId: string)
    | CreateDictionaryRow(row: RowPayload)
    | UpdateDictionaryRow(row: RowPayload)
    | DeleteDictionaryRow(id: string, from: string)
    | DeleteDictionary(id: string)

  /** `!payload.id || !payload.from || !payload.to` */
  predicate Blank(p: RowPayload) {
    p.id == "" || p.from == "" || p.to == ""
  }

  predicate HasId(list: State, id: string) {
    exists i :: 0 <= i < |list| && list[i].id == id
  }

  predicate HasName(list: State, name: string) {
    exists i :: 0 <= i < |list| && list[i].name == name
  }

  /** `dictionaryList.findIndex(d => d.id === id)`: the first position holding `id`, or -1. */
  function IndexById(list: State, id: string): (r: int)
    ensures -1 <= r < |list|
    ensures r == -1 <==> !HasId(list, id)
    ensures r >= 0 ==> list[r].id == id && forall j :: 0 <= j < r ==> list[j].id != id
  {
    if |list| == 0 then -1
    else if list[0].id == id then 0
    else
      var k := IndexById(list[1..], id);
      assert forall j :: 1 <= j < |list| ==> list[j] == list[1..][j - 1];
      if k == -1 then -1 else k + 1
  }

  /** The dictionary the row helpers reach through `findIndex`. */
  function Target(list: State, id: string): Dictionary
    requires HasId(list, id)
  {
    list[IndexById(list, id)]
  }

  /** `dictionaryList.find(d => d.name === name)`: the first dictionary with that name. */
  function FindByName(list: State, name: string): (r: Option<Dictionary>)
    ensures r.Some? <==> HasName(list, name)
    ensures r.Some? ==> exists i :: 0 <= i < |list| && list[i] == r.value && list[i].name == name
                                    && forall j :: 0 <= j < i ==> list[j].name != name
  {
    if |list| == 0 then None
    else if list[0].name == name then Some(list[0])
    else
      var r := FindByName(list[1..], name);
      assert forall j :: 1 <= j < |list| ==> list[j] == list[1..][j - 1];
      r
  }

  /**
    `dictionaryList[i].rowMap`: an index outside the list reads `undefined`,
    and taking `.rowMap` of it throws a TypeError.
   */
  function DictionaryAt(list: State, i: int): (r: Result<Dictionary, StoreError>)
    ensures r.Ok? <==> 0 <= i < |list|
    ensures r.Ok? ==> r.value == list[i]
    ensures r.Failure? ==> r.error == RuntimeTypeError
  {
    if 0 <= i < |list| then Ok(list[i]) else Failure(RuntimeTypeError)
  }

  /** `rowMap[from]` is truthy: the key is present with a non-empty value. */
  predicate HasRow(rowMap: map<string, string>, from: string) {
    from in rowMap && rowMap[from] != ""
  }

  /** `rowMap[from]`, with an absent key read as "" (both are falsy). */
  function RowTo(rowMap: map<string, string>, from: string): (r: string)
    ensures r != "" <==> HasRow(rowMap, from)
    ensures from in rowMap ==> r == rowMap[from]
  {
    if from in rowMap then rowMap[from] else ""
  }

  /**
    The update step shared by both variants: drop `prevFrom` when the key
    changes, then set `from` to `to`.
   */
  function Rename(rowMap: map<string, string>, prevFrom: string, from: string, to: string): (r: map<string, string>)
    ensures r.Keys == rowMap.Keys - {prevFrom} + {from}
    ensures r[from] == to
    ensures forall k :: k in rowMap && k != prevFrom && k != from ==> r[k] == rowMap[k]
  {
    var kept := if prevFrom != from then rowMap - {prevFrom} else rowMap;
    kept[from := to]
  }

  /** `list'` is `list` with only the row map of entry `i` replaced by `m`. */
  predicate ReplacesRowMap(list: State, list': State, i: int, m: map<string, string>) {
    && |list'| == |list|
    && 0 <= i < |list|
    && list'[i] == list[i].(rowMap := m)
    && forall j :: 0 <= j < |list| && j != i ==> list'[j] == list[j]
  }

  function WithRowMap(list: State, i: int, m: map<string, string>): (r: State)
    requires 0 <= i < |list|
    ensures ReplacesRowMap(list, r, i, m)
  {
    list[i := list[i].(rowMap := m)]
  }

  /** The start index `Array.prototype.splice` uses: a negative start counts back from the end. */
  function RelativeStart(start: int, len: nat): (k: nat)
    ensures k <= len
    ensures 0 <= start <= len ==> k == start
    ensures start < 0 && len + start >= 0 ==> k == len + start
    ensures len + start < 0 ==> k == 0
    ensures start > len ==> k == len
  {
    if start < 0 then (if len + start < 0 then 0 else len + start)
    else if start < len then start else len
  }

  /** `list.splice(start, 1)`: removes the element at the relative start, if there is one. */
  function Splice1(list: State, start: int): (r: State)
    ensures var k := RelativeStart(start, |list|);
            k < |list| ==> && |r| == |list| - 1
                           && forall i :: 0 <= i < |r| ==> r[i] == if i < k then list[i] else list[i + 1]
    ensures RelativeStart(start, |list|) == |list| ==> r == list
  {
    var k := RelativeStart(start, |list|);
    if k < |list| then list[..k] + list[k + 1..] else list
  }

  /**
    `list.splice(findIndex(id), 1)`, the delete both variants perform: the
    first entry with the id goes, and for an unknown id the start -1 takes
    the last entry instead.
   */
  function SpliceById(list: State, id: string): (r: State)
    ensures HasId(list, id) ==> Removed(list, r, IndexById(list, id))
    ensures !HasId(list, id) && |list| > 0 ==> Removed(list, r, |list| - 1)
    ensures !HasId(list, id) && |list| == 0 ==> r == list
  {
    Splice1(list, IndexById(list, id))
  }

  /** `list'` is `list` without its element at `k`, the others in their order. */
  predicate Removed(list: State, list': State, k: int) {
    && 0 <= k < |list|
    && |list'| == |list| - 1
    && forall i {:trigger list'[i]} :: 0 <= i < |list'| ==> list'[i] == if i < k then list[i] else list[i + 1]
  }

  /** Element `i` of a list that lost its element at `k`. */
  lemma RemovedAt(list: State, list': State, k: int, i: int)
    requires Removed(list, list', k)
    requires 0 <= i < |list'|
    ensures |list'| == |list| - 1
    ensures list'[i] == if i < k then list[i] else list[i + 1]
  {
  }

  /** Identical ids at identical positions. */
  predicate SameIds(list: State, list': State) {
    |list| == |list'| && forall i :: 0 <= i < |list| ==> list[i].id == list'[i].id
  }

  /** `findIndex` on the id looks at nothing but the ids. */
  lemma {:induction false} IndexBySameIds(list: State, list': State, id: string)
    requires SameIds(list, list')
    ensures IndexById(list, id) == IndexById(list', id)
    ensures HasId(list, id) <==> HasId(list', id)
    decreases |list|
  {
    if |list| > 0 && list[0].id != id {
      assert SameIds(list[1..], list'[1..]) by {
        forall i | 0 <= i < |list| - 1
          ensures list[1..][i].id == list'[1..][i].id
        {
          assert list[1..][i] == list[i + 1] && list'[1..][i] == list'[i + 1];
        }
      }
      IndexBySameIds(list[1..], list'[1..], id);
    }
  }

  predicate NamesDistinct(list: State) {
    forall i, j :: 0 <= i < j < |list| ==> list[i].name != list[j].name
  }

  predicate IdsDistinct(list: State) {
    forall i, j :: 0 <= i < j < |list| ==> list[i].id != list[j].id
  }

  /** Every stored row has a non-empty "from" and a non-empty "to". */
  predicate RowsFilled(rowMap: map<string, string>) {
    forall k :: k in rowMap ==> k != "" && rowMap[k] != ""
  }

  /**
    What the strict store keeps: non-empty ids and names, names pairwise
    distinct, and no empty key or value in any row map.
   */
  predicate WellFormed(list: State) {
    && NamesDistinct(list)
    && forall i :: 0 <= i < |list| ==> list[i].id != "" && list[i].name != "" && RowsFilled(list[i].rowMap)
  }
}
