/**
  The store's error keys. The store throws `new Error(message)` with one of
  seven fixed messages; the model keeps the key and drops the wording.
  `RuntimeTypeError` stands for the TypeError the JavaScript engine raises
  when the store dereferences `dictionaryList[-1]`.
 */
module StoreErrors {

  datatype StoreError =
    | EmptyDictionaryName
    | EmptyDictionaryId
    | DuplicateDictionaryName
    | InvalidDictionaryId
    | InvalidRowData
    | DuplicateRowData
    | InvalidDictionaryRowId
    | RuntimeTypeError
}
