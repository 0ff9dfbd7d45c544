/** The import of a backup file: the parsed file replaces the stored
    collection only if its root is an array and every element carries a
    truthy `id`, `title` and `dateAdded`. One bad element refuses the whole
    file, and a refused file leaves storage as it was. */
module ImportCheck {
  import opened Wrappers
  import opened JsonValues

  /** Why an import was refused. `ParseFailed` is the `SyntaxError` of
      `JSON.parse`; `NullRecord` is the `TypeError` raised by reading `id`
      off a `null` element. Both carry a message the host writes. */
  datatype ImportError = ParseFailed | RootNotArray | NullRecord | MissingFields

  /** The status line shown for a refusal, where the code itself chose the
      message. */
  function StatusMessage(e: ImportError): (m: Option<string>)
    ensures m.Some? <==> e.RootNotArray? || e.MissingFields?
  {
    match e
    case RootNotArray => Some("Import failed: Root must be an array.")
    case MissingFields => Some("Import failed: One or more records are missing required fields.")
    case _ => None
  }

  /** The element test `r.id && r.title && r.dateAdded`, for an element that
      is not `null`. */
  predicate HasRequiredFields(r: Json) {
    PropTruthy(r, "id") && PropTruthy(r, "title") && PropTruthy(r, "dateAdded")
  }

  /** `data.every(test)`: the elements are tried in order and the first that
      fails decides. A `null` element throws before its test can fail; any
      other element without the three fields stops the walk with `false`.
      `None` means every element passed. */
  function Every(items: seq<Json>): (e: Option<ImportError>)
    ensures e.None? <==> forall r :: r in items ==> HasRequiredFields(r)
    ensures e.Some? ==> e.value.NullRecord? || e.value.MissingFields?
    decreases |items|
  {
    if items == [] then None
    else if items[0] == JNull then
      assert !HasRequiredFields(items[0]);
      Some(NullRecord)
    else if !HasRequiredFields(items[0]) then Some(MissingFields)
    else
      var rest := Every(items[1..]);
      assert forall r :: r in items ==> r == items[0] || r in items[1..];
      rest
  }

  /** The reader's `onload` handler: `parsed` is the result of `JSON.parse`
      (`None` when it throws). Success carries the array that `save` writes. */
  function Import(parsed: Option<Json>): (r: Result<seq<Json>, ImportError>)
    ensures r.Success? ==> parsed == Some(JArray(r.value))
    ensures parsed.None? ==> r == Failure(ParseFailed)
    ensures parsed.Some? && !parsed.value.JArray? ==> r == Failure(RootNotArray)
  {
    match parsed
    case None => Failure(ParseFailed)
    case Some(data) =>
      if !data.JArray? then Failure(RootNotArray)
      else
        match Every(data.items)
        case Some(e) => Failure(e)
        case None => Success(data.items)
  }

  /** The stored collection after the import: the file's array on success,
      the old contents otherwise. */
  function StoredAfterImport(stored: Json, parsed: Option<Json>): (after: Json)
    ensures Import(parsed).Failure? ==> after == stored
    ensures Import(parsed).Success? ==> after == parsed.value
  {
    match Import(parsed)
    case Success(items) => JArray(items)
    case Failure(_) => stored
  }

  /** A file the import accepts, stated without the walk. */
  ghost predicate Importable(data: Json) {
    data.JArray? && forall r :: r in data.items ==> HasRequiredFields(r)
  }

  /** The import succeeds exactly on importable files, and then saves the
      file's own array. */
  lemma ImportSucceedsIff(data: Json)
    ensures Import(Some(data)).Success? <==> Importable(data)
    ensures Importable(data) ==> Import(Some(data)) == Success(data.items)
  {
  }

  /** The first element that fails the test decides the error: a `null` one
      throws, any other is reported as missing fields. */
  lemma {:induction false} FirstBadElementDecides(items: seq<Json>, i: nat)
    requires i < |items| && !HasRequiredFields(items[i])
    requires forall k :: 0 <= k < i ==> HasRequiredFields(items[k])
    ensures Every(items) == Some(if items[i] == JNull then NullRecord else MissingFields)
    decreases i
  {
    if i > 0 {
      assert HasRequiredFields(items[0]) && items[0] != JNull;
      assert items[1..][i - 1] == items[i];
      FirstBadElementDecides(items[1..], i - 1);
    }
  }

  /** One bad element anywhere refuses the whole file. */
  lemma OneBadElementRefusesAll(items: seq<Json>, r: Json)
    requires r in items && !HasRequiredFields(r)
    ensures Import(Some(JArray(items))).Failure?
  {
  }

  /** An empty array is a valid backup: it empties the collection. */
  lemma EmptyArrayImports(stored: Json)
    ensures StoredAfterImport(stored, Some(JArray([]))) == JArray([])
  {
  }

  /** Where a `null` element sits relative to an incomplete one decides
      which error is shown. */
  lemma ErrorOrderExample()
    ensures Import(Some(JArray([JNull, JObject(map[])])))
         == Failure(NullRecord)
    ensures Import(Some(JArray([JObject(map[]), JNull])))
         == Failure(MissingFields)
  {
    assert !HasRequiredFields(JObject(map[]));
  }

  /** Empty strings and zero are falsy, so they count as missing; a
      non-empty string or non-zero number is enough. */
  lemma FalsyFieldsCountAsMissing()
    ensures !HasRequiredFields(JObject(map["id" := JString(""), "title" := JString("T"),
                                           "dateAdded" := JString("2024-01-01")]))
    ensures HasRequiredFields(JObject(map["id" := JNumber(7), "title" := JString("T"),
                                          "dateAdded" := JString("2024-01-01")]))
  {
  }
}
