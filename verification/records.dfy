/** A catalog entry: a book or a note, sharing one shape. */
module Records {
  import opened Wrappers
  import opened JsValues

  /** One stored record. The source's `type` field is called `kind` here
      (`type` is a Dafny keyword). `id`, `title` and `dateAdded` are strings
      here: the form always sets them as strings. An imported file only has to
      make them truthy, so it may hold a number there (`id: 7`) or a page count
      written as text; such records are outside this type. The other text
      fields may be missing from records that came from an imported file. */
  datatype Record = Record(
    id: string,
    kind: Text,
    title: string,
    author: Text,
    pages: Pages,
    tag: Text,
    dateAdded: string,
    noteContent: Text,
    coverUrl: Text,
    createdAt: Text,
    updatedAt: Text)

  /** The ids of a collection, in order. */
  function Ids(books: seq<Record>): (ids: seq<string>)
    ensures |ids| == |books|
    ensures forall i :: 0 <= i < |books| ==> ids[i] == books[i].id
  {
    if books == [] then [] else [books[0].id] + Ids(books[1..])
  }

  /** No two records share an id. */
  ghost predicate UniqueIds(books: seq<Record>) {
    forall i, j :: 0 <= i < j < |books| ==> books[i].id != books[j].id
  }

  /** Some record carries this id. */
  predicate HasId(books: seq<Record>, id: string) {
    exists i :: 0 <= i < |books| && books[i].id == id
  }

  /** `i` is the first position holding a record with the id. */
  predicate FirstWithId(books: seq<Record>, id: string, i: int) {
    0 <= i < |books| && books[i].id == id && forall j :: 0 <= j < i ==> books[j].id != id
  }

  /** `books.find(b => b.id === id)`: the first record with the id. */
  function Find(books: seq<Record>, id: string): (r: Option<Record>)
    ensures r.None? <==> !HasId(books, id)
    ensures r.Some? ==> exists i :: FirstWithId(books, id, i) && books[i] == r.value
  {
    if books == [] then None
    else if books[0].id == id then
      assert FirstWithId(books, id, 0);
      Some(books[0])
    else
      var r := Find(books[1..], id);
      assert r.Some? ==> exists i :: FirstWithId(books, id, i) && books[i] == r.value by {
        if r.Some? {
          var i :| FirstWithId(books[1..], id, i) && books[1..][i] == r.value;
          forall j | 0 <= j < i + 1 ensures books[j].id != id {
            if j > 0 { assert books[j] == books[1..][j - 1]; }
          }
          assert FirstWithId(books, id, i + 1);
        }
      }
      assert !HasId(books[1..], id) ==> !HasId(books, id) by {
        if HasId(books, id) {
          var i :| 0 <= i < |books| && books[i].id == id;
          assert books[1..][i - 1] == books[i];
        }
      }
      r
  }
}
