/** The in-memory collection and its persisted copy. Every change to the
    collection writes the whole collection back to storage, so after each
    operation the persisted copy equals the collection. */
module State {
  import opened Wrappers
  import opened Seqs
  import opened JsValues
  import opened Records

  /** `books` is the module's collection; `saved` is what storage holds. */
  datatype Store = Store(books: seq<Record>, saved: seq<Record>)

  /** Storage holds exactly the collection. */
  predicate Persisted(s: Store) {
    s.saved == s.books
  }

  /** The load-time default: a record without a truthy `type` is a book. */
  function WithDefaultKind(r: Record): (d: Record)
    ensures Truthy(d.kind)
    ensures Truthy(r.kind) ==> d == r
    ensures d.(kind := r.kind) == r
    ensures d.kind == r.kind || d.kind == Str("book")
  {
    if Truthy(r.kind) then r else r.(kind := Str("book"))
  }

  /** The collection as loaded from storage. Storage itself is not written
      at load time: it keeps the raw records until the next change. */
  function Load(stored: seq<Record>): (s: Store)
    ensures s.saved == stored
    ensures |s.books| == |stored|
    ensures forall i :: 0 <= i < |stored| ==> s.books[i] == WithDefaultKind(stored[i])
    ensures forall r :: r in s.books ==> Truthy(r.kind)
  {
    var books := seq(|stored|, i requires 0 <= i < |stored| => WithDefaultKind(stored[i]));
    Store(books, stored)
  }

  /** The test `b => b.id !== id`, defined once so that every use of it is
      the same function value. */
  function OtherId(id: string): Record -> bool {
    (b: Record) => b.id != id
  }

  /** `addBook`: append, then save. */
  function AddBook(s: Store, book: Record): (t: Store)
    ensures Persisted(t)
    ensures |t.books| == |s.books| + 1
    ensures t.books[..|s.books|] == s.books && t.books[|s.books|] == book
  {
    var books := s.books + [book];
    assert books[..|s.books|] == s.books;
    Store(books, books)
  }

  /** `deleteBook`: keep every record with another id, in order, then save. */
  function DeleteBook(s: Store, id: string): (t: Store)
    ensures Persisted(t)
    ensures !HasId(t.books, id)
    ensures forall b :: b in t.books <==> b in s.books && b.id != id
    ensures forall b: Record :: b.id != id ==> multiset(t.books)[b] == multiset(s.books)[b]
    ensures IsSubsequence(t.books, s.books)
  {
    var books := Filter(s.books, OtherId(id));
    FilterMembers(s.books, OtherId(id));
    FilterCounts(s.books, OtherId(id));
    FilterIsSubsequence(s.books, OtherId(id));
    forall i | 0 <= i < |books| ensures books[i].id != id {
      assert books[i] in books;
    }
    Store(books, books)
  }

  /** `updateBook`: every record carrying the updated record's id is
      replaced by it, the others stay where they are, then save. */
  function UpdateBook(s: Store, updated: Record): (t: Store)
    ensures Persisted(t)
    ensures |t.books| == |s.books|
    ensures forall i :: 0 <= i < |s.books| && s.books[i].id == updated.id ==> t.books[i] == updated
    ensures forall i :: 0 <= i < |s.books| && s.books[i].id != updated.id ==> t.books[i] == s.books[i]
    ensures Ids(t.books) == Ids(s.books)
  {
    var books := seq(|s.books|, i requires 0 <= i < |s.books| =>
      if s.books[i].id == updated.id then updated else s.books[i]);
    Store(books, books)
  }

  // Laws relating the operations.

  /** Loading an already loaded collection changes nothing further. */
  lemma LoadIdempotent(stored: seq<Record>)
    ensures Load(Load(stored).books).books == Load(stored).books
    ensures Ids(Load(stored).books) == Ids(stored)
  {
  }

  /** Deleting twice is deleting once. */
  lemma DeleteIdempotent(s: Store, id: string)
    ensures DeleteBook(DeleteBook(s, id), id) == DeleteBook(s, id)
  {
    var once := DeleteBook(s, id).books;
    FilterAll(once, OtherId(id));
  }

  /** Deleting an id no record carries only saves the collection. */
  lemma DeleteAbsent(s: Store, id: string)
    requires !HasId(s.books, id)
    ensures DeleteBook(s, id).books == s.books
  {
    forall b | b in s.books ensures OtherId(id)(b) {
      var i :| 0 <= i < |s.books| && s.books[i] == b;
    }
    FilterAll(s.books, OtherId(id));
  }

  /** Adding a record and deleting its id removes it together with any older
      record under the same id. */
  lemma DeleteAfterAdd(s: Store, book: Record)
    ensures DeleteBook(AddBook(s, book), book.id) == DeleteBook(s, book.id)
  {
    FilterConcat(s.books, [book], OtherId(book.id));
    assert Filter([book], OtherId(book.id)) == [];
    assert Filter(s.books, OtherId(book.id)) + [] == Filter(s.books, OtherId(book.id));
  }

  /** With a fresh id, deleting right after adding restores the collection. */
  lemma AddThenDeleteRestores(s: Store, book: Record)
    requires !HasId(s.books, book.id)
    ensures DeleteBook(AddBook(s, book), book.id).books == s.books
  {
    DeleteAfterAdd(s, book);
    DeleteAbsent(s, book.id);
  }

  /** Updating an id no record carries only saves the collection. */
  lemma UpdateAbsent(s: Store, updated: Record)
    requires !HasId(s.books, updated.id)
    ensures UpdateBook(s, updated).books == s.books
  {
    var t := UpdateBook(s, updated).books;
    forall i | 0 <= i < |s.books| ensures t[i] == s.books[i] {
      assert s.books[i].id != updated.id;
    }
  }

  /** Updating twice with the same record is updating once. */
  lemma UpdateIdempotent(s: Store, updated: Record)
    ensures UpdateBook(UpdateBook(s, updated), updated) == UpdateBook(s, updated)
  {
  }

  /** After an update, looking the id up finds the updated record, provided
      the id was there to update. */
  lemma FindAfterUpdate(s: Store, updated: Record)
    ensures Find(UpdateBook(s, updated).books, updated.id)
         == (if HasId(s.books, updated.id) then Some(updated) else None)
  {
    var t := UpdateBook(s, updated).books;
    var f := Find(t, updated.id);
    if f.Some? {
      var i :| FirstWithId(t, updated.id, i) && t[i] == f.value;
      assert f == Some(updated);
    }
  }

  /** After adding a record whose id is new, looking the id up finds it. */
  lemma FindAfterAdd(s: Store, book: Record)
    requires !HasId(s.books, book.id)
    ensures Find(AddBook(s, book).books, book.id) == Some(book)
  {
    var t := AddBook(s, book).books;
    assert t[|s.books|] == book;
    var f := Find(t, book.id);
    assert FirstWithId(t, book.id, |s.books|);
    var i :| FirstWithId(t, book.id, i) && t[i] == f.value;
    assert t[..|s.books|] == s.books;
  }

  /** With unique ids, an update replaces exactly the one record carrying
      the id, at its position. */
  lemma UpdateReplacesOne(s: Store, updated: Record, i: nat)
    requires i < |s.books| && s.books[i].id == updated.id && UniqueIds(s.books)
    ensures UpdateBook(s, updated).books == s.books[i := updated]
  {
    var t := UpdateBook(s, updated).books;
    forall j | 0 <= j < |t| ensures t[j] == s.books[i := updated][j] {
      if j != i {
        assert s.books[j].id != updated.id;
      }
    }
  }

  /** Updates keep ids unique: they never change the list of ids. */
  lemma UpdateKeepsUniqueIds(s: Store, updated: Record)
    requires UniqueIds(s.books)
    ensures UniqueIds(UpdateBook(s, updated).books)
  {
    var t := UpdateBook(s, updated).books;
    forall i, j | 0 <= i < j < |t| ensures t[i].id != t[j].id {
      assert Ids(t)[i] == Ids(s.books)[i] && Ids(t)[j] == Ids(s.books)[j];
    }
  }

  /** Deletes keep ids unique: the result is a subsequence. */
  lemma DeleteKeepsUniqueIds(s: Store, id: string)
    requires UniqueIds(s.books)
    ensures UniqueIds(DeleteBook(s, id).books)
  {
    var t := DeleteBook(s, id).books;
    var idx :| Embedding(t, s.books, idx);
    forall i, j | 0 <= i < j < |t| ensures t[i].id != t[j].id {
      assert t[i] == s.books[idx[i]] && t[j] == s.books[idx[j]];
    }
  }

  /** An add keeps ids unique exactly when the new id is fresh. */
  lemma AddKeepsUniqueIdsIff(s: Store, book: Record)
    requires UniqueIds(s.books)
    ensures UniqueIds(AddBook(s, book).books) <==> !HasId(s.books, book.id)
  {
    var t := AddBook(s, book).books;
    if HasId(s.books, book.id) {
      var i :| 0 <= i < |s.books| && s.books[i].id == book.id;
      assert t[i] == s.books[i] && t[|s.books|] == book;
    } else {
      forall i, j | 0 <= i < j < |t| ensures t[i].id != t[j].id {
        if j == |s.books| {
          assert t[i] == s.books[i];
        } else {
          assert t[i] == s.books[i] && t[j] == s.books[j];
        }
      }
    }
  }
}
