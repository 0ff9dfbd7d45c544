/** Saving the item form: the record built from the form's fields, and the
    decision to add it, replace the edited record, or refuse it with the
    validator's messages. */
module Submit {
  import opened Wrappers
  import opened Chars
  import opened Strings
  import opened JsValues
  import opened Records
  import opened Validators
  import opened State
  import opened TitlePattern

  /** The raw values of the form's inputs. */
  datatype Form = Form(
    kind: string,
    title: string,
    author: string,
    pages: string,
    tag: string,
    dateAdded: string,
    noteContent: string)

  /** What the host supplies: `Date.now()`, and the two readings of
      `new Date().toISOString()` for the creation and update stamps. */
  datatype Clock = Clock(millis: nat, createdIso: string, updatedIso: string)

  /** `form.dataset.editingId || null`: editing only with a non-empty id. */
  predicate Editing(editingId: Text) {
    Truthy(editingId)
  }

  /** The record being edited, if the collection still holds it. */
  function Existing(books: seq<Record>, editingId: Text): Option<Record> {
    if Editing(editingId) then Find(books, editingId.s) else None
  }

  /** The id of a new record: "item_" followed by the clock's milliseconds. */
  function NewId(clock: Clock): string {
    "item_" + NatString(clock.millis)
  }

  /** The record the form describes. `fileData` is the chosen cover read as a
      data URL, or "" when no file is chosen or it cannot be read. */
  function BuildItem(form: Form, editingId: Text, books: seq<Record>,
                     fileData: string, clock: Clock): (item: Record)
    ensures item.id == if Editing(editingId) then editingId.s else NewId(clock)
    ensures item.kind == Str(form.kind)
    ensures item.title == Trim(form.title) && item.tag == Str(Trim(form.tag))
    ensures item.dateAdded == form.dateAdded
    ensures form.kind == "book" ==>
      item.author == Str(Trim(form.author)) && item.pages == PagesNumber(StringToNumber(form.pages))
    ensures form.kind != "book" ==> item.author == Str("") && item.pages == PagesNumber(Int(0))
    ensures item.noteContent == Str(if form.kind == "note" then Trim(form.noteContent) else "")
    ensures fileData != [] ==> item.coverUrl == Str(fileData)
    ensures fileData == [] ==>
      item.coverUrl == (match Existing(books, editingId) case Some(e) => e.coverUrl case None => Str(""))
    ensures item.createdAt ==
      (match Existing(books, editingId) case Some(e) => e.createdAt case None => Str(clock.createdIso))
    ensures item.updatedAt == Str(clock.updatedIso)
  {
    var existing := Existing(books, editingId);
    var isBook := form.kind == "book";
    Record(
      id := if Editing(editingId) then editingId.s else NewId(clock),
      kind := Str(form.kind),
      title := Trim(form.title),
      author := Str(if isBook then Trim(form.author) else ""),
      pages := PagesNumber(if isBook then StringToNumber(form.pages) else Int(0)),
      tag := Str(Trim(form.tag)),
      dateAdded := form.dateAdded,
      noteContent := Str(if form.kind == "note" then Trim(form.noteContent) else ""),
      coverUrl := if fileData != [] then Str(fileData)
                  else if existing.Some? then existing.value.coverUrl
                  else Str(""),
      createdAt := if existing.Some? then existing.value.createdAt else Str(clock.createdIso),
      updatedAt := Str(clock.updatedIso))
  }

  /** The store after the submission, the messages shown, and the record
      that was built. */
  datatype Outcome = Outcome(store: Store, errors: map<string, Message>, item: Record)

  /** The commit decision: refuse on any message, otherwise update when
      editing and add when not. */
  function Commit(s: Store, item: Record, errors: map<string, Message>, editing: bool): (t: Store)
    ensures errors != map[] ==> t == s
    ensures errors == map[] && editing ==> t == UpdateBook(s, item)
    ensures errors == map[] && !editing ==> t == AddBook(s, item)
  {
    if errors != map[] then s
    else if editing then UpdateBook(s, item)
    else AddBook(s, item)
  }

  /** `handleFormSubmit`: validate, then update when editing or add. The
      source refuses when `Object.keys(errors).length > 0`, that is, when
      the map is not empty. */
  function SubmitForm(s: Store, form: Form, editingId: Text, fileData: string, clock: Clock): (o: Outcome)
    ensures o.item == BuildItem(form, editingId, s.books, fileData, clock)
    ensures o.errors == ValidateItem(o.item)
    ensures o.errors != map[] ==> o.store == s
    ensures o.errors == map[] && Editing(editingId) ==> o.store == UpdateBook(s, o.item)
    ensures o.errors == map[] && !Editing(editingId) ==> o.store == AddBook(s, o.item)
  {
    var item := BuildItem(form, editingId, s.books, fileData, clock);
    var errors := ValidateItem(item);
    Outcome(Commit(s, item, errors, Editing(editingId)), errors, item)
  }

  /** What a submission shows from outside: it is saved exactly when the
      built record passes the validator; the store changes only through a
      save, which always reaches storage; a new record is appended at the
      end; and an edit of a record still present is found under its id. */
  lemma SubmitOutcome(s: Store, form: Form, editingId: Text, fileData: string, clock: Clock)
    ensures var o := SubmitForm(s, form, editingId, fileData, clock);
      && (o.errors == map[] <==> Acceptable(o.item))
      && (o.store != s ==> o.errors == map[] && Persisted(o.store))
      && (o.errors == map[] ==> Persisted(o.store))
      && (o.errors == map[] && !Editing(editingId) ==> o.store.books == s.books + [o.item])
      && (o.errors == map[] && Editing(editingId) && HasId(s.books, o.item.id) ==>
            Find(o.store.books, o.item.id) == Some(o.item))
  {
    var o := SubmitForm(s, form, editingId, fileData, clock);
    CommittedOutcome(s, o, Editing(editingId));
  }

  /** A saved edit never changes the list of ids, in content or order. */
  lemma SubmitEditKeepsIds(s: Store, form: Form, editingId: Text, fileData: string, clock: Clock)
    ensures var o := SubmitForm(s, form, editingId, fileData, clock);
      Editing(editingId) ==> Ids(o.store.books) == Ids(s.books)
  {
    var o := SubmitForm(s, form, editingId, fileData, clock);
    CommittedOutcome(s, o, Editing(editingId));
  }

  /** `SubmitOutcome` for any outcome that validates its item and commits
      it as `Commit` does. */
  lemma CommittedOutcome(s: Store, o: Outcome, editing: bool)
    requires o.errors == ValidateItem(o.item)
    requires o.errors != map[] ==> o.store == s
    requires o.errors == map[] && editing ==> o.store == UpdateBook(s, o.item)
    requires o.errors == map[] && !editing ==> o.store == AddBook(s, o.item)
    ensures o.errors == map[] <==> Acceptable(o.item)
    ensures o.store != s ==> o.errors == map[] && Persisted(o.store)
    ensures o.errors == map[] ==> Persisted(o.store)
    ensures o.errors == map[] && !editing ==> o.store.books == s.books + [o.item]
    ensures o.errors == map[] && editing && HasId(s.books, o.item.id) ==>
      Find(o.store.books, o.item.id) == Some(o.item) && Ids(o.store.books) == Ids(s.books)
  {
    ValidateItemEmptyIff(o.item);
    if o.errors == map[] {
      if editing {
        FindAfterUpdate(s, o.item);
      } else {
        assert o.store.books == s.books + [o.item];
      }
    }
  }

  /** Every stored record passes the validator. */
  ghost predicate AllAcceptable(books: seq<Record>) {
    forall b :: b in books ==> Acceptable(b)
  }

  /** Adding an acceptable record keeps every record acceptable. */
  lemma AddKeepsAcceptable(s: Store, item: Record)
    requires AllAcceptable(s.books) && Acceptable(item)
    ensures AllAcceptable(AddBook(s, item).books)
  {
    var t := AddBook(s, item).books;
    forall b | b in t ensures Acceptable(b) {
      var i :| 0 <= i < |t| && t[i] == b;
      if i < |s.books| {
        assert t[..|s.books|][i] == b;
      }
    }
  }

  /** Updating with an acceptable record keeps every record acceptable. */
  lemma UpdateKeepsAcceptable(s: Store, item: Record)
    requires AllAcceptable(s.books) && Acceptable(item)
    ensures AllAcceptable(UpdateBook(s, item).books)
  {
    var t := UpdateBook(s, item).books;
    forall b | b in t ensures Acceptable(b) {
      var i :| 0 <= i < |t| && t[i] == b;
      assert s.books[i] in s.books;
    }
  }

  /** A submission never lets an invalid record into the collection: if all
      records were acceptable before, they all are after. Storage keeps up
      unless the submission was refused, in which case nothing changes. */
  lemma SubmitKeepsRecordsValid(s: Store, form: Form, editingId: Text, fileData: string, clock: Clock)
    requires AllAcceptable(s.books)
    ensures var o := SubmitForm(s, form, editingId, fileData, clock);
      AllAcceptable(o.store.books) && (o.errors == map[] ==> Persisted(o.store))
  {
    var o := SubmitForm(s, form, editingId, fileData, clock);
    if o.errors == map[] {
      ValidateItemEmptyIff(o.item);
      if Editing(editingId) {
        UpdateKeepsAcceptable(s, o.item);
      } else {
        AddKeepsAcceptable(s, o.item);
      }
    }
  }

  /** A saved new record keeps ids unique when the clock's id is fresh; a
      saved edit never changes the list of ids. */
  lemma SubmitKeepsIdsUnique(s: Store, form: Form, editingId: Text, fileData: string, clock: Clock)
    requires UniqueIds(s.books)
    requires !Editing(editingId) ==> !HasId(s.books, NewId(clock))
    ensures UniqueIds(SubmitForm(s, form, editingId, fileData, clock).store.books)
  {
    var o := SubmitForm(s, form, editingId, fileData, clock);
    if o.errors == map[] {
      if Editing(editingId) {
        UpdateKeepsUniqueIds(s, o.item);
      } else {
        AddKeepsUniqueIdsIff(s, o.item);
      }
    }
  }

  /** With unique ids, looking an id up finds the one record carrying it. */
  lemma FindUnique(books: seq<Record>, id: string, i: nat)
    requires i < |books| && books[i].id == id && UniqueIds(books)
    ensures Find(books, id) == Some(books[i])
  {
    var k :| FirstWithId(books, id, k) && books[k] == Find(books, id).value;
  }

  /** An edit keeps the record's id and creation stamp and lands where the
      record was. */
  lemma EditReplacesInPlace(s: Store, form: Form, id: string, fileData: string, clock: Clock, i: nat)
    requires i < |s.books| && s.books[i].id == id && id != []
    requires UniqueIds(s.books)
    ensures var o := SubmitForm(s, form, Str(id), fileData, clock);
      && o.item.id == id
      && o.item.createdAt == s.books[i].createdAt
      && (fileData == [] ==> o.item.coverUrl == s.books[i].coverUrl)
      && (o.errors == map[] ==> o.store.books == s.books[i := o.item])
  {
    FindUnique(s.books, id, i);
    var o := SubmitForm(s, form, Str(id), fileData, clock);
    if o.errors == map[] {
      UpdateReplacesOne(s, o.item, i);
    }
  }

  /** Editing a record that was deleted meanwhile saves nothing new: the
      update finds no record with the id and leaves the collection as it
      was, although the submission passed validation. */
  lemma EditOfVanishedRecordIsLost(s: Store, form: Form, id: string, fileData: string, clock: Clock)
    requires id != [] && !HasId(s.books, id)
    ensures var o := SubmitForm(s, form, Str(id), fileData, clock);
      o.errors == map[] ==> o.store.books == s.books && !HasId(o.store.books, id)
  {
    var o := SubmitForm(s, form, Str(id), fileData, clock);
    if o.errors == map[] {
      UpdateAbsent(s, o.item);
    }
  }

  /** The commit the success message promises: an edit whose record has
      gone from the collection is added back instead of being dropped. */
  function CommitKeepingEdits(s: Store, item: Record, errors: map<string, Message>, editing: bool): (t: Store)
    ensures errors != map[] ==> t == s
    ensures errors == map[] ==> Persisted(t) && HasId(t.books, item.id)
    ensures errors == map[] && editing ==> Find(t.books, item.id) == Some(item)
    ensures errors == map[] && editing && HasId(s.books, item.id) ==> t == UpdateBook(s, item)
  {
    if errors != map[] then s
    else if editing && HasId(s.books, item.id) then
      FindAfterUpdate(s, item);
      UpdateBook(s, item)
    else
      var t := AddBook(s, item);
      assert t.books[|s.books|] == item;
      if editing then FindAfterAdd(s, item); t else t
  }

  /** The form trims the title, so its spacing message can only come from a
      line break inside it; an empty title gets the "required" message. */
  lemma FormTitleSpacing(s: Store, form: Form, editingId: Text, fileData: string, clock: Clock)
    ensures var o := SubmitForm(s, form, editingId, fileData, clock);
      "title" in o.errors && o.errors["title"] == TitleSpacing ==> !NoLineTerminator(o.item.title)
  {
    var title := Trim(form.title);
    TrimIdempotent(form.title);
  }

  /** A note is never refused for its author or pages. */
  lemma NoteSkipsBookFields(s: Store, form: Form, editingId: Text, fileData: string, clock: Clock)
    requires form.kind == "note"
    ensures var o := SubmitForm(s, form, editingId, fileData, clock);
      "author" !in o.errors && "pages" !in o.errors
  {
  }

  /** A book whose pages box is left blank is saved with 0 pages:
      `Number("")` is 0, and 0 passes the pages check. */
  lemma BlankPagesBecomeZero(s: Store, form: Form, editingId: Text, fileData: string, clock: Clock)
    requires form.kind == "book" && Trim(form.pages) == []
    ensures var o := SubmitForm(s, form, editingId, fileData, clock);
      o.item.pages == PagesNumber(Int(0)) && "pages" !in o.errors
  {
  }

  /** A whole page count typed into the form is stored as that number. */
  lemma TypedPagesStored(s: Store, form: Form, editingId: Text, fileData: string, clock: Clock, n: int)
    requires form.kind == "book" && form.pages == DecimalString(n)
    ensures var o := SubmitForm(s, form, editingId, fileData, clock);
      && o.item.pages == PagesNumber(Int(n))
      && ("pages" in o.errors <==> n < 0)
  {
    StringToNumberRoundTrip(n);
  }
}
