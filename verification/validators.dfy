/** `validateItem`: the field checks a record must pass before it is stored,
    returning a map from field name to the message shown beside that field. */
module Validators {
  import opened Wrappers
  import opened Strings
  import opened JsValues
  import opened Records
  import opened TitlePattern
  import opened PagesPattern
  import opened DatePattern
  import opened TagPattern
  import opened DupWordPattern

  /** The messages shown beside a field. */
  datatype Message =
    | TitleRequired | TitleSpacing | TitleDuplicate
    | AuthorRequired | AuthorSpacing
    | PagesRequired | PagesFormat
    | TagRequired | TagFormat
    | DateRequired | DateFormat

  /** The text of each message, as the page shows it. */
  function MessageText(m: Message): string {
    match m
    case TitleRequired => "Title is required."
    case TitleSpacing => "Title must not have leading/trailing or double spaces."
    case TitleDuplicate => "Title contains a duplicate consecutive word."
    case AuthorRequired => "Author is required."
    case AuthorSpacing => "Author must not have leading/trailing spaces."
    case PagesRequired => "Pages is required."
    case PagesFormat => "Pages must be a positive number."
    case TagRequired => "Tag is required."
    case TagFormat => "Tag: use letters, #, spaces, or hyphens (e.g. #sci-fi)."
    case DateRequired => "Date is required."
    case DateFormat => "Date must be in YYYY-MM-DD format."
  }

  /** The keys an error map can carry. The date's key is `date`, not the
      record's field name `dateAdded`. */
  const FieldKeys: set<string> := {"title", "author", "pages", "tag", "date"}

  /** Is the record a book? Only books have their author and pages checked. */
  predicate IsBook(item: Record) {
    item.kind == Str("book")
  }

  // What each field must be, stated without the recognizers the checks run.

  /** Spacing only: something there, nothing for `trim` to remove, one line. */
  ghost predicate WellSpaced(s: string) {
    s != [] && Trim(s) == s && NoLineTerminator(s)
  }

  ghost predicate TitleOk(title: string) {
    WellSpaced(title) && !DupWordRe(title)
  }

  ghost predicate AuthorOk(author: Text) {
    author.Str? && WellSpaced(author.s)
  }

  /** A whole, non-negative page count. */
  ghost predicate PagesOk(pages: Pages) {
    pages.PagesNumber? && pages.n.Int? && pages.n.i >= 0
  }

  ghost predicate TagOk(tag: Text) {
    tag.Str? && TagRe(tag.s)
  }

  /** `YYYY-MM-DD` with a month in 1..12 and a day in 1..31. */
  ghost predicate DateOk(date: string) {
    && DateShape(date)
    && 1 <= TwoDigitValue(date[5], date[6]) <= 12
    && 1 <= TwoDigitValue(date[8], date[9]) <= 31
  }

  /** A record the form may store. */
  ghost predicate Acceptable(item: Record) {
    && TitleOk(item.title)
    && (IsBook(item) ==> AuthorOk(item.author) && PagesOk(item.pages))
    && TagOk(item.tag)
    && DateOk(item.dateAdded)
  }

  /** The spacing pattern accepts exactly the well-spaced strings. */
  lemma TitleReIsWellSpaced(s: string)
    ensures TitleRe(s) <==> WellSpaced(s)
  {
    TitleReIsTrimmedSingleLine(s);
  }

  /** The title check: required, then spacing, then duplicate words. */
  function TitleError(title: string): (e: Option<Message>)
    ensures e == None <==> TitleOk(title)
    ensures e == Some(TitleRequired) <==> title == []
    ensures e == Some(TitleSpacing) <==> title != [] && !WellSpaced(title)
    ensures e == Some(TitleDuplicate) <==> WellSpaced(title) && DupWordRe(title)
  {
    TitleReIsWellSpaced(title);
    HasDupWordCorrect(title);
    if title == [] then Some(TitleRequired)
    else if !TitleRe(title) then Some(TitleSpacing)
    else if HasDupWord(title) then Some(TitleDuplicate)
    else None
  }

  /** The author check applies the title's spacing rule, not its duplicate
      rule. */
  function AuthorError(author: Text): (e: Option<Message>)
    ensures e == None <==> AuthorOk(author)
    ensures e == Some(AuthorRequired) <==> !Truthy(author)
    ensures e == Some(AuthorSpacing) <==> Truthy(author) && !WellSpaced(author.s)
  {
    match author
    case Absent => Some(AuthorRequired)
    case Str(s) =>
      TitleReIsWellSpaced(s);
      if s == [] then Some(AuthorRequired)
      else if !TitleRe(s) then Some(AuthorSpacing)
      else None
  }

  /** The pages check. A missing, `null` or `NaN` count is "required"; zero is
      falsy but explicitly let through to the pattern, which accepts it; a
      negative count fails the pattern on its minus sign. */
  function PagesError(pages: Pages): (e: Option<Message>)
    ensures e == None <==> PagesOk(pages)
    ensures e == Some(PagesRequired) <==>
      pages.PagesUndefined? || pages.PagesNull? || pages == PagesNumber(NaN)
    ensures e == Some(PagesFormat) <==> pages.PagesNumber? && pages.n.Int? && pages.n.i < 0
  {
    if !PagesTruthy(pages) && pages != PagesNumber(Int(0)) then Some(PagesRequired)
    else
      IntegerPagesAccepted(pages.n.i);
      if !MatchPages(PagesToString(pages)) then Some(PagesFormat) else None
  }

  function TagError(tag: Text): (e: Option<Message>)
    ensures e == None <==> TagOk(tag)
    ensures e == Some(TagRequired) <==> !Truthy(tag)
    ensures e == Some(TagFormat) <==> Truthy(tag) && !TagRe(tag.s)
  {
    if !Truthy(tag) then Some(TagRequired)
    else
      MatchTagCorrect(tag.s);
      if !MatchTag(tag.s) then Some(TagFormat) else None
  }

  function DateError(date: string): (e: Option<Message>)
    ensures e == None <==> DateOk(date)
    ensures e == Some(DateRequired) <==> date == []
    ensures e == Some(DateFormat) <==> date != [] && !DateOk(date)
  {
    DateReIsRangeCheck(date);
    if date == [] then Some(DateRequired)
    else if !DateRe(date) then Some(DateFormat)
    else None
  }

  /** Adds the message, if there is one, under `key`. */
  function Put(m: map<string, Message>, key: string, e: Option<Message>): map<string, Message> {
    match e
    case None => m
    case Some(msg) => m[key := msg]
  }

  /** `m[key]`, with `undefined` for a missing key. */
  function Lookup(m: map<string, Message>, key: string): Option<Message> {
    if key in m then Some(m[key]) else None
  }

  /** The error map built from the five fields' outcomes, in the order the
      checks run. */
  function Collect(title: Option<Message>, author: Option<Message>, pages: Option<Message>,
                   tag: Option<Message>, date: Option<Message>): (errors: map<string, Message>)
    ensures errors.Keys <= FieldKeys
    ensures Lookup(errors, "title") == title && Lookup(errors, "author") == author
    ensures Lookup(errors, "pages") == pages && Lookup(errors, "tag") == tag
    ensures Lookup(errors, "date") == date
  {
    var m1 := Put(map[], "title", title);
    var m2 := Put(m1, "author", author);
    var m3 := Put(m2, "pages", pages);
    var m4 := Put(m3, "tag", tag);
    Put(m4, "date", date)
  }

  /** The error map of a record: one entry per failing field, holding that
      field's message. Only a book has its author and pages checked. */
  function ValidateItem(item: Record): (errors: map<string, Message>)
    ensures errors.Keys <= FieldKeys
    ensures Lookup(errors, "title") == TitleError(item.title)
    ensures Lookup(errors, "author") == if IsBook(item) then AuthorError(item.author) else None
    ensures Lookup(errors, "pages") == if IsBook(item) then PagesError(item.pages) else None
    ensures Lookup(errors, "tag") == TagError(item.tag)
    ensures Lookup(errors, "date") == DateError(item.dateAdded)
  {
    Collect(TitleError(item.title),
            if IsBook(item) then AuthorError(item.author) else None,
            if IsBook(item) then PagesError(item.pages) else None,
            TagError(item.tag),
            DateError(item.dateAdded))
  }

  /** A field is flagged exactly when its declarative rule fails. */
  lemma ValidateItemFields(item: Record)
    ensures "title" in ValidateItem(item) <==> !TitleOk(item.title)
    ensures "author" in ValidateItem(item) <==> IsBook(item) && !AuthorOk(item.author)
    ensures "pages" in ValidateItem(item) <==> IsBook(item) && !PagesOk(item.pages)
    ensures "tag" in ValidateItem(item) <==> !TagOk(item.tag)
    ensures "date" in ValidateItem(item) <==> !DateOk(item.dateAdded)
  {
    TitleFlagged(item);
    AuthorFlagged(item);
    PagesFlagged(item);
    TagFlagged(item);
    DateFlagged(item);
  }

  lemma TitleFlagged(item: Record)
    ensures "title" in ValidateItem(item) <==> !TitleOk(item.title)
  {
    var errors := ValidateItem(item);
    assert "title" in errors <==> Lookup(errors, "title").Some?;
  }

  lemma AuthorFlagged(item: Record)
    ensures "author" in ValidateItem(item) <==> IsBook(item) && !AuthorOk(item.author)
  {
    var errors := ValidateItem(item);
    assert "author" in errors <==> Lookup(errors, "author").Some?;
  }

  lemma PagesFlagged(item: Record)
    ensures "pages" in ValidateItem(item) <==> IsBook(item) && !PagesOk(item.pages)
  {
    var errors := ValidateItem(item);
    assert "pages" in errors <==> Lookup(errors, "pages").Some?;
  }

  lemma TagFlagged(item: Record)
    ensures "tag" in ValidateItem(item) <==> !TagOk(item.tag)
  {
    var errors := ValidateItem(item);
    assert "tag" in errors <==> Lookup(errors, "tag").Some?;
  }

  lemma DateFlagged(item: Record)
    ensures "date" in ValidateItem(item) <==> !DateOk(item.dateAdded)
  {
    var errors := ValidateItem(item);
    assert "date" in errors <==> Lookup(errors, "date").Some?;
  }

  /** The form commits exactly the records the declarative rules accept. */
  lemma ValidateItemEmptyIff(item: Record)
    ensures ValidateItem(item) == map[] <==> Acceptable(item)
  {
    var errors := ValidateItem(item);
    ValidateItemFields(item);
    if Acceptable(item) {
      assert errors.Keys <= FieldKeys - {"title", "author", "pages", "tag", "date"};
      assert FieldKeys - {"title", "author", "pages", "tag", "date"} == {};
    }
  }

  /** A note's author and pages are never looked at, whatever they hold. */
  lemma NoteIgnoresAuthorAndPages(item: Record, author: Text, pages: Pages)
    requires !IsBook(item)
    ensures ValidateItem(item.(author := author, pages := pages)) == ValidateItem(item)
  {
    var a := ValidateItem(item.(author := author, pages := pages));
    var b := ValidateItem(item);
    forall k | k in a ensures k in b && a[k] == b[k] {
      assert k in FieldKeys;
    }
    forall k | k in b ensures k in a {
      assert k in FieldKeys;
    }
  }

  /** A book with zero pages gets no pages error, while a missing count does. */
  lemma ZeroPagesIsNotMissing(item: Record)
    requires IsBook(item)
    ensures "pages" !in ValidateItem(item.(pages := PagesNumber(Int(0))))
    ensures ValidateItem(item.(pages := PagesUndefined))["pages"] == PagesRequired
    ensures ValidateItem(item.(pages := PagesNumber(Int(-3))))["pages"] == PagesFormat
  {
    ZeroPagesAccepted(item);
    MissingPagesRequired(item);
    NegativePagesRefused(item);
  }

  lemma ZeroPagesAccepted(item: Record)
    requires IsBook(item)
    ensures "pages" !in ValidateItem(item.(pages := PagesNumber(Int(0))))
  {
    PagesOutcome(item, PagesNumber(Int(0)), None);
  }

  lemma MissingPagesRequired(item: Record)
    requires IsBook(item)
    ensures ValidateItem(item.(pages := PagesUndefined))["pages"] == PagesRequired
  {
    PagesOutcome(item, PagesUndefined, Some(PagesRequired));
  }

  lemma NegativePagesRefused(item: Record)
    requires IsBook(item)
    ensures ValidateItem(item.(pages := PagesNumber(Int(-3))))["pages"] == PagesFormat
  {
    PagesOutcome(item, PagesNumber(Int(-3)), Some(PagesFormat));
  }

  /** The pages entry of a book's error map is the pages check's outcome. */
  lemma PagesOutcome(item: Record, pages: Pages, e: Option<Message>)
    requires IsBook(item) && PagesError(pages) == e
    ensures var errors := ValidateItem(item.(pages := pages));
      && (e.None? ==> "pages" !in errors)
      && (e.Some? ==> "pages" in errors && errors["pages"] == e.value)
  {
    var it := item.(pages := pages);
    assert IsBook(it);
    assert Lookup(ValidateItem(it), "pages") == e;
  }

  /** A title with a doubled word is refused with the duplicate message. */
  lemma DoubledWordTitle()
    ensures TitleError("the the cat") == Some(TitleDuplicate)
  {
    FlagsRepeat();
    HasDupWordCorrect("the the cat");
    TitleReWordExamples();
    TitleOutcome("the the cat", true);
  }

  /** A title with a double space passes: the pattern only constrains its
      ends. */
  lemma DoubleSpacedTitle()
    ensures TitleError("cat  dog") == None
  {
    CatDogHasNoRepeat();
    TitleReExamples();
    TitleOutcome("cat  dog", false);
  }

  /** A title that passes the spacing pattern is refused exactly when it
      repeats a word. */
  lemma TitleOutcome(title: string, dup: bool)
    requires TitleRe(title)
    requires HasDupWord(title) == dup
    ensures TitleError(title) == if dup then Some(TitleDuplicate) else None
  {
  }

  /** Two spaces in a row somewhere in `s`. */
  predicate HasDoubleSpace(s: string) {
    exists i :: 0 <= i < |s| - 1 && s[i] == ' ' && s[i + 1] == ' '
  }

  /** The title check its message describes: a double space is refused with
      the spacing message, as leading and trailing spaces are. */
  function IntendedTitleError(title: string): (e: Option<Message>)
    ensures e == None <==> TitleOk(title) && !HasDoubleSpace(title)
    ensures e == Some(TitleRequired) <==> title == []
    ensures e == Some(TitleSpacing) <==> title != [] && (!WellSpaced(title) || HasDoubleSpace(title))
    ensures e == Some(TitleDuplicate) <==> WellSpaced(title) && !HasDoubleSpace(title) && DupWordRe(title)
  {
    TitleReIsWellSpaced(title);
    HasDupWordCorrect(title);
    if title == [] then Some(TitleRequired)
    else if !TitleRe(title) || HasDoubleSpace(title) then Some(TitleSpacing)
    else if HasDupWord(title) then Some(TitleDuplicate)
    else None
  }

  /** The intended check refuses "cat  dog"; it agrees with the check as
      written on every title without a double space. */
  lemma IntendedTitleRefusesDoubleSpace(title: string)
    ensures IntendedTitleError("cat  dog") == Some(TitleSpacing)
    ensures !HasDoubleSpace(title) ==> IntendedTitleError(title) == TitleError(title)
  {
    assert "cat  dog"[3] == ' ' && "cat  dog"[4] == ' ';
  }

  lemma TitleSpacingExamples()
    ensures TitleError(" cat") == Some(TitleSpacing)
    ensures TitleError("cat ") == Some(TitleSpacing)
    ensures TitleError("") == Some(TitleRequired)
  {
    TitleReExamples();
  }
}
