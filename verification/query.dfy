/** The search filter and the sort behind the records list, and the search
    filter behind the dashboard. The compiled search pattern is given as its
    `test` function, or `None` when the pattern did not compile. */
module Query {
  import opened Wrappers
  import opened Seqs
  import opened Sorting
  import opened Strings
  import opened JsValues
  import opened Records

  // ---- Search ----

  /** The pattern matches one of the searchable texts: the title, the author
      or "", the tag as text, the note or "". */
  predicate Matches(test: string -> bool, b: Record) {
    || test(b.title)
    || test(OrElse(b.author, ""))
    || test(ToStr(b.tag))
    || test(OrElse(b.noteContent, ""))
  }

  /** Is the search box effectively empty? */
  predicate Blank(input: string) {
    Trim(input) == []
  }

  /** The records-list test: everything passes an empty search, nothing
      passes a search whose pattern did not compile. */
  function KeepInList(input: string, regex: Option<string -> bool>): Record -> bool {
    b => if Blank(input) then true else if regex.None? then false else Matches(regex.value, b)
  }

  function FilterList(books: seq<Record>, input: string, regex: Option<string -> bool>): (r: seq<Record>)
    ensures forall b :: b in r <==> b in books && (Blank(input) || (regex.Some? && Matches(regex.value, b)))
    ensures forall b: Record :: multiset(r)[b] == if Blank(input) || (regex.Some? && Matches(regex.value, b)) then multiset(books)[b] else 0
    ensures IsSubsequence(r, books)
  {
    var keep := KeepInList(input, regex);
    FilterMembers(books, keep);
    FilterCounts(books, keep);
    FilterIsSubsequence(books, keep);
    Filter(books, keep)
  }

  /** The dashboard test, `regex && (…)`, applied only to a non-blank query. */
  function KeepOnDashboard(regex: Option<string -> bool>): Record -> bool {
    b => regex.Some? && Matches(regex.value, b)
  }

  function FilterDashboard(books: seq<Record>, query: string, regex: Option<string -> bool>): seq<Record> {
    if !Blank(query) then Filter(books, KeepOnDashboard(regex)) else books
  }

  /** The two views select the same records for the same search. */
  lemma DashboardAgreesWithList(books: seq<Record>, input: string, regex: Option<string -> bool>)
    ensures FilterDashboard(books, input, regex) == FilterList(books, input, regex)
  {
    if Blank(input) {
      FilterAll(books, KeepInList(input, regex));
    } else {
      FilterCongruent(books, KeepOnDashboard(regex), KeepInList(input, regex));
    }
  }

  /** A blank search shows the whole collection, in order. */
  lemma BlankSearchKeepsAll(books: seq<Record>, input: string, regex: Option<string -> bool>)
    requires Blank(input)
    ensures FilterList(books, input, regex) == books
  {
    FilterAll(books, KeepInList(input, regex));
  }

  /** A search whose pattern failed to compile shows nothing. */
  lemma BadPatternKeepsNone(books: seq<Record>, input: string)
    requires !Blank(input)
    ensures FilterList(books, input, None) == []
  {
    FilterNone(books, KeepInList(input, None));
  }

  // ---- Sort ----

  /** The value a record is compared on: text, or a number for "pages". */
  datatype SortKey = TextKey(s: string) | NumberKey(n: Number)

  /** `a[sortField] ?? ''`, then `Number(…)` when sorting by pages: a missing
      or `null` count becomes `Number('')`, which is 0. A field name that is
      not a record field reads `undefined` everywhere, so every key is "". */
  function KeyOf(b: Record, field: string): SortKey {
    if field == "pages" then
      NumberKey(match b.pages
        case PagesNumber(n) => n
        case _ => Int(0))
    else TextKey(
      if field == "id" then b.id
      else if field == "type" then Coalesce(b.kind, "")
      else if field == "title" then b.title
      else if field == "author" then Coalesce(b.author, "")
      else if field == "tag" then Coalesce(b.tag, "")
      else if field == "dateAdded" then b.dateAdded
      else if field == "noteContent" then Coalesce(b.noteContent, "")
      else if field == "coverUrl" then Coalesce(b.coverUrl, "")
      else if field == "createdAt" then Coalesce(b.createdAt, "")
      else if field == "updatedAt" then Coalesce(b.updatedAt, "")
      else "")
  }

  /** JavaScript's `<` on two keys of the same kind; `NaN` is below nothing
      and nothing is below it. */
  predicate KeyLess(a: SortKey, b: SortKey) {
    match (a, b)
    case (TextKey(x), TextKey(y)) => LexLess(x, y)
    case (NumberKey(Int(x)), NumberKey(Int(y))) => x < y
    case _ => false
  }

  /** The text of the direction button that means ascending. */
  const UpArrow := "\U{2191}"

  /** `sortDir` from the direction arrow: 1 for UpArrow, otherwise -1. */
  function SortDir(arrow: string): (dir: int)
    ensures dir == 1 || dir == -1
    ensures dir == 1 <==> arrow == UpArrow
  {
    if arrow == UpArrow then 1 else -1
  }

  /** The comparator `av < bv ? -dir : av > bv ? dir : 0`. */
  function Compare(a: SortKey, b: SortKey, dir: int): int {
    if KeyLess(a, b) then -dir else if KeyLess(b, a) then dir else 0
  }

  /** The comparator is negative: `a` is placed before `b`. */
  function Before(field: string, dir: int): (Record, Record) -> bool {
    (a, b) => Compare(KeyOf(a, field), KeyOf(b, field), dir) < 0
  }

  function SortList(books: seq<Record>, field: string, dir: int): (r: seq<Record>)
    ensures multiset(r) == multiset(books)
  {
    SortBy(Before(field, dir), books)
  }

  /** The records list: filter, then sort. */
  function RecordsList(books: seq<Record>, input: string, regex: Option<string -> bool>,
                       field: string, arrow: string): (r: seq<Record>)
    ensures multiset(r) == multiset(FilterList(books, input, regex))
  {
    SortList(FilterList(books, input, regex), field, SortDir(arrow))
  }

  /** A key other than `NaN`: the comparator is consistent on such keys. */
  predicate Comparable(k: SortKey) {
    k != NumberKey(NaN)
  }

  lemma KeyLessIrreflexive(a: SortKey)
    ensures !KeyLess(a, a)
  {
    if a.TextKey? {
      LexLessIrreflexive(a.s);
    }
  }

  lemma KeyLessTransitive(a: SortKey, b: SortKey, c: SortKey)
    requires KeyLess(a, b) && KeyLess(b, c)
    ensures KeyLess(a, c)
  {
    if a.TextKey? {
      LexLessTransitive(a.s, b.s, c.s);
    }
  }

  /** Two comparable keys of the same kind are equal or ordered. */
  lemma KeyLessTotal(a: SortKey, b: SortKey)
    requires Comparable(a) && Comparable(b) && a.TextKey? == b.TextKey?
    ensures a == b || KeyLess(a, b) || KeyLess(b, a)
  {
    if a.TextKey? {
      LexLessTotal(a.s, b.s);
    }
  }

  /** With direction 1 the comparator places `a` first exactly when its key
      is smaller, with direction -1 exactly when its key is larger. */
  lemma BeforeMeaning(field: string, dir: int, a: Record, b: Record)
    requires dir == 1 || dir == -1
    ensures Before(field, dir)(a, b) <==>
      if dir == 1 then KeyLess(KeyOf(a, field), KeyOf(b, field))
      else KeyLess(KeyOf(b, field), KeyOf(a, field))
  {
    var ka, kb := KeyOf(a, field), KeyOf(b, field);
    if KeyLess(ka, kb) && KeyLess(kb, ka) {
      KeyLessTransitive(ka, kb, ka);
      KeyLessIrreflexive(ka);
    }
  }

  /** Flipping the direction flips the comparator's arguments. */
  lemma DirectionFlips(field: string, a: Record, b: Record)
    ensures Before(field, -1)(a, b) == Before(field, 1)(b, a)
  {
    BeforeMeaning(field, 1, b, a);
    BeforeMeaning(field, -1, a, b);
  }

  /** No record's sort key is `NaN`. Only a count stored as `NaN` can be,
      and the form never stores one. */
  ghost predicate AllComparable(books: seq<Record>, field: string) {
    forall b :: b in books ==> Comparable(KeyOf(b, field))
  }

  lemma KeysSameKind(a: Record, b: Record, field: string)
    ensures KeyOf(a, field).TextKey? == KeyOf(b, field).TextKey?
  {
  }

  /** On comparable keys the comparator is a strict weak order, so the
      stable sort is well defined. */
  lemma BeforeIsStrictWeakOrder(books: seq<Record>, field: string, dir: int)
    requires dir == 1 || dir == -1
    requires AllComparable(books, field)
    ensures StrictWeakOrderOn(Before(field, dir), books)
  {
    var lt := Before(field, dir);
    forall a | a in books ensures !lt(a, a) {
      BeforeMeaning(field, dir, a, a);
      KeyLessIrreflexive(KeyOf(a, field));
    }
    forall a, b, c | a in books && b in books && c in books && lt(a, b) && lt(b, c)
      ensures lt(a, c)
    {
      BeforeMeaning(field, dir, a, b);
      BeforeMeaning(field, dir, b, c);
      BeforeMeaning(field, dir, a, c);
      var ka, kb, kc := KeyOf(a, field), KeyOf(b, field), KeyOf(c, field);
      if dir == 1 {
        KeyLessTransitive(ka, kb, kc);
      } else {
        KeyLessTransitive(kc, kb, ka);
      }
    }
    forall a, b, c | a in books && b in books && c in books && lt(a, c) && !lt(a, b)
      ensures lt(b, c)
    {
      BeforeMeaning(field, dir, a, b);
      BeforeMeaning(field, dir, b, c);
      BeforeMeaning(field, dir, a, c);
      var ka, kb, kc := KeyOf(a, field), KeyOf(b, field), KeyOf(c, field);
      KeysSameKind(a, b, field);
      KeyLessTotal(ka, kb);
      if ka != kb {
        if dir == 1 {
          KeyLessTransitive(kb, ka, kc);
        } else {
          KeyLessTransitive(kc, ka, kb);
        }
      }
    }
  }

  /** The list is ordered by key: ascending for UpArrow, descending otherwise. */
  lemma RecordsListIsOrdered(books: seq<Record>, input: string, regex: Option<string -> bool>,
                             field: string, arrow: string)
    requires AllComparable(books, field)
    ensures var r := RecordsList(books, input, regex, field, arrow);
      forall i, j :: 0 <= i < j < |r| ==>
        if arrow == UpArrow then !KeyLess(KeyOf(r[j], field), KeyOf(r[i], field))
        else !KeyLess(KeyOf(r[i], field), KeyOf(r[j], field))
  {
    var f := FilterList(books, input, regex);
    var dir := SortDir(arrow);
    var r := RecordsList(books, input, regex, field, arrow);
    BeforeIsStrictWeakOrder(books, field, dir);
    StrictWeakOrderSub(Before(field, dir), books, f);
    SortByIsSorted(Before(field, dir), f);
    forall i, j | 0 <= i < j < |r|
      ensures if arrow == UpArrow then !KeyLess(KeyOf(r[j], field), KeyOf(r[i], field))
              else !KeyLess(KeyOf(r[i], field), KeyOf(r[j], field))
    {
      BeforeMeaning(field, dir, r[j], r[i]);
    }
  }

  /** Records with equal keys keep their collection order. */
  lemma RecordsListIsStable(books: seq<Record>, input: string, regex: Option<string -> bool>,
                            field: string, arrow: string, c: Record)
    requires AllComparable(books + [c], field)
    ensures var lt := Before(field, SortDir(arrow));
      var f := FilterList(books, input, regex);
      Class(lt, RecordsList(books, input, regex, field, arrow), c) == Class(lt, f, c)
  {
    var f := FilterList(books, input, regex);
    var dir := SortDir(arrow);
    BeforeIsStrictWeakOrder(books + [c], field, dir);
    StrictWeakOrderSub(Before(field, dir), books + [c], f + [c]);
    SortByIsStable(Before(field, dir), f, c);
  }

  lemma AscendingInsertions(a: Record, b: Record, c: Record)
    requires a.pages == PagesNumber(Int(50)) && b.pages == PagesNumber(Int(5))
    requires c.pages == PagesNumber(Int(200))
    ensures InsertSorted(Before("pages", 1), b, [c]) == [b, c]
    ensures InsertSorted(Before("pages", 1), a, [b, c]) == [b, a, c]
  {
    var lt := Before("pages", 1);
    assert !lt(c, b) && lt(b, a) && !lt(c, a);
    assert [c][1..] == [] && [b, c][1..] == [c];
    assert InsertSorted(lt, a, [c]) == [a, c];
  }

  /** Sorting by pages, ascending. */
  lemma PagesSortAscending(r: Record)
    ensures var a := r.(pages := PagesNumber(Int(50)));
      var b := r.(pages := PagesNumber(Int(5)));
      var c := r.(pages := PagesNumber(Int(200)));
      SortList([a, b, c], "pages", 1) == [b, a, c]
  {
    var a := r.(pages := PagesNumber(Int(50)));
    var b := r.(pages := PagesNumber(Int(5)));
    var c := r.(pages := PagesNumber(Int(200)));
    var lt := Before("pages", 1);
    AscendingInsertions(a, b, c);
    assert [a, b, c][1..] == [b, c] && [b, c][1..] == [c];
    assert SortBy(lt, [c]) == [c];
    assert SortBy(lt, [b, c]) == [b, c];
  }

  lemma DescendingInsertions(a: Record, b: Record, c: Record)
    requires a.pages == PagesNumber(Int(50)) && b.pages == PagesNumber(Int(5))
    requires c.pages == PagesNumber(Int(200))
    ensures InsertSorted(Before("pages", -1), b, [c]) == [c, b]
    ensures InsertSorted(Before("pages", -1), a, [c, b]) == [c, a, b]
  {
    var lt := Before("pages", -1);
    assert lt(c, b) && lt(c, a) && !lt(b, a);
    assert [c][1..] == [] && [c, b][1..] == [b] && [b][1..] == [];
    assert InsertSorted(lt, a, [b]) == [a, b];
  }

  /** Sorting by pages, descending. */
  lemma PagesSortDescending(r: Record)
    ensures var a := r.(pages := PagesNumber(Int(50)));
      var b := r.(pages := PagesNumber(Int(5)));
      var c := r.(pages := PagesNumber(Int(200)));
      SortList([a, b, c], "pages", -1) == [c, a, b]
  {
    var a := r.(pages := PagesNumber(Int(50)));
    var b := r.(pages := PagesNumber(Int(5)));
    var c := r.(pages := PagesNumber(Int(200)));
    var lt := Before("pages", -1);
    DescendingInsertions(a, b, c);
    assert [a, b, c][1..] == [b, c] && [b, c][1..] == [c];
    assert SortBy(lt, [c]) == [c];
    assert SortBy(lt, [b, c]) == [c, b];
  }

  /** Text keys compare by character code, so upper case comes first. */
  lemma TitleSortExample(r: Record)
    ensures var a := r.(title := "apple");
      var z := r.(title := "Zebra");
      SortList([a, z], "title", 1) == [z, a]
  {
    assert LexLess("Zebra", "apple");
    assert !LexLess("apple", "Zebra");
  }
}
