/** `calculateStats`: the record count, the summed page count and the most
    frequent tag of a collection. */
module Stats {
  import opened Seqs
  import opened Sorting
  import opened Strings
  import opened JsValues
  import opened Records
  import opened TagPattern

  datatype Summary = Summary(total: nat, totalPages: Number, topTag: string)

  // ---- Pages ----

  /** `books.reduce((sum, b) => sum + Number(b.pages), 0)`, folded from the
      left as `reduce` does. */
  function TotalPages(books: seq<Record>): Number
    decreases |books|
  {
    if books == [] then Int(0)
    else Plus(TotalPages(books[..|books| - 1]), PagesToNumber(books[|books| - 1].pages))
  }

  /** Every record's pages convert to a number (none is missing or `NaN`). */
  predicate AllNumeric(books: seq<Record>) {
    forall i :: 0 <= i < |books| ==> PagesToNumber(books[i].pages).Int?
  }

  /** The page counts added up from the front, as plain integers. */
  function PageSum(books: seq<Record>): int
    requires AllNumeric(books)
  {
    if books == [] then 0 else PagesToNumber(books[0].pages).i + PageSum(books[1..])
  }

  lemma {:induction false} PageSumSnoc(books: seq<Record>, b: Record)
    requires AllNumeric(books + [b])
    ensures AllNumeric(books) && PagesToNumber(b.pages).Int?
    ensures PageSum(books + [b]) == PageSum(books) + PagesToNumber(b.pages).i
    decreases |books|
  {
    assert forall i :: 0 <= i < |books| ==> books[i] == (books + [b])[i];
    assert (books + [b])[|books|] == b;
    if books != [] {
      assert (books + [b])[1..] == books[1..] + [b];
      PageSumSnoc(books[1..], b);
    }
  }

  /** The total is the sum of the page counts when all of them are numbers,
      and `NaN` as soon as one record lacks its count: `Number(undefined)` is
      `NaN`, and `NaN` absorbs every later addition. A `null` count adds 0. */
  lemma {:induction false} TotalPagesIsSum(books: seq<Record>)
    ensures AllNumeric(books) ==> TotalPages(books) == Int(PageSum(books))
    ensures !AllNumeric(books) ==> TotalPages(books) == NaN
    decreases |books|
  {
    if books != [] {
      var init := books[..|books| - 1];
      var last := books[|books| - 1];
      assert books == init + [last];
      TotalPagesIsSum(init);
      if AllNumeric(books) {
        PageSumSnoc(init, last);
      } else if AllNumeric(init) {
        assert !PagesToNumber(last.pages).Int? by {
          forall i | 0 <= i < |init| ensures PagesToNumber(books[i].pages).Int? {
            assert books[i] == init[i];
          }
        }
      }
    }
  }

  /** The total as the design intends it: `Number(b.pages) || 0`, so that a
      missing count adds nothing. */
  function TotalPagesOrZero(books: seq<Record>): Number
    decreases |books|
  {
    if books == [] then Int(0)
    else
      var n := PagesToNumber(books[|books| - 1].pages);
      Plus(TotalPagesOrZero(books[..|books| - 1]), if NumberTruthy(n) then n else Int(0))
  }

  /** The page count a record contributes when missing counts add zero. */
  function PagesOrZero(b: Record): int {
    var n := PagesToNumber(b.pages);
    if n.Int? then n.i else 0
  }

  function PagesOrZeroSum(books: seq<Record>): int {
    if books == [] then 0 else PagesOrZero(books[0]) + PagesOrZeroSum(books[1..])
  }

  lemma {:induction false} PagesOrZeroSumSnoc(books: seq<Record>, b: Record)
    ensures PagesOrZeroSum(books + [b]) == PagesOrZeroSum(books) + PagesOrZero(b)
    decreases |books|
  {
    if books != [] {
      assert (books + [b])[1..] == books[1..] + [b];
      PagesOrZeroSumSnoc(books[1..], b);
    }
  }

  /** With missing counts taken as zero the total is always a number, the
      sum of the counts that are there. */
  lemma {:induction false} TotalPagesOrZeroIsSum(books: seq<Record>)
    ensures TotalPagesOrZero(books) == Int(PagesOrZeroSum(books))
    decreases |books|
  {
    if books != [] {
      var init := books[..|books| - 1];
      assert books == init + [books[|books| - 1]];
      TotalPagesOrZeroIsSum(init);
      PagesOrZeroSumSnoc(init, books[|books| - 1]);
    }
  }

  /** A record imported without a `pages` field turns the source's total
      into `NaN`, where the intended total ignores it. */
  lemma MissingPagesPoisonTotal(b: Record, c: Record)
    requires b.pages == PagesNumber(Int(120)) && c.pages == PagesUndefined
    ensures TotalPages([b, c]) == NaN
    ensures TotalPagesOrZero([b, c]) == Int(120)
  {
    var bs := [b, c];
    assert bs[..1] == [b] && bs[1] == c;
    assert [b][..0] == [];
    assert TotalPages([b]) == Int(120);
    assert TotalPagesOrZero([b]) == Int(120);
    assert PagesToNumber(c.pages) == NaN;
  }

  // ---- Tags ----

  /** The property name a record is counted under: `String(b.tag)`, so a
      missing tag counts as "undefined". */
  function TagKey(b: Record): string {
    ToStr(b.tag)
  }

  function TagKeys(books: seq<Record>): (keys: seq<string>)
    ensures |keys| == |books|
    ensures forall i :: 0 <= i < |books| ==> keys[i] == TagKey(books[i])
  {
    seq(|books|, i requires 0 <= i < |books| => TagKey(books[i]))
  }

  /** `tags[k]` after the counting pass: how many records carry the key. */
  function Count(keys: seq<string>, k: string): nat {
    multiset(keys)[k]
  }

  function NotEqualTo(k: string): string -> bool {
    x => x != k
  }

  /** The keys in the order they are first met: the insertion order of the
      `tags` object. */
  function FirstSeen(keys: seq<string>): (r: seq<string>)
    ensures forall k :: k in r <==> k in keys
    ensures forall i, j :: 0 <= i < j < |r| ==> r[i] != r[j]
    decreases |keys|
  {
    if keys == [] then []
    else
      var rest := Filter(keys[1..], NotEqualTo(keys[0]));
      FilterMembers(keys[1..], NotEqualTo(keys[0]));
      var r := [keys[0]] + FirstSeen(rest);
      assert forall i :: 0 < i < |r| ==> r[i] in FirstSeen(rest);
      r
  }

  /** Among the keys satisfying `p`, the first one met is the same whether
      every occurrence is listed or only the first. */
  lemma {:induction false} FirstSeenKeepsFirst(keys: seq<string>, p: string -> bool)
    requires Filter(keys, p) != []
    ensures Filter(FirstSeen(keys), p) != []
    ensures Filter(FirstSeen(keys), p)[0] == Filter(keys, p)[0]
    decreases |keys|
  {
    var k0 := keys[0];
    var q := NotEqualTo(k0);
    var rest := Filter(keys[1..], q);
    assert keys == [k0] + keys[1..];
    FilterCons(k0, keys[1..], p);
    FilterCons(k0, FirstSeen(rest), p);
    if !p(k0) {
      FilterSubsumed(keys[1..], q, p);
      FirstSeenKeepsFirst(rest, p);
    }
  }

  /** A canonical array index: `String(n)` for some `n < 2^32 - 1`. Such keys
      are listed by `Object.keys` before all others, in numeric order. */
  predicate IsArrayIndex(k: string) {
    && k != [] && AllDigits(k)
    && (k[0] != '0' || k == "0")
    && DigitsValue(k) < 0xFFFF_FFFF
  }

  predicate IsNamedKey(k: string) {
    !IsArrayIndex(k)
  }

  function IndexValue(k: string): nat {
    if AllDigits(k) then DigitsValue(k) else 0
  }

  function IndexBefore(): (string, string) -> bool {
    (a, b) => IndexValue(a) < IndexValue(b)
  }

  /** `Object.keys(tags)`: array indices in ascending order, then the other
      keys in insertion order. */
  function ObjectKeys(order: seq<string>): (r: seq<string>)
    ensures multiset(r) == multiset(order)
  {
    var indices := Filter(order, IsArrayIndex);
    var named := Filter(order, IsNamedKey);
    FilterCounts(order, IsArrayIndex);
    FilterCounts(order, IsNamedKey);
    assert multiset(indices) + multiset(named) == multiset(order);
    SortBy(IndexBefore(), indices) + named
  }

  /** Without array-index keys, `Object.keys` is the insertion order. */
  lemma ObjectKeysNoIndices(order: seq<string>)
    requires forall k :: k in order ==> !IsArrayIndex(k)
    ensures ObjectKeys(order) == order
  {
    FilterNone(order, IsArrayIndex);
    FilterAll(order, IsNamedKey);
  }

  /** The comparator `(a, b) => tags[b] - tags[a]`, negative when `a` must
      come first. */
  function MoreFrequent(keys: seq<string>): (string, string) -> bool {
    (a, b) => Count(keys, b) - Count(keys, a) < 0
  }

  lemma MoreFrequentIsStrictWeakOrder(keys: seq<string>, s: seq<string>)
    ensures StrictWeakOrderOn(MoreFrequent(keys), s)
  {
  }

  /** The properties every object inherits from `Object.prototype`. Reading
      `tags[k]` for one of them before it is counted yields a function, not
      `undefined`, so the counting pass does not count such keys. */
  const InheritedNames: set<string> := {
    "constructor", "hasOwnProperty", "isPrototypeOf", "propertyIsEnumerable",
    "toLocaleString", "toString", "valueOf", "__proto__",
    "__defineGetter__", "__defineSetter__", "__lookupGetter__", "__lookupSetter__"}

  /** No record's tag key is an inherited property name: the collections on
      which the counts are those of the model. */
  predicate NoInheritedTags(books: seq<Record>) {
    forall b :: b in books ==> TagKey(b) !in InheritedNames
  }

  /** The keys sorted by decreasing count. */
  function Ranked(books: seq<Record>): (r: seq<string>)
    ensures multiset(r) == multiset(FirstSeen(TagKeys(books)))
  {
    var keys := TagKeys(books);
    SortBy(MoreFrequent(keys), ObjectKeys(FirstSeen(keys)))
  }

  /** `sorted[0] || "None"`: no key at all, or an empty-string key in front,
      gives "None". */
  function TopTag(books: seq<Record>): string {
    var r := Ranked(books);
    if r == [] || r[0] == "" then "None" else r[0]
  }

  /** The key ranked first is carried by some record and no key is carried
      by more records. */
  lemma RankedHeadIsMostFrequent(books: seq<Record>)
    requires books != [] && NoInheritedTags(books)
    ensures var keys := TagKeys(books); var r := Ranked(books);
      && r != []
      && r[0] in keys
      && forall k :: k in keys ==> Count(keys, k) <= Count(keys, r[0])
  {
    var keys := TagKeys(books);
    var order := ObjectKeys(FirstSeen(keys));
    assert keys[0] in keys;
    assert keys[0] in multiset(order);
    MoreFrequentIsStrictWeakOrder(keys, order);
    SortByHead(MoreFrequent(keys), order);
    var h := Ranked(books)[0];
    assert h in multiset(order);
    forall k | k in keys ensures Count(keys, k) <= Count(keys, h) {
      assert k in multiset(order);
      assert !MoreFrequent(keys)(k, h);
    }
  }

  /** Without array-index keys, the key sorted first is also the first key
      met among those with its count. */
  lemma SortedHeadLeadsItsClass(keys: seq<string>)
    requires keys != []
    requires forall k :: k in keys ==> !IsArrayIndex(k)
    ensures var lt := MoreFrequent(keys);
      var h := SortBy(lt, ObjectKeys(FirstSeen(keys)))[0];
      Filter(keys, EquivalentTo(lt, h)) != [] && Filter(keys, EquivalentTo(lt, h))[0] == h
  {
    var lt := MoreFrequent(keys);
    var seen := FirstSeen(keys);
    ObjectKeysNoIndices(seen);
    assert keys[0] in seen;
    MoreFrequentIsStrictWeakOrder(keys, seen);
    SortByHead(lt, seen);
    var h := SortBy(lt, seen)[0];
    var p := EquivalentTo(lt, h);
    FilterMembers(keys, p);
    assert p(h);
    FirstSeenKeepsFirst(keys, p);
  }

  /** A property of every record's key is a property of every key. */
  lemma TagKeysNoIndices(books: seq<Record>)
    requires forall b :: b in books ==> !IsArrayIndex(TagKey(b))
    ensures forall k :: k in TagKeys(books) ==> !IsArrayIndex(k)
  {
    var keys := TagKeys(books);
    forall k | k in keys ensures !IsArrayIndex(k) {
      var m :| 0 <= m < |keys| && keys[m] == k;
      assert books[m] in books;
    }
  }

  /** Keys before the first one in a class are outside the class. */
  lemma BeforeFirstOfClass(keys: seq<string>, h: string, i: nat)
    requires i < |keys|
    requires forall j :: 0 <= j < i ==> !EquivalentTo(MoreFrequent(keys), h)(keys[j])
    requires forall k :: k in keys ==> Count(keys, k) <= Count(keys, h)
    ensures forall j :: 0 <= j < i ==> Count(keys, keys[j]) < Count(keys, h)
  {
    forall j | 0 <= j < i ensures Count(keys, keys[j]) < Count(keys, h) {
      assert keys[j] in keys;
    }
  }

  /** Ties go to the key met first, provided no key is an array index:
      the ranked head is the first record's key, in collection order, whose
      count is the largest. */
  lemma RankedHeadFirstAmongTies(books: seq<Record>) returns (i: nat)
    requires books != [] && NoInheritedTags(books)
    requires forall b :: b in books ==> !IsArrayIndex(TagKey(b))
    ensures var keys := TagKeys(books); var h := Ranked(books)[0];
      && i < |books| && keys[i] == h
      && forall j :: 0 <= j < i ==> Count(keys, keys[j]) < Count(keys, h)
  {
    var keys := TagKeys(books);
    TagKeysNoIndices(books);
    RankedHeadIsMostFrequent(books);
    SortedHeadLeadsItsClass(keys);
    var h := Ranked(books)[0];
    var p := EquivalentTo(MoreFrequent(keys), h);
    i := FilterHeadIsFirst(keys, p);
    BeforeFirstOfClass(keys, h, i);
  }

  // A reference for the top tag, stated without sorting.

  /** The largest count, in `keys`, of any of `ks`. */
  function MaxCount(keys: seq<string>, ks: seq<string>): (m: nat)
    ensures forall k :: k in ks ==> Count(keys, k) <= m
    ensures ks != [] ==> exists k :: k in ks && Count(keys, k) == m
    decreases |ks|
  {
    if ks == [] then 0
    else
      var rest := MaxCount(keys, ks[1..]);
      assert forall k :: k in ks ==> k == ks[0] || k in ks[1..];
      if Count(keys, ks[0]) >= rest then Count(keys, ks[0]) else rest
  }

  /** The first of `ks` whose count is `c`, or "" if none has it. */
  function FirstWithCount(keys: seq<string>, ks: seq<string>, c: nat): string
    decreases |ks|
  {
    if ks == [] then ""
    else if Count(keys, ks[0]) == c then ks[0]
    else FirstWithCount(keys, ks[1..], c)
  }

  /** The most frequent key, a tie going to the key met first. */
  function Leader(keys: seq<string>): string {
    FirstWithCount(keys, keys, MaxCount(keys, keys))
  }

  lemma {:induction false} FirstWithCountAt(keys: seq<string>, ks: seq<string>, c: nat, i: nat)
    requires i < |ks| && Count(keys, ks[i]) == c
    requires forall j :: 0 <= j < i ==> Count(keys, ks[j]) != c
    ensures FirstWithCount(keys, ks, c) == ks[i]
    decreases i
  {
    if i > 0 {
      assert ks[1..][i - 1] == ks[i];
      forall j | 0 <= j < i - 1 ensures Count(keys, ks[1..][j]) != c {
        assert ks[1..][j] == ks[j + 1];
      }
      FirstWithCountAt(keys, ks[1..], c, i - 1);
    }
  }

  /** For validated tags the sorted head is the reference leader. */
  lemma LeaderIsRankedHead(books: seq<Record>)
    requires books != []
    requires forall b :: b in books ==> b.tag.Str? && TagRe(b.tag.s)
    requires NoInheritedTags(books)
    ensures Ranked(books)[0] == Leader(TagKeys(books))
  {
    var keys := TagKeys(books);
    var i := TiesGoToFirstValidTag(books);
    var h := Ranked(books)[0];
    var m := MaxCount(keys, keys);
    assert h in keys;
    var k :| k in keys && Count(keys, k) == m;
    assert m == Count(keys, h);
    forall j | 0 <= j < i ensures Count(keys, keys[j]) != m {
    }
    FirstWithCountAt(keys, keys, m, i);
  }

  /** Validated tags are never empty, so the leader is reported by name. */
  lemma ValidTagIsNamed(books: seq<Record>)
    requires books != [] && NoInheritedTags(books)
    requires forall b :: b in books ==> b.tag.Str? && TagRe(b.tag.s)
    ensures Ranked(books)[0] != ""
  {
    RankedHeadIsMostFrequent(books);
    var keys := TagKeys(books);
    var m :| 0 <= m < |keys| && keys[m] == Ranked(books)[0];
    assert books[m] in books;
  }

  lemma TopTagIsLeader(books: seq<Record>)
    requires books != [] && NoInheritedTags(books)
    ensures (forall b :: b in books ==> b.tag.Str? && TagRe(b.tag.s)) ==>
      TopTag(books) == Leader(TagKeys(books))
  {
    if forall b :: b in books ==> b.tag.Str? && TagRe(b.tag.s) {
      LeaderIsRankedHead(books);
      ValidTagIsNamed(books);
    }
  }

  /** `calculateStats`. The top tag is the ranked head, reported as "None"
      when there is no key or the head is the empty string; for validated
      tags it is the most frequent tag, ties going to the one met first.
      Tags named like an inherited property are outside the model. */
  function CalculateStats(books: seq<Record>): (r: Summary)
    requires NoInheritedTags(books)
    ensures r.total == |books|
    ensures AllNumeric(books) ==> r.totalPages == Int(PageSum(books))
    ensures !AllNumeric(books) ==> r.totalPages == NaN
    ensures books == [] ==> r.topTag == "None"
    ensures books != [] ==>
      var h := Ranked(books)[0];
      && r.topTag == (if h == "" then "None" else h)
      && h in TagKeys(books)
      && forall k :: k in TagKeys(books) ==> Count(TagKeys(books), k) <= Count(TagKeys(books), h)
    ensures books != [] && (forall b :: b in books ==> b.tag.Str? && TagRe(b.tag.s)) ==>
      r.topTag == Leader(TagKeys(books))
  {
    TotalPagesIsSum(books);
    if books != [] then
      RankedHeadIsMostFrequent(books);
      TopTagIsLeader(books);
      Summary(|books|, TotalPages(books), TopTag(books))
    else
      Summary(0, TotalPages(books), TopTag(books))
  }

  /** Keys that pass the tag pattern are never array indices: the pattern
      admits no digits. */
  lemma ValidTagIsNotIndex(tag: string)
    requires TagRe(tag)
    ensures !IsArrayIndex(tag)
  {
    MatchTagCorrect(tag);
    AcceptedTagChars(Start, tag);
    if tag != [] {
      assert IsTagChar(tag[0]);
    }
  }

  /** For a collection whose tags all passed the validator's tag check, the
      top-ranked key is the first tag met, in collection order, among those
      with the largest count. */
  lemma TiesGoToFirstValidTag(books: seq<Record>) returns (i: nat)
    requires books != [] && NoInheritedTags(books)
    requires forall b :: b in books ==> b.tag.Str? && TagRe(b.tag.s)
    ensures var keys := TagKeys(books); var h := Ranked(books)[0];
      && i < |books| && keys[i] == h
      && (forall k :: k in keys ==> Count(keys, k) <= Count(keys, h))
      && forall j :: 0 <= j < i ==> Count(keys, keys[j]) < Count(keys, h)
  {
    forall b | b in books ensures !IsArrayIndex(TagKey(b)) {
      ValidTagIsNotIndex(b.tag.s);
    }
    RankedHeadIsMostFrequent(books);
    i := RankedHeadFirstAmongTies(books);
  }

  lemma EmptyStats()
    ensures CalculateStats([]) == Summary(0, Int(0), "None")
  {
  }

  /** Two different keys are listed in the order met. */
  lemma FirstSeenPair(x: string, y: string)
    requires x != y
    ensures FirstSeen([x, y]) == [x, y]
  {
    assert [x, y][1..] == [y];
    assert NotEqualTo(x)(y);
    assert [y] == [y] + [];
    FilterCons(y, [], NotEqualTo(x));
    assert Filter([y], NotEqualTo(x)) == [y];
    assert [y][1..] == [];
    assert Filter([], NotEqualTo(y)) == [];
    assert FirstSeen([y]) == [y] + FirstSeen([]);
  }

  /** Two different keys met once each are tied. */
  lemma PairTied(x: string, y: string)
    requires x != y
    ensures Count([x, y], x) == 1 && Count([x, y], y) == 1
  {
    assert multiset([x, y]) == multiset{x, y};
  }

  /** A tie between two tags goes to the one met first. */
  lemma TieGoesToFirst(a: Record, b: Record)
    requires a.tag == Str("fantasy") && b.tag == Str("scifi")
    ensures TopTag([a, b]) == "fantasy"
  {
    var keys := TagKeys([a, b]);
    assert keys == ["fantasy", "scifi"];
    FirstSeenPair("fantasy", "scifi");
    assert !IsArrayIndex("fantasy") && !IsArrayIndex("scifi");
    ObjectKeysNoIndices(keys);
    PairTied("fantasy", "scifi");
    SortPair(MoreFrequent(keys), "fantasy", "scifi");
  }

  /** `Object.keys` lists an index-like key before an earlier named one. */
  lemma IndexKeyListedFirst()
    ensures ObjectKeys(["fantasy", "7"]) == ["7", "fantasy"]
  {
    var keys := ["fantasy", "7"];
    assert IsArrayIndex("7") && !IsArrayIndex("fantasy");
    FilterCons("fantasy", ["7"], IsArrayIndex);
    FilterCons("7", [], IsArrayIndex);
    FilterCons("fantasy", ["7"], IsNamedKey);
    FilterCons("7", [], IsNamedKey);
    assert keys == ["fantasy"] + ["7"] && ["7"] == ["7"] + [];
    assert Filter(keys, IsArrayIndex) == ["7"];
    assert Filter(keys, IsNamedKey) == ["fantasy"];
    assert SortBy(IndexBefore(), ["7"]) == ["7"] by {
      assert ["7"][1..] == [];
    }
  }

  /** A tag that looks like an array index jumps ahead of an earlier tag
      with the same count. */
  lemma IndexTagJumpsAhead(a: Record, b: Record)
    requires a.tag == Str("fantasy") && b.tag == Str("7")
    ensures TopTag([a, b]) == "7"
  {
    var keys := TagKeys([a, b]);
    assert keys == ["fantasy", "7"];
    FirstSeenPair("fantasy", "7");
    IndexKeyListedFirst();
    PairTied("fantasy", "7");
    SortPair(MoreFrequent(keys), "7", "fantasy");
  }
}
