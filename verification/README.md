# Book vault: a Dafny model of its records core

The book vault is a browser application that keeps a catalog of books and
notes. This project models the part of it that decides what goes into the
catalog and what the catalog reports:

- the record validator `validateItem` and its five regular expressions
  (title, pages, date, tag and the duplicate-word pattern);
- the collection operations `addBook`, `deleteBook` and `updateBook`, and the
  `type` default applied when the collection is loaded;
- the dashboard summary `calculateStats`;
- the search filter and the column sort of the records list, and the
  dashboard filter;
- the form submission: building a record from the form's inputs, validating
  it, and adding it or replacing the edited record;
- the settings defaults: how the page cap and unit are saved and read back;
- the import check on a parsed JSON file.

Each regular expression is modelled twice. One predicate states the pattern's
language as the pattern reads, with the split points a backtracking matcher
may choose bound by `exists`. A scanner or automaton is what the validator
runs. A lemma proves the two agree on every string, both ways.

The JavaScript values the code works with are explicit datatypes:

- `Text` is a string or an absent field;
- `Number` is an integer or `NaN`;
- `Pages` is `undefined`, `null` or a number;
- `Json` holds parsed file contents and stored settings.

Truthiness, `||`, `??`, `String(…)` and `Number(…)` are functions over these.
The stable `Array.prototype.sort` is a stable insertion sort over a strict weak
order (`Sorting`). `SortByIsUnique` proves that, for a consistent comparator,
it is the only result a stable sort may give. Validator messages are the
datatype `Validators.Message`; `MessageText` maps each one to the text the
page shows.

The host's services are parameters:

- the clock (`Date.now`, `toISOString`) is `Submit.Clock`;
- the cover file read as a data URL is `fileData`;
- the compiled search pattern (the callee `compileRegex`) is an
  `Option<string -> bool>`;
- local storage is the `saved` half of `State.Store`;
- `JSON.parse` is an `Option<Json>`.

Where the written description of the application and the code disagree, the
model follows the code. For example, the title pattern admits a double space
inside a title (see Findings), and a page count of 0 passes the pages check.

## Model

| member | source | states |
|---|---|---|
| TitlePattern.TitleReIsTrimmedSingleLine | scripts/validators.js:3 | `TITLE_RE` accepts exactly the non-empty strings that `trim` leaves unchanged and that hold no line terminator |
| PagesPattern.MatchPages | scripts/validators.js:5 | the recogniser accepts exactly the language of `PAGES_RE`: `0` or a digit run without a leading zero, then optionally a dot and one or two digits |
| PagesPattern.IntegerPagesAccepted | scripts/validators.js:5 | the decimal text of an integer passes `PAGES_RE` exactly when the integer is not negative (integers are unbounded here; see "## Left out") |
| PagesPattern.MatchPagesRejects | scripts/validators.js:5 | "", "007", "12.345" and "-3" are refused |
| DatePattern.DateReIsRangeCheck | scripts/validators.js:7 | `DATE_RE` holds exactly for `dddd-dd-dd` with a month in 1..12 and a day in 1..31, so "2024-02-30" passes |
| TagPattern.MatchTagCorrect | scripts/validators.js:9 | the tag automaton accepts exactly the language of `TAG_RE`: a run of `#` and letters, then groups of one separator and letters |
| TagPattern.RunCorrect | scripts/validators.js:9 | from every automaton state, acceptance coincides with the language that state stands for |
| TagPattern.MatchTagRejectsLooseHyphens | scripts/validators.js:9 | a trailing hyphen and a separator followed by `#` are refused |
| DupWordPattern.HasDupWordCorrect | scripts/validators.js:11 | the scanner reports a repeat exactly when `DUP_WORD_RE` has a match: a whole word, whitespace, then the same word ignoring ASCII case, ending at a word boundary |
| DupWordPattern.ScanFromSound | scripts/validators.js:11 | a repeat the scanner reports is a match of the pattern at or after the starting position |
| DupWordPattern.ScanFromComplete | scripts/validators.js:11 | every match of the pattern at or after the starting position is found by the scanner |
| DupWordPattern.HasDupWordNeedsAdjacency | scripts/validators.js:11 | "the cat the" has no match: the repeat must be consecutive |
| DupWordPattern.HasDupWordNeedsWholeWord | scripts/validators.js:11 | "the theory" has no match: the repeat must end at a word boundary |
| DupWordPattern.IgnoresCase | scripts/validators.js:11 | any word followed by whitespace and the same word in lower case matches, whatever its capitals, because of the `i` flag |
| Validators.TitleError | scripts/validators.js:17-23 | no title gives "required"; otherwise a spacing fault gives the spacing message, and a well-spaced title with a repeated word gives the duplicate message; no error exactly when the title is well spaced and has no repeat |
| Validators.AuthorError | scripts/validators.js:26-31 | the author check applies the title's spacing rule but not its duplicate rule |
| Validators.PagesError | scripts/validators.js:33-37 | `undefined`, `null` and `NaN` are "required"; a negative integer gets the format message; a non-negative integer of the model's unbounded integers passes, including 0 (JavaScript refuses from 10^21 on; see "## Left out") |
| Validators.TagError | scripts/validators.js:41-45 | a missing or empty tag is "required"; otherwise the tag must be in the language of `TAG_RE` |
| Validators.DateError | scripts/validators.js:48-52 | an empty date is "required"; otherwise the date must pass the range check of `DATE_RE` |
| Validators.ValidateItem | scripts/validators.js:13-55 | the error map has only the keys title, author, pages, tag and date; each key holds its field check's outcome, and author and pages are checked for books only |
| Validators.ValidateItemEmptyIff | scripts/validators.js:13-55 | the error map is empty exactly when every field meets its rule, stated without the recognisers |
| Validators.TitleFlagged | scripts/validators.js:17-23 | "title" is a key exactly when the title breaks its rule |
| Validators.AuthorFlagged | scripts/validators.js:26-31 | "author" is a key exactly when the record is a book whose author breaks the rule |
| Validators.PagesFlagged | scripts/validators.js:33-37 | "pages" is a key exactly when the record is a book whose page count is not a non-negative integer, over unbounded integers (see "## Left out") |
| Validators.TagFlagged | scripts/validators.js:41-45 | "tag" is a key exactly when the tag breaks its rule |
| Validators.DateFlagged | scripts/validators.js:48-52 | "date", not "dateAdded", is a key exactly when the date breaks its rule |
| Validators.NoteIgnoresAuthorAndPages | scripts/validators.js:26 | a note never gets an author or pages error |
| Validators.ZeroPagesIsNotMissing | scripts/validators.js:33-36 | a book with 0 pages passes, a missing count is "required", and -3 gets the format message |
| Validators.DoubledWordTitle | scripts/validators.js:21-22 | "the the cat" gets the duplicate-word message |
| Validators.DoubleSpacedTitle | scripts/validators.js:19-20 | "cat  dog" gets no title error |
| Validators.IntendedTitleError | scripts/validators.js:2-3 | the corrected title check: a title passes exactly when it is well spaced, has no double space and repeats no word |
| Validators.IntendedTitleRefusesDoubleSpace | scripts/validators.js:2-3 | the corrected check refuses "cat  dog" with the spacing message and agrees with the check as written on every title without a double space |
| Validators.TitleSpacingExamples | scripts/validators.js:17-20 | " cat" and "cat " get the spacing message; "" gets "required" |
| State.WithDefaultKind | scripts/state.js:6 | a record without a truthy `type` becomes a book; any other record is unchanged |
| State.Load | scripts/state.js:4-7 | the loaded collection is the stored one, record by record, with the `type` default applied, so every loaded record has a type |
| State.LoadIdempotent | scripts/state.js:4-7 | loading an already loaded collection changes nothing, and ids keep their order |
| State.AddBook | scripts/state.js:9-12 | the record is appended, everything before it is unchanged, and storage holds the new collection |
| State.DeleteBook | scripts/state.js:14-17 | the result is the records with another id, in order and with their multiplicities, and storage holds it |
| State.DeleteIdempotent | scripts/state.js:14-17 | deleting the same id twice is deleting it once |
| State.AddThenDeleteRestores | scripts/state.js:9-17 | adding a record with a new id and deleting that id restores the collection |
| State.DeleteAfterAdd | scripts/state.js:9-17 | deleting the id just added equals deleting it from the collection before the add |
| State.DeleteAbsent | scripts/state.js:14-17 | deleting an id nobody has leaves the records unchanged |
| State.UpdateBook | scripts/state.js:19-22 | every record with the id is replaced, every other record is kept, the ids are unchanged, and storage holds the result |
| State.UpdateIdempotent | scripts/state.js:19-22 | applying the same update twice is applying it once |
| State.UpdateAbsent | scripts/state.js:19-22 | an update whose id is absent leaves the records unchanged |
| State.FindAfterUpdate | scripts/state.js:19-22 | after an update, a lookup of the id finds the new record exactly when the id was present |
| State.FindAfterAdd | scripts/state.js:9-12 | after adding a record with a new id, a lookup finds it |
| State.UpdateReplacesOne | scripts/state.js:19-22 | with unique ids, an update replaces the one record with the id, in place |
| State.UpdateKeepsUniqueIds | scripts/state.js:19-22 | updates keep ids unique |
| State.DeleteKeepsUniqueIds | scripts/state.js:14-17 | deletions keep ids unique |
| State.AddKeepsUniqueIdsIff | scripts/state.js:9-12 | adding keeps ids unique exactly when the new id is not already present |
| Stats.CalculateStats | scripts/stats.js:1-10 | `total` is the count; `totalPages` is the integer sum when every record has a number and `NaN` otherwise; `topTag` is "None" for no records, and otherwise the top-ranked key (or "None" for an empty key), which is carried by a record and is at least as frequent as every key; for validated tags, it is the first tag met with the highest count |
| Stats.TotalPagesIsSum | scripts/stats.js:3 | the left fold of `sum + Number(b.pages)` is the integer sum when every count is a number, and `NaN` as soon as one is not |
| Stats.TotalPagesOrZeroIsSum | scripts/stats.js:3 | the corrected total, which counts a missing page number as 0, is always the integer sum |
| Stats.MissingPagesPoisonTotal | scripts/stats.js:3 | one record without `pages` turns the total into `NaN`, where the corrected total is 120 |
| Stats.ObjectKeysNoIndices | scripts/stats.js:8 | without array-index keys, `Object.keys` is first-insertion order |
| Stats.FirstSeen | scripts/stats.js:5-6 | the keys of the counting object are exactly the tag keys, each once |
| Stats.FirstSeenKeepsFirst | scripts/stats.js:5-6 | the first key of the counting object that meets a test is the first record's key that meets it |
| Stats.IndexKeyListedFirst | scripts/stats.js:8 | `Object.keys` lists the array-index key "7" before "fantasy", though it was added later |
| Stats.RankedHeadIsMostFrequent | scripts/stats.js:8 | the first key after sorting by descending count is carried by a record, and no key is carried more often |
| Stats.RankedHeadFirstAmongTies | scripts/stats.js:8 | without array-index keys, the sort's head is the first key met among those with the highest count |
| Stats.TiesGoToFirstValidTag | scripts/stats.js:8 | for tags that pass the tag check, the top tag is the first tag met among the most frequent ones |
| Stats.LeaderIsRankedHead | scripts/stats.js:8 | for validated tags, the sort's head equals an independent definition: the first tag met whose count is the maximum |
| Stats.TopTagIsLeader | scripts/stats.js:8 | for validated tags, the reported top tag is that first most-frequent tag |
| Stats.ValidTagIsNotIndex | scripts/stats.js:8 | a tag that passes the tag check is never an array index, so `Object.keys` keeps it in insertion order |
| Stats.TieGoesToFirst | scripts/stats.js:8 | two tags met once each: the first one is reported |
| Stats.IndexTagJumpsAhead | scripts/stats.js:8 | an unvalidated tag "7" is listed before "fantasy" by `Object.keys` and wins the tie |
| Stats.EmptyStats | scripts/stats.js:1-10 | an empty collection gives 0, 0 and "None" |
| Query.FilterList | scripts/ui.js:19-23 | a blank search keeps every record; otherwise a record is kept exactly when the pattern compiled and matches its title, author, tag or note text; multiplicities and order are kept |
| Query.BlankSearchKeepsAll | scripts/ui.js:20 | a blank search returns the collection unchanged |
| Query.BadPatternKeepsNone | scripts/ui.js:21 | a search text that does not compile keeps nothing |
| Query.DashboardAgreesWithList | scripts/ui.js:86-93 | the dashboard filter returns the same records as the list filter |
| Query.BeforeMeaning | scripts/ui.js:28 | the comparator places `a` first exactly when `a`'s key is below `b`'s (ascending) or above it (descending) |
| Query.DirectionFlips | scripts/ui.js:28 | the descending comparator is the ascending one with its arguments swapped |
| Query.BeforeIsStrictWeakOrder | scripts/ui.js:25-29 | on records without `NaN` keys the comparator is consistent: a strict weak order |
| Query.RecordsList | scripts/ui.js:19-29 | the list holds the filtered records, each as often as the filter keeps it |
| Query.RecordsListIsOrdered | scripts/ui.js:25-29 | the list is ordered by the chosen field, ascending for the up arrow and descending otherwise |
| Query.RecordsListIsStable | scripts/ui.js:25-29 | records with equal keys keep their collection order |
| Query.PagesSortAscending | scripts/ui.js:27-28 | page counts 50, 5 and 200 sort as numbers, not as text, to 5, 50, 200 |
| Query.PagesSortDescending | scripts/ui.js:27-28 | the same counts sort to 200, 50, 5 when descending |
| Query.TitleSortExample | scripts/ui.js:28 | "Zebra" sorts before "apple": text compares by character code |
| Sorting.SortByIsSorted | scripts/ui.js:25 | the sort's result is ordered under a consistent comparator |
| Sorting.SortByIsStable | scripts/ui.js:25 | the sort keeps each class of equivalent elements in input order |
| Sorting.SortByIsUnique | scripts/ui.js:25 | any ordered rearrangement that keeps equivalent elements in input order is the sort's result |
| Sorting.SortByHead | scripts/stats.js:8 | the sort's first element is in the input, nothing precedes it, and it is the first of its class |
| Strings.TrimBlank | scripts/main.js:149 | `trim` gives "" exactly for all-whitespace text, and otherwise text with no whitespace at either end |
| Strings.TrimIdempotent | scripts/main.js:149 | trimming twice is trimming once |
| Strings.LexLessTotal | scripts/ui.js:28 | two different strings are always ordered one way or the other |
| Strings.LexLessTransitive | scripts/ui.js:28 | the string order is transitive |
| JsValues.StringToNumberRoundTrip | scripts/main.js:151 | `Number` of an integer's decimal text is that integer, over unbounded integers (JavaScript rounds beyond 2^53; see "## Left out") |
| Submit.SubmitOutcome | scripts/main.js:160-186 | a submission is saved exactly when the built record passes the validator; the store changes only through a save, which always reaches storage; a new record is appended at the end; an edit of a present record is then found under its id |
| Submit.SubmitEditKeepsIds | scripts/main.js:176-178 | a submission while editing, saved or refused, leaves the list of ids exactly as it was |
| Submit.EditReplacesInPlace | scripts/main.js:139-158 | an edit keeps the id, the creation time and, without a new file, the cover; once valid it replaces the edited record where it stood |
| Submit.NoteSkipsBookFields | scripts/main.js:150-151 | a note's record never gets an author or pages error |
| Submit.SubmitKeepsRecordsValid | scripts/main.js:160-186 | if every stored record is acceptable, so is every record after a submission, and a successful one is saved |
| Submit.SubmitKeepsIdsUnique | scripts/main.js:146-186 | submissions keep ids unique when a new record's clock id is fresh |
| Submit.BlankPagesBecomeZero | scripts/main.js:151 | a book with blank pages is stored with 0 pages and no pages error |
| Submit.TypedPagesStored | scripts/main.js:151 | a book whose pages are an integer's text stores that integer, with an error exactly when it is negative, over unbounded integers (see "## Left out") |
| Submit.FormTitleSpacing | scripts/main.js:149 | because the form trims the title, a spacing message can only come from a line break in it |
| Submit.EditOfVanishedRecordIsLost | scripts/main.js:140-178 | editing a record that is no longer in the collection stores nothing, though the save succeeds |
| Submit.CommitKeepingEdits | scripts/main.js:177-186 | the corrected commit: a successful save always leaves a record with the item's id, and an edit is found by its id afterwards |
| Settings.CapFromInput | scripts/main.js:207 | the saved cap is 0 exactly when `Number` of the input is falsy, and otherwise that number |
| Settings.CapRoundTrip | scripts/main.js:207 | a cap typed as an integer is saved as that integer, over unbounded integers (JavaScript rounds beyond 2^53; see "## Left out") |
| Settings.BlankCapIsZero | scripts/main.js:207 | a blank cap is saved as 0 |
| Settings.WordCapIsZero | scripts/main.js:207 | a cap whose trimmed text starts with a letter is saved as 0 |
| Settings.ApplyPersisted | scripts/main.js:218-221 | with nothing stored, the defaults 0 and "pages" apply; a stored `null` fails; otherwise each field is its truthy stored value or its default |
| Settings.PersistThenReload | scripts/main.js:206-221 | reloading saved settings gives back the session's cap, and its unit unless the unit was empty, which reloads as "pages" |
| ImportCheck.Import | scripts/main.js:255-259 | a parse failure and a non-array root are refused with their own errors; a success returns the parsed array's elements |
| ImportCheck.Every | scripts/main.js:258 | the element check passes exactly when every element has the three fields |
| ImportCheck.ImportSucceedsIff | scripts/main.js:255-260 | an import succeeds exactly for an array whose every element has truthy `id`, `title` and `dateAdded`, and it stores that array |
| ImportCheck.FirstBadElementDecides | scripts/main.js:258 | the first failing element decides the error: `null` throws a property-read error, anything else a missing-fields error |
| ImportCheck.OneBadElementRefusesAll | scripts/main.js:258-259 | one bad element refuses the whole file |
| ImportCheck.StoredAfterImport | scripts/main.js:255-268 | storage is unchanged by a refused import and holds the parsed array after an accepted one |
| ImportCheck.StatusMessage | scripts/main.js:257-265 | only the root and missing-field errors have a fixed status text |
| ImportCheck.FalsyFieldsCountAsMissing | scripts/main.js:258 | an empty id counts as missing; a numeric id is accepted |

## Left out

- Rendering, event binding, focus handling, highlighting and status colours (the rest of `scripts/ui.js` and `scripts/main.js`) are not modelled: they are DOM work.
- The export button, the cover preview and the sort-direction button label are outside the modelled core.
- `compileRegex` and `highlight` in `scripts/search.js` are not part of this model. The compiled pattern is a parameter, so the case-sensitivity toggle is part of that parameter.
- Local storage, `JSON.stringify`, `JSON.parse` and `location.reload` are not modelled. Storage is the `saved` copy in `State.Store`; a parsed file is an `Option<Json>`, with `None` for a parse failure.
- `Date.now`, `toISOString` and `FileReader` are host services. They are the parameters `Submit.Clock` and `fileData`.
- The host-dependent texts of a `SyntaxError` and of the error thrown when reading a property of `null` are not modelled; `ImportCheck.StatusMessage` returns `None` for them.
- Floating-point numbers are not modelled: `JsValues.Number` is an integer or `NaN`, and its integers are unbounded. JavaScript numbers hold every integer only up to 2^53, and `String` writes 10^21 and above in exponent form ("1e+21").
- Validators.PagesError: accepts every non-negative integer. In JavaScript `String(n)` is exponent text ("1e+21") from 10^21 on, which `PAGES_RE` refuses, so the application reports "Pages must be a positive number." for such a count. `Validators.PagesFlagged` and `PagesPattern.IntegerPagesAccepted` state the same unbounded acceptance and share this gap.
- Submit.TypedPagesStored: holds over unbounded integers. In JavaScript `Number` rounds a page text beyond 2^53 ("9007199254740993" gives 9007199254740992), so the stored count is not the typed integer, and from 10^21 on the stored count is refused as above. `JsValues.StringToNumberRoundTrip` and `Settings.CapRoundTrip` hold in JavaScript only up to 2^53 for the same reason.
- JsValues.StringToNumber: only whole numbers with an optional sign are read. JavaScript's `Number` also reads decimals ("12.5"), exponents ("1e3"), hexadecimal, octal and binary literals ("0x1F") and "Infinity"; here these all give `NaN`.
- Submit.BuildItem: because of the restriction above, a book whose pages field holds "12.5" or "1e3" is modelled with `NaN` pages and gets "Pages is required.", where the application stores 12.5 or 1000 without an error.
- Settings.CapFromInput: for the same reason, a cap typed as "2.5" is saved as 0 here, where the application saves 2.5.
- Stats.CalculateStats: requires that no tag is named like a property every object inherits ("toString", "constructor", "valueOf" and the rest of `Stats.InheritedNames`). For such a tag, `tags[b.tag] || 0` starts from an inherited function, so the count becomes a string and the sort compares `NaN`. Example: for tags "toString", "fantasy", "fantasy" the application reports "toString". The same requirement is on `Stats.RankedHeadIsMostFrequent`, `Stats.RankedHeadFirstAmongTies`, `Stats.LeaderIsRankedHead`, `Stats.TopTagIsLeader` and `Stats.TiesGoToFirstValidTag`.
- Strings.LexLess: compares characters by code point. JavaScript's `<` compares UTF-16 code units. The two orders differ only when a character above U+FFFF meets one in U+E000..U+FFFF, so `Query.RecordsListIsOrdered` describes text sorting only up to that difference.
- Query.RecordsListIsOrdered: requires that no record has a `NaN` page count when sorting by pages. `NaN` makes the comparator inconsistent, and ECMAScript leaves the order of such a sort to the implementation. A record that passed the validator never has `NaN` pages.
- Records.Record: `id`, `title` and `dateAdded` are strings, and `pages` is a number, `null` or absent. An imported file only needs truthy `id`, `title` and `dateAdded`, so it can store `id: 7` or a page count written as text ("12"). The summary would read that text as a number (`Number("12")`). Such records are outside this model; `ImportCheck` works on the raw `Json` values and accepts them.
- Submit.BuildItem: its contract lists the record's fields as the form sets them. The properties of record construction are stated by `Submit.EditReplacesInPlace`, `Submit.NoteSkipsBookFields`, `Submit.BlankPagesBecomeZero`, `Submit.TypedPagesStored` and `Submit.SubmitKeepsRecordsValid`.
- Submit.SubmitForm: its contract names the built record, its validation and the `Store` operation the handler calls. What a submission promises is stated by `Submit.SubmitOutcome`, `Submit.SubmitEditKeepsIds`, `Submit.SubmitKeepsRecordsValid`, `Submit.SubmitKeepsIdsUnique`, `Submit.EditReplacesInPlace` and `Submit.EditOfVanishedRecordIsLost`.
- Submit.Commit: its contract lists the branch taken. Its effect is stated through `Submit.SubmitOutcome` and the same lemmas.
- Query.SortDir: its contract gives the sign for each arrow. Its meaning in the sort is stated by `Query.BeforeMeaning` and `Query.DirectionFlips`.
- Setting the cap and unit inputs after reading the settings (`scripts/main.js:226-227`) is DOM work and is not modelled.

## Findings

| source | as written | input that shows it | evidently intended | confidence | as-written member | corrected member |
|---|---|---|---|---|---|---|
| scripts/stats.js:3 | `sum + Number(b.pages)` adds `NaN` for a record without `pages` | an imported record without a `pages` field next to one with 120 pages: the total is `NaN` | a missing page count adds 0, so the total stays 120 | not executed | Stats.MissingPagesPoisonTotal | Stats.TotalPagesOrZeroIsSum |
| scripts/main.js:140,177-178 | an edit calls `updateBook` even when the edited record is no longer in the collection | press a record's Edit button, which sets `editingId` (scripts/main.js:300); press that record's Delete button on its card or in the dashboard, which calls `deleteBook` and leaves `editingId` set (scripts/ui.js:69, scripts/ui.js:158); then save the form, which reaches `updateBook` with an id no record has (scripts/main.js:177-178): "Record updated successfully." is shown but nothing is stored | the edited record is kept, so a successful save always leaves a record with that id | not executed | Submit.EditOfVanishedRecordIsLost | Submit.CommitKeepingEdits |
| scripts/validators.js:2-3 | `TITLE_RE` only constrains the first and last characters | the title "cat  dog" passes, yet the comment and the message promise "no double spaces" | a double space is refused with the spacing message | not executed | Validators.DoubleSpacedTitle | Validators.IntendedTitleError |

The record list, the stored collection and `Stats.CalculateStats` follow the
code as written. The corrected members sit next to the as-written ones so that
both behaviours can be compared.
