# ftlwatch3 core, modelled in Dafny

This project models three parts of ftlwatch3, a small web application: a
PHP back end that logs users in through the 42 intranet's OAuth provider and
serves tabular data, a React front end that shows the data in sortable,
searchable, paginated tables, and a Python worker that imports correction
points.

- **The `SuperTable` component** (`table_state.dfy`, with `sorting.dfy`,
  `stable_sort.dfy`, `search.dfy`, `normalise.dfy`, `selection.dfy`,
  `strings.dfy`, `records.dfy` and `paging.dfy`).
  - The component's React state is a class, and each event handler is a
    method that updates it.
  - The derived views are functions of that state:
    - the rows sorted by the header comparator;
    - the rows kept by the comma-separated AND/OR search, after
      lower-casing, trimming, accent-stripping normalisation;
    - the page count, the rows of the current page (using JavaScript's
      `slice`), the window of page buttons and the first/last controls
      around it.
  - The page-number loop is a method proved equal to the window it
    builds.
- **The permissions controller** (`permissions.dfy`).
  - `groups_get` builds its payload's columns and rows, the rows in a
    loop.
  - `storeUser` derives the account fields with its fallbacks and chooses
    between creating and updating the account.
  - `login` validates its input and opens the session.
  - `loginapi_authorize` builds the OAuth redirect URL.
  - `loginapi_callback` chooses the exists flag.
  - Calls into session, OAuth and account code are recorded as effects,
    with their answers taken as inputs.
- **The points-import worker** (`points_import.dfy`).
  - The script's globals are the fields of a `PointsImporter` object.
  - The callback's budget logic and the per-student loop are methods.
  - The database reads are inputs, as is what the API helper hands to the
    callback. The inserts and API requests are logs.
  - Functions of the inputs describe the budget, the inserted rows, the
    sticky `update_all` flag and the requests, and lemmas state their
    properties.

Where the code and a natural reading of the feature differ, the model
follows the code:
- The page count is computed from all the records, not from the rows the
  search keeps. So after a search, pages past the filtered rows can be
  reached, and they are empty (`Paging.PagesPastTheRowsAreEmpty`).
- An empty query splits to one empty term. That term matches only records
  having at least one non-object value, so an empty query keeps exactly
  those records, not every record (`Search.EmptyQuery`).
- A new `values` prop from the parent keeps the current page. After fewer
  records arrive, the page can lie past the page count. "Next" stays enabled
  there and moves further out (`Table.SuperTable.ReceiveValues`,
  `Table.SuperTable.ClickNext`). On a page more than two past the page count
  the footer lists no page button and offers only the "1" and last-page
  buttons (`Paging.ControlsOnAStalePage`); one or two pages past it, the
  window still lists the pages from two below the current one up to the
  page count.
- Page numbers can go below 1. With no records the footer's "0" button
  selects page 0, and "Previous" is enabled there and reaches page -1 and
  below. `slice` counts negative bounds from the end, so once records
  arrive such a page shows rows near the end of the list: with 25 rows at
  10 a page, page -1 shows rows 5 to 14 (`Paging.NegativePageCountsFromEnd`,
  `Paging.NegativePageExample`).
- With no records the page count is 0, and the footer shows a "1", two gaps
  and a "0" (`Paging.ControlsWithoutPages`).

## Model

| member | source | states |
|---|---|---|
| Table.NextSort | site/src/components/Common/SuperTable.tsx:69-80 | the `handleSort` rule; its properties are stated by `Table.SortCycle` and `Table.OtherColumnSortsAscending` |
| Table.SortCycle | site/src/components/Common/SuperTable.tsx:69-80 | clicking one header cycles ascending, descending, cleared (direction left descending) and back to ascending |
| Table.OtherColumnSortsAscending | site/src/components/Common/SuperTable.tsx:76-79 | a click on any column other than the sorted one sorts by it ascending, whatever the direction was |
| Table.ClearedSortKeepsOrder | site/src/components/Common/SuperTable.tsx:70-72 | once the sort is cleared to the empty column, the rows come in their original order |
| Table.SuperTable.constructor | site/src/components/Common/SuperTable.tsx:47-54 | initial state: empty query, OR mode, page 1, first page-size option, sorted by "id" ascending; with records, page 1 is a real page |
| Table.SuperTable.ReceiveValues | site/src/components/Common/SuperTable.tsx:112 | a new `values` prop replaces the records and keeps every other field, the current page included; more records keep a real page real, fewer can leave it past the page count |
| Table.SuperTable.HandleUsersPerPageChange | site/src/components/Common/SuperTable.tsx:56-59 | sets the page size and goes back to page 1, which is a real page when there are records; nothing else changes |
| Table.SuperTable.HandleToggleIncludeAll | site/src/components/Common/SuperTable.tsx:61-63 | flips AND/OR mode; nothing else changes |
| Table.SuperTable.HandleSearchChange | site/src/components/Common/SuperTable.tsx:65-67 | sets the query; nothing else changes |
| Table.SuperTable.HandleSort | site/src/components/Common/SuperTable.tsx:69-80 | the new sort column and direction follow the three-way header rule; nothing else changes |
| Table.SuperTable.ClickPrevious | site/src/components/Common/SuperTable.tsx:276-277 | enabled on any page but 1, a page past the page count included: goes back one page; nothing else changes; a real page stays real |
| Table.SuperTable.ClickNext | site/src/components/Common/SuperTable.tsx:342-343 | enabled on any page but the last, a page past the page count included: goes forward one page, so past the count it moves further out; nothing else changes; a real page stays real |
| Table.SuperTable.ClickPage | site/src/components/Common/SuperTable.tsx:284-337 | a page button, the first-page button or the last-page button selects that page, also from a stale page; while there are records the chosen page is real |
| Table.FilteredRowReachable | site/src/components/Common/SuperTable.tsx:112-116 | every row the search keeps is on a page numbered within the page count, at its position on that page |
| Table.SuperTable.PageCount | site/src/components/Common/SuperTable.tsx:112 | `totalPages`, from all the records; stated by `Paging.TotalPagesExamples` and `Paging.PagesPastTheRowsAreEmpty` |
| Table.SuperTable.Sorted | site/src/components/Common/SuperTable.tsx:118 | `sortedValues`; stated by `Sorting.SortedValues` and `Sorting.SortedValuesOrdered` |
| Table.SuperTable.Filtered | site/src/components/Common/SuperTable.tsx:126 | `filteredUsers`; stated by `Search.FilteredUsersSelects` and `Table.FilteredRowReachable` |
| Table.SuperTable.Shown | site/src/components/Common/SuperTable.tsx:154 | `displayedUsers`; stated by `Paging.DisplayedRows` and `Table.FilteredRowReachable` |
| Table.SuperTable.Footer | site/src/components/Common/SuperTable.tsx:284-337 | the footer of the current page; stated by `Paging.ControlsOnARealPage`, `Paging.ControlsOnAStalePage` and `Paging.ControlsWithoutPages` |
| Sorting.LexCompare | site/src/components/Common/SuperTable.tsx:91 | the text comparison -1, 0 or 1; stated by `Sorting.LexAntisymmetric`, `Sorting.LexZeroIffEqual` and `Sorting.LexTransitive` |
| Sorting.LexAntisymmetric | site/src/components/Common/SuperTable.tsx:91 | the text comparison negates when its operands are swapped |
| Sorting.LexZeroIffEqual | site/src/components/Common/SuperTable.tsx:91 | the text comparison answers 0 exactly for equal strings |
| Sorting.LexTransitive | site/src/components/Common/SuperTable.tsx:91 | "not after" in the text comparison is transitive |
| Sorting.CustomSort | site/src/components/Common/SuperTable.tsx:82-97 | `customSort`; its properties are stated by `Sorting.CustomSortSign` and `Sorting.CustomSortAntisymmetric` |
| Sorting.CustomSortSign | site/src/components/Common/SuperTable.tsx:82-97 | 0 when either value is undefined; for two numbers the sign of their difference; otherwise the text comparison of their `toString` forms |
| Sorting.CustomSortAntisymmetric | site/src/components/Common/SuperTable.tsx:82-97 | swapping the two records negates the comparator |
| Sorting.Compare | site/src/components/Common/SuperTable.tsx:118-124 | the comparator handed to `sort`, by direction; stated by `Sorting.DescendingNegatesAscending` and `Sorting.CompareAntisymmetric` |
| Sorting.Comparator | site/src/components/Common/SuperTable.tsx:118-124 | `Sorting.Compare` as a function value, the form `StableSort.Sort` takes |
| Sorting.DescendingNegatesAscending | site/src/components/Common/SuperTable.tsx:118-124 | swapping the operands for descending order equals negating the ascending answer |
| Sorting.CompareAntisymmetric | site/src/components/Common/SuperTable.tsx:118-124 | in both directions the comparator is antisymmetric, ties a record with itself, and ties exactly when `customSort` does |
| Sorting.SortedValues | site/src/components/Common/SuperTable.tsx:118 | the sorted copy has the same records, each as often as in the input |
| Sorting.UniformConsistent | site/src/components/Common/SuperTable.tsx:82-97 | when every record has the column and its values are all numbers or all non-numbers, the comparator is a consistent total preorder |
| Sorting.MixedColumnInconsistent | site/src/components/Common/SuperTable.tsx:86-92 | mixing numbers and strings in one column makes the comparator intransitive (10, "9", 9) |
| Sorting.SortedValuesOrdered | site/src/components/Common/SuperTable.tsx:118-124 | on a uniform column the rows come out ascending or descending as chosen |
| Sorting.SortedValuesStable | site/src/components/Common/SuperTable.tsx:118-124 | on a uniform column records that tie keep their input order |
| Sorting.SortedValuesWithoutField | site/src/components/Common/SuperTable.tsx:83-86 | when no record has the sort field, the rows keep the input order |
| StableSort.Sort | site/src/components/Common/SuperTable.tsx:118 | the sort is a permutation of its input |
| StableSort.SortOrdered | site/src/components/Common/SuperTable.tsx:118 | with a consistent comparator the result is ordered |
| StableSort.SortStable | site/src/components/Common/SuperTable.tsx:118 | with a consistent comparator the elements tying with any element keep their order |
| StableSort.SortAllTiesKeepsOrder | site/src/components/Common/SuperTable.tsx:118 | when every pair ties, the sort returns its input |
| Records.NatTextValue | site/src/components/Common/SuperTable.tsx:91 | the decimal text of a number reads back as that number |
| Records.NumText | site/src/components/Common/SuperTable.tsx:91 | `toString` of a number: a minus sign for negatives, then the decimal digits; read back by `Records.NatTextValue` |
| Records.Text | site/src/components/Common/SuperTable.tsx:134 | `value.toString()`: a string as is, a number as its decimal text, a boolean as "true" or "false" |
| Strings.Split | site/src/components/Common/SuperTable.tsx:128 | `split(',')` gives at least one piece, none holding a comma |
| Strings.JoinSplit | site/src/components/Common/SuperTable.tsx:128 | joining the pieces of a split gives the string back |
| Strings.SplitJoin | site/src/components/Common/SuperTable.tsx:128 | pieces free of the separator come back unchanged from splitting their join |
| Strings.SplitAround | site/src/components/Common/SuperTable.tsx:128 | splitting `a + sep + b` splits `a` and `b` separately |
| Strings.Contains | site/src/components/Common/SuperTable.tsx:134 | `includes`; stated by `Strings.ContainsAt` |
| Strings.ContainsAt | site/src/components/Common/SuperTable.tsx:134 | `includes` holds exactly when the term occurs at some position |
| Normalisation.LowerChar | site/src/components/Common/SuperTable.tsx:134 | lower-casing a character leaves no capital and changes nothing else |
| Normalisation.Lower | site/src/components/Common/SuperTable.tsx:134 | `toLowerCase` lower-cases each character in its place: same length, position `i` holds `LowerChar` of the input's, so no capital is left and text without capitals is unchanged |
| Normalisation.TrimStart | site/src/components/Common/SuperTable.tsx:134 | the result is a suffix not starting with white space, and everything dropped is white space |
| Normalisation.TrimEnd | site/src/components/Common/SuperTable.tsx:134 | the result is a prefix not ending with white space, and everything dropped is white space |
| Normalisation.TrimAround | site/src/components/Common/SuperTable.tsx:134 | `trim` removes exactly the white space around text that neither starts nor ends with it |
| Normalisation.LatinLetter | site/src/components/Common/SuperTable.tsx:134 | a precomposed Latin-1 letter decomposes to a lower-case base letter and a combining mark, or not at all |
| Normalisation.DecomposeChar | site/src/components/Common/SuperTable.tsx:134 | NFD of a character is itself or a non-mark base and a combining mark, the base capital only for a capital |
| Normalisation.Decompose | site/src/components/Common/SuperTable.tsx:134 | decomposition adds no capital and leaves unaccented text unchanged; it maps each character by `DecomposeChar`, as `Normalisation.DecomposeAppend` states |
| Normalisation.StripMarks | site/src/components/Common/SuperTable.tsx:134 | removing U+0300 to U+036F leaves no mark and fixes text without marks; it keeps exactly the non-mark characters in order, as `Normalisation.StripMarksFilters` states |
| Normalisation.Trim | site/src/components/Common/SuperTable.tsx:134 | `trim`: `TrimEnd` after `TrimStart`; stated by `Normalisation.TrimAround` |
| Normalisation.Normalise | site/src/components/Common/SuperTable.tsx:134-135 | lower-case, trim, decompose, strip marks, in that order; stated by `Normalisation.NormalisePadded` and `Normalisation.NormalForm` |
| Normalisation.DecomposeAppend | site/src/components/Common/SuperTable.tsx:134 | NFD of a concatenation is the concatenation of the parts' NFD |
| Normalisation.StripMarksAppend | site/src/components/Common/SuperTable.tsx:134 | removing the marks of a concatenation removes them from each part |
| Normalisation.StripMarksFilters | site/src/components/Common/SuperTable.tsx:134 | the global replacement of the mark range is a filter keeping exactly the non-mark characters, in order |
| Normalisation.LowerAppend | site/src/components/Common/SuperTable.tsx:134 | lower-casing a concatenation lower-cases each part |
| Normalisation.FoldChar | site/src/components/Common/SuperTable.tsx:134-135 | one character's normal form: a mark vanishes, any other character becomes one lower-case unmarked character, itself lowered when unaccented and its base letter when accented |
| Normalisation.Fold | site/src/components/Common/SuperTable.tsx:134-135 | the per-character normal form of a text; `Normalisation.NormalisePadded` ties it to `Normalise` |
| Normalisation.FoldsCore | site/src/components/Common/SuperTable.tsx:134 | lower-casing, decomposing and removing marks is `Fold`, character by character |
| Normalisation.NormalisePadded | site/src/components/Common/SuperTable.tsx:134-135 | text surrounded by any white space normalises to `Fold` of the text: edge white space goes, capitals are lowered, accented letters lose their accents |
| Normalisation.NormaliseChar | site/src/components/Common/SuperTable.tsx:134-135 | a single character that is not white space normalises to its `FoldChar` |
| Normalisation.JoseExample | site/src/components/Common/SuperTable.tsx:134-135 | " JOSE " and "José" both normalise to "jose" |
| Normalisation.NormalForm | site/src/components/Common/SuperTable.tsx:134-135 | a normalised string holds no capital and no combining mark |
| Normalisation.NormaliseFixesNormalText | site/src/components/Common/SuperTable.tsx:134-135 | text without capitals, accents or surrounding white space is its own normal form |
| Normalisation.NormaliseEmpty | site/src/components/Common/SuperTable.tsx:135 | the empty term normalises to the empty string |
| Normalisation.AccentedLetterFolds | site/src/components/Common/SuperTable.tsx:134-135 | an accented letter and its lower-case form both normalise to the plain base letter |
| Selection.Select | site/src/components/Common/SuperTable.tsx:126 | `filter` keeps exactly the elements that pass and never grows |
| Selection.SelectAt | site/src/components/Common/SuperTable.tsx:126 | the filtered elements are those at the passing positions, in ascending order |
| Selection.SelectTwice | site/src/components/Common/SuperTable.tsx:126 | filtering with a weaker test first changes nothing |
| Selection.SelectSame | site/src/components/Common/SuperTable.tsx:126 | tests that agree on the elements filter alike |
| Search.TermMatches | site/src/components/Common/SuperTable.tsx:132-136 | some non-object field value's normal form contains the term's normal form; stated by `Search.BlankTermMatches` and `Search.KeepsAlike` |
| Search.Searchable | site/src/components/Common/SuperTable.tsx:133 | a value the search looks at: any value that is not an object; used by `Search.HasSearchableValue` and `Search.EmptyQuery` |
| Search.Keeps | site/src/components/Common/SuperTable.tsx:130-151 | every term matches (AND) or some term does (OR); stated by `Search.KeepsOneTerm` and `Search.AndQueryWithinOrQuery` |
| Search.Passes | site/src/components/Common/SuperTable.tsx:126-152 | `Search.Keeps` as the test handed to `filter`; stated by `Search.FilteredUsers` |
| Search.FilteredUsers | site/src/components/Common/SuperTable.tsx:126-152 | a row is kept exactly when it is a sorted row and every term (AND) or some term (OR) matches a non-object value |
| Search.FilteredUsersSelects | site/src/components/Common/SuperTable.tsx:126-152 | the kept rows are the sorted rows at the ascending positions whose rows pass |
| Search.AndQueryWithinOrQuery | site/src/components/Common/SuperTable.tsx:130-151 | the AND result is the OR result filtered again in AND mode |
| Search.KeepsTwoTerms | site/src/components/Common/SuperTable.tsx:130-151 | with two terms, AND mode keeps a record exactly when both match and OR mode when either does |
| Search.TwoTermQuery | site/src/components/Common/SuperTable.tsx:128-151 | a query of two comma-free terms joined by a comma splits into those two terms, and AND needs both to match while OR needs either |
| Search.FooBarQuery | site/src/components/Common/SuperTable.tsx:128-151 | the query "foo,bar" splits into "foo" and "bar"; AND keeps records matching both, OR records matching either |
| Search.BlankTermMatches | site/src/components/Common/SuperTable.tsx:132-136 | a term normalising to the empty string matches exactly the records having a non-object value |
| Search.KeepsOneTerm | site/src/components/Common/SuperTable.tsx:130-151 | with a single term both modes reduce to that term matching |
| Search.KeepsAlike | site/src/components/Common/SuperTable.tsx:134-135 | term lists that normalise alike keep the same records |
| Search.UpperTermFindsAccentedValue | site/src/components/Common/SuperTable.tsx:130-151 | the term " JOSE " keeps, in either mode, a record holding "José" |
| Search.SingleBlankTerm | site/src/components/Common/SuperTable.tsx:128-151 | a query of one blank term keeps, in either mode, the records having a non-object value |
| Search.EmptyQuery | site/src/components/Common/SuperTable.tsx:128 | the empty query keeps, in either mode, exactly the records having a non-object value |
| Search.OrWithBlankTerm | site/src/components/Common/SuperTable.tsx:142-150 | in OR mode any blank term keeps every record having a non-object value |
| Search.SameNormalFormsFilterAlike | site/src/components/Common/SuperTable.tsx:133-135 | queries whose terms normalise alike filter alike |
| Paging.TotalPages | site/src/components/Common/SuperTable.tsx:112 | the fewest pages of the page size that hold all the records |
| Paging.TotalPagesMonotone | site/src/components/Common/SuperTable.tsx:112 | fewer rows never need more pages |
| Paging.TotalPagesExamples | site/src/components/Common/SuperTable.tsx:112 | 23 rows at 10 per page need 3 pages, 20 need 2, none need 0 |
| Paging.SliceIndex | site/src/components/Common/SuperTable.tsx:154 | a `slice` bound is clamped to the sequence and taken as is when in range |
| Paging.JsSlice | site/src/components/Common/SuperTable.tsx:154 | JavaScript's `slice`; stated, for the table's bounds, by `Paging.DisplayedRows` |
| Paging.StartIndex | site/src/components/Common/SuperTable.tsx:115 | the index of the first row of a page; stated by `Paging.RowOnItsPage` and `Paging.NegativePageCountsFromEnd` |
| Paging.Displayed | site/src/components/Common/SuperTable.tsx:115-116 | `displayedUsers`; stated by `Paging.DisplayedRows`, `Paging.RowOnItsPage` and `Paging.PagesPastTheRowsAreEmpty` |
| Paging.DisplayedRows | site/src/components/Common/SuperTable.tsx:115-116 | a page shows the rows from its start index on, at most a page's worth, none when the start is past the end |
| Paging.RowOnItsPage | site/src/components/Common/SuperTable.tsx:154 | row `i` is shown on page `i / size + 1`, within the page count, at position `i % size` |
| Paging.PagesPastTheRowsAreEmpty | site/src/components/Common/SuperTable.tsx:154 | a page beyond the rows' own page count shows nothing |
| Paging.PagingExample | site/src/components/Common/SuperTable.tsx:112-116 | 23 rows at 10 per page: page 3 shows the last three rows, page 4 shows nothing |
| Paging.PageZeroIsEmpty | site/src/components/Common/SuperTable.tsx:154 | page 0 shows nothing |
| Paging.NegativePageCountsFromEnd | site/src/components/Common/SuperTable.tsx:154 | on a negative page with enough rows, the displayed rows are the page-size rows starting that many rows from the end |
| Paging.NegativePageExample | site/src/components/Common/SuperTable.tsx:154 | with 25 rows at 10 a page, page -1 shows rows 5 to 14 |
| Paging.PageRange | site/src/components/Common/SuperTable.tsx:104-107 | the pages the window loop pushes from `lo`, one at a time up to `hi`: exactly the consecutive integers from `lo` to `hi`, none when `lo > hi` |
| Paging.Window | site/src/components/Common/SuperTable.tsx:99-110 | the page buttons `generatePageNumbers` lists; stated by `Paging.WindowMembers` and `Paging.WindowSize` |
| Paging.GeneratePageNumbers | site/src/components/Common/SuperTable.tsx:99-110 | the loop returns the window from `max(cur - half, 1)` to `min(cur + half, total)` |
| Paging.WindowMembers | site/src/components/Common/SuperTable.tsx:99-110 | a page is listed exactly when it is within half the window of the current page and between 1 and the page count; the list ascends by one |
| Paging.WindowSize | site/src/components/Common/SuperTable.tsx:113 | at most five buttons, and the current page among them when it is a real page |
| Paging.WindowExamples | site/src/components/Common/SuperTable.tsx:113 | page 7 of 20 lists 5 to 9, page 1 of 3 lists 1 to 3, no pages list nothing |
| Paging.PageControls | site/src/components/Common/SuperTable.tsx:284-337 | the footer's first/last buttons and gaps around the window; stated by `Paging.ControlsOnARealPage`, `Paging.ControlsOnAStalePage` and `Paging.ControlsWithoutPages` |
| Paging.ControlsOnARealPage | site/src/components/Common/SuperTable.tsx:284-337 | the "1" button shows beyond page 3 and its gap beyond page 4; the last-page button shows more than two pages before the end and its gap more than three before |
| Paging.ControlsOnAStalePage | site/src/components/Common/SuperTable.tsx:284-337 | on a page more than two past the page count no page button is listed, and the footer shows the "1" and last-page buttons with both gaps |
| Paging.ControlsWithoutPages | site/src/components/Common/SuperTable.tsx:284-337 | with no pages the footer shows both buttons and both gaps and no page buttons |
| Permissions.IsSet | back/controller/permissions.php:110 | `isset`: the key is present and its value is not null; used by every field rule and stated by `Permissions.NullUsualNameFallsBack` |
| Permissions.LooselyEmpty | back/controller/permissions.php:117 | PHP 8's `== ""`: the empty string, null or false; stated by `Permissions.AvatarNeverNull` |
| Permissions.Get | back/controller/permissions.php:110-111 | reading a missing or null key gives null |
| Permissions.At | back/controller/permissions.php:114-118 | a nested `isset` finds only non-null values; stated for the two paths read by `Permissions.AtImagePaths` |
| Permissions.AtImagePaths | back/controller/permissions.php:114-117 | `image.link` is found exactly when `image` is an array holding a non-null `link`, and `image.versions.medium` exactly when `image` and `versions` are arrays and `medium` is set and non-null; each gives the stored value |
| Permissions.GroupColumn | back/controller/permissions.php:20 | a group's column, labelled with its name and keyed by its id; stated by `Permissions.GroupColumns` |
| Permissions.GroupColumns | back/controller/permissions.php:19-21 | one column per group, in order, labelled with its name and keyed by its id |
| Permissions.Columns | back/controller/permissions.php:18-21 | the Login column first, then the group columns |
| Permissions.WithLogin | back/controller/permissions.php:27 | the row holds the entry's keys plus "login", "login" set to the entry's key, and every other field as the entry has it |
| Permissions.GroupRows | back/controller/permissions.php:23-28 | one row per user entry, in order, holding the entry's fields with "login" set to the entry's key |
| Permissions.GroupsGet | back/controller/permissions.php:8-34 | a 200 answer with the columns and one row per user, in order, each holding the entry's keys plus "login", "login" set to the key and every other field as the entry has it |
| Permissions.StoreUser | back/controller/permissions.php:106-131 | the step-by-step derivation gives the fields of the profile's decision list; create exactly when the exists flag is 0 |
| Permissions.FirstName | back/controller/permissions.php:110 | the usual first name when set and not null, otherwise `first_name`; stated by `Permissions.NullUsualNameFallsBack` |
| Permissions.DisplayName | back/controller/permissions.php:111 | the usual full name when set and not null, otherwise `displayname`; used by `Permissions.StoreUser` |
| Permissions.AvatarFor | back/controller/permissions.php:113-119 | the avatar decision list; stated by `Permissions.AvatarNeverNull` and `Permissions.AvatarFromImage` |
| Permissions.CoalitionFor | back/controller/permissions.php:121-124 | `coalition_id` when set and not null, otherwise -1; used by `Permissions.StoreUser` |
| Permissions.ProfileFields | back/controller/permissions.php:110-129 | the seven account arguments, in order; `Permissions.StoreUser` is proved to pass exactly these |
| Permissions.AvatarNeverNull | back/controller/permissions.php:113-119 | the avatar is never null, and is the empty string without an image |
| Permissions.AvatarFromImage | back/controller/permissions.php:113-119 | with an image, the avatar is the medium version or the link, and the medium version whenever that is a non-empty string |
| Permissions.NullUsualNameFallsBack | back/controller/permissions.php:110 | a usual first name set to null counts as unset |
| Permissions.Login | back/controller/permissions.php:37-53 | 400 and nothing else exactly when login or password is missing; otherwise the credential check first, then the session opening exactly when they are right, and no other effect |
| Permissions.EnvText | back/controller/permissions.php:59 | `getenv` pasted into a string: the value, or the empty string when unset; stated by `Permissions.AuthorizeUrlParts` |
| Permissions.AuthorizeUrl | back/controller/permissions.php:58-59 | the URL starts with the authorize endpoint and `response_type=code`, followed by `&`; its parameters are stated by `Permissions.AuthorizeUrlJoinsParts` |
| Permissions.LoginApiAuthorize | back/controller/permissions.php:55-63 | `loginapi_authorize`; stated by `Permissions.AuthorizeRedirects` and `Permissions.AuthorizeUrlJoinsParts` |
| Permissions.AuthorizeRedirects | back/controller/permissions.php:55-63 | exactly one effect, a redirect whose header is "Location: " and the authorize endpoint followed by the client id, the redirect address and the scope |
| Permissions.AuthorizeUrlJoinsParts | back/controller/permissions.php:58-59 | the URL is the base followed by the client id, the redirect to the front end's /loginapi and the public scope, each after an `&` |
| Permissions.AuthorizeUrlParts | back/controller/permissions.php:59 | when the settings hold no `&`, splitting the text of the appended parameters (the part after `response_type=code&`, not the whole query) on `&` gives those three parameters back |
| Permissions.LoginApiCallback | back/controller/permissions.php:65-104 | 400 without a code; otherwise a login check, then a store that creates exactly when the login was not found, then the session |
| PointsImport.RowFor | api/update_users_points.py:25-33 | the row the callback stores for an unseen transaction; stated by `PointsImport.PointsImporter.UserPointsCallback` and `PointsImport.UnseenAllInserted` |
| PointsImport.PointsImporter.constructor | api/update_users_points.py:13-14 | both budget globals start at 50 |
| PointsImport.PointsImporter.UserPointsCallback | api/update_users_points.py:16-46 | an unseen id refills the budget and inserts one row; a known id spends one unit; the answer is whether budget is left; the stored ids and the refill value never change |
| PointsImport.PointsImporter.Deliver | api/update_users_points.py:68-71 | the callback applied to each transaction in turn: the budget, the rows and every answer follow the budget functions |
| PointsImport.PointsImporter.CheckStudent | api/update_users_points.py:59-71 | loads the student's ids, sets the flag when there are none, makes the request the flag calls for, then delivers the feed |
| PointsImport.PointsImporter.ImportPoints | api/update_users_points.py:49-75 | the requests, the rows and the budget over all students follow the per-student functions |
| PointsImport.NextLimit | api/update_users_points.py:20-44 | the budget after one callback; stated with `PointsImport.LimitAfter` by the lemmas below |
| PointsImport.LimitAfter | api/update_users_points.py:16-46 | the budget after a feed, one callback per transaction in order; stated by `PointsImport.KnownRunSpends`, `LimitAfterUnseen` and `KnownRunStops` |
| PointsImport.NewRows | api/update_users_points.py:20-41 | the rows a feed inserts; stated by `PointsImport.UnseenAllInserted`, `SeenTwiceInsertedTwice` and `KnownNothingInserted` |
| PointsImport.KnownRunSpends | api/update_users_points.py:43-44 | a run of known ids lowers the budget by one each |
| PointsImport.LimitAfterUnseen | api/update_users_points.py:20-21 | the budget is the refill value less the known ids after the last unseen one |
| PointsImport.KnownRunStops | api/update_users_points.py:43-46 | from budget c > 0, a run of known ids first answers false at the c-th |
| PointsImport.UnseenRestores | api/update_users_points.py:20-21 | an unseen id refills the budget whatever it was |
| PointsImport.UnseenAllInserted | api/update_users_points.py:20-41 | every transaction of a feed of unseen ids is inserted, in order |
| PointsImport.SeenTwiceInsertedTwice | api/update_users_points.py:20-41 | an unseen transaction seen twice is inserted twice, as the stored ids are never updated |
| PointsImport.KnownNothingInserted | api/update_users_points.py:43-44 | known ids insert nothing |
| PointsImport.UpdateAllAfter | api/update_users_points.py:57-65 | the `update_all` flag after each student; stated by `PointsImport.UpdateAllSticky` |
| PointsImport.UpdateAllSticky | api/update_users_points.py:64-65 | the flag is set exactly when it was given or some student so far had nothing stored |
| PointsImport.UpdateAllStaysSet | api/update_users_points.py:64-65 | once set, the flag stays set for every later student |
| PointsImport.HistoryPath | api/update_users_points.py:67-71 | the student's correction-point history path; stated by `PointsImport.FullReadsAfterEmpty` and `PointsImport.PartialReadsBeforeEmpty` |
| PointsImport.CallFor | api/update_users_points.py:67-71 | the request for one student; stated by `PointsImport.FullReadsAfterEmpty` and `PointsImport.PartialReadsBeforeEmpty` |
| PointsImport.Calls | api/update_users_points.py:57-71 | one request per student visited; stated in full by `PointsImport.CallsPerStudent` |
| PointsImport.CallsPerStudent | api/update_users_points.py:57-71 | one request per student, in order, made with the flag as it stands after that student |
| PointsImport.FullReadsAfterEmpty | api/update_users_points.py:64-68 | every student from the first one with nothing stored on (or all, with the flag given) has the full history read |
| PointsImport.PartialReadsBeforeEmpty | api/update_users_points.py:62-71 | without the flag given, a student is read with `sort=-id` from page 1, and may be stopped by the callback, when it and every earlier student have stored ids |
| PointsImport.RowsFor | api/update_users_points.py:57-71 | the rows inserted for the first students; stated by `PointsImport.PointsImporter.ImportPoints` and `PointsImport.KnownStudentsInsertNothing` |
| PointsImport.LimitAcross | api/update_users_points.py:57-71 | the budget after the first students; stated by `PointsImport.PointsImporter.ImportPoints` and `PointsImport.BudgetCarriesAcross` |
| PointsImport.BudgetCarriesAcross | api/update_users_points.py:13 | the budget is not reset between students: with only known ids it drops by the total number seen |
| PointsImport.KnownStudentsInsertNothing | api/update_users_points.py:43-44 | when every id returned for every student is already stored, the import inserts no row |

## Left out

- Rendering of the cards, inputs, buttons and icons is not modelled. This
  includes the styling of the current page's button and the row classes.
- The reload button and the page-size selector are not modelled. The
  selector is present only through `HandleUsersPerPageChange`.
- Table.SuperTable.constructor: requires the first page-size option to be
  positive. Choosing the "All" option is `HandleUsersPerPageChange` with
  the number of records, which the model accepts whenever there are
  records. Only the empty table's "All", a page size of 0, is excluded.
- Table.SuperTable.HandleUsersPerPageChange: takes the parsed integer and
  requires it to be positive. Nothing is modelled for `parseInt` giving
  NaN.
- React's batching of state updates is not modelled. Each handler is one
  atomic update of the state, and the derived views are recomputed from the
  new state.
- Sorting.LexCompare: `localeCompare` is replaced by code-point
  lexicographic order answering -1, 0 or 1. Locale collation is not
  modelled.
- Sorting.SortedValues: `Array.prototype.sort` is modelled as a stable
  insertion sort on a copy. The order and stability are proved only for
  columns where the comparator is consistent, as the engine promises
  nothing for others. `Sorting.MixedColumnInconsistent` shows a column
  where it is not consistent.
- Records.NumText: numbers are integers, and `toString` is their decimal
  text. Fractions, NaN, infinities and exponent notation are not modelled.
  The `toString` of `null` throwing is not modelled: a null value is a
  `Nested` value, which the search skips and the sort compares by its
  text.
- Normalisation.Lower: `toLowerCase` is modelled for ASCII and Latin-1
  letters only. Characters outside Latin-1 are left unchanged.
- Normalisation.DecomposeChar: NFD (Unicode Standard Annex #15) is modelled
  for the precomposed Latin-1 letters only. Other characters are left
  unchanged, and canonical reordering of marks is not modelled.
- `Normalise` is not idempotent in general and is not claimed to be.
  Trimming happens before accents are stripped, so a mark next to white
  space can leave white space at an end.
- Concrete examples on literal strings are few (`Normalisation.JoseExample`,
  `Search.UpperTermFindsAccentedValue`), because each one costs the
  verifier a lot. The general lemmas `Normalisation.NormalisePadded` and
  `Normalisation.FoldChar` give the normal form of any text with white space
  around it.
- Permissions.LooselyEmpty: the loose comparison with `""` follows PHP 8.
  Under PHP 7 the integer 0 also compares equal to `""`; that is not
  modelled.
- Permissions.GroupRows: PHP turns numeric string keys into integers, and
  `array_merge` renumbers integer keys. Neither is modelled: keys are
  strings.
- Outside the model, with their answers taken as inputs or their calls
  recorded as effects:
  - `getUserGroups`, `loginUser`, `login_way`, `createAccount`,
    `updateAccount`, `code_exchange` and `getResource`;
  - the session and `header`/`exit`;
  - the loggers.
- Permissions.LoginApiCallback: the 406 answers of a failed code exchange
  and the 401 answer of a failed profile fetch are not modelled. The
  decoded profile is an input.
- Permissions.AuthorizeUrl: `getenv` is an input, and an unset variable
  contributes the empty string.
- `logout` is not modelled; it only clears the session.
- PointsImport: not modelled:
  - the database (the student list and the stored ids are inputs, the
    inserts a log);
  - `ON CONFLICT DO NOTHING`, which the database applies to a repeated
    insert;
  - the logger, `time.sleep` and the command-line entry point.
- PointsImport.PointsImporter.Deliver: the API helper `callapi` is not part
  of this model. Its early stop on a `false` answer and its paging are
  represented only by the feed of transactions it hands to the callback,
  which is an input.
