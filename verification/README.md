# jquery-filterable filtering core, modelled in Dafny

jquery-filterable turns an HTML table into one whose columns can be
filtered. Each header gets a popover for typing a query. A data row is
marked as matching when none of its filtered cells fails its column's
query. This project models the filtering engine in
`dist/jquery.filterable.js` as pure functions over immutable values and
proves properties about it:

- `Chars` (`chars.dfy`) holds the characters the regular expressions
  care about: JavaScript's `\s` set, the line terminators that `.` does
  not match, and an ASCII case fold for the `i` flag.
- `QuerySource` (`query_source.dfy`) builds the regular-expression source
  text that `FilterableCell.isMatch` makes from a query. It
  backslash-escapes the metacharacters, turns the first `*` into `.*`
  and wraps the result as `.*q.*`. A tokenizer reads that text in the
  small dialect it is written in: escaped literals, `.*` and plain
  characters. A second star stays a bare quantifier, which the
  tokenizer rejects.
- `RegexSemantics` (`regex_semantics.dfy`) says what a token sequence
  matches, as `RegExp.prototype.test` would. It also gives the plain
  readings of a query: a literal substring (`Occurs`), or a prefix
  followed later on the same line by a suffix (`OccursSplit`).
- `Matcher` (`matcher.dfy`) holds `isMatch`. It is defined by the plain
  readings and proved equal to the regular-expression test of the
  source text the code builds. It also covers the caller's own
  `isMatch` predicate, when one is configured.
- `Columns` (`columns.dfy`) holds the column policy (`ignoreColumns`,
  `onlyColumns`) and the header markers `data-ft-ignore` and
  `data-ft-filter` merged into it at start-up.
- `Rows` (`rows.dfy`) holds the cells and rows. A cell has its text and
  a three-state match flag. A row is a sequence of slots, one per `td`,
  where an ignored column is an empty slot.
- `HashKeys` (`hash_keys.dfy`) holds the URL-fragment key of a column's
  query, with a reader that recovers the table id and the column.
- `Tables` (`tables.dfy`) holds the table controller:
  - lazy row collection;
  - the filter sweep and the query registry;
  - autocomplete values;
  - the guard run when the URL fragment changes;
  - the initial filters applied at start-up.

The DOM becomes plain data:

- a table is its `id` attribute, the `td` texts of its `tr`s in document
  order, and one pair of markers per header cell;
- the URL fragment is a map from keys to queries, passed in where the
  code calls `$.bbq.getState`.

A TypeError the code raises while filtering becomes an outcome. It keeps
the state reached when the error was raised, because the rows filtered
before the error stay filtered.

### Behaviour worth knowing

- **Fragment changes.** `hashChange` returns early whenever the column
  has no recorded query (dist/jquery.filterable.js:693-698). So a
  fragment change never filters a column that has not been filtered yet.
  `Tables.HashChange` states this.
- **Tables without an id.** `filterHash` tests `id != ''`, and a missing
  attribute reads as `undefined` (dist/jquery.filterable.js:491-501). So
  a table without an id uses the key `filter_undefined_<col>`. Only an
  empty `id=""` gives `filter__<col>`. `HashKeys.FilterHash` and
  `HashKeys.AbsentIdReadsUndefined` state this.

## Model

| member | source | states |
|---|---|---|
| Matcher.IsMatch | dist/jquery.filterable.js:104-144 | The null query `\NULL` matches exactly the texts made only of whitespace, the empty text included; the empty query matches every text |
| Matcher.IsMatchIsRegexTest | dist/jquery.filterable.js:116-136 | For every query with at most one star, the plain reading of the query agrees with `test` of the regular expression built from its escaped, star-replaced, `.*`-wrapped source text, with or without the `i` flag |
| Matcher.CellMatches | dist/jquery.filterable.js:107-137 | A configured `isMatch` predicate decides the cell, even for the null query `\NULL`; without one, the built source text of a query with at most one star is a well-formed expression, and the cell matches exactly when `test` of it on the cell text is true |
| QuerySource.EscapeProperties | dist/jquery.filterable.js:125 | Escaping keeps every star, gives a text at least as long as the query and at most twice as long, and leaves a query with no metacharacter unchanged |
| QuerySource.ReplaceFirstStarAt | dist/jquery.filterable.js:126 | The non-global replace turns the first star into `.*` and keeps everything before and after it; a text with no star is unchanged |
| QuerySource.RegexSourceShape | dist/jquery.filterable.js:125-127 | The built source text starts and ends with `.*`; it is `.*`, the escaped query, `.*` when the query has no star, and `.*`, the escaped text before the first star, `.*`, the escaped text after it, `.*` when the query has one |
| QuerySource.CompileDefined | dist/jquery.filterable.js:125-127 | The built source text lies in the dialect of literals and `.*` exactly when the query has at most one star |
| QuerySource.SourceWithoutStar | dist/jquery.filterable.js:125-127 | The source text of a star-free query is a wildcard run, the query's own characters each taken literally, and a wildcard run |
| QuerySource.SourceWithOneStar | dist/jquery.filterable.js:125-127 | The source text of a one-star query is a run, the literal prefix, a run in place of the star, the literal suffix, and a run |
| QuerySource.SourceWithManyStars | dist/jquery.filterable.js:125-127 | A second star is not replaced and leaves a bare quantifier outside the dialect |
| QuerySource.ReplaceAtFirstStar | dist/jquery.filterable.js:125-126 | Escaping then replacing turns the first star, and only it, into `.*`, with everything around it escaped |
| RegexSemantics.TestWithoutStar | dist/jquery.filterable.js:127-136 | The pattern of a star-free query matches a text exactly when the query occurs in it |
| RegexSemantics.TestWithOneStar | dist/jquery.filterable.js:127-136 | The pattern of a one-star query matches exactly when the prefix occurs and the suffix occurs after it with no line terminator in between |
| Matcher.LiteralQuery | dist/jquery.filterable.js:125-136 | Without the `i` flag, a star-free query other than `\NULL` matches exactly the texts holding it as a substring |
| Matcher.LiteralQueryIgnoringCase | dist/jquery.filterable.js:125-136 | With the `i` flag, a star-free query other than `\NULL` matches exactly the texts holding a substring equal to it after case folding |
| Matcher.IgnoreCaseIsFolding | dist/jquery.filterable.js:131-136 | Matching with the `i` flag is matching the folded query against the folded text without it, for every query but the null query |
| Matcher.EscapedDotIsLiteral | dist/jquery.filterable.js:125 | `a.b` matches `a.b` and not `axb`: an escaped `.` stands for itself |
| Matcher.NullQueryExamples | dist/jquery.filterable.js:116-119 | `\NULL` matches the empty text and a blank one, and not `a` or ` a ` |
| Matcher.StarExamples | dist/jquery.filterable.js:126 | `a*c` matches `abc`, `ac` and `xabcx`, and not `ab` |
| Matcher.JohnQueryExamples | dist/jquery.filterable.js:126-136 | `joh*` matches `John` and `Johnny` ignoring case, and not `Mark` |
| Columns.IndexOf | dist/jquery.filterable.js:335 | `$.inArray` gives -1 exactly when the value is absent, and otherwise the first position holding it |
| Columns.IgnoredColumn | dist/jquery.filterable.js:328-341 | The `$.inArray` test of the code: with an allow-list, a column is ignored exactly when the list lacks it, whatever the deny-list says; without one, exactly when the deny-list has it. The result is the policy predicate `Ignored` that the rest of the model uses; the table's copy at lines 469-482 is the same function |
| Columns.AddOnce | dist/jquery.filterable.js:727-731 | A column index already in the list leaves the list as it is; an absent one is appended at the end; nothing after the old list repeats an earlier element, and a duplicate-free list stays duplicate-free |
| Columns.MarkColumn | dist/jquery.filterable.js:724-749 | One header's `ftIgnore` adds its index to the deny-list and `ftFilter` to the allow-list, creating the allow-list if there is none; each is appended only when absent, and nothing else changes |
| Columns.MergeFrom | dist/jquery.filterable.js:716-750 | After the header markers are read, the deny-list holds the configured indices plus the columns marked ignore; an allow-list exists exactly when one was configured or a header is marked filter, and it holds the configured indices plus the marked columns; each list keeps the configured one as its prefix, and no index appended after it equals any earlier element, so an index already configured is never added again |
| Columns.MergedPolicyDecides | dist/jquery.filterable.js:716-750 | After the merge a header column is ignored exactly when it is missing from the merged allow-list, if there is one, and otherwise when it is configured or marked as ignored |
| Rows.HasMismatch | dist/jquery.filterable.js:292-310 | A row has a mismatch exactly when some slot holds a cell whose flag is strictly false; empty slots and unfiltered cells never count |
| Rows.FilterRow | dist/jquery.filterable.js:318-322 | Filtering a row stores the cell's match result at the column, leaves every other slot as it was, and marks the row as matching exactly when no slot is then a mismatch |
| Rows.NewRow | dist/jquery.filterable.js:347-374 | A new row has one slot per `td` in order, empty exactly at the ignored columns, each cell holding its text with no flag, and no mismatch |
| Rows.FilterRowKeepsCells | dist/jquery.filterable.js:318-322 | Filtering a row keeps its slots, their emptiness and every cell's text, and leaves the row marked |
| Rows.FilterRowIdempotent | dist/jquery.filterable.js:318-322 | Filtering a row twice at one column with one query gives the same row as filtering it once |
| Rows.FilterRowCommutes | dist/jquery.filterable.js:318-322 | Filters at two different columns of a row give the same row in either order |
| Rows.FirstFilterMarksRow | dist/jquery.filterable.js:318-322 | The first filter of a new row marks the row exactly as the filtered cell matches |
| Rows.AggregationExamples | dist/jquery.filterable.js:292-310 | Cells matched, mismatched and excluded make a mismatch; cells matched, unfiltered and excluded do not |
| HashKeys.FilterHash | dist/jquery.filterable.js:488-502 | The key of a column is `filter_`, the id, `_` and the column index in decimal; an absent id reads `undefined`, and only the empty id gives `filter__` |
| HashKeys.FilterHashRoundTrip | dist/jquery.filterable.js:488-502 | Reading a key back recovers the table's id text and the column index |
| HashKeys.FilterHashInjective | dist/jquery.filterable.js:488-502 | Two columns of one table never share a key |
| HashKeys.AbsentIdReadsUndefined | dist/jquery.filterable.js:491-497 | A table without an id shares its keys with a table whose id is the text `undefined` |
| HashKeys.DecimalRoundTrip | dist/jquery.filterable.js:497 | The decimal form of a column index reads back as that index |
| Tables.DataRows | dist/jquery.filterable.js:508-526 | Every `tr` but the first becomes a data row, in document order, built from its `td` texts |
| Tables.SweepFrom | dist/jquery.filterable.js:585-589 | The rows are filtered in order up to the first one without a cell at the column, and none after it |
| Tables.Filter | dist/jquery.filterable.js:568-600 | The rows are collected if need be and each is filtered at the column. When every row has a cell there, the column's recorded query becomes the query and every other record is unchanged. Otherwise the rows before the first row without a cell are filtered, the later ones are untouched, and the records are left as they were |
| Tables.FilterIdempotent | dist/jquery.filterable.js:568-600 | Filtering a column twice with the same query leaves the table as filtering it once did, flags, markings and records alike; when the first filter stops at a TypeError, the second stops at the same row and changes nothing |
| Tables.FilterCommutes | dist/jquery.filterable.js:568-600 | Completed filters on two different columns give the same table in either order, so the columns filter jointly |
| Tables.FilterPreservesConsistent | dist/jquery.filterable.js:568-600 | A completed filter keeps every cell's flag equal to the result of its column's recorded query, and every row's marking equal to the absence of a mismatch |
| Tables.FilterKeepsRows | dist/jquery.filterable.js:568-600 | A filter, whether it completes or stops at a TypeError, keeps the rows in use equal in number to the data rows of the `tr`s, each with the same empty slots and texts, and once a query is recorded every row stays marked |
| Tables.FirstFilterMarksRows | dist/jquery.filterable.js:568-600 | The first filter of a table marks every data row exactly as its cell at the filtered column matches |
| Tables.NamesScenario | dist/jquery.filterable.js:568-600 | With the second column ignored, filtering the first with `joh*` marks rows John, Johnny and Mark as matching, matching and mismatching |
| Tables.MismatchMeansSomeQueryFails | dist/jquery.filterable.js:292-310 | In a consistent table a row has a mismatch exactly when one of its cells fails its column's recorded query |
| Tables.CollectFrom | dist/jquery.filterable.js:544-553 | The collected texts are the accumulated ones plus the column texts of the rows with no mismatch, without duplicates; the walk fails exactly when such a row lacks the cell |
| Tables.AutocompleteValues | dist/jquery.filterable.js:532-560 | The values are the distinct column texts of exactly the rows with no mismatch; the rows are collected on the way; there is no value list when such a row lacks the cell |
| Tables.SuggestionsPassEveryFilter | dist/jquery.filterable.js:532-560 | In a consistent table the suggestions for a column are the texts of the rows that pass every recorded query on every column |
| Tables.HashChange | dist/jquery.filterable.js:671-703 | A column without a recorded query, or whose recorded query equals the fragment's, is left alone; otherwise the column is filtered with the fragment's query, so when that completes its record holds the fragment's query. Other records, the `tr` texts and the key set never change; a consistent table stays consistent; the rows stay the data rows, with their empty slots and texts, and stay marked once a query is recorded |
| Tables.HashChangeSettles | dist/jquery.filterable.js:693-702 | Once a fragment change has been applied, the same change again does nothing |
| Tables.HashChangeFrom | dist/jquery.filterable.js:844-856 | Handling a fragment change over the filterable columns never adds or removes a recorded query; when it completes, every filterable column with a record holds the fragment's query, every other record is unchanged, a consistent table stays consistent, and the rows stay the data rows with their texts and markings. It completes exactly when every visited column it filters, one with a record that differs from the fragment's query, has a cell in every row |
| Tables.OnHashChange | dist/jquery.filterable.js:844-856 | A fragment change does nothing unless `useHash` is set; with it set and completed, every filterable column with a record holds the fragment's query and every other record is unchanged; a consistent table stays consistent, and the rows stay the data rows with their texts and markings. It completes exactly when `useHash` is off or every filterable column it filters has a cell in every row |
| Tables.InitialFilters | dist/jquery.filterable.js:753-831 | At start-up every filterable column whose fragment holds a non-empty query, with `useHash` set, is filtered with it when the filters complete, no other column gains or changes a record, and a consistent table stays consistent; `Tables.InitialFiltersComplete` states when they complete |
| Tables.InitialFiltersKeepRows | dist/jquery.filterable.js:753-831 | The start-up filters, whether they complete or stop at a TypeError, keep the rows in use as the data rows of the `tr`s with their empty slots and texts, and keep every row marked once a query is recorded |
| Tables.InitialFiltersComplete | dist/jquery.filterable.js:753-831 | The start-up filters from a column on complete exactly when every column among them that is filtered at start-up has a cell in every data row |
| Tables.Init | dist/jquery.filterable.js:709-831 | Start-up merges the header markers into the policy and records a query only for the columns filtered at start-up; when it completes, each of those columns holds the fragment's query and the table is consistent: every cell flag and row marking agrees with the recorded queries. Whether or not it completes, the rows in use are the data rows of the `tr`s, with their empty slots and texts, and every row is marked once a query is recorded |
| Tables.InitCompletes | dist/jquery.filterable.js:709-831 | Start-up completes exactly when every `tr` after the first has a `td` at every column filtered at start-up; a missing one is the TypeError that stops it |

## Left out

- The Bootstrap popover and the autocomplete plugin (`FilterablePopover`, `FilterableAutocomplete`, `closePopovers`, `onFilter`) are left out: they are interface wiring over libraries outside this code.
- Reading, pushing and removing `$.bbq` state is browser I/O. The fragment is a map passed in, and only the guard and the key naming are modelled.
- The CSS classes `setMatch` puts on cells and rows are left out; the row's marking itself is `Row.rowMatch`. `destroy`, the `init` events and the jQuery `data`-key instance plumbing are left out too. They only project state into the DOM.
- The `beforeFilter` and `afterFilter` hooks (dist/jquery.filterable.js:571-575, 595-599) are left out. They are caller code that may rewrite the DOM, cell texts included, before and after the sweep; the model assumes they leave the table as it is.
- Cell texts are fixed when the rows are collected. The code re-reads `$cell.text()` whenever a cell is filtered and whenever autocomplete values are gathered (dist/jquery.filterable.js:74, 136, 551), so a DOM edit between filters is not modelled.
- Matcher.IsMatch: requires a query with at most one star. In the code a second star becomes a quantifier on the atom before it, or raises "Nothing to repeat"; `QuerySource.SourceWithManyStars` shows such a query falls outside the dialect.
- Tables.Filter: requires the query to be covered by the matcher. Queries with two or more stars are not modelled unless a custom predicate is configured.
- Tables.HashChange: when the column has a recorded query, requires the fragment's query under this column's key to be covered by the matcher: at most one star, unless a custom predicate is configured. A query with more stars is not modelled, for the reason given under Matcher.IsMatch.
- Tables.HashChangeFrom: requires the fragment's queries under the keys of the filterable columns that have a recorded query to be covered by the matcher, for the same reason. These are the only entries the handler compares and may filter with.
- Tables.OnHashChange: when `useHash` is set, requires the same of the fragment as Tables.HashChangeFrom. Without `useHash` the fragment is not read.
- Tables.InitialFilters: when `useHash` is set, requires the fragment's queries under the keys of the filterable columns to be covered by the matcher, for the same reason. Without `useHash` the fragment is not read.
- Tables.Init: when `useHash` is set, requires the fragment's queries under the keys of the columns left filterable after the header merge to be covered by the matcher, for the same reason.
- Matcher.IgnoreCaseIsFolding: folds ASCII letters only. The `i` flag's Unicode case folding is not modelled.
- The custom `isMatch` predicate is modelled as a function of the cell text and the query. The code passes the jQuery cell, and stores a result that is not a boolean as it is.
- Tables.AutocompleteValues: states the set of values and that it has no duplicates, not their order. The code returns the keys of an object, which puts integer-like texts first.
- Tables.AutocompleteValues: treats every text alike. Object keys such as `__proto__` are not modelled.
- The default `ignoreColumns` array is shared between tables and mutated in place by the header merge. The model keeps one policy value per table.
- Only `td` children of body rows become slots. A `th` inside a data row is skipped by the code and is not represented.
- HashKeys.Decimal: writes a column index in plain decimal. This is what JavaScript prints for any index below 10^21.
