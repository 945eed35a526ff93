# Catalog browser search core, in Dafny

This project models the search and bookkeeping core of a terminal browser for a
book catalog (`run.py`). The catalog is a list of records with a numeric
`Text#`, `Authors`, `Title` and `Language`. The user narrows it with
condition groups, sees the conditions and the remaining books, asks for a
book to be e-mailed, and reads statistics over the log of such requests.

Modules:

- `Catalog`: values (`IntV | StrV`), records, and condition entries. A
  condition entry is either `Cond(field, value)` or the
  `Operator(value)` marker.
- `Filter`: `get_filter_data`, including how the and/or mode carries over
  from one record to the next. Also the fold of every group over the catalog.
- `SearchText`: `clean_search`.
- `Conditions`: the templates, the group `query_field` builds for one word,
  and `get_conditions_pretty`.
- `Wrap`: `wrap_string_atpos`.
- `Email`: `valid_email`, written as a predicate equivalent to its regular
  expression.
- `Counting`: insertion-ordered count tables (Python dicts) and the stable
  descending sort that `sorted(..., reverse=True)` performs.
- `Statistics`: `get_info_from_data`, the three tables of
  `show_request_statistics`, and the language tally of `print_data`.
- `Session`: the class `Session`. Its fields are the globals `catalog_data`,
  `filtered_data` and `cond_total`, plus the request log. Its methods are
  `query_field` and the menu options 1 to 9.
- `Strings`, `Numbers`, `Wrappers`: ASCII `lower`, `strip`, `split` and
  `int()`, and an `Option` type.

The session invariant `Session.Valid` says that `filtered_data` is the catalog
filtered by every group of `cond_total`, in order. Every state-changing method
preserves it.

Behaviour of the code worth noting:

- The `OPERATOR` slot of a built group also receives the search word. Line 404
  compares a dict with a string, so the test is always true.
- The and/or mode is not reset between records. Only the first record of a
  call starts in the default "and" mode.
- The rendered conditions show one parenthesised group per search word.
- `wrap_string_atpos` inserts at most one line break.

## Model

| member | source | states |
|---|---|---|
| Filter.FilterData | run.py:46-94 | An empty group returns the input list itself. Otherwise the result is what the record loop keeps. |
| Filter.FilterDataSubsequence | run.py:51-94 | The result of `get_filter_data` is an order-preserving sub-list of its input. |
| Filter.FilterFromSubsequence | run.py:53-91 | The records the loop appends form an order-preserving sub-list of the data. |
| Filter.ScanGroupMode | run.py:54-57 | The and/or mode a record leaves depends only on the group and the mode it started in, not on the record. |
| Filter.ModeAfterIdempotent | run.py:55-57 | Scanning the group again from the mode it left does not change that mode. |
| Filter.FilterFromSteadyMode | run.py:53-91 | When the group leaves the mode it starts in, the filter keeps exactly the records that pass the group on their own, in order. |
| Filter.CarryOver | run.py:46-57 | The first record is judged in the starting mode. Every later record is judged in the mode set by the group's last `OPERATOR` entry. |
| Filter.SingleFieldFrom | run.py:52-94 | A group `[{F: v}, {OPERATOR: x}]` keeps exactly the records whose F matches v, in any starting mode. |
| Filter.SingleFieldGroup | run.py:52-94 | A single-field group keeps exactly the matching records, in order. An int matches by equality and a string by case-insensitive substring. A string never matches a non-string cell. |
| Filter.AnyFieldScan | run.py:54-89 | For the author-or-title group of a word, a record passes if both fields match ("and" mode) or either field matches ("or" mode). The mode it leaves is "and" exactly when the word is "and". |
| Filter.AnyFieldFrom | run.py:53-91 | Once in the mode the word sets, the author-or-title group keeps the records that match both fields or either field, as the word dictates. |
| Filter.AnyFieldCarryOver | run.py:46-57 | With the author-or-title group, the first record must match both fields. Every later record needs only one of them, unless the word is "and". |
| Filter.ScanRecord | run.py:54-89 | The inner loop over the group's entries computes `passConds` and `and_cond` as the group scan specifies. |
| Filter.FilterRecords | run.py:46-94 | The method returns the list `get_filter_data` specifies. |
| Filter.FoldFilterSubsequence | run.py:396-410 | After any number of groups, the remaining books are an order-preserving sub-list of the starting list. |
| Filter.FoldFilterSplit | run.py:396-410 | Applying a list of groups in two parts gives the same result as applying it at once. |
| SearchText.BlankAll | run.py:306-307 | Every listed symbol becomes a space and every other character is kept in place, so the length is unchanged. |
| SearchText.ReplaceDoubleSpace | run.py:309 | One `replace("  ", " ")` never lengthens the string, keeps whether it starts with a space, and shortens it when a double space is present. |
| SearchText.Squeeze | run.py:308-309 | The squeezed string has no double space, is no longer than the input, keeps the first character and adds no character. |
| SearchText.SqueezeIdentity | run.py:308-309 | A string without a double space is left as it is. |
| SearchText.SqueezeReplaceDoubleSpace | run.py:308-309 | One replace pass does not change the squeezed result, so the `while` loop ends at `Squeeze`. |
| SearchText.ContainsDoubleSpace | run.py:308 | The loop test `"  " in s` holds exactly when `s` has two adjacent spaces. |
| SearchText.CleanSearch | run.py:302-310 | The method returns `Clean(s)`: symbols blanked, spaces squeezed, lower-cased, stripped. |
| SearchText.LowerCharSymbol | run.py:306-310 | Lower-casing neither creates nor removes a listed symbol. |
| SearchText.SqueezeNoSymbol | run.py:306-309 | No listed symbol survives the blanking and squeezing. |
| SearchText.StripKeeps | run.py:310 | Stripping keeps the string free of symbols, double spaces and upper-case letters. |
| SearchText.CleanProperties | run.py:306-310 | The cleaned string has no listed symbol, no two consecutive spaces and no upper-case letter, and does not start or end with whitespace. |
| SearchText.CleanIdempotent | run.py:302-310 | `clean_search(clean_search(s)) == clean_search(s)`. |
| Conditions.Instantiate | run.py:399-408 | The built group has the template's length and its keys in the same order. Every value, the `OPERATOR` one included, is the word. |
| Conditions.BuildGroup | run.py:400-408 | The deep copy plus the value-writing loop yields `Instantiate(template, word)`. |
| Conditions.InstantiateKeepsShape | run.py:399-408 | A template whose operator marker follows its fields keeps that shape after instantiation. |
| Conditions.TemplatesHaveTrailingOperator | run.py:455-487 | Every menu template ends with its operator marker. |
| Conditions.GroupConditionsText | run.py:335-347 | The inner loop produces the group's rendered text. |
| Conditions.ConditionsPretty | run.py:313-349 | The method returns the rendering `get_conditions_pretty` specifies. |
| Conditions.RenderTrailing | run.py:335-347 | A group whose marker comes last renders its fields as `F="v"` joined by " or ", and never prints the marker. |
| Conditions.PrettyOfTrailingGroups | run.py:320-349 | An empty list renders as "No defined condition". Otherwise the groups are rendered in parentheses and joined by " and ", one per group. |
| Wrap.LastSpace | run.py:357-363 | Returns the largest index in the range holding a space, or none when the range has no space. |
| Wrap.WrapAtPos | run.py:352-371 | The method returns `Wrapped(st, initstring, atpos)`. |
| Wrap.WrapMeaning | run.py:357-370 | A string of at most `atpos` characters comes back unchanged. For a string without a newline, anything longer gets at most one break. The break replaces nothing: it goes before a space at an index in 2..atpos and is followed by `initstring`. Removing the break restores the string. |
| Wrap.TailNotRewrapped | run.py:357-370 | Example: the part after the single break is not wrapped again, even when it is longer than `atpos`. |
| Email.ValidEmail | run.py:184-189 | True exactly when the whole address matches `\b[A-Za-z0-9._%+-]+@[A-Za-z0-9.-]+\.[A-Z\|a-z]{2,}\b`. |
| Email.SplitIsFirstAndLast | run.py:188 | Any split the pattern admits has its `@` at the first `@` and its `.` at the last `.`. |
| Email.ValidEmailShape | run.py:188 | A valid address has exactly one `@`, ends in a letter and contains a `.`. |
| Email.Examples | run.py:188 | "ab@cd.org" is accepted. "ab@cd.o" (one-letter ending) and "ab.cd.org" (no `@`) are refused. |
| Strings.Strip | run.py:310 | `strip()` returns a contiguous slice of its input that neither starts nor ends with whitespace. Everything it drops before and after the slice is whitespace. |
| Strings.SplitConcat | run.py:399 | The words of `split()`, put back together, are the input with its whitespace removed. |
| Strings.Split | run.py:399 | `split()` returns non-empty words without whitespace. There are none exactly when the input is all whitespace. |
| Strings.SplitOfSingleWord | run.py:386-399 | An input whose stripped form is one word splits into exactly that word. |
| Strings.SplitJoin | run.py:399 | Words joined by single spaces split back into exactly those words: `split()` cuts at every run of whitespace and keeps each maximal run of other characters as one word. |
| Strings.SplitWordSpace | run.py:399 | A word followed by a space contributes that word in front of the words of the rest. |
| Strings.SplitPadded | run.py:386-399 | A single word with only whitespace before and after it splits into exactly that word. |
| Strings.SplitChars | run.py:399 | Every character of a word comes from the input. |
| Numbers.ParseInt | run.py:386-389 | `int()` accepts the input exactly when, once stripped, it is an optional sign followed by digits with single underscores between them. The stripped input is then a single non-empty word. |
| Numbers.ParseIntSigned | run.py:386-389 | Example: `int("-7") == -7`. |
| Numbers.ParseIntRefuses | run.py:386-389 | Examples: `int()` refuses "12a", "1__0" and the empty line. |
| Numbers.ParseIntOfIntToString | run.py:386-389 | `int(str(n)) == n`. |
| Numbers.ParseIntOfStrip | run.py:386-408 | Surrounding whitespace does not change what `int()` returns. |
| Counting.Add | run.py:232-234 | One dict update adds `w` to the total and appends the key when it is new. |
| Counting.AddGet | run.py:232-234 | After the update, the key's count has grown by `w` and every other count is unchanged. |
| Counting.Weighted | run.py:255-259 | Summing weights per key gives each key the total weight paired with it, and lists each key once, in first-seen order. The total is kept, and counts stay positive when the weights are. |
| Counting.CountOccurrences | run.py:230-234 | The counting loop builds `Tally(xs)`. |
| Counting.TallyMeaning | run.py:230-234 | Each key's count is its number of occurrences. The keys are the distinct values in first-seen order, every count is at least 1, and the counts sum to the length. |
| Counting.SortDesc | run.py:236-238 | `sorted(..., key=count, reverse=True)` returns a permutation with the same total, sorted by non-increasing count. |
| Counting.InsertDescSorted | run.py:236-238 | Inserting into a sorted table keeps it sorted. |
| Counting.SortDescStable | run.py:236-238 | Entries with equal counts keep their original order. |
| Counting.SortDescPositive | run.py:236-238 | Sorting keeps all counts at least 1. |
| Counting.SortDescKeys | run.py:236-238 | Sorting neither adds nor removes a key. |
| Counting.SortDescGet | run.py:236-238 | Sorting a table with distinct keys leaves every key's count unchanged. |
| Statistics.InfoFromDataMeaning | run.py:207-215 | An id the catalog lacks gives ("-", "-", "-"). Otherwise the result is the fields of the first record with that id. |
| Statistics.SumAuthorPairs | run.py:247-259 | The per-author rows carry the same total as the per-book rows. |
| Statistics.RequestStatistics | run.py:218-288 | The method computes the three sorted tables `RequestStats` specifies. |
| Statistics.PerBookMeaning | run.py:230-238 | Per-book counts are the number of log rows per id. The ids are exactly those logged, and counts are at least 1, sorted non-increasing, stable on ties and summing to the number of rows. |
| Statistics.AuthorRequestsMeaning | run.py:247-272 | Each author's request total is the number of log rows whose id belongs to that author. The table lists exactly the authors of logged ids, sorted, every total at least 1, summing to the number of log rows. |
| Statistics.AuthorRequestCount | run.py:247-272 | One author's request total is the number of log rows whose id belongs to that author. |
| Statistics.AuthorBooksMeaning | run.py:260-284 | Each author's book count is the number of distinct logged ids that belong to that author. The table lists exactly the authors of logged ids, sorted, every count at least 1, summing to the number of distinct logged ids. |
| Statistics.AuthorBookCount | run.py:260-284 | One author's book count is the number of distinct logged ids that belong to that author. |
| Statistics.UnknownIdCountedUnderDash | run.py:207-264 | A logged id missing from the catalog is counted under author "-" in both author tables. |
| Statistics.LanguageTally | run.py:102-117 | The loop of `print_data` builds the tally of the records' languages. |
| Statistics.LanguageTallyMeaning | run.py:102-132 | Each language is counted once per record and listed once, in first-seen order. The counts sum to the number of records. The tally is non-empty, which is the test for the "Languages found" line, exactly when there are records. |
| Session.Session.constructor | run.py:41-43 | The session starts with the whole catalog, no condition, and a valid state. |
| Session.Session.FilteredIsSublist | run.py:396-410 | The remaining books are always an order-preserving sub-list of the catalog. |
| Session.SearchWords | run.py:386-408 | In integer mode the input that `int()` accepted is one word, and it converts to the same number. |
| Session.AddWords | run.py:399-410 | The word loop appends one group per word, in order, and filters the remaining books with each group in turn. |
| Session.Session.RunSearch | run.py:396-410 | After an accepted input: an optional reset, then one appended group per word. `filtered_data` is then the fold of those groups over the reset or current list, and the invariant holds. |
| Session.Session.QueryField | run.py:374-415 | A non-number in integer mode, or an input that cleans to nothing, changes no state, not even a requested reset. Otherwise the conditions and the books left are as `RunSearch` states. |
| Session.Session.SearchAnyField | run.py:455-459 | Option 1 replaces the conditions with one author-or-title group per cleaned word and refilters the whole catalog. |
| Session.Session.SearchById | run.py:461-463 | Option 2 searches exactly when `int()` accepts the input. It then leaves the one group `[Text#=n, OPERATOR=n]` and exactly the books whose id is n. |
| Session.Session.AddCondition | run.py:465-493 | Options 3 to 5 do nothing while one book or none remains. Otherwise they search exactly when the cleaned input is non-empty, and change no state when they do not. A search appends one group per word and keeps a book exactly when its field matches every word. |
| Session.Session.ResetConditions | run.py:495-498 | Option 6 restores the whole catalog and clears the conditions. |
| Session.Session.ShowResults | run.py:500-505 | Option 7 gives the language tally of the remaining books exactly when some condition is set. |
| Session.Session.SendEbook | run.py:507-516 | Option 8 applies only with exactly one book left. It appends that book's id to the log exactly when the stripped address is valid, and otherwise changes nothing. |
| Session.Session.Statistics | run.py:518-521 | Option 9 computes the request statistics over the catalog and the log. |
| Session.Session.ConditionsLine | run.py:440-441 | The conditions line is the rendered conditions wrapped at column 58. |
| Session.Session.BookLine | run.py:432-439 | The book line is empty unless exactly one book remains. In that case it names the book and is wrapped at column 56. |
| Session.PrettyLastChar | run.py:320-349 | The rendered conditions never end in a space, so the wrap precondition holds for the conditions line. |
| Session.TextSearchWords | run.py:384-399 | A text search has no words exactly when the cleaned input is empty. Each word is non-empty and has no whitespace, listed symbol or upper-case letter. |
| Session.CleanWords | run.py:384-399 | The words of the cleaned input have no listed symbol and no upper-case letter. |
| Session.WordsOfCleanText | run.py:399 | Splitting a symbol-free, lower-case string gives symbol-free, lower-case words, and none only for the empty string. |
| Session.IdSearchGroups | run.py:386-409 | Searching the decimal text of n gives exactly one group, with n in both the `Text#` and the `OPERATOR` slot. |
| Session.FieldSearchOneValue | run.py:399-410 | A single-field search for one value keeps exactly the books whose field matches it. |
| Session.FieldSearchAllValues | run.py:399-410 | A single-field search for several words keeps a book exactly when its field matches every word. |
| Session.AnyFieldSearchOneWord | run.py:455-459 | A one-word option-1 search keeps the first book only if both its fields match. A later book needs one matching field, unless the word is "and". |

## Left out

- Spreadsheet access is left out: authorisation, opening worksheets, `get_all_records`, and the row append in `update_request_ebook_fname` (run.py:1-40, 159-165, 192-204). The catalog and the request log are passed in as sequences.
- `send_ebook_mailto` (run.py:292-299) is left out. Its one effect, a new log row for the book, is modelled by appending the id to `Session.requestLog`. The "terminal" column and the date are not kept.
- `download_ebook` (run.py:135-156) is left out: it is an HTTP fetch and a file write.
- Terminal I/O is left out: `pause`, `clear_terminal`, every `input` and `print`, `MENU_OPTIONS_TEMPLATE`, the column formatting and truncation in `print_data` and `show_request_statistics`, and the menu loop with its "q" and unknown-option branches. Typed lines are method parameters.
- `print_data` rewrites `record["Title"]` in place (run.py:118-120), which changes records shared with `catalog_data`. This is not modelled: records are immutable values.
- Python's Unicode `lower`, `isspace`/`strip`/`split` and `int()` digits are modelled on ASCII. The `re` engine is replaced by a hand-written predicate.
- Condition dictionaries with several keys are not modelled. Every template uses one key per dictionary.
- `Text#` is taken to be an int in every record and log row. The source converts it with `int()` at run.py:213 and 231.
- Session.Session.QueryField: its outcome reports the number of books left rather than the listing `print_data` prints. The listing's language tally is given by `ShowResults`.
- Session.Session.SearchAnyField: states the conditions and the fold only. What the fold keeps is proved, for a single word, in `Session.AnyFieldSearchOneWord`.
- Wrap.WrapAtPos: requires `atpos >= 1`, because the source never terminates for 0. It also excludes a string of exactly `atpos + 1` characters whose last character is a space. There the source's "no break yet" marker, a lone space, equals the tail, so the break would not be recognised. After the break the source sets `st` to `initstring` plus that lone space (run.py:369) and keeps scanning the shorter string. With `initstring` `"| "` and `atpos` 56 or 58, `st[a]` at run.py:366 then indexes past its end and raises `IndexError`. No caller reaches this case: `Session.PrettyLastChar` shows that the conditions line never ends in a space.
- Wrap.WrapAtPos: only one pass of the outer `while` loop is modelled, because the inner loop always returns once `a` reaches 1.
- Statistics.RequestStatistics: the source raises an error while printing a row whose author or title is an int (`vaut[:20]`, `vtit[:29]` at run.py:252-253 raise `TypeError`) or whose language is an int (`{vlang:4s}` raises `ValueError`). It also fails at run.py:276 and 288 for an int author. The model computes the tables for every catalog and returns normally.
- Session.Session.Statistics: returns normally where the source stops with the `TypeError` or `ValueError` above, because the printing is not modelled.
- Session.Session.QueryField: when books remain, `print_data` raises a `TypeError` on an int author (`aut[:30]`) and a `ValueError` on an int language (`{lang:4s}`), at run.py:126. The model returns normally.
- Session.Session.ShowResults: returns the language tally where `print_data` would stop with the same errors at run.py:126.
