# NovelSearch core in Dafny

NovelSearch is a small command-line tool (`NovelSearch/cli.py`) that does three things:

- **`scrape`** builds `award_novels.json`, one record per nominated novel. It reads the Hugo and Nebula "Best Novel" tables from Wikipedia and merges the fresh lists into the saved one. Saved point-of-view answers are kept.
- **`process`** walks the saved list from the most recent year down. It asks the user for each novel's narrative point of view (first, second or third person) and whether they have read it.
- **`merge_award_entries`** is a helper that joins duplicate (title, year) entries. The commands never call it.

This project models the data logic of these parts and proves properties about it:

| module | file | what it models |
|---|---|---|
| `Wrappers` | `wrappers.dfy` | The `Option` type: a JSON null or a string for a POV, a missing first token, year column or unannotated record. |
| `Text` | `text.dfy` | The Python string operations the code relies on: `str.isspace` whitespace, `strip()`, `split()[0]`, `lower()` on ASCII letters, `sub in s` and `s.replace(c, "")`. |
| `Integers` | `integers.dfy` | `parse_int`: base-10 `int(s)`, with 0 instead of `ValueError`: the whitespace `int()` skips, the literal syntax and CPython's 4300-digit limit. |
| `Novels` | `novels.dfy` | The novel record and its (title, year) key. Python's ordering of strings and of the `(year, title)` tuple. The `"|".join(sorted([a, b]))` award label. |
| `Scraper` | `scraper.dfy` | `scrape_award_novels` over an abstract page, where a table is rows of cell texts and `<i>` texts. It covers the header scan for the year column, skipping Retro Hugo tables and rows, the row-span carry-forward of the year, and the records built from `<i>` texts. `year_cell.split()[0]` raises `IndexError` on an empty cell; the model returns `Failure(EmptyYearCell)` there. |
| `Merge` | `merge.dfy` | The `scrape` command's merge by key. The steps are: filter both lists by year, index the saved records, fold in the new ones, keep a saved POV, join differing labels, then sort by `(year, title)`. The module also models the loop of `merge_award_entries`. |
| `Process` | `process.dfy` | The `process` command's data logic: the stable year-descending sort, the search for the first record without a POV, decoding one typed answer, and the in-place update it makes. |

Python dictionaries keep insertion order. Where the code walks a dictionary's values, the model carries that order as a sequence of keys next to the map. `Merge.InsertionOrder` gives that sequence: keys in the order they were first stored. `Merge.IsOrderOf` states the weaker fact that it lists each key of the map once. The two list sorts (`list.sort`) are stable insertion sorts written as functions.

## Model

| member | source | states |
|---|---|---|
| Text.IsSpace | NovelSearch/cli.py:112 | Reference definition of `str.isspace()`: the whitespace that `split()` and `strip()` work with. |
| Text.StripLeft | NovelSearch/cli.py:262 | The result is a suffix of the input that does not start with whitespace; everything removed is whitespace. |
| Text.StripRight | NovelSearch/cli.py:262 | The result is a prefix of the input that does not end with whitespace; everything removed is whitespace. |
| Text.Strip | NovelSearch/cli.py:262 | Reference definition of `strip()`: the leading whitespace removed, then the trailing whitespace. Its meaning is given by `Text.StripLeft` and `Text.StripRight`. |
| Text.StripUnchanged | NovelSearch/cli.py:108 | A string that neither starts nor ends with whitespace is its own `strip()`. |
| Text.Word | NovelSearch/cli.py:112 | The longest whitespace-free prefix: a prefix, free of whitespace, followed by whitespace or the end. |
| Text.FirstToken | NovelSearch/cli.py:112 | `split()[0]` is missing (the `IndexError` case) exactly when the text is all whitespace. Otherwise it is the first word of the text: a non-empty run without whitespace, with only whitespace before it and whitespace or the end after it. |
| Text.WordAfterSpaces | NovelSearch/cli.py:112 | The word at the front of the text after some leading whitespace is the first word of the whole text. |
| Text.StripLeftEmpty | NovelSearch/cli.py:112 | Nothing is left once the leading whitespace is gone only when the text is all whitespace. |
| Text.StripLeftFirstWord | NovelSearch/cli.py:112 | What is left once the leading whitespace is gone starts with a non-whitespace character of the text, and its word is the text's first word. |
| Text.SuffixAt | NovelSearch/cli.py:112 | Proof helper for `Text.FirstToken`, a plain sequence fact: the suffix from position `p` holds the text's characters from `p` on, one by one. |
| Text.LowerChar | NovelSearch/cli.py:87 | Reference definition of lower-casing one ASCII character. |
| Text.Lower | NovelSearch/cli.py:87 | Reference definition of `lower()` on ASCII: each character mapped by `Text.LowerChar`. Its ensures only give element-wise access to the definition. What lower-casing does to the answers is stated by `Process.LowerCharR` and `Process.NormalFormHasR`. |
| Text.Contains | NovelSearch/cli.py:94 | Reference definition of `sub in s` on strings. `Text.ContainsIff` ties it to occurrence at an index. |
| Text.ContainsIff | NovelSearch/cli.py:94 | `sub in s` holds exactly when `sub` occurs at some index of `s`, in both directions. |
| Text.Remove | NovelSearch/cli.py:270 | `replace(c, "")` leaves no `c`, keeps every other character present and adds none, and never grows the string. |
| Text.RemoveCounts | NovelSearch/cli.py:270 | `replace(c, "")` drops every `c` and keeps each other character exactly as often as it occurs. |
| Text.RemoveAppend | NovelSearch/cli.py:270 | Removing a character distributes over concatenation. |
| Integers.IsIntLiteral | NovelSearch/cli.py:56 | Reference definition of the syntax `int()` accepts: an optional sign and a digit run with single underscores between digits. The limit on the number of digits is applied in `Integers.ParseInt`. |
| Integers.LiteralValue | NovelSearch/cli.py:56 | Reference definition of the value `int()` gives such a text. |
| Integers.ParseInt | NovelSearch/cli.py:50-58 | Reference definition of `parse_int`. Once `int()` whitespace is skipped, an optionally signed digit run gives its value, with single underscores between digits allowed and at most 4300 digits. Anything else gives 0. Its properties are stated by the round trip `Integers.ParseIntDecimalString` and by the examples `Integers.ParseIntUnderscore`, `Integers.ParseIntTrailingText`, `Integers.ParseIntPadded`, `Integers.ParseIntNonAsciiPadded` and `Integers.ParseIntSeparatorPadded`. |
| Integers.IsIntSpace | NovelSearch/cli.py:56 | Reference definition of the whitespace `int()` skips: `str.isspace()` without U+001C-U+001F. |
| Integers.TrimLeft | NovelSearch/cli.py:56 | Leading `int()` whitespace removed: a suffix of the text, with only that whitespace before it and none at its start. |
| Integers.TrimRight | NovelSearch/cli.py:56 | Trailing `int()` whitespace removed: a prefix of the text, with only that whitespace after it and none at its end. |
| Integers.Trim | NovelSearch/cli.py:56 | Reference definition of the text `int()` reads: both ends trimmed, as fixed by `Integers.TrimLeft` and `Integers.TrimRight`. |
| Integers.TrimUnchanged | NovelSearch/cli.py:56 | A text with no `int()` whitespace at either end is read as it is. |
| Integers.TrimLeftSpaces | NovelSearch/cli.py:56 | Leading `int()` whitespace up to the first other character is exactly what trimming removes. |
| Integers.DigitCount | NovelSearch/cli.py:56 | Reference definition of the number of digits `int()` checks against its limit, with underscores and the sign not counted. |
| Integers.DigitCountAppend | NovelSearch/cli.py:56 | The digit count of a concatenation is the sum of the two counts. |
| Integers.NatStringDigitCount | NovelSearch/cli.py:56 | Every character of a decimal spelling is a digit. |
| Integers.ParseIntLiteral | NovelSearch/cli.py:56-58 | A literal without `int()` whitespace at its ends reads as its value exactly when it has at most 4300 digits, and as 0 otherwise. |
| Integers.ParseIntSameTrim | NovelSearch/cli.py:56 | Two texts that trim to the same text read as the same number. |
| Integers.ParseIntFive | NovelSearch/cli.py:56 | "5" reads as 5. |
| Integers.ParseIntPadded | NovelSearch/cli.py:56 | Space, tab and line feed around a literal are skipped: " \t5\n" reads as 5. |
| Integers.ParseIntNonAsciiPadded | NovelSearch/cli.py:56 | A non-ASCII space (U+00A0) around a literal is skipped. |
| Integers.ParseIntSeparatorPadded | NovelSearch/cli.py:56-58 | U+001C is whitespace for `str.isspace()` but not for `int()`: "\x1c5" reads as 0. |
| Integers.NatString | NovelSearch/cli.py:50-58 | The decimal spelling of a natural is non-empty and starts and ends with a digit. |
| Integers.DigitRunSnoc | NovelSearch/cli.py:56 | A digit run followed by a digit is a digit run. |
| Integers.DigitRunCons | NovelSearch/cli.py:56 | A digit before a digit run gives a digit run. |
| Integers.DigitRunSeparated | NovelSearch/cli.py:56 | A digit and one underscore before a digit run give a digit run. |
| Integers.DigitsValueSnoc | NovelSearch/cli.py:56 | One more digit at the end multiplies the value by ten and adds that digit; any other character, such as an underscore, leaves the value unchanged. |
| Integers.NatStringIsDigitRun | NovelSearch/cli.py:56 | The decimal spelling of a natural is a digit run. |
| Integers.NatStringValue | NovelSearch/cli.py:56 | The decimal spelling of a natural reads back as that natural. |
| Integers.ParseIntNonNegative | NovelSearch/cli.py:50-58 | `parse_int(str(n)) == n` for every `n >= 0` of at most 4300 digits, and 0 for a longer spelling. |
| Integers.ParseIntNegative | NovelSearch/cli.py:50-58 | `parse_int(str(n)) == n` for every `n < 0` of at most 4300 digits, whose spelling has a minus sign, and 0 for a longer spelling. |
| Integers.ParseIntDecimalString | NovelSearch/cli.py:50-58 | Round trip: `parse_int(str(n)) == n` for every integer `n` that `str()` writes, that is every integer of at most 4300 digits. The spelling of a longer one reads as 0. |
| Integers.ParseIntUnderscore | NovelSearch/cli.py:56 | A plus sign, a leading zero and an underscore between digits are accepted: "+0_1976" reads as 1976. |
| Integers.UnderscoreRun | NovelSearch/cli.py:56 | "0_1976" is a digit run with one underscore. |
| Integers.UnderscoreValue | NovelSearch/cli.py:56 | "0_1976" has the value 1976. |
| Integers.ParseIntTrailingText | NovelSearch/cli.py:112 | A first token with text glued to the digits, such as "1976(tie)", reads as 0. |
| Novels.KeyOf | NovelSearch/cli.py:143 | Reference definition of the dictionary key `(title, year)`. |
| Novels.StrLess | NovelSearch/cli.py:151 | Reference definition of Python's `<` on strings: code point by code point, a proper prefix first. |
| Novels.StrLessIrreflexive | NovelSearch/cli.py:218 | No string sorts before itself. |
| Novels.StrLessTransitive | NovelSearch/cli.py:218 | String order is transitive. |
| Novels.StrLessTotal | NovelSearch/cli.py:218 | Of two different strings, one sorts before the other. |
| Novels.KeyLess | NovelSearch/cli.py:218 | Reference definition of the `(year, title)` tuple order. |
| Novels.KeyLessIrreflexive | NovelSearch/cli.py:218 | No key sorts before itself under `(year, title)` order. |
| Novels.KeyLessTransitive | NovelSearch/cli.py:218 | `(year, title)` order is transitive. |
| Novels.KeyLessTotal | NovelSearch/cli.py:218 | Of two different keys, one sorts before the other. |
| Novels.SortedJoin | NovelSearch/cli.py:151-152 | Reference definition of `"\|".join(sorted([a, b]))` under Python's string order. |
| Novels.SortedJoinOrdered | NovelSearch/cli.py:151-152 | For two different labels, the joined label puts the smaller one first, with a "\|" between them. |
| Novels.SortedJoinSymmetric | NovelSearch/cli.py:210-211 | For two different labels, the joined label does not depend on their order. |
| Novels.SortedJoinRepeatsLabels | NovelSearch/cli.py:209-211 | The join is not a set union: "Hugo\|Nebula" joined with "Hugo" gives "Hugo\|Hugo\|Nebula". |
| Scraper.HeaderTexts | NovelSearch/cli.py:87 | Reference definition of the lower-cased header texts. |
| Scraper.IsRetroHeader | NovelSearch/cli.py:88 | Reference definition of the Retro Hugo header test: both "year" and "year awarded" are header texts. |
| Scraper.IsYearHeader | NovelSearch/cli.py:94 | Reference definition of the year-column test: the header contains "year" and not "awarded". |
| Scraper.YearColumn | NovelSearch/cli.py:92-100 | The year column is the first header that contains "year" and not "awarded". There is none exactly when no header qualifies. |
| Scraper.FindYearColumn | NovelSearch/cli.py:92-96 | The header scan loop finds exactly that column. |
| Scraper.IsRetroRow | NovelSearch/cli.py:107-111 | Reference definition of a skipped row: its year cell contains "retro" in any case. |
| Scraper.RowFails | NovelSearch/cli.py:107-112 | Reference definition of the `IndexError` case: a non-retro row whose year cell is all whitespace. |
| Scraper.ParsedYear | NovelSearch/cli.py:107-112 | Reference definition of `parse_int(year_cell.split()[0])` for one row, 0 when the row has no year cell or is skipped. |
| Scraper.CarriedYear | NovelSearch/cli.py:102-114 | Reference definition of `current_year` after some rows. `Scraper.CarriedYearIsLatest` characterises it. |
| Scraper.LatestPositive | NovelSearch/cli.py:102-114 | The carried value is never negative. |
| Scraper.CellYears | NovelSearch/cli.py:104-114 | Reference definition of the year each body row's own cell gives. Its ensures only give element-wise access. The carried year is characterised by `Scraper.CarriedYearIsLatest`. |
| Scraper.TitleRecords | NovelSearch/cli.py:121-131 | Reference definition of the records one row's `<i>` texts give. |
| Scraper.RowsRecords | NovelSearch/cli.py:104-131 | Reference definition of the records a table body gives, row by row, with the carried year. |
| Scraper.FailingRow | NovelSearch/cli.py:111-112 | One failing row makes the whole body fail. |
| Scraper.NoFailingRowSnoc | NovelSearch/cli.py:104-112 | A prefix without failing rows, extended by a row that does not fail, still has no failing row. |
| Scraper.RowStep | NovelSearch/cli.py:104-131 | One more row sets the carried year to its own year if that is positive, and otherwise keeps the old one. It appends that row's records when it is not a retro row and the year is non-zero. |
| Scraper.AppendTitles | NovelSearch/cli.py:121-131 | The title loop appends exactly one record per non-empty `<i>` text, in order. |
| Scraper.ExtractRow | NovelSearch/cli.py:104-131 | One loop turn fails exactly when its row fails. Otherwise the year and the records it hands on are those of the rows up to and including it. |
| Scraper.ExtractRows | NovelSearch/cli.py:102-131 | The body loop fails exactly when some non-retro row has an empty year cell; otherwise it returns exactly the records of the body rows. |
| Scraper.TableOutcome | NovelSearch/cli.py:76-131 | Reference definition of what one table contributes. `Scraper.TableOutcomeCases` spells out its cases. |
| Scraper.ExtractTable | NovelSearch/cli.py:76-131 | One table's outcome is as `TableOutcome` states. |
| Scraper.PrependEmpty | NovelSearch/cli.py:73-133 | Proof helper for the table loop of `Scraper.ScrapeAwardNovels`, a plain sequence fact: prepending no records changes nothing. |
| Scraper.PrependTwice | NovelSearch/cli.py:73-133 | Proof helper for the table loop of `Scraper.ScrapeAwardNovels`, a plain sequence fact: prepending in two steps equals prepending the concatenation. |
| Scraper.PageOutcome | NovelSearch/cli.py:73-133 | Reference definition of what a whole page gives: the tables' records in order, or the first failure. |
| Scraper.ScrapeAwardNovels | NovelSearch/cli.py:60-133 | The table loop yields the records of all tables in table order, or fails at the first failing table. |
| Scraper.TitleRecordsWellFormed | NovelSearch/cli.py:121-131 | Every record from a row has a non-empty title taken from its `<i>` texts, the given award and year, no POV, and is unread. |
| Scraper.RowsRecordsWellFormed | NovelSearch/cli.py:104-131 | Every record from a table has a non-empty title, the given award, a positive year, no POV, and is unread. |
| Scraper.LatestPositiveIsLatest | NovelSearch/cli.py:102-114 | The carried value is a positive value at some index, with no later positive value. It is 0 exactly when no value is positive. |
| Scraper.CarriedYearIsLatest | NovelSearch/cli.py:102-118 | The year carried into a row is the latest positive year given by a row so far. It is 0, so the row is skipped, exactly when no row has given one. |
| Scraper.RowsRecordsLast | NovelSearch/cli.py:104-131 | A record that the earlier rows do not give comes from the last row, which is not a retro row and has a carried year. |
| Scraper.RecordOrigin | NovelSearch/cli.py:104-131 | Soundness: each record comes from a non-retro row whose `<i>` texts hold its title and whose carried year is its year. |
| Scraper.TitleRecordsComplete | NovelSearch/cli.py:121-131 | Every non-empty `<i>` text of a row yields a record. |
| Scraper.RowsRecordsPrefix | NovelSearch/cli.py:104-131 | Records are appended in row order: the records of the first `i` rows are a prefix of all the records. |
| Scraper.RowOwnRecords | NovelSearch/cli.py:104-131 | The records of a non-retro row with a carried year follow those of the rows before it. |
| Scraper.RecordComplete | NovelSearch/cli.py:104-131 | Completeness: every non-empty `<i>` text of a non-retro row with a carried year yields a record with that title and year. |
| Scraper.TableOutcomeCases | NovelSearch/cli.py:76-100 | Three kinds of table contribute nothing: one without rows, a Retro Hugo table (both "year" and "year awarded" headers), and one without a year column. Any other table contributes its body's records, or `EmptyYearCell` when a row fails. |
| Scraper.PageOutcomeWellFormed | NovelSearch/cli.py:60-133 | Every record a page yields is well formed for its award. |
| Merge.Since | NovelSearch/cli.py:185 | The filter keeps exactly the records whose year is at least `after`. |
| Merge.SinceAppend | NovelSearch/cli.py:185 | The filter works record by record, keeping order and duplicates: filtering a concatenation concatenates the filtered parts. |
| Merge.SinceSingle | NovelSearch/cli.py:185 | A single record is kept exactly when its year is at least `after`. |
| Merge.KeysOfSnoc | NovelSearch/cli.py:196 | Appending a record adds exactly its key. |
| Merge.Index | NovelSearch/cli.py:194-197 | Reference definition of `existing_map` after the indexing loop. |
| Merge.IndexKeys | NovelSearch/cli.py:194-197 | Indexing the saved records gives one entry per key, each stored under its own key and each one of the saved records. |
| Merge.IndexLastWins | NovelSearch/cli.py:194-197 | For a duplicated key, the last saved record wins. |
| Merge.Combine | NovelSearch/cli.py:205-212 | A new record with a known key keeps its own title, year and read flag. It takes the saved POV when that is non-null. Its label is unchanged when the labels agree; otherwise it is the two labels, smaller first, joined by "\|". |
| Merge.MergeInto | NovelSearch/cli.py:200-212 | Reference definition of one turn of the merge loop. |
| Merge.MergeAll | NovelSearch/cli.py:199-212 | Reference definition of `existing_map` after the merge loop. |
| Merge.MergedMap | NovelSearch/cli.py:182-212 | Reference definition of `existing_map` once both loops have run on the filtered lists. |
| Merge.MergeAllKeys | NovelSearch/cli.py:199-212 | The fold's keys are the saved keys plus the new ones, each stored under its own key. |
| Merge.MergeAllKeepsPov | NovelSearch/cli.py:205-207 | A saved non-null POV survives every later merge. |
| Merge.MergeAllUntouched | NovelSearch/cli.py:199-212 | A saved key that no new record has keeps its record unchanged. |
| Merge.MergeAllResetsRead | NovelSearch/cli.py:200-212 | Every key the unread new records touch ends up unread, whatever the saved record said. |
| Merge.MergedMapProperties | NovelSearch/cli.py:182-212 | The merged keys are exactly the union of the filtered saved and new keys, each stored under its own key, all from `after` on. Every saved POV is kept. |
| Merge.InsertByKey | NovelSearch/cli.py:218 | Reference definition of one insertion step of the stable sort. |
| Merge.SortByKey | NovelSearch/cli.py:218 | Reference definition of the stable sort by `(year, title)`. |
| Merge.InsertByKeyPermutation | NovelSearch/cli.py:218 | Insertion adds exactly one record (multiset). |
| Merge.SortByKeyPermutation | NovelSearch/cli.py:218 | The sort is a permutation (multiset). |
| Merge.InsertByKeyMembers | NovelSearch/cli.py:218 | After insertion the members are exactly the inserted record and the old members. |
| Merge.SortByKeyMembers | NovelSearch/cli.py:218 | The sort neither loses nor invents a record. |
| Merge.StrictCons | NovelSearch/cli.py:218 | A key below every key of a strictly ascending list can go in front of it. |
| Merge.InsertByKeySorted | NovelSearch/cli.py:218 | Insertion keeps a list sorted by `(year, title)`. |
| Merge.SortByKeySorted | NovelSearch/cli.py:218 | The sorted list is in ascending `(year, title)` order. |
| Merge.InsertByKeyStrict | NovelSearch/cli.py:218 | Inserting a new key keeps a list strictly ascending. |
| Merge.SortByKeyStrict | NovelSearch/cli.py:214-218 | With distinct keys, the sorted list is strictly ascending. |
| Merge.InsertionOrder | NovelSearch/cli.py:194-212 | Reference definition of a dictionary's key order: the keys in the order they were first stored. |
| Merge.InsertionOrderPrefix | NovelSearch/cli.py:194-212 | Storing more records only appends keys: the order so far is a prefix of the final order, and the starting order comes first. |
| Merge.InsertionOrderNewKey | NovelSearch/cli.py:202-203 | A key stored for the first time goes to the end of the order. |
| Merge.InsertionOrderFirstStored | NovelSearch/cli.py:194-197 | The order follows storage, not key order: ("b", y) stored before ("a", y) stays before it. |
| Merge.IndexExisting | NovelSearch/cli.py:194-197 | The indexing loop builds exactly `Index`. Its key order is exactly `InsertionOrder` of the saved records, listing each key once. |
| Merge.MergeNew | NovelSearch/cli.py:199-212 | The merge loop builds exactly `MergeAll`. Its key order is exactly the given order extended by `InsertionOrder` of the new records, listing each key once. |
| Merge.SortValues | NovelSearch/cli.py:214-218 | The dictionary's values, sorted: strictly ascending by `(year, title)`, with exactly the dictionary's keys and entries. |
| Merge.Scrape | NovelSearch/cli.py:182-218 | The saved list is strictly ascending by `(year, title)`. Its keys are exactly those of the filtered saved and new records, and all years are at least `after`. Each record is the merged entry for its key. |
| Merge.AwardStep | NovelSearch/cli.py:148-155 | A duplicate keeps the first record's title, year and read flag, and takes the duplicate's POV when that is non-null. Equal labels are kept. Differing labels become the smaller one, "\|", then the larger one. |
| Merge.FoldAwards | NovelSearch/cli.py:141-156 | Reference definition of `novel_map` after the loop of `merge_award_entries`. |
| Merge.FoldAwardsHugoNebula | NovelSearch/cli.py:137-138 | The docstring's promise: a novel listed once for the Hugo and once for the Nebula, in either order, comes out with the award "Hugo\|Nebula". |
| Merge.MergeAwardEntries | NovelSearch/cli.py:141-159 | The loop builds exactly `FoldAwards`. |
| Merge.FoldAwardsKeys | NovelSearch/cli.py:141-156 | One entry per input key, each stored under its own key. |
| Merge.FoldAwardsFirstSeen | NovelSearch/cli.py:144-148 | An entry keeps the title, year and read flag of the first record seen with its key. |
| Merge.FoldAwardsLastPov | NovelSearch/cli.py:154-155 | An entry has the POV of the last record with its key that has one. |
| Merge.FoldAwardsNoPov | NovelSearch/cli.py:154-155 | An entry has no POV when no record with its key has one. |
| Process.InsertDesc | NovelSearch/cli.py:240 | Reference definition of one insertion step of the stable year sort. |
| Process.SortByYearDesc | NovelSearch/cli.py:240 | Reference definition of the stable sort by year, most recent first. |
| Process.InsertDescPermutation | NovelSearch/cli.py:240 | Insertion adds exactly one record (multiset). |
| Process.SortByYearDescPermutation | NovelSearch/cli.py:240 | The year sort is a permutation (multiset). |
| Process.InsertDescSorted | NovelSearch/cli.py:240 | Insertion keeps a list in descending year order. |
| Process.SortByYearDescSorted | NovelSearch/cli.py:240 | The processing order is most recent year first. |
| Process.OfYearAppend | NovelSearch/cli.py:240 | Taking one year's records distributes over concatenation. |
| Process.OfYearNone | NovelSearch/cli.py:240 | A list without records of year `y` has no records of year `y`. |
| Process.OfYearSnoc | NovelSearch/cli.py:240 | Taking one year's records of a list with one more record at the end appends that record exactly when it is of that year. |
| Process.DescendingTail | NovelSearch/cli.py:240 | The tail of a descending list is descending, and no record in the list is later than its head. |
| Process.InsertDescOfYear | NovelSearch/cli.py:240 | Insertion places the new record after every record of its own year. |
| Process.SortByYearDescStable | NovelSearch/cli.py:240 | The sort is stable: the records of each year keep their saved order. |
| Process.Unannotated | NovelSearch/cli.py:246 | Reference definition of `not novel["pov"]`: the POV is null or the empty string. |
| Process.FindNext | NovelSearch/cli.py:244-250 | The search returns the first index whose POV is null or empty. It returns none exactly when every record has a non-empty POV. |
| Process.PovName | NovelSearch/cli.py:272-283 | Reference definition of the POV each digit names. |
| Process.Decode | NovelSearch/cli.py:262-285 | An accepted answer assigns "first", "second" or "third". |
| Process.RemoveOnly | NovelSearch/cli.py:270 | Removing `c` from a string made only of `c` leaves nothing. |
| Process.DecodeOneDigit | NovelSearch/cli.py:262-283 | A normalised answer other than quit and exit that is one digit 1, 2 or 3 once its 'r's are removed assigns that digit's POV. The read flag says whether the normalised answer has an 'r'. |
| Process.DigitAmongRsChars | NovelSearch/cli.py:268-270 | Every character of 'r's around one digit is 'r' or that digit. |
| Process.RsAndDigitNormal | NovelSearch/cli.py:262 | 'r's and a digit are unchanged by `strip().lower()`. |
| Process.RemoveRsAroundDigit | NovelSearch/cli.py:270 | Removing the 'r's around a digit leaves the digit alone. |
| Process.HasRAroundDigit | NovelSearch/cli.py:268 | Around a digit, an 'r' is present exactly when the 'r' parts are not both empty. |
| Process.DigitAmongRs | NovelSearch/cli.py:262-270 | 'r's around one digit are already in normal form, are neither quit nor exit, leave the digit once the 'r's are removed, and hold an 'r' exactly when the 'r' parts are not both empty. |
| Process.DecodeDigit | NovelSearch/cli.py:230-231 | One digit 1, 2 or 3 with any 'r's before and after gives that digit's POV. It is marked read exactly when at least one 'r' is present. |
| Process.DecodeExamples | NovelSearch/cli.py:231 | '1' gives first person, unread; '1r' and 'r1' give first person, read. |
| Process.DecodeQuit | NovelSearch/cli.py:262-265 | "quit" and "exit", in any case and with surrounding whitespace, end the session. |
| Process.DecodeNotDigit | NovelSearch/cli.py:284-285 | A normalised answer other than quit and exit that is not "1", "2" or "3" once its 'r's are removed is invalid. |
| Process.DecodeInvalid | NovelSearch/cli.py:284-285 | An answer is invalid when it is not quit or exit and either holds a character other than r, 1, 2, 3 or does not leave exactly one character once its 'r's are removed. |
| Process.StripWindow | NovelSearch/cli.py:262 | `strip()` is a window of the line with only whitespace before and after it. |
| Process.LowerCharR | NovelSearch/cli.py:262 | A character lower-cases to 'r' exactly when it is 'r' or 'R'. |
| Process.NormalFormRInLine | NovelSearch/cli.py:262-268 | An 'r' in the stripped, lower-cased answer comes from an 'r' or 'R' in the line. |
| Process.NoRInWindow | NovelSearch/cli.py:262-268 | When the lower-cased window has no 'r' and the rest is whitespace, the line has no 'r' and no 'R'. |
| Process.LineRInNormalForm | NovelSearch/cli.py:262-268 | When the stripped, lower-cased answer has no 'r', the line has neither 'r' nor 'R'. |
| Process.NormalFormHasR | NovelSearch/cli.py:262-268 | The stripped, lower-cased answer contains 'r' exactly when the raw line contains 'r' or 'R'. |
| Process.DecodeRead | NovelSearch/cli.py:268 | The read flag of an accepted answer is exactly whether the line contains 'r' or 'R'. |
| Process.ProcessAnswer | NovelSearch/cli.py:242-285 | One prompt turn may leave the list unchanged, when every record has a POV, when the answer is quit or exit, or when it is invalid. Otherwise it updates exactly the first record without a POV, setting the decoded POV and read flag. |
| Process.AnswerProgress | NovelSearch/cli.py:242-283 | An accepted answer lowers the number of records without a POV by exactly one, so there are at most as many accepted answers as records. |

## Left out

- HTTP fetching and HTML parsing (`requests`, BeautifulSoup, NovelSearch/cli.py:69-75) are not modelled. A page is given as tables of rows. Each row holds its cells' stripped texts (`get_text(strip=True)`) and its `<i>` elements' stripped texts. `raise_for_status` is not modelled.
- Loading and saving `award_novels.json` (NovelSearch/cli.py:38-48) is not modelled. `scrape` receives the saved list as a parameter; `process` works on an array standing for the loaded list.
- Several pieces of interactive glue are not modelled:
  - the `click` command group;
  - every `print`;
  - `webbrowser.open` and the Amazon search URL (NovelSearch/cli.py:257-259);
  - `input()`, whose typed line is a parameter of `Process.ProcessAnswer` (one turn per line);
  - the outer `while True` of `process`, which `Process.AnswerProgress` bounds.
- The empty-list early return of `process` (NovelSearch/cli.py:235-237) prints a message and stops. `Process.ProcessAnswer` returns `AllAnnotated` on an empty array, which also leaves it unchanged.
- Text.Lower: maps only the ASCII letters. Python's `lower()` also maps other letters. Every string the code compares after lower-casing ("year", "awarded", "retro", "quit", "exit", "r", "1"-"3") is ASCII. A non-ASCII letter whose lower-case form is ASCII (such as U+212A KELVIN SIGN) is not modelled.
- Text.Remove: its own contract states membership and length. That every other character keeps its count is `Text.RemoveCounts`, and that order is kept is `Text.RemoveAppend`. Both are kept out of the function's contract because the answer-decoding proofs that unfold `Remove` become too costly with a multiset in scope.
- Merge.Since: its own contract states membership. That the filter keeps order and duplicates is stated by `Merge.SinceAppend` and `Merge.SinceSingle`, which together determine it.
- Integers.ParseInt: does not accept the non-ASCII decimal digits that Python's `int()` also reads. The 4300-digit limit is CPython's default; that it can be changed at run time (`sys.set_int_max_str_digits`) or is absent in older Pythons is not modelled.
- JSON values of other types are not modelled: `pov` is either null or a string, and `title`, `award`, `year` and `read` have the types the scraper gives them.
- Aliasing is not modelled. `scrape` and `merge_award_entries` update dictionaries that the input lists also hold; the model builds new records and leaves its inputs unchanged.
- Sorting is modelled as stable insertion sorts (`Merge.SortByKey`, `Process.SortByYearDesc`) on sequences, not as the in-place `list.sort` on the list object. With distinct keys (`Merge.Scrape`), the stable order is the only ascending order. For `process`, stability is proved (`Process.SortByYearDescStable`).
- cli.py:159 (`novel_map.values())`) is a syntax error, so `NovelSearch/cli.py` does not parse as written. Merge.MergeAwardEntries returns the map its loop builds; presumably the authors meant `return list(novel_map.values())`. Nothing in the tool calls `merge_award_entries`.
- The `scrape` docstring promises to keep existing POV data, and the code does keep a non-null saved `pov`. The code does not keep the saved `read` flag, which the user also enters by hand. The new record, unread, replaces the saved one, so a novel marked read is unread again after the next `scrape`. The docstring does not mention `read`. The model follows the code (`Merge.Combine`, `Merge.MergeAllResetsRead`).
- Two notions of "no POV" differ. The `scrape` merge keeps a saved POV when it `is not None`, so an empty string is kept. `process` treats null and the empty string alike as unprocessed (`not novel["pov"]`). The model keeps the two tests apart (`Merge.Combine`, `Process.Unannotated`).
