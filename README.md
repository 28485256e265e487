# book-club-viz in Dafny

book-club-viz is a pair of Streamlit dashboards for two book clubs. Each reads
the club's spreadsheet of books read at meetings and shows statistics: the
number of meetings, books, distinct authors and genres (with the Russian
noun form that fits the number), the most popular genres, authors and
countries, authors per country and per gender, books per decade of writing,
and pages read per month. This project models the computations behind those
statistics, not the drawing.

Modules, following the program's files:

- `BookClubVizUtils` (book_club_viz_utils.py) covers three things:
  - the list-cell parser `ParseStringIntoList`, and `GetColumnValuesAsList`, which flattens a column of such cells;
  - `GetNumMeetingsFromDf`, the distinct-date counter;
  - the three noun-form rules.
- `BookVizUtils` (book_viz_utils.py) is the second copy of the parser, proved equal to the first.
- `ChitaemVmesteApp` (chitaem_vmeste_st_app.py) covers the year filter, the choice of the most popular values, the author→country and author→gender maps, countries per distinct title, and books per decade. The pages-per-month loop lives in `Aggregation`.
- `StApp` (st_app.py) covers the inline copies of the noun-form rules, of the meeting count and of the flattening, and the first-row-per-author table of countries.
- Supporting modules:
  - `PyStr`: Python's slicing, `str.strip`, `str.split`, `str.join`, `int()` and `f"{n}"`;
  - `Dedup`: `drop_duplicates`, which keeps the first row;
  - `Frames`: a DataFrame as labelled columns over rows of cells;
  - `Dicts`: insertion-ordered dicts and `{k: v for k, v in zip(...)}`;
  - `Ranking`: `Counter` and `most_common`, as a stable descending sort over first-seen order, plus the tied-prefix selection;
  - `Books`: the spreadsheet row and its table;
  - `Aggregation`: the decade buckets and the pages-per-month accumulation.

How the model represents the program:

- Python exceptions on the paths modelled are `Result` failures carrying a `PyError` (`KeyError`, `TypeError`, `IndexError`, `ValueError`).
- The dashboards' dictionary loops are methods with loop invariants over `Dict` values.
- The year chosen in the select box is an `Option<string>` parameter.

## Model

| member | source | states |
|---|---|---|
| PyStr.InnerText | book_club_viz_utils.py:26 | `s[1:-1]`: empty below two characters; otherwise the string without its first and last character |
| PyStr.Prefix | chitaem_vmeste_st_app.py:47 | `s[:n]` is the first `min(n, len(s))` characters of `s` |
| PyStr.Strip | book_club_viz_utils.py:32 | the result has no surrounding whitespace, is the input with only whitespace removed on either side, and equals the input when the input was already stripped |
| PyStr.StripIdempotent | book_club_viz_utils.py:32 | stripping twice is stripping once |
| PyStr.StripAll | book_club_viz_utils.py:32 | the comprehension keeps the length and strips item by item |
| PyStr.StripAllStripped | book_club_viz_utils.py:32 | trimming items that are already stripped leaves the list unchanged |
| PyStr.StripAllFree | book_club_viz_utils.py:29-32 | trimming does not create the separator in an item that lacked it |
| PyStr.Split | book_club_viz_utils.py:29 | `split(", ")` always gives at least one piece; the first piece is a prefix of the input |
| PyStr.JoinSplit | book_club_viz_utils.py:29 | joining the pieces of a split with the separator gives back the split string |
| PyStr.SplitJoin | book_club_viz_utils.py:29 | splitting the join of separator-free items gives back the items |
| PyStr.SplitPiecesFree | book_club_viz_utils.py:29 | no piece of a split contains the separator |
| PyStr.SplitCount | book_club_viz_utils.py:29 | the number of pieces is the number of occurrences of the separator plus one |
| PyStr.StripAllLength | book_club_viz_utils.py:32 | trimming never lengthens the items, and keeps their total length only when every item was already stripped |
| PyStr.JoinStrippedIff | book_viz_utils.py:19-22 | the trimmed pieces join to the same text as the untrimmed ones if and only if every piece was already stripped |
| PyStr.NatToDecimal | chitaem_vmeste_st_app.py:36 | `f"{n}"` of a natural number is a non-empty string of digits, which starts with "0" only for zero |
| PyStr.DecimalRoundTrip | chitaem_vmeste_st_app.py:36-47 | reading the decimal digits of `n` back gives `n` |
| PyStr.ParseInt | chitaem_vmeste_st_app.py:47 | `int(s)` succeeds exactly when the stripped text is a non-empty run of digits, possibly after one `+` or `-`, and raises ValueError otherwise; the value is that of the digits, negated after `-` |
| PyStr.DigitsStripped | chitaem_vmeste_st_app.py:47 | a numeral has no surrounding whitespace, so `int()` reads it as it stands |
| PyStr.IntToDecimal | chitaem_vmeste_st_app.py:36 | `f"{y}"` of any integer is a non-empty stripped string that `int()` reads back as `y` |
| PyStr.Numeral | chitaem_vmeste_st_app.py:36-47 | the numeral of `n` is stripped and `int()` reads it as `n` |
| PyStr.NegativeNumeral | chitaem_vmeste_st_app.py:36-47 | a minus sign before the numeral of `n` is stripped and `int()` reads it as `-n` |
| PyStr.ParseNegative | chitaem_vmeste_st_app.py:47 | `int()` of a minus sign and digits is the negated value of the digits |
| PyStr.StripTrailingSpace | chitaem_vmeste_st_app.py:47 | a stripped text followed by one space strips back to the text, so `int()` reads both alike |
| Dedup.DedupBy | st_app.py:241 | `drop_duplicates(subset=...)` keeps at most as many rows, with pairwise distinct keys, the same set of keys, and only rows that are the first of their key |
| Dedup.DropDuplicatesMembers | book_club_viz_utils.py:7 | dropping whole-row duplicates keeps exactly the same elements |
| Dedup.DedupCount | book_club_viz_utils.py:7 | the number of rows kept is the number of distinct keys |
| Dedup.DedupKeepsFirsts | st_app.py:241 | every first row of a key is kept |
| Dedup.DedupBySnoc | st_app.py:241 | one more row is kept, at the end, exactly when no earlier row has its key |
| Dedup.DedupKeepsOrder | st_app.py:241 | of two first rows of their keys, the earlier is kept before the later |
| Dedup.DropDuplicatesSnoc | book_club_viz_utils.py:7 | appending an element already present changes nothing; a new element is kept at the end |
| Frames.IndexOf | book_club_viz_utils.py:38 | a column label is found at its first position, or is absent |
| Frames.Column | book_club_viz_utils.py:38 | `df[name]` raises KeyError for an absent label; otherwise it gives one cell per row, taken from the first column with that label |
| Frames.ColumnIndices | book_club_viz_utils.py:6 | `df[subset]` succeeds exactly when every label is present, giving one position per label that holds that label; otherwise it raises KeyError naming an absent label |
| Frames.ProjectRows | book_club_viz_utils.py:6 | `df[subset]` keeps every row, restricted to the subset's columns |
| BookClubVizUtils.ParseStringIntoList | book_club_viz_utils.py:11-34 | never empty; every item is stripped and free of the separator |
| BookClubVizUtils.ParseRoundTrip | book_club_viz_utils.py:26-32 | bracketing and joining stripped, separator-free items and then parsing gives back the items |
| BookClubVizUtils.ParseExample | book_club_viz_utils.py:13 | `"[a, b, c]"` parses to `["a", "b", "c"]` |
| BookClubVizUtils.ParseLength | book_club_viz_utils.py:26-29 | the number of items is one more than the number of separators inside the brackets |
| BookClubVizUtils.ParseEmptyInner | book_club_viz_utils.py:26-29 | a string of at most two characters, `"[]"` included, parses to `[""]` |
| BookClubVizUtils.ParseIgnoresEnds | book_club_viz_utils.py:26 | the first and last characters are dropped unchecked: any two end characters parse like brackets |
| BookClubVizUtils.FlattenParsed | book_club_viz_utils.py:39-42 | the flattened list has at least one item per cell |
| BookClubVizUtils.FlattenAppend | book_club_viz_utils.py:39-42 | flattening distributes over concatenating the cells |
| BookClubVizUtils.FlattenAt | book_club_viz_utils.py:39-42 | the items of cell `k` stand, in order, between the items of the cells before and after it |
| BookClubVizUtils.GetColumnValuesAsList | book_club_viz_utils.py:37-43 | KeyError exactly for an absent column; TypeError exactly when a cell is not a string; otherwise the in-order concatenation of the cells' parses, with at least one value per row |
| BookClubVizUtils.TextColumn | book_club_viz_utils.py:37-43 | a column holding the given strings row by row flattens to the parses of those strings |
| BookClubVizUtils.ColumnValuesOverRowSplit | book_club_viz_utils.py:37-43 | the values of `top + bottom` are those of `top` followed by those of `bottom`; the first failure wins |
| BookClubVizUtils.GetNumMeetingsFromDf | book_club_viz_utils.py:4-8 | KeyError naming an unknown label exactly when a label is unknown; otherwise the number of distinct projected rows (all rows for an empty subset) |
| BookClubVizUtils.DropDuplicatesCount | book_club_viz_utils.py:7 | the rows left by `drop_duplicates` are as many as the distinct projected rows |
| BookClubVizUtils.MeetingsBounds | book_club_viz_utils.py:4-8 | at most one meeting per row, and at least one when there is a row |
| BookClubVizUtils.MeetingsSameRows | book_club_viz_utils.py:6-7 | two tables with the same rows, in any order and multiplicity, have the same count |
| BookClubVizUtils.MeetingsPermutation | book_club_viz_utils.py:6-7 | reordering the rows leaves the count unchanged |
| BookClubVizUtils.MeetingsDuplicateRow | book_club_viz_utils.py:6-7 | repeating a row already present adds no meeting |
| BookClubVizUtils.MeetingsOfThree | tests/test_book_club_viz_utils.py:22-75 | three rows over the three date columns give the number of distinct rows among them |
| BookClubVizUtils.MeetingsRepeatedDate | tests/test_book_club_viz_utils.py:38-42 | one date twice and another once give two meetings |
| BookClubVizUtils.MeetingsThreeDates | tests/test_book_club_viz_utils.py:43-64 | three different dates give three meetings |
| BookClubVizUtils.MeetingsErrorCasesAsWritten | book_club_viz_utils.py:4-8 | as written, the empty subset on an empty table gives 0 and the unknown subset raises KeyError; neither raises ValueError |
| BookClubVizUtils.GetNumMeetingsValidated | tests/test_book_club_viz_utils.py:7-19 | ValueError exactly for an empty subset or an unknown label; otherwise the count as written |
| BookClubVizUtils.MeetingsErrorCasesValidated | tests/test_book_club_viz_utils.py:7-19 | with the validation, both error-case calls raise ValueError |
| BookClubVizUtils.GetBooksInflection | book_club_viz_utils.py:60-69 | "книга" exactly for last digit 1 outside 5..20, "книги" exactly for last digit 2..4 outside 5..20, "книг" otherwise |
| BookClubVizUtils.BooksInflectionExamples | book_club_viz_utils.py:46-69 | 0 книг, 1 книга, 2 and 4 книги, 5, 9, 11, 12, 14, 20 книг, 21 книга, 22 книги, 111 книга |
| BookClubVizUtils.BooksInflectionLastDigit | book_club_viz_utils.py:60-69 | above 20 the form depends only on the last digit |
| BookClubVizUtils.GetAuthorsInflection | book_club_viz_utils.py:86-93 | "автора" exactly for last digit 1 outside 2..20, "авторов" otherwise |
| BookClubVizUtils.GetGenresInflection | book_club_viz_utils.py:110-117 | "жанре" exactly for last digit 1 outside 2..20, "жанрах" otherwise |
| BookClubVizUtils.AuthorsGenresExamples | book_club_viz_utils.py:72-117 | 0 and 11 take the plural form, 1 and 21 the singular, for authors and for genres |
| BookVizUtils.SliceToEnd | book_viz_utils.py:16 | Python's `s[a:-b]`: empty when the bounds cross, otherwise the characters from `a` up to `b` before the end |
| BookVizUtils.SliceIsInner | book_viz_utils.py:16 | `s[1:-1]` is the same slice in both parsers |
| BookVizUtils.ParseStringList | book_viz_utils.py:1-24 | one item per piece of the split, each the stripped piece; never empty; every item stripped and separator-free |
| BookVizUtils.ParsersAgree | book_viz_utils.py:1-24 | `parse_string_list` and `parse_string_into_list` return the same list on every string |
| BookVizUtils.ParseListExample | book_viz_utils.py:13 | `"[a, b, c]"` parses to `["a", "b", "c"]` |
| BookVizUtils.ParseListShort | book_viz_utils.py:16-19 | a string of length 0 or 1 parses to `[""]` |
| BookVizUtils.PiecesRejoin | book_viz_utils.py:19-22 | the split pieces rejoin to the inner text; the trimmed items do so exactly when no piece had surrounding whitespace |
| Ranking.Tally | chitaem_vmeste_st_app.py:155 | `Counter`: each distinct value once, at the position it has in `drop_duplicates` (first-seen order), with its number of occurrences |
| Ranking.TallyTotal | chitaem_vmeste_st_app.py:155 | the counts add up to the number of values |
| Ranking.Insert | chitaem_vmeste_st_app.py:156 | inserting into a descending ranking keeps it descending and adds exactly that entry |
| Ranking.SortDesc | chitaem_vmeste_st_app.py:156 | the sort is a descending permutation of its input |
| Ranking.SortStable | chitaem_vmeste_st_app.py:156 | the sort is stable: entries of equal count keep their order |
| Ranking.WithKey | chitaem_vmeste_st_app.py:163-165 | only entries with the given count are kept |
| Ranking.MostCommonTies | chitaem_vmeste_st_app.py:156 | `most_common()` is a descending permutation of the `Counter` that keeps first-seen order among equal counts |
| Ranking.MostCommonTotal | chitaem_vmeste_st_app.py:156 | one entry per distinct value, counts adding up to the number of values |
| Ranking.MostCommonFirst | chitaem_vmeste_st_app.py:158 | for a non-empty list the first entry is a value of the list with the largest count, bounding every value's count |
| Ranking.SelectTop | chitaem_vmeste_st_app.py:163-167 | IndexError exactly for an empty ranking; otherwise the entries listed before the first count below the top one |
| Ranking.TiedPrefixIsWithKey | chitaem_vmeste_st_app.py:163-167 | on a descending ranking, the entries listed are exactly those whose count equals the top count |
| Ranking.TopOfMostCommon | chitaem_vmeste_st_app.py:155-167 | the values listed are the values of maximal count, in first-seen order |
| Ranking.PluralHeaderAsWritten | chitaem_vmeste_st_app.py:158-162 | as written, the header lookup raises IndexError exactly when the ranking has fewer than two entries |
| Ranking.PluralHeader | chitaem_vmeste_st_app.py:158-162 | the corrected header fails only on an empty ranking |
| Ranking.PluralIffSeveral | chitaem_vmeste_st_app.py:159-167 | the plural header is chosen if and only if at least two values are listed |
| Ranking.HeadersAgree | chitaem_vmeste_st_app.py:159 | from two entries on, the corrected header is the one written |
| Ranking.HeaderAsWrittenFails | chitaem_vmeste_st_app.py:155-159 | as written, the header fails exactly when the list holds fewer than two distinct values |
| Ranking.SingleValueCounterexample | chitaem_vmeste_st_app.py:159 | a list of one repeated value makes the written header raise IndexError, while the corrected one gives the singular header |
| Dicts.Put | chitaem_vmeste_st_app.py:404-405 | `d[k] = v` keeps the dict valid; a new key goes last and an existing key keeps its place |
| Dicts.Values | chitaem_vmeste_st_app.py:267 | `list(d.values())` is one value per key, in key order |
| Dicts.ZipDict | chitaem_vmeste_st_app.py:266 | the keys are the distinct keys of the paired prefix in first-seen order; each takes the value of its last pair; pairing stops at the shorter list |
| Dicts.ZipLastWins | chitaem_vmeste_st_app.py:266 | a key paired for the last time at position `i` maps to the value at `i` |
| Dicts.SumAtUpdate | chitaem_vmeste_st_app.py:344 | adding to the value of one key changes the sum of the values by that amount |
| Books.ToTable | chitaem_vmeste_st_app.py:31-33 | the book table has the spreadsheet's columns and one row per book, in order |
| Books.DateIndices | chitaem_vmeste_st_app.py:70-72 | the three meeting-date columns sit at the first three positions of the book table |
| Books.BooksMeetings | chitaem_vmeste_st_app.py:70-72 | the meeting count of the book table is the number of distinct (year, month, day) triples |
| Books.AuthorColumn | chitaem_vmeste_st_app.py:79 | the author values are the flattened parses of the author cells in book order |
| Books.GenresColumn | chitaem_vmeste_st_app.py:84 | the same for the genre cells |
| Books.CountriesColumn | chitaem_vmeste_st_app.py:187 | the same for the country cells |
| Books.GendersColumn | chitaem_vmeste_st_app.py:295 | the same for the gender cells |
| Aggregation.Floor10 | chitaem_vmeste_st_app.py:336 | `y - y % 10` is the multiple of ten at or below `y` |
| Aggregation.DecadeKey | chitaem_vmeste_st_app.py:343 | the key of year `y` runs from one past its multiple of ten to ten past it |
| Aggregation.DecadeKeyWithinLabel | chitaem_vmeste_st_app.py:343 | a year lies inside its own key's range exactly when it does not end in 0 |
| Aggregation.DecadeKeyExamples | chitaem_vmeste_st_app.py:343 | 1990 and 1999 go to 1991-2000, 2000 to 2001-2010, 1847 to 1841-1850 |
| Aggregation.RangeBy10 | chitaem_vmeste_st_app.py:338 | `range(start, stop, 10)`: the right number of elements, ten apart from `start` |
| Aggregation.DecadeLabels | chitaem_vmeste_st_app.py:336-341 | one key per decade from the first year's to the last year's, ten apart, ascending |
| Aggregation.DecadeCount | chitaem_vmeste_st_app.py:336-341 | `(floor10(last) - floor10(first)) / 10 + 1` keys, the first and last being the keys of the first and last years |
| Aggregation.DecadeLabelsDistinct | chitaem_vmeste_st_app.py:339-341 | the keys are pairwise distinct |
| Aggregation.DecadeKeyListed | chitaem_vmeste_st_app.py:336-343 | the key of every year between the first and the last is among the keys |
| Aggregation.ZeroBuckets | chitaem_vmeste_st_app.py:339-341 | the dict holds exactly the keys, in order, each at 0 |
| Aggregation.AllYearsListed | chitaem_vmeste_st_app.py:342-344 | the key computed for every year is already present, so the increment never misses |
| Aggregation.BooksPerDecade | chitaem_vmeste_st_app.py:336-344 | ValueError for no years; otherwise the keys in order, every year's key present, each value the counts of the years in it, and the values summing to the counts |
| Aggregation.Bump | chitaem_vmeste_st_app.py:344 | `d[k] += c` changes only the value at `k`, keeping the key order |
| Aggregation.AddToTotal | chitaem_vmeste_st_app.py:344 | `d[k] += c` raises the sum of the values by `c` |
| Aggregation.CreditedMonth | chitaem_vmeste_st_app.py:395-402 | a meeting before the 15th counts for the previous month, in the same year; a month in 1..12 stays in 1..12 |
| Aggregation.JanuaryStaysInYear | chitaem_vmeste_st_app.py:399-400 | January before the 15th is credited to December of the same year |
| Aggregation.CreditedMonths | chitaem_vmeste_st_app.py:394-402 | the credited month of each row, in row order |
| Aggregation.FirstSeenMembers | chitaem_vmeste_st_app.py:403-404 | a month is a key exactly when some row is credited to it |
| Aggregation.FirstSeenIsDropDuplicates | chitaem_vmeste_st_app.py:403-404 | the keys are the credited months in first-seen order |
| Aggregation.PagesInAbsent | chitaem_vmeste_st_app.py:403-405 | a month no row is credited to has no pages |
| Aggregation.AddRow | chitaem_vmeste_st_app.py:394-405 | one row of the loop: its credited month is added at 0 after the other keys when new, and then gains the row's pages; no other key changes, and the loop invariant is kept |
| Aggregation.PagesPerMonth | chitaem_vmeste_st_app.py:390-405 | the keys are the credited months in first-seen order; each value is the pages of the rows credited to that month; the values sum to all the pages |
| Aggregation.PagesFinally | chitaem_vmeste_st_app.py:392-405 | once every row is added, the dict holds the keys in first-seen order, the pages per month, and the page total |
| ChitaemVmesteApp.MeetingYears | chitaem_vmeste_st_app.py:36 | the meeting year of each row, in row order |
| ChitaemVmesteApp.SortedYears | chitaem_vmeste_st_app.py:36 | `sorted(unique())`: every meeting year, only meeting years, strictly ascending |
| ChitaemVmesteApp.DistinctAscending | chitaem_vmeste_st_app.py:36 | sorting distinct years keeps the same years and orders them strictly ascending |
| ChitaemVmesteApp.YearLabels | chitaem_vmeste_st_app.py:36 | one `"{year} год"` label per year, in order |
| ChitaemVmesteApp.YearOptions | chitaem_vmeste_st_app.py:35-37 | "все годы" comes first, and every meeting year has its label among the options |
| ChitaemVmesteApp.YearLabel | chitaem_vmeste_st_app.py:36 | the label is the year's numeral followed by " год", and `int()` reads that numeral back as the year |
| ChitaemVmesteApp.ChosenYear | chitaem_vmeste_st_app.py:47 | `int(label[:4])` raises only ValueError, and a value it reads lies between -999 and 9999 |
| ChitaemVmesteApp.ShortNumeralBound | chitaem_vmeste_st_app.py:47 | `int()` of at most four characters lies between -999 and 9999 |
| ChitaemVmesteApp.DecimalBound | chitaem_vmeste_st_app.py:47 | up to four digits have a value of up to as many nines |
| ChitaemVmesteApp.DecimalLength | chitaem_vmeste_st_app.py:36 | a number in 0-9, 10-99, 100-999 or 1000-9999 is written with one, two, three or four digits |
| ChitaemVmesteApp.YearLabelRoundTrip | chitaem_vmeste_st_app.py:36-47 | for a year written with three or four characters (100 to 9999, or -999 to -10), reading the first four characters of its label gives the year back |
| ChitaemVmesteApp.OptionPrefix | chitaem_vmeste_st_app.py:36-47 | the first four characters of a year's option are its numeral followed by as much of " год" as fits |
| ChitaemVmesteApp.ShortYearRejected | chitaem_vmeste_st_app.py:47 | for a year written with one or two characters (-9 to 99), the first four characters of its label make `int()` raise ValueError |
| ChitaemVmesteApp.YearLabelReadBack | chitaem_vmeste_st_app.py:36-47 | a year is read back from its label if and only if it is written with three or four characters |
| ChitaemVmesteApp.FiveDigitYearMisread | chitaem_vmeste_st_app.py:47 | the label of year 10000 is read as 1000 |
| ChitaemVmesteApp.YearLabelIsNotAll | chitaem_vmeste_st_app.py:35-46 | no year label is "все годы" |
| ChitaemVmesteApp.BooksOfYear | chitaem_vmeste_st_app.py:48 | the filtered rows are exactly the rows of that year, each as often as before |
| ChitaemVmesteApp.BooksOfYearSnoc | chitaem_vmeste_st_app.py:48 | one more row stays, at the end, exactly when it met that year |
| ChitaemVmesteApp.BooksOfYearAppend | chitaem_vmeste_st_app.py:48 | filtering two blocks of rows is filtering each and joining the results, so the kept rows keep their order |
| ChitaemVmesteApp.BooksOfYearMembers | chitaem_vmeste_st_app.py:48 | a book remains exactly when it was there and met that year |
| ChitaemVmesteApp.ApplyYearFilter | chitaem_vmeste_st_app.py:38-48 | no choice means "все годы", which keeps every row; the label of a year written with three or four characters keeps that year's rows; any other label raises ValueError exactly when its first four characters are not a number, and otherwise keeps the rows of that number |
| ChitaemVmesteApp.OptionsReadable | chitaem_vmeste_st_app.py:35-48 | choosing the option of a meeting year written with three or four characters keeps that book, and keeps only books of that year |
| ChitaemVmesteApp.MostPopular | chitaem_vmeste_st_app.py:155-201 | IndexError exactly for no values; otherwise the values of maximal count in first-seen order, none counted above the first, and a plural header exactly when several are listed |
| ChitaemVmesteApp.AuthorAttributes | chitaem_vmeste_st_app.py:264-267 | one value per distinct author of the paired prefix, the one paired with that author's last occurrence |
| ChitaemVmesteApp.AuthorsPerAttribute | chitaem_vmeste_st_app.py:266-269 | the counts per country or gender add up to the number of distinct authors |
| ChitaemVmesteApp.CountriesOfAuthors | chitaem_vmeste_st_app.py:294-295 | the author, country and gender lists are the flattened parses of those cells in book order |
| ChitaemVmesteApp.CountriesOfTitles | chitaem_vmeste_st_app.py:230-232 | the countries of the first row of each title, flattened in order, with at least one per distinct title |
| ChitaemVmesteApp.EntryValues | chitaem_vmeste_st_app.py:334 | the first column of the unzipped pairs |
| ChitaemVmesteApp.EntryCounts | chitaem_vmeste_st_app.py:334 | the second column of the unzipped pairs |
| ChitaemVmesteApp.InDecade | chitaem_vmeste_st_app.py:343-344 | the years whose key is `k`, each as often as in the list |
| ChitaemVmesteApp.Earliest | chitaem_vmeste_st_app.py:336 | the smallest year of the list |
| ChitaemVmesteApp.Latest | chitaem_vmeste_st_app.py:337 | the largest year of the list |
| ChitaemVmesteApp.UnzipFacts | chitaem_vmeste_st_app.py:331-334 | counting, ranking and re-sorting by year gives the distinct years strictly ascending, each with its count, the counts adding up to the number of years |
| ChitaemVmesteApp.EndsOfUnzip | chitaem_vmeste_st_app.py:334-337 | `years[0]` and `years[-1]` after the unzip are the smallest and largest years |
| ChitaemVmesteApp.DecadeTotalIsCount | chitaem_vmeste_st_app.py:342-344 | summing the counts of the years of a key gives the number of books in that decade |
| ChitaemVmesteApp.BooksPerDecadeOfYears | chitaem_vmeste_st_app.py:330-344 | ValueError for no books; otherwise the keys from the earliest to the latest year's decade, every year's key present, each value the number of books in that decade, and the values summing to the number of books |
| StApp.InlineBooksInflection | st_app.py:49-57 | the inline rule is `get_books_inflection` for every number |
| StApp.InlineAuthorsInflection | st_app.py:75-79 | "автора" exactly for last digit 1, "авторов" otherwise |
| StApp.AuthorsRulesDisagree | st_app.py:75-79 | the inline author rule and `get_authors_inflection` differ exactly at 11 |
| StApp.ElevenAuthors | st_app.py:75-79 | 11 authors get "автора" inline and "авторов" from the helper |
| StApp.InlineGenresInflection | st_app.py:97-103 | the inline rule is `get_genres_inflection` for every number |
| StApp.MeetingDates | st_app.py:31 | the (year, month, day) of each row, in row order |
| StApp.InlineMeetings | st_app.py:31-33 | the meeting count is the number of distinct (year, month, day) triples: at most the number of rows, and at least one when there is a row |
| StApp.InlineMeetingsAgree | st_app.py:31-33 | the inline count equals `get_num_meetings_from_df` over the three date columns |
| StApp.DatesAsKeys | st_app.py:33 | the distinct rows of the date frame are the meeting dates |
| StApp.InlineFlatten | st_app.py:59-61 | the inline flattening with `parse_string_list` gives what `get_column_values_as_list` gives |
| StApp.DistinctCount | st_app.py:62-64 | the size of the set of names is the number of distinct names |
| StApp.FirstRowPerAuthor | st_app.py:240-241 | one row per distinct author cell, every author cell represented |
| StApp.CountriesOfFirstRows | st_app.py:242-244 | the countries of the kept rows, flattened in order |
| StApp.FirstRowWins | st_app.py:240-241 | the first row of an author cell is kept, and a later, different row with the same author cell is not |

## Left out

- Streamlit, matplotlib, `pd.read_excel` and `DataFrame.style` are rendering and file I/O and are not modelled. The spreadsheet is a `seq<Book>` parameter, and the select box's answer is an `Option<string>` parameter.
- Floating point is not modelled: the stack height, the word and sentence estimates, the percentages, and the `:_.0f` / `:.2f` formats.
- The markdown messages are not modelled: the `msg +=` loops, `msg[:-2] + "."` and the headers of the general statistics. The top-ties loop is modelled by what it lists (`Ranking.SelectTop`) and by which header it picks.
- The thickest and thinnest books (chitaem_vmeste_st_app.py:130-152, st_app.py:146-168) are a `max`/`min` and a row filter feeding only message text, so they are not modelled.
- The pie and bar data derived from the rankings (`[item[1] for item in ...]`) are not modelled; they are read off `MostCommon`.
- `year_written_or_published` is a float column in the spreadsheet, possibly NaN; the model takes years as `int`.
- `int()` is modelled for ASCII digits with an optional sign and surrounding whitespace. Underscores between digits and non-ASCII digits are not modelled; `f"{year}"` of an integer never writes them.
- `str.strip` uses an explicit whitespace predicate covering Python's whitespace characters.
- The pages-per-month key `f"{month}-{year}"` is a `MonthKey(month, year)` value. Distinct (month, year) pairs give distinct strings, so the dict has the same keys in the same order.
- A DataFrame has a fixed column order and no duplicate column labels. Cells are integers or strings.
- st_app.py's decade bucketing (274-288), pages per month (333-349) and most-popular blocks (170-219) are the same code as in chitaem_vmeste_st_app.py. Each is modelled once, by `ChitaemVmesteApp.BooksPerDecadeOfYears`, `Aggregation.PagesPerMonth` and `ChitaemVmesteApp.MostPopular`. st_app.py flattens its lists with `parse_string_list`; `StApp.InlineFlatten` proves this is the same flattening.
- The general-statistics lines of chitaem_vmeste_st_app.py (70-87) apply the helpers to the book table, as `Books.BooksMeetings`, `Books.AuthorColumn` and `Books.GenresColumn` state. The counts of distinct authors and genres are `StApp.DistinctCount`.
- The author→country map pairs the flattened author and country lists position by position. Both source files do this, and a book with several authors but one country shifts the pairing; the model states the pairing as written.
- st_app.py deduplicates on the raw author cell (first row wins), while chitaem_vmeste_st_app.py keys on flattened names (last pair wins); both are modelled as written.
- The year filter keeps rows of the meeting year with the value `int()` reads; rows are compared as whole `Book` values, so the row index renumbering on line 50 is not modelled.
- `Aggregation.CreditedMonth` is modelled as written: January before the 15th counts for December of the same year, not the previous one.
- `Aggregation.DecadeKey` is modelled as written: a year ending in 0 goes to the bucket that starts one year after it.
- ChitaemVmesteApp.MostPopular: does not reproduce the IndexError that a ranking of a single distinct value raises; it uses the corrected header (see Findings).

## Findings

| source | as written | input that shows it | evidently intended | confidence | as-written member | corrected member |
|---|---|---|---|---|---|---|
| book_club_viz_utils.py:4-8 | `get_num_meetings_from_df` does not validate its column subset: an empty subset counts the rows and an unknown label raises KeyError. The tests also call it with the keyword `date_columns_subset`, which the function does not accept | `pd.DataFrame()` with subset `[]` gives 0; with `["y", "m", "d"]` it raises KeyError, while tests/test_book_club_viz_utils.py:7-19 expects ValueError in both cases | raise ValueError for an empty subset or an unknown label | not executed | BookClubVizUtils.MeetingsErrorCasesAsWritten | BookClubVizUtils.GetNumMeetingsValidated |
| chitaem_vmeste_st_app.py:159 | the header reads `by_freq[1][1]` whatever the length of the ranking (also lines 175 and 192, and st_app.py:175, 191, 210) | a year whose books all share one country, e.g. countries `["Россия", "Россия"]`: `most_common()` has one entry and indexing position 1 raises IndexError | choose the singular header when there is only one value | not executed | Ranking.SingleValueCounterexample | Ranking.PluralHeader |
| st_app.py:75-79 | the inline author rule looks only at the last digit | 11 distinct authors give "11 автора" | "11 авторов", as `get_authors_inflection` gives | not executed | StApp.ElevenAuthors | BookClubVizUtils.GetAuthorsInflection |
