# CORD-19 metadata pipeline — a Dafny model

This project models the record-processing core of two scripts that explore
the CORD-19 paper metadata: `analysis.py`, which cleans the metadata table
and summarises it, and `app.py`, a Streamlit explorer that filters the
cleaned table by a year range and summarises the selection.

The model keeps the scripts' own steps:

- **Table** (`frame.dfy`, module `Frame`): a table is a `seq<Row>`; every
  column is an `Option` (`None` is pandas' NaN/NaT). `pd.to_datetime(...,
  errors='coerce')` is a parameter `parse: string -> Option<Date>`.
- **Cleaning** (analysis.py lines 56-76): `Cleaned` is the script's
  column-at-a-time program (drop rows missing a title or publish time, fill
  missing abstracts with `""`, parse dates, take the year, drop rows whose
  date did not parse, add the two word counts); `Clean` runs it step by step
  with one loop per column assignment (`AssignColumn`). `CleanedRowByRow`
  proves it equal to an independent row-at-a-time definition, from which
  `CleanedRows` derives the guarantees about every cleaned row.
- **Text** (`text.dfy`, module `Text`): `str.split()` word counts and the
  `\b\w+\b` tokenizer are both "maximal runs of one character class"
  (`Runs`). app.py's tokenizer uses the pattern `r"\\b\\w+\\b"`, which
  matches only literal backslash sequences; it is modelled as written
  (`LiteralMatches`, `AppTokenize`).
- **Counting** (`counting.dfy`, module `Counting`): `collections.Counter`
  as keys in insertion order plus a count map (`Counts`), `most_common(n)`
  as a stable sort by count followed by a prefix, the two stopword loops
  (`del` in analysis.py, `pop(w, None)` in app.py) as methods proved equal
  to `Without`, and `value_counts().sort_index()` on years as `Histogram`.
- **Summaries** (`analysis.dfy`, module `Analysis`): papers per year, top
  journals, and the 20 most common title words without stopwords.
- **Explorer** (`app.dfy`, module `App`): the year bounds of the slider, the
  inclusive range filter, the filtered summaries, and the word-cloud
  counter.

Behaviours of the code a reader might not expect:

- a reversed year range (`lo > hi`) is not an error in app.py line 25; it
  selects nothing (`App.ReversedRangeIsEmpty`);
- `dropna` removes only missing titles, so a whitespace-only title survives
  cleaning with a title word count of 0 (`Frame.WhitespaceTitleKept`), so
  a title word count of at least 1 is not guaranteed;
- an empty CSV field is read as NaN, which is why a scenario row
  with an empty title is modelled with a missing title
  (`Frame.CleanScenario`);
- summing the token lists of no titles gives the number 0, and
  `Counter(0)` raises; likewise `int(df['year'].min())` raises when no row
  has a year. These error paths are `None` (`Analysis.TitleCounter`,
  `App.WordCloudCounts`, `App.YearBounds`) instead of empty results.

## Model

| member | source | states |
|---|---|---|
| Text.Lower | analysis.py:98 | `text.lower()` keeps the length, lower-cases each character and leaves no upper-case letter |
| Text.LowerChar | analysis.py:98 | a lowered character is not upper-case, is a word character exactly when the original is, only upper-case letters change, and each becomes the lower-case letter 32 code points above it |
| Text.RunLength | analysis.py:75-76 | the longest class prefix: every character before it is in the class and the next one is not |
| Text.Runs | analysis.py:75-76 | the maximal runs of a character class behind `str.split()` and `\b\w+\b`; no contract of its own, characterised by `RunsInClass`, `RunsAppend`, `RunsSplit`, `RunsWhole`, `RunsEmptyIff` and `RunsFlatten` |
| Text.RunsInClass | analysis.py:98 | every run is non-empty, made of class characters taken from the text |
| Text.RunsAppend | analysis.py:75-76 | text that starts outside the class begins a fresh run: the runs of `a + t` are the runs of `a` then those of `t` |
| Text.RunsSplit | analysis.py:75-76 | a character outside the class separates runs: runs of `a + [c] + b` are the runs of `a` then those of `b` |
| Text.RunsWhole | analysis.py:75-76 | a non-empty text made only of class characters is one run |
| Text.RunsEmptyIff | analysis.py:75-76 | a text has no run exactly when none of its characters is in the class |
| Text.KeepAppend | analysis.py:98 | the class characters of `a + b` are those of `a` then those of `b` |
| Text.RunsFlatten | analysis.py:98 | no character is lost or invented: the runs concatenated are exactly the class characters of the text, in order |
| Text.WordCount | analysis.py:75-76 | `len(text.split())` is 0 exactly when the text is empty or all whitespace |
| Text.WordCountExamples | analysis.py:75-76 | `""` has 0 words and `"a b  c"` has 3 (repeated spaces collapse) |
| Text.RunsOfJoin | analysis.py:75-76 | non-empty class words, each ended by one character outside the class, are exactly the first runs, followed by the runs of what comes after |
| Text.WordCountOfJoin | analysis.py:75-76 | each non-space word followed by one whitespace character adds one to the word count of the rest |
| Text.ThreeWords | analysis.py:75-76 | any three non-empty non-space words separated by single spaces count as 3 words |
| Text.WordCountTitleExample | analysis.py:76 | `"Virus Spread Study"` has 3 words |
| Text.Tokenize | analysis.py:96-99 | every token is non-empty, lower-case, and made only of word characters |
| Text.LowerExample | analysis.py:98 | lowering `"COVID-19 is here!"` gives `"covid-19 is here!"` |
| Text.RunsExample | analysis.py:98 | the word runs of `"covid-19 is here!"` are `covid`, `19`, `is`, `here` |
| Text.TokenizeExample | analysis.py:96-99 | `"COVID-19 is here!"` tokenizes to `["covid", "19", "is", "here"]`: punctuation splits words and is dropped |
| Text.LeadingWs | app.py:54 | the run of `w` characters a text starts with: all `w`, and the next character is not |
| Text.LiteralMatchLength | app.py:54 | the length of the match at the start of a text: either 0 or a prefix that is a literal backslash-`b`-backslash, `w`s, backslash-`b`, and whenever some prefix matches, exactly that prefix's length |
| Text.LiteralMatches | app.py:54 | every match of app.py's pattern is such a literal string built from the text's characters |
| Text.LiteralMatchesSkip | app.py:54 | when no match starts at the first character, the scan moves on by one and finds what it finds in the rest; with `LiteralMatchesFindsFirst` this fixes every match found, once each and in order |
| Text.LiteralMatchesFindsFirst | app.py:54 | a match at the start of the text is found first, and the scan resumes right after it |
| Text.LiteralMatchesEmptyIff | app.py:54 | `re.findall` finds nothing exactly when no substring of the text matches |
| Text.AppTokenize | app.py:53-54 | every app.py token is a literal backslash match over the lowered text, and there is no token exactly when the lowered text contains no match; the tokens are the scan of the lowered text that `LiteralMatchesFindsFirst` and `LiteralMatchesSkip` fix step by step |
| Text.AppTokenizeOne | app.py:53-54 | a lower-case text that starts with a match and has no other backslash gives exactly that match |
| Text.AppTokenizeFindsLiteral | app.py:53-54 | the title backslash-`b`-backslash-`ww`-backslash-`b`-space-`end` gives backslash-`b`-backslash-`ww`-backslash-`b` as its one token |
| Text.LiteralMatchesNeedBackslash | app.py:54 | a text without a backslash has no match |
| Text.AppTokenizeNeedsBackslash | app.py:53-54 | app.py's tokenizer returns no token for any text without a backslash |
| Text.TokenizersDisagree | app.py:54 | on `"COVID-19 is here!"` analysis.py finds four tokens and app.py none |
| Frame.Assign | analysis.py:59-76 | one column assignment on one row (fillna, to_datetime, dt.year, the two word counts); no contract of its own, characterised by `EnrichedRow` and `AssignAll` |
| Frame.AssignAll | analysis.py:59-76 | assigning a column gives every row, and only that row, its new value; the table keeps its length |
| Frame.AssignColumn | analysis.py:59-76 | the loop over the rows assigns the column to each row in place, ending with the whole column assigned |
| Frame.AssignAllAppend | analysis.py:59-76 | column assignment works row by row: it distributes over concatenated tables |
| Frame.Select | analysis.py:56 | `dropna`/boolean masks keep an order-preserving subsequence: each selected row with its multiplicity, no other row |
| Frame.SelectAppend | analysis.py:72 | row selection distributes over concatenated tables |
| Frame.EnrichAll | analysis.py:59-76 | the row-at-a-time reference enriches every row in place of the original |
| Frame.EnrichedRow | analysis.py:59-76 | a surviving row keeps its source columns; a missing abstract becomes `""` and a present one is unchanged; the parsed date is the parser's answer, the year is its year, the word counts count the cleaned texts |
| Frame.Cleaned | analysis.py:56-76 | the cleaning pipeline, one column at a time; no contract of its own, characterised by `CleanedRowByRow`, `CleanedRows`, `CleanedOne` and `CleanedAppend` |
| Frame.CleanedOne | analysis.py:56-76 | a one-row table keeps its row, enriched, exactly when it has a title, a publish time and a date that parses |
| Frame.CleanedAppend | analysis.py:56-76 | cleaning two tables one after the other equals cleaning them together |
| Frame.CleanedRowByRow | analysis.py:56-76 | the script's column-at-a-time pipeline equals keeping exactly the surviving rows, in order, and enriching each |
| Frame.Clean | analysis.py:56-76 | the step-by-step run produces the pipeline's table, which is the row-at-a-time result |
| Frame.CleanedRows | analysis.py:56-76 | the cleaned table is no longer than the input, and every row has a title, a publish time, an abstract, a parsed date equal to the parser's answer, the year of that date and the word counts of its texts |
| Frame.WhitespaceTitleKept | analysis.py:56-76 | a whitespace-only title is not missing: its row survives with a title word count of 0 |
| Frame.CleanedNone | analysis.py:56-72 | a table none of whose rows has a title, a publish time and a parsable date cleans to the empty table |
| Frame.CleanedFirstOnly | analysis.py:56-72 | when only the first row survives, cleaning returns that row enriched |
| Frame.CleanScenario | analysis.py:56-76 | of a good row, a row without a title and a row with an unparsable date, only the first survives, with year 2020, abstract `""`, 0 abstract words and 3 title words |
| Frame.WordCountsIdempotent | analysis.py:75-76 | deriving the word counts a second time changes nothing |
| Frame.Years | analysis.py:83 | the year column without NaN: at most one value per row, one per row when all rows have a year, a value exactly when some row has that year, and each year as often as rows have it |
| Frame.YearsAppend | analysis.py:83 | the year column of two tables one after the other is their year columns one after the other (order is kept) |
| Frame.YearsOfRow | analysis.py:83 | one row gives its year, or nothing when the year is NaN |
| Frame.Journals | analysis.py:88 | the journal column without NaN: a value exactly when some row names that journal, each journal as often as rows name it |
| Frame.JournalsAppend | analysis.py:88 | the journal column of two tables one after the other is their journal columns one after the other |
| Frame.JournalsOfRow | analysis.py:88 | one row gives its journal, or nothing when the journal is NaN |
| Frame.Titles | analysis.py:102 | the title column without NaN: a value exactly when some row has that title, each title as often as rows have it |
| Frame.TitlesAppend | analysis.py:102 | the titles of two tables one after the other are their titles one after the other |
| Frame.TitlesOfRow | analysis.py:102 | one row gives its title, or nothing when the title is NaN |
| Counting.Add | analysis.py:103 | counting one more token raises its count by one, appends a new key at the end and leaves other keys alone |
| Counting.Tally | analysis.py:103 | `Counter(tokens)` has exactly the tokens as keys, each counted as often as it occurs (so at least once), each key listed once |
| Counting.FirstIndex | analysis.py:103 | the first position holding the value |
| Counting.FirstSeenStep | analysis.py:103 | appending a token keeps the first-occurrence order, and a new token comes after all earlier ones |
| Counting.TallyFirstSeen | analysis.py:103 | the counter's keys are in the order of their first occurrence in the tokens |
| Counting.SortByCount | analysis.py:110 | the stable sort by count behind `most_common`; no contract of its own, characterised by `SortByCountSorts` and `SortByCountStable` |
| Counting.InsertByCountPerm | analysis.py:110 | inserting by count adds exactly the one pair and loses none |
| Counting.ConsNonIncreasing | analysis.py:110 | a pair counting at least as much as every pair of a sorted list can be put in front of it |
| Counting.InsertByCountBounded | analysis.py:110 | inserting a pair keeps every count below a bound that the pair and the list respect |
| Counting.InsertByCountSorted | analysis.py:110 | inserting into a list sorted by count keeps it sorted |
| Counting.SortByCountSorts | analysis.py:110 | sorting by count is a permutation, largest count first |
| Counting.InsertByCountStable | analysis.py:110 | insertion places a pair in front of the pairs of equal count, so a pair that comes earlier in the input stays earlier |
| Counting.SortByCountStable | analysis.py:110 | pairs of equal count keep their relative order |
| Counting.Take | analysis.py:110 | the prefix of length `n`, or the whole list when it is shorter |
| Counting.SortedKeysDistinct | analysis.py:110 | the sorted items hold each key at most once |
| Counting.SortedItems | analysis.py:110 | the sorted items hold each key once with its count, largest first, and every key |
| Counting.PrefixDominates | analysis.py:110 | in a list sorted by count, a pair outside a prefix counts no more than any pair in it |
| Counting.PrefixTop | analysis.py:110 | the first `n` pairs of any list sorted by count that holds each key of the counter once, with its count, have the properties of `most_common` |
| Counting.TopOfSorted | analysis.py:110 | the prefix of the sorted items has the properties of `most_common` |
| Counting.MostCommon | analysis.py:110 | `most_common(n)` returns `min(n, keys)` pairs, largest count first, each key once with its count, and leaves a key out only when all `n` places hold keys counting at least as much |
| Counting.WithCountTake | analysis.py:110 | the pairs of a prefix with a given count are a prefix of the pairs of the whole list with that count |
| Counting.MostCommonTies | analysis.py:110 | ties come in the counter's insertion order: the returned pairs with count `v` are the first pairs with count `v` among the counter's items |
| Counting.Remove | analysis.py:106-108 | removing a set keeps exactly the other elements, in order, without creating repeats |
| Counting.Without | analysis.py:106-108 | the counter without a set of keys: the other keys keep their counts and their order |
| Counting.Delete | analysis.py:103-108 | `del c[k]` on a Counter removes exactly `k`, every other key keeping its count and its place in the order; an absent `k` leaves the counter unchanged, as Counter does without raising |
| Counting.Pop | app.py:59 | `pop(k, None)` removes `k` and returns its count, every other key keeping its count and its place in the order, or changes nothing and returns `None` when `k` is absent |
| Counting.RemoveNothing | analysis.py:106-108 | removing nothing changes nothing |
| Counting.RemoveMore | analysis.py:106-108 | removing one more element after a set is removing the larger set |
| Counting.RemoveAbsent | analysis.py:106-108 | removing an element that is absent or already removed changes nothing |
| Counting.WithoutNothing | analysis.py:106-108 | a counter without no keys is unchanged |
| Counting.WithoutOneMore | analysis.py:106-108 | one loop step, deleting a present stopword or skipping an absent one, removes one more element of the set |
| Counting.TopWithout | analysis.py:106-110 | the most common keys of a counter of some tokens after deleting a set: at most `n`, largest first, each once with its number of occurrences and outside the set; a token outside the set left out means all `n` places hold tokens at least as frequent |
| Counting.DeleteStopwords | analysis.py:106-108 | after the `del` loop no stopword is a key, every other key keeps its count, no key is added, and absent stopwords are skipped; the iteration order of the set does not matter |
| Counting.PopStopwords | app.py:58-59 | after the `pop` loop no stopword is a key, every other key keeps its count and no key is added; popping an absent word changes nothing |
| Counting.CountForAbsent | analysis.py:83 | a year without an entry has count 0 |
| Counting.BumpKeys | analysis.py:83 | counting one more year adds that year to the keys and no other |
| Counting.BumpAscending | analysis.py:83 | counting one more year keeps the years strictly ascending |
| Counting.BumpCountFor | analysis.py:83 | counting one more year raises that year's count by one and no other |
| Counting.BumpTotal | analysis.py:83 | counting one more year raises the total by one |
| Counting.BumpPositive | analysis.py:83 | every entry keeps a count of at least 1 |
| Counting.Histogram | analysis.py:83 | `value_counts().sort_index()` on the year column; no contract of its own, characterised by `HistogramAscending`, `HistogramKeys`, `HistogramCountFor`, `HistogramTotal` and `HistogramCounts` |
| Counting.HistogramAscending | analysis.py:83 | `value_counts().sort_index()` lists years strictly ascending, each with a count of at least 1 |
| Counting.HistogramKeys | analysis.py:83 | a year has an entry exactly when it occurs |
| Counting.HistogramCountFor | analysis.py:83 | each year's count is its number of occurrences |
| Counting.HistogramTotal | analysis.py:83 | the counts add up to the number of values |
| Counting.HistogramCounts | analysis.py:83 | one entry per distinct year, ascending, with its number of occurrences, counts summing to the number of values |
| Counting.HistogramExample | analysis.py:83 | no years give no entry; years 2020, 2020, 2021 give `[(2020, 2), (2021, 1)]` |
| Analysis.YearCounts | analysis.py:83 | papers per year: one ascending entry per year some row has, counting the rows of that year; rows without a year are not counted |
| Analysis.CleanedYearCountsTotal | analysis.py:83 | on the cleaned table the papers per year add up to the number of rows |
| Analysis.TopJournals | analysis.py:88 | at most `n` journals, most papers first, each once with its number of rows; a journal left out has no more papers than any listed one, and missing journals are not counted |
| Analysis.AllTokens | analysis.py:102 | a token occurs in the concatenation exactly when it is a token of some title |
| Analysis.AllTokensAppend | analysis.py:102 | the tokens of two title lists are the tokens of the first followed by those of the second |
| Analysis.AllTokensOfTitle | analysis.py:102 | the tokens of one title are what `re.findall` returns for it |
| Analysis.TitleTokensAreWords | analysis.py:96-102 | every title token is a non-empty lower-case run of word characters |
| Analysis.TitleCounter | analysis.py:102-103 | the title-token counter counts every token of every title by its occurrences; with no title the script raises (`None`) |
| Analysis.TopTitleWords | analysis.py:102-110 | at most `n` title words, most frequent first, each once with its number of occurrences, none a stopword; a non-stopword left out means all `n` places hold words at least as frequent |
| Analysis.MostCommonTitleWords | analysis.py:102-110 | the script's steps (count, delete stopwords one by one, `most_common(20)`) produce the 20 most common non-stopword title words |
| App.MinOf | app.py:21 | the smallest value, which occurs in the list |
| App.MaxOf | app.py:22 | the largest value, which occurs in the list |
| App.YearBounds | app.py:21-22 | the slider bounds are the smallest and largest year of any row, both attained; with no year at all the script raises (`None`) |
| App.Filtered | app.py:25 | the filter keeps exactly the rows with a year between `lo` and `hi`, both included, each with its multiplicity, in the original order |
| App.SelectEverything | app.py:25 | a filter that selects every row returns the table |
| App.DefaultRangeKeepsAll | app.py:21-25 | with the slider's initial range every row that has a year is kept, as often as it occurs, and only rows with a NaN year are dropped; when every row has a year the whole table is kept |
| App.DefaultRangeKeepsCleaned | app.py:21-25 | on a non-empty cleaned table the bounds exist and the initial range shows the whole table |
| App.ReversedRangeIsEmpty | app.py:25 | a range with `lo > hi` selects nothing, without an error |
| App.SingleYearRange | app.py:25 | a range of one year keeps exactly the rows of that year |
| App.FilteredTopJournals | app.py:42 | at most 10 journals of the filtered rows, most papers first, each counted over rows inside the range |
| App.FilteredYearCounts | app.py:32 | the filtered year histogram is ascending, its years lie in the range, and its counts add up to the number of filtered rows |
| App.WordCloudCounts | app.py:53-59 | the word-cloud counter counts every title token by its occurrences and has no stopword key; with no title the script raises (`None`) |
| App.AppWordCounts | app.py:53-59 | the script's steps (tokenize, count, pop each stopword) produce that counter with app.py's pattern |
| App.NoLiteralMatches | app.py:54-56 | titles without a backslash give no token at all with app.py's pattern |
| App.AppCountsAlwaysEmpty | app.py:53-59 | as written, the word-cloud counter of titles without a backslash is empty; the script never reads it |
| App.IntendedCountsKeepWords | app.py:53-59 | with analysis.py's tokenizer, every non-stopword word of a title is counted at least once |

## Left out

- Reading and writing CSV files (`pd.read_csv`, `to_csv`, `load_data` and
  its cache, analysis.py:12 and 155, app.py:8-15) are file I/O. The app is
  modelled on the rows analysis.py cleans; the CSV round trip, the re-parse
  of `publish_time_parsed` at app.py:12 and the columns the model does not
  use (authors, DOI and others) are not part of the model.
- The console exploration (analysis.py:16-52: `head`, `info`, `describe`,
  null counts, missing fractions) only prints.
- All plotting and the word clouds (analysis.py:116-149, app.py:33-64),
  including the `source_x` chart, render through foreign libraries;
  `filtered.head(10)` (app.py:29) is only displayed.
- Streamlit widgets are UI: the slider's chosen range is the pair of
  parameters `lo`, `hi` of `App.Filtered`.
- `pd.to_datetime` is the parameter `parse`; its rules, and pandas' choice
  of one date format for a whole column, are not modelled, so each value is
  parsed on its own.
- `Text.IsWordChar` and `Text.Lower` cover ASCII only; the Unicode meaning
  of `\w` and of `str.lower()` is not modelled.
- `if 'abstract' in df_clean.columns` (analysis.py:59) is taken to hold:
  every row has the abstract column.
- Analysis.TopJournals: pandas does not fix the order of journals with equal
  counts, so the contract states only the count order; the model's own tie
  order (first appearance) is not a claim about pandas.
- Counting.MostCommon: `n` is a natural number; the negative `n` that
  Python's `most_common` and pandas' `head` accept never occurs in the
  scripts (they use 10 and 20).
- The value returned by `counts.pop(w, None)` is discarded by app.py;
  `Counting.PopStopwords` drops it too.
- Counting.MostCommonTies: ties are stated relative to the counter's
  insertion order, and `Counting.TallyFirstSeen` states that this order is
  first occurrence; the two are not combined into one statement about the
  tokens.

## Findings

| source | as written | input that shows it | evidently intended | confidence | as-written member | corrected member |
|---|---|---|---|---|---|---|
| app.py:54 | `re.findall(r"\\b\\w+\\b", text.lower())`: in a raw string the pattern matches a literal backslash, `b`, backslash, `w`s, backslash, `b`, so ordinary titles give no token and the counter `counts` stays empty; `counts` is never read afterwards (the cloud at app.py:60 is generated from the joined titles), so nothing the app shows changes | the title `"COVID-19 is here!"` gives `[]` (analysis.py's tokenizer gives `["covid", "19", "is", "here"]`) | the word-boundary pattern `r"\b\w+\b"` of analysis.py:98 | high; not executed | App.AppCountsAlwaysEmpty | App.IntendedCountsKeepWords |
