/**
 * The Streamlit explorer of app.py without its widgets and plots: the year
 * bounds offered by the slider, the inclusive year-range filter, the
 * summaries of the filtered rows, and the title word counts it builds for
 * the word cloud. The slider's chosen range is a pair of parameters.
 */
module App {
  import opened Wrappers
  import opened Seqs
  import opened Frame
  import opened Counting
  import opened Text
  import opened Analysis

  function MinOf(xs: seq<int>): (m: int)
    requires xs != []
    ensures m in xs && forall x :: x in xs ==> m <= x
  {
    if |xs| == 1 then xs[0]
    else
      var rest := MinOf(xs[1..]);
      assert forall x :: x in xs <==> x == xs[0] || x in xs[1..];
      if xs[0] <= rest then xs[0] else rest
  }

  function MaxOf(xs: seq<int>): (m: int)
    requires xs != []
    ensures m in xs && forall x :: x in xs ==> x <= m
  {
    if |xs| == 1 then xs[0]
    else
      var rest := MaxOf(xs[1..]);
      assert forall x :: x in xs <==> x == xs[0] || x in xs[1..];
      if xs[0] >= rest then xs[0] else rest
  }

  /** app.py lines 21-22: `int(df['year'].min())` and `int(df['year'].max())`,
      the smallest and largest year of any row. With no year at all both are
      NaN and `int` raises, modelled as `None`. */
  function YearBounds(rows: seq<Row>): (b: Option<(int, int)>)
    ensures b.None? <==> forall r :: r in rows ==> r.year.None?
    ensures b.Some? ==>
      && (exists r :: r in rows && r.year == Some(b.value.0))
      && (exists r :: r in rows && r.year == Some(b.value.1))
      && forall r :: r in rows && r.year.Some? ==> b.value.0 <= r.year.value <= b.value.1
  {
    var ys := Years(rows);
    if ys == [] then
      assert forall r :: r in rows && r.year.Some? ==> r.year.value in ys;
      None
    else
      Some((MinOf(ys), MaxOf(ys)))
  }

  /** app.py line 25: the rows whose year lies between `lo` and `hi`, both
      included, in their original order. A row without a year compares
      false and is dropped; `lo > hi` is not an error. */
  function Filtered(rows: seq<Row>, lo: int, hi: int): (out: seq<Row>)
    ensures IsSubsequence(out, rows)
    ensures forall r :: r in out <==> r in rows && r.year.Some? && lo <= r.year.value <= hi
    ensures forall r :: multiset(out)[r] == (if r.year.Some? && lo <= r.year.value <= hi then multiset(rows)[r] else 0)
  {
    Select(YearBetween(lo, hi), rows)
  }

  lemma SelectEverything(sub: Subset, rows: seq<Row>)
    requires forall r :: r in rows ==> Selects(sub, r)
    ensures Select(sub, rows) == rows
  {
    var out := Select(sub, rows);
    assert multiset(out) == multiset(rows);
    assert |out| == |multiset(out)| == |multiset(rows)| == |rows|;
    SubsequenceSameLength(out, rows);
  }

  /** The slider's initial range `(min_year, max_year)` keeps every row that
      has a year, as often as it occurs, and drops only the rows whose year is
      NaN; when every row has a year it keeps the whole table. */
  lemma DefaultRangeKeepsAll(rows: seq<Row>)
    ensures var b := YearBounds(rows);
      b.Some? ==> forall r :: r in rows && r.year.Some? ==> r in Filtered(rows, b.value.0, b.value.1)
    ensures var b := YearBounds(rows);
      b.Some? ==> forall r :: multiset(Filtered(rows, b.value.0, b.value.1))[r]
                            == (if r.year.Some? then multiset(rows)[r] else 0)
    ensures var b := YearBounds(rows);
      b.Some? && (forall r :: r in rows ==> r.year.Some?) ==> Filtered(rows, b.value.0, b.value.1) == rows
  {
    var b := YearBounds(rows);
    if b.Some? {
      if forall r :: r in rows ==> r.year.Some? {
        SelectEverything(YearBetween(b.value.0, b.value.1), rows);
      }
    }
  }

  /** On the table analysis.py cleans, the bounds exist as soon as one row
      survives, and the default range shows the whole table. */
  lemma DefaultRangeKeepsCleaned(df: seq<Row>, parse: DateParser)
    ensures var t := Cleaned(df, parse);
      t != [] ==> YearBounds(t).Some? && Filtered(t, YearBounds(t).value.0, YearBounds(t).value.1) == t
  {
    var t := Cleaned(df, parse);
    CleanedRows(df, parse);
    DefaultRangeKeepsAll(t);
    if t != [] {
      assert t[0] in t;
    }
  }

  /** A reversed range selects nothing, without raising. */
  lemma ReversedRangeIsEmpty(rows: seq<Row>, lo: int, hi: int)
    requires lo > hi
    ensures Filtered(rows, lo, hi) == []
  {
    var out := Filtered(rows, lo, hi);
    assert multiset(out) == multiset{};
    assert |out| == |multiset(out)|;
  }

  /** A range of one year keeps exactly the rows of that year. */
  lemma SingleYearRange(rows: seq<Row>, y: int)
    ensures forall r :: r in Filtered(rows, y, y) <==> r in rows && r.year == Some(y)
  {
  }

  /** app.py line 42: the top journals of the filtered rows, at most 10, most
      papers first, each counted over the rows inside the range only. */
  lemma FilteredTopJournals(rows: seq<Row>, lo: int, hi: int)
    ensures var out := Filtered(rows, lo, hi); var top := TopJournals(out, 10);
      && |top| <= 10
      && NonIncreasing(top)
      && forall e :: e in top ==>
           && e.1 == multiset(Journals(out))[e.0] >= 1
           && exists r :: r in rows && r.journal == Some(e.0) && r.year.Some? && lo <= r.year.value <= hi
  {
  }

  /** app.py line 32: the year histogram of the filtered rows has its years
      inside the range, ascending, and counts every filtered row once. */
  lemma FilteredYearCounts(rows: seq<Row>, lo: int, hi: int)
    ensures var h := YearCounts(Filtered(rows, lo, hi));
      && StrictlyAscending(h)
      && (forall y :: y in Keys(h) ==> lo <= y <= hi)
      && Total(h) == |Filtered(rows, lo, hi)|
  {
    var out := Filtered(rows, lo, hi);
    assert forall r :: r in out ==> r.year.Some?;
  }

  /** The title word counts app.py builds next to the word cloud (lines
      53-59): every token of a title counted, stopwords removed. As in
      analysis.py, no title at all makes `Counter(0)` raise, modelled as
      `None`. The script never reads these counts: the cloud itself (line 60)
      is generated from the joined titles. */
  function WordCloudCounts(rows: seq<Row>, p: Pattern): (counts: Option<Counts<string>>)
    ensures counts.None? <==> Titles(rows) == []
    ensures counts.Some? ==> var tokens := AllTokens(p, Titles(rows));
      && Valid(counts.value)
      && (forall w :: w in counts.value.count <==> w in tokens && w !in Stopwords)
      && (forall w :: w in counts.value.count ==> counts.value.count[w] == multiset(tokens)[w])
  {
    match TitleCounter(rows, p)
    case None => None
    case Some(c) => Some(Without(c, Stopwords))
  }

  /** app.py lines 53-59 as written: tokenize with the literal-backslash
      pattern, count, and pop every stopword. */
  method AppWordCounts(filtered: seq<Row>) returns (counts: Option<Counts<string>>)
    ensures counts == WordCloudCounts(filtered, LiteralBackslashWord)
  {
    var titleCounts := TitleCounter(filtered, LiteralBackslashWord);
    if titleCounts.None? {
      return None;
    }
    var c := PopStopwords(titleCounts.value, Stopwords);
    counts := Some(c);
  }

  lemma {:induction false} NoLiteralMatches(titles: seq<string>)
    requires forall t :: t in titles ==> '\\' !in t
    ensures AllTokens(LiteralBackslashWord, titles) == []
  {
    if titles != [] {
      assert titles[0] in titles;
      AppTokenizeNeedsBackslash(titles[0]);
      assert forall t :: t in titles[1..] ==> t in titles;
      NoLiteralMatches(titles[1..]);
    }
  }

  /** As written, the word-cloud counter of titles without a backslash has
      no key at all. */
  lemma AppCountsAlwaysEmpty(rows: seq<Row>)
    requires forall r :: r in rows && r.title.Some? ==> '\\' !in r.title.value
    ensures var counts := WordCloudCounts(rows, LiteralBackslashWord);
      counts.Some? ==> counts.value.count == map[]
  {
    var titles := Titles(rows);
    forall t | t in titles ensures '\\' !in t {
      var r :| r in rows && r.title == Some(t);
    }
    NoLiteralMatches(titles);
  }

  /** With the word tokenizer of analysis.py, every word of a filtered title
      that is not a stopword is counted. */
  lemma IntendedCountsKeepWords(rows: seq<Row>)
    ensures var counts := WordCloudCounts(rows, WordBoundary);
      forall r, w :: r in rows && r.title.Some? && w in Tokenize(r.title.value) && w !in Stopwords ==>
        counts.Some? && w in counts.value.count && counts.value.count[w] >= 1
  {
    var counts := WordCloudCounts(rows, WordBoundary);
    forall r, w | r in rows && r.title.Some? && w in Tokenize(r.title.value) && w !in Stopwords
      ensures counts.Some? && w in counts.value.count && counts.value.count[w] >= 1
    {
      assert r.title.value in Titles(rows);
      assert w in FindAll(WordBoundary, r.title.value);
    }
  }
}
