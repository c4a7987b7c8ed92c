/**
 * The summaries analysis.py computes from the cleaned table: papers per
 * year, the top journals, and the most frequent title words with the
 * stopwords deleted.
 */
module Analysis {
  import opened Wrappers
  import opened Frame
  import opened Counting
  import opened Text

  /** The words both scripts leave out of the title word counts. */
  const Stopwords: set<string> := {"the", "and", "of", "in", "to", "for", "on", "with", "a", "an"}

  /** `df['year'].value_counts().sort_index()`: one entry per year some row
      has, ascending, counting the rows with that year; rows without a year
      are not counted. */
  function YearCounts(rows: seq<Row>): (h: seq<(int, nat)>)
    ensures StrictlyAscending(h)
    ensures forall i :: 0 <= i < |h| ==> h[i].1 >= 1
    ensures forall y :: y in Keys(h) <==> exists r :: r in rows && r.year == Some(y)
    ensures forall y :: CountFor(h, y) == multiset(Years(rows))[y]
    ensures Total(h) == |Years(rows)|
  {
    HistogramCounts(Years(rows));
    Histogram(Years(rows))
  }

  /** On the cleaned table every row has a year, so the yearly counts add up
      to the number of rows. */
  lemma CleanedYearCountsTotal(df: seq<Row>, parse: DateParser)
    ensures Total(YearCounts(Cleaned(df, parse))) == |Cleaned(df, parse)|
  {
    CleanedRows(df, parse);
  }

  /** `df['journal'].value_counts().head(n)`: at most `n` journals, most
      papers first, each with the number of rows naming it; a journal left
      out has no more papers than any listed one. Missing journals are not
      counted. */
  function TopJournals(rows: seq<Row>, n: nat): (top: seq<(string, int)>)
    ensures |top| <= n
    ensures NonIncreasing(top)
    ensures forall i, j :: 0 <= i < j < |top| ==> top[i].0 != top[j].0
    ensures forall e :: e in top ==>
      (exists r :: r in rows && r.journal == Some(e.0)) && e.1 == multiset(Journals(rows))[e.0] >= 1
    ensures forall j :: j in Journals(rows) && (forall e :: e in top ==> e.0 != j) ==>
      |top| == n && forall e :: e in top ==> multiset(Journals(rows))[j] <= e.1
  {
    MostCommon(Tally(Journals(rows)), n)
  }

  /** The tokens of all titles, one title after the other: `map(tokenize)`
      followed by adding the lists up. */
  function AllTokens(p: Pattern, titles: seq<string>): (tokens: seq<string>)
    ensures forall t :: t in tokens <==> exists s :: s in titles && t in FindAll(p, s)
  {
    if titles == [] then []
    else
      assert forall s :: s in titles <==> s == titles[0] || s in titles[1..];
      FindAll(p, titles[0]) + AllTokens(p, titles[1..])
  }

  /** The tokens of two lists of titles are the tokens of the first list
      followed by those of the second, ... */
  lemma {:induction false} AllTokensAppend(p: Pattern, a: seq<string>, b: seq<string>)
    ensures AllTokens(p, a + b) == AllTokens(p, a) + AllTokens(p, b)
  {
    if a != [] {
      assert (a + b)[0] == a[0];
      assert (a + b)[1..] == a[1..] + b;
      AllTokensAppend(p, a[1..], b);
    } else {
      assert a + b == b;
    }
  }

  /** ... and the tokens of one title are what `re.findall` returns for it. */
  lemma AllTokensOfTitle(p: Pattern, s: string)
    ensures AllTokens(p, [s]) == FindAll(p, s)
  {
  }

  /** Every title token of analysis.py is a non-empty, lower-case run of word
      characters. */
  lemma {:induction false} TitleTokensAreWords(titles: seq<string>)
    ensures forall t :: t in AllTokens(WordBoundary, titles) ==>
      t != [] && forall c :: c in t ==> IsWordChar(c) && !IsUpper(c)
  {
    if titles != [] {
      TitleTokensAreWords(titles[1..]);
      var first := Tokenize(titles[0]);
      assert AllTokens(WordBoundary, titles) == first + AllTokens(WordBoundary, titles[1..]);
    }
  }

  /** `Counter(df['title'].dropna().map(tokenize).sum())`. With no title the
      sum is the number 0 and `Counter(0)` raises, modelled as `None`. */
  function TitleCounter(rows: seq<Row>, p: Pattern): (c: Option<Counts<string>>)
    ensures c.None? <==> Titles(rows) == []
    ensures c.Some? ==> var tokens := AllTokens(p, Titles(rows));
      && Valid(c.value)
      && (forall w :: w in c.value.count <==> w in tokens)
      && (forall w :: w in c.value.count ==> c.value.count[w] == multiset(tokens)[w])
  {
    if Titles(rows) == [] then None else Some(Tally(AllTokens(p, Titles(rows))))
  }

  /** analysis.py lines 102-110 as a value: the `n` most frequent title
      words that are not stopwords, each with its number of occurrences. */
  function TopTitleWords(rows: seq<Row>, n: nat): (top: Option<seq<(string, int)>>)
    ensures top.None? <==> Titles(rows) == []
    ensures top.Some? ==> var tokens, words := AllTokens(WordBoundary, Titles(rows)), top.value;
      && |words| <= n
      && NonIncreasing(words)
      && (forall i, j :: 0 <= i < j < |words| ==> words[i].0 != words[j].0)
      && (forall e :: e in words ==> e.0 in tokens && e.0 !in Stopwords && e.1 == multiset(tokens)[e.0])
      && (forall w :: w in tokens && w !in Stopwords && (forall e :: e in words ==> e.0 != w) ==>
            |words| == n && forall e :: e in words ==> multiset(tokens)[w] <= e.1)
  {
    if Titles(rows) == [] then None
    else
      var tokens := AllTokens(WordBoundary, Titles(rows));
      TopWithout(Tally(tokens), tokens, Stopwords, n);
      Some(MostCommon(Without(Tally(tokens), Stopwords), n))
  }

  /** analysis.py lines 102-110: count the title tokens, delete the stopwords
      one by one, keep the 20 most common. */
  method MostCommonTitleWords(dfClean: seq<Row>) returns (mostCommonTitle: Option<seq<(string, int)>>)
    ensures mostCommonTitle == TopTitleWords(dfClean, 20)
  {
    var titleWordCounts := TitleCounter(dfClean, WordBoundary);
    if titleWordCounts.None? {
      return None;
    }
    var counts := DeleteStopwords(titleWordCounts.value, Stopwords);
    mostCommonTitle := Some(MostCommon(counts, 20));
  }
}
