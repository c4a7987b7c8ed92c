/**
 * The metadata table of analysis.py and app.py and the cleaning pipeline of
 * analysis.py (lines 56-76).
 *
 * A table is a sequence of rows; every column may be missing (`None` stands
 * for pandas' NaN/NaT). The cleaning pipeline is the column-at-a-time program
 * the script runs: drop rows, assign a new column to every row, drop rows
 * again, assign more columns. `Cleaned` is that program as a function and
 * `Clean` runs it step by step; `CleanedRowByRow` proves it equal to an
 * independent row-at-a-time definition (keep the rows that survive, enrich
 * each one), from which the guarantees about the cleaned table follow.
 */
module Frame {
  import opened Wrappers
  import opened Seqs
  import Text

  /** A timestamp produced by `pd.to_datetime`; only its calendar date is kept. */
  datatype Date = Date(year: int, month: int, day: int)

  /** `pd.to_datetime(value, errors='coerce')` on one value; `None` is NaT.
      The parser's rules are not modelled: it is a parameter of the model. */
  type DateParser = string -> Option<Date>

  /** One row of the metadata table. The first five columns come from the
      CSV file; the other four are added by the cleaning pipeline. */
  datatype Row = Row(
    title: Option<string>,
    abstractText: Option<string>,
    publishTime: Option<string>,
    journal: Option<string>,
    source: Option<string>,
    publishTimeParsed: Option<Date>,
    year: Option<int>,
    abstractWordCount: Option<nat>,
    titleWordCount: Option<nat>)

  /** A row as loaded from metadata.csv: the derived columns do not exist yet. */
  function RawRow(title: Option<string>, abstractText: Option<string>, publishTime: Option<string>,
                  journal: Option<string>, source: Option<string>): Row
  {
    Row(title, abstractText, publishTime, journal, source, None, None, None, None)
  }

  // ----- Column assignment: `df_clean[col] = <expression over the row>` -----

  /** The columns the pipeline assigns, in the order it assigns them. */
  datatype Column = Abstract | PublishTimeParsed | Year | AbstractWordCount | TitleWordCount

  /** The value one row receives when the pipeline assigns `col`. */
  function Assign(col: Column, r: Row, parse: DateParser): Row {
    match col
    // fillna(""): a missing abstract becomes the empty string
    case Abstract => r.(abstractText := Some(r.abstractText.GetOr("")))
    // pd.to_datetime(..., errors='coerce'): NaN and unparsable text become NaT
    case PublishTimeParsed =>
      r.(publishTimeParsed := if r.publishTime.Some? then parse(r.publishTime.value) else None)
    // .dt.year: NaT gives NaN
    case Year =>
      r.(year := if r.publishTimeParsed.Some? then Some(r.publishTimeParsed.value.year) else None)
    // .str.split().apply(len). A missing text would give NaN and `len` would
    // raise; the case does not arise after fillna (abstract) and dropna
    // (title), and None stands for it here
    case AbstractWordCount =>
      r.(abstractWordCount := if r.abstractText.Some? then Some(Text.WordCount(r.abstractText.value)) else None)
    case TitleWordCount =>
      r.(titleWordCount := if r.title.Some? then Some(Text.WordCount(r.title.value)) else None)
  }

  /** Column `col` assigned on every row. */
  function AssignAll(col: Column, rows: seq<Row>, parse: DateParser): (out: seq<Row>)
    ensures |out| == |rows|
    ensures forall i :: 0 <= i < |rows| ==> out[i] == Assign(col, rows[i], parse)
  {
    if rows == [] then [] else [Assign(col, rows[0], parse)] + AssignAll(col, rows[1..], parse)
  }

  /** `df[col] = ...`: the loop over the rows that assigns one column in place. */
  method AssignColumn(col: Column, rows: seq<Row>, parse: DateParser) returns (out: seq<Row>)
    ensures out == AssignAll(col, rows, parse)
  {
    out := rows;
    for i := 0 to |rows|
      invariant |out| == |rows|
      invariant forall k :: 0 <= k < i ==> out[k] == Assign(col, rows[k], parse)
      invariant forall k :: i <= k < |rows| ==> out[k] == rows[k]
    {
      out := out[i := Assign(col, out[i], parse)];
    }
  }

  lemma {:induction false} AssignAllAppend(col: Column, a: seq<Row>, b: seq<Row>, parse: DateParser)
    ensures AssignAll(col, a + b, parse) == AssignAll(col, a, parse) + AssignAll(col, b, parse)
  {
  }

  // ----- Row selection: `dropna(subset=...)` and boolean masks -----

  /** The row predicates the scripts filter by. */
  datatype Subset =
    | TitleAndPublishTime      // dropna(subset=['title', 'publish_time'])
    | ParsedDate               // dropna(subset=['publish_time_parsed'])
    | YearBetween(lo: int, hi: int)  // (df['year'] >= lo) & (df['year'] <= hi)
    | Survivor(parse: DateParser)    // the rows cleaning keeps (row-at-a-time reference)

  predicate Selects(sub: Subset, r: Row) {
    match sub
    case TitleAndPublishTime => r.title.Some? && r.publishTime.Some?
    case ParsedDate => r.publishTimeParsed.Some?
    // a comparison with NaN is False, so a row without a year is never selected
    case YearBetween(lo, hi) => r.year.Some? && lo <= r.year.value && r.year.value <= hi
    case Survivor(parse) =>
      r.title.Some? && r.publishTime.Some? && parse(r.publishTime.value).Some?
  }

  /** The rows of `rows` that `sub` selects, in their original order: every
      selected row with its multiplicity, no other row. */
  function Select(sub: Subset, rows: seq<Row>): (out: seq<Row>)
    ensures |out| <= |rows|
    ensures IsSubsequence(out, rows)
    ensures forall r :: multiset(out)[r] == if Selects(sub, r) then multiset(rows)[r] else 0
    ensures forall r :: r in out <==> r in rows && Selects(sub, r)
  {
    if rows == [] then []
    else
      var rest := Select(sub, rows[1..]);
      assert rows == [rows[0]] + rows[1..];
      if Selects(sub, rows[0]) then
        assert ([rows[0]] + rest)[1..] == rest;
        [rows[0]] + rest
      else
        assert rest != [] ==> IsSubsequence(rest, rows[1..]);
        rest
  }

  lemma {:induction false} SelectAppend(sub: Subset, a: seq<Row>, b: seq<Row>)
    ensures Select(sub, a + b) == Select(sub, a) + Select(sub, b)
    decreases |a|
  {
    if a == [] {
      assert a + b == b;
    } else {
      assert (a + b)[1..] == a[1..] + b;
      SelectAppend(sub, a[1..], b);
    }
  }

  // ----- The cleaning pipeline -----

  /** analysis.py lines 56-76, column at a time, as the script runs them. */
  function Cleaned(df: seq<Row>, parse: DateParser): seq<Row> {
    var present := Select(TitleAndPublishTime, df);
    var filled := AssignAll(Abstract, present, parse);
    var parsed := AssignAll(PublishTimeParsed, filled, parse);
    var dated := AssignAll(Year, parsed, parse);
    var kept := Select(ParsedDate, dated);
    AssignAll(TitleWordCount, AssignAll(AbstractWordCount, kept, parse), parse)
  }

  /** Everything the pipeline assigns, applied to one row. */
  function Enrich(r: Row, parse: DateParser): Row {
    var filled := Assign(Abstract, r, parse);
    var dated := Assign(Year, Assign(PublishTimeParsed, filled, parse), parse);
    Assign(TitleWordCount, Assign(AbstractWordCount, dated, parse), parse)
  }

  function EnrichAll(rows: seq<Row>, parse: DateParser): (out: seq<Row>)
    ensures |out| == |rows|
    ensures forall i :: 0 <= i < |rows| ==> out[i] == Enrich(rows[i], parse)
  {
    if rows == [] then [] else [Enrich(rows[0], parse)] + EnrichAll(rows[1..], parse)
  }

  /** A surviving row keeps its source columns; a missing abstract becomes ""
      and a present one is unchanged; the parsed date is the parser's answer
      and the year is its year; the word counts count the cleaned texts. */
  lemma EnrichedRow(r: Row, parse: DateParser)
    requires Selects(Survivor(parse), r)
    ensures var e := Enrich(r, parse);
      && e.title == r.title && e.publishTime == r.publishTime
      && e.journal == r.journal && e.source == r.source
      && (r.abstractText.None? ==> e.abstractText == Some(""))
      && (r.abstractText.Some? ==> e.abstractText == r.abstractText)
      && e.publishTimeParsed == parse(r.publishTime.value)
      && e.year == Some(parse(r.publishTime.value).value.year)
      && e.abstractWordCount == Some(Text.WordCount(e.abstractText.value))
      && e.titleWordCount == Some(Text.WordCount(r.title.value))
  {
  }

  lemma CleanedOne(x: Row, parse: DateParser)
    ensures Cleaned([x], parse) == if Selects(Survivor(parse), x) then [Enrich(x, parse)] else []
  {
    var present := Select(TitleAndPublishTime, [x]);
    if Selects(TitleAndPublishTime, x) {
      assert present == [x];
      var dated := AssignAll(Year, AssignAll(PublishTimeParsed, AssignAll(Abstract, present, parse), parse), parse);
      var y := Assign(Year, Assign(PublishTimeParsed, Assign(Abstract, x, parse), parse), parse);
      assert dated == [y];
      assert Select(ParsedDate, dated) == if Selects(Survivor(parse), x) then [y] else [];
    } else {
      assert present == [];
    }
  }

  lemma {:induction false} CleanedAppend(a: seq<Row>, b: seq<Row>, parse: DateParser)
    ensures Cleaned(a + b, parse) == Cleaned(a, parse) + Cleaned(b, parse)
  {
    SelectAppend(TitleAndPublishTime, a, b);
    var pa, pb := Select(TitleAndPublishTime, a), Select(TitleAndPublishTime, b);
    AssignAllAppend(Abstract, pa, pb, parse);
    var fa, fb := AssignAll(Abstract, pa, parse), AssignAll(Abstract, pb, parse);
    AssignAllAppend(PublishTimeParsed, fa, fb, parse);
    var qa, qb := AssignAll(PublishTimeParsed, fa, parse), AssignAll(PublishTimeParsed, fb, parse);
    AssignAllAppend(Year, qa, qb, parse);
    var da, db := AssignAll(Year, qa, parse), AssignAll(Year, qb, parse);
    SelectAppend(ParsedDate, da, db);
    var ka, kb := Select(ParsedDate, da), Select(ParsedDate, db);
    AssignAllAppend(AbstractWordCount, ka, kb, parse);
    var wa, wb := AssignAll(AbstractWordCount, ka, parse), AssignAll(AbstractWordCount, kb, parse);
    AssignAllAppend(TitleWordCount, wa, wb, parse);
  }

  /** The column-at-a-time pipeline equals the row-at-a-time reference: keep
      exactly the rows with a title, a publish time and a date that parses,
      in their order, and enrich each of them. */
  lemma {:induction false} CleanedRowByRow(df: seq<Row>, parse: DateParser)
    ensures Cleaned(df, parse) == EnrichAll(Select(Survivor(parse), df), parse)
    decreases |df|
  {
    if df != [] {
      var x, rest := df[0], df[1..];
      assert df == [x] + rest;
      CleanedAppend([x], rest, parse);
      CleanedOne(x, parse);
      CleanedRowByRow(rest, parse);
      var kept := Select(Survivor(parse), rest);
      if Selects(Survivor(parse), x) {
        assert EnrichAll([x] + kept, parse) == [Enrich(x, parse)] + EnrichAll(kept, parse);
      }
    }
  }

  /** analysis.py lines 56-76, run step by step: drop, assign three columns,
      drop, assign the two word counts. */
  method Clean(df: seq<Row>, parse: DateParser) returns (clean: seq<Row>)
    ensures clean == Cleaned(df, parse)
    ensures clean == EnrichAll(Select(Survivor(parse), df), parse)
  {
    clean := Select(TitleAndPublishTime, df);
    clean := AssignColumn(Abstract, clean, parse);
    clean := AssignColumn(PublishTimeParsed, clean, parse);
    clean := AssignColumn(Year, clean, parse);
    clean := Select(ParsedDate, clean);
    clean := AssignColumn(AbstractWordCount, clean, parse);
    clean := AssignColumn(TitleWordCount, clean, parse);
    CleanedRowByRow(df, parse);
  }

  /** Every row of the cleaned table has a title, a publish time that parsed,
      an abstract (possibly empty), the year of its parsed date and the word
      counts of its texts; the table is no longer than the input. */
  lemma CleanedRows(df: seq<Row>, parse: DateParser)
    ensures |Cleaned(df, parse)| <= |df|
    ensures forall r :: r in Cleaned(df, parse) ==>
      && r.title.Some? && r.publishTime.Some? && r.abstractText.Some?
      && r.publishTimeParsed.Some? && r.publishTimeParsed == parse(r.publishTime.value)
      && r.year == Some(r.publishTimeParsed.value.year)
      && r.abstractWordCount == Some(Text.WordCount(r.abstractText.value))
      && r.titleWordCount == Some(Text.WordCount(r.title.value))
  {
    CleanedRowByRow(df, parse);
    var kept := Select(Survivor(parse), df);
    forall r | r in Cleaned(df, parse)
      ensures r.title.Some? && r.publishTime.Some? && r.abstractText.Some?
      ensures r.publishTimeParsed.Some? && r.publishTimeParsed == parse(r.publishTime.value)
      ensures r.year == Some(r.publishTimeParsed.value.year)
      ensures r.abstractWordCount == Some(Text.WordCount(r.abstractText.value))
      ensures r.titleWordCount == Some(Text.WordCount(r.title.value))
    {
      var k :| 0 <= k < |kept| && r == Enrich(kept[k], parse);
      assert kept[k] in kept;
      EnrichedRow(kept[k], parse);
    }
  }

  /** A title made of whitespace only is not missing: a row with such a title
      and a date that parses survives cleaning, with a title word count of 0. */
  lemma WhitespaceTitleKept(r: Row, parse: DateParser)
    requires r.title.Some? && forall c :: c in r.title.value ==> Text.IsSpace(c)
    requires r.publishTime.Some? && parse(r.publishTime.value).Some?
    ensures Cleaned([r], parse) == [Enrich(r, parse)]
    ensures Enrich(r, parse).titleWordCount == Some(0)
  {
    CleanedOne(r, parse);
    EnrichedRow(r, parse);
  }

  /** A table in which no row survives cleans to the empty table. */
  lemma CleanedNone(df: seq<Row>, parse: DateParser)
    requires forall r :: r in df ==> !Selects(Survivor(parse), r)
    ensures Cleaned(df, parse) == []
  {
    CleanedRowByRow(df, parse);
    var kept := Select(Survivor(parse), df);
    assert multiset(kept) == multiset{};
    assert |kept| == |multiset(kept)|;
  }

  /** When only the first row survives, cleaning keeps just that row, enriched. */
  lemma CleanedFirstOnly(x: Row, rest: seq<Row>, parse: DateParser)
    requires Selects(Survivor(parse), x)
    requires forall r :: r in rest ==> !Selects(Survivor(parse), r)
    ensures Cleaned([x] + rest, parse) == [Enrich(x, parse)]
  {
    CleanedAppend([x], rest, parse);
    CleanedOne(x, parse);
    CleanedNone(rest, parse);
  }

  /** Three raw rows: a good one with no abstract, one without a title (an
      empty CSV field is read as NaN) and one whose date does not parse. Only
      the first survives, with year 2020, no abstract words and three title
      words. */
  lemma CleanScenario(r1: Row, r2: Row, r3: Row, parse: DateParser)
    requires parse("2020-03-01") == Some(Date(2020, 3, 1))
    requires parse("not-a-date") == None
    requires r1 == RawRow(Some("Virus Spread Study"), None, Some("2020-03-01"), Some("J1"), None)
    requires r2 == RawRow(None, None, Some("2021-01-01"), None, None)
    requires r3 == RawRow(Some("Another Paper"), None, Some("not-a-date"), None, None)
    ensures var clean := Cleaned([r1, r2, r3], parse);
      && |clean| == 1
      && clean[0].title == Some("Virus Spread Study")
      && clean[0].year == Some(2020)
      && clean[0].abstractText == Some("")
      && clean[0].abstractWordCount == Some(0)
      && clean[0].titleWordCount == Some(3)
  {
    assert [r1, r2, r3] == [r1] + [r2, r3];
    CleanedFirstOnly(r1, [r2, r3], parse);
    EnrichedRow(r1, parse);
    Text.WordCountTitleExample(r1.title.value);
    Text.WordCountExamples("a b  c");
  }

  /** Re-deriving the word counts of an already enriched table changes nothing. */
  lemma {:induction false} WordCountsIdempotent(rows: seq<Row>, parse: DateParser)
    ensures var once := AssignAll(TitleWordCount, AssignAll(AbstractWordCount, rows, parse), parse);
      AssignAll(TitleWordCount, AssignAll(AbstractWordCount, once, parse), parse) == once
  {
    var once := AssignAll(TitleWordCount, AssignAll(AbstractWordCount, rows, parse), parse);
    var twice := AssignAll(TitleWordCount, AssignAll(AbstractWordCount, once, parse), parse);
    forall i | 0 <= i < |rows| ensures twice[i] == once[i] {
    }
  }

  // ----- Column projections used by the summaries -----

  /** `df['year']` without its NaN values. */
  function Years(rows: seq<Row>): (ys: seq<int>)
    ensures |ys| <= |rows|
    ensures (forall r :: r in rows ==> r.year.Some?) ==> |ys| == |rows|
    ensures forall y :: y in ys <==> exists r :: r in rows && r.year == Some(y)
    ensures forall y :: multiset(ys)[y] == |Select(YearBetween(y, y), rows)|
  {
    if rows == [] then []
    else
      var rest := Years(rows[1..]);
      assert forall r :: r in rows <==> r == rows[0] || r in rows[1..];
      if rows[0].year.Some? then [rows[0].year.value] + rest else rest
  }

  /** The number of rows whose journal is `j`. */
  function RowsNaming(rows: seq<Row>, j: string): nat {
    if rows == [] then 0 else (if rows[0].journal == Some(j) then 1 else 0) + RowsNaming(rows[1..], j)
  }

  /** `df['journal']` without its NaN values: each journal as often as rows
      name it. */
  function Journals(rows: seq<Row>): (js: seq<string>)
    ensures |js| <= |rows|
    ensures forall j :: j in js <==> exists r :: r in rows && r.journal == Some(j)
    ensures forall j :: multiset(js)[j] == RowsNaming(rows, j)
  {
    if rows == [] then []
    else
      var rest := Journals(rows[1..]);
      assert forall r :: r in rows <==> r == rows[0] || r in rows[1..];
      if rows[0].journal.Some? then [rows[0].journal.value] + rest else rest
  }

  /** The number of rows whose title is `t`. */
  function RowsTitled(rows: seq<Row>, t: string): nat {
    if rows == [] then 0 else (if rows[0].title == Some(t) then 1 else 0) + RowsTitled(rows[1..], t)
  }

  /** `df['title'].dropna()`: each title as often as rows have it. */
  function Titles(rows: seq<Row>): (ts: seq<string>)
    ensures |ts| <= |rows|
    ensures forall t :: t in ts <==> exists r :: r in rows && r.title == Some(t)
    ensures forall t :: multiset(ts)[t] == RowsTitled(rows, t)
  {
    if rows == [] then []
    else
      var rest := Titles(rows[1..]);
      assert forall r :: r in rows <==> r == rows[0] || r in rows[1..];
      if rows[0].title.Some? then [rows[0].title.value] + rest else rest
  }

  /** The projections go row by row: a table split in two projects to the
      two projections one after the other, ... */
  lemma {:induction false} YearsAppend(a: seq<Row>, b: seq<Row>)
    ensures Years(a + b) == Years(a) + Years(b)
  {
    if a != [] {
      assert (a + b)[1..] == a[1..] + b;
      YearsAppend(a[1..], b);
    } else {
      assert a + b == b;
    }
  }

  /** ... and one row projects to its value, or to nothing when it is NaN. */
  lemma YearsOfRow(r: Row)
    ensures Years([r]) == if r.year.Some? then [r.year.value] else []
  {
  }

  lemma {:induction false} JournalsAppend(a: seq<Row>, b: seq<Row>)
    ensures Journals(a + b) == Journals(a) + Journals(b)
  {
    if a != [] {
      assert (a + b)[1..] == a[1..] + b;
      JournalsAppend(a[1..], b);
    } else {
      assert a + b == b;
    }
  }

  lemma JournalsOfRow(r: Row)
    ensures Journals([r]) == if r.journal.Some? then [r.journal.value] else []
  {
  }

  lemma {:induction false} TitlesAppend(a: seq<Row>, b: seq<Row>)
    ensures Titles(a + b) == Titles(a) + Titles(b)
  {
    if a != [] {
      assert (a + b)[1..] == a[1..] + b;
      TitlesAppend(a[1..], b);
    } else {
      assert a + b == b;
    }
  }

  lemma TitlesOfRow(r: Row)
    ensures Titles([r]) == if r.title.Some? then [r.title.value] else []
  {
  }
}
