/**
 * Building the phrase table: one worksheet is turned into rows by
 * `load_excel` (topic aggregation, explosion into slash variants,
 * normalisation and lemma sets), and `load_all_excels` concatenates the
 * sources that loaded, skipping those that failed.
 *
 * The download and the spreadsheet parser are not modelled: a source is
 * given as the `Response` that fetching its URL produced.
 */
module Corpus {
  import opened Wrappers
  import opened Text
  import opened Variants

  /** One row of the table `load_excel` returns. */
  datatype Row = Row(
    phrase: string,
    phraseProc: string,
    phraseFull: string,
    phraseLemmas: set<string>,
    topics: seq<string>)

  /** A worksheet as `pd.read_excel` reads it, every cell already converted by `astype(str)`. */
  datatype Sheet = Sheet(columns: seq<string>, rows: seq<seq<string>>)

  /** What fetching one source URL produced: an HTTP status and, if the body is a workbook, its sheet. */
  datatype Response = ConnectionFailed | Response(status: int, workbook: Option<Sheet>)

  /** Each exception that makes a source fail. */
  datatype LoadError =
    | ConnectionError       // `requests.get` raised
    | BadStatus(code: int)  // status other than 200
    | UnreadableWorkbook    // `pd.read_excel` raised
    | NoTopicColumns        // no column whose name starts with "topics"
    | NoPhraseColumn        // `df['phrase']` raised KeyError
    | NoSourceLoaded        // every source failed

  /** The cell in column `i`; a missing cell reads as pandas' NaN, which `astype(str)` turns into "nan". */
  function Cell(cells: seq<string>, i: nat): (v: string) {
    if i < |cells| then cells[i] else "nan"
  }

  /** `col.lower().startswith("topics")` */
  predicate IsTopicColumn(name: string) {
    var lowered := LowerAll(name);
    |lowered| >= 6 && lowered[..6] == "topics"
  }

  /** `[col for col in df.columns if col.lower().startswith("topics")]`, as column positions. */
  function TopicColumns(columns: seq<string>): (cols: seq<nat>)
    ensures forall k :: 0 <= k < |cols| ==> cols[k] < |columns| && IsTopicColumn(columns[cols[k]])
    ensures forall i :: 0 <= i < |columns| && IsTopicColumn(columns[i]) ==> i in cols
    ensures forall k, m :: 0 <= k < m < |cols| ==> cols[k] < cols[m]
  {
    if columns == [] then []
    else
      var n := |columns| - 1;
      assert forall i :: 0 <= i < n ==> columns[..n][i] == columns[i];
      TopicColumns(columns[..n]) + (if IsTopicColumn(columns[n]) then [n] else [])
  }

  /** A topic value that `load_excel` keeps: non-empty and not "nan". */
  predicate IsTopicValue(v: string) {
    v != "" && v != "nan"
  }

  /** `[v for v in row[topic_cols] if v and v != 'nan']` */
  function RowTopics(cells: seq<string>, cols: seq<nat>): (topics: seq<string>) {
    if cols == [] then []
    else
      var v := Cell(cells, cols[0]);
      (if IsTopicValue(v) then [v] else []) + RowTopics(cells, cols[1..])
  }

  /** The kept topics are exactly the non-empty, non-"nan" values of the topic columns. */
  lemma {:induction false} RowTopicsMembers(cells: seq<string>, cols: seq<nat>)
    ensures forall t :: t in RowTopics(cells, cols) ==> IsTopicValue(t)
    ensures forall t :: t in RowTopics(cells, cols) <==> exists c :: c in cols && IsTopicValue(Cell(cells, c)) && t == Cell(cells, c)
  {
    if cols != [] {
      RowTopicsMembers(cells, cols[1..]);
      assert cols == [cols[0]] + cols[1..];
      forall t | (exists c :: c in cols && IsTopicValue(Cell(cells, c)) && t == Cell(cells, c))
        ensures t in RowTopics(cells, cols)
      {
        var c :| c in cols && IsTopicValue(Cell(cells, c)) && t == Cell(cells, c);
        if c != cols[0] {
          assert c in cols[1..];
        }
      }
    }
  }

  /** Position of the first column with the given name; pandas renames later duplicates. */
  function ColumnIndex(columns: seq<string>, name: string): (r: Option<nat>)
    ensures r.None? <==> name !in columns
    ensures r.Some? ==> r.value < |columns| && columns[r.value] == name && name !in columns[..r.value]
  {
    if columns == [] then None
    else if columns[0] == name then Some(0)
    else
      match ColumnIndex(columns[1..], name)
      case None => None
      case Some(i) =>
        assert columns[..i + 1] == [columns[0]] + columns[1..][..i];
        Some(i + 1)
  }

  /** One prepared row for one variant `part` of the source phrase `full`. */
  function VariantRow(part: string, full: string, topics: seq<string>, lemmatize: string -> string): (row: Row) {
    var proc := Preprocess(part);
    Row(part, proc, full, LemmasOf(proc, lemmatize), topics)
  }

  /** The rows one source row explodes into: one per `split_by_slash` variant, in order. */
  function ExplodeRow(cells: seq<string>, phraseCol: nat, topicCols: seq<nat>, lemmatize: string -> string): (exploded: seq<Row>) {
    var full := Cell(cells, phraseCol);
    var topics := RowTopics(cells, topicCols);
    var parts := SplitBySlash(full);
    seq(|parts|, k requires 0 <= k < |parts| => VariantRow(parts[k], full, topics, lemmatize))
  }

  /**
   * A source row explodes into one row per `split_by_slash` variant, in
   * order, each carrying the source phrase as `phraseFull` and the row's topics.
   */
  lemma ExplodeRowShape(cells: seq<string>, phraseCol: nat, topicCols: seq<nat>, lemmatize: string -> string)
    ensures var rows := ExplodeRow(cells, phraseCol, topicCols, lemmatize);
      && |rows| == |SplitBySlash(Cell(cells, phraseCol))|
      && forall k :: 0 <= k < |rows| ==>
        && rows[k].phrase == SplitBySlash(Cell(cells, phraseCol))[k]
        && rows[k].phraseFull == Cell(cells, phraseCol)
        && rows[k].topics == RowTopics(cells, topicCols)
  {
  }

  /** The exploded rows of a whole sheet, source rows in order. */
  function PrepareRows(rows: seq<seq<string>>, phraseCol: nat, topicCols: seq<nat>, lemmatize: string -> string): (prepared: seq<Row>) {
    if rows == [] then []
    else ExplodeRow(rows[0], phraseCol, topicCols, lemmatize) + PrepareRows(rows[1..], phraseCol, topicCols, lemmatize)
  }

  /** `load_excel(url)`, after the download: each failure it raises, or the prepared rows. */
  function LoadExcel(response: Response, lemmatize: string -> string): (r: Result<seq<Row>, LoadError>) {
    match response
    case ConnectionFailed => Err(ConnectionError)
    case Response(status, workbook) =>
      if status != 200 then Err(BadStatus(status))
      else if workbook.None? then Err(UnreadableWorkbook)
      else
        var sheet := workbook.value;
        var topicCols := TopicColumns(sheet.columns);
        if topicCols == [] then Err(NoTopicColumns)
        else match ColumnIndex(sheet.columns, "phrase")
          case None => Err(NoPhraseColumn)
          case Some(phraseCol) => Ok(PrepareRows(sheet.rows, phraseCol, topicCols, lemmatize))
  }

  /**
   * What every prepared row satisfies: its processed text is the normalised
   * variant, its lemma set is derived from that text, its topics hold no empty
   * or "nan" value, and its variant is one of `split_by_slash` of its full phrase.
   */
  ghost predicate WellFormedRow(row: Row, lemmatize: string -> string) {
    && row.phraseProc == Preprocess(row.phrase)
    && Normalized(row.phraseProc)
    && row.phraseLemmas == LemmasOf(row.phraseProc, lemmatize)
    && (forall t :: t in row.topics ==> IsTopicValue(t))
    && row.phrase in SplitBySlash(row.phraseFull)
  }

  /** Preparing a sheet distributes over splitting its rows. */
  lemma {:induction false} PrepareRowsAppend(a: seq<seq<string>>, b: seq<seq<string>>, phraseCol: nat, topicCols: seq<nat>, lemmatize: string -> string)
    ensures PrepareRows(a + b, phraseCol, topicCols, lemmatize)
         == PrepareRows(a, phraseCol, topicCols, lemmatize) + PrepareRows(b, phraseCol, topicCols, lemmatize)
  {
    if a == [] {
      assert a + b == b;
    } else {
      assert (a + b)[0] == a[0] && (a + b)[1..] == a[1..] + b;
      PrepareRowsAppend(a[1..], b, phraseCol, topicCols, lemmatize);
    }
  }

  /** Every row a source row explodes into is well formed. */
  lemma ExplodeRowWellFormed(cells: seq<string>, phraseCol: nat, topicCols: seq<nat>, lemmatize: string -> string)
    ensures forall k :: 0 <= k < |ExplodeRow(cells, phraseCol, topicCols, lemmatize)| ==>
      WellFormedRow(ExplodeRow(cells, phraseCol, topicCols, lemmatize)[k], lemmatize)
  {
    var rows := ExplodeRow(cells, phraseCol, topicCols, lemmatize);
    RowTopicsMembers(cells, topicCols);
    forall k | 0 <= k < |rows| ensures WellFormedRow(rows[k], lemmatize) {
      PreprocessNormalized(rows[k].phrase);
    }
  }

  /** Where a prepared row comes from: a source row whose phrase and topics it carries. */
  ghost predicate FromSourceRow(row: Row, rows: seq<seq<string>>, phraseCol: nat, topicCols: seq<nat>) {
    exists i :: 0 <= i < |rows| && row.phraseFull == Cell(rows[i], phraseCol) && row.topics == RowTopics(rows[i], topicCols)
  }

  lemma FromSourceRowOfTail(r: Row, rows: seq<seq<string>>, phraseCol: nat, topicCols: seq<nat>)
    requires rows != [] && FromSourceRow(r, rows[1..], phraseCol, topicCols)
    ensures FromSourceRow(r, rows, phraseCol, topicCols)
  {
    var i :| 0 <= i < |rows[1..]| && r.phraseFull == Cell(rows[1..][i], phraseCol) && r.topics == RowTopics(rows[1..][i], topicCols);
    assert rows[1..][i] == rows[i + 1];
  }

  lemma ConcatWellFormed(head: seq<Row>, tail: seq<Row>, lemmatize: string -> string)
    requires forall k :: 0 <= k < |head| ==> WellFormedRow(head[k], lemmatize)
    requires forall k :: 0 <= k < |tail| ==> WellFormedRow(tail[k], lemmatize)
    ensures forall k :: 0 <= k < |head + tail| ==> WellFormedRow((head + tail)[k], lemmatize)
  {
    forall k | |head| <= k < |head + tail| ensures WellFormedRow((head + tail)[k], lemmatize) {
      assert (head + tail)[k] == tail[k - |head|];
    }
  }

  /** Every prepared row is well formed. */
  lemma {:induction false} PrepareRowsWellFormed(rows: seq<seq<string>>, phraseCol: nat, topicCols: seq<nat>, lemmatize: string -> string)
    ensures forall k :: 0 <= k < |PrepareRows(rows, phraseCol, topicCols, lemmatize)| ==>
      WellFormedRow(PrepareRows(rows, phraseCol, topicCols, lemmatize)[k], lemmatize)
  {
    if rows != [] {
      var head := ExplodeRow(rows[0], phraseCol, topicCols, lemmatize);
      var tail := PrepareRows(rows[1..], phraseCol, topicCols, lemmatize);
      assert PrepareRows(rows, phraseCol, topicCols, lemmatize) == head + tail;
      PrepareRowsWellFormed(rows[1..], phraseCol, topicCols, lemmatize);
      ExplodeRowWellFormed(rows[0], phraseCol, topicCols, lemmatize);
      ConcatWellFormed(head, tail, lemmatize);
    }
  }

  lemma ConcatFromSource(head: seq<Row>, tail: seq<Row>, rows: seq<seq<string>>, phraseCol: nat, topicCols: seq<nat>)
    requires rows != []
    requires forall k :: 0 <= k < |head| ==> FromSourceRow(head[k], rows, phraseCol, topicCols)
    requires forall k :: 0 <= k < |tail| ==> FromSourceRow(tail[k], rows[1..], phraseCol, topicCols)
    ensures forall k :: 0 <= k < |head + tail| ==> FromSourceRow((head + tail)[k], rows, phraseCol, topicCols)
  {
    forall k | |head| <= k < |head + tail| ensures FromSourceRow((head + tail)[k], rows, phraseCol, topicCols) {
      assert (head + tail)[k] == tail[k - |head|];
      FromSourceRowOfTail(tail[k - |head|], rows, phraseCol, topicCols);
    }
  }

  /** The rows the first source row explodes into, at least one, come from it. */
  lemma ExplodeFirstRow(rows: seq<seq<string>>, phraseCol: nat, topicCols: seq<nat>, lemmatize: string -> string)
    requires rows != []
    ensures |ExplodeRow(rows[0], phraseCol, topicCols, lemmatize)| >= 1
    ensures forall k :: 0 <= k < |ExplodeRow(rows[0], phraseCol, topicCols, lemmatize)| ==>
      FromSourceRow(ExplodeRow(rows[0], phraseCol, topicCols, lemmatize)[k], rows, phraseCol, topicCols)
  {
    ExplodeRowShape(rows[0], phraseCol, topicCols, lemmatize);
  }

  /**
   * Every source row yields at least one prepared row, and each prepared row
   * comes from some source row, whose phrase it carries as `phraseFull` and
   * whose topics it carries unchanged.
   */
  lemma {:induction false} PrepareRowsFromSource(rows: seq<seq<string>>, phraseCol: nat, topicCols: seq<nat>, lemmatize: string -> string)
    ensures |PrepareRows(rows, phraseCol, topicCols, lemmatize)| >= |rows|
    ensures forall k :: 0 <= k < |PrepareRows(rows, phraseCol, topicCols, lemmatize)| ==>
      FromSourceRow(PrepareRows(rows, phraseCol, topicCols, lemmatize)[k], rows, phraseCol, topicCols)
  {
    if rows != [] {
      var head := ExplodeRow(rows[0], phraseCol, topicCols, lemmatize);
      var tail := PrepareRows(rows[1..], phraseCol, topicCols, lemmatize);
      assert PrepareRows(rows, phraseCol, topicCols, lemmatize) == head + tail;
      PrepareRowsFromSource(rows[1..], phraseCol, topicCols, lemmatize);
      ExplodeFirstRow(rows, phraseCol, topicCols, lemmatize);
      ConcatFromSource(head, tail, rows, phraseCol, topicCols);
    }
  }

  /**
   * `load_excel` succeeds exactly when the download answered 200 with a
   * readable workbook that has a topic column and a "phrase" column.  A bad
   * status is reported with its code.  On success the rows are the prepared
   * source rows: every source row yields at least one row, and every row is
   * well formed and carries the phrase and topics of one source row.
   */
  lemma LoadExcelSpec(response: Response, lemmatize: string -> string)
    ensures var r := LoadExcel(response, lemmatize);
      r.Ok? <==>
        && response.Response? && response.status == 200 && response.workbook.Some?
        && (exists i :: 0 <= i < |response.workbook.value.columns| && IsTopicColumn(response.workbook.value.columns[i]))
        && "phrase" in response.workbook.value.columns
    ensures var r := LoadExcel(response, lemmatize);
      r.Err? && r.error.BadStatus? ==> response.Response? && r.error.code == response.status != 200
    ensures var r := LoadExcel(response, lemmatize);
      r.Ok? ==>
        && |r.value| >= |response.workbook.value.rows|
        && forall k :: 0 <= k < |r.value| ==> WellFormedRow(r.value[k], lemmatize)
    ensures var r := LoadExcel(response, lemmatize);
      r.Ok? ==>
        var sheet := response.workbook.value;
        var phraseCol := ColumnIndex(sheet.columns, "phrase").value;
        && r.value == PrepareRows(sheet.rows, phraseCol, TopicColumns(sheet.columns), lemmatize)
        && forall k :: 0 <= k < |r.value| ==> FromSourceRow(r.value[k], sheet.rows, phraseCol, TopicColumns(sheet.columns))
  {
    if response.Response? && response.status == 200 && response.workbook.Some? {
      var sheet := response.workbook.value;
      var topicCols := TopicColumns(sheet.columns);
      if exists i :: 0 <= i < |sheet.columns| && IsTopicColumn(sheet.columns[i]) {
        var i :| 0 <= i < |sheet.columns| && IsTopicColumn(sheet.columns[i]);
        assert i in topicCols;
      }
      match ColumnIndex(sheet.columns, "phrase")
      case None =>
      case Some(phraseCol) =>
        PrepareRowsWellFormed(sheet.rows, phraseCol, topicCols, lemmatize);
        PrepareRowsFromSource(sheet.rows, phraseCol, topicCols, lemmatize);
    }
  }

  /** `GITHUB_CSV_URLS`: the workbooks loaded at start-up, in this order. */
  const SourceUrls: seq<string> := [
    "https://raw.githubusercontent.com/skatzrskx/razmetka/main/data4.xlsx",
    "https://raw.githubusercontent.com/skatzrskx/razmetka/main/data21.xlsx",
    "https://raw.githubusercontent.com/skatzrskx/razmetka/main/data31.xlsx"
  ]

  /** The outcome of `load_excel` for each configured source, in order. */
  function Outcomes(urls: seq<string>, fetch: string -> Response, lemmatize: string -> string): (outs: seq<Result<seq<Row>, LoadError>>)
    ensures |outs| == |urls|
  {
    seq(|urls|, i requires 0 <= i < |urls| => LoadExcel(fetch(urls[i]), lemmatize))
  }

  /** The tables of the sources that loaded (`dfs`), in order. */
  function Loaded(outs: seq<Result<seq<Row>, LoadError>>): (dfs: seq<seq<Row>>) {
    if outs == [] then []
    else (if outs[0].Ok? then [outs[0].value] else []) + Loaded(outs[1..])
  }

  /** Every source failed. */
  predicate AllFailed(outs: seq<Result<seq<Row>, LoadError>>) {
    forall i :: 0 <= i < |outs| ==> outs[i].Err?
  }

  lemma {:induction false} LoadedEmptyIffAllFailed(outs: seq<Result<seq<Row>, LoadError>>)
    ensures Loaded(outs) == [] <==> AllFailed(outs)
  {
    if outs != [] {
      LoadedEmptyIffAllFailed(outs[1..]);
      assert forall i :: 1 <= i < |outs| ==> outs[i] == outs[1..][i - 1];
    }
  }

  lemma {:induction false} LoadedAppend(a: seq<Result<seq<Row>, LoadError>>, b: seq<Result<seq<Row>, LoadError>>)
    ensures Loaded(a + b) == Loaded(a) + Loaded(b)
  {
    if a == [] {
      assert a + b == b;
    } else {
      assert (a + b)[0] == a[0] && (a + b)[1..] == a[1..] + b;
      LoadedAppend(a[1..], b);
    }
  }

  /**
   * `load_all_excels()`: tries every source of `GITHUB_CSV_URLS` in order, keeps the tables of
   * those that loaded, fails only when none did, and otherwise returns their
   * rows concatenated in source order.
   */
  method LoadAllExcels(fetch: string -> Response, lemmatize: string -> string)
    returns (result: Result<seq<Row>, LoadError>)
    ensures result.Err? <==> AllFailed(Outcomes(SourceUrls, fetch, lemmatize))
    ensures result.Err? ==> result.error == NoSourceLoaded
    ensures result.Ok? ==> result.value == Flatten(Loaded(Outcomes(SourceUrls, fetch, lemmatize)))
  {
    var urls := SourceUrls;
    ghost var outs := Outcomes(urls, fetch, lemmatize);
    var dfs: seq<seq<Row>> := [];
    for i := 0 to |urls|
      invariant dfs == Loaded(outs[..i])
    {
      var outcome := LoadExcel(fetch(urls[i]), lemmatize);
      LoadedAppend(outs[..i], [outs[i]]);
      assert outs[..i + 1] == outs[..i] + [outs[i]];
      if outcome.Ok? {
        dfs := dfs + [outcome.value];
      }
    }
    assert outs[..|urls|] == outs;
    LoadedEmptyIffAllFailed(outs);
    if dfs == [] {
      result := Err(NoSourceLoaded);
    } else {
      result := Ok(Flatten(dfs));
    }
  }

  /**
   * A failing source removes exactly its own rows: the others' rows are
   * loaded unchanged and in the same order around the gap.
   */
  lemma FailingSourceRemovesOnlyItsRows(outs: seq<Result<seq<Row>, LoadError>>, i: nat, e: LoadError)
    requires i < |outs|
    ensures Flatten(Loaded(outs))
         == Flatten(Loaded(outs[..i])) + (if outs[i].Ok? then outs[i].value else []) + Flatten(Loaded(outs[i + 1..]))
    ensures Flatten(Loaded(outs[i := Err(e)]))
         == Flatten(Loaded(outs[..i])) + Flatten(Loaded(outs[i + 1..]))
  {
    var failed := outs[i := Err(e)];
    assert outs == outs[..i] + [outs[i]] + outs[i + 1..];
    assert failed == outs[..i] + [Err(e)] + outs[i + 1..];
    LoadedAppend(outs[..i] + [outs[i]], outs[i + 1..]);
    LoadedAppend(outs[..i], [outs[i]]);
    LoadedAppend(outs[..i] + [Err(e)], outs[i + 1..]);
    LoadedAppend(outs[..i], [Err(e)]);
    var single := Loaded([outs[i]]);
    assert [outs[i]][1..] == [];
    FlattenAppend(Loaded(outs[..i]) + single, Loaded(outs[i + 1..]));
    FlattenAppend(Loaded(outs[..i]), single);
    var gap: seq<Result<seq<Row>, LoadError>> := [Err(e)];
    assert gap[1..] == [];
    assert Loaded(gap) == [];
    assert Loaded(outs[..i]) + [] == Loaded(outs[..i]);
    FlattenAppend(Loaded(outs[..i]), Loaded(outs[i + 1..]));
  }
}
