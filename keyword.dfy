/**
 * Keyword search (`keyword_search`): a row matches when every lemma of the
 * query is a synonym (under `SYNONYM_DICT.get(pl, {pl})`) of some lemma of
 * the row's phrase.  Matching rows are reported as `(phrase_full, topics)`
 * in corpus order, one per matching row.
 */
module Keyword {
  import opened Text
  import opened Synonyms
  import opened Corpus

  /** A keyword hit: the tuple `(phrase_full, topics)`. */
  datatype Match = Match(phraseFull: string, topics: seq<string>)

  /** `[lemmatize_cached(w) for w in re.findall(r"\w+", preprocess(query))]` */
  function QueryLemmas(query: string, lemmatize: string -> string): (lemmas: seq<string>)
    ensures |lemmas| == |Words(Preprocess(query))|
  {
    var words := Words(Preprocess(query));
    seq(|words|, i requires 0 <= i < |words| => lemmatize(words[i]))
  }

  /** `any(ql in SYNONYM_DICT.get(pl, {pl}) for pl in phrase_lemmas)` */
  predicate Covered(table: SynonymTable, ql: string, phraseLemmas: set<string>) {
    exists pl :: pl in phraseLemmas && ql in Expand(table, pl)
  }

  /** The `all(...)` test of one row: every query lemma is covered by the row's lemmas. */
  predicate Matches(table: SynonymTable, queryLemmas: seq<string>, row: Row) {
    forall i :: 0 <= i < |queryLemmas| ==> Covered(table, queryLemmas[i], row.phraseLemmas)
  }

  function MatchOf(row: Row): (m: Match) {
    Match(row.phraseFull, row.topics)
  }

  /** The matches of the rows, in corpus order: what `matched` holds after the loop. */
  function KeywordResults(table: SynonymTable, queryLemmas: seq<string>, rows: seq<Row>): (matched: seq<Match>) {
    if rows == [] then []
    else
      var last := rows[|rows| - 1];
      KeywordResults(table, queryLemmas, rows[..|rows| - 1]) + (if Matches(table, queryLemmas, last) then [MatchOf(last)] else [])
  }

  /** `keyword_search(query, df)`: appends the hit of each matching row, in corpus order. */
  method KeywordSearch(query: string, rows: seq<Row>, table: SynonymTable, lemmatize: string -> string)
    returns (matched: seq<Match>)
    ensures matched == KeywordResults(table, QueryLemmas(query, lemmatize), rows)
  {
    var queryLemmas := QueryLemmas(query, lemmatize);
    matched := [];
    for i := 0 to |rows|
      invariant matched == KeywordResults(table, queryLemmas, rows[..i])
    {
      if Matches(table, queryLemmas, rows[i]) {
        matched := matched + [MatchOf(rows[i])];
      }
      assert rows[..i + 1][..i] == rows[..i];
    }
    assert rows[..|rows|] == rows;
  }

  /**
   * The results are exactly the hits of the matching rows: no more results
   * than rows, every result is the hit of a matching row, and every matching
   * row's hit is among the results.
   */
  lemma {:induction false} KeywordResultsSpec(table: SynonymTable, queryLemmas: seq<string>, rows: seq<Row>)
    ensures |KeywordResults(table, queryLemmas, rows)| <= |rows|
    ensures forall m :: m in KeywordResults(table, queryLemmas, rows) <==>
      exists i :: 0 <= i < |rows| && Matches(table, queryLemmas, rows[i]) && m == MatchOf(rows[i])
  {
    if rows != [] {
      var n := |rows| - 1;
      var init := rows[..n];
      KeywordResultsSpec(table, queryLemmas, init);
      forall m | (exists i :: 0 <= i < |rows| && Matches(table, queryLemmas, rows[i]) && m == MatchOf(rows[i]))
        ensures m in KeywordResults(table, queryLemmas, rows)
      {
        var i :| 0 <= i < |rows| && Matches(table, queryLemmas, rows[i]) && m == MatchOf(rows[i]);
        if i < n {
          assert init[i] == rows[i];
        }
      }
      forall m | m in KeywordResults(table, queryLemmas, rows)
        ensures exists i :: 0 <= i < |rows| && Matches(table, queryLemmas, rows[i]) && m == MatchOf(rows[i])
      {
        if m in KeywordResults(table, queryLemmas, init) {
          var i :| 0 <= i < |init| && Matches(table, queryLemmas, init[i]) && m == MatchOf(init[i]);
          assert init[i] == rows[i];
        }
      }
    }
  }

  /**
   * The search keeps corpus order and one hit per matching row, repeats
   * included: searching a concatenation of rows concatenates the results
   * (and `KeywordResultsSingle` gives the result for one row).
   */
  lemma {:induction false} KeywordResultsAppend(table: SynonymTable, queryLemmas: seq<string>, a: seq<Row>, b: seq<Row>)
    ensures KeywordResults(table, queryLemmas, a + b) == KeywordResults(table, queryLemmas, a) + KeywordResults(table, queryLemmas, b)
    decreases |b|
  {
    if b == [] {
      assert a + b == a;
    } else {
      var n := |b| - 1;
      KeywordResultsAppend(table, queryLemmas, a, b[..n]);
      LastRowOfAppend(table, queryLemmas, a, b);
      AppendThenSnoc(KeywordResults(table, queryLemmas, a + b), KeywordResults(table, queryLemmas, a + b[..n]),
        if Matches(table, queryLemmas, b[n]) then [MatchOf(b[n])] else [],
        KeywordResults(table, queryLemmas, a), KeywordResults(table, queryLemmas, b[..n]), KeywordResults(table, queryLemmas, b));
    }
  }

  lemma LastRowOfAppend(table: SynonymTable, queryLemmas: seq<string>, a: seq<Row>, b: seq<Row>)
    requires b != []
    ensures KeywordResults(table, queryLemmas, a + b)
         == KeywordResults(table, queryLemmas, a + b[..|b| - 1]) + (if Matches(table, queryLemmas, b[|b| - 1]) then [MatchOf(b[|b| - 1])] else [])
  {
    assert (a + b)[..|a + b| - 1] == a + b[..|b| - 1];
    assert (a + b)[|a + b| - 1] == b[|b| - 1];
  }

  lemma AppendThenSnoc<T>(whole: seq<T>, init: seq<T>, part: seq<T>, left: seq<T>, mid: seq<T>, right: seq<T>)
    requires whole == init + part && init == left + mid && right == mid + part
    ensures whole == left + right
  {
  }

  /** A single row yields its hit exactly when it matches. */
  lemma KeywordResultsSingle(table: SynonymTable, queryLemmas: seq<string>, row: Row)
    ensures KeywordResults(table, queryLemmas, [row]) == if Matches(table, queryLemmas, row) then [MatchOf(row)] else []
  {
    assert [row][..0] == [];
  }

  /** The hit of every row, in corpus order. */
  function AllMatches(rows: seq<Row>): (ms: seq<Match>)
    ensures |ms| == |rows|
  {
    seq(|rows|, i requires 0 <= i < |rows| => MatchOf(rows[i]))
  }

  /** With no query lemmas the `all(...)` is vacuously true, so every row is reported. */
  lemma {:induction false} NoQueryLemmasMatchesEveryRow(table: SynonymTable, rows: seq<Row>)
    ensures KeywordResults(table, [], rows) == AllMatches(rows)
  {
    if rows != [] {
      var n := |rows| - 1;
      NoQueryLemmasMatchesEveryRow(table, rows[..n]);
      assert AllMatches(rows) == AllMatches(rows[..n]) + [MatchOf(rows[n])];
    }
  }

  /** A query without any word character (an empty or punctuation-only query) returns every row. */
  lemma QueryWithoutWordsMatchesEveryRow(query: string, rows: seq<Row>, table: SynonymTable, lemmatize: string -> string)
    requires forall i :: 0 <= i < |query| ==> !IsWordChar(query[i])
    ensures KeywordResults(table, QueryLemmas(query, lemmatize), rows) == AllMatches(rows)
  {
    var p := Preprocess(query);
    PreprocessWordChars(query);
    assert forall j :: 0 <= j < |query| ==> !IsWordChar(Lower(query[j]));
    NoWordsIffNoWordChars(p);
    assert QueryLemmas(query, lemmatize) == [];
    NoQueryLemmasMatchesEveryRow(table, rows);
  }

  /** With the configured synonym table, a row whose lemmas include every query lemma matches. */
  lemma RowWithQueryLemmasMatches(groups: seq<seq<string>>, lemmatize: string -> string, queryLemmas: seq<string>, row: Row)
    requires forall i :: 0 <= i < |queryLemmas| ==> queryLemmas[i] in row.phraseLemmas
    ensures Matches(TableOf(groups, lemmatize), queryLemmas, row)
  {
    forall i | 0 <= i < |queryLemmas| ensures Covered(TableOf(groups, lemmatize), queryLemmas[i], row.phraseLemmas) {
      ExpandReflexive(groups, lemmatize, queryLemmas[i]);
    }
  }

  /**
   * With disjoint synonym groups, a query lemma is covered by a row that has
   * any lemma of the same group, even when the words share no text.
   */
  lemma SynonymCoversQueryLemma(groups: seq<seq<string>>, lemmatize: string -> string, g: nat, ql: string, pl: string, row: Row)
    requires GroupsDisjoint(groups, lemmatize)
    requires g < |groups| && ql in GroupLemmas(groups[g], lemmatize) && pl in GroupLemmas(groups[g], lemmatize)
    requires pl in row.phraseLemmas
    ensures Covered(TableOf(groups, lemmatize), ql, row.phraseLemmas)
  {
    SameGroupSynonyms(groups, lemmatize, g, ql, pl);
  }

  /** A row that matches a list of query lemmas matches every prefix of it. */
  lemma {:induction false} MatchesPrefix(table: SynonymTable, queryLemmas: seq<string>, k: nat, row: Row)
    requires k <= |queryLemmas|
    requires Matches(table, queryLemmas, row)
    ensures Matches(table, queryLemmas[..k], row)
  {
    forall i | 0 <= i < k ensures Covered(table, queryLemmas[..k][i], row.phraseLemmas) {
      assert queryLemmas[..k][i] == queryLemmas[i];
    }
  }

  /** Adding query words can only narrow the results: every hit for the longer query is a hit for its prefix. */
  lemma MoreQueryLemmasNarrowResults(table: SynonymTable, queryLemmas: seq<string>, k: nat, rows: seq<Row>)
    requires k <= |queryLemmas|
    ensures forall m :: m in KeywordResults(table, queryLemmas, rows) ==> m in KeywordResults(table, queryLemmas[..k], rows)
  {
    KeywordResultsSpec(table, queryLemmas, rows);
    KeywordResultsSpec(table, queryLemmas[..k], rows);
    forall m | m in KeywordResults(table, queryLemmas, rows)
      ensures m in KeywordResults(table, queryLemmas[..k], rows)
    {
      var i :| 0 <= i < |rows| && Matches(table, queryLemmas, rows[i]) && m == MatchOf(rows[i]);
      MatchesPrefix(table, queryLemmas, k, rows[i]);
    }
  }
}
