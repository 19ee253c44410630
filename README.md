# Phrase matcher core in Dafny

This project models the matching engine of a phrase-matching assistant for
support-style lookups. The engine lives in `utils.py`. The user types a
query and the assistant returns the curated phrases that match it, each with
its topic labels. The model covers these parts:

- **Text normalisation** (`preprocess`). The text is lower-cased and stripped,
  and every whitespace run becomes one space. Word tokens are the runs of `\w`
  characters. A text's lemma set is the set of the lemmas of its tokens.
- **Slash variants** (`split_by_slash`). A source phrase such as
  `"сим-карта / симка"` is split into its stripped, non-blank variants, with
  the whole phrase as the fallback. The model includes Python's `str.split`.
- **Synonym table** (`SYNONYM_GROUPS`, `SYNONYM_DICT`). Every lemma of a
  synonym group maps to the group's whole lemma set, and a lookup falls back to
  the lemma itself. The module-level fill loop is a method, proved against the
  table it builds.
- **Corpus loading** (`load_excel`, `load_all_excels`). A worksheet becomes
  rows. The topics are aggregated from every `topics*` column, and each
  source row is exploded into one row per slash variant, with normalised text
  and a lemma set. Every failure `load_excel` raises is a `LoadError` value.
  `load_all_excels` is a loop method that skips failing sources and fails only
  when all of them fail.
- **Keyword search** (`keyword_search`). A row matches when every query lemma
  lies in the synonym expansion of some lemma of the row. The method is proved
  against a specification function, and lemmas state which rows come out.
- **Semantic selection** (`semantic_search`, utils.py:99-103). The
  model takes one similarity score per row as input. It keeps the scores at or
  above the threshold and sorts them stably, highest first. Then it applies
  Python's `[:top_k]` slice. A kept score past the last row is the
  `IndexError` of `df.iloc`.
- **Topic filtering** (`filter_by_topics`). This is an order-preserving,
  shape-aware loop over result tuples, proved against a specification
  function.

Modules, one file each: `Wrappers` (Option, Result), `Text`, `Variants`,
`Synonyms`, `Corpus`, `Keyword`, `Semantic`, `Topics`.

Some parts call code that cannot be modelled here, and those parts take it as
a parameter instead:
- `lemmatize: string -> string` stands for pymorphy2's normal form.
  `lemmatize_cached` is the same function.
- `fetch: string -> Response` stands for `requests.get` followed by
  `pd.read_excel`.
- The similarity scores, `seq<real>`, stand for the embedding model's cosine
  similarities.

`utils.py` has no `comment` column, no raw-substring fallback in keyword
search, no de-duplication by `phrase_full`, and no special case for an empty
query. So a query without any word character returns every row
(`Keyword.QueryWithoutWordsMatchesEveryRow`), and every slash variant of a
phrase that matches yields its own hit (`Keyword.KeywordResultsAppend`).

## Model

| member | source | states |
|---|---|---|
| Text.IsSpace | utils.py:21 | the whitespace class of `str.strip()` and `\s`; `Lower` keeps it, and `CollapseSingleSpaced` and `StripSpec` are stated with it |
| Text.IsWordChar | utils.py:73 | the class `\w`; `Lower` keeps it, and `WordsAreWords`, `WordsCoverWordChars` and `WordsAround` are stated with it |
| Text.LowerAll | utils.py:20 | `str.lower()` character by character; described by `Lower`, `LowerIdempotent`, `PreprocessNormalized` and `PreprocessKeepsText` |
| Text.Strip | utils.py:20 | `str.strip()`; described by `StripSpec`, `StripIdempotent` and `NonSpaceStrip` |
| Text.Lower | utils.py:20 | lower-casing one character keeps whitespace as whitespace and word characters as word characters |
| Text.LowerIdempotent | utils.py:20 | a lower-cased character is unchanged by lower-casing again |
| Text.StripSpec | utils.py:20 | `strip()` returns a contiguous middle slice of the input whose cut-off prefix and suffix are all whitespace, with no edge whitespace left; it is empty exactly for all-whitespace input and leaves an already-stripped string unchanged |
| Text.StripIdempotent | utils.py:53 | stripping twice is stripping once |
| Text.Collapse | utils.py:21 | `re.sub(r"\s+", " ", s)` is empty exactly when `s` is, and starts or ends with whitespace exactly when `s` does |
| Text.CollapseSingleSpaced | utils.py:21 | after collapsing, every whitespace character is a plain space and no two are adjacent |
| Text.CollapseKeepsChars | utils.py:21 | every non-space character of the collapsed text occurs in the input |
| Text.CollapseFixesSingleSpaced | utils.py:21 | collapsing a single-spaced text changes nothing |
| Text.CollapseBlank | utils.py:21 | a non-empty whitespace run collapses to exactly one space |
| Text.CollapseAround | utils.py:21 | a non-whitespace character stays in place and splits the collapsing: `Collapse(a + [c] + b) == Collapse(a) + [c] + Collapse(b)`; with `CollapseBlank` this pins every run to one space |
| Text.NonSpaceMembers | utils.py:20-21 | the reference definition `NonSpace` keeps exactly the non-whitespace characters of its input |
| Text.NonSpaceStrip | utils.py:20 | stripping removes whitespace only: the non-whitespace characters survive in order |
| Text.NonSpaceCollapse | utils.py:21 | collapsing changes whitespace only: the non-whitespace characters survive in order |
| Text.Preprocess | utils.py:19-22 | `preprocess` as the composition lower-case, strip, collapse; its properties are the `Preprocess*` lemmas |
| Text.PreprocessNormalized | utils.py:19-22 | `preprocess` yields lower-case text with no edge whitespace and single spaces only |
| Text.PreprocessIdempotent | utils.py:19-22 | `preprocess(preprocess(t)) == preprocess(t)` |
| Text.PreprocessWordChars | utils.py:19-22 | every word character of `preprocess(t)` is the lower case of a character of `t` |
| Text.PreprocessKeepsText | utils.py:19-22 | the non-whitespace characters of `preprocess(t)` are exactly those of `t`, lower-cased, in order |
| Text.Flatten | utils.py:86 | the pieces joined end to end, for `pd.concat(dfs)` and for the tokens put back together; described by `FlattenAppend`, `WordsCoverWordChars` and `FailingSourceRemovesOnlyItsRows` |
| Text.FlattenAppend | utils.py:86 | joining distributes over concatenating the list of pieces |
| Text.Words | utils.py:73 | `re.findall(r"\w+", s)`: skip the non-word characters, take the longest word run, repeat; its properties are the `Words*` lemmas |
| Text.WordsAreWords | utils.py:73 | every token of `re.findall(r"\w+", s)` is a non-empty run of word characters |
| Text.WordsCoverWordChars | utils.py:107 | the tokens, concatenated in order, are exactly the word characters of the text |
| Text.NoWordsIffNoWordChars | utils.py:107 | there are no tokens exactly when the text has no word character |
| Text.WordsOfWord | utils.py:73 | a run of word characters is one token, itself: runs are never split |
| Text.WordsAround | utils.py:73 | a non-word character separates tokens: the tokens of `a + [c] + b` are those of `a` followed by those of `b`, so the tokens are the maximal runs |
| Text.LemmasOf | utils.py:72-74 | a text's lemma set is the set of the lemmas of its `\w+` tokens |
| Variants.SplitOn | utils.py:53 | `s.split(sep)` gives at least one piece and no piece contains `sep` |
| Variants.JoinSplit | utils.py:53 | joining the pieces of `s.split(sep)` with `sep` gives `s` back |
| Variants.NonEmptyOnlyMembers | utils.py:53 | the `if p.strip()` filter keeps exactly the non-empty strings |
| Variants.NonEmptyOnlyAppend | utils.py:53 | the filter keeps order and repeats: it distributes over concatenation and keeps a single string exactly when it is non-empty |
| Variants.SplitBySlash | utils.py:52-54 | `split_by_slash` never returns an empty list |
| Variants.SplitBySlashParts | utils.py:52-54 | when some piece is non-blank, the variants are the stripped pieces with the empty ones dropped, in source order with repeats kept; each is non-empty, stripped and free of `/` |
| Variants.SplitBySlashFallback | utils.py:54 | when every piece is blank, the result is `[phrase]` unchanged |
| Variants.SplitBySlashSingle | utils.py:52-54 | a phrase without `/` and with some text is one variant, its stripped self |
| Synonyms.BuildSynonymTable | utils.py:31-44 | the nested fill loop over `SYNONYM_GROUPS` produces exactly the table of the groups in order, a later group overwriting shared keys |
| Synonyms.TableOf | utils.py:40-44 | the table after registering the groups in order; its properties are `TableReflexive`, `TableKeys` and `TableLastGroupWins` |
| Synonyms.Expand | utils.py:114 | `SYNONYM_DICT.get(pl, {pl})`; reflexive by `ExpandReflexive` |
| Synonyms.TableReflexive | utils.py:40-44 | every key maps to a set that contains that key |
| Synonyms.ExpandReflexive | utils.py:114 | `pl in SYNONYM_DICT.get(pl, {pl})` for every lemma `pl` |
| Synonyms.TableKeys | utils.py:40-44 | the keys are exactly the lemmas of the configured groups |
| Synonyms.TableLastGroupWins | utils.py:41-44 | a lemma maps to the lemma set of the last group containing it |
| Synonyms.SameGroupSynonyms | utils.py:40-44 | with disjoint groups, two lemmas of one group have the same expansion, the group's lemma set, and each is in the other's expansion |
| Corpus.IsTopicColumn | utils.py:62 | a column name starting with "topics" once lower-cased; described by `TopicColumns` and `LoadExcelSpec` |
| Corpus.RowTopics | utils.py:66 | a row's topic list in column order; described by `RowTopicsMembers` |
| Corpus.TopicColumns | utils.py:62 | the topic columns are exactly the columns whose lower-cased name starts with "topics", in column order |
| Corpus.RowTopicsMembers | utils.py:66 | a row's topics are exactly its topic-column values that are neither empty nor "nan" |
| Corpus.ColumnIndex | utils.py:67 | the "phrase" lookup fails exactly when no column has that name, and otherwise finds its first column |
| Corpus.ExplodeRow | utils.py:66-74 | one source row as the rows it explodes into; described by `ExplodeRowShape` and `ExplodeRowWellFormed` |
| Corpus.PrepareRows | utils.py:66-74 | the exploded rows of a whole sheet, source rows in order; described by `PrepareRowsAppend`, `PrepareRowsWellFormed` and `PrepareRowsFromSource` |
| Corpus.LoadExcel | utils.py:56-75 | `load_excel` after the download, with each raise as a `LoadError`; described by `LoadExcelSpec` |
| Corpus.ExplodeRowShape | utils.py:67-70 | a source row explodes into one row per `split_by_slash` variant, in order, each with the source phrase as `phrase_full` and the row's topics |
| Corpus.ExplodeRowWellFormed | utils.py:66-74 | each exploded row has normalised `phrase_proc`, the lemma set of that text, valid topics, and a variant of its own `phrase_full` |
| Corpus.PrepareRowsAppend | utils.py:69 | exploding a sheet distributes over splitting its rows |
| Corpus.PrepareRowsWellFormed | utils.py:66-74 | every prepared row has normalised `phrase_proc`, the lemma set of that text, valid topics, and a variant of its own `phrase_full` |
| Corpus.PrepareRowsFromSource | utils.py:66-70 | the prepared table has at least one row per source row, and each row carries the phrase and topics of some source row |
| Corpus.LoadExcelSpec | utils.py:56-75 | `load_excel` succeeds exactly for status 200 with a readable workbook that has a topic column and a "phrase" column; a bad status keeps its code; on success the result is the prepared sheet, and every row is well formed and carries the phrase and topics of a source row |
| Corpus.Loaded | utils.py:78-85 | the tables of the sources that loaded, in source order; described by `LoadedEmptyIffAllFailed`, `LoadedAppend` and `LoadAllExcels` |
| Corpus.LoadedAppend | utils.py:79-82 | collecting the tables distributes over splitting the list of sources |
| Corpus.LoadedEmptyIffAllFailed | utils.py:78-85 | no table is collected exactly when every source failed |
| Corpus.LoadAllExcels | utils.py:77-86 | the loop over `GITHUB_CSV_URLS` fails, with its own error, exactly when every source failed, and otherwise returns the loaded tables concatenated in source order |
| Corpus.FailingSourceRemovesOnlyItsRows | utils.py:79-86 | a source that fails removes exactly its own rows, and the other sources' rows stay in order |
| Keyword.KeywordSearch | utils.py:105-118 | the method returns the hits of the matching rows in corpus order, as the specification function defines them |
| Keyword.QueryLemmas | utils.py:106-108 | the query's lemmas, one per `\w+` token of the preprocessed query, in order |
| Keyword.Covered | utils.py:114 | a query lemma is covered when it lies in the expansion of some row lemma; described by `RowWithQueryLemmasMatches` and `SynonymCoversQueryLemma` |
| Keyword.Matches | utils.py:113-116 | every query lemma is covered; described by `KeywordResultsSpec`, `MatchesPrefix` and `NoQueryLemmasMatchesEveryRow` |
| Keyword.KeywordResults | utils.py:110-118 | the hits the loop appends, in corpus order; described by `KeywordResultsAppend`, `KeywordResultsSingle` and `KeywordResultsSpec` |
| Keyword.KeywordResultsSpec | utils.py:110-118 | no more hits than rows, and a hit is returned exactly when it is the `(phrase_full, topics)` of a row in which every query lemma is covered |
| Keyword.KeywordResultsAppend | utils.py:110-118 | the search keeps corpus order and one hit per matching row, repeats included: it distributes over concatenating rows |
| Keyword.KeywordResultsSingle | utils.py:113-117 | a single row yields its `(phrase_full, topics)` exactly when it matches, and nothing otherwise |
| Keyword.NoQueryLemmasMatchesEveryRow | utils.py:113-116 | with no query lemmas, every row is returned, in order |
| Keyword.QueryWithoutWordsMatchesEveryRow | utils.py:106-117 | a query without any word character returns every row, in order |
| Keyword.RowWithQueryLemmasMatches | utils.py:113-116 | a row whose lemmas include every query lemma matches |
| Keyword.SynonymCoversQueryLemma | utils.py:114 | with disjoint groups, a row with a lemma of a query lemma's group covers that query lemma |
| Keyword.MatchesPrefix | utils.py:113-116 | a row that matches a list of query lemmas matches every prefix of it |
| Keyword.MoreQueryLemmasNarrowResults | utils.py:110-118 | every hit for a longer lemma list is a hit for its prefix |
| Semantic.KeptIndices | utils.py:99-102 | the kept positions are in range, score at least the threshold, and increase |
| Semantic.KeptIndicesComplete | utils.py:101 | every position scoring at least the threshold is kept |
| Semantic.Candidates | utils.py:99-102 | the comprehension over the scores; described by `CandidatesFail`, `CandidatesMembers` and `KeptIndices` |
| Semantic.CandidatesFail | utils.py:99-102 | the comprehension fails exactly when a score past the last row reaches the threshold |
| Semantic.CandidatesMembers | utils.py:99-102 | the candidates are exactly the hits, with their own scores, of the rows scoring at least the threshold |
| Semantic.SortByScore | utils.py:103 | the stable sort by score, highest first, as insertion; described by `SortByScoreMultiset`, `SortByScoreDescending` and `SortByScoreStable` |
| Semantic.SortByScoreMultiset | utils.py:103 | sorting is a permutation |
| Semantic.SortByScoreDescending | utils.py:103 | sorted scores never increase |
| Semantic.SortByScoreStable | utils.py:103 | the hits of any one score keep their input order |
| Semantic.SliceEnd | utils.py:103 | `[:top_k]` keeps at most `top_k` items for a non-negative `top_k`, and drops `-top_k` items from the end for a negative one |
| Semantic.SemanticSelectFails | utils.py:99-103 | the selection fails exactly when a score past the last row reaches the threshold |
| Semantic.SemanticSelect | utils.py:99-103 | the comprehension, the sort and the slice of `semantic_search`; described by the `SemanticSelect*` lemmas |
| Semantic.SemanticSelectBounds | utils.py:99-103 | every returned hit is a row's own hit scoring at least the threshold; scores never increase; exactly as many hits as `[:top_k]` keeps of the candidates |
| Semantic.SemanticSelectStable | utils.py:103 | the returned hits of any one score are a prefix of that score's candidates, which are in corpus order |
| Semantic.SemanticSelectKeepsBest | utils.py:103 | the result is drawn from the candidates, and each candidate left out scores no higher than any returned hit |
| Semantic.SemanticSelectUntruncated | utils.py:103 | when `top_k` is at least the number of candidates, all of them are returned |
| Topics.FilterByTopics | utils.py:120-134 | the loop returns the input itself for an empty selection, and otherwise the items the filter keeps, in order |
| Topics.TopicFilter | utils.py:120-134 | `filter_by_topics` as a value: the input for an empty selection, otherwise the kept items; described by the `Kept*` lemmas and `TopicFilterIdempotent` |
| Topics.Kept | utils.py:124-134 | the loop's keep-or-drop over the items; described by `KeptMembers`, `KeptAppend` and `KeptAllKept` |
| Topics.KeptMembers | utils.py:124-134 | an item is kept exactly when it is a 3- or 2-tuple of the input whose topics meet the selection, unchanged; other shapes are dropped |
| Topics.KeptAppend | utils.py:124-134 | the filter preserves order: filtering a concatenation concatenates the filtered parts |
| Topics.KeptAllKept | utils.py:124-134 | a list whose every item passes the filter comes through unchanged |
| Topics.TopicFilterIdempotent | utils.py:120-134 | filtering twice by one selection is filtering once |

## Left out

- app.py, the Streamlit interface and its `st.cache_data` caching, is presentation only.
- The embedding model, `model.encode`, `util.pytorch_cos_sim` and the `df.attrs['phrase_embs']` cache (utils.py:89-98) are floating-point numerics in a foreign library. The scores are an input `seq<real>`, aligned with the rows by position.
- Semantic: NaN scores are not modelled, because scores are exact reals. Python drops a NaN score at `>= threshold`.
- pymorphy2's `parse(word)[0].normal_form` (utils.py:24-25) is the parameter `lemmatize`. The `lru_cache` wrappers (utils.py:11-17, 27-29) do not change results and are left out.
- The network and file I/O are left out: `requests.get`, the response body and `pd.read_excel` (utils.py:57-60). Each source is the `Response` that `fetch(url)` returns. The `print` of the skipped source (utils.py:83) is left out too.
- Text.Lower: covers ASCII and the basic Cyrillic capitals only. Python's full Unicode `str.lower()` is left out, including the mappings that change a string's length.
- Text.IsWordChar: `\w` is modelled as ASCII letters, digits, `_` and the Cyrillic block U+0400–U+04FF without U+0482–U+0489 (one symbol and the combining marks). Other Unicode letters and digits are left out.
- Corpus: every cell is a string, as `astype(str)` makes the topic cells. A missing cell reads as "nan". A non-string `phrase` cell is left out: `str(phrase)` is used to split it while `phrase_full` keeps the original value. A non-string column name, whose `.lower()` would raise, is left out too.
- Corpus.ColumnIndex: duplicate column names are taken to be renamed by the spreadsheet reader, so the first "phrase" column is the one read.
- Semantic: the cache of embeddings is left out. The model keeps the `IndexError` of `df.iloc` as `RowIndexOutOfRange`: it is raised when a score at a position past the last row reaches the threshold (`Semantic.CandidatesFail`). Extra scores below the threshold, or fewer scores than rows, raise nothing, and rows without a score are never returned.
