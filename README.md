# mini_search in Dafny

A model of the core of mini_search, a small keyword search engine over a
folder of PDF, image and text files. The model covers four pieces:

- **Ingestion** (`indexer.py`). Each file's text is extracted by the backend
  its suffix selects, and whitespace runs are collapsed. A row is appended to
  the `docs` table unless the path is already there, with up to three folder
  names from the path relative to the root. The run reports how many files it
  saw, processed and failed on.
- **Retrieval and scoring** (`search_db.py`). The query is lower-cased and
  split into tokens. The rows whose text contains a token are selected. Each
  is scored by the tokens' occurrence counts plus half its clicks, given a
  highlighted snippet around the first token, and the results are sorted by
  the whole result tuple, largest first.
- **The highlighter** (`highlight_keywords.py`). For each token in turn,
  every non-overlapping, case-insensitive, literal occurrence is wrapped in
  `<mark>`…`</mark>`.
- **The query-expansion agent** (`agent_search.py`). The query is expanded
  into keyword queries, from the language model's reply or from a local
  synonym cross-product. Each expansion is searched, the top 5 of each are
  merged by id with the first occurrence kept, and the top 3 of the merge
  are returned.

The click route's counter update (`app.py`) is modelled as a method on the
table.

Each module is one file:

- `wrappers.dfy`: `Option`, `Result`.
- `strings.dfy`: ASCII lower-casing, `str.split()`, `str.strip(chars)`,
  `str.split(sep)`, `str.count`, case-insensitive literal find.
- `highlight.dfy`, `ranking.dfy` (result tuples and their order), `docs.dfy`
  (the table), `search.dfy`, `agent.dfy`, `indexer.dfy`.

Loops of the source are methods proved equal to a function. The table is a
class whose methods update its rows.

- **Table.** The `docs` table is the class `Docs.DocTable`, whose `rows` are
  a `seq<Doc>`. Its ids are assigned as SQLite assigns row ids: one more than
  the largest.
- **Remote call.** The model call is an input with three outcomes:
  - `Replied(text)`;
  - `FailedInside`: it raised inside the `try` of
    `expand_queries_with_gemini`;
  - `RaisedOutside`: it raised before that `try`.
- **Ingestion inputs.**
  - The directory walk is an input: the sorted list of files, each with its
    path and its path relative to the root.
  - Whether the root exists is an input.
  - The extraction backends are an input: a function from the backend kind
    and the path to the text read, or `None` when the backend raises.
- **Empty query.** A query without tokens makes `search_db` build
  `WHERE ` with no condition, which SQLite rejects. It is modelled as the
  error `EmptyPredicate`. `agentic_search` lets that error through, because
  its merge loop has no `try`.

The model follows the code where it departs from what its comments promise:

- When the model call fails inside its `try` (request error, timeout,
  unreadable reply), `expand_queries_with_gemini` returns `[]` and
  `agentic_search` answers with no results. The docstring of
  `agentic_search` says the synonym fallback runs when the model fails. In the
  code it runs only when the call raises before its `try`, while the model
  handle is built.
- A reply line made only of dashes or bullets becomes the expansion `""`.
  Searching it raises, as does the fallback of a query with no words.
- For a file directly under the root, `folder1` is the file's own name.

## Model

| member | source | states |
|---|---|---|
| Highlight.HighlightKeywords | highlight_keywords.py:3-9 | the loop's result is the tokens' passes applied in order, each to the previous output; no tokens leave the text unchanged; one token adds 13 characters per non-overlapping case-insensitive occurrence |
| Highlight.MarkSpec | highlight_keywords.py:7-8 | one pass adds 13 characters per match (`lower(x).count(lower(t))` matches), deleting the tags gives back the input, no character is passed over where the token matches, and the input is returned unchanged when the token does not occur |
| Highlight.ScanLeftmost | highlight_keywords.py:8 | the substitution takes the leftmost match: every character left outside the tags sits at a position where the token does not match |
| Highlight.ScanUnique | highlight_keywords.py:8 | any cut of the input into untouched characters and stretches equal to the token up to case that passes over no match is the substitution's own, so the wrapped stretches are exactly the leftmost non-overlapping matches |
| Highlight.ScanErases | highlight_keywords.py:8 | the pass reads the whole input in order: what is outside the tags plus what is inside them, in original case, is the input |
| Highlight.ScanHits | highlight_keywords.py:7-8 | the number of replacements equals the non-overlapping count of the lower-cased token in the lower-cased text |
| Highlight.ScanHitsMatch | highlight_keywords.py:7-8 | every wrapped stretch has the token's length and equals it up to ASCII case |
| Highlight.ScanNoMatch | highlight_keywords.py:7-8 | without a case-insensitive occurrence a pass makes no replacement |
| Highlight.HitIsLiteral | highlight_keywords.py:7 | the token is escaped: at every position where it holds a non-letter such as `.` or `*`, a match holds that very character |
| Highlight.RenderLength | highlight_keywords.py:8 | each replacement adds exactly the 13 characters of `<mark></mark>` |
| Highlight.HighlightCons | highlight_keywords.py:5-8 | highlighting with `t` then `ts` equals highlighting with `ts` the output of `t`'s pass |
| Highlight.HighlightNoMatch | highlight_keywords.py:6-8 | when no token occurs case-insensitively, the text comes back unchanged |
| Search.TokenizeSpec | search_db.py:4 | tokens are non-empty, lower case, free of whitespace, and together spell the non-whitespace characters of the lower-cased query in order |
| Search.TokenizeSkip | search_db.py:4 | whitespace in front of a query adds no token |
| Search.TokenizeWord | search_db.py:4 | a maximal whitespace-free run in front of the query, followed by its end or by whitespace, is exactly the first token, lower-cased; with `TokenizeSkip` this fixes the tokens of every query |
| Strings.SplitSkip | search_db.py:4 | whitespace in front of a text adds no word to its whitespace split |
| Strings.SplitWord | search_db.py:4 | a maximal whitespace-free run in front of a text is exactly the first word of its whitespace split, and the rest split on their own |
| Search.TokenizeBlank | search_db.py:4 | a query of whitespace alone has no tokens |
| Search.Candidates | search_db.py:5-11 | a row is selected iff it is in the table and its text contains some token, ignoring case; the selection is no larger than the table |
| Search.CandidatesUniqueIds | search_db.py:5-11 | the selected rows keep the table's unique ids |
| Search.Window | search_db.py:16-17 | the snippet source is 50 characters before to 100 after the first case-insensitive occurrence of the first token, clipped to the text, or the first 150 characters when it does not occur |
| Search.SearchDb | search_db.py:3-20 | the scoring loop and sort give the result of `SearchSpec`; the search fails exactly when the query has no tokens |
| Search.SearchSpecResults | search_db.py:13-20 | one result per selected row: sorted largest first, each from a row whose text contains a token, and every such row present |
| Search.SearchNoMatch | search_db.py:5-20 | a query whose tokens occur nowhere gets an empty answer, not an error |
| Search.ScoreBounds | search_db.py:15 | the score is the tokens' occurrence count plus half the clicks, never below half the clicks, and exactly that when no token occurs |
| Search.TermFrequencyZero | search_db.py:15 | lower-case tokens absent from the text add nothing to the score |
| Search.CountNoMatch | search_db.py:15 | a lower-case token absent from the text, ignoring case, is counted zero times |
| Search.SearchOrder | search_db.py:20 | of two results the earlier has the higher or equal score, and with unique ids equal scores put the larger id first |
| Ranking.GeTotal | search_db.py:20 | Python's tuple order on results is total and antisymmetric |
| Ranking.GeTransitive | search_db.py:20 | Python's tuple order on results is transitive |
| Ranking.SortDescSpec | search_db.py:20 | the descending sort is sorted and a permutation of its input |
| Ranking.SortedUnique | search_db.py:20 | a sorted permutation is unique, so any sort by the whole tuple gives the same list |
| Ranking.SortDescIds | search_db.py:20 | sorting keeps the set of ids and their distinctness |
| Ranking.TopSpec | agent_search.py:81 | the first `k` of the sort are the `k` largest results: sorted, drawn from the input, no result left out ranks above one kept |
| Ranking.Take | agent_search.py:76 | a slice `[:k]` is the first `min(len, k)` elements |
| Agent.ParseReplySpec | agent_search.py:39-40 | reply parsing keeps one expansion per non-blank line of the stripped reply; each is a non-blank line with leading and trailing dashes, bullets and spaces removed, holds no newline, and may be empty |
| Agent.KeepLinesOne | agent_search.py:40 | a single reply line gives nothing when blank, otherwise itself without leading and trailing dashes, bullets and spaces |
| Agent.KeepLinesAppend | agent_search.py:40 | the expansions of two runs of lines are those of the first followed by those of the second, so each non-blank line gives exactly one expansion, in line order |
| Agent.ProductLength | agent_search.py:70 | the cross-product has one entry per combination: the product of the list sizes |
| Agent.ProductMembers | agent_search.py:70 | the cross-product holds exactly the sequences picking one entry from each list, in order |
| Agent.FallbackCount | agent_search.py:62-71 | the fallback gives as many expansions as the product of the per-word synonym-list sizes, and at least one |
| Agent.FallbackAllUnknown | agent_search.py:62-71 | when no word is in the synonym table, the fallback is the one query of the lower-cased words joined by spaces |
| Agent.FallbackExpansions | agent_search.py:61-71 | the append loop and product give the fallback expansions, a function of the query alone |
| Agent.ExpandQuery | agent_search.py:34-71 | the expansions are the parsed reply, none when the call fails inside its `try`, and the non-empty fallback when it raises outside it |
| Agent.DedupSpec | agent_search.py:74-79 | the merge keeps distinct ids, loses no id, is no longer than its input, and keeps for each id its first occurrence |
| Agent.GatherFails | agent_search.py:75-76 | the fan-out fails exactly when some expansion has no tokens |
| Agent.GatherResults | agent_search.py:76 | at most 5 results per expansion, each among the top 5 of its expansion's search |
| Agent.MergeInto | agent_search.py:76-79 | the inner loop appends exactly the results whose id is not yet seen, and `seen` stays the ids of the results |
| Agent.AgentSpecResult | agent_search.py:43-82 | when the call fails inside its `try` the answer is empty; otherwise the answer is the prefix of length `min(3, merged)` of the descending sort of the merge, sorted, with distinct ids, drawn from the merge, none ranked below a merged result left out |
| Agent.AgenticSearch | agent_search.py:48-82 | the remote step, fan-out, merge loop and top 3 give the result of `AgentSpec` |
| Indexer.DispatchSuffix | indexer.py:38-44 | PDF iff the lower-cased path ends in `.pdf`, image iff it ends in `.jpg` or `.png`, text otherwise |
| Indexer.DispatchBySuffix | indexer.py:38-44 | paths whose last four characters agree up to case go to the same backend, and case never matters |
| Indexer.ExtractText | indexer.py:36-49 | extraction fails exactly when the selected backend raises; otherwise its text is single-spaced and has the same non-whitespace characters and the same whitespace-separated words as the backend's text, is empty only when that text is, and starts and ends with a space exactly when that text starts and ends with whitespace |
| Indexer.CollapseSplit | indexer.py:49 | collapsing keeps the words: the collapsed text splits on whitespace into the same words |
| Indexer.CollapseSingleSpaced | indexer.py:49 | the collapsed text has no whitespace but single spaces |
| Indexer.CollapseNonSpace | indexer.py:49 | collapsing keeps every non-whitespace character in order |
| Indexer.CollapseFixed | indexer.py:49 | single-spaced text is left unchanged |
| Indexer.CollapseIdempotent | indexer.py:49 | collapsing twice is collapsing once |
| Indexer.FoldersSpec | indexer.py:84-88 | `folder1` is always the first segment, the file's name for a root-level file; `folder2` iff at least 3 segments and `folder3` iff at least 4, so never the file name; no folder holds the separator |
| Indexer.IngestAppends | indexer.py:72-93 | a run only appends: the old table is a prefix, it grows by `processed` rows each with no clicks and a run file's path, extracted text and folder names, and every file is counted as processed, failed or skipped |
| Indexer.IngestErrors | indexer.py:77-95 | the reported errors are exactly the run's files, counted with repetition, that were not in the table before the run and whose extraction fails |
| Indexer.IngestCovers | indexer.py:78-96 | afterwards every file is in the table unless its extraction failed, nothing indexed is lost, and ids stay increasing, paths unique and texts single-spaced |
| Indexer.IngestNoChange | indexer.py:78-82 | files already indexed or failing to extract change nothing |
| Indexer.IngestIdempotent | indexer.py:78-81 | a second run over the same files, with the same texts read, adds no row |
| Indexer.IndexFolder | indexer.py:51-99 | a missing root changes nothing and reports nothing; otherwise the file loop leaves the table and counters of `IngestAll` |
| Docs.NextId | indexer.py:89-92 | an inserted row gets a positive id above every existing one, the last id plus one in an increasing table |
| Docs.DocTable.Insert | indexer.py:89-92 | the insert appends one row with a fresh id, no clicks and the given fields; the id is 1 in an empty table and the last id plus one otherwise |
| Docs.PathOf | app.py:20 | the path found belongs to a row with that id; `None` only when no row has it |
| Docs.BumpSpec | app.py:19 | a click raises the clicked row's counter by one, changes nothing else, never lowers a counter, and keeps the table well formed |
| Docs.DocTable.Click | app.py:19-20 | the click updates the rows to `Bump` of the old rows and returns the clicked row's path |

## Left out

- SQLite `LIKE` is modelled as an ASCII case-insensitive substring test. A `%` or `_` inside a token acts as a wildcard in SQLite and is a plain character here.
- Case folding and whitespace are ASCII only. Python's `lower()`, `split()`, `strip()` and `\s` also act on non-ASCII letters and on Unicode whitespace (for instance `\x1c`-`\x1f`, `\x85`, `\xa0`); the model does not.
- Search.Window: `re.search(tokens[0], ...)` in `search_db.py:16` is not escaped. The model finds the token literally. A token holding regular-expression metacharacters may match elsewhere in the source, or raise.
- The extraction backends (pdfplumber pages, pytesseract OCR, the UTF-8 read and its retry with errors ignored) are one input function of the backend kind and the path.
- `os.walk`, its sorting and `os.path.relpath` are not modelled; the sorted file list with relative paths is an input, and the separator is `/`.
- Indexer.IndexFolder: a failing `INSERT` is not modelled. Errors are counted only for failed extraction.
- Schema creation and column migration (`create_tables`, `ensure_columns`), connections and commits are not modelled.
- The Gemini configuration, prompt and network call are not modelled. Only the three outcomes are.
- Printing and timing are not modelled.
- The score is a Python float; the model uses `real`. Scores are integer counts plus half the clicks, which a float holds exactly while they stay below 2^52, so the two agree on scores and their order up to that size.
- Docs.DocTable.Click: when no row has the id, the source raises on `fetchone()[0]`; the model returns `None`.
- The Flask routes and templates of `app.py` are not part of this model, apart from the counter update.
