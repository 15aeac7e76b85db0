# HPO phenotype normalisation, modelled in Dafny

This project models the deterministic core of the phenotype-normalisation
pipeline. That pipeline maps free-text phenotype mentions to Human
Phenotype Ontology (HPO) concepts. The model has three parts.

- **Ontology reading** (`data/human-phenotype-ontology/build_hp_data.py`).
  - `parse_hpo_obo` reads the lines of `hp.obo` into term records with an id, a name and quoted synonyms.
  - `build_hpo_texts` flattens the records into two parallel lists, `hpo_texts` and `hpo_ids`. Each term contributes its name, then its synonyms.
- **The tool** (`HPONormalizationTool.run` in `src/tooluniverse/hpo_normalization_tool.py`). It handles the arguments, then treats each query in turn:
  - clamps `k` to the index size;
  - collects the top-k surface-form hits;
  - merges the hits by HPO id with a strict `>` over a `defaultdict(float)`, keeping the best score and the text that first reached it;
  - sorts the merged results by score, highest first.
  - Any exception ends the whole call with `success: False`.
- **The batch variant** (`normalize_batch_to_hpo` in `data/human-phenotype-ontology/test_sim_serch.py`). It differs from the tool in three ways: `top_k` is not clamped, the merge is `max(merged[id], score)`, and the results carry no text.

Both merge rules are modelled. Their relation is proved: they agree exactly when every retrieved id has a hit above `0.0`. Otherwise the tool fails where the batch variant reports the id at `0.0`.

Modules, in dependency order:

- `Wrappers`: `Option` and `Result`.
- `OboLines`: Python's `strip`, `startswith`, `replace` and `split('"')[1]`, and the classification of one line.
- `OboParser`: the parser as a loop and as a left fold. It also gives an independent description as blocks between `[Term]` headers.
- `OboStanzas`: how other stanza kinds are read, and a corrected reader (see Findings).
- `SurfaceForms`: `build_hpo_texts`.
- `Ranking`: what both rankers share.
  - raw-hit collection;
  - the top-k selection as a predicate;
  - dict insertion order;
  - best score per id;
  - a stable descending sort.
- `ToolMerge`: the tool's merge and assembly for one query.
- `NormalizationTool`: `run`.
- `BatchNormalize`: `normalize_batch_to_hpo`.
- `MergeContrast`: the two merge rules side by side.

How the model represents the program's data:

- Scores are `int`. The `0.0` default of `defaultdict(float)` is `0`.
- The score matrix is an input: one row of `N` scores per query.
- The indices `topk(k)` selects are also an input. The predicate `Ranking.IsTopK` constrains them: `k` distinct positions of the row, in non-increasing score order, none scoring below a position left out. The order of equal scores is left free.
- A Python dict is a key sequence in insertion order plus a `map`.
- An exception the tool catches becomes a `Failure` carrying a `ToolError`.
- A `KeyError` in `build_hpo_texts` is an `Err` holding the position of the first term without a name.
- Every loop of the source is a `method` with a `for` loop. Each method is proved equal to a left-fold specification function, and the properties are proved as lemmas about those functions.

## Model

| member | source | states |
|---|---|---|
| OboLines.StripLeft | data/human-phenotype-ontology/build_hp_data.py:10 | the left half of `strip()`: the result is a suffix of the line, every character dropped is whitespace (as `str.isspace` defines it), and the result does not start with whitespace (so it is the longest such suffix) |
| OboLines.StripRight | data/human-phenotype-ontology/build_hp_data.py:10 | the right half: a prefix, only whitespace dropped, and the result does not end with whitespace |
| OboLines.Strip | data/human-phenotype-ontology/build_hp_data.py:10 | the result of `strip()` neither starts nor ends with whitespace |
| OboLines.StripSpec | data/human-phenotype-ontology/build_hp_data.py:10 | `strip()` is the slice of the line that starts after its leading whitespace, and only whitespace lies outside that slice. With Strip's clean ends, this is exactly Python's result |
| OboLines.RemoveAllAbsent | data/human-phenotype-ontology/build_hp_data.py:17-21 | a line in which the key does not occur is unchanged by `replace(key, "")` |
| OboLines.RemoveLeadingKey | data/human-phenotype-ontology/build_hp_data.py:17-21 | `key + v`, where the key does not occur in `v`, becomes `v` |
| OboLines.RemoveAllLeading | data/human-phenotype-ontology/build_hp_data.py:17-21 | a key at the front is removed, and the scan goes on after it |
| OboLines.RemoveAllUnchangedIff | data/human-phenotype-ontology/build_hp_data.py:17-21 | `replace(key, "")` returns the line unchanged exactly when the key does not occur in it |
| OboLines.RemoveAllRepeatedKey | data/human-phenotype-ontology/build_hp_data.py:17-21 | every occurrence is removed, not only the leading one. `key + a + key + b` becomes `a + b` when neither `a` nor `b` contains the key's first letter, so `"name: a name: b"` becomes `" a  b"` |
| OboLines.QuotedText | data/human-phenotype-ontology/build_hp_data.py:25-29 | `split('"')[1]` is absent exactly when the line has no quote. Otherwise it is the text after the first quote, up to the next quote or the end of the line |
| OboLines.QuotedTextClosed | data/human-phenotype-ontology/build_hp_data.py:24-26 | `'"t" tail'.split('"')[1]` is `t`, the text between the first two quotes |
| OboLines.QuotedTextOpen | data/human-phenotype-ontology/build_hp_data.py:26 | with a single quote, `split('"')[1]` is the rest of the line |
| OboLines.ClassifyStripped | data/human-phenotype-ontology/build_hp_data.py:10 | a line is classified as its stripped form is: surrounding whitespace never changes the branch or the value |
| OboLines.ClassifyIdLine | data/human-phenotype-ontology/build_hp_data.py:17-18 | any line, indented or not, that strips to `id:` and a rest carries the rest with every further `id:` removed, stripped. When the rest has no further `id:`, that is the rest itself, stripped |
| OboLines.ClassifyNameLine | data/human-phenotype-ontology/build_hp_data.py:20-21 | the same for `name:` lines. `name:` is tested only after `id:` |
| OboLines.ClassifySynonymLine | data/human-phenotype-ontology/build_hp_data.py:23-29 | any line that strips to `synonym:` and a rest carries the quoted text of the rest, or nothing when the rest has no quote (the IndexError that is passed over) |
| OboLines.ClassifySynonymQuoted | data/human-phenotype-ontology/build_hp_data.py:23-27 | a line that strips to `synonym: "t" …` carries the synonym `t` |
| OboLines.ClassifyOther | data/human-phenotype-ontology/build_hp_data.py:10-29 | a line is ignored exactly when, stripped, it is not `[Term]` and starts with none of `id:`, `name:` and `synonym:` |
| OboLines.ClassifyOtherKey | data/human-phenotype-ontology/build_hp_data.py:10-29 | a line that strips to any other key (a tag ending in its only colon, such as `is_a:`, `subset:`, `def:`, `xref:`) and a rest is ignored |
| OboLines.ClassifyIsALine | data/human-phenotype-ontology/build_hp_data.py:10-29 | an `is_a:` line, the commonest line of a `[Term]` stanza, is ignored |
| OboLines.ClassifySynonymTypedefLine | data/human-phenotype-ontology/build_hp_data.py:23 | a `synonymtypedef:` line is ignored, although it shares the letters `synonym` with the synonym key |
| OboParser.ParseHpoObo | data/human-phenotype-ontology/build_hp_data.py:4-34 | the loop returns the left fold `Parse` over the classified lines. That includes the final flush of a pending record that has an id |
| OboParser.BlocksPartitionLines | data/human-phenotype-ontology/build_hp_data.py:12-15 | cutting at `[Term]` lines gives one more block than there are headers, and the blocks concatenate to the non-header lines in order |
| OboParser.BlocksHeaderFree | data/human-phenotype-ontology/build_hp_data.py:12-15 | no block contains a `[Term]` line |
| OboParser.ScanIsBlocks | data/human-phenotype-ontology/build_hp_data.py:9-29 | the loop state after any lines holds two things: the kept terms of every closed block, in order, and the record built from the open block |
| OboParser.ParseIsKeptBlocks | data/human-phenotype-ontology/build_hp_data.py:12-32 | the output is, in file order, the record of every block whose record has an id. A block without an id is discarded, both at a `[Term]` line and at the end |
| OboParser.RecordFields | data/human-phenotype-ontology/build_hp_data.py:17-29 | a record's id and name come from the last `id:` and `name:` lines of its block (later lines overwrite earlier ones). Its synonyms are the quoted texts of its synonym lines, in file order, and unquoted synonym lines are skipped |
| OboParser.KeptIffIdLine | data/human-phenotype-ontology/build_hp_data.py:13-14 | a block's record is kept exactly when the block has at least one `id:` line |
| OboStanzas.BlocksExtendOpen | data/human-phenotype-ontology/build_hp_data.py:12-29 | lines without a `[Term]` header that are appended to a file all land in the last block. So the lines of a stanza of another kind are read into the preceding term |
| OboStanzas.TypedefOverwritesTerm | data/human-phenotype-ontology/build_hp_data.py:12-29 | as written: `[Term]`, `id: a`, a non-`[Term]` header, `id: x` parses to the single term with id `x`. The term's own id is lost |
| OboStanzas.OtherHeaderLine | data/human-phenotype-ontology/build_hp_data.py:10-29 | a line that strips to a bracketed header other than `[Term]`, such as `[Typedef]`, falls through all four tests and is a stanza header |
| OboStanzas.SampleFile | data/human-phenotype-ontology/build_hp_data.py:12-32 | for the four-line file `[Term]`, `id: <term id>`, `[Typedef]`, `id: <typedef id>`, the source yields the typedef's id and the corrected reader yields the term's id |
| OboStanzas.OtherStanzaIgnored | data/human-phenotype-ontology/build_hp_data.py:12-15 | corrected reader: a stanza whose header is not `[Term]` (the header and the lines up to the next header) changes nothing in the output |
| OboStanzas.TermStanzasAgree | data/human-phenotype-ontology/build_hp_data.py:12-32 | the corrected reader gives exactly the source's output on a file that starts with `[Term]` and has no other stanza header |
| OboStanzas.PreambleDropped | data/human-phenotype-ontology/build_hp_data.py:12-15 | as written, lines before the first `[Term]` that hold no `id:` line are dropped |
| OboStanzas.PreambleSkipped | data/human-phenotype-ontology/build_hp_data.py:12-15 | corrected reader: lines before the first stanza header are dropped |
| OboStanzas.TermStanzasAgreeAfterPreamble | data/human-phenotype-ontology/build_hp_data.py:12-32 | the same agreement for a file that opens with a header block (no stanza header and no `id:` line) before its first `[Term]`. The header block changes neither reader's output |
| OboStanzas.TypedefIgnoredWhenCorrected | data/human-phenotype-ontology/build_hp_data.py:12-29 | corrected reader: the same four-line shape yields the term with id `a` |
| SurfaceForms.BuildHpoTexts | data/human-phenotype-ontology/build_hp_data.py:36-46 | the nested loops return `Flatten(terms)`: both lists filled term by term, or the error at the first term without a name |
| SurfaceForms.FlattenFailsIffUnnamed | data/human-phenotype-ontology/build_hp_data.py:41 | flattening fails exactly when some term has no name. The error is the position of the first such term |
| SurfaceForms.FlattenLengths | data/human-phenotype-ontology/build_hp_data.py:36-46 | both lists have length equal to the sum over the terms of 1 + the number of synonyms |
| SurfaceForms.FlattenAligned | data/human-phenotype-ontology/build_hp_data.py:40-44 | term `i`'s entries start at the combined size of the terms before it. The texts there are its name and then its synonyms, and every id there is the term's id |
| SurfaceForms.NamesNotDeduplicated | data/human-phenotype-ontology/build_hp_data.py:40-44 | two different named terms keep their own entries, at different positions and each with its own id, even when their names are equal |
| Ranking.CollectRaw | src/tooluniverse/hpo_normalization_tool.py:196-202 | the loop that fills `raw_results` returns `Collect`: one hit per selected index, or the first index past the end of `hpo_ids` or `hpo_texts` |
| Ranking.CollectSpec | src/tooluniverse/hpo_normalization_tool.py:196-202 | collection succeeds exactly when every selected index is valid in both arrays. Then hit `j` is the id, text and score at `picks[j]`; otherwise the error is the first bad index |
| Ranking.HitIdsSelected | src/tooluniverse/hpo_normalization_tool.py:197-199 | the ids of the raw hits are exactly the ids at the selected indices |
| Ranking.FirstSeenSpec | src/tooluniverse/hpo_normalization_tool.py:205-216 | the keys of a dict, in insertion order, are distinct, are exactly the ids inserted, follow the order of first occurrence, and are no more than the insertions |
| Ranking.MaxScore | src/tooluniverse/hpo_normalization_tool.py:209-211 | the best score of an id is the score of one of its hits and is at least the score of each of its hits |
| Ranking.FirstBest | src/tooluniverse/hpo_normalization_tool.py:209-212 | the first hit of an id that reaches its best score: it has that id and that score, and no earlier hit of the id does |
| Ranking.SortDescSpec | src/tooluniverse/hpo_normalization_tool.py:215-219 | `sorted(key=score, reverse=True)`: the result is non-increasing by key, is a permutation of the input, and keeps the input order among elements with the same key (stable) |
| Ranking.SortDescDistinct | src/tooluniverse/hpo_normalization_tool.py:215-219 | sorting keeps the ids of the elements distinct |
| ToolMerge.MergeHits | src/tooluniverse/hpo_normalization_tool.py:205-213 | the loop that updates `merged` and `best_match_text` in place ends in the state of the fold `MergeAll` |
| ToolMerge.MergeAllInv | src/tooluniverse/hpo_normalization_tool.py:205-213 | after the merge loop, the keys are the ids in first-seen order, and each entry is the id's best score or `0.0` if that is higher. An id has a best text exactly when its best score is above `0.0`, and that text belongs to the first hit reaching the best score |
| ToolMerge.AssembleSpec | src/tooluniverse/hpo_normalization_tool.py:215-216 | the comprehension succeeds exactly when every key has a best text, and then gives the keys in order with their entries and texts. On failure, the failing key has no text and every earlier key has one |
| ToolMerge.QueryOutcomeFails | src/tooluniverse/hpo_normalization_tool.py:196-216 | a query fails exactly when a selected index is out of range, naming the first one, or when a retrieved id has no hit scoring above `0.0`. In the second case the error names such an id |
| ToolMerge.QueryIds | src/tooluniverse/hpo_normalization_tool.py:196-216 | a successful query has no more results than selected indices. Its result ids are distinct and are exactly the ids at the selected indices |
| ToolMerge.QueryScores | src/tooluniverse/hpo_normalization_tool.py:205-216 | each result carries its id's best raw score and the text of the first raw hit reaching that score |
| ToolMerge.QueryOrder | src/tooluniverse/hpo_normalization_tool.py:215-219 | results are non-increasing by score. Results of equal score keep the order in which their ids were first seen |
| ToolMerge.QueryAboveUnselected | src/tooluniverse/hpo_normalization_tool.py:192-193 | with a top-k selection, no result scores below any index that was not selected |
| NormalizationTool.ClampK | src/tooluniverse/hpo_normalization_tool.py:192 | `k` is at most `top_k` and at most `N`, and equals one of them |
| NormalizationTool.AnswerQuery | src/tooluniverse/hpo_normalization_tool.py:193-219 | the per-query body returns `QueryOutcome`: raw hits, merge, assembly and sort |
| NormalizationTool.QueryLoop | src/tooluniverse/hpo_normalization_tool.py:188-224 | the query loop returns `Outputs`. A negative `k` fails at the first query; otherwise the outputs are those of the queries in order, or the first error |
| NormalizationTool.Run | src/tooluniverse/hpo_normalization_tool.py:154-238 | `run` returns `RunSpec`: `MissingQueries`, the error of the `try` block, or the outputs with `count` equal to their number |
| NormalizationTool.AnswersSpec | src/tooluniverse/hpo_normalization_tool.py:188-224 | the loop succeeds exactly when every query does. It then gives one output per query, in input order, each with its query and results |
| NormalizationTool.AnswersError | src/tooluniverse/hpo_normalization_tool.py:232-238 | an error of the loop is the error of one of its queries |
| NormalizationTool.RunMissingQueries | src/tooluniverse/hpo_normalization_tool.py:166-167 | the call fails with `MissingQueries` exactly when `queries` is missing, the empty string or the empty list |
| NormalizationTool.RunBareString | src/tooluniverse/hpo_normalization_tool.py:169-170 | a non-empty bare string gives exactly the response of the one-element batch holding it |
| NormalizationTool.RunShape | src/tooluniverse/hpo_normalization_tool.py:221-230 | a successful call has one output per query, in input order, each with its query string and that query's results, and `count` is the number of outputs |
| NormalizationTool.RunSucceedsIff | src/tooluniverse/hpo_normalization_tool.py:166-238 | the call succeeds exactly when all four hold: there are queries; `k` is not negative; every query's selected indices are valid in both arrays; every retrieved id has a hit scoring above `0.0` |
| NormalizationTool.RunLengthBound | src/tooluniverse/hpo_normalization_tool.py:192-193 | in a successful call, every query has at most `min(top_k, N)` results, and a large `top_k` is clamped rather than being an error |
| BatchNormalize.MergeMax | data/human-phenotype-ontology/test_sim_serch.py:71-73 | the merge loop ends in the state of the fold `MaxAll` |
| BatchNormalize.MaxAllInv | data/human-phenotype-ontology/test_sim_serch.py:71-73 | after the merge, the keys are the ids in first-seen order, and each entry is `max(0.0, best score)` |
| BatchNormalize.BatchAnswer | data/human-phenotype-ontology/test_sim_serch.py:59-79 | the per-query body returns `BatchQuery` |
| BatchNormalize.NormalizeBatch | data/human-phenotype-ontology/test_sim_serch.py:19-86 | the function returns `BatchSpec`, given `0 <= top_k <= N` and arrays that cover every index below `N` |
| BatchNormalize.BatchShape | data/human-phenotype-ontology/test_sim_serch.py:56-86 | one output per query, in input order, each with its query string and that query's results |
| BatchNormalize.BatchQueryIds | data/human-phenotype-ontology/test_sim_serch.py:62-79 | a query has at most as many results as selected indices (so at most `top_k`). Its result ids are distinct and are exactly the ids at the selected indices |
| BatchNormalize.BatchQueryScores | data/human-phenotype-ontology/test_sim_serch.py:71-73 | each result's score is `max(0.0, best raw score of its id)`. A negative best score is reported as `0.0` |
| BatchNormalize.BatchQueryOrder | data/human-phenotype-ontology/test_sim_serch.py:75-79 | results are non-increasing by score. Results of equal score keep first-seen order |
| MergeContrast.SortProject | data/human-phenotype-ontology/test_sim_serch.py:75-79 | dropping `matched_text` commutes with the stable sort by score |
| MergeContrast.QueryAgree | src/tooluniverse/hpo_normalization_tool.py:205-219 | where the tool answers a query, its results without texts equal the batch variant's results on the same selection |
| MergeContrast.QueryDisagree | data/human-phenotype-ontology/test_sim_serch.py:71-73 | where the tool fails on a query with valid indices, the failure is a missing best text. The batch variant reports that id with score `0.0` |
| MergeContrast.RunAgreesWithBatch | data/human-phenotype-ontology/test_sim_serch.py:56-86 | on a batch with `0 <= top_k <= N`, a successful call of the tool gives, query by query, the batch variant's queries and results, texts aside |
| MergeContrast.RunFailsWhereBatchReportsZero | src/tooluniverse/hpo_normalization_tool.py:205-238 | on such a batch, a failing call of the tool fails on an id that the batch variant reports at `0.0` for some query |

## Left out

- Reading `hp.obo` from disk: the parser takes the already-read lines. The line terminators are gone, and `strip` would remove them anyway.
- `encode_hpo_texts`, `SentenceTransformer`, `model.encode`, `util.cos_sim` and `np.load`/`np.save`: these are model calls and file I/O. The score rows are inputs.
- torch `topk`: its selected indices are an input, constrained by `Ranking.IsTopK`. Which of several equal scores it picks is not fixed.
- Floating point: scores are integers. `float(score)` and the `0.0` default become plain integers, and NaN is not modelled.
- `_load_resources`, `_resolve_path`, `_get_default_data_path` and the class-level caches: filesystem probing and global state. The loaded arrays are inputs (`Ranking.Index`). Their outcome is also not modelled: a failure to load, or a `len(hpo_embeddings)` that disagrees with the rows.
- The `model_name`, `emb_path`, `text_path` and `id_path` arguments: they only choose what is loaded.
- `arguments is None` falling back to `kwargs`: the model takes the argument dict directly.
- `int(arguments.get('top_k', 5))`: `top_k` is an optional integer, defaulting to 5. A value that `int()` converts or rejects is not modelled.
- `queries` of a type other than a string or a list of strings.
- The error message strings and `traceback.print_exc()`: a failure carries a `ToolError` naming its cause, not the text.
- NormalizeBatch: requires `0 <= top_k <= N` and `hpo_ids` and `hpo_texts` of length at least `N`. The source has no `try`, so outside the first bound it raises to its caller; the model requires the bound instead of modelling the exception. The second bound is narrower than the source. The source raises only when a selected index reaches past `hpo_texts` or `hpo_ids`, and it succeeds on shorter arrays whose selected indices stay in range. The model does not cover those calls.
- The default `top_k = 5` of `normalize_batch_to_hpo`: the model always takes `top_k` as an argument.
- RemoveAll: its own contract only bounds the length of the result. Its value is given by RemoveAllAbsent, RemoveAllLeading, RemoveLeadingKey, RemoveAllUnchangedIff and RemoveAllRepeatedKey, which cover a key at the front, a key absent from the rest and a key repeated in it. No lemma describes `replace` on every input.
- `load_hpo_index`, the `__main__` blocks, the Orphadata builder and the other tools of the repository.

## Findings

| source | as written | input that shows it | evidently intended | confidence | as-written member | corrected member |
|---|---|---|---|---|---|---|
| data/human-phenotype-ontology/build_hp_data.py:12-29 | only `[Term]` ends a record, so the `id:` and `name:` lines of a following `[Typedef]` stanza overwrite the fields of the preceding term | the lines `[Term]`, `id: HP:0000001`, `[Typedef]`, `id: part_of` parse to one term with id `part_of`; `hp.obo` ends with such `[Typedef]` stanzas | any stanza header ends the current record, and only `[Term]` stanzas produce terms, so the file yields the term `HP:0000001` | medium; not executed | OboStanzas.TypedefOverwritesTerm | OboStanzas.TypedefIgnoredWhenCorrected |

The corrected reader is `OboStanzas.ParseTermStanzas`. `OboStanzas.OtherStanzaIgnored` proves that it ignores every stanza of another kind. `OboStanzas.TermStanzasAgree` proves that it agrees with the source on files made only of `[Term]` stanzas. `OboStanzas.TermStanzasAgreeAfterPreamble` extends this to files that open with a header block. `OboStanzas.SampleFile` reads the sample file both ways.
