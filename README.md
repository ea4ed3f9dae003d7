# arxiv-sanity-lite: ranking, filtering and tag libraries

A Dafny model of the core of `serve.py` in arxiv-sanity-lite, a web front end for browsing
arXiv papers. The model covers five parts:

- **Keyword search** (`search_rank`). Every paper gets a score:
  - 10 for each query token found in its space-joined author names;
  - 20 for each token found in its title;
  - for each token, up to 3 for its occurrences in the summary.

  Papers that score 0 are dropped. The `(score, pid)` pairs are sorted in reverse, so ties go
  to the larger pid.
- **Time and random ranking** (`time_rank`, `random_rank`). These are orderings of every key
  in the metadata store:
  - `time_rank` puts the newest first and gives each paper its age in days;
  - `random_rank` is an arbitrary shuffle with all scores 0.
- **Classifier labels** (`svm_rank` up to the fit). This covers:
  - the early exit when neither tags nor a pid is given;
  - the pid-to-row map;
  - the 0/1 label vector, with a 1 either for the target pid or for the papers in the
    selected tags (`all`, or a comma-separated list);
  - the exit when no label is 1.
- **Result pipeline** in the index page, on the parallel `pids` / `scores` lists. It applies,
  in order:
  - the time window;
  - the "skip papers I already tagged" filter;
  - pagination, with page-number clamping.
- **Tag libraries** (`add`, `sub`, `delete_tag`). Each user has a map from tag to a set of
  pids, which these operations read, modify and write back:
  - `all` and `null` are protected names;
  - a tag is deleted when its last pid is removed;
  - each textual error reply is its own result case.

Modules:

| Module | Contents |
|---|---|
| `Wrappers` | `Option` and `Result` |
| `Numbers` | `min` on integers |
| `Seqs` | distinct lists, enumerations of a key set, parallel lists, and comprehension-style filters with a reference definition |
| `Text` | the Python string operations the code relies on: `lower`, `strip`, `split()`, `split(',')`, `count`, `' '.join`, string `<`, `int(...)` and `str(...)` |
| `Search`, `Ranking`, `Labels`, `Pipeline`, `Tags` | the five parts above |
| `Examples` | illustrative cases worked through the model: a two-paper search, a time window, an unknown tag and an add followed by a remove |

The stores are in-memory maps passed in as parameters:

- the paper store, as `map<string, Paper>`;
- the metadata store, as `map<string, Meta>`;
- the feature rows, as `seq<string>`;
- the tag store, as the `TagsDb` class.

Other inputs are also parameters:

- The clock reading `now`.
- The shuffle, as an index permutation.
- The order in which a store lists its keys.
- The logged-in user, as `Option<string>`.
- The current user's library. It is `{}` when logged out, as `get_tags` returns.

### Error paths the code leaves uncaught

`serve.py:298` converts the time window with `int(opt_time_filter)` outside any `try`, unlike
the page number (`serve.py:310-313`) and `svm_c` (`serve.py:273-276`), so a non-numeric window
makes the request fail with `ValueError`. The model follows the code: `Pipeline.ApplyFilters` then
returns `Err(BadTimeFilter(text))`. A pid with no metadata record makes `kv[pid]` raise
`KeyError` (`serve.py:299`); this is `Err(MissingMeta(pid))`. A positive pid with no feature
row makes `ptoi[pid]` raise `KeyError` (`serve.py:184`, `191`); this is
`Labelling.MissingFeatures(pid)`.

## Model

| member | source | states |
|---|---|---|
| Numbers.Min | serve.py:223 | `min(a, b)` is one of its arguments and at most both |
| Text.IsSpace | serve.py:220 | the whitespace of `str.isspace()` for ASCII: exactly space, tab, line feed, vertical tab, form feed, carriage return and the separators U+001C to U+001F |
| Text.Lower | serve.py:220 | `lower()` keeps the length and lower-cases each ASCII capital, leaving every other character alone |
| Text.LowerIdempotent | serve.py:223-224 | lower-casing an already lower-cased string changes nothing, so the lower-cased tokens are matched against lower-cased fields consistently |
| Text.SplitWhitespace | serve.py:220 | `split()` yields only non-empty words free of whitespace |
| Text.SplitKeepsNonSpace | serve.py:220 | the words of `split()`, concatenated, are exactly the input with its whitespace removed, so no character is lost or invented |
| Text.SplitOfSpaces | serve.py:220 | a string of whitespace only splits into no words |
| Text.SplitOfWord | serve.py:220 | a single word splits into itself |
| Text.SplitAtSpace | serve.py:220 | every whitespace character separates: the words are those before it followed by those after it |
| Text.JoinWith | serve.py:228 | `sep.join(ws)` has the words' total length plus one separator between neighbours, starts with the first word and then the separator |
| Text.JoinWithContains | serve.py:228 | every joined string occurs in the result |
| Text.SplitJoinRoundTrip | serve.py:220 | splitting words joined by single spaces gives back exactly those words |
| Text.SplitOfStrip | serve.py:220 | `strip()` before `split()` does not change the tokens |
| Text.StripLeft | serve.py:220 | the left strip is a suffix of its input that does not start with whitespace, and everything dropped is whitespace |
| Text.StripRight | serve.py:220 | the right strip is a prefix of its input that does not end with whitespace, and everything dropped is whitespace |
| Text.Strip | serve.py:220 | `strip()` is a contiguous piece of the input, neither starting nor ending with whitespace, with only whitespace before and after it |
| Text.SplitOn | serve.py:187 | `split(',')` gives at least one field, and no field contains the separator |
| Text.SplitOnRoundTrip | serve.py:187 | joining the fields of `split(',')` with `,` gives back the original string |
| Text.Count | serve.py:223-224 | `count` of a non-empty token times the token's length is at most the string's length |
| Text.CountIsNonOverlapping | serve.py:223-224 | `count` of a non-empty token is the largest number of pairwise non-overlapping occurrences: that many exist, and no larger family does |
| Text.CountPositiveIffOccurs | serve.py:224 | a non-empty token counts positive exactly when it occurs as a substring |
| Text.CountWithoutChar | serve.py:224 | a string that lacks some character of the token has count 0 for it |
| Text.CountLeadingWord | serve.py:223-224 | a token at the start of a string, followed by text lacking one of its characters, is counted exactly once |
| Text.StrLess | serve.py:234 | string `<`: never holds between equal strings, and a proper prefix comes first |
| Text.StrLessFirstDifference | serve.py:234 | at the first position where two strings differ, the code points there decide the order |
| Text.StrLessIrreflexive | serve.py:234 | no pid sorts before itself |
| Text.StrLessTransitive | serve.py:234 | string order is transitive |
| Text.StrLessTotal | serve.py:234 | of two different pids, one sorts before the other |
| Text.StrLessAsymmetric | serve.py:234 | two strings are never each before the other |
| Text.ParseInt | serve.py:311 | `int(s)` succeeds exactly when `s` holds none of the separators U+001C to U+001F and the stripped text is an optional sign followed by ASCII digits; the value is that literal's |
| Text.SeparatorRefused | serve.py:311 | a separator U+001C to U+001F anywhere, even in the padding that `strip()` would remove, makes `int()` fail |
| Text.ParseSigned | serve.py:298 | on stripped text, succeeds exactly on an optional sign and digits; the value is the digits' decimal value, negated after `-` |
| Text.ParseIntPadded | serve.py:311 | whitespace other than the separators U+001C to U+001F, before and after the literal, does not change `int()` |
| Text.IntToString | serve.py:345 | `str(n)` starts with `-` exactly for negative `n`, followed by decimal digits with no leading zero except in `"0"` |
| Text.ParseIntOfString | serve.py:311 | `int(str(n)) == n` for every integer |
| Search.Tokens | serve.py:220 | the query tokens are non-empty whitespace-free words, the whitespace split of the lower-cased query |
| Search.MatchUnique | serve.py:224 | `matchu` counts at most one per query token |
| Search.MatchCapped | serve.py:223 | `match` adds at most 3 per query token |
| Search.Score | serve.py:227-230 | a paper's score is at most 33 per query token |
| Search.TokenScore | serve.py:223-230 | one token is worth at most 33 = 10 + 20 + 3 |
| Search.ScoreIsSumOfTokenScores | serve.py:223-230 | the score is the sum over the token list (repeats counted each time) of 10 for an author hit, 20 for a title hit and min(3, summary count) |
| Search.TokenScorePositiveIff | serve.py:223-230 | a token is worth something exactly when it occurs, case-insensitively, in the author names, the title or the summary |
| Search.ScorePositiveIff | serve.py:227-231 | a paper is a hit exactly when some query token is worth something for it |
| Search.NoTokensNoScore | serve.py:220-231 | a query that is empty or whitespace only has no tokens, and every paper scores 0 for it |
| Search.AuthorLine | serve.py:228 | every author name occurs in the space-joined author line |
| Search.Above | serve.py:234 | in the reverse `(score, pid)` order a pair precedes only a different pair with no larger score |
| Search.AboveTransitive | serve.py:234 | the reverse `(score, pid)` order is transitive |
| Search.AboveTotal | serve.py:234 | of two different pairs, one comes first |
| Search.AboveIrreflexive | serve.py:234 | no pair comes before itself |
| Search.Insert | serve.py:234 | one insertion step of the sort keeps the list in strict reverse order and adds exactly the new pair |
| Search.SortPairs | serve.py:234 | `pairs.sort(reverse=True)` gives a permutation of the pairs in strictly descending `(score, pid)` order |
| Search.DistinctPidsDistinct | serve.py:225-232 | pairs with distinct pids are distinct, so the reverse order is strict on them |
| Search.CollectHits | serve.py:225-232 | the scoring loop collects exactly the papers with positive score, each once, with its score |
| Search.Unzip | serve.py:235-236 | the two output lists have the pairs' length, and entry k of each is the pid and score of pair k |
| Search.SingleHit | serve.py:231-237 | a search whose only hit is one paper returns that paper alone, with its score |
| Search.SortedHits | serve.py:234-236 | the sorted, unzipped hit list keeps each stored paper with its positive score, holds every positive-scoring paper, and is in strictly descending `(score, pid)` order |
| Search.SearchRank | serve.py:217-237 | empty query gives empty lists; otherwise equal lengths, each entry a stored paper with its positive score, every positive-scoring paper present, and the output in strictly descending `(score, pid)` order |
| Ranking.InsertByTime | serve.py:159 | one step of the stable time sort adds exactly the new pid |
| Ranking.InsertByTimeSorted | serve.py:159 | inserting into a newest-first list keeps it newest first |
| Ranking.InsertByTimeStable | serve.py:159 | inserting appends the new pid after every pid with the same `_time` |
| Ranking.WithTimeAppend | serve.py:159 | the papers with a given `_time`, listed along a concatenation, are those of each part in turn |
| Ranking.SortByTime | serve.py:159 | `sorted(..., key=_time, reverse=True)` is a permutation, newest first, and stable: papers with equal `_time` keep the store's order |
| Ranking.TimeRank | serve.py:157-163 | `time_rank` lists every meta key exactly once, newest first and stable, with an aligned score whose value times 86400 is `now - _time` |
| Ranking.RandomRank | serve.py:150-155 | for any shuffle, `random_rank` lists every meta key exactly once, with an aligned list of zeros |
| Seqs.PermutationOfEnumeration | serve.py:159-161 | a rearrangement of the store's items still lists every key exactly once |
| Seqs.IndexPermutationOnto | serve.py:152-153 | a shuffle of `n` positions reaches every position |
| Seqs.KeepFrom | serve.py:299 | the kept indices increase, each is a masked position, and every masked position is kept |
| Seqs.Select | serve.py:300 | `[s[i] for i in keep]` has one entry per kept index, taken from that index |
| Seqs.SelectKeepIsFilter | serve.py:299-300 | selecting the kept indices is exactly the order-preserving filter |
| Seqs.SelectZip | serve.py:300 | selecting the same indices from both parallel lists keeps each pid with its score |
| Seqs.FilterMembership | serve.py:299-300 | an element survives the filter exactly when a position holding it is kept |
| Seqs.FilterDistinct | serve.py:299-300 | filtering never introduces duplicate pids |
| Labels.SelectedTags | serve.py:187 | `all` selects every tag of the library; otherwise exactly the comma-separated fields are selected |
| Labels.TaggedPapers | serve.py:188-191 | a pid is positive exactly when it is filed under some selected tag of the library |
| Labels.PidIndex | serve.py:176-179 | `ptoi` maps exactly the feature pids, each to a row carrying it, and a repeated pid to its last row |
| Labels.LastOccurrenceUnique | serve.py:177-178 | each pid has one last row, so `ptoi` is well defined |
| Labels.Positives | serve.py:182-191 | with a target pid, exactly that pid is positive; otherwise exactly the pids filed under a selected tag, every tag for `all` and the comma-separated fields otherwise |
| Labels.LabelOf | serve.py:182-191 | each row's label is 0 or 1, and 1 exactly when its pid is positive and no later row carries that pid, i.e. the row `ptoi` maps it to |
| Labels.Sum | serve.py:193 | `y.sum()` of a 0/1 vector lies between 0 and its length |
| Labels.SumZeroIff | serve.py:193 | a 0/1 label vector sums to 0 exactly when no label is 1 |
| Labels.MarkAll | serve.py:183-191 | writing 1 at `ptoi[p]` for a set of pids either stops at a pid with no row, or leaves the labels of exactly the previous and new positives |
| Labels.MarkTagged | serve.py:188-191 | the tag loop either stops at the first tagged pid with no row, or labels exactly the papers of the selected tags |
| Labels.BuildLabels | serve.py:169-194 | no tags and no pid gives the empty result; a missing feature row is reported exactly when some positive has none; the empty result otherwise comes exactly when there are no positives; else one label per row, 1 exactly at the last row of each positive |
| Pipeline.SubseqTransitive | serve.py:293-317 | order preservation composes across the three stages |
| Pipeline.FilterIsSubseq | serve.py:299-300 | a filter keeps the relative order |
| Pipeline.SliceIsSubseq | serve.py:316-317 | a slice keeps the relative order |
| Pipeline.Keep | serve.py:299-307 | the two comprehensions over `keep` give equal-length lists whose pairs are exactly the masked pairs of the input, in order |
| Pipeline.FirstMissing | serve.py:299 | no pid is reported exactly when every pid has a metadata record; the reported position is the first without one |
| Pipeline.TimeMask | serve.py:298-299 | a paper is kept exactly when `now - _time < delta` |
| Pipeline.TimeFilter | serve.py:294-300 | a `KeyError` exactly when some pid has no record, naming such a pid; otherwise the pairs that survive are exactly those younger than `days * 86400` seconds, in order |
| Pipeline.Owned | serve.py:305 | a pid is owned exactly when it is filed under some tag of the library |
| Pipeline.NotOwnedMask | serve.py:306 | a paper is kept exactly when it is not owned |
| Pipeline.SkipOwned | serve.py:303-307 | the pairs that survive are exactly those whose pid is not owned, in order |
| Pipeline.PageNumber | serve.py:310-313 | the page is at least 1: the parsed number when it is at least 1, else 1, including when parsing fails |
| Pipeline.PageNumberRoundTrip | serve.py:311 | writing the page number out and parsing it again selects the same page |
| Pipeline.PySlice | serve.py:316-317 | `s[start:end]` holds the entries from `start` up to `min(end, len)`, none when `start` is not below both, entry k taken from position `start + k` |
| Pipeline.Paginate | serve.py:314-317 | at most 25 entries; empty when the start `(page-1)*25` is past the end; otherwise `min(25, len - start)` entries, entry k of both lists taken from position `start + k` |
| Pipeline.PaginateIsSlice | serve.py:314-317 | pagination keeps the relative order of the pairs |
| Pipeline.ApplyFilters | serve.py:293-317 | a non-numeric window is an error, and a pid without metadata under a window is an error. Otherwise the page is exactly page `max(1, int(page_number))` of the pairs that pass both filters (`FilteredPage`): at most 25 entries, an order-preserving selection of the input pairs, all younger than the window when it is given, and none owned when `skip_have` is `yes` |
| Pipeline.PassMask | serve.py:298-306 | a pair passes exactly when it is in the window (or no window is given) and is not owned (or owned papers are not skipped) |
| Pipeline.ExactPage | serve.py:293-317 | the window stage, the skip-owned stage and pagination together give the page of the combined filter |
| Pipeline.TimeStageExact | serve.py:294-300 | after the window stage, the pairs left are exactly those in the window |
| Pipeline.OwnedStageExact | serve.py:303-307 | after the skip-owned stage, the pairs left are exactly the shown ones |
| Pipeline.PaginateZip | serve.py:314-317 | the page of the two parallel lists is the slice of the paired list |
| Seqs.FilterThenFilter | serve.py:299-307 | filtering twice is filtering once by the conjunction of the two masks |
| Seqs.MaskOfFilter | serve.py:306 | a test along a filtered list is the filtered list of tests |
| Seqs.FilterByTwoPredicates | serve.py:299-307 | filtering by one test and then by another keeps exactly the elements passing both, in order |
| Seqs.FilterAllTrue | serve.py:294-307 | a mask that keeps everything leaves the list as it is, as when a filter is switched off |
| Pipeline.PipelineProperties | serve.py:293-317 | each stage keeps the pairs in order, and the window and ownership conditions survive the later stages |
| Pipeline.TimeStage | serve.py:294-300 | the time window keeps the pairs in order and only papers younger than the window |
| Pipeline.OwnedStage | serve.py:303-307 | the skip-owned filter keeps the pairs in order and drops every owned paper |
| Pipeline.PaginationOfThirty | serve.py:314-317 | of 30 results, page 1 holds positions 0-24, page 2 positions 25-29, page 3 nothing |
| Tags.AddPid | serve.py:439-441 | after adding, the tag exists and holds the pid plus what it held before; every other tag is unchanged |
| Tags.RemovePid | serve.py:464-480 | a missing tag and a pid not in the tag are their own outcomes; otherwise the pid leaves the tag, the tag is deleted exactly when the pid was its last one, and every other tag is unchanged |
| Tags.DropTag | serve.py:494-498 | a missing tag is its own outcome; otherwise exactly that key is removed and every other tag is unchanged |
| Tags.AddPidKeepsWellFormed | serve.py:424-441 | adding to a non-protected tag keeps the library free of protected names and of empty tags |
| Tags.RemovePidKeepsWellFormed | serve.py:467-477 | removal with pruning keeps the library free of empty tags |
| Tags.DropTagKeepsWellFormed | serve.py:494-501 | deleting a tag keeps the library well formed |
| Tags.AddThenRemove | serve.py:439-477 | adding a pid that was not in the tag and removing it again restores the library, so a tag created by the add is pruned |
| Tags.AddPidIdempotent | serve.py:439-441 | adding the same pid twice equals adding it once |
| Tags.TagsDb.Add | serve.py:420-447 | logged out, `all` and `null` are refused in that order with the store unchanged; otherwise the user's library, created empty if absent, becomes `AddPid` of it and is returned; the store invariant is kept |
| Tags.TagsDb.Sub | serve.py:449-480 | logged out, no library, missing tag and pid not in the tag each give their own reply with the store unchanged; otherwise the library becomes the `RemovePid` result; the store invariant is kept |
| Tags.TagsDb.DeleteTag | serve.py:482-504 | logged out, no library and missing tag each give their own reply with the store unchanged; otherwise the tag is removed and the new library returned; the store invariant is kept |
| Examples.TokensOfNeural | serve.py:220 | the query "neural" has the single token "neural" |
| Examples.ScoreOfA | serve.py:223-230 | a paper titled "Neural Networks" with summary "neural networks are great" scores 20 + 1 = 21 |
| Examples.ScoreOfB | serve.py:223-230 | a paper on cooking scores 0 for "neural" |
| Examples.NeuralScores | serve.py:220-230 | for the query "neural" the first paper scores 21 and the second 0 |
| Examples.SearchOfTwo | serve.py:217-237 | over two papers of which only the first scores, the search returns the first alone with its score |
| Examples.NeuralSearch | serve.py:217-237 | searching "neural" over those two papers returns the first alone, with score 21 |
| Examples.TwoDayOldPaper | serve.py:294-300 | a paper two days old passes a 3-day window and fails a 1-day window |
| Examples.UnknownTagHasNoSignal | serve.py:185-194 | ranking by a tag the library does not hold gives the empty result |
| Examples.AddThenSubPrunes | serve.py:420-480 | on a fresh store, adding a pid to a new tag and removing it leaves the user an empty library; adding to `all` is refused |

## Left out

- The SVM fit, `decision_function`, the ×100 scaling and the word extraction (`serve.py:196-215`): floating-point numerics inside sklearn.
- The `itop` map (`serve.py:176-179`): it is only read after the fit.
- The strategy dispatch at the top of the index page (`serve.py:249-291`), including `float(opt_svm_c)`: string routing to the modelled rankings.
- The `pids[:2]` render crop, `render_pid`, `summarize_abstract`, `run_tts`, the page context and `render_template` (`serve.py:319-340`): LLM calls, text-to-speech, the file system and UI rendering.
- Flask routing, sessions, `before_request`/`teardown_request`, login/logout, `register_email`, `/stats`, `/about` and `/inspect`: web glue, a regex wrapper, and formatting of float tf-idf values.
- The database layer and `load_features`: the stores are in-memory maps, and each tag operation's read-modify-write is one atomic step, so concurrent requests and last-writer-wins are not modelled.
- `time.time()` and `random.shuffle`: the clock is the parameter `now`, and the shuffle is any index permutation; the uniform distribution of the shuffle is not modelled.
- static/paper_list.js and ai_things: browser UI and calls into llama_cpp and Coqui TTS.
- Text.Lower: only ASCII letters are lower-cased; Unicode case mapping is not modelled.
- Text.IsSpace: only the ASCII whitespace of `str.isspace()` is recognised; Unicode spaces are not.
- Text.ParseInt: accepts only ASCII digits; underscores between digits and non-ASCII digits, which `int()` also accepts, are not modelled.
- Text.ParseInt: the limit of 4300 digits that newer CPython releases put on `int()` and `str()` (a `ValueError` beyond it) is not modelled, because it depends on the interpreter version and its settings; `Text.ParseIntOfString` holds without it.
- Search.SearchRank: scores are exact naturals; Python uses floats, which hold these small integer sums exactly.
- Pipeline.TimeFilter: the window test `(tnow - _time) < deltat` is an exact comparison of reals; float rounding near the boundary is not modelled.
- Ranking.TimeRank: times and ages are exact reals, so float rounding of `(tnow - _time)/60/60/24` is not modelled.
- Labels.BuildLabels: labels are the integers 0 and 1, not `float32`.
- Tags.TagsDb.Add: the log line printed after a successful add (`serve.py:446`) is not modelled, being console output only; likewise the one `Tags.TagsDb.DeleteTag` prints (`serve.py:503`).
- Tags.TagsDb.Add: the reply carries the library value itself, not its `str(d)` rendering; likewise `Tags.TagsDb.DeleteTag`.
