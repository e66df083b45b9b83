# PageRank power iteration and TextRank graph building, in Dafny

This project models the numerical core of the `pagerank` repository and the
graph-building half of its TextRank keyword ranker, and proves properties of
the model over exact reals.

**PageRank.** `power_iteration` turns a weighted graph into steady-state
visiting probabilities. It reads the graph into a pandas `DataFrame`, takes the
node set as the row labels together with the column labels, and squares the
table over that node set, filling absent cells with 0.0. It replaces every row
whose sum is exactly 0.0 (a dangling node) by a row of ones, then normalises
each row to sum to 1. It mixes in the random surfer as
`(1 - rsp) * P + rsp / N` and starts from the uniform vector `1/N`. An empty
node set raises `ValueError("There must be at least one node.")`. Finally it
multiplies `state · P` at most `max_iterations` times, stopping after the first
product whose change has Euclidean norm below `epsilon`.

The repository has this pipeline twice: `src/pagerank/__init__.py` and the
legacy `pagerank.py`, nearly line for line. They differ in the declared input
type. The legacy copy takes a dict of dicts or a `DataFrame` (pagerank.py:75).
The current one takes a mapping of mappings or a sequence of sequences
(src/pagerank/__init__.py:136-137). The steps after `DataFrame(...)` are the
same. One model covers both, and the table below cites whichever copy states a
property most directly.

A pandas `DataFrame` built from a dict of dicts makes the outer keys the
COLUMNS and the inner keys the ROWS. So in `Frames.FromDict` the weight
`g[c][r]` sits in row `r`, column `c`, and the walk goes from the inner key to
the outer key. A list of lists keeps row `i` as the `i`-th inner list. The node
order that a Python set would supply is an explicit index sequence,
`Frames.Enumerate`. Every result is stated relative to that order.

**TextRank.** `textrank` filters a tokenised, tagged document down to the
lower-cased tokens that are not punctuation and carry a relevant part-of-speech
tag. It counts co-occurrences within a sliding window into a nested map and
ranks that map with `power_iteration`. The model takes the token list and the
tag list as inputs. `Cooccurrence.Graph` defines the counted map pair by pair,
and the ranker's scores are stated as the walk over that graph.

Modules: `Results` (Option/Result, the `ValueError`), `Vectors` and `Matrices`
(the real algebra the pipeline uses), `Frames` (the labelled table, both input
shapes, node extraction, squaring), `PageRank` (the pipeline and the loop),
`Cooccurrence` (the window counter), `TextRank` (NLP utilities, preprocessing,
the composed ranker).

## Model

| member | source | states |
|---|---|---|
| Frames.FromDict | pagerank.py:81 | A dict graph becomes a table whose columns are the outer keys and whose rows are the inner keys. Cell `(r, c)` exists exactly when `g[c][r]` does, and holds that weight. |
| Frames.FromRows | src/pagerank/__init__.py:174 | A list graph has rows `0..len-1` and one column per position of any inner list. Cell `(i, j)` exists exactly when `rows[i][j]` does, and holds it. |
| Frames.Nodes | src/pagerank/__init__.py:10-24 | The node set holds the row and column labels of every cell of a well-formed table. |
| Frames.NodesOfDict | src/pagerank/__init__.py:10-24 | The node set of a dict graph is exactly its outer keys together with every inner key. |
| Frames.NodesOfRows | pagerank.py:13-19 | The node set of a list graph is exactly the row positions together with the column positions. |
| Frames.Enumerate | src/pagerank/__init__.py:112-115 | Produces an order on the node set that lists each node exactly once and nothing else. |
| Frames.Square | src/pagerank/__init__.py:27-51 | The squared table has every listed node as a row and as a column. A cell holds its given weight, and 0.0 where no weight was given. |
| Frames.SquareKeepsWeights | pagerank.py:22-36 | Over the node set, every given weight appears in the squared table at its own row and column. |
| Frames.SquareOfDict | src/pagerank/__init__.py:174-176 | For dict input, squared cell `[i][j]` is `g[index[j]][index[i]]`, or 0.0 when absent: the row is the inner key and the column the outer key. |
| Frames.SquareNonNegative | pagerank.py:34-36 | Squaring non-negative weights, with 0.0 fill, gives a non-negative table. |
| PageRank.EnsureRowsPositive | src/pagerank/__init__.py:54-69 | A row summing to exactly 0.0 becomes all ones, and every other row is unchanged. Afterwards no non-empty row sums to 0. |
| PageRank.CorrectedRowsPositive | pagerank.py:39-46 | On a non-negative square table, after the correction every row sum is strictly positive and every entry is still non-negative. |
| PageRank.EnsureRowsPositiveIdempotent | src/pagerank/__init__.py:63-69 | Applying the correction twice is the same as applying it once. |
| PageRank.NormalizeRows | src/pagerank/__init__.py:72-81 | Each row is divided by its own sum: every entry times the old row sum gives back the old entry, and every row sums to 1. |
| PageRank.NormalizeRowsStochastic | pagerank.py:49-50 | Normalising non-negative rows with positive sums gives a row-stochastic table. |
| PageRank.NormalizeRowsIdempotent | src/pagerank/__init__.py:81 | A normalised table can be normalised again, and doing so changes nothing. |
| PageRank.DanglingRowBecomesUniform | pagerank.py:84-88 | Because the correction runs before normalisation, a dangling row ends up as the uniform distribution `1/N`. |
| PageRank.Teleport | src/pagerank/__init__.py:131 | The jump weight `1/N * rsp`, multiplied by `N`, gives back `rsp`. |
| PageRank.Mix | src/pagerank/__init__.py:118-132 | Every row of the mixed table is `(1 - rsp)` times the old row plus the jump weight `alpha`, entry by entry, with `alpha * N == rsp`. |
| PageRank.MixRowSums | src/pagerank/__init__.py:118-132 | Mixing a table whose rows sum to 1 keeps every row summing to 1, for every `rsp`. |
| PageRank.MixLowerBound | pagerank.py:67-71 | For `0 <= rsp <= 1`, mixing a non-negative table makes every entry at least `rsp / N`, and so non-negative. |
| PageRank.MixFullTeleport | pagerank.py:70-71 | With `rsp = 1` every mixed entry is exactly `1/N`, whatever the edges. |
| PageRank.StartState | src/pagerank/__init__.py:100-115 | No nodes raises `ValueError("There must be at least one node.")`. Otherwise the start is `1/N` per node and is a distribution. |
| PageRank.Transition | src/pagerank/__init__.py:176-183 | The table the walk uses is square over the node index, and every row sums to 1, for any weights and any `rsp`. |
| PageRank.TransitionBounds | pagerank.py:83-91 | With non-negative weights and `0 <= rsp <= 1` the table is row-stochastic with every entry at least `rsp / N`. With `rsp = 1` it is exactly uniform. |
| Matrices.ProductConservesMass | src/pagerank/__init__.py:187-190 | `state · P` has the same total as `state` when the rows of `P` sum to 1. |
| Matrices.ProductLowerBound | pagerank.py:96 | If every entry of `P` is at least `b`, each entry of `state · P` is at least `b` times the mass of a non-negative `state`. |
| PageRank.Step | src/pagerank/__init__.py:186-190 | One step `state · P` keeps the length of the state, and keeps its total when the rows of `P` sum to 1. |
| PageRank.Power | src/pagerank/__init__.py:185-190 | The state after `k` steps has the length of the start and, when the rows of `P` sum to 1, the same total, for every `k`. |
| PageRank.Delta | src/pagerank/__init__.py:186-191 | The `k`-th change, added to the state before the step, gives the state after it. When the rows of `P` sum to 1 the change sums to 0. |
| PageRank.ConvergedIsNormBelow | src/pagerank/__init__.py:84-94 | For the non-negative `norm` whose square is `d · d`, the squared stop test holds exactly when `norm < epsilon`. So it decides `__euclidean_norm(delta) < epsilon`. |
| PageRank.PowerDistribution | pagerank.py:94-96 | Under a row-stochastic table, a distribution stays a distribution after every step. |
| PageRank.PowerLowerBound | src/pagerank/__init__.py:187-190 | After at least one step, every entry of the state is at least the smallest transition entry. |
| PageRank.PowerOfUniform | pagerank.py:94-99 | Under a uniform table the uniform state is a fixed point at every step count. |
| PageRank.FullTeleportStopsAtOnce | src/pagerank/__init__.py:191-193 | With `rsp = 1` and `epsilon > 0`, the first step's change passes the stop test. |
| PageRank.Iterate | src/pagerank/__init__.py:185-195 | The loop takes at most `max(0, max_iterations)` products; the result is the state after that many. It stops exactly at the first step whose change passes the stop test, and runs to the cap when no step does. Sum and non-negativity are kept. |
| PageRank.ScoreBounds | pagerank.py:94-101 | After any number of steps the scores sum to 1, and are a distribution for non-negative weights with `0 <= rsp <= 1`. After one or more steps they are at least `rsp / N`. With `rsp = 1` they are uniform, and one node scores exactly 1.0. |
| PageRank.Walk | src/pagerank/__init__.py:185-195 | From the uniform start, the scores are the walk's state after the reported number of steps. That number is exactly where `power_iteration` stops: the first step whose change passes the stop test, or `max(0, max_iterations)` when none does, and the run is reported converged exactly in the first case. `max_iterations >= 1` means at least one step. `max_iterations <= 0` returns the uniform start. `rsp = 1` with `epsilon > 0` and `max_iterations >= 1` stops after exactly one step. The `ScoreBounds` facts hold of the result. |
| PageRank.PowerIteration | src/pagerank/__init__.py:135-195 | Fails exactly when the node set is empty, and then with the start-state message. Otherwise the scores are keyed by exactly the node set and sum to 1. The number of steps is the first step passing the stop test, or the cap `max(0, max_iterations)` when none does; the other guarantees are those of `Walk` and `ScoreBounds`. |
| Cooccurrence.Weight | TextRank/textrank.py:48-52 | The weight of `w -> o` is the number of ordered position pairs `(i, j)` with `i != j`, `abs(i - j) <= window`, `words[i] = w` and `words[j] = o`. A positive weight means both words occur in the list. |
| Cooccurrence.Count | TextRank/textrank.py:45-52 | The counted `weights[w][o]` equals `Weight(w, o)` for every pair, and the whole map equals `Graph(words, window)`. Every outer and inner key is one of the words, and every stored weight is at least 1.0. |
| Cooccurrence.GraphWeights | TextRank/textrank.py:45-52 | Reading `Graph` as a defaultdict gives every pair's weight, and 0.0 for pairs that never co-occur. |
| Cooccurrence.CountedIsGraph | TextRank/textrank.py:45-52 | A map whose keys, outer and inner, are all words, whose inner maps are non-empty, which agrees with `Weight` on every read and which stores no entry below 1.0 is exactly `Graph`. This is the map the loop builds. |
| Cooccurrence.WeightSymmetric | TextRank/textrank.py:48-52 | The weight of `w -> o` equals the weight of `o -> w`. |
| Cooccurrence.CountSymmetric | TextRank/textrank.py:52 | The counted map is symmetric: `weights[w][o] == weights[o][w]`, counting absent entries as 0. |
| Cooccurrence.WeightPositive | TextRank/textrank.py:49-50 | A weight is positive exactly when `w` and `o` occur at distinct positions within the window of each other. A self-weight is therefore positive only if the word recurs within the window. |
| Cooccurrence.NothingLinked | TextRank/textrank.py:49 | A window of 0 or less, or fewer than two words, gives every pair weight 0. |
| Cooccurrence.NeighboursLinked | TextRank/textrank.py:50-52 | With a window of 1 or more and at least two words, every word has positive weight towards its neighbour. |
| TextRank.IsPunctuation | TextRank/textrank.py:67-68 | A punctuation token is a single character. |
| TextRank.PunctuationIsOneMark | TextRank/textrank.py:67-68 | A token is punctuation exactly when it is a single character among `. ? ! , " : ; ' -`. |
| TextRank.AsciiOnly | TextRank/textrank.py:63-64 | The result is no longer than the input and contains only code points below 128. A character occurs in it exactly when it occurs in the input and is ASCII. |
| TextRank.AsciiOnlyAppend | TextRank/textrank.py:64 | Filtering a concatenation is concatenating the filtered parts, so kept characters stay in order. |
| TextRank.AsciiOnlyUnchanged | TextRank/textrank.py:63-64 | A string is left unchanged exactly when all its characters are ASCII. |
| TextRank.AsciiOnlyIdempotent | TextRank/textrank.py:63-64 | Filtering twice is filtering once. |
| TextRank.LowerChar | TextRank/textrank.py:24 | `A`..`Z` map to the letter 32 code points higher, in `a`..`z`; every other character is unchanged. |
| TextRank.Lower | TextRank/textrank.py:24 | Lower-casing keeps the length and maps each character by `LowerChar`. |
| TextRank.LowerIdempotent | TextRank/textrank.py:24 | Lower-casing twice is lower-casing once. |
| TextRank.RelevantTags | TextRank/textrank.py:40-41 | No tag list means `["NN", "ADJ"]`; a given list is used as is. |
| TextRank.Kept | TextRank/textrank.py:22-29 | The filtered list is never longer than the token list and holds no punctuation. |
| TextRank.KeptMembers | TextRank/textrank.py:23-27 | A word is in the filtered list exactly when it is the lower-cased form of a token that is not punctuation and whose tag is relevant. |
| TextRank.KeptMonotone | TextRank/textrank.py:26 | Allowing more tags never shortens the filtered list. |
| TextRank.PreprocessDocument | TextRank/textrank.py:16-29 | The filtering loop returns the filtered list in input order. It is no longer than the input and holds no punctuation. |
| TextRank.GraphNonEmpty | TextRank/textrank.py:45-54 | The co-occurrence graph has an entry exactly when the window is at least 1 and there are at least two words. |
| TextRank.WordInGraph | TextRank/textrank.py:48-52 | With a window of at least 1 and two or more words, every word is an outer key of the graph. |
| TextRank.GraphNode | TextRank/textrank.py:45-54 | With a window of at least 1 and two or more words, a string is a node of the graph exactly when it is one of the filtered words. |
| TextRank.GraphNodes | TextRank/textrank.py:45-54 | An empty graph has no nodes. Once the window is at least 1 and there are two words, the node set is exactly the set of filtered words. |
| TextRank.GraphNonNegative | TextRank/textrank.py:52-54 | The graph handed to `power_iteration` has only non-negative weights. |
| TextRank.Rank | TextRank/textrank.py:32-57 | Fails with the no-node `ValueError` exactly when the window is 0 or less or fewer than two words survive filtering, the empty document included. Otherwise the ranked nodes are exactly the filtered words, each listed once. The scores are the walk over `Graph(filtered words, window)` in the ranking's node order, from the uniform start, for exactly as many steps as `power_iteration` takes with its default `epsilon` of 0.00001 and cap of 1000 steps. They sum to 1, and for `0 <= rsp <= 1` they form a distribution. |
| TextRank.RankOrEmpty | TextRank/textrank.py:43-57 | Always succeeds. The ranking is empty exactly when the window is not positive or fewer than two words survive filtering. Otherwise its nodes are exactly the filtered words, each listed once. The scores are the walk over `Graph(filtered words, window)` for exactly as many steps as `power_iteration` takes with its defaults, as for `Rank`. They sum to 1, and they form a distribution when 0 <= rsp <= 1. |

## Findings

| source | as written | input that shows it | evidently intended | confidence | as-written member | corrected member |
|---|---|---|---|---|---|---|
| TextRank/textrank.py:45-54 | When no pair co-occurs, `edge_weights` stays empty. `power_iteration({})` then finds no nodes and raises `ValueError`. | The empty document: no tokens, so no filtered words. A punctuation-only document or a single kept word behaves the same. | An empty ranking: tests/test_textrank.py:23-37 and 98-104 assert `len(scores) == 0` for these documents. | medium, not executed | TextRank.Rank | TextRank.RankOrEmpty |

## Left out

- IEEE floating point: rounding, NaN and the tests' `1e-10` tolerances. Every quantity is an exact `real`.
- The square root in `__euclidean_norm`: the stop test is `0 < epsilon && d·d < epsilon²` (`PageRank.Converged`). `PageRank.ConvergedIsNormBelow` proves this agrees with `norm < epsilon` for the non-negative square root `norm`. No square-root function is defined.
- Convergence: no geometric convergence, no existence or uniqueness of the stationary vector, and no specific numeric results (for example the three-node chain) are claimed.
- Pandas mechanics: label alignment, `DataFrame` construction details and set iteration order. The node order is the explicit sequence that `Frames.Enumerate` picks, and results are stated relative to it.
- PageRank.NormalizeRows: requires every row sum to be non-zero. Pandas would produce NaN for a zero row, which reals cannot express. The pipeline never reaches that case because the dangling correction runs first.
- Negative weights are not excluded, since the code does not reject them. The sum-to-1 results hold for any weights. Non-negativity and the `rsp / N` lower bound are proved only for non-negative weights and `0 <= rsp <= 1`.
- The node-set emptiness check happens where the source makes it, in the start state. The squaring and correction stages before it do no work on an empty table.
- Tokenisation and part-of-speech tagging (`nltk` at TextRank/textrank.py:71-76) are foreign library calls. The token list and the tag list are inputs of equal length.
- File reading and printing in `apply_text_tank` and `main` (TextRank/textrank.py:82-107) are I/O only.
- `TextRank/__init__.py` is a re-export only, and `download_nltk_data.py` is a network download. Neither is part of this model.
- `sort_values` at TextRank/textrank.py:55 discards its result, so no ordering of the returned scores is claimed.
- TextRank.LowerChar, TextRank.Lower: model `str.lower` on the ASCII letters only. Case mappings of other Unicode letters are not modelled, including those that change the length of a string (`'İ'` lower-cases to two code points), so `Lower` keeping the length is a property of the model only.
- `relevant_pos_tags` is typed `Iterable[str]` (TextRank/textrank.py:16, 36). Only a list of tags is modelled, which is what the default and every caller pass. A plain string would make `tag in relevant_pos_tags` a substring test, and a generator would be used up by the first token. Neither is modelled.
- Default arguments are not modelled as such. Callers of the model pass `window_size`, `rsp` and the tag list explicitly. The ranker uses `power_iteration`'s default `epsilon` and `max_iterations` (TextRank/textrank.py:54), as `PageRank.DefaultEpsilon` and `PageRank.DefaultMaxIterations`.
- Cooccurrence.Count: states the weight of every pair separately. The sum of all weights equalling the number of in-window position pairs is not stated as one identity over the map.
