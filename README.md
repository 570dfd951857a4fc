# Hashtag frequency pipeline of the Emart ranking dashboard

The dashboard in `main.py` loads the top-20% product table and splits it by
the `PB or Not` column into private-brand (`PB`) and other (`NotPB`)
products. For each class it builds a "Top 10 Hashtags" bar chart:

1. Drop rows whose `Hashtags` cell is missing.
2. Keep the rows of the class.
3. Turn every cell into tokens: split it on `,`, skip a piece that is exactly
   `[]`, and strip `[`, `]` and space from both ends of every other piece.
4. Count the tokens with `Counter`.
5. Sort the `(Hashtag, Frequency)` table by frequency, descending.
6. Draw the first ten rows.

It also shows the PB share of the table as a metric.

This project models that pipeline in Dafny as pure functions and proves
properties about it. The modules are:

- `TagNormalizer` (`tag_normalizer.dfy`): `str.split(',')`, `str.strip("[] ")` and
  the cleaning comprehension, one cell at a time and over a list of cells.
- `Partition` (`partition.dfy`): the class filters, `dropna(subset=['Hashtags'])`
  and the PB share.
- `Frequency` (`frequency.dfy`): `Counter` as a left fold that tallies one
  token at a time. Its entries come in first-seen order, like the keys of
  Python's `Counter`.
- `Ranking` (`ranking.dfy`): the descending sort and `.head(10)`. pandas'
  default sort is not stable, so the model does not fix one result. It
  describes every admissible result: a permutation of the counter's entries
  whose counts never increase. `SortByCount` is one such result. It shows
  that a ranking always exists, and no property depends on its tie order.
- `HashtagPipeline` (`pipeline.dfy`): the whole chain for one class, and a
  worked example with two PB rows and one NotPB row.
- `Sequences` and `Wrappers`: generic helpers for sequences, multisets and
  `Option`.

The comment at `main.py:119` says that `[]` and blanks are excluded from the
token list. The code excludes only pieces that are exactly `[]`, and it tests
this before stripping. So the comprehension does emit empty tokens: the piece
`" ]"` in `"[a, ]"` strips to `""`, and so does the whole cell `" []"`. The
model follows the code. `TagNormalizer.TrailingBlankPieceKept`,
`TagNormalizer.PaddedMarkerKept` and `TagNormalizer.MarkerLikeCell` state
this behaviour.

## Model

| member | source | states |
|---|---|---|
| `TagNormalizer.SplitShape` | main.py:118 | `tags.split(',')` gives exactly one more piece than the cell has commas, and no piece contains a comma |
| `TagNormalizer.JoinSplit` | main.py:118 | splitting loses nothing: joining the pieces with `,` gives back the cell |
| `TagNormalizer.SplitJoin` | main.py:118 | splitting the `,`-join of a non-empty list of comma-free pieces gives back exactly those pieces |
| `TagNormalizer.SplitTwo` | main.py:118 | a cell with one comma splits into exactly the text before it and the text after it |
| `TagNormalizer.SplitNoSeparator` | main.py:118 | a cell without a comma is one piece |
| `TagNormalizer.StripIsStrip` | main.py:118 | `strip("[] ")` cuts only `[`, `]` and space, only from the two ends, and leaves neither end one of them |
| `TagNormalizer.StripUnique` | main.py:118 | any cut of that kind whose ends are not strip characters is the result of `strip` |
| `TagNormalizer.StripCharacterised` | main.py:118 | `r == strip(s)` exactly when `r` is `s` with strip characters cut from both ends and no strip character left at either end |
| `TagNormalizer.StripIdempotent` | main.py:118 | stripping a stripped token changes nothing |
| `TagNormalizer.StripAllStripChars` | main.py:118 | a piece made only of `[`, `]` and space strips to the empty token |
| `TagNormalizer.StripWrapped` | main.py:118 | a trimmed word with strip characters on either side strips to the word |
| `TagNormalizer.StripKeepsOnly` | main.py:118 | stripping adds no character, so a character absent from the piece is absent from the token |
| `TagNormalizer.CleanPiecesConcat` | main.py:118 | the inner loop over pieces keeps their order: tokens of earlier pieces come first |
| `TagNormalizer.CleanPiecesLength` | main.py:118 | a cell yields at most one token per piece |
| `TagNormalizer.CleanPiecesInPlace` | main.py:118 | every piece other than `[]` yields its strip in its own place among the tokens, and a `[]` piece yields nothing |
| `TagNormalizer.CleanPiecesAt` | main.py:118 | every token is the strip of some piece that is not exactly `[]` |
| `TagNormalizer.CleanPiecesTokens` | main.py:118 | every token is the strip of a piece other than `[]`, and is trimmed and unchanged by a second strip |
| `TagNormalizer.CleanPiecesNoSeparator` | main.py:118 | if no piece holds a character, no token does |
| `TagNormalizer.CleanCellShape` | main.py:118 | one cell yields at most (commas + 1) tokens, each trimmed, unchanged by a second strip, comma-free and the strip of a piece other than `[]` |
| `TagNormalizer.CleanSinglePieceCell` | main.py:118 | a cell with no comma that is not `[]` yields exactly its strip |
| `TagNormalizer.CleanCellsConcat` | main.py:118 | the outer loop over cells keeps their order: tokens of earlier cells come first (also line 124) |
| `TagNormalizer.EmptyListCell` | main.py:118 | the cell `[]` contributes no token |
| `TagNormalizer.MarkerLikeCell` | main.py:118 | a cell made only of `[`, `]` and space that is not exactly `[]` yields one empty token, because the `[]` test comes before the strip |
| `TagNormalizer.TrailingBlankPieceKept` | main.py:118 | `"[a, ]"` yields `["a", ""]`: the blank piece is not dropped |
| `TagNormalizer.PaddedMarkerKept` | main.py:118 | `" []"` and `"[ ]"` each yield `[""]` |
| `Partition.WithLabelSpec` | main.py:59-60 | the class filter keeps every row of the class as often as it occurs, keeps no other row, and keeps row order |
| `Partition.DropMissingSpec` | main.py:109 | `dropna` keeps every row with a `Hashtags` cell as often as it occurs, drops every row without one, and keeps row order |
| `Partition.LabelSplit` | main.py:59-60 | a class filter keeps at most all rows, and keeps all of them exactly when every row has that class |
| `Partition.PartitionBounded` | main.py:59-60 | the PB and NotPB groups share no row; together they hold at most the rows of the table, and all of them exactly when every row is labelled `PB` or `NotPB` |
| `Partition.PbShare` | main.py:69-71 | the PB share is (PB rows, all rows) with PB rows at most all rows; it is undefined (division by zero) exactly when the table is empty |
| `Partition.HashtagGroups` | main.py:109-112 | a row is in a class's hashtag group exactly when it is in the table, has a `Hashtags` cell and has that class |
| `Partition.FiltersConcat` | main.py:109-112 | both filters distribute over concatenation, so the groups keep the table's row order |
| `Frequency.TallyCounts` | main.py:129 | counting one more token keeps the table an exact count: distinct tags, each with the multiplicity of its token, and exactly the tokens seen |
| `Frequency.TallySum` | main.py:129 | counting one more token adds exactly one to the total of the counts |
| `Frequency.TallyKeepsOrder` | main.py:129 | counting one more token never moves an entry; a new token gets count 1 at the end |
| `Frequency.CounterOfCounts` | main.py:129 | `Counter(tokens)` has one entry per distinct token with its exact number of occurrences, and the counts add up to the number of tokens (also line 132) |
| `Frequency.CounterOfFirstSeenOrder` | main.py:135-136 | `counter.items()` lists tags in the order in which the tokens first occur |
| `Ranking.SortByCount` | main.py:139-140 | every counter table has a descending arrangement by count that is a permutation of it |
| `Ranking.TopN` | main.py:145 | `.head(n)` is the first `min(n, rows)` rows of the table (also line 156) |
| `Ranking.RankingTallies` | main.py:135-139 | any sorted table is still an exact count: same number of rows, distinct tags, exact counts |
| `Ranking.NonIncreasingIsDescending` | main.py:139-140 | a table is sorted by `Frequency`, descending, exactly when its count column never increases |
| `Ranking.RankingsAgreeOnCounts` | main.py:139-140 | all admissible sort results have the same count column; they differ only in the order of tied tags |
| `Ranking.TopNOfRanking` | main.py:145 | the chart rows are at most n rows of the counter in non-increasing count order, and no row left out has a larger count than a row shown |
| `Ranking.TopNCountsAgree` | main.py:145 | whatever tie order the sort picks, the chart shows the same bar heights |
| `Ranking.EmptyRanking` | main.py:135-145 | an empty counter gives an empty chart |
| `HashtagPipeline.TokensConcat` | main.py:109-118 | the token list of a table is its first part's tokens followed by its second part's tokens |
| `HashtagPipeline.TokensOfRow` | main.py:109-118 | a row contributes the tokens of its cell when it has a cell and the class, and nothing otherwise |
| `HashtagPipeline.MissingCellStillCountedInShare` | main.py:59-111 | a PB row without a cell adds no token to the PB chart (`dropna` at line 109, filter at line 111), but it still adds one to the PB rows behind the share (filter at line 59, share at lines 69-71) |
| `HashtagPipeline.ChartTable` | main.py:129-145 | for every admissible sort: one row per distinct token with its exact count, counts adding up to the number of tokens, and a chart of `min(n, rows)` bars in non-increasing order that no omitted row outranks |
| `HashtagPipeline.TopHashtagsIsChart` | main.py:135-145 | the table this model computes has `min(n, distinct tokens)` rows in non-increasing order, each with its tag's exact count |
| `HashtagPipeline.EmptyPartitionEmptyChart` | main.py:109-145 | on a table with at least one row, so that the script reaches line 109, a class with no row that has a cell gives no tokens and an empty chart |
| `HashtagPipeline.ExampleTokens` | main.py:117-124 | the rows `PB "[맛있는, 신선한]"`, `PB "[신선한]"`, `NotPB "[]"` give PB tokens `맛있는, 신선한, 신선한` and no NotPB token |
| `HashtagPipeline.ExampleCounters` | main.py:129-132 | for those rows the PB counter is `[(맛있는, 1), (신선한, 2)]` in first-seen order, and the NotPB counter is empty |
| `HashtagPipeline.ExampleChart` | main.py:139-145 | for those rows every admissible PB chart is `[(신선한, 2), (맛있는, 1)]` |

## Left out

- Streamlit layout, the other metrics and widgets, the product-table expander and `webbrowser`, because they display values and compute none the chart needs.
- Loading and caching of the CSV files and the category list, because they are I/O. The top-20% table is a parameter (`seq<Row>`). Which cells count as missing is decided by `read_csv`'s default NA parsing: an empty field, `NA`, `null`, `None`, `nan` and similar become NaN and are dropped at line 109. The model takes `Row.hashtags` as already parsed, so in the program a present cell is never `""`, and the `""` instance of `TagNormalizer.MarkerLikeCell` is never reached.
- The discount-rate boxplots and the combined PB/NotPB frame (lines 85-103), because they are plotting only.
- Drawing the bars with matplotlib, because it is drawing only. The model stops at the rows the chart shows. `.head(10)` is applied to the Hashtag column and to the Frequency column separately, which selects the same rows, so one `TopN` models both.
- Columns of the product table other than `PB or Not` and `Hashtags`, because the pipeline reads no other.
- HashtagPipeline.EmptyPartitionEmptyChart: on an empty table the script stops at line 71 with a division by zero, before any hashtag chart is drawn, so the program shows no chart at all. The lemma covers lines 109-145 only; `Partition.PbShare` models that failure as `None`.
- Partition.PbShare: the metric multiplies the fraction by 100 and formats it with one decimal (`:.1f`). The model returns the exact fraction as (PB rows, all rows) and leaves out floating point and formatting.
- The tie order of `sort_values`, because pandas' default sort is not stable. Rankings are specified by what every admissible order shares. `Ranking.SortByCount` is one admissible order and nothing depends on its ties.
- Cells that are not strings after `dropna` (for example a number read from the CSV). The model takes every present cell to be text.
