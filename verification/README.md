# Dog-Tweets wrangling core, modelled in Dafny

The repository is a data-wrangling notebook over the WeRateDogs tweet archive.
It gathers three tables (the enhanced tweet archive, the image-prediction
table, and per-tweet retweet/like counts fetched from the Twitter API),
cleans them with a fixed sequence of steps, and merges them on `tweet_id`
into one master table. This project models that cleaning-and-merge core
as pure functions over immutable rows and proves what each step promises.

* Rows are datatypes (`Records`): an archive `Tweet`, the `CleanTweet` it
  becomes, an `ImageRow` with three `Prediction`s, a fetched `Status`, an
  `Engagement` row and the `MergedRow` of the master table. A null cell is
  `None`. Dropping columns is modelled by moving to a row type without them.
* A table is a `seq` of rows. Boolean-mask indexing is `Tables.Filter`, and
  pandas' inner `merge` is `Tables.Join`: every pair of rows with equal keys.
* A step that raises in the notebook returns a `Result`. The timestamp
  lookup raises `MissingLabel(0)` when index label 0 is gone. The name
  filter raises `EmptyName` at the first empty name. The source rewrite
  raises `MissingAnchor` at the first source without `>`.
* Index labels are modelled where they are read. A table fresh from the CSV
  reader labels row `i` with `i`, a boolean mask keeps the labels of the
  rows it keeps, and `column[0]` looks up label 0 (`Tables.At`), not
  position 0.
* The engagement dictionary is kept as a list of rows in insertion order. A
  repeated id overwrites its row in place, as a Python `dict` does.

Modules: `Wrappers` (Option, Result), `Tables` (filter, first offending row,
key sets, join, index labels), `Text` (`str.split`, `splitUrl`, the upper-case test),
`Records`, `Cleaning` (one function per cleaning step), `EngagementTable`
(the id-to-counts dictionary), `Pipeline` (the merges and the whole run).

Four behaviours of the notebook are worth stating plainly:

* `type(tweets['timestamp'][0])` (wrangle_act.py:342, 357) looks up index
  label 0 after the retweets and replies were dropped (wrangle_act.py:269,
  310). Label 0 belongs to the archive's first row, so the lookup raises
  `KeyError` when that row was a retweet or a reply, or when the archive is
  empty (`Pipeline.FirstTimestampFails`).

* The name filter indexes `x[0]` on every row (wrangle_act.py:485), so an
  empty name raises. The placeholder `"None"` starts with an upper-case
  letter, so it passes the filter.
* `splitUrl` (wrangle_act.py:510-513) raises only when the text has no `>`.
  Text with a `>` but no `<` yields everything after the first `>`, up to a
  second `>` if there is one.
* The merges (wrangle_act.py:590-596) do not check that ids are unique: an
  id held m times on one side and n times on the other gives m * n rows
  (`Tables.JoinCount`, `Pipeline.MergeCount`). With unique ids nothing is
  multiplied (`Pipeline.WrangleUnique`).

## Model

| member | source | states |
|---|---|---|
| `Tables.Filter` | wrangle_act.py:269 | Boolean-mask indexing: every surviving row passes the mask, and a row survives iff it was in the table and passes. |
| `Tables.FilterKeepsExactly` | wrangle_act.py:269 | A masked table keeps the input's relative order. Each passing row appears exactly as often as in the input; no other row appears. |
| `Tables.KeepsExactlyIsFilter` | wrangle_act.py:269 | Conversely, any table that keeps order and keeps exactly the passing rows, with their multiplicities, is the masked table. |
| `Tables.FilterCommutes` | wrangle_act.py:269-310 | Two masks give the same table whichever is applied first. |
| `Tables.FilterUnique` | wrangle_act.py:544 | Masking a table whose ids are unique leaves ids unique. |
| `Tables.Join` | wrangle_act.py:590 | Inner merge: every output pair joins a left row and a right row with equal keys, and every such pair is in the output. How often each pair occurs is the next row. |
| `Tables.JoinCount` | wrangle_act.py:590 | Each pair of rows with equal keys occurs in the merge as often as the product of its two rows' counts in the inputs; no other pair occurs. |
| `Tables.JoinFansOut` | wrangle_act.py:590 | When every key on the left equals every key on the right, the merge is the full cross product, with `|left| * |right|` rows. |
| `Tables.JoinKeys` | wrangle_act.py:590 | The merge's keys are exactly the keys both inputs share, with or without duplicates. |
| `Tables.JoinUnique` | wrangle_act.py:590 | If both inputs have unique keys, so does the merge: rows are not multiplied. |
| `Text.Split` | wrangle_act.py:511 | `str.split`: at least one piece, no piece holds the separator, one piece iff the text lacks it, and joining the pieces gives the text back. |
| `Text.SplitJoinWith` | wrangle_act.py:511-512 | Splitting a join of separator-free pieces gives the pieces back, so split and join are inverses. |
| `Text.SplitUrl` | wrangle_act.py:510-513 | `splitUrl` raises iff the text has no `>`. On success the result holds neither `>` nor `<`. |
| `Text.SplitUrlIsAnchorText` | wrangle_act.py:510-513 | `splitUrl` returns the characters strictly between the first `>` and the next `<` or `>`, or the end of the text. |
| `Text.SplitUrlOfLink` | wrangle_act.py:510-513 | On a link `<a href="...">caption</a>` with a plain caption, `splitUrl` returns the caption, e.g. `Twitter for iPhone`. |
| `Cleaning.DropRetweets` | wrangle_act.py:269 | No surviving row has a retweeted status id. Exactly the rows without one are kept, in order and unchanged. |
| `Cleaning.DropReplies` | wrangle_act.py:310 | No surviving row replies to a status. Exactly the rows that are not replies are kept, in order and unchanged. |
| `Cleaning.DropOrderIrrelevant` | wrangle_act.py:269-310 | Dropping retweets then replies gives the same table as the reverse order. |
| `Cleaning.DogType` | wrangle_act.py:392-411 | `f` returns one of the six stage values and never `'None'`. It returns "multiple" iff at least two stage columns hold their own name, "not specified" iff none do, and otherwise the one stage that is set. |
| `Cleaning.CollapseDogTypes` | wrangle_act.py:392-426 | One output row per input row, in order, with every kept column unchanged. The new `type` column is `f` of the input row, so by `DogType`'s contract it is the one stage set, "multiple" or "not specified". |
| `Cleaning.KeepDenominatorTen` | wrangle_act.py:452 | Every surviving rating has denominator 10. Exactly those rows are kept, in order and unchanged. |
| `Cleaning.KeepProperNames` | wrangle_act.py:485 | Raises iff some name is empty, and then names the first such row. Otherwise it keeps exactly the rows whose name starts with an upper-case letter, in order. |
| `Cleaning.PlaceholderNameSurvives` | wrangle_act.py:485 | A row named with the placeholder `"None"` passes the name filter. |
| `Cleaning.ExtractSources` | wrangle_act.py:519 | Raises iff some source has no `>`, and then names the first such row. Otherwise each row's source becomes its anchor text, which has no angle brackets; nothing else changes. |
| `Cleaning.KeepDogImages` | wrangle_act.py:544 | No surviving image has all three predictions false. Exactly the images with at least one dog prediction are kept, in order. |
| `EngagementTable.Store` | wrangle_act.py:72 | Assigning into the dictionary adds the status's id, holds its counts, keeps every other entry and keeps ids unique. |
| `EngagementTable.Tabulate` | wrangle_act.py:69-72 | The dictionary has one entry per distinct fetched id. For each id it holds the counts of the last status with that id. |
| `EngagementTable.TabulateHoldsOnlyLast` | wrangle_act.py:69-72 | Every entry of the dictionary is the last fetched status for its id, so a later duplicate overwrites an earlier one. |
| `Pipeline.Merge` | wrangle_act.py:590-596 | Every master row combines an archive row, an image row and an engagement row with one shared id. Every such triple appears; how often is stated by `Pipeline.MergeCount`. |
| `Pipeline.MergeCount` | wrangle_act.py:590-596 | A master row occurs as often as the product of its archive row's, image row's and engagement row's counts, when all three share one id; any other row does not occur. |
| `Pipeline.MergeKeys` | wrangle_act.py:590-596 | An id survives both merges iff all three tables hold it. |
| `Pipeline.MergeUnique` | wrangle_act.py:590-596 | If all three tables have unique ids, so does the master table. |
| `Pipeline.MergeFansOut` | wrangle_act.py:590-596 | When all rows of the three tables carry one id, the master table is their full cross product, with the product of the three sizes as its length. |
| `Tables.AtLabelled` | wrangle_act.py:24 | In a table fresh from the CSV reader, label `k` is present iff `0 <= k < n`, and it names row `k`. |
| `Tables.AtAfterFilter` | wrangle_act.py:269 | After a boolean mask, looking up a label finds the row carrying it if that row passed the mask, and raises otherwise. |
| `Tables.FilterValues` | wrangle_act.py:269 | A mask on a labelled table keeps the same rows as the mask on the bare table. |
| `Pipeline.LabelledTopLevelValues` | wrangle_act.py:269-310 | The labelled table left by the two drops holds exactly the rows of `DropReplies(DropRetweets(tweets))`, in order. |
| `Pipeline.FirstTimestampFails` | wrangle_act.py:342-357 | `tweets['timestamp'][0]` raises iff the archive is empty or its first row is a retweet or a reply. Otherwise it reads the first row's timestamp, which is also the first remaining row. |
| `Pipeline.CleanArchive` | wrangle_act.py:269-519 | The archive cleaning in the notebook's order: the two drops, the timestamp lookup, the stage collapse, the rating filter, the name filter and the source rewrite. `CleanArchiveFails` states when it raises and `CleanArchiveRows` states what it outputs. |
| `Pipeline.CleanArchiveFails` | wrangle_act.py:269-519 | The archive cleaning raises iff one of three things holds. The archive is empty or its first row is a retweet or a reply (`MissingLabel(0)` at line 342, and exactly then). A row reaching the name filter has an empty name. A row passing every filter has a source without `>`. |
| `Pipeline.CleanArchiveRows` | wrangle_act.py:269-519 | Every cleaned archive row is rated out of 10, has a proper name, one of the six stage values and a bracket-free source. The cleaned rows are exactly the archive rows passing every filter, with `type` from `f` and the source replaced by its anchor text; the ids are theirs. |
| `Pipeline.CleanArchiveUnique` | wrangle_act.py:269-519 | If the archive's ids are unique, the cleaned archive's ids are unique. |
| `Pipeline.Wrangle` | wrangle_act.py:269-596 | The run raises exactly in the three archive cases above. Otherwise every master row is a cleaned archive row that passed every filter, an input dog image and the counts of the last fetched status, all under one id. |
| `Pipeline.WrangleComplete` | wrangle_act.py:269-596 | Conversely, every cleaned archive row that passed every filter, together with a dog image and the last fetched status sharing its id, is a row of the master table. |
| `Pipeline.WrangleIds` | wrangle_act.py:269-596 | An id is in the master table iff three things hold. An archive row with it passes every filter, a dog image has it, and a fetched status has it. |
| `Pipeline.WrangleUnique` | wrangle_act.py:590-596 | If the archive and image tables have unique ids, the master table has unique ids. |

## Left out

- Reading the archive CSV and the prediction TSV, and the HTTP download of the latter (wrangle_act.py:24, 31-32): file and network I/O plus library parsing. The tables are inputs.
- The per-id API fetch loop with its catch-all `except` (wrangle_act.py:48-58) and the JSON file written and read back (wrangle_act.py:62-66): network and file I/O. `api` is never defined in the notebook. The fetched statuses are an input sequence; a failed fetch is simply absent from it.
- The outer merge that gathers ids to fetch (wrangle_act.py:39, 45): it only feeds the I/O loop above.
- The timestamp conversion with `datetime.strptime` (wrangle_act.py:350): a library parser with lenient field widths. The timestamp stays text, and no failure of this step is modelled.
- Column drops and the id rename (wrangle_act.py:285, 326, 426, 575): modelled by the choice of row types, not as operations.
- Index labels are modelled only through the two drops, which is where the notebook reads one (wrangle_act.py:342, 357). After the stage collapse and the later filters the model keeps rows without labels, because nothing later reads a label.
- Pipeline.CleanArchiveFails: the raise-iff does not cover `datetime.strptime` raising on a malformed timestamp (wrangle_act.py:350). The timestamp stays text, so this raise is not modelled.
- Pipeline.Wrangle: the raise-iff does not cover the `strptime` raise at wrangle_act.py:350 either, for the same reason.
- Writing the master CSV (wrangle_act.py:608), so also the write-then-read round trip of the master table: file I/O.
- The analysis (wrangle_act.py:616-686): group counts, mean, `nlargest`, OLS regression and plots. These are floating point and library calls.
- The stage and name columns are assumed to hold the text `"None"` where the archive shows no value, as the notebook itself assumes (wrangle_act.py:386). A CSV reader that turns that text into a missing value would make the name filter raise; that reading is not modelled.
- Prediction confidences are `real` values that are carried along but never computed on.
- Cleaning.KeepProperNames: `str.isupper` is modelled for ASCII `A`-`Z` only. Other Unicode upper-case letters are treated as not upper case. A missing name (NaN in pandas, which also raises) is modelled only as the empty string.
- EngagementTable.Tabulate: the contract does not state the row order (first-insertion order). That table is the right side of a merge with unique ids, so its order does not affect the master table's rows.
