# A verified model of the QLE query engine

QLE reads rows from files, evaluates SQL-like queries over them and writes the result. Most of its
code exists twice: a plain form, and a fast, parallel or text form of the same thing. This project
models both forms of each pair and proves, for all inputs, where they agree, and exactly where they
do not.

| area | files | main results |
|---|---|---|
| LIKE | `Like` | the greedy scan that remembers only the last `%` decides the LIKE predicate of section 8.5 of ISO/IEC 9075:1992; when its step budget is enough |
| edit distance | `Suggestions` | the table computes the length of a shortest edit script; the distance is a metric; when a suggestion is made |
| CSV | `Csv`, `CsvCells`, `CsvSplit` | the one-pass reader; the chunks handed to threads partition the rows if and only if they are aligned to rows; exactly which `.tsv` files are split correctly |
| conditions | `Evaluator`, `VectorEvaluator` | what a condition means on a row; exactly when the columnar evaluator agrees with it, for numbers, texts and a number beside a text, and exactly when it answers at all |
| GROUP BY | `GroupBy`, `GroupMerge`, `GroupSchedules` | every interleaving of the workers gives the same answer, stated in terms of the rows alone; exactly when the merged result is exact |
| ORDER BY | `Sorting`, `MergeSorter`, `OrderBy`, `OrderSchedules` | exactly which key columns can be sorted on; the k-way merge interleaves and sorts, ascending or descending; from the file on, every schedule of the parallel path agrees with the sequential path up to ties |
| ORDER BY counters | `RowCounter`, `RowCounterLimits`, `RowCounterSchedules`, `RowCounterRace` | conservation, overrun bound, prompt stop and no silent truncation in every reachable state; exactly when some schedule ends with the limit error, when some ends without an error, and when the schedule decides |
| joins | `Streaming`, `HashJoin` | a query delivers exactly the overlaid rows on which every condition is true; the hash join never delivers a wrong row; exactly when it delivers all of them, for any query, any chain of joins and all primary rows |
| recursive CTEs | `Cte` | the result is the least fixpoint, and the recursion ends if and only if a finite closed bag exists (section 7.12 of ISO/IEC 9075-2:1999) |
| parser | `Parser`, `ParserGrammar`, `ParserPrinter` | the parser accepts exactly a grammar that lists the operators of each level, within its limits; it undoes printing |
| lexer | `Lexer`, `LexerMeaning`, `LexerPrinter`, `QueryText` | the lexer finds the one division into longest lexemes; it undoes printing; text to tree and back |
| JSON reader | `Json`, `JsonMeaning` | the reader accepts exactly the texts laid out as an array of objects, loosely, and returns their rows |
| writers | `Formatter`, `CsvRoundTrip`, `JsonRoundTrip`, `JsonExact` | exactly which names and rows, written as CSV, TSV or JSON, are read back, for all of them |

`Wrappers`, `Text`, `Sequences`, `Limits`, `Rows` and `Ast` hold what several areas share. A class of the source
is a class here, and its loops are loops: each method is proved against a function of its inputs or
of its old state, and the theorems are about those functions. Nothing in the project was executed;
everything stated is proved by Dafny.

## How the source is represented

* A double is a mathematical real: rounding, infinities and NaN are outside the model. `strtod`,
  `std::to_string` and the inline functions are parameters (`Evaluator.Library`), so the results
  hold whatever they do.
* A byte is a `char`; character classes are those of the C locale. `std::string` is ordered by
  character code.
* A file is its contents. Opening files, path checks and mapping into memory are not modelled; the
  size limit is.
* Exceptions are `Err` results with the source's exception class. Messages and positions in them are
  left out.
* The clock is an arbitrary answer whenever it is asked. The limits are the constants of
  `src/security/limits.h:11-19`, except for the row limit, which is a parameter throughout.
* `std::stable_sort`, `std::priority_queue` and the order of rows inside a hash bucket are taken by
  their standard contracts, and where those leave a choice the choice is arbitrary. For a comparator
  that is not a strict weak order the standard promises nothing at all. The model assumes a little
  more there: the sort still returns a permutation, and the queue still returns one of its elements.
* A GROUP BY worker shares only the counter it changes under a lock, so one loop iteration is one
  step. The ORDER BY workers share atomics, and each access to one is a step of its own. These
  accesses are `memory_order_relaxed` in the source: that they take place one after the other, each
  seeing what those before it did, is an assumption of the model.

## Where the code differs from what one would expect

The model follows the code. Each of these is a lemma:

* A merged maximum is never below zero: the loop over minima marks a value as present before the
  loop over maxima looks (`GroupMerge.MergedMaxExactIff`, `GroupMerge.NegativeMaximumLost`). So the
  merged groups are exact if and only if in every group every aggregate that finds numbers finds one
  that is not negative (`GroupMerge.MergeExactIff`).
* The chunks of a `.tsv` file are read with `,` as the delimiter (`CsvSplit.SplitFaithfulIff`). They
  give the rows of the file if and only if no row of it has a comma or a tab outside quotes
  (`CsvSplit.TabFileSplitIff`).
* A newline inside quotes, which section 2 of RFC 4180 allows, can make a chunk begin inside a row
  (`CsvSplit.QuotedNewlineBreaksSplit`).
* The sort comparator can go round in a circle on mixed keys (`Sorting.MixedKeysGoRound`): exactly if
  a key that is no number lies, as a text, between two numbers that are not in the order of their
  texts (`Sorting.CoherentIff`).
* Joined rows whose keys are equal as numbers but written differently are lost
  (`HashJoin.AliasIsMissed`), and that is the only way to lose a row in joins of the usual shape
  (`HashJoin.UsualChainEqualIff`). A join on the same name on both sides accepts every joined row it
  tries (`HashJoin.SameNameAcceptsAll`).
* Whether the row limit is reported by ORDER BY can depend on which worker finishes first, and exactly
  for which splits it does is `RowCounterRace.ScheduleDecidesIff`.
* Texts that are numbers are compared as texts by the columnar evaluator
  (`VectorEvaluator.OrderOfTextsDiffers`, `VectorEvaluator.AliasDiffers`).
* The lexer's limit of 100000 tokens can never be reached: the text limit of 65536 characters comes
  first (`LexerMeaning.LexesTheDivision`).
* The JSON reader accepts a comma after the last member, objects without a comma between them, and a
  missing closing bracket (`JsonMeaning.LooseFileIsRead`), none of which sections 4 and 5 of RFC 8259
  allow; exactly what it accepts is `JsonMeaning.AcceptsExactly`.
* An empty field name can suppress a suggestion (`Suggestions.EmptyFieldHidesSuggestion`).
* A number literal compared with a text reads as the empty string in the columnar evaluator
  (`VectorEvaluator.NumberBesideStringsIsEmpty`), which is right exactly under the conditions of
  `VectorEvaluator.MixedAgreesIff`.
* The writers neither quote nor escape. Which results are read back as they were printed, and which
  are not, is decided by each name and each value on its own: `CsvRoundTrip.CsvRoundTrip` for CSV and
  TSV, with the instances `CsvRoundTrip.FileInstances`, and `JsonExact.JsonComesBackIff` for JSON.

## Model

| member | source | states |
|---|---|---|
| Like.MatchLikeLoop | src/runtime/evaluator.cpp:246-274 | The matcher's loop. If it is not cut off, it answers true exactly when the text matches the pattern under the declarative LIKE relation |
| Like.MatchLikeCorrect | src/runtime/evaluator.cpp:253-273 | For every text and pattern, a run that is not cut off decides the LIKE relation, in both directions |
| Like.OnlyLastStarMatters | src/runtime/evaluator.cpp:255-266 | Forgetting all but the last % loses no match: on meeting a new %, the question still open is equivalent to matching the rest of the pattern somewhere from here on |
| Like.RunDecides | src/runtime/evaluator.cpp:253-269 | From every state that satisfies the invariant, the rest of a run that is not cut off answers the question still open there |
| Like.AttemptFails | src/runtime/evaluator.cpp:262-268 | A mismatch rules out exactly the start position under trial, and without a % it rules out everything |
| Like.FixedStretch | src/runtime/evaluator.cpp:259-261 | A stretch of pattern without % matches exactly as many characters as it is long, one by one |
| Like.StepsKeepInv | src/runtime/evaluator.cpp:255-266 | All three kinds of iteration keep the matcher's invariant |
| Like.AtEndOfText | src/runtime/evaluator.cpp:270-273 | At the end of the text the answer is whether only % are left |
| Like.RunWithinBudget | src/runtime/evaluator.cpp:251-269 | Each iteration increases (start of the attempt, pattern position) lexicographically, so a run within the bound on such pairs is not cut off |
| Like.BudgetSuffices | src/runtime/evaluator.cpp:254 | With text length t and pattern length p, the step limit cannot be hit when t + (t+1)p is at most 10000, and then the answer is the LIKE relation |
| Like.MatchesIff | src/runtime/evaluator.cpp:246-274 | The LIKE relation itself, without recursion: a text matches exactly if it can be cut into one piece per pattern character, any piece for %, one character for _ and that character for any other |
| Suggestions.LevenshteinDistance | src/utils/suggestions.cpp:7-22 | The filled table's last entry is the recursively defined distance of the two strings |
| Suggestions.TableRecurrence | src/utils/suggestions.cpp:15-20 | An entry of the table of prefix distances is determined by its three neighbours as the inner loop computes it |
| Suggestions.DistIsShortest | src/utils/suggestions.cpp:7-22 | The distance is the length of a shortest script of insertions, deletions and replacements: some script has it and none is shorter |
| Suggestions.ShortestScript | src/utils/suggestions.cpp:7-22 | A script of exactly that length exists and is constructed |
| Suggestions.ScriptAtLeastDist | src/utils/suggestions.cpp:7-22 | No edit script is shorter than the distance |
| Suggestions.DistZero | src/utils/suggestions.cpp:7-22 | The distance is zero exactly for equal strings |
| Suggestions.DistSymmetric | src/utils/suggestions.cpp:7-22 | The distance is symmetric |
| Suggestions.Triangle | src/utils/suggestions.cpp:7-22 | The distance satisfies the triangle inequality |
| Suggestions.SuggestField | src/utils/suggestions.cpp:24-38 | The message names the first field at the least distance, when that is at most 2, and is empty when no field is that near |
| Suggestions.SuggestsNonEmptyIff | src/utils/suggestions.cpp:27-37 | The nearest non-empty field is suggested if and only if no empty field name is strictly nearer, or as near and earlier |
| Suggestions.EmptyFieldHidesSuggestion | src/utils/suggestions.cpp:34-37 | An instance: an empty name hides a field one edit away |
| Rows.FindPut | src/adapters/adapter.h:15-28 | Looking up after an assignment finds the new value under its name and the old values under all others |
| Rows.PutDistinct | src/adapters/adapter.h:15-21 | Assignment keeps names distinct and adds no other name |
| Rows.FindOverlay | src/runtime/executor_streaming.cpp:148-151 | After copying a row with distinct names over another, its names have its values and the others keep theirs |
| Rows.OverlayDistinct | src/runtime/executor_streaming.cpp:158-161 | Copying a row over another keeps names distinct |
| Rows.FindEach | src/adapters/adapter.h:23-28 | In a row with distinct names, every name has the value it stands beside |
| Csv.CsvAdapter.Open | src/adapters/csv/csv_adapter.cpp:21-48 | Fails exactly above the size limit; otherwise the headers are those of the first line and reading starts after it |
| Csv.CsvAdapter.ReadHeaders | src/adapters/csv/csv_adapter.cpp:50-84 | The headers are the cleaned pieces of the first line, quotes having no effect on where it is cut or ends |
| Csv.CsvAdapter.Next | src/adapters/csv/csv_adapter.cpp:94-151 | Takes exactly the first of the rows still to come, and fails exactly when there are none |
| Csv.CsvAdapter.ReadRow | src/adapters/csv/csv_adapter.cpp:105-150 | The single pass over the bytes computes what finding the row's end, cutting it into cells and cleaning them computes, and ends at the next row |
| Csv.CsvAdapter.Split | src/adapters/csv/csv_adapter.cpp:166-193 | Hands out n readers over consecutive byte ranges of the same text, with the same headers and always the comma, or none for an empty file or n below 2; the rows each will read |
| Csv.CsvAdapter.SetChunk | src/adapters/csv/csv_adapter.cpp:195-206 | Reading starts at the range's start if that follows a newline, and otherwise after the next newline, quoted or not |
| Csv.RowsFromStep | src/adapters/csv/csv_adapter.cpp:90-151 | The rows to come are the row at the offset and the rows from the next offset on |
| Csv.RestStep | src/adapters/csv/csv_adapter.cpp:105-136 | One byte of the scan keeps the row that is being built equal to the row specified |
| CsvSplit.SplitIsPartitionIff | src/adapters/csv/csv_adapter.cpp:172-206 | For every file and number of chunks, the chunks' rows in order are the file's rows, none lost, doubled or cut, if and only if every chunk that reads anything begins at a row |
| CsvSplit.SplitIsPartition | src/adapters/csv/csv_adapter.cpp:166-206 | Every split of a file in which no newline comes after an odd number of quotes on its line is a partition |
| CsvSplit.SplitKeepsRows | src/adapters/csv/csv_adapter.cpp:166-206 | The children's row contents, concatenated, are the rows of the unsplit comma file |
| CsvSplit.ChildReadsWindow | src/adapters/csv/csv_adapter.cpp:186-206 | An aligned child reads exactly the rows of the file that begin in its byte range, however long its lines are |
| CsvSplit.NoRowBeforeAlign | src/adapters/csv/csv_adapter.cpp:198-205 | No row of the file begins between a chunk's start and where it is aligned to |
| CsvCells.RowCellsAt | src/adapters/csv/csv_adapter.cpp:105-136 | The cells of a row are where they stand in the file: each ends at the first delimiter or newline outside quotes; a last line without newline loses an empty last cell |
| CsvCells.CleanKeeps | src/adapters/csv/csv_adapter.cpp:111-117 | Cleaning keeps every character but quotes and carriage returns as often as it occurs, and never lengthens |
| CsvCells.CleanMeans | src/adapters/csv/csv_adapter.cpp:111-117 | What cleaning does: one trailing carriage return goes, then one pair of quotes that encloses the rest; anything else stays as it is |
| CsvCells.CellComesBackIff | src/adapters/csv/csv_adapter.cpp:105-120 | A value written into a line is read back by the cell that begins there if and only if it meets no delimiter or newline outside quotes, ends outside quotes and is left alone by cleaning |
| CsvSplit.ScanStopsAtNewline | src/adapters/csv/csv_adapter.cpp:105-136 | When the quotes before it are balanced, the row scan ends at the first newline |
| CsvSplit.OpenLeavesAfterHeader | src/adapters/csv/csv_adapter.cpp:50-55 | Opening a non-empty file leaves the offset at the end or just after a newline, as splitting needs |
| CsvSplit.QuotedNewlineBreaksSplit | src/adapters/csv/csv_adapter.cpp:195-206 | A file with a quoted newline whose two chunks read two rows where the file has one |
| CsvSplit.SameRowIff | src/adapters/csv/csv_adapter.cpp:105-120 | A row is the same read with either delimiter if and only if neither stands in it outside quotes |
| CsvSplit.TabFileSplitIff | src/adapters/csv/csv_adapter.cpp:166-206 | For each file whose chunks are aligned: the children of a .tsv adapter give the rows of the file if and only if no row of it has a comma or a tab outside quotes |
| CsvSplit.SplitFaithfulIff | src/adapters/csv/csv_adapter.cpp:178 | Of the two delimiters, splitting gives the rows of every such file for the comma and only for the comma |
| Evaluator.StrLessTotal | src/runtime/evaluator.cpp:291-299 | The order used for texts is total and asymmetric |
| Evaluator.StrLessTransitive | src/runtime/evaluator.cpp:291-299 | The order used for texts is transitive |
| Evaluator.StrLessIff | src/runtime/evaluator.cpp:291-299 | The order used for texts is lexicographic: a text is less if it is a proper beginning of the other or has the smaller character at the first difference |
| Evaluator.ComparisonMeans | src/runtime/evaluator.cpp:278-301 | Every comparison operator in terms of one equality and one order on texts, as numbers when both are numbers and as texts otherwise; LIKE is the matcher on the texts |
| Evaluator.ConditionMeans | src/runtime/evaluator.cpp:225-245 | A condition is true, or false, exactly if its operands make it so, where AND and OR look at the right side only if the left leaves it open; otherwise it is an error |
| Evaluator.ArgsMean | src/runtime/evaluator.cpp:314-350 | Arguments are evaluated one by one and in order, and all must succeed |
| Evaluator.ExpressionMeans | src/runtime/evaluator.cpp:306-350 | An expression has a value exactly if its text is the name of a column, which then decides, or it is a number or a string, a count, or a call whose function accepts the values of its arguments |
| Evaluator.FormatMoreArgs | src/runtime/evaluator.cpp:103-107 | In the text of a call the arguments are separated by commas, however many there are |
| Evaluator.FormatInstances | src/runtime/evaluator.cpp:97-112 | The texts of calls with up to two names and of an operator between two |
| VectorEvaluator.EvalVectorized | src/runtime/vector_evaluator.cpp:48-239 | The recursive evaluation with its loops computes the column that evaluating entry by entry specifies, or its error |
| VectorEvaluator.CombineLoop | src/runtime/vector_evaluator.cpp:95-109 | The AND and OR loops combine two columns entry by entry |
| VectorEvaluator.CompareEntry | src/runtime/vector_evaluator.cpp:176-231 | One entry of a comparison: numbers, LIKE or texts, with a number literal beside a string read as "" |
| VectorEvaluator.CompareLoop | src/runtime/vector_evaluator.cpp:121-236 | The comparison loops collect the entries in row order and fail with the first entry that fails |
| VectorEvaluator.EvaluateConditionVectorized | src/runtime/vector_evaluator.cpp:241-250 | Returns the column of bits of a condition, and fails when the expression is not one |
| VectorEvaluator.VectorisedEqualsRowWise | src/runtime/vector_evaluator.cpp:48-250 | For AND and OR over comparisons of two numbers or two texts, and LIKE on texts, bit i of the vectorised condition is the row evaluator's verdict on row i, for every batch |
| VectorEvaluator.ComparisonAgreesIff | src/runtime/vector_evaluator.cpp:121-236 | One comparison agrees with the row evaluator on row i always for numbers and LIKE, and for two texts that are both numbers exactly if they are not one number written in two ways (== and !=), or are in the same order as texts and as numbers (the other operators) |
| VectorEvaluator.OrderOfTextsDiffers | src/runtime/vector_evaluator.cpp:222-230 | An input on which they differ: the cell "10" is less than the text "9" for the columns and not for the rows |
| VectorEvaluator.AliasDiffers | src/runtime/vector_evaluator.cpp:222-230 | Another: the cell "1.0" equals the text "1" for the rows and not for the columns |
| VectorEvaluator.VectorisedSucceedsIff | src/runtime/vector_evaluator.cpp:48-250 | For every condition over the operators of the language: the columnar evaluator answers it if and only if its columns give it a truth value (AND and OR of truth values, comparison of two numbers, comparison or LIKE with a text on one side at least) and every LIKE in it, needed or not, stays within its budget on every row |
| VectorEvaluator.EvaluatesIff | src/runtime/vector_evaluator.cpp:48-239 | The same for every expression and every kind of column |
| VectorEvaluator.BitsMean | src/runtime/vector_evaluator.cpp:48-250 | Whatever it answers, bit i is the truth of the condition in row i by its columns: two numbers are compared as numbers, an unreadable number literal as zero, and anything else as texts, of which a number literal and a truth value have none |
| VectorEvaluator.ComparableIsTruth | src/runtime/vector_evaluator.cpp:86-236 | The conditions of the agreement theorem are among these |
| VectorEvaluator.NumberBesideStringsIsEmpty | src/runtime/vector_evaluator.cpp:176-186 | With any comparison operator, on either side, a number literal beside a text makes the columns compare the text with the empty string |
| VectorEvaluator.MixedAgreesIff | src/runtime/vector_evaluator.cpp:174-233 | For a number literal beside a text, bit i is the row evaluator's verdict on row i exactly if the text is neither empty nor that number (== and !=), is not below the number (< and >=), or is empty or above it (> and <=), with the operator turned round if the literal is on the left |
| GroupBy.Worker.Absorb | src/runtime/executor_groupby.cpp:76-97 | Adds an included row to its bucket, or to a new one at the end of the order, and leaves the other buckets alone |
| GroupBy.Worker.Process | src/runtime/executor_groupby.cpp:47-99 | One iteration: counts the row, touches the shared counter and the limits at every 10000th row only, and folds the row in if WHERE keeps it; exactly when it fails |
| GroupBy.AddValueExact | src/runtime/executor_groupby.cpp:86-96 | Updating the running sum, minimum and maximum with a number gives the exact sum, minimum and maximum of the numbers so far |
| GroupBy.AbsorbHolds | src/runtime/executor_groupby.cpp:65-99 | If the buckets hold the groups of the rows so far (counts, first rows, sums, minima, maxima and order of first appearance), they do after one more row |
| GroupBy.FoldNext | src/runtime/executor_groupby.cpp:47-99 | The same for a row as read; and what the buckets answer then is stated in terms of the rows alone: a key has a group if and only if it is the text of some row that WHERE keeps in the group column (empty if the row lacks it), the groups are in the order of their first such rows, and each has their number, the first of them, and the sum, minimum and maximum of the numbers that the aggregate arguments are on exactly those rows |
| GroupBy.ContributionMeans | src/runtime/executor_groupby.cpp:47-74 | What one row contributes, in terms of WHERE, the group column and the values of the aggregate arguments, and when it is an error |
| GroupBy.GroupMeans | src/runtime/executor_groupby.cpp:65-75 | The rows of a group are exactly the rows WHERE keeps that have its key, in order |
| GroupBy.ValuesMean | src/runtime/executor_groupby.cpp:76-96 | The numbers of an aggregate are those of its argument on exactly these rows, in order |
| GroupBy.KeysMean | src/runtime/executor_groupby.cpp:66-71 | A key is listed if and only if some row belongs to it, and keys are listed in the order of their first rows |
| GroupBy.HoldsAnswers | src/runtime/executor_groupby.cpp:65-99 | Buckets that hold the groups of the items answer in terms of the rows, exact or as merged |
| GroupBy.HoldsUnique | src/runtime/executor_groupby.cpp:65-99 | Being the groups of a sequence of rows determines the buckets completely |
| GroupMerge.MergeStates | src/runtime/executor_groupby.cpp:121-134 | The loops over sums, minima and maxima merge two states cell by cell |
| GroupMerge.MergeOne | src/runtime/executor_groupby.cpp:114-134 | Merges one bucket of a worker into the result, creating it at the end of the order when its key is new |
| GroupMerge.MergeBuckets | src/runtime/executor_groupby.cpp:114-134 | Merges a worker's buckets in the order of its keys |
| GroupMerge.Merge | src/runtime/executor_groupby.cpp:110-135 | Merges the buckets of all workers in worker order |
| GroupMerge.MergeCellConcat | src/runtime/executor_groupby.cpp:122-133 | Merging the cell of some numbers into the merged cell of others gives the merged cell of both together |
| GroupMerge.MergedMaxExactIff | src/runtime/executor_groupby.cpp:126-133 | The maximum delivered is max(0, true maximum), so it and the whole cell are exact if and only if some value is not negative |
| GroupMerge.MergedExactIff | src/runtime/executor_groupby.cpp:110-135 | Merged buckets are the exact groups of all rows if and only if in every group every aggregate that finds numbers finds one that is not negative |
| GroupMerge.MergeExactIff | src/runtime/executor_groupby.cpp:110-135 | The same for the merge itself, for any division of the rows into parts |
| GroupMerge.NegativeMaximumLost | src/runtime/executor_groupby.cpp:126-133 | An instance: one worker, one number, and that negative; the maximum delivered is zero |
| GroupMerge.FirstKeysConcat | src/runtime/executor_groupby.cpp:113-119 | The order of first appearance over two parts is the first part's order and then the second's new keys |
| GroupMerge.MergeHolds | src/runtime/executor_groupby.cpp:113-135 | Merging the buckets of one part into the merged buckets of another gives the merged buckets of the two together |
| GroupMerge.MergeAllHolds | src/runtime/executor_groupby.cpp:110-135 | For any division of the rows into consecutive parts, folding each and merging gives the groups of the whole, with maxima as the merge delivers them |
| GroupMerge.DivisionDoesNotMatter | src/runtime/executor_groupby.cpp:110-135 | Any two divisions of the same rows, one part included, merge to the same buckets |
| GroupSchedules.StepKeepsInv | src/runtime/executor_groupby.cpp:43-101 | Every step of any worker keeps every worker's buckets the fold of its rows so far, and the counter 10000 times the number of full 10000s read by the workers |
| GroupSchedules.EveryScheduleGroups | src/runtime/executor_groupby.cpp:43-135 | Every finished run, whatever the interleaving, merges to the groups of all rows in file order, with the answer in terms of the rows themselves |
| GroupSchedules.ParallelEqualsSequential | src/runtime/executor_groupby.cpp:103-135 | Every finished run gives the same result as one worker over the unsplit rows |
| GroupSchedules.FileGroupBy | src/runtime/executor_groupby.cpp:29-135 | For a comma file without newlines inside quotes, any number of chunks and any interleaving, the result holds the groups of the file's rows in order, with the answer in terms of these rows |
| GroupSchedules.ChunksKeepRows | src/runtime/executor_groupby.cpp:32-37 | The chunks of such a file, one after the other, are its rows |
| GroupSchedules.RunSucceedsIff | src/runtime/executor_groupby.cpp:51-58 | Without a timeout, a run that can go no further has succeeded if and only if every row can be evaluated and the counter's final value, the same for every schedule, is below the limit or never increased |
| GroupSchedules.FoldAlone | src/runtime/executor_groupby.cpp:47-100 | The worker loop over all rows of an unsplit source: its buckets, its final counter, and exactly when it succeeds |
| GroupSchedules.GroupAlone | src/runtime/executor_groupby.cpp:29-135 | GROUP BY over an unsplit source up to its output: the answer in terms of the rows (which keys, in which order, how many rows, the first of each, the numbers of each aggregate), and exactly when it succeeds: no row is an error, the clock is not late at any 10000th row, and the counter is never increased or stays below the limit |
| Sorting.HomogeneousIsCoherent | src/runtime/merge_sorter.cpp:47-52 | On keys that are all numbers, or of which none is, the exact condition holds and the comparator is a strict weak order |
| Sorting.CoherentIff | src/runtime/merge_sorter.cpp:47-52 | For keys whose text decides their number, and for both directions, the comparator is a strict weak order if and only if any two numbers with a non-numeric key between their texts are in the order of their texts |
| Sorting.MixedKeysGoRound | src/runtime/merge_sorter.cpp:47-52 | On mixed keys it need not be: "9" is before "10", which is before "5x", which is before "9" |
| Sorting.LessAsymmetric | src/runtime/merge_sorter.cpp:47-52 | On any keys at all the comparator is irreflexive and asymmetric |
| Sorting.SortedMeans | src/runtime/merge_sorter.cpp:47-52 | Sorted means: of any two keys the earlier is not the greater, or for DESC not the smaller, as numbers if both are numbers and as texts otherwise |
| Sorting.StableSortIsStable | src/runtime/executor_orderby.cpp:193-199 | The reference sort permutes, orders, and keeps ties in their original order |
| Sorting.StableSortUnique | src/runtime/executor_orderby.cpp:193-199 | Two ordered permutations with the same ties are the same sequence |
| Sorting.StablySortedIsStableSort | src/runtime/executor_orderby.cpp:193-199 | So whatever algorithm std::stable_sort uses, its result is the reference sort's |
| Sorting.SortedAgree | src/runtime/executor_orderby.cpp:193-199 | Any two ordered arrangements of the same items compare equal at every index |
| MergeSorter.FillQueue | src/runtime/merge_sorter.cpp:65-71 | The queue starts with one cursor for every non-empty split |
| MergeSorter.PickTop | src/runtime/merge_sorter.cpp:74 | The contract of the queue's top: no element comes before it, provided the comparator is a strict weak order |
| MergeSorter.QueueStep | src/runtime/merge_sorter.cpp:73-83 | Taking any element of the queue and advancing its cursor keeps exactly one cursor per unfinished split, at its first unread row |
| MergeSorter.TopIsLeast | src/runtime/merge_sorter.cpp:59-74 | If the splits are sorted, no unread row of any split comes before the one the queue delivers |
| MergeSorter.DeliverTop | src/runtime/merge_sorter.cpp:73-83 | One turn of the loop keeps the output an interleaving so far, sorted, and ahead of everything unread, and shortens what remains |
| MergeSorter.MergeItems | src/runtime/merge_sorter.cpp:65-86 | The output is an interleaving of the splits in every case; if the splits are sorted and the comparator is a strict weak order, the output is sorted, and of any two keys the earlier is not the greater, or for DESC not the smaller |
| MergeSorter.MergeExists | src/runtime/merge_sorter.cpp:65-86 | Any splits have an interleaving, and one in order if they are sorted by a strict weak order |
| MergeSorter.InterleavingKeepsSplits | src/runtime/merge_sorter.cpp:73-83 | The rows that came from a split are that split, in its order |
| MergeSorter.InterleavingPermutes | src/runtime/merge_sorter.cpp:73-83 | An interleaving is a permutation of all rows of all splits |
| OrderBy.StdStableSort | src/runtime/executor_orderby.cpp:193-199 | The contract of std::stable_sort: a permutation always; ordered and stable when the comparator is a strict weak order |
| OrderBy.SortRows | src/runtime/executor_orderby.cpp:166-204 | The same rows; if all keys are numbers or none is, or the column meets the exact condition, the numbers or texts do not go down, or for DESC not up, and ties keep their order |
| OrderBy.SortableIff | src/runtime/executor_orderby.cpp:193-199 | A key column as read from rows meets the condition exactly if the comparator is a strict weak order on it, whichever the direction |
| OrderBy.Merge | src/runtime/merge_sorter.cpp:9-86 | The rows are interleaved, none lost or doubled, and sorted when the splits are sorted and the key column of all of them can be sorted on |
| OrderBy.Filter | src/runtime/executor_orderby.cpp:72-79 | Keeps exactly the rows on which WHERE is true, in order, and fails exactly when WHERE fails on one of them |
| OrderBy.FilterAndSort | src/runtime/executor_orderby.cpp:45-86 | A worker of the parallel path apart from its counters: the matching rows of its split, stably sorted when the column allows |
| OrderBy.OrderAlone | src/runtime/executor_orderby.cpp:114-137 | The sequential path: exactly the rows on which WHERE is true, ascending or for DESC descending by number or by text when all keys are numbers, none is, or the column meets the exact condition, and stably so; it succeeds exactly when there are no more rows than the limit, the clock is not late at any 10000th row, and WHERE fails on no row |
| OrderBy.OrderSplits | src/runtime/executor_orderby.cpp:40-104 | The parallel path over any splits: exactly the rows of all of them on which WHERE is true, in the same order but for ties, failing exactly when WHERE fails on one of them |
| OrderBy.SortSplits | src/runtime/executor_orderby.cpp:45-86 | The workers: each filters and stably sorts its own split |
| OrderBy.MatchingMeans | src/runtime/executor_orderby.cpp:72-79 | The matching rows are exactly those on which WHERE is true, and there are such if and only if WHERE fails on no row |
| OrderBy.InOrderIff | src/runtime/executor_orderby.cpp:193-198 | Rows are in order by the comparator if and only if of any two the key of the earlier is not greater, or for DESC not smaller, read from the rows themselves |
| OrderBy.PlainIsSortable | src/runtime/executor_orderby.cpp:193-198 | A column of numbers only, or of none, meets the exact condition |
| OrderBy.AloneInOrder | src/runtime/executor_orderby.cpp:193-199 | What the sequential path promises, in terms of the rows |
| OrderBy.SplitInOrder | src/runtime/executor_orderby.cpp:85-104 | What the parallel path promises, in terms of the rows |
| OrderBy.MergedOrder | src/runtime/executor_orderby.cpp:85-104 | Merging separately sorted splits gives a sorted permutation of all their rows |
| OrderBy.PathsAgree | src/runtime/executor_orderby.cpp:85-137 | On a column that meets the condition the two paths deliver permutations of the same rows whose keys compare equal at every index, so they differ only among ties, and the sequential one keeps ties in file order |
| OrderSchedules.NeverThrowsIff | src/runtime/executor_orderby.cpp:72-75 | WHERE throws on no row of any split exactly if the matching rows of all of them can be computed |
| OrderSchedules.EveryScheduleOrders | src/runtime/executor_orderby.cpp:36-104 | Whatever the interleaving of the workers' atomic steps, a run that ends with neither flag up delivers exactly the rows of all splits on which WHERE is true, in the direction asked for if the column allows |
| OrderSchedules.QuietRunDelivers | src/runtime/executor_orderby.cpp:85-104 | Every run that ends with neither flag raised delivers some rows, so that what is stated of them is never empty |
| OrderSchedules.FileOrderBy | src/runtime/executor_orderby.cpp:32-137 | For a comma file without newlines inside quotes, any number of chunks and any such schedule, the rows delivered are those of the sequential path over the unsplit file, in order if the column allows, with keys that then compare equal at every index |
| OrderSchedules.SplitsSucceedIff | src/runtime/executor_orderby.cpp:36-102 | Some schedule over given splits ends without an error exactly if the matching rows can be computed and the full batches stay below the limit |
| RowCounter.StepKeepsInv | src/runtime/executor_orderby.cpp:36-84 | Every atomic step of any worker keeps the invariant on the shared counter, the two flags and all workers |
| RowCounter.RunKeepsInv | src/runtime/executor_orderby.cpp:36-84 | So does every run |
| RowCounter.CounterConserved | src/runtime/executor_orderby.cpp:55-59 | In every reachable state the counter and the rows counted but not yet added make up the rows read |
| RowCounter.RowsReadBounded | src/runtime/executor_orderby.cpp:48-62 | With n workers and a limit of at least 1, fewer than limit + 1000n rows are ever read, in every interleaving |
| RowCounter.FlagStopsReading | src/runtime/executor_orderby.cpp:47-55 | From any state in which a flag is up, in every interleaving, no worker reads more than one more row, and reads that one only if it is already past the checks |
| RowCounter.CounterExactAtEnd | src/runtime/executor_orderby.cpp:81-83 | When all workers are done the counter is exactly the rows read, even after an early stop |
| RowCounter.NoErrorMeansAllRows | src/runtime/executor_orderby.cpp:95-102 | If neither error is raised, every worker has read its whole split and put every row of it to WHERE |
| RowCounter.LimitNeedsRows | src/runtime/executor_orderby.cpp:58-63 | Fewer rows than the limit never raise the limit error |
| RowCounter.BatchesForceError | src/runtime/executor_orderby.cpp:57-70 | If there are full batches of 1000 and they reach the limit, every finished run ends in one of the two errors |
| RowCounterRace.LimitErrorDependsOnSchedule | src/runtime/executor_orderby.cpp:57-83 | An instance with two splits: one schedule ends with the limit error, another with none |
| RowCounterLimits.RunSound | src/runtime/executor_orderby.cpp:47-84 | In every reachable state no row that WHERE has judged has thrown, these are all rows read or all but the last, and a timeout stems from a worker that left after a full batch |
| RowCounterLimits.CrossingNeeds | src/runtime/executor_orderby.cpp:57-63 | The first batch to reach the limit is at most its split's last full batch, after at most what the other splits can add before their first row on which WHERE throws, with or without a timeout |
| RowCounterSchedules.RaiseLast | src/runtime/executor_orderby.cpp:47-84 | Any configuration in which the last full batch of a split, after all that the others can add, reaches the limit has a schedule that ends with the limit error |
| RowCounterSchedules.RaiseLate | src/runtime/executor_orderby.cpp:64-69 | So has any in which this needs another worker to meet the timeout first |
| RowCounterRace.RaisesIff | src/runtime/executor_orderby.cpp:36-97 | For all splits, limits, clocks and rows on which WHERE throws: some finished run raises the limit if and only if a last full batch can reach it in one of these two ways |
| RowCounterRace.RaisesWithoutThrowing | src/runtime/executor_orderby.cpp:57-63 | If WHERE never throws, that is so if and only if some split has a full batch and all rows less that split's last incomplete batch reach the limit |
| RowCounterRace.QuietIff | src/runtime/executor_orderby.cpp:36-102 | Some finished run raises neither error if and only if WHERE never throws and the full batches alone are none or stay below the limit |
| RowCounterRace.ScheduleDecidesIff | src/runtime/executor_orderby.cpp:36-97 | The schedule decides whether the limit error is raised exactly when WHERE never throws, the full batches alone stay below the limit, and all rows less the last incomplete batch of a split with a full one reach it |
| Streaming.BuildJoin | src/runtime/executor_streaming.cpp:67-129 | The index holds exactly the joined rows under their key texts if the condition equates two names, and is not used otherwise; the right name is the joined rows' own if the first of them has it and not the left one; fails exactly when there is a row beyond the row limit |
| Streaming.Executor.ProcessRow | src/runtime/executor_streaming.cpp:25-58 | If WHERE is true of the row and the limit is not reached, appends what the field list makes of it: under the text of each field its value and nothing else, in order, or the row itself for SELECT * |
| Streaming.Executor.TryCandidate | src/runtime/executor_streaming.cpp:147-165 | One turn of the loops over joined rows delivers what the overlaid row delivers if it meets the condition |
| Streaming.Executor.EvaluateJoins | src/runtime/executor_streaming.cpp:131-167 | The recursion over joins delivers the rows of the joined row, as far as the limit goes |
| Streaming.Executor.Execute | src/runtime/executor_streaming.cpp:169-181 | The rows delivered are the first LIMIT of those the query without LIMIT delivers, and these are exactly the overlaid rows on which every join condition and WHERE are true, in order, each with its fields; if some first primary rows deliver that many, it succeeds with these whatever comes after them; without LIMIT an error anywhere is an error |
| Streaming.StreamMeans | src/runtime/executor_streaming.cpp:131-181 | Without LIMIT a query succeeds if and only if no condition it comes to and no field it needs fails, and delivers exactly the overlaid rows on which every join condition and WHERE are true, in order, each shown |
| Streaming.FilterMeans | src/runtime/executor_streaming.cpp:25-58 | Without joins and with SELECT * it succeeds if and only if WHERE fails on no row, and delivers exactly the rows on which WHERE is true |
| Streaming.JoinRowsMean | src/runtime/executor_streaming.cpp:131-167 | The same for one row that has passed some of the joins |
| Streaming.JoinedIff | src/runtime/executor_streaming.cpp:139-166 | The overlaid rows are exactly those that some choice of joined rows, each meeting its condition, leads to |
| Streaming.EmitMeans | src/runtime/executor_streaming.cpp:25-58 | One row is shown exactly if WHERE is true of it, and it is an error exactly if WHERE or then a field is |
| Streaming.ProjectMeans | src/runtime/executor_streaming.cpp:40-56 | A projected row has a name if and only if it is the text of a field, and under it the value of the last such field; distinct texts are in field order |
| Streaming.StreamConcat | src/runtime/executor_streaming.cpp:169-181 | Without LIMIT, execution distributes over concatenation of the primary rows, for success and for the rows delivered |
| Streaming.CutTwice | src/runtime/executor_streaming.cpp:26 | Cutting off at the limit as rows arrive is cutting off at the end |
| Streaming.StreamTurn | src/runtime/executor_streaming.cpp:169-180 | One turn of the main loop extends what has been delivered by the next primary row's output, up to the limit |
| HashJoin.HashWithinNested | src/runtime/executor_streaming.cpp:139-166 | For any chain of joins and any order inside the buckets, the hash path delivers a sub-bag of what trying all joined rows delivers, and fails only if that does |
| HashJoin.HashStreamWithinNested | src/runtime/executor_streaming.cpp:131-181 | The same over a whole stream of primary rows |
| HashJoin.HashEqualsNested | src/runtime/executor_streaming.cpp:139-166 | For any query and any chain of joins: the two deliver the same bag if and only if every combination of joined rows on which the conditions in turn and WHERE are true is found by key text at every level |
| HashJoin.HashStreamEqualsNested | src/runtime/executor_streaming.cpp:131-181 | The same, in both directions, over all primary rows |
| HashJoin.NestedDelivers | src/runtime/executor_streaming.cpp:156-166 | Trying all joined rows delivers something exactly if such a combination exists |
| HashJoin.UsualChainEqualIff | src/runtime/executor_streaming.cpp:131-181 | For a chain in which the joined rows of every level have the secondary key and not the primary key's name, and the rows that get there have the primary key: over all primary rows the hash join delivers the nested loop's bag if and only if no delivered combination has two keys equal as numbers but different as texts |
| HashJoin.FindsAllIff | src/runtime/executor_streaming.cpp:91-117 | For a single join of that shape, lookup by key text finds every joined row the condition accepts if and only if no two keys are equal as numbers but different as texts |
| HashJoin.SingleJoinEqualIff | src/runtime/executor_streaming.cpp:139-181 | With one join and SELECT *, over all primary rows, the hash path delivers the same bag if and only if for each of them lookup by key text finds every row the condition accepts |
| HashJoin.ConditionOnKeys | src/runtime/evaluator.cpp:278-289 | For such a join the condition on the overlaid row compares the two key texts, as numbers when both are |
| HashJoin.AliasIsMissed | src/runtime/executor_streaming.cpp:146 | An instance: the keys "1" and "1.0" meet the condition and are not joined |
| HashJoin.SameNameAcceptsAll | src/runtime/executor_streaming.cpp:148-152 | With the same name on both sides, the condition holds for every joined row that has the column |
| Cte.RunRound | src/runtime/runtime.cpp:96-98 | One round in a runtime of its own: the recursive query over the rows of the last round, failing exactly on an error or when the joined rows and these rows exceed the row limit |
| Cte.RecursiveCte | src/runtime/runtime.cpp:75-105 | Succeeds exactly when some round within the limit is the first empty one; the result R satisfies R = anchor ++ Q(R) as sequences and is contained in every bag closed under anchor and query |
| Cte.RoundsUnfold | src/runtime/runtime.cpp:98-103 | Because the query works row by row, all rounds so far are the anchor and one application of the query to the rounds before |
| Cte.StoppedIsFixpoint | src/runtime/runtime.cpp:100-105 | When a round is empty, the rows gathered are a fixpoint |
| Cte.StreamMonotone | src/runtime/runtime.cpp:98 | The query delivers no more for a part of a bag than for the bag |
| Cte.RoundsWithinClosed | src/runtime/runtime.cpp:89-104 | Every round stays inside every closed bag |
| Cte.ClosedMeansEmptyRound | src/runtime/runtime.cpp:100 | If a closed bag of s rows exists, one of the first s + 1 rounds is empty |
| Cte.EndsIffClosed | src/runtime/runtime.cpp:89-104 | Some round is empty if and only if some finite bag is closed |
| Parser.ExpressionParser.constructor | src/parser/parser.cpp:10 | A new parser stands at the first token with both counters at zero |
| Parser.ExpressionParser.Match | src/parser/parser.cpp:147-155 | Steps over the current token exactly when it is of the given kind |
| Parser.ExpressionParser.TrackNodeCreation | src/parser/parser.cpp:162-167 | Counts a node always, and fails exactly above 50000 |
| Parser.ExpressionParser.ParseExpression | src/parser/parser.cpp:281-284 | Returns the parse from the current position, with position and node counter where the parse leaves them and the recursion depth restored |
| Parser.ExpressionParser.ParseAtLevel | src/parser/parser.cpp:286-374 | The same for each precedence level, including the guard's limit of 128 |
| Parser.ExpressionParser.ParseOperators | src/parser/parser.cpp:286-341 | The same for the loops that build left-associated operations |
| Parser.ExpressionParser.ParseOperand | src/parser/parser.cpp:343-374 | The same for names, calls, literals and parentheses |
| Parser.ExpressionParser.ParseCall | src/parser/parser.cpp:347-357 | The same for a call after its opening parenthesis |
| Parser.ExpressionParser.ParseArguments | src/parser/parser.cpp:350-352 | The same for the loop over arguments |
| ParserGrammar.AcceptsExactlyGrammar | src/parser/parser.cpp:281-374 | On every token list and position, ParseExpression succeeds exactly on the texts of a grammar that lists the operators of each level itself: OR between texts of AND, those between texts of == != LIKE, those between texts of > >= < <=, all left-associative, within both limits (depth 128, 50000 nodes); it returns their tree and stops at their end |
| ParserGrammar.FitsIff | src/parser/parser.cpp:286-341 | The levels of the loops are the levels of that grammar |
| ParserGrammar.AndBeforeOr | src/parser/parser.cpp:286-312 | Without parentheses AND binds tighter than OR, on either side of it |
| ParserGrammar.LevelParses | src/parser/parser.cpp:286-374 | Every text of a level that what follows does not continue is parsed to its tree, or breaks a limit |
| ParserGrammar.ChainParses | src/parser/parser.cpp:290-295 | After the text of a left operand the loop of its level is reached with that operand's tree, which is what makes the operators left-associative |
| ParserGrammar.LevelIsGrammar | src/parser/parser.cpp:286-374 | Everything a level accepts is such a text, and what follows is no operator of the level or a tighter one |
| ParserGrammar.NodesCounted | src/parser/parser.cpp:162-167 | Every success raises the node counter by exactly the number of nodes of the tree |
| ParserGrammar.NestingLimit | src/parser/parser.cpp:12-17 | From a fresh parser, nesting of parentheses and arguments up to 20 is accepted and 21 never, with the recursion error |
| ParserPrinter.MinimalFits | src/parser/parser.cpp:286-374 | The minimally parenthesised text of an expression is in the grammar that lists the operators, and stands for that expression |
| ParserPrinter.PrintReads | src/parser/parser.cpp:343-371 | The printed tokens of a text are read as that text |
| ParserPrinter.PrintedParses | src/parser/parser.cpp:281-374 | Any text of the grammar, with superfluous parentheses or without, is parsed to its tree, exactly if the two limits allow |
| ParserPrinter.ParseUndoesPrint | src/parser/parser.cpp:281-374 | For every expression and whatever follows it, parsing its minimally parenthesised tokens returns it and stops at their end, exactly if the limits allow |
| Lexer.Lexer.Advance | src/lexer/lexer.cpp:22-32 | Moves one character and keeps line and column equal to those of the position in the text |
| Lexer.Lexer.SkipWhitespace | src/lexer/lexer.cpp:38-47 | Moves to the first character that is not whitespace |
| Lexer.Lexer.NextToken | src/lexer/lexer.cpp:69-118 | Yields the lexeme at the position, with its start's line and column, and stops after it, or fails as specified |
| Lexer.Lexer.ReadIdentifierOrKeyword | src/lexer/lexer.cpp:120-159 | Yields a whole word, as a lower-cased keyword or as an identifier |
| Lexer.Lexer.ReadNumber | src/lexer/lexer.cpp:161-179 | Yields digits with at most one point |
| Lexer.Lexer.ReadString | src/lexer/lexer.cpp:181-203 | Yields the text up to the next quote of the same kind; too long is reported before unterminated |
| Lexer.Lexer.Tokenize | src/lexer/lexer.cpp:49-67 | Returns the tokens of the whole text and the end marker, or the first error |
| Lexer.Lex | src/lexer/lexer.cpp:10-67 | The same with the constructor's check of the text size |
| LexerMeaning.LexemeAtIsLongest | src/lexer/lexer.cpp:69-203 | At every position the lexer takes the longest text that is a lexeme, and fails exactly when no lexeme begins there |
| LexerMeaning.LexesTheDivision | src/lexer/lexer.cpp:10-67 | The lexer succeeds, with given tokens, if and only if the text is within the size limit and divides into their longest lexemes in order, with only whitespace between, each token having the line and column of its first character; the token limit plays no part |
| LexerMeaning.SpansWithin | src/lexer/lexer.cpp:59-61 | No text has more lexemes than characters |
| LexerMeaning.LinesCountNewlines | src/lexer/lexer.cpp:25-27 | A line number is one more than the number of newlines before the position |
| LexerMeaning.ColumnsSinceNewline | src/lexer/lexer.cpp:25-30 | A column counts the characters since the last newline |
| LexerMeaning.KeywordIff | src/lexer/lexer.cpp:130-158 | A lower-case word is a keyword of a kind if and only if it is the spelling of that kind, each kind with its own |
| LexerMeaning.WordMeans | src/lexer/lexer.cpp:120-159 | A word is a keyword exactly if its lower-case form is a spelling, and is then lower-cased; otherwise it is an identifier as written |
| LexerMeaning.SymbolMeans | src/lexer/lexer.cpp:86-117 | Which texts of one and two characters are symbols, and of which kind |
| LexerMeaning.CharactersListed | src/lexer/lexer.cpp:74-80 | Which characters begin a word, continue one, are digits, quotes and whitespace |
| LexerMeaning.LowerMeans | src/lexer/lexer.cpp:131-134 | Lower-casing changes the letters A to Z to a to z, character by character, and nothing else |
| LexerPrinter.SpaceEnds | src/lexer/lexer.cpp:120-203 | A space ends every lexeme |
| LexerPrinter.WordsAreLexed | src/lexer/lexer.cpp:49-67 | Lexemes written with single spaces between them are read back one by one, exactly if the text is within the size limit |
| LexerPrinter.LexUndoesPrint | src/lexer/lexer.cpp:49-67 | Printing any tokens the lexer can return and lexing them gives the same kinds and values, exactly if the text is within the size limit |
| LexerPrinter.LexedIsLexable | src/lexer/lexer.cpp:49-67 | Everything the lexer returns can be printed |
| LexerPrinter.RelexKeepsTokens | src/lexer/lexer.cpp:49-67 | Printing the tokens of a text and lexing again changes only positions |
| QueryText.ExprForgets | src/parser/parser.cpp:281-374 | The parser never depends on the tokens' positions |
| QueryText.ReadsBack | src/parser/parser.cpp:281-374 | Every expression, printed as text, then lexed and parsed, comes back up to token positions, exactly if the limits on text size, nesting and nodes allow |
| Formatter.Formatter.PrintHeader | src/utils/formatter.cpp:20-33 | Appends the header line, or the opening bracket |
| Formatter.Formatter.WriteCells | src/utils/formatter.cpp:25-28 | The loop appends the cells with delimiters between them and a newline |
| Formatter.Formatter.PrintRow | src/utils/formatter.cpp:35-63 | Appends the row's values in field order, each the value under that name or empty for a missing column, with a comma before every JSON row but the first |
| Formatter.Formatter.WriteObject | src/utils/formatter.cpp:55-61 | The loop appends the members of an object |
| Formatter.Formatter.Flush | src/utils/formatter.cpp:105-107 | Appends the closing bracket of JSON |
| Formatter.WriteRows | src/utils/formatter.cpp:35-63 | The calls for all rows append the texts of the rows in order |
| Formatter.WriteFile | src/utils/formatter.cpp:20-109 | Header, rows and end together write the file text that the round trips are about |
| Formatter.WriterInstance | src/utils/formatter.cpp:20-109 | For any two names and values, the text of a file with one row, written out for CSV, TSV and JSON |
| CsvRoundTrip.HeadersComeBackIff | src/adapters/csv/csv_adapter.cpp:50-84 | The headers read from a written header line are the names printed if and only if there are names, and each has no delimiter and no newline and is left alone by cleaning |
| CsvRoundTrip.LineComesBackIff | src/adapters/csv/csv_adapter.cpp:105-136 | A written line is read as its values if and only if every value is kept |
| CsvRoundTrip.KeptLineEnds | src/adapters/csv/csv_adapter.cpp:105-136 | If every value is kept, the row ends where its line was written to end |
| CsvRoundTrip.FillIsPairs | src/adapters/csv/csv_adapter.cpp:109-118 | Under distinct headers any number of cells become the pairs of names and cleaned cells, in order, up to the shorter count |
| CsvRoundTrip.FillDistinct | src/adapters/csv/csv_adapter.cpp:109-118 | A row that is read has no name twice |
| CsvRoundTrip.RowComesBackIff | src/adapters/csv/csv_adapter.cpp:94-151 | The row read where a row was printed is that row if and only if all its values are kept, and then the next row is read where the next one was printed |
| CsvRoundTrip.RowsComeBackIff | src/adapters/csv/csv_adapter.cpp:94-151 | Exactly the printed rows are read, in order and nothing else, if and only if all their values are kept |
| CsvRoundTrip.CsvRoundTrip | src/utils/formatter.cpp:20-63 | For CSV and TSV and all names and rows: the reader of the written text has the printed names as headers and reads the printed rows if and only if there are names, none of them has a delimiter or a newline or is changed by cleaning, none is repeated above a row, and every value meets no delimiter or newline outside quotes, ends outside quotes and is left alone by cleaning |
| CsvRoundTrip.OwnRowsComeBackIff | src/utils/formatter.cpp:20-63 | For all rows with the same names in the same order, written under these names as CSV or TSV: the reader returns the same names and the same rows if and only if there are names, every name and every value is kept, and no row has a name twice |
| CsvRoundTrip.FindPrinted | src/utils/formatter.cpp:45-48 | A printed row has under each field the value the row has there, or the empty text if it has none |
| CsvRoundTrip.PrintedSelf | src/utils/formatter.cpp:45-48 | A row with distinct names, printed under these, is itself |
| CsvRoundTrip.OrdinaryKept | src/utils/formatter.cpp:46-53 | Text without delimiters, newlines and quotes is kept unless it ends in a carriage return |
| CsvRoundTrip.FileInstances | src/utils/formatter.cpp:46-53 | Instances: a value with a comma comes back from a TSV file but not from a CSV file, a value in quotes does not come back, and one with a comma between inner quotes does |
| Json.JsonAdapter.Open | src/adapters/json/json_adapter.cpp:21-54 | Fails above the size limit or when no bracket opens the file, with the respective error, and otherwise stands after the bracket |
| Json.JsonAdapter.SkipWhitespace | src/adapters/json/json_adapter.cpp:56-60 | Moves to the first character that is not whitespace |
| Json.JsonAdapter.Match | src/adapters/json/json_adapter.cpp:103-110 | Steps over the expected character after whitespace, or fails |
| Json.JsonAdapter.ParseString | src/adapters/json/json_adapter.cpp:62-101 | Returns the unescaped text up to the first quote no backslash takes along, and stops after it |
| Json.JsonAdapter.ScanString | src/adapters/json/json_adapter.cpp:69-78 | Finds that quote; if no escape was noticed there is no backslash before it |
| Json.JsonAdapter.CopyUnescaped | src/adapters/json/json_adapter.cpp:87-97 | The copying loop drops exactly the backslashes that take a character along |
| Json.JsonAdapter.ParseValue | src/adapters/json/json_adapter.cpp:121-133 | Returns a string, or the run of digits, points and minus signs that begins like a number |
| Json.JsonAdapter.ParseMember | src/adapters/json/json_adapter.cpp:117-142 | One turn of the loop over members stores a value, passes at most one comma, and leaves the rest of the object to be read |
| Json.JsonAdapter.ParseObject | src/adapters/json/json_adapter.cpp:112-145 | Returns the object's row and stops after its brace |
| Json.JsonAdapter.MoveToNextObject | src/adapters/json/json_adapter.cpp:147-169 | Steps over whitespace and at most one comma, on every call, and says whether an object begins there |
| Json.JsonAdapter.HasNext | src/adapters/json/json_adapter.cpp:171-173 | The same |
| Json.JsonAdapter.Next | src/adapters/json/json_adapter.cpp:175-180 | Steps once more and returns the row of the object there, or fails |
| Json.JsonAdapter.ReadRows | src/adapters/json/json_adapter.cpp:147-180 | Asking and reading until nothing is left returns the rows of the file in order, although each row is asked for twice |
| JsonMeaning.AcceptsExactly | src/adapters/json/json_adapter.cpp:21-180 | For every text: the reader accepts it, with given rows, if and only if it is laid out as an array of objects that say these rows, stated by the positions of brackets, names, colons, values and commas: a comma is needed between members, may follow the last, is optional between objects, and nothing is required after the last object |
| JsonMeaning.StringIff | src/adapters/json/json_adapter.cpp:62-101 | A string is read exactly where a quote opens one, up to the first quote no backslash takes along, as the text its characters spell |
| JsonMeaning.ValueIff | src/adapters/json/json_adapter.cpp:121-133 | A value is read exactly where a string or the longest run of digits, points and minus signs from a digit or minus sign on stands |
| JsonMeaning.MembersAreRead | src/adapters/json/json_adapter.cpp:112-145 | Members laid out so are read as the row in which a repeated name has its last value at its first place |
| JsonMeaning.ReadAreMembers | src/adapters/json/json_adapter.cpp:112-145 | Wherever an object is read, members are laid out so |
| JsonMeaning.LooseFileIsRead | src/adapters/json/json_adapter.cpp:138-169 | An instance: a comma after the last member, no comma between two objects and no closing bracket are all accepted |
| JsonRoundTrip.ParseUndoesEscape | src/adapters/json/json_adapter.cpp:62-101 | ParseString undoes backslash-escaping of quotes and backslashes for every string, wherever it stands |
| JsonRoundTrip.WrittenComesBackIff | src/utils/formatter.cpp:59 | A string as the writer writes it is read back, and to its end, if and only if it has no quote and no backslash |
| JsonRoundTrip.MembersAreRead | src/adapters/json/json_adapter.cpp:117-142 | The written members of an object are read as its names and values, in order |
| JsonRoundTrip.RowsAreRead | src/adapters/json/json_adapter.cpp:147-180 | The written objects are read as the printed rows, in order and nothing else |
| JsonRoundTrip.JsonRoundTrip | src/utils/formatter.cpp:20-107 | For distinct names, and names and values without quotes and backslashes, the reader returns the printed rows |
| JsonExact.UnescapePays | src/adapters/json/json_adapter.cpp:87-97 | Every quote in a string that is read has taken one backslash of the file, and every backslash two |
| JsonExact.FilePays | src/adapters/json/json_adapter.cpp:21-180 | Whatever a file is read as, its names and values together cost no more backslashes than the file has, and no row has a name twice |
| JsonExact.FilePaid | src/utils/formatter.cpp:20-107 | A written file has exactly the backslashes of the names and values in it |
| JsonExact.JsonComesBackIff | src/utils/formatter.cpp:20-107 | For all names and rows: the reader of the written text returns the printed rows if and only if there is no row, or no name is repeated and no name and no printed value has a quote or a backslash |
| JsonExact.OwnRowsComeBackIff | src/utils/formatter.cpp:20-107 | For all rows with the same names in the same order, written under these names as JSON: the reader returns the same rows if and only if there is no row, or no row has a name twice and no name and no value has a quote or a backslash |

## Left out

Members stated for less than the code does:

- OrderBy.OrderSplits: without the shared counter and the two flags; `OrderSchedules.EveryScheduleOrders` states the result for every interleaving in which neither flag is raised, and `RowCounterRace` says when one can be.
- OrderBy.FilterAndSort: without the shared counter and the two flags, for the same reason.
- OrderBy.StdStableSort: stands for the library's sort; its body is an insertion sort, and the rest of the project uses only its contract. That it permutes even when the comparator is no strict weak order is more than the standard promises.
- MergeSorter.PickTop: stands for the library's heap; its body is a search, and the rest of the project uses only its contract. The order of ties in the merge is therefore arbitrary, as it is in the source.
- Streaming.BuildJoin: without the estimate of memory use (`src/runtime/executor_streaming.cpp:110-125`), which depends on string capacities, and without the clock; names in the join condition are not empty, as the lexer makes them.
- Streaming.Executor.Execute: without the clock and without printing the header row. When the limit is reached and a condition still to be tried for the same primary row fails, the source fails or not according to where the failure lies; the contract leaves this case open.
- Streaming.Executor.ProcessRow: the results are gathered in memory, as for a subquery; printing them is modelled in `Formatter`.
- Cte.RecursiveCte: for a recursive query that reads the CTE in FROM only; the clock is left out, and the hash tables that each round builds anew are taken to hold their rows in the same order every time. UNION and UNION ALL are treated alike here by the source as well.
- GroupBy.Worker.Process: without the table's four maps keyed by node address; each aggregate has a cell in a sequence, with the value an absent map entry would read as.
- GroupSchedules.GroupAlone: up to the merged buckets; HAVING, the final projection, AVG, ordering and output of the groups are not modelled.
- Parser.ExpressionParser.ParseExpression: the clauses around expressions (SELECT lists, FROM, JOIN, WITH and so on) are not modelled; after an error only the error is stated, since the parser is then discarded.
- Csv.CsvAdapter.Next: all columns are projected, as the runtime leaves them.
- Json.JsonAdapter.ParseValue: a value missing at the very end of a file is an error here; the source reads the byte after the file at that place (`src/adapters/json/json_adapter.cpp:123`).
- Json.JsonAdapter.HasNext: for an adapter that is open and was not split.
- JsonRoundTrip.JsonRoundTrip: one direction, for text without quotes and backslashes; `JsonExact.JsonComesBackIff` is the exact condition.
- CsvSplit.TabFileSplitIff: for files in which no other column has the name of the first; where it is repeated, a later cell overwrites the one that shows the difference.
- Formatter.Formatter.PrintHeader: without the TABLE format, which buffers rows to align columns.
- Formatter.Formatter.PrintRow: without the TABLE format, for the same reason.
- Formatter.Formatter.Flush: without the TABLE format, for the same reason.
- VectorEvaluator.MixedAgreesIff: a number literal beside a text; a numeric column beside a text is shown by `std::to_string`, which is a parameter, so that no condition on it is stated.

Not modelled:

- A condition that is a bare function call, on which the source dereferences a null child, and an aggregate without arguments, on which it reads past an empty list; both are errors here.
- Splitting of JSON, XML and YAML files, which is not a partition as written; the XML and YAML adapters.
- The SQLite and Parquet adapters, which wrap libraries that are not part of this model.
- Row removal for UNION, projection pushdown, and joins together with GROUP BY or ORDER BY, which those executors ignore.
- The bodies of the inline functions, number formatting, and `strtod`.
- Error messages, the command line and the interactive shell, logging, benchmarks and path validation.
- Ties of the parallel ORDER BY in file order: the source does not promise it, since its queue compares keys only.
