# Contrib modules of PostgreSQL 9.1.4, modelled in Dafny

This project models five contrib modules of PostgreSQL 9.1.4 and proves what they promise. Every result is a
statement about all inputs or all runs of the model.

`dafny verify dfyconfig.toml` checks the whole project.

**Levenshtein distance** (`EditDistance`, `Levenshtein`, `LevenshteinBound`). The distance is defined cell by
cell and proved to be the least cost of any edit script. The two-row computation returns it. The bounded
computation, with its window of live columns, poisoned cells, stale second row and early exits, returns it
whenever it is within the bound. The argument follows A*: a residual that is a consistent lower bound, an
invariant that no live cell leaves the window, and cells that over-estimate everywhere else. For which costs it
does so is settled for all integer costs, negative ones included.

**Boolean queries over integer arrays** (`QuerySyntax`, `QueryParser`, `QueryCompiler`, `IntTool`, `QueryEval`,
`QueryPrinter`, `QueryRoundTrip`, `QueryLimits`). A grammar with a meaning stands beside the scanner, the
shunting-yard compiler, the links between items, the evaluator, the printer and the index support. The compiler
accepts exactly the grammar and keeps its meaning, evaluation gives that meaning, the index never hides a match,
and printing reads back.

**Range keys over integer arrays** (`IntRanges`, `RangeCover`). A long array is compressed to 100 ranges by
closing its smallest gap again and again. Whenever the key can be expanded again the expansion is the smallest
cover by 100 intervals, and it can exactly when all gaps fit 32 bits, some cover fits the allocation limit and
the array does not end at the largest integer.

**hstore** (`HStoreLayout`, `HStoreBuilder`, `HStoreMap`, `HStorePairs`, `HStoreSearch`, `HStoreOps`,
`HStoreCompare`, `HStoreUpgrade`, `HStoreText`, `HStoreParser`, `HStoreIO`). The stored form, entries with end
positions and flags over one string, is tied to a map: canonical values and maps correspond one to one. The
operators compute map operations and stay canonical, the comparison is a total order whose zero is equality of
maps, the text form has a grammar that the parser accepts exactly, output and input round trip, and the upgrade
of the old format is proved with its one exception.

**pg_stat_statements** (`StatTable`, `MapSum`, `StatProtocol`, `StatHistory`, `StatProgress`). Backends that
store, read and reset are interleaved step by step over one table lock, one spinlock for each entry and entries
at reusable places. Invariants over every run give the protection of the counters, the balance of calls and the
bound of the table. The steps of a run alone say what every entry must show and what every row a reader returns
must have been, and the model is proved to agree. Every operation takes a bounded number of its own steps, and there is no deadlock.

**ltree index keys** (`Lexicographic`, `LtreeOrder`, `LtreeGist`). The comparison of label paths is right
exactly up to 14653 levels. Up to there unions and splits build keys that lie above their entries, and no search
prunes an answer.

Values of the C code appear as follows. Integers are unbounded except where the width matters: 16-bit links,
32-bit sizes and gaps, 32-bit comparison results and the wrapping loop counter are written out, and so is the
allocation limit of 1073741823 bytes (`Alloc`), with structures laid out for 64-bit pointers. Doubles
(`total_time`, `usage`) are reals without rounding. Characters stand for bytes and are compared by their codes.
A `qsort` is any permutation in order, a hash table is a map, a checksum is any function of the label. `memcmp`
is taken to return the difference of the first bytes that differ, where C fixes only its sign; the limit of
14653 levels rests on that. Output and error paths are datatypes.

Where a property fails for some inputs, lemmas give such inputs and the exact condition: costs with a bound
(`LevenshteinBound.RightExactlyWhenSafe`), link width (`QueryEval.LinksReachExactly`), expansion of range keys
(`RangeCover.CompressThenDecompress`), the number of pairs in a text (`HStoreIO.RoundTrip`,
`HStoreIO.TooManyKeys`), path length (`LtreeOrder.CompareRightExactlyUpTo`), the misread old value
(`HStoreUpgrade.UpgradeKeepsPairs`).

All lemmas switch automatic induction off, so that each proof is the one written.

## Model

| member | source | states |
|---|---|---|
| EditDistance.DistanceIsCheapestScript | postgresql-9.1.4/contrib/fuzzystrmatch/levenshtein.c:40-50 | for all texts and all costs, the distance is attained by some script of insertions, deletions, substitutions and keeps that turns s into t, and no such script is cheaper |
| EditDistance.DistanceIsMetric | postgresql-9.1.4/contrib/fuzzystrmatch/levenshtein.c:36-50 | with equal positive insertion and deletion costs and positive substitution cost the distance is zero exactly for equal texts, symmetric, and obeys the triangle inequality |
| EditDistance.CellTriangle | postgresql-9.1.4/contrib/fuzzystrmatch/levenshtein.c:40-50 | the triangle inequality for every triple of texts and every non-negative choice of the three costs |
| EditDistance.CellMirrors | postgresql-9.1.4/contrib/fuzzystrmatch/levenshtein.c:40-50 | turning s into t costs what turning t into s costs with insertion and deletion costs exchanged, prefix by prefix |
| EditDistance.CellIsLowerBound | postgresql-9.1.4/contrib/fuzzystrmatch/levenshtein.c:40-50 | a script that consumes i characters and produces j costs at least the cell (i, j) |
| EditDistance.CellIsAttained | postgresql-9.1.4/contrib/fuzzystrmatch/levenshtein.c:40-50 | for every cell there is a script between the two prefixes of exactly that cost |
| Levenshtein.LevenshteinInternal | postgresql-9.1.4/contrib/fuzzystrmatch/levenshtein.c:210-403 | the computation with two swapped rows returns the distance of the definition by cells, or reports an argument over 255 characters |
| LevenshteinBound.LevenshteinLessEqualInternal | postgresql-9.1.4/contrib/fuzzystrmatch/levenshtein.c:138-403 | for all texts, costs and bounds returns what the specification says; with safe costs, or without a bound, that is the exact distance if it is within the bound, otherwise some value over the bound |
| LevenshteinBound.RightExactlyWhenSafe | postgresql-9.1.4/contrib/fuzzystrmatch/levenshtein.c:138-403 | for every choice of three integer costs: the bounded routine answers correctly for all texts and all bounds if and only if insertion and deletion both cost at most nothing, or no cost is negative, or their sum and the substitution cost are not negative and one of these two is zero |
| LevenshteinBound.SafeIsRight | postgresql-9.1.4/contrib/fuzzystrmatch/levenshtein.c:138-403 | with safe costs, or without a bound, the outcome is the exact distance up to the bound, a value over the bound beyond it, and the length error exactly for long texts |
| LevenshteinBound.InsertionRefused | postgresql-9.1.4/contrib/fuzzystrmatch/levenshtein.c:155-158 | with a positive insertion cost and a negative substitution or round trip, x against yz is refused although its distance is within the bound |
| LevenshteinBound.DeletionRefused | postgresql-9.1.4/contrib/fuzzystrmatch/levenshtein.c:155-158 | the same for a positive deletion cost, with yz against x |
| LevenshteinBound.PaidInsertion | postgresql-9.1.4/contrib/fuzzystrmatch/levenshtein.c:240-244 | with a negative insertion cost, a positive sum of insertion and deletion and a positive substitution cost, x against y with bound 0 is answered as within the bound although it is not |
| LevenshteinBound.PaidDeletion | postgresql-9.1.4/contrib/fuzzystrmatch/levenshtein.c:369-389 | the same for a negative deletion cost, with ax against ay |
| LevenshteinBound.BandedRows | postgresql-9.1.4/contrib/fuzzystrmatch/levenshtein.c:222-402 | the row loop over two swapped arrays, of which the older is stale, returns what the window specification returns, for any costs and bound |
| LevenshteinBound.RowsAnswer | postgresql-9.1.4/contrib/fuzzystrmatch/levenshtein.c:222-402 | from any window that encloses all live cells and approximates every cell, the remaining rows end with a correct answer, and the last column was computed |
| LevenshteinBound.FillRow | postgresql-9.1.4/contrib/fuzzystrmatch/levenshtein.c:246-326 | one row: every column up to the stop column gets its cheapest step from its three neighbours, a column left of the window reading as the bound plus one |
| LevenshteinBound.WidenedTracks | postgresql-9.1.4/contrib/fuzzystrmatch/levenshtein.c:234-326 | one row: a cell whose value and residual fit the bound is exact and lies in the window, and every other is an over-estimate capped by the bound |
| LevenshteinBound.SlideStop | postgresql-9.1.4/contrib/fuzzystrmatch/levenshtein.c:357-367 | the stop column moves left to the last column that passes the test |
| LevenshteinBound.SlideStart | postgresql-9.1.4/contrib/fuzzystrmatch/levenshtein.c:369-389 | the start column moves right to the first column that passes the test, leaves both rows marked behind it, changes nothing else, and keeps the text pointer in step |
| LevenshteinBound.NarrowedTracks | postgresql-9.1.4/contrib/fuzzystrmatch/levenshtein.c:345-394 | narrowing gives up only columns that cannot lead to an answer, and the last column kept can |
| LevenshteinBound.InitialBand | postgresql-9.1.4/contrib/fuzzystrmatch/levenshtein.c:164-184 | the stop column computed from the slack leaves out no cell of the top row that can lead to an answer |
| LevenshteinBound.EnclosesNextRow | postgresql-9.1.4/contrib/fuzzystrmatch/levenshtein.c:234-244 | moving the stop column by one is enough for the next row |
| LevenshteinBound.LiveInEveryRow | postgresql-9.1.4/contrib/fuzzystrmatch/levenshtein.c:345-394 | if a cell can lead to an answer within the bound, every row above it has such a cell |
| LevenshteinBound.LiveReachesZeroPoint | postgresql-9.1.4/contrib/fuzzystrmatch/levenshtein.c:348-355 | in the last row a window that is not empty reaches the final cell, so the value returned was computed |
| LevenshteinBound.EmptyWindow | postgresql-9.1.4/contrib/fuzzystrmatch/levenshtein.c:391-393 | if start and stop columns cross, the distance exceeds the bound |
| LevenshteinBound.TheoreticalMinimum | postgresql-9.1.4/contrib/fuzzystrmatch/levenshtein.c:155-158 | the length difference alone already costs the theoretical minimum, if insertion and deletion together and substitution are not negative |
| LevenshteinBound.LoweredSubstitution | postgresql-9.1.4/contrib/fuzzystrmatch/levenshtein.c:159-160 | replacing a substitution cost above insertion plus deletion by their sum changes no cell |
| QueryParser.CompileComplete | postgresql-9.1.4/contrib/intarray/_int_bool.c:163-233 | every text of the query grammar whose pending operators fit the stack of 16 compiles, to the postfix of its meaning with ! over & over &#124; |
| QueryParser.CompileSound | postgresql-9.1.4/contrib/intarray/_int_bool.c:163-233 | every text that compiles is a text of the grammar, and its output is the postfix of that meaning |
| QueryParser.CompileAcceptsExactly | postgresql-9.1.4/contrib/intarray/_int_bool.c:163-233 | the compiler accepts a C string exactly when it is the text of a well-formed query that fits the operator stack |
| QuerySyntax.OctalMeans | postgresql-9.1.4/contrib/intarray/_int_bool.c:101-107 | a number with a leading zero means the sum of its octal digits, up to the first 8 or 9, times powers of eight; a sign negates it |
| QuerySyntax.DecimalMeans | postgresql-9.1.4/contrib/intarray/_int_bool.c:101-107 | any other number means the sum of its digits times powers of ten; a sign negates it |
| QueryLimits.PendingOperators | postgresql-9.1.4/contrib/intarray/_int_bool.c:187-194 | n signs ! before a number compile if and only if n is at most 16, and otherwise are reported as too complex |
| QueryLimits.NumberLength | postgresql-9.1.4/contrib/intarray/_int_bool.c:59-107 | n zeros compile if and only if n is between 1 and 15 |
| QueryCompiler.WorkState.GetToken | postgresql-9.1.4/contrib/intarray/_int_bool.c:56-140 | the scanner reads past spaces, one number of up to 15 characters in the base its prefix says, or one punctuation mark, and moves through its states as specified, for every buffer and place |
| QueryCompiler.WorkState.MakePolish | postgresql-9.1.4/contrib/intarray/_int_bool.c:162-233 | the recursive compiler with its array of operators does what the specification says from the same place, in all three outcomes |
| QueryCompiler.WorkState.PushQuery | postgresql-9.1.4/contrib/intarray/_int_bool.c:145-156 | pushing puts one node at the end of the output list |
| QueryCompiler.FindOprnd | postgresql-9.1.4/contrib/intarray/_int_bool.c:451-479 | fills in the links of exactly the subquery that ends at the given place, as 16-bit numbers, and steps before it |
| QueryCompiler.CopyNodes | postgresql-9.1.4/contrib/intarray/_int_bool.c:514-527 | copying the linked list from its newest node gives the array in output order |
| QueryCompiler.BqarrIn | postgresql-9.1.4/contrib/intarray/_int_bool.c:485-545 | accepts exactly the texts that compile to a query within the allocation limit, and these become the linked items of a reading of the text; reports syntax and complexity exactly when the compiler does, and refuses the size exactly if its 32-bit value is over the limit or negative |
| IntTool.Isort | postgresql-9.1.4/contrib/intarray/_int_tool.c:188-222 | sorts in place, keeps every element with its multiplicity, and reports duplicates exactly if there are some |
| IntTool.InsertAt | postgresql-9.1.4/contrib/intarray/_int_tool.c:204-219 | one element is moved to its place in the sorted part, and meeting an equal one is reported |
| IntTool.IntUnique | postgresql-9.1.4/contrib/intarray/_int_tool.c:292-312 | the sorted array keeps each of its values once, in strictly ascending order |
| IntTool.PrepareArr | postgresql-9.1.4/contrib/intarray/_int.h:36-42 | sorting, and dropping duplicates only when the sort met some, gives the strictly ascending values of the array |
| IntTool.Contains | postgresql-9.1.4/contrib/intarray/_int_bool.c:244-264 | binary search finds a value exactly if it is there |
| QueryEval.BoolOp | postgresql-9.1.4/contrib/intarray/_int_bool.c:430-449 | for every unsorted array with duplicates and every query whose links stay inside it, the answer is that of evaluation along the links over the members of the array; if the links fit 16 bits it is the truth of the formula |
| QueryEval.ExecuteIsHolds | postgresql-9.1.4/contrib/intarray/_int_bool.c:275-305 | evaluation along the links gives the truth of the formula for any leaf test that decides membership |
| QueryEval.LinksReachExactly | postgresql-9.1.4/contrib/intarray/_int_bool.c:469-478 | all links of a query reach the left operands of their operators if and only if every right operand has at most 32767 items |
| QueryEval.WrappedLinkMisleads | postgresql-9.1.4/contrib/intarray/_int_bool.c:469-478 | 1 and a disjunction of 32769 twos: the link wraps to one of the twos, and evaluation finds the query true on an array where it is false |
| QueryEval.WrappedLinkLeadsOut | postgresql-9.1.4/contrib/intarray/_int_bool.c:469-478 | 1 and a disjunction of 16385 twos: the link leads past the end of the query |
| QueryRoundTrip.AnswerText | postgresql-9.1.4/contrib/intarray/_int_bool.c:430-545 | reading a text and evaluating it on an array: refused exactly if it does not compile within the allocation limit, otherwise the truth of a reading of the text if its links fit |
| QueryRoundTrip.MisleadingText | postgresql-9.1.4/contrib/intarray/_int_bool.c:485-545 | the misleading query has a text that is accepted |
| QueryEval.ExecuteArr | postgresql-9.1.4/contrib/intarray/_int_bool.c:275-305 | recursive evaluation with binary search at the leaves agrees with the evaluation over the set of members |
| QueryEval.LossyExecuteIsSound | postgresql-9.1.4/contrib/intarray/_int_bool.c:275-305 | with negations taken as true, evaluation over anything that covers the members is true whenever the query is |
| QueryEval.LossyExecuteIsLenient | postgresql-9.1.4/contrib/intarray/_int_bool.c:275-305 | without computing negations, evaluation is exactly the formula with every negation taken as true |
| QueryEval.HashedTogether | postgresql-9.1.4/contrib/intarray/_int.h:65-66 | two numbers share a signature bit if and only if, taken as unsigned, they differ by a multiple of 2016 |
| QueryEval.SignatureNeverHidesMatch | postgresql-9.1.4/contrib/intarray/_int_bool.c:266-317 | a signature that holds the bits of an array never hides a match of that array |
| QueryEval.UnionNeverHidesMatch | postgresql-9.1.4/contrib/intarray/_int_bool.c:319-332 | a key that is a superset of an array never hides a match of that array |
| QueryEval.RequiredValueIsRequired | postgresql-9.1.4/contrib/intarray/_int_bool.c:374-416 | if a value is found to be required, every satisfying array contains a value of the query |
| QueryEval.RequiredExactly | postgresql-9.1.4/contrib/intarray/_int_bool.c:374-416 | a value is found to be required if and only if the formula with every negation taken as true fails on the empty array |
| QueryEval.QueryExtract | postgresql-9.1.4/contrib/intarray/_int_gin.c:25-59 | the extracted keys are the values of the query in order, and all of the index is searched exactly if no value is required |
| QueryEval.ExtractedAreValues | postgresql-9.1.4/contrib/intarray/_int_gin.c:45-58 | a number is extracted exactly if it occurs in the formula |
| QueryEval.DefaultModeLosesNothing | postgresql-9.1.4/contrib/intarray/_int_gin.c:35-43 | in the default search mode every satisfying array contains an extracted value, so the index visits it |
| QueryEval.GinBoolConsistent | postgresql-9.1.4/contrib/intarray/_int_bool.c:346-372 | given which extracted values an array contains, the answer is the truth of the query on that array, with no recheck |
| QueryEval.MapCheck | postgresql-9.1.4/contrib/intarray/_int_bool.c:357-367 | every value item gets the mark of the value extracted from it |
| QueryPrinter.PrintReadsBack | postgresql-9.1.4/contrib/intarray/_int_bool.c:566-659 | for every formula with 32-bit numbers the printed text compiles, to a query with the same truth on every array, and to the identical items if and only if no & has an & as its right operand |
| QueryPrinter.PrintCompiles | postgresql-9.1.4/contrib/intarray/_int_bool.c:566-659 | the printed text compiles to the formula with its & chains associated to the left |
| QueryPrinter.PrintedShape | postgresql-9.1.4/contrib/intarray/_int_bool.c:566-638 | the very text of a formula with every operator, parentheses and spaces included, whatever its numbers |
| QueryPrinter.LeftAssociatedHolds | postgresql-9.1.4/contrib/intarray/_int_bool.c:566-638 | associating & to the left keeps the truth, and changes nothing exactly if no & is a right operand of & |
| QueryPrinter.ItemsInjective | postgresql-9.1.4/contrib/intarray/_int_bool.c:451-479 | two formulas with the same items are the same |
| QueryPrinter.Infix.Print | postgresql-9.1.4/contrib/intarray/_int_bool.c:566-638 | prints the subquery that ends at the cursor, with parentheses where the formula needs them, within the buffer, and moves the cursor before it; fails exactly if the room it asks for reaches 536870912 bytes |
| QueryPrinter.PeakIsTextLength | postgresql-9.1.4/contrib/intarray/_int_bool.c:559-638 | the room asked for is over the length of the text by 1 to 12 bytes |
| QueryPrinter.Infix.Resize | postgresql-9.1.4/contrib/intarray/_int_bool.c:559-564 | after growing, the buffer has room for the text to be added and its terminator; doubling fails exactly if that needs more than the largest buffer |
| QueryPrinter.BqarrOut | postgresql-9.1.4/contrib/intarray/_int_bool.c:640-659 | prints the formula of the query, reports an empty query, or fails exactly if the room passes the allocation limit |
| QueryRoundTrip.ReadPrintRead | postgresql-9.1.4/contrib/intarray/_int_bool.c:485-659 | reading, printing and reading a text again: whatever is printed is accepted, has the same truth on every array, and the identical items if and only if no & has an & as its right operand |
| QueryRoundTrip.SecondReading | postgresql-9.1.4/contrib/intarray/_int_bool.c:485-659 | any reading of a printed query has its truth, and its items if and only if no & has an & as its right operand |
| QueryPrinter.DecimalIsNumber | postgresql-9.1.4/contrib/intarray/_int_bool.c:569-575 | the printed decimal of a 32-bit number has at most 11 characters and is read back as that number |
| IntRanges.GIntCompress | postgresql-9.1.4/contrib/intarray/_int_gist.c:187-217 | a sorted array of 200 or more distinct 32-bit values becomes 100 ranges that begin and end at its elements, unless twice its size passes the allocation limit; every closed gap is no larger than every open one if and only if no gap exceeds the 32-bit range |
| IntRanges.SmallestGap | postgresql-9.1.4/contrib/intarray/_int_gist.c:202-208 | the scan ends on a smallest gap as 32-bit subtraction sees it |
| IntRanges.SomeGapIsSeen | postgresql-9.1.4/contrib/intarray/_int_gist.c:198-208 | while more than 100 ranges are left the scan always finds a gap below its starting minimum |
| IntRanges.LaidAreRanges | postgresql-9.1.4/contrib/intarray/_int_gist.c:187-217 | the ranges are disjoint and ascending |
| IntRanges.LaidRangesHold | postgresql-9.1.4/contrib/intarray/_int_gist.c:187-217 | an integer lies in one of the ranges exactly if it lies in the span of the array and in no open gap |
| IntRanges.InternalSize | postgresql-9.1.4/contrib/intarray/_int_tool.c:275-289 | for disjoint ranges, the number of integers in them as 32 bits hold it |
| IntRanges.GIntDecompress | postgresql-9.1.4/contrib/intarray/_int_gist.c:254-287 | a short array is returned as it is; ranges expand to all their integers exactly if the last ends below 2147483647 and the bytes are within the allocation limit; an allocation error exactly if the 32-bit request is over the limit or negative, otherwise the loop runs past its buffer |
| IntRanges.WriteRanges | postgresql-9.1.4/contrib/intarray/_int_gist.c:275-278 | the loop fills a buffer no larger than the expansion with it exactly if the buffer is as large and no range ends at 2147483647 |
| IntRanges.ExpandedKeepsElements | postgresql-9.1.4/contrib/intarray/_int_gist.c:254-287 | the expansion is strictly increasing, contains every original value, and consists of the integers outside the open gaps |
| RangeCover.SmallestExactlyIfGreedy | postgresql-9.1.4/contrib/intarray/_int_gist.c:198-211 | no cover of the array by as many intervals has fewer integers if and only if every closed gap is no larger than every open one |
| RangeCover.GreedyIsSmallestCover | postgresql-9.1.4/contrib/intarray/_int_gist.c:198-211 | the ranges left by closing smallest gaps hold no more integers than any cover by as many intervals |
| RangeCover.FewerHolesThanIntervals | postgresql-9.1.4/contrib/intarray/_int_gist.c:198-211 | a cover of an array has more intervals than gaps it leaves a hole in |
| RangeCover.CompressThenDecompress | postgresql-9.1.4/contrib/intarray/_int_gist.c:187-287 | compressing and expanding an array of 200 or more values gives values exactly if it can be doubled, ends below 2147483647, has no gap over the 32-bit range, and some cover by 100 intervals can be allocated; then they are a strictly increasing superset of the array and no cover by 100 intervals is smaller |
| RangeCover.ExpansionFits | postgresql-9.1.4/contrib/intarray/_int_gist.c:187-287 | the expansion is within the allocation limit if and only if all gaps fit 32 bits and some cover by 100 intervals is |
| RangeCover.EvenCover | postgresql-9.1.4/contrib/intarray/_int_gist.c:187-287 | a cover of an evenly spaced array by c intervals holds all gaps but c - 1 |
| RangeCover.SparseExample | postgresql-9.1.4/contrib/intarray/_int_gist.c:254-287 | 200 values whose gaps fit and of which no cover by 100 intervals can be allocated |
| RangeCover.WideExample | postgresql-9.1.4/contrib/intarray/_int_gist.c:198-211 | 200 values with a gap over the 32-bit range that two intervals cover, so that the expansion fails although a cover fits |
| HStoreLayout.EncodedIsCanonical | postgresql-9.1.4/contrib/hstore/hstore.h:90-130 | pairs in strict key order, written as end positions and bytes, are a canonical value and are read back unchanged |
| HStoreLayout.CanonicalIsEncoded | postgresql-9.1.4/contrib/hstore/hstore.h:17-79 | a canonical value is, bit for bit, the encoding of the pairs read from it |
| HStoreLayout.EntryFlags | postgresql-9.1.4/contrib/hstore/hstore.h:18-36 | position and null flag survive in an entry, and only the marked entry is flagged as first |
| HStoreLayout.StoredWords | postgresql-9.1.4/contrib/hstore/hstore.h:44-79 | the words before the entries: the flag 0x80000000 with the count, and a length of 8 bytes, 8 for each pair and the bytes of all keys and values |
| HStoreLayout.KeyOrderAscends | postgresql-9.1.4/contrib/hstore/hstore_io.c:281-299 | one key compares below another if and only if it is shorter, or as long and lower in the first byte that differs |
| HStoreBuilder.ReadPair | postgresql-9.1.4/contrib/hstore/hstore.h:68-74 | the accessor macros find the bytes of every key and value, the value right after its key, and the null flag |
| HStoreBuilder.Builder.CopyItem | postgresql-9.1.4/contrib/hstore/hstore.h:83-97 | appends one pair whose key and value lie together in the source, within the allocated room |
| HStoreBuilder.Builder.AddItem | postgresql-9.1.4/contrib/hstore/hstore.h:99-117 | appends one pair from separate key and value, within the allocated room |
| HStoreBuilder.Builder.Finalize | postgresql-9.1.4/contrib/hstore/hstore.h:119-130 | the finished value is the encoding of the pairs appended |
| HStoreBuilder.FixSizeKeepsCanonical | postgresql-9.1.4/contrib/hstore/hstore.h:132-138 | setting count and length anew leaves a canonical value as it is |
| HStoreMap.CanonicalUnique | postgresql-9.1.4/contrib/hstore/hstore.h:17-79 | canonical values with the same map are equal byte for byte |
| HStoreMap.SortedUnique | postgresql-9.1.4/contrib/hstore/hstore_io.c:307-347 | a map has only one list of pairs in strict key order |
| HStorePairs.UniquePairs | postgresql-9.1.4/contrib/hstore/hstore_io.c:307-347 | after sorting, in place: every key once, shorter keys first and keys of one length by their bytes, with one of its pairs and one not to be freed if there is one; the returned length is that of the bytes |
| HStorePairs.Deduplicate | postgresql-9.1.4/contrib/hstore/hstore_io.c:321-346 | the loop keeps the first pair of every run of equal keys and adds up their lengths |
| HStorePairs.FromPairs | postgresql-9.1.4/contrib/hstore/hstore_io.c:370-397 | the encoding of the pairs, or an allocation error exactly if it exceeds the limit |
| HStorePairs.ArrayToPairs | postgresql-9.1.4/contrib/hstore/hstore_op.c:73-112 | the non-null texts of the array, each once and in strict key order, or no room exactly if 40 bytes for each element pass the allocation limit |
| HStoreSearch.FindKey | postgresql-9.1.4/contrib/hstore/hstore_op.c:36-71 | from any bound below which all keys are smaller, the search returns the index of the key, or -1 exactly if the map lacks it, and a bound that holds for every greater key |
| HStoreSearch.StoredKeysAscend | postgresql-9.1.4/contrib/hstore/hstore_op.c:51-54 | the keys of a canonical value ascend by length, and those of one length by the first byte that differs |
| HStoreSearch.NextBound | postgresql-9.1.4/contrib/hstore/hstore_op.c:30-35 | the bound left by one search is one for the search of any greater key |
| HStoreSearch.FetchVal | postgresql-9.1.4/contrib/hstore/hstore_op.c:118-136 | the value of the key in the map, null for a missing key or a null value |
| HStoreSearch.ExistsAny | postgresql-9.1.4/contrib/hstore/hstore_op.c:154-184 | true exactly if some non-null text of the array is a key of the map; an error exactly if the list of keys cannot be allocated |
| HStoreSearch.ExistsAll | postgresql-9.1.4/contrib/hstore/hstore_op.c:189-219 | true exactly if every non-null text of the array is a key of the map; an error exactly if the list of keys cannot be allocated |
| HStoreSearch.Contains | postgresql-9.1.4/contrib/hstore/hstore_op.c:969-1011 | true exactly if every pair of the template is a pair of the value |
| HStoreOps.Delete | postgresql-9.1.4/contrib/hstore/hstore_op.c:240-282 | the result is canonical and its map is the old one without the key |
| HStoreOps.DeleteArray | postgresql-9.1.4/contrib/hstore/hstore_op.c:287-362 | the result is canonical and its map is the old one without the texts of the array; an error exactly if the list of keys cannot be allocated |
| HStoreOps.DeleteKeys | postgresql-9.1.4/contrib/hstore/hstore_op.c:322-361 | the merge with a sorted list of keys leaves out exactly those keys |
| HStoreOps.DeleteHstore | postgresql-9.1.4/contrib/hstore/hstore_op.c:367-462 | the result is canonical and its map is the old one without the keys that have the same value in the other |
| HStoreOps.Concat | postgresql-9.1.4/contrib/hstore/hstore_op.c:467-561 | the result is canonical and its map is the union in which the right operand prevails; it fails exactly if the two sizes together exceed the allocation limit |
| HStoreOps.MergePairs | postgresql-9.1.4/contrib/hstore/hstore_op.c:506-560 | the merge of two values gives the union in which the right operand prevails |
| HStoreOps.SliceToHstore | postgresql-9.1.4/contrib/hstore/hstore_op.c:630-687 | the result is canonical and its map is the old one restricted to the texts of the array; an error exactly if the list of keys cannot be allocated |
| HStoreCompare.Cmp | postgresql-9.1.4/contrib/hstore/hstore_op.c:1090-1167 | the comparison is the lexicographic order of one list of numbers per value: bytes up to an end mark, count, positions with null flags |
| HStoreCompare.StoreOrderZero | postgresql-9.1.4/contrib/hstore/hstore_op.c:1090-1167 | canonical values compare equal exactly if their maps are equal |
| HStoreCompare.BytesDecideFirst | postgresql-9.1.4/contrib/hstore/hstore_op.c:1110-1127 | where the bytes of two values first differ the lower byte decides, and a value whose bytes end first comes first |
| HStoreCompare.StoreOrderAntisymmetric | postgresql-9.1.4/contrib/hstore/hstore_op.c:1090-1167 | exchanging the operands negates the result |
| HStoreCompare.StoreOrderTransitive | postgresql-9.1.4/contrib/hstore/hstore_op.c:1090-1167 | the order is transitive |
| HStoreUpgrade.ValidOldFormat | postgresql-9.1.4/contrib/hstore/hstore_compat.c:171-229 | 0, 1 or 2 exactly as the value is not a contiguous old value, one with space left over, or an exact one |
| HStoreUpgrade.ValidNewFormat | postgresql-9.1.4/contrib/hstore/hstore_compat.c:119-163 | 0, 1 or 2 exactly as the value fails the checks of the new format, passes with space left over, or passes exactly |
| HStoreUpgrade.Rewrite | postgresql-9.1.4/contrib/hstore/hstore_compat.c:325-352 | overwriting the words in place gives the encoding of the pairs that the old words stood for |
| HStoreUpgrade.Upgrade | postgresql-9.1.4/contrib/hstore/hstore_compat.c:235-356 | in all cases: passed on, rewritten as the encoding of the old pairs, given the new version mark if it can be written, or refused |
| HStoreUpgrade.UpgradeKeepsPairs | postgresql-9.1.4/contrib/hstore/hstore_compat.c:235-356 | an old value is read with the same keys, values and nulls afterwards if and only if it is not shorter than 32768 bytes with a first value length field of 32768 or more |
| HStoreUpgrade.PassedOnOld | postgresql-9.1.4/contrib/hstore/hstore_compat.c:243-247 | the quick test takes an old value for a new one exactly in that case, and then its first value is null and is read as a text |
| HStoreUpgrade.MisreadExample | postgresql-9.1.4/contrib/hstore/hstore_compat.c:243-247 | an old value with one null that is passed on and read as an empty text |
| HStoreUpgrade.UpgradedPassesChecks | postgresql-9.1.4/contrib/hstore/hstore_compat.c:137-163 | the rewritten value passes every check of the new format with no space left over, and is canonical if its keys were in order |
| HStoreUpgrade.CanonicalPassesChecks | postgresql-9.1.4/contrib/hstore/hstore_compat.c:119-163 | every canonical value passes all checks of the new format, ascending key lengths among them, with no space left over |
| HStoreText.ParseAcceptsExactly | postgresql-9.1.4/contrib/hstore/hstore_io.c:55-276 | a text is accepted exactly if it is one of the grammar with at most 16777216 pairs, and then the pairs read are what the grammar says it means; a text of the grammar with more pairs is refused for want of memory |
| HStoreText.ParseAccepts | postgresql-9.1.4/contrib/hstore/hstore_io.c:55-276 | every text of the grammar is read, with quotes, escapes, bare words, spaces, a trailing comma and the bare word null in any case, or refused exactly if its pairs pass what the list can hold |
| HStoreText.NullInEitherCase | postgresql-9.1.4/contrib/hstore/hstore_io.c:246-250 | a bare value is null if and only if it has four letters n, u, l, l, each in either case; the same word in quotes never is |
| HStoreText.SpaceIsOneOfSix | postgresql-9.1.4/contrib/hstore/hstore_io.c:57-94 | a character is skipped before a word if and only if it is a blank, a tab, a line feed, a vertical tab, a form feed or a carriage return |
| HStoreText.ManyPairs | postgresql-9.1.4/contrib/hstore/hstore_io.c:197-201 | n times the same pair, each with a comma, is accepted if and only if n is at most 16777216 |
| HStoreText.ParseSound | postgresql-9.1.4/contrib/hstore/hstore_io.c:55-276 | for every text that is read there is a derivation in the grammar with the pairs that were read, no word longer than 536870911 characters and no more than 16777216 pairs |
| HStoreParser.HSParser.Put | postgresql-9.1.4/contrib/hstore/hstore_io.c:37-46 | the word buffer doubles before it is full and keeps what it holds; it fails exactly at 536870911 characters |
| HStoreParser.HSParser.MakeRoom | postgresql-9.1.4/contrib/hstore/hstore_io.c:197-201 | the list of pairs doubles once it is full; it fails exactly at 16777216 pairs |
| HStoreParser.HSParser.GetVal | postgresql-9.1.4/contrib/hstore/hstore_io.c:55-169 | reads one word as the specification does from the same place, never past the terminator, and leaves the pointer one before what follows although it steps back |
| HStoreParser.HSParser.ParseHstore | postgresql-9.1.4/contrib/hstore/hstore_io.c:179-276 | terminates on every text with the pairs or the error of the specification |
| HStoreIO.In | postgresql-9.1.4/contrib/hstore/hstore_io.c:400-418 | fails exactly on texts that are refused or too large, otherwise a canonical value with every key of the text once and one of the values the text gives it |
| HStoreIO.Cpw | postgresql-9.1.4/contrib/hstore/hstore_io.c:1087-1100 | copies with a backslash before every quote and backslash |
| HStoreIO.SpecialIsEscaped | postgresql-9.1.4/contrib/hstore/hstore_io.c:1087-1100 | every quote and every backslash is written with one backslash before it, and every other character alone |
| HStoreIO.PlainIsWrittenAsIs | postgresql-9.1.4/contrib/hstore/hstore_io.c:1087-1100 | a text without quotes and backslashes is written unchanged |
| HStoreIO.TextOfTwo | postgresql-9.1.4/contrib/hstore/hstore_io.c:1141-1172 | the very text of two pairs, with quotes, arrow, comma, blank and the bare word NULL |
| HStoreIO.ToText | postgresql-9.1.4/contrib/hstore/hstore_io.c:1103-1174 | writes the text of the pairs within the room computed beforehand, terminator included, or fails exactly if that room exceeds the allocation limit |
| HStoreIO.BufLenFits | postgresql-9.1.4/contrib/hstore/hstore_io.c:1120-1139 | the room computed for the text of a canonical value never overflows 32 bits |
| HStoreIO.OutReadsBack | postgresql-9.1.4/contrib/hstore/hstore_io.c:1103-1174 | the text written for any pairs with words the parser can hold is parsed to those pairs, null and the text NULL kept apart, or refused exactly if there are more than 16777216 of them |
| HStoreIO.TooManyKeys | postgresql-9.1.4/contrib/hstore/hstore_io.c:197-201 | 16777217 keys of five bytes with null values: a canonical value whose text can be allocated and has more pairs than the parser can hold |
| HStoreIO.RoundTrip | postgresql-9.1.4/contrib/hstore/hstore_io.c:400-418 | for every canonical value without a zero byte whose text can be allocated, output and input again give the identical value exactly if it has at most 16777216 pairs, and otherwise the error of the list of pairs |
| StatTable.SharedTable.EntryDealloc | postgresql-9.1.4/contrib/pg_stat_statements/pg_stat_statements.c:1011-1044 | usage of every entry decays, and of the result the required number of entries goes, none of higher usage than any that stays |
| StatTable.SurvivorsKeepCounters | postgresql-9.1.4/contrib/pg_stat_statements/pg_stat_statements.c:1024-1030 | an eviction removes exactly the victims, and of the others it changes only the usage, to 99 hundredths |
| StatTable.VictimNumbers | postgresql-9.1.4/contrib/pg_stat_statements/pg_stat_statements.c:1033-1034 | of up to 10 entries all go, of 10 to 219 ten, of 200 or more one in twenty |
| StatTable.SharedTable.EntryAlloc | postgresql-9.1.4/contrib/pg_stat_statements/pg_stat_statements.c:955-988 | a full table loses one round of victims, then the key is found unchanged or created empty |
| StatTable.SharedTable.EntryReset | postgresql-9.1.4/contrib/pg_stat_statements/pg_stat_statements.c:1047-1062 | nothing is left |
| StatTable.SortByUsage | postgresql-9.1.4/contrib/pg_stat_statements/pg_stat_statements.c:993-1009 | a list of the same entries in ascending usage |
| StatProtocol.StepKeepsInv | postgresql-9.1.4/contrib/pg_stat_statements/pg_stat_statements.c:739-1062 | every step of every backend keeps the invariants about locks, entries, table and books |
| StatProtocol.CountersAreProtected | postgresql-9.1.4/contrib/pg_stat_statements/pg_stat_statements.c:779-797 | in every state of every run, a backend that adds to counters or copies them holds the table lock and is alone in holding the spinlock of an entry that is in the table for its key |
| StatProtocol.WritersAreProtected | postgresql-9.1.4/contrib/pg_stat_statements/pg_stat_statements.c:739-1062 | a step that changes the counters of an entry in the table is one of a backend that holds the table lock and the spinlock of that entry, or of one that makes room under the exclusive lock, or a load while no backend is at work |
| StatProtocol.CountersChangeUnderLock | postgresql-9.1.4/contrib/pg_stat_statements/pg_stat_statements.c:6-11 | over every run the counters of an entry that stays in the table change only by such steps |
| StatProtocol.ExclusiveIsExclusive | postgresql-9.1.4/contrib/pg_stat_statements/pg_stat_statements.c:767-799 | no other backend holds the table lock while one holds it exclusively |
| StatProtocol.CallsAreNeverReset | postgresql-9.1.4/contrib/pg_stat_statements/pg_stat_statements.c:770-777 | a key that stays in the table loses no calls by any step: a backend that missed and took the exclusive lock leaves the entry another made in the meantime as it is |
| StatProtocol.UnlockedCountersAreExact | postgresql-9.1.4/contrib/pg_stat_statements/pg_stat_statements.c:779-797 | while nobody holds its spinlock an entry shows exactly the calls stored under its key since it was made |
| StatProtocol.BooksBalance | postgresql-9.1.4/contrib/pg_stat_statements/pg_stat_statements.c:393-427 | over every run the table keeps its bound, and the calls in the shared counters plus calls discarded equal stores finished plus calls loaded plus one for each entry whose store under way has already counted its call |
| StatHistory.StoresAreAccountedFor | postgresql-9.1.4/contrib/pg_stat_statements/pg_stat_statements.c:739-799 | over every run and for every key: the stores begun with the key are those finished under it and those at work for it |
| StatHistory.UnlockedCountersAreSums | postgresql-9.1.4/contrib/pg_stat_statements/pg_stat_statements.c:779-797 | over every run an entry whose spinlock is free shows what it was made or loaded with plus one call, the time and the rows of each store that began with its key and finished since; its usage is one for each store, reduced by a hundredth at each eviction |
| StatHistory.BeganHolds | postgresql-9.1.4/contrib/pg_stat_statements/pg_stat_statements.c:739-799 | over every run a backend at work on a store has the key and the amounts it began with, and one that reads or resets began to |
| StatHistory.RunHasTrace | postgresql-9.1.4/contrib/pg_stat_statements/pg_stat_statements.c:739-1062 | every run of the protocol has the steps over which its history is stated |
| StatProgress.OperationsEnd | postgresql-9.1.4/contrib/pg_stat_statements/pg_stat_statements.c:739-1062 | every step of a backend after its first lowers a rank |
| StatProgress.RankIsNatural | postgresql-9.1.4/contrib/pg_stat_statements/pg_stat_statements.c:739-1062 | in every reachable state that rank lies between 0 and ten times the size of the table plus 22, and is 0 exactly for an idle backend, so that every store, read and reset takes at most so many steps of its own |
| StatProgress.OthersDoNotDelay | postgresql-9.1.4/contrib/pg_stat_statements/pg_stat_statements.c:739-1062 | no step of another backend raises that rank |
| StatProgress.OnlyLocksHoldUp | postgresql-9.1.4/contrib/pg_stat_statements/pg_stat_statements.c:739-1062 | a backend that is not idle can take its next step unless it waits for the table lock or for a spinlock |
| StatProgress.SomeoneCanGoOn | postgresql-9.1.4/contrib/pg_stat_statements/pg_stat_statements.c:739-1062 | no deadlock: in every state of every run in which some backend is not idle, some backend can take its next step |
| StatProtocol.OneEvictionMakesRoom | postgresql-9.1.4/contrib/pg_stat_statements/pg_stat_statements.c:964-966 | a backend that finds the table full can evict, and any one eviction makes room, so the loop ends |
| StatProtocol.EvictStepIsDealloc | postgresql-9.1.4/contrib/pg_stat_statements/pg_stat_statements.c:1011-1044 | the eviction step of the protocol does to the table what entry_dealloc does |
| StatProtocol.EnterStepIsAlloc | postgresql-9.1.4/contrib/pg_stat_statements/pg_stat_statements.c:968-988 | the entering step of the protocol finds or creates the entry as entry_alloc does |
| StatProtocol.RowsAreNotTorn | postgresql-9.1.4/contrib/pg_stat_statements/pg_stat_statements.c:896-903 | a copied row holds all counters of its entry as of one moment, with no store half done |
| StatProtocol.RowsCoverTable | postgresql-9.1.4/contrib/pg_stat_statements/pg_stat_statements.c:864-922 | a reader that finishes has a row for every key in the table and no other |
| StatHistory.FinishedReaderSawRows | postgresql-9.1.4/contrib/pg_stat_statements/pg_stat_statements.c:864-922 | a reader that finishes has one row for every key in the table, and each row is what the entry held, with no store under way, at some moment since the reader took the lock |
| LtreeOrder.LtreeCompare | postgresql-9.1.4/contrib/ltree/ltree_op.c:60-86 | the 32-bit value of the weighted first difference of two paths, whose sign up to 14653 levels tells which path comes first |
| LtreeOrder.LabelOrderAscends | postgresql-9.1.4/contrib/ltree/ltree_op.c:70-80 | a label comes before another if and only if it is a proper beginning of it or lower in the first byte that differs |
| LtreeOrder.PathOrderAscends | postgresql-9.1.4/contrib/ltree/ltree_op.c:60-86 | a path comes before another if and only if it is a proper ancestor of it or its first label that differs comes before |
| LtreeOrder.CompareRightExactlyUpTo | postgresql-9.1.4/contrib/ltree/ltree_op.c:60-86 | the sign of the comparison tells which path comes first, for all paths of up to N levels, if and only if N is at most 14653, because the weight overflows 32 bits |
| LtreeOrder.ComparedIsOrder | postgresql-9.1.4/contrib/ltree/ltree_op.c:60-86 | up to 14653 levels the sign of the comparison tells which path comes first and whether they are equal |
| LtreeOrder.InnerIsParent | postgresql-9.1.4/contrib/ltree/ltree_op.c:154-176 | true exactly if one path is a prefix of the other, itself included |
| LtreeGist.PathCutMonotone | postgresql-9.1.4/contrib/ltree/ltree_gist.c:479-489 | cutting two paths to the same level count keeps their order |
| LtreeGist.Hashing | postgresql-9.1.4/contrib/ltree/ltree_gist.c:152-166 | sets exactly the bits of the labels of the path |
| LtreeGist.LtreeUnion | postgresql-9.1.4/contrib/ltree/ltree_gist.c:168-250 | the key lies above all entries, with the least and the greatest end among theirs, exactly their bits, and the all-true flag only if an entry has it or all bits are set |
| LtreeGist.LtreePicksplit | postgresql-9.1.4/contrib/ltree/ltree_gist.c:286-441 | every entry goes to exactly one side, half of them to each, those with smaller left ends to the left, and the key of each side is the union of its entries |
| LtreeGist.InnerTestPrunesNothing | postgresql-9.1.4/contrib/ltree/ltree_gist.c:639-687 | for <, <=, =, >=, >, ancestor and descendant searches: if a path below a key satisfies the search, the test of the key is true |
| LtreeGist.InnerTestIsTight | postgresql-9.1.4/contrib/ltree/ltree_gist.c:639-687 | the test of a key is true if and only if some path in its interval satisfies the search, a strict order search taken as its other form |
| LtreeGist.LeafTestMeans | postgresql-9.1.4/contrib/ltree/ltree_gist.c:639-687 | what each search asks of a path: to come before or after the query, to equal it, or to be an ancestor or descendant |
| LtreeGist.SearchFindsExactly | postgresql-9.1.4/contrib/ltree/ltree_gist.c:624-687 | a search down any tree whose keys lie above their children finds exactly the paths that satisfy it |
| LtreeGist.GistIsParent | postgresql-9.1.4/contrib/ltree/ltree_gist.c:443-461 | true exactly if some ancestor of the query lies in the interval, and the level count it changed is restored |
| LtreeGist.GistIsChild | postgresql-9.1.4/contrib/ltree/ltree_gist.c:472-495 | compares the query with both ends cut to its level count |
| LtreeGist.LtreeConsistent | postgresql-9.1.4/contrib/ltree/ltree_gist.c:624-687 | the leaf or inner test of each strategy |
| LtreeGist.GistTqcmp | postgresql-9.1.4/contrib/ltree/ltree_gist.c:536-563 | has the sign of the order between the path, cut to the literal levels of the pattern, and these levels |
| LtreeGist.GistBetween | postgresql-9.1.4/contrib/ltree/ltree_gist.c:565-578 | true exactly if the literal levels of the pattern lie between the cut ends of the interval |
| LtreeGist.GistQe | postgresql-9.1.4/contrib/ltree/ltree_gist.c:497-534 | true exactly if every level that can be looked up has an alternative in the signature, or all bits are set |
| LtreeGist.PatternTestPrunesNothing | postgresql-9.1.4/contrib/ltree/ltree_gist.c:497-578 | a key that covers a path which meets the literal and looked-up levels of a pattern passes both inner tests |
| LtreeGist.LiteralTestIsTight | postgresql-9.1.4/contrib/ltree/ltree_gist.c:565-578 | the interval test of a pattern is true if and only if some path in the interval begins with its literal levels |
| LtreeGist.SignatureTestIsTight | postgresql-9.1.4/contrib/ltree/ltree_gist.c:497-534 | the signature test of a pattern is true if and only if some path whose bits the signature holds has an alternative of every level looked up |
| LtreeGist.HashedTogether | postgresql-9.1.4/contrib/ltree/ltree.h:191-192 | two labels share a bit if and only if their checksums differ by a multiple of 64 |

## Left out

- LevenshteinLessEqualInternal: says nothing of the value returned if the last column lies outside the window at the end, where the routine reads what an earlier row left there. That needs a bound and a negative cost that is not safe.
- Levenshtein, both forms: overflow of the 32-bit cells, decoding of multibyte characters and the separate loop for single bytes. Texts are sequences of characters.
- BoolOp: asks for links that stay inside the query. Links that do not come from right operands of more than 32767 items (`QueryEval.WrappedLinkLeadsOut`), and evaluation then reads outside the query.
- Queries: the stack depth check of the server, and `gensign` as a loop. Signatures are sets of bits.
- GIntCompress: which gaps stay open when some gap exceeds the 32-bit range, except that the choice is then not the best.
- Range keys: leaf arrays of 200 or more elements, which only cause a notice, and contained-by searches.
- Finalize: the string lies in its own buffer in the model. That `HS_FINALIZE` moves it down over unused entries is taken as cutting both buffers to length.
- hstore input: the position printed in a message. An error carries the rest of the text instead.
- In: does not say which of several pairs with one key is kept, because the sort need not be stable.
- Upgrade: values whose length does not hold the entries they count, values with reserved size bits set, and 32-bit overflow of `lastpos`. Words are read in little-endian layout.
- hstore: conversion from and to records, arrays and the binary format, `each`, `akeys`, `avals` and the GiST and GIN support of hstore.
- pg_stat_statements: block counters, which are updated like the others, the query text and its clipping, hooks, privileges and the file. Loading is a step allowed while no backend is at work. Aging and removal happen in one step, under the exclusive lock.
- pg_stat_statements: the spinlock is taken in one step, and memory is sequentially consistent under it.
- ltree: paths over 14653 levels in unions, splits and tests, where the comparison is wrong.
- ltree patterns: `checkCond` enters only through what a matching path must have, the literal levels at its start and an alternative for every level that is looked up. Case folding agrees with the checksum byte by byte.
- ltree: `ltxtquery`, arrays of patterns, `ltree_penalty`, input and output.
- The modules btree_gist, cube, isn, dblink, file_fdw, metaphone and soundex, and all server code outside contrib.
