# Dynamic-programming string algorithms of AssEx.c, in Dafny

This project models the dynamic-programming engine of `AssEx.c`. The engine
computes three similarity measures of two strings x (length m) and y
(length n):

- the length of a longest common subsequence (LCS);
- the Levenshtein edit distance (ED);
- a unit-score Smith-Waterman local-similarity score.

It computes them in three styles:

- by filling an (m+1) x (n+1) table bottom-up (`lcs`, `ed`, `hsls`);
- by top-down recursion over a memo that starts as uninitialised memory (`mlcs`, `med`);
- by plain recursion that only counts its own calls (`rlcs`, `red`).

It also prints an LCS alignment by tracing back through the filled table
(`ilcsAlign`) or the memo (`mlcsAlign`).

The model has five modules:

- `Recurrences` (recurrences.dfy) states the three recurrences as pure functions `LcsCell`, `EdCell` and `SwCell` of a cell (i, j). Everything else is proved against them. It also holds the facts about them: bounds, symmetry, self-distance, and optimality of the LCS value among common subsequences.
- `Tables` (tables.dfy) holds the iterative fills. They work on `array2<int>`, use the nested loops of the source, and carry loop invariants.
- `Memo` (memo.dfy) holds the memoised helpers. They are pure functions over an explicit memo state: `pairsTable`, `helperArray` and `count`. The initial contents of both arrays are arbitrary parameters. The sparse-set invariant `WellFormed` holds whatever those contents are.
- `Traceback` (traceback.dfy) holds `Walk`, the reference column sequence of the traceback, and the methods `ILcsAlign` and `MLcsAlign`. The methods build the three printed lines in right-to-left buffers and are proved to produce exactly the rendering of `Walk`.
- `Naive` (naive.dfy) holds the call counters. A `Tally` (the global `total` plus the visit-count table) is threaded through the recursion from left to right.

The global strings and tables of the source become explicit parameters and results. The strings are `string` values of any length, empty included.

Where the source slips, a `Variant` parameter (`AsWritten` or `Corrected`)
selects the behaviour of the code as written or the evident intent. See
"## Findings".

The traceback follows the code on ties. When the upper and left neighbours
are equal, it steps left (j-1), because ilcsAlign tests `>` strictly (AssEx.c:390). This is
not "prefer decrementing i".

C leaves the evaluation order of the two operands of `>`/`<` unspecified.
The model evaluates them left to right. This matters only for the order in
which cells enter the memo log. No proved property depends on that order.

## Model

| member | source | states |
|---|---|---|
| Recurrences.LcsBounds | AssEx.c:497-502 | every LCS cell lies between 0 and min(i, j) |
| Recurrences.LcsStep | AssEx.c:497-502 | dropping the last character of either prefix lowers the LCS value by 0 or 1 |
| Recurrences.LcsMonotone | AssEx.c:497-502 | LCS cells never decrease along either axis |
| Recurrences.LcsSelf | AssEx.c:489-506 | the LCS of a string with itself is its length |
| Recurrences.LcsIsUpperBound | AssEx.c:489-506 | no common subsequence of x[..i] and y[..j] is longer than the cell (i, j) |
| Recurrences.EdBounds | AssEx.c:558-580 | \|i-j\| <= ED cell <= max(i, j) |
| Recurrences.EdSelf | AssEx.c:558-580 | a string is at edit distance 0 from itself |
| Recurrences.EdSymmetric | AssEx.c:558-580 | the edit distance does not depend on which string is x |
| Recurrences.SwBounds | AssEx.c:645-649 | every local-similarity cell is >= 0 (the MAX with 0) and <= min(i, j) |
| Recurrences.SwBelowLcs | AssEx.c:645-649 | a local-similarity cell never exceeds the LCS cell at the same place |
| Recurrences.SwSelf | AssEx.c:636-656 | the best local score of a string against itself is its length |
| Recurrences.SwBestBelowLcs | AssEx.c:636-656 | the best local score is between 0 and the LCS length of the whole strings |
| Tables.InitTable | AssEx.c:212-218 | row 0 and column 0 become 0, and the interior is left as it was |
| Tables.Lcs | AssEx.c:489-506 | after the fill every cell is the LCS of its prefixes, row 0 and column 0 are 0, cells are within [0, min(i, j)], and the result is the bottom-right cell |
| Tables.Ed | AssEx.c:558-580 | table[i][0] = i and table[0][j] = j, every cell is the edit distance of its prefixes, \|m-n\| <= result <= max(m, n), and the result is 0 when x = y |
| Tables.Hsls | AssEx.c:636-656 | every cell satisfies the local-similarity recurrence within [0, min(i, j)], and bestScore is the maximum over all cells starting from 0, not the bottom-right cell |
| Tables.BestOfTable | AssEx.c:650-651 | a running maximum over a complete table that is attained at some cell is the best local score |
| Memo.Fresh | AssEx.c:547-550 | with count reset to 0 the sparse-set invariant holds, whatever pairsTable and a helperArray of at least the (m+1)(n+1) allocated slots contain |
| Memo.EvaluatedIffLogged | AssEx.c:243-249 | evaluated(i, j) is true exactly when (i, j) is in helperArray[1..count], whatever the other entries hold |
| Memo.LogDistinct | AssEx.c:531-535 | no cell appears twice in helperArray[1..count] |
| Memo.Capacity | AssEx.c:531-535 | before a cell is logged, count < (m+1)(n+1) |
| Memo.CountBound | AssEx.c:531-535 | count never exceeds (m+1)(n+1) |
| Memo.MlcsHelper | AssEx.c:530-544 | returns the LCS of the prefixes, keeps the invariant, only appends to the log, leaves (i, j) evaluated with its dependencies evaluated, logs only cells the run from (m, n) reaches, and logs no more cells than the plain recursion from (i, j) makes calls; it needs a helperArray slot only beyond as many cells as that run reaches |
| Memo.MedHelper | AssEx.c:605-621 | as MlcsHelper, for edit distance with base cases j and i and the diagonal, upper and left dependencies |
| Memo.Mlcs | AssEx.c:547-553 | returns the LCS of x and y, the same value lcs returns, and leaves a complete memo with a distinct log; it evaluates exactly the cells reachable from (m, n), no more than the plain recursion makes calls; for nonempty input that is fewer than (m+1)(n+1), so it runs within the (m+1)(n+1) slots createHelperArray allocates, and only two empty strings need one slot more |
| Memo.Med | AssEx.c:624-630 | returns the edit distance of x and y, the same value ed returns, with the same memo guarantees: it evaluates exactly the cells reachable from (m, n), at most (m+1)(n+1) of them, in a helperArray of (m+1)(n+1)+1 slots |
| Memo.ReachCached | AssEx.c:530-544 | in a memo whose logged cells are all finished, every cell the recurrence reaches from an evaluated cell is evaluated |
| Memo.ReachLogged | AssEx.c:547-553 | a complete run has logged every cell reachable from (m, n), so count is at least their number |
| Memo.FullLog | AssEx.c:238-240 | when every cell is evaluated, count = (m+1)(n+1), so the last cell was logged at index (m+1)(n+1) |
| Memo.MedOverrunsSourceHelper | AssEx.c:238-240 | med on "A", "B" logs its 4th cell at helperArray[4], past the 4 slots the source allocates |
| Memo.ReachClosed | AssEx.c:536-541 | every neighbour the LCS or ED helper recurses on from a reachable cell is reachable |
| Memo.RoomToLog | AssEx.c:531-535 | an unevaluated cell of the run finds a free helperArray slot, and logging it keeps the log within the run's cells |
| Memo.ReachWithinGrid | AssEx.c:605-621 | a run reaches at most the (m+1)(n+1) cells of the table |
| Memo.RowZeroParent | AssEx.c:536-541 | from a row i >= 1 the LCS recursion reaches a row-0 cell (0, b) only as the diagonal of a match at (1, b+1) or the upper neighbour of a mismatch at (1, b) |
| Memo.LcsReachBelowGrid | AssEx.c:530-553 | for nonempty strings the LCS recursion from (m, n) misses the row-0 cell at the first position where y differs from x[0], so it reaches fewer than (m+1)(n+1) cells; from (0, 0) it reaches the one cell |
| Memo.MlcsOverrunsOnEmpty | AssEx.c:238-240 | mlcs on two empty strings, a call main never makes, logs its one cell at helperArray[1], past the single slot the source allocates |
| Traceback.Back | AssEx.c:381-398 | one traceback step: a match moves diagonally, a mismatch moves up only when the upper cell is strictly larger and otherwise moves left, and each step emits one column |
| Traceback.WalkLength | AssEx.c:381-398 | the walk from (i, j) takes i + j - L steps |
| Traceback.WalkMatches | AssEx.c:382-389 | the walk emits exactly L match columns |
| Traceback.WalkCommon | AssEx.c:381-398 | the matched characters form a common subsequence of x[..i] and y[..j] |
| Traceback.WalkIsLongest | AssEx.c:359-420 | the matched characters of the whole walk form a longest common subsequence of x and y |
| Traceback.WalkShowsInputs | AssEx.c:381-414 | with leftover y placed in the y line, the x line shows exactly x and the y line exactly y, in order, apart from gaps |
| Traceback.AlignmentFacts | AssEx.c:364-377 | the finished lines are 2*max(m,n) - L characters long and carry exactly L '\|' marks |
| Traceback.LeftoverYInXTrack | AssEx.c:408-414 | on x = "A", y = "BA" the x line reads "-BA" and the y line "--A"; corrected, they read "--A" and "-BA" |
| Traceback.Leftovers | AssEx.c:400-414 | the two trailing loops finish the walk exactly |
| Traceback.ILcsAlign | AssEx.c:359-420 | over a correct LCS table the three printed lines are exactly the rendering of the walk, all writes stay inside the 2*max(m,n) - L buffers, and index stays within 1..L when it is used |
| Traceback.MemoCell | AssEx.c:536-541 | after mlcs an evaluated cell holds its LCS value, and the cells a traceback step reads from it were evaluated |
| Traceback.MLcsAlign | AssEx.c:423-484 | over the memo left by mlcs it reads only evaluated cells, its extra l > 0 guard never stops the walk early, index stays within 1..L when it is used, and it prints the same lines as ILcsAlign |
| Naive.ZeroTable | AssEx.c:221-227 | every counter of the freshly initialised table is 0 |
| Naive.ZeroSum | AssEx.c:221-227 | the counters of the zero table sum to 0 |
| Naive.VisitSum | AssEx.c:510-511 | one call adds 1 to total and 1 to the counter of its own cell, and leaves every other counter unchanged |
| Naive.RlcsHelper | AssEx.c:509-518 | the calls it makes raise total and the sum of the counters by the same amount, never lower a counter, touch no cell outside (0,0)..(i,j), and return the LCS recurrence on the character test |
| Naive.RedInner | AssEx.c:591 | the inner MIN raises total and the counter sum equally and returns the smaller of the two values |
| Naive.RedHelper | AssEx.c:583-592 | as RlcsHelper, for the edit-distance helper with its base value 0 |
| Naive.Rlcs | AssEx.c:521-527 | the returned total equals the sum of the visit counters of the zero-initialised table, is at least 1, and the root cell was visited |
| Naive.Red | AssEx.c:596-602 | the same for red |
| Naive.RlcsValueIsLcs | AssEx.c:509-518 | with the test x[a-1] == y[b-1] that lcs and mlcshelper make, rlcshelper's value is the LCS length |
| Naive.RlcsMacroCostsMore | AssEx.c:517 | re-evaluating the chosen call never makes fewer calls than evaluating each call once |
| Naive.RedMacroCostsMore | AssEx.c:591 | the same for redhelper |
| Naive.MacroCountsExtraCalls | AssEx.c:8-9 | on a 1 x 1 problem whose character test at (1, 1) fails, rlcs reports 4 and red 8, where the recursion makes 3 and 4 calls |
| Naive.RlcsAllMismatchCalls | AssEx.c:509-527 | with no matches the corrected count is 2*Binomial(m+n, m) - 1, the size of the recursion tree, where Binomial follows Pascal's rule |
| Naive.RlcsCallsAreTree | AssEx.c:509-518 | with the character test of the memoised helper, the corrected rlcshelper makes exactly the calls of the plain LCS recursion |
| Naive.RedCallsAreTree | AssEx.c:583-592 | the same for redhelper and the edit-distance recursion |
| Naive.RlcsCountsAtLeastMemo | AssEx.c:509-553 | with that character test, rlcs counts at least as many calls, as written or corrected, as mlcs evaluates cells, whatever the memo tables held |
| Naive.RedCountsAtLeastMemo | AssEx.c:583-630 | the same for red against med |
| Naive.RlcsAllMismatchAsWritten | AssEx.c:517 | with no matches every tie re-evaluates the left call, so the count as written is strictly larger |

## Left out

- readStrings and generateStrings: file input (`fopen`/`fgetc`) and random strings (`rand`/`srand`) are I/O. The strings are parameters instead.
- getArgs and isNum: command-line parsing that only sets global flags. `isNum("")` returns true, because the loop over no characters finds no non-digit.
- printTable, printPairsTable, numDigits and the `printf` calls of the align functions: output formatting only. The align functions return the three lines instead of printing them.
- main: timing with `clock`, the floating-point proportion it prints, and the sequencing of runs are not modelled.
- createTable, createPairsTable, createHelperArray, free and destroy*: allocation is assumed to succeed. Stack exhaustion is not modelled either: mlcs, med, rlcs and red recurse up to m+n+1 calls deep, and ilcsAlign and mlcsAlign put their line buffers on the stack as variable-length arrays. The fresh contents of the tables are arbitrary parameters. Of createHelperArray only the slot count is modelled: `Memo.Mlcs` runs in exactly its (m+1)(n+1) slots except on two empty strings, and `Memo.Med` takes the one slot more that med needs (see Findings).
- The lcs[] character buffer of ilcsAlign/mlcsAlign: it is filled but never used, so its contents are not modelled. That `index` lies within 1..L at each write is proved for both aligners.
- Naive.RlcsHelper, Naive.RedHelper: the character test `x[i] == y[j]` is the parameter `eq`. The real test reads one position too far, and reads past the string at i = m. Its values are modelled only because the macros choose the re-evaluated call by them. redhelper's base case returns 0 instead of i or j, and that is kept as written.
- Memo.MlcsHelper, Memo.MedHelper: the MAX/MIN macros evaluate the chosen call a second time. In the memo helpers that call always hits the cache and changes nothing, so it is not modelled there.
- int overflow: the model's integers are unbounded and no wrap-around is modelled. The table values are bounded by the string lengths and fit an `int`. Three quantities do not fit for large inputs:
  - `(xLen+1)*(yLen+1)`, computed in `int` by createHelperArray (AssEx.c:239) and main (AssEx.c:743), exceeds 2^31 - 1 from m = n = 46340 on. `Memo.HelperSlots` and `Memo.SourceHelperSlots` do not wrap.
  - `count` in med reaches (m+1)(n+1) when every cell is reached (`Memo.FullLog`), and in mlcs stays below it; either way it wraps at the same sizes.
  - `total` in rlcs/red grows exponentially. With no matching characters the corrected count 2*Binomial(m+n, m) - 1 already exceeds 2^31 - 1 at m = n = 17.
- Naive.RlcsCountsAtLeastMemo, Naive.RedCountsAtLeastMemo: proved only for the test eq(a, b) = (x[a-1] == y[b-1]) that mlcshelper and medhelper make. rlcshelper and redhelper test x[i] == y[j], one position further on, so with the source's own test the two recursions can take different branches and no comparison is stated.
- The triangle inequality of edit distance is not stated.

## Findings

| source | as written | input that shows it | evidently intended | confidence | as-written member | corrected member |
|---|---|---|---|---|---|---|
| AssEx.c:408-414, AssEx.c:472-478 | leftover characters of y are written into `newX` | x = "A", y = "BA": the lines are "-BA", "  \|", "--A" | write them into `newY`, giving "--A", "  \|", "-BA" | high; not executed | Traceback.LeftoverYInXTrack | Traceback.WalkShowsInputs |
| AssEx.c:239 | `helperArray` gets (m+1)(n+1) slots but is indexed from 1 up to `count`, and med's `count` reaches (m+1)(n+1) whenever med reaches every cell | med on x = "A", y = "B" evaluates all 4 cells and writes `helperArray[4]` | allocate (m+1)(n+1)+1 slots (`Memo.HelperSlots`) | high; not executed | Memo.MedOverrunsSourceHelper | Memo.Med |
| AssEx.c:239 | latent in mlcs itself: it never reaches every cell of nonempty input (`Memo.LcsReachBelowGrid`), so it fits the (m+1)(n+1) slots, except on two empty strings, where its one cell is logged at index 1 of a 1-slot array; main never makes that call, since getArgs rejects generated lengths of 0 (AssEx.c:112), readStrings rejects an empty line (AssEx.c:151), and main is the only caller of mlcs (AssEx.c:719) | mlcs(0, 0) called directly, on x = "", y = "", writes `helperArray[1]`; no command line of the program reaches it | one slot more for the 0 x 0 problem (`Memo.MlcsSlots`) | low as a defect of the program, which cannot reach it; high for mlcs on its own; not executed | Memo.MlcsOverrunsOnEmpty | Memo.Mlcs |
| AssEx.c:517, AssEx.c:591 | `MAX`/`MIN` are macros, so the chosen recursive call runs a second time and is counted again | any 1 x 1 problem whose character test at (1, 1) fails: rlcs reports 4 calls and red 8, where the recursion makes 3 and 4 | evaluate each recursive call once and count the recursion tree | medium; not executed | Naive.MacroCountsExtraCalls | Naive.RlcsAllMismatchCalls |
