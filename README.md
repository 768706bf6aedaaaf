# Odd-even transposition sort, modelled in Dafny

The repository sorts a vector of small integers with odd-even transposition sort and ships
several versions of it.

- **Sequential** (`oe-sortseq.cpp`). Rounds of an even pass, which compare-exchanges the pairs (0,1), (2,3), …, and
  then an odd pass over the pairs (1,2), (3,4), …. The loop stops after the first round whose odd pass
  swapped nothing.
- **Two-vector** (`oe-sortdouble.cpp`). The even-indexed and the odd-indexed cells live in two vectors, so that
  each pass is a loop over matching positions.
- **Threads** (`oe-sortparnofs.cpp`). `assignRanges` cuts the index space into one range per worker, and every
  range except the last ends on an odd index. `initializeVector` lays the ranges out in one flat buffer:
  - a block per worker: its owned cells followed by a copy of the next block's first cell;
  - padding of `-1` cells after each block, so that blocks start on distinct cache lines.

  Every thread works on its block in place. It refreshes a border cell from its neighbour's block before each
  phase, and the threads meet at two barriers per round. A shared counter `cond` decides termination.
- **Master/worker farm** (`oe-sortmw.cpp`):
  - a master sends one task (a phase) to every worker and counts the replies;
  - it ends the stream when an odd phase was quiet, and otherwise toggles the phase and broadcasts again;
  - every worker keeps a private copy of its block, refreshes one border cell from the shared buffer,
    runs its pass and writes its two border cells back;
  - at the end, every worker copies its owned cells into the shared buffer.

The model has one module per piece of the program:

| module | file | models |
|---|---|---|
| `Kernel` | kernel.dfy | compare-exchange, even and odd passes, rounds, the stop rule and the whole algorithm as pure functions, with their theory (sortedness, permutation, termination by inversion count, uniqueness of the sorted permutation) |
| `Sequential` | sequential.dfy | `oddEvenSort` of `oe-sortseq.cpp` as an in-place array method |
| `TwoVector` | twovector.dfy | the two-vector version: the split by parity, both phases, the initialisation and the rebuild as written and as corrected |
| `Ranges` | ranges.dfy | `assignRanges` and the shape of the table it builds |
| `Padded` | padded.dfy | `initializeVector` of the thread and farm versions: the padding formula in C++ arithmetic, the buffer layout, and what the buffer holds afterwards |
| `Blocks` | blocks.dfy | the buffer read as a list of blocks: the two ways of reading the logical array off them, and the workers' simultaneous phases proved equal to the kernel's passes |
| `Threads` | threads.dfy | the threads' loop body on the shared buffer, the rounds, the rebuild and the whole program |
| `Farm` | farm.dfy | the master's `svc` as a state machine with an outbox of sends, the `Worker` class (constructor, `svc`, `svc_end`), the driver delivering the sends, and the whole program |

### How the concurrent versions are modelled

- **Threads.** A phase of all threads is modelled as the threads' steps taken one after the other in
  worker order.
  - `Threads.EvenHalfway` and `Threads.OddHalfway` prove that, in worker order, every step then reads
    exactly what it reads when all threads run between the same two barriers.
  - The order does not matter because a step never writes the cell its neighbour reads:
    `Threads.EvenKeepsLast` shows the even step keeps a block's trailing copy, and
    `Threads.OddKeepsFirst` shows the odd step keeps its first cell. `Threads.OddOrderFree` uses this to
    show that in the odd phase worker i also reads the same cell after worker i + 1's step.
  - The phases therefore equal the simultaneous phases `Blocks.ParEven` and `Blocks.ParOdd`.
  - `Blocks.RoundView` proves that these are the kernel's even and odd passes on the logical array.
- **Farm.** The master's `ff_send_out_to` appends a `Send` to an outbox. The driver hands the sends of a
  phase to the workers in outbox order and feeds every reply back to the master.
- **Random numbers.** `rand() % max` is the parameter `draw`; `draw(n)` is the value of the n-th call.
- **Uninitialised `back`.** The uninitialised `int16_t back` that `initializeVector` pushes as a placeholder
  is `garbage(j)`.

### Logical length

For odd `m`, `assignRanges` bumps the last range's end from `m - 1` to `m`. The thread and farm versions
therefore draw, sort and rebuild `m + 1` values. The model follows the code: `Threads.ParallelSort` and
`Farm.FarmProgram` return `OddUp(m - 1) + 1` values, which is `m` or `m + 1`.

## Model

| member | source | states |
|---|---|---|
| Kernel.CompareExchange | oe-sortseq.cpp:81-90 | the pair comes out ordered and is the input pair or its swap; it is unchanged exactly when it was already ordered |
| Kernel.ExchangeAt | oe-sortseq.cpp:81-90 | exchanging cells i and i+1 orders them, keeps their two values and leaves every other cell alone; it is the identity on an ordered pair |
| Kernel.PassAt | oe-sortseq.cpp:79-112 | every cell after a pass, in closed form: the min or max of its pair, or itself when unpaired |
| Kernel.PassKeepsPrefix | oe-sortseq.cpp:98-112 | cells before the first pair of the pass are not touched |
| Kernel.PassKeepsUnpairedLast | Project/final_v2/oe-sortparnofs.cpp:147-160 | the cell after the last pair of the pass is not touched |
| Kernel.PassOrdersPairs | oe-sortseq.cpp:79-112 | after a pass every pair of its parity is in order |
| Kernel.ExchangePermutes | oe-sortseq.cpp:81-90 | one exchange keeps the multiset of values |
| Kernel.PassPermutes | oe-sortseq.cpp:79-112 | a pass keeps the multiset of values |
| Kernel.PassIdentity | oe-sortseq.cpp:98-112 | a pass changes nothing exactly when every pair of its parity is already in order |
| Kernel.SwapsDetectInversion | oe-sortseq.cpp:111 | the number of swaps is positive exactly when some pair of the parity is inverted, so `test` is raised exactly then |
| Kernel.PassInversions | oe-sortseq.cpp:79-112 | a pass removes exactly as many inversions as it swaps pairs |
| Kernel.AdjacentSorted | oe-sortseq.cpp:166 | ordered adjacent pairs of both parities make the whole array sorted |
| Kernel.StopRule | oe-sortseq.cpp:117 | the loop stops exactly when the array after the even pass is sorted, and the stopping round's odd pass then changes nothing |
| Kernel.RoundInversions | oe-sortseq.cpp:74-119 | a round that goes on strictly lowers the number of inversions, so the loop terminates |
| Kernel.RoundPermutes | oe-sortseq.cpp:74-119 | a round keeps the multiset of values |
| Kernel.OddEvenSorted | oe-sortseq.cpp:74-119 | the algorithm's result is sorted and a permutation of its input |
| Kernel.RoundStep | oe-sortseq.cpp:117 | a round that goes on is followed by the algorithm on its result, and one that stops ends it |
| Kernel.SortedPermutationUnique | oe-sortseq.cpp:166 | two sorted permutations of the same values are equal, so every correct variant yields the same output |
| Kernel.SortedInputOneRound | oe-sortseq.cpp:74-119 | a sorted input, including any of length at most 1, stops after one round and comes back unchanged |
| Sequential.EvenPhase | oe-sortseq.cpp:79-91 | the first m cells become the even pass of their old values, and the cells past m are unchanged |
| Sequential.OddPhase | oe-sortseq.cpp:98-112 | the first m cells become the odd pass of their old values; `test` is set exactly when some odd pair was inverted |
| Sequential.OddEvenSort | oe-sortseq.cpp:70-125 | the first m cells become `OddEvenSorted` of their old values: sorted and a permutation, the rest untouched |
| TwoVector.InterleaveAt | Project/final_v2/oe-sortdouble.cpp:152-153 | logical cell 2k is vec_even[k] and logical cell 2k+1 is vec_odd[k] |
| TwoVector.SplitRoundTrip | Project/final_v2/oe-sortdouble.cpp:152-153 | splitting any array by parity and interleaving the halves gives it back |
| TwoVector.InterleaveRoundTrip | Project/final_v2/oe-sortdouble.cpp:152-153 | interleaving two vectors of fitting sizes and splitting again gives both vectors back |
| TwoVector.SizingFits | Project/final_v2/oe-sortdouble.cpp:152-153 | the sizes m/2 + m%2 and m/2 fit the interleaving and add up to m |
| TwoVector.ExchangeEvenPair | Project/final_v2/oe-sortdouble.cpp:86-95 | exchanging vec_even[i] with vec_odd[i] is the kernel's exchange at logical 2i |
| TwoVector.ExchangeOddPair | Project/final_v2/oe-sortdouble.cpp:106-114 | exchanging vec_odd[i] with vec_even[i+1] is the kernel's exchange at logical 2i+1 |
| TwoVector.EvenPairsOrdered | Project/final_v2/oe-sortdouble.cpp:84-96 | after an even pass vec_even[i] <= vec_odd[i] for every i |
| TwoVector.OddPairsOrdered | Project/final_v2/oe-sortdouble.cpp:104-118 | after an odd pass vec_odd[i] <= vec_even[i+1] for every i |
| TwoVector.ExchangeEven | Project/final_v2/oe-sortdouble.cpp:86-95 | the interleaving after one even step is the kernel's exchange at 2i of the interleaving before |
| TwoVector.EvenPhase | Project/final_v2/oe-sortdouble.cpp:74-96 | the interleaving becomes the even pass of the old interleaving, and every even pair is ordered |
| TwoVector.ExchangeOdd | Project/final_v2/oe-sortdouble.cpp:106-117 | one odd step is the exchange at logical 2i+1, and it sets its flag exactly when that pair was inverted |
| TwoVector.OddPhase | Project/final_v2/oe-sortdouble.cpp:75-118 | the interleaving becomes the odd pass of the old one; `test` is set exactly when some odd pair was inverted |
| TwoVector.OddEvenSort | Project/final_v2/oe-sortdouble.cpp:70-131 | the interleaving becomes `OddEvenSorted` of the old interleaving, with the sequential stop rule |
| TwoVector.InitializeVector | Project/final_v2/oe-sortdouble.cpp:35-43 | as written: cell k of the even and the odd vector receive draws 2k and 2k+1 for k < m/2; every further cell is unchanged |
| TwoVector.Allocate | Project/final_v2/oe-sortdouble.cpp:152-154 | the value-initialised vectors after `initializeVector` interleave to `InitialContents`: the draws, with a last 0 for odd m |
| TwoVector.InitialInterleave | Project/final_v2/oe-sortdouble.cpp:38-42 | drawn cells and a zero last even cell interleave to `InitialContents` |
| TwoVector.InterleaveDrawn | Project/final_v2/oe-sortdouble.cpp:38-42 | the first 2*(m/2) logical cells are the draws in call order |
| TwoVector.OddLengthLastCellNotDrawn | Project/final_v2/oe-sortdouble.cpp:38-42 | for m = 1 the array is [0] whatever the generator returns, unlike the draws |
| TwoVector.InitializeVectorFull | Project/final_v2/oe-sortdouble.cpp:35-43 | corrected: the interleaving is exactly the m draws, for odd m too |
| TwoVector.InterleaveSnoc | Project/final_v2/oe-sortdouble.cpp:175-176 | pushing one even and one odd cell extends the interleaving by those two cells |
| TwoVector.Rebuild | Project/final_v2/oe-sortdouble.cpp:172-177 | as written, where it stays in bounds: the result interleaves vec_even with the first |vec_even| cells of vec_odd |
| TwoVector.OddLengthRebuildOverruns | Project/final_v2/oe-sortdouble.cpp:173-176 | with main's sizes, `Rebuild`'s requirement holds exactly when m is even; for every odd m the last index the loop reads in vec_odd, the length of vec_even minus 1, equals the length of vec_odd |
| TwoVector.RebuildAll | Project/final_v2/oe-sortdouble.cpp:172-177 | corrected: the result is the whole interleaving, for odd m too |
| TwoVector.SortTwoVectors | Project/final_v2/oe-sortdouble.cpp:152-180 | end to end, corrected: the output is `OddEvenSorted` of the m draws, sorted and a permutation of them |
| Ranges.OddUp | Project/final_v2/oe-sortparnofs.cpp:48 | the bumped end is odd, and at most one more than the end |
| Ranges.Width | Project/final_v2/oe-sortparnofs.cpp:40-48 | the distance between starts is even, between m/nw and m/nw + 1 |
| Ranges.AssignRanges | Project/final_v2/oe-sortparnofs.cpp:39-51 | the table pushed is `RangeTable(m, nw)` |
| Ranges.RangeTableShape | Project/final_v2/oe-sortparnofs.cpp:43-50 | the ranges are contiguous from 0; every start is even; every non-last end is odd; every non-last range has the same even width |
| Ranges.LastRangeEnd | Project/final_v2/oe-sortparnofs.cpp:46-48 | the last range ends at m - 1 for even m and at m for odd m |
| Ranges.WellFormedRangeTable | Project/final_v2/oe-sortparnofs.cpp:40-48 | no range is empty exactly when the width is at least 2 (or nw = 1) and the last start is not past the bumped end |
| Ranges.EvenQuotientWellFormed | Project/final_v2/oe-sortparnofs.cpp:40-48 | an even m/nw of at least 2 always gives non-empty ranges |
| Ranges.IllFormedExample | Project/final_v2/oe-sortparnofs.cpp:40-48 | m = 15 and nw = 5 give a last range [16, 15], which is empty |
| Padded.CppNonNegative | Project/final_v2/oe-sortparnofs.cpp:75 | C++ truncating `/` and `%` agree with Dafny's on a non-negative dividend |
| Padded.PadAligned | Project/final_v2/oe-sortparnofs.cpp:75-95 | for an even cache line of at most 64 bytes the pad is in [0, 32), the loop pushes that many cells, and block, copy and pad fill whole cache lines |
| Padded.PadValue | Project/final_v2/oe-sortparnofs.cpp:75 | the pad is half the distance to the next cache-line boundary, or 0 when that distance is a whole 64-byte line |
| Padded.PushDraws | Project/final_v2/oe-sortparnofs.cpp:82-86 | the loop appends the next `count` draws and advances the draw counter by that many |
| Padded.PushPadding | Project/final_v2/oe-sortparnofs.cpp:92-95 | the loop appends `pad` cells of -1, none when pad is not positive |
| Padded.TableAt | Project/final_v2/oe-sortparnofs.cpp:72-74 | the filled-in range j has size Inter, minus 1 for the last, and lStart the number of cells pushed before it |
| Padded.PushBlock | Project/final_v2/oe-sortparnofs.cpp:72-96 | one loop round appends worker i's block cells, and the draw counter moves to the next range's first position after the start |
| Padded.InitializeVector | Project/final_v2/oe-sortparnofs.cpp:66-99 | the buffer is all the blocks in order, and the table is the ranges with lStart and size filled in |
| Padded.LaidOrdered | Project/final_v2/oe-sortparnofs.cpp:72-96 | blocks further apart in worker order lie further apart in the buffer |
| Padded.PutBlocks | Project/final_v2/oe-sortparnofs.cpp:130-184 | replacing one block changes that block and no other |
| Padded.BlockCellsLength | Project/final_v2/oe-sortparnofs.cpp:77-96 | a block pushes Inter + 1 cells and then a pad unless it is last |
| Padded.PushedLength | Project/final_v2/oe-sortparnofs.cpp:69-98 | the buffer grows by one block's length per round |
| Padded.TableOffsets | Project/final_v2/oe-sortparnofs.cpp:74-96 | the next block starts where this block, its copy and its padding end |
| Padded.TableEnds | Project/final_v2/oe-sortparnofs.cpp:74-86 | the first block starts the buffer, and the last block's owned cells and trailing cell end it |
| Padded.PushedPrefix | Project/final_v2/oe-sortparnofs.cpp:69-98 | the buffer after fewer rounds is a prefix of the buffer after more |
| Padded.BlockCellAt | Project/final_v2/oe-sortparnofs.cpp:77-90 | a block's cell k is the placeholder for k = 0 after the first worker, and otherwise the draw for its logical position |
| Padded.BlockPadAt | Project/final_v2/oe-sortparnofs.cpp:92-95 | the cells after a non-last block's copy are -1 |
| Padded.PushedAt | Project/final_v2/oe-sortparnofs.cpp:74 | cell x of block j sits x cells past the cells pushed before it |
| Padded.InitialCells | Project/final_v2/oe-sortparnofs.cpp:77-90 | every block cell of the finished buffer holds its initial value: the placeholder `back` or the draw for its logical position |
| Padded.InitialPadding | Project/final_v2/oe-sortparnofs.cpp:92-95 | every padding cell of the finished buffer is -1 |
| Padded.PartitionEven | Project/final_v2/oe-sortparnofs.cpp:45-48 | every range starts on an even index, and a non-last range holds an even number, at least 2, of positions |
| Padded.PushedGrows | Project/final_v2/oe-sortparnofs.cpp:69-98 | the buffer only grows from round to round |
| Padded.InitialBounds | Project/final_v2/oe-sortparnofs.cpp:72-74 | every filled-in block lies inside the finished buffer |
| Padded.InitialOrder | Project/final_v2/oe-sortparnofs.cpp:72-74 | a non-last block owns an even number, at least 2, of cells and lies before the next block |
| Padded.InitialLaid | Project/final_v2/oe-sortparnofs.cpp:66-99 | the filled-in table lays the blocks out in order, without overlap, inside the buffer |
| Padded.InitialBlock | Project/final_v2/oe-sortparnofs.cpp:77-90 | right after initialisation every block, without its placeholder, holds the draws of its range and the next range's first position |
| Padded.OddFromSpans | Project/final_v2/oe-sortparnofs.cpp:82-90 | the blocks from k on, read the odd way, are one run of consecutive draws |
| Padded.PartitionAscending | Project/final_v2/oe-sortparnofs.cpp:45-48 | ranges further apart in worker order lie further apart in the index space |
| Padded.OddViewSpans | Project/final_v2/oe-sortparnofs.cpp:82-90 | such blocks read the odd way are the draws for positions 0 up to the last end |
| Padded.InitialOddView | Project/final_v2/oe-sortparnofs.cpp:66-99 | right after initialisation the logical array on the buffer is the draws for all its positions, placeholders and padding not showing |
| Padded.RangeTablePartition | Project/final_v2/oe-sortparnofs.cpp:39-51 | well-formed ranges from `assignRanges` partition the logical positions, and the last worker owns at least one cell |
| Padded.SetUp | Project/final_v2/oe-sortparnofs.cpp:223-224 | after `assignRanges` and `initializeVector` the blocks lie in order in a fresh buffer, the last worker owns a cell, the logical array is the draws for 0 … OddUp(m - 1), and the buffer has the `PaddedLayout`: the ranges' bounds and sizes, blocks PadCount cells apart, and -1 in every gap |
| Padded.InitialState | Project/final_v2/oe-sortparnofs.cpp:66-99 | right after `initializeVector` the table lays out the buffer, the last worker owns a cell, the logical array is the draws, and the buffer has the `PaddedLayout` |
| Padded.InitialPaddedLayout | Project/final_v2/oe-sortparnofs.cpp:72-96 | the table and buffer `initializeVector` returns for a cache line of c bytes have the `PaddedLayout` |
| Padded.InitialLayout | Project/final_v2/oe-sortparnofs.cpp:72-96 | the first block starts the buffer, the last one ends it, every range keeps its bounds and gets its size, and block j + 1 starts one copy cell and pads(size) cells after block j's owned cells |
| Padded.InitialGaps | Project/final_v2/oe-sortparnofs.cpp:92-95 | every cell between two blocks is in the buffer and holds -1 |
| Padded.GapAt | Project/final_v2/oe-sortparnofs.cpp:92-95 | one cell between blocks j and j + 1 is in the buffer and holds -1 |
| Padded.LastOwnsCell | Project/final_v2/oe-sortparnofs.cpp:72-73 | when the last range holds an even number of positions, its size is at least 1 |
| Padded.IllFormedLastSize | Project/final_v2/oe-sortparnofs.cpp:72-73 | for m = 15 and nw = 5 the last range's interval is 0 positions and its size -1 |
| Blocks.PassConcat | Project/final_v2/oe-sortparnofs.cpp:147-184 | a pass splits at any border an even distance from its first pair into the passes over the two parts |
| Blocks.SwapsConcat | Project/final_v2/oe-sortparnofs.cpp:183-185 | the swaps of a pass split the same way and add up over the parts |
| Blocks.EvenPhaseView | Project/final_v2/oe-sortparnofs.cpp:141-161 | all workers' even steps, run simultaneously, are the kernel's even pass on the logical array |
| Blocks.OddPhaseView | Project/final_v2/oe-sortparnofs.cpp:164-186 | all workers' odd steps, run simultaneously, are the kernel's odd pass on the logical array |
| Blocks.CondFromPar | Project/final_v2/oe-sortparnofs.cpp:183-185 | from worker k on, no worker reports a swap exactly when the odd pass over those blocks' cells, read the even way, finds no inverted pair |
| Blocks.CondZero | Project/final_v2/oe-sortparnofs.cpp:185-188 | `cond` stays 0 exactly when the odd pass swaps nothing on the logical array |
| Blocks.RoundView | Project/final_v2/oe-sortparnofs.cpp:136-195 | one round of the workers is the kernel's round on the logical array, and `cond` is 0 exactly when the kernel stops |
| Blocks.QuietOddPhase | Project/final_v2/oe-sortparnofs.cpp:164-188 | when the logical array has no inverted odd pair, the odd phase leaves it unchanged, both readings of it then coincide, and every block's trailing copy equals the next block's first cell |
| Blocks.LastRound | Project/final_v2/oe-sortparnofs.cpp:185-188 | after the round on which the kernel stops, both readings of the logical array are `OddEvenSorted` of the round's input and the blocks' copies agree |
| Blocks.ParRoundStep | Project/final_v2/oe-sortparnofs.cpp:136-195 | a round with `cond` 0 leaves `OddEvenSorted` of the logical array in place, with the copies agreeing; any other round keeps the result the sort reaches and strictly lowers the inversions |
| Threads.PaddingTrans | Project/final_v2/oe-sortparnofs.cpp:136-195 | keeping the padding is transitive |
| Threads.PutPadding | Project/final_v2/oe-sortparnofs.cpp:130-184 | a worker writing its block leaves every padding cell alone |
| Threads.EvenHalfway | Project/final_v2/oe-sortparnofs.cpp:141-161 | in the even phase, in worker order, worker i reads the copy of worker i - 1 after worker i - 1's step, and that copy is the one it reads when all run at once |
| Threads.EvenKeepsLast | Project/final_v2/oe-sortparnofs.cpp:147-160 | a non-last worker's even loop never writes its trailing copy |
| Threads.OddHalfway | Project/final_v2/oe-sortparnofs.cpp:161-186 | in the odd phase, in worker order, worker i reads block i + 1's first cell before worker i + 1 writes it |
| Threads.OddKeepsFirst | Project/final_v2/oe-sortparnofs.cpp:164-184 | the odd step, its refresh of the trailing copy and its pass from cell 1, leaves a block's first cell unchanged |
| Threads.OddOrderFree | Project/final_v2/oe-sortparnofs.cpp:164-166 | in the odd phase worker i reads the same cell of block i + 1 after worker i + 1's step as before it |
| Threads.HalfwayDone | Project/final_v2/oe-sortparnofs.cpp:161-186 | at the barrier every block has taken its phase |
| Threads.ExchangeCells | Project/final_v2/oe-sortparnofs.cpp:149-183 | one compare-exchange inside a block is the kernel's exchange on that block; the flag is set exactly when the pair was inverted; nothing outside the block changes |
| Threads.EvenPass | Project/final_v2/oe-sortparnofs.cpp:147-160 | the even loop turns the block into its even pass and leaves the rest of the buffer alone |
| Threads.OddPass | Project/final_v2/oe-sortparnofs.cpp:171-184 | the odd loop turns the block into its odd pass; `test` is set exactly when the block had an inverted odd pair; the rest of the buffer is left alone |
| Threads.RefreshLeftAt | Project/final_v2/oe-sortparnofs.cpp:141-143 | on the buffer, the even refresh is writing the previous block's trailing owned cell into cell 0 |
| Threads.RefreshRightAt | Project/final_v2/oe-sortparnofs.cpp:164-167 | on the buffer, the odd refresh is writing the next block's first cell into the trailing cell |
| Threads.CopyLeft | Project/final_v2/oe-sortparnofs.cpp:141-143 | the block becomes its even refresh, and the rest of the buffer is unchanged |
| Threads.CopyRight | Project/final_v2/oe-sortparnofs.cpp:164-167 | the block becomes its odd refresh, and the rest of the buffer is unchanged |
| Threads.EvenStep | Project/final_v2/oe-sortparnofs.cpp:141-160 | the buffer becomes the one with worker id's block replaced by the even pass of its refreshed block |
| Threads.OddStep | Project/final_v2/oe-sortparnofs.cpp:164-184 | the buffer becomes the one with worker id's block replaced by the odd pass of its refreshed block; `test` reports the block's inverted odd pairs |
| Threads.PhaseStep | Project/final_v2/oe-sortparnofs.cpp:130-184 | a worker writing its phase block moves the buffer one worker on through the phase and keeps the padding |
| Threads.EvenStepBlocks | Project/final_v2/oe-sortparnofs.cpp:141-161 | worker id's even step, after those before it, moves the blocks one worker on towards `ParEven` |
| Threads.OddStepBlocks | Project/final_v2/oe-sortparnofs.cpp:164-186 | worker id's odd step, after those before it, moves the blocks one worker on towards `ParOdd`, reading what it reads in the simultaneous phase |
| Threads.EvenPhase | Project/final_v2/oe-sortparnofs.cpp:141-161 | the workers' even steps, in worker order, produce the simultaneous even phase's blocks and keep the padding |
| Threads.Tally | Project/final_v2/oe-sortparnofs.cpp:183-185 | one worker's `cond += test` adds its share of the phase's count |
| Threads.OddPhase | Project/final_v2/oe-sortparnofs.cpp:164-194 | the workers' odd steps produce the simultaneous odd phase's blocks; `cond`, starting from 0, ends as the number of workers whose odd pass swapped; the padding is kept |
| Threads.Sort | Project/final_v2/oe-sortparnofs.cpp:136-195 | the threads' loop leaves the logical array, read either way, equal to `OddEvenSorted` of the initial logical array, with all copies agreeing and the padding kept |
| Threads.OwnedCells | Project/final_v2/oe-sortparnofs.cpp:256-260 | the inner rebuild loop takes a block's owned cells, and for the last worker also its trailing cell |
| Threads.RebuildStep | Project/final_v2/oe-sortparnofs.cpp:254-261 | the rebuild after worker i is the logical array up to worker i's owned cells |
| Threads.Rebuild | Project/final_v2/oe-sortparnofs.cpp:253-261 | the rebuilt vector is the logical array on the buffer; for a last worker owning no cell, it lacks the last cell |
| Threads.ParallelSort | Project/final_v2/oe-sortparnofs.cpp:198-275 | end to end: the output is `OddEvenSorted` of the OddUp(m - 1) + 1 draws, sorted, a permutation of them, with m or m + 1 values |
| Farm.TestOf | Project/final_v2/oe-sortmw.cpp:189-238 | the reported test is 0 or 1, and always 0 for an even task |
| Farm.WrittenBack | Project/final_v2/oe-sortmw.cpp:235-236 | the shared buffer's cells l_start and l_end take the copy's first and last cells |
| Farm.Worker.constructor | Project/final_v2/oe-sortmw.cpp:174-182 | the worker gets its range's size and offsets and a fresh private copy of its size + 1 buffer cells |
| Farm.Worker.Refresh | Project/final_v2/oe-sortmw.cpp:192-198 | the private copy becomes its refresh for the task's phase |
| Farm.Worker.Svc | Project/final_v2/oe-sortmw.cpp:184-241 | the private copy becomes the refreshed copy after the task's pass; the reply is the task with the worker's test; the buffer gets the two border cells back |
| Farm.Worker.SvcEnd | Project/final_v2/oe-sortmw.cpp:243-246 | the first `size` cells of the private copy replace the owned cells in the buffer, and nothing else changes |
| Farm.MasterSvc | Project/final_v2/oe-sortmw.cpp:127-165 | the null task sends an even task to every worker. A reply ends the stream exactly when it is the last of a quiet odd phase. Otherwise the last reply of a phase toggles every task and resends it. Every send raises and every reply lowers `ntask` |
| Farm.Master.constructor | Project/final_v2/oe-sortmw.cpp:121-125 | the master starts with ntask = 0, test = 0, no tasks and nothing sent |
| Farm.Master.SendAll | Project/final_v2/oe-sortmw.cpp:132-162 | a send per worker is appended to the outbox, and `ntask` grows by nw |
| Farm.Master.Svc | Project/final_v2/oe-sortmw.cpp:127-165 | the master's new state and signal are those of `MasterSvc` |
| Farm.MirrorShaped | Project/final_v2/oe-sortmw.cpp:235-236 | copies mirrored in the buffer have the blocks' shape |
| Farm.MirrorInitial | Project/final_v2/oe-sortmw.cpp:180-181 | the buffer mirrors the copies the workers' constructors take |
| Farm.RefreshedMirror | Project/final_v2/oe-sortmw.cpp:192-198 | with the border cells mirrored, a worker's refresh from the buffer is the refresh from its neighbour's copy, and its test is the block's |
| Farm.MirrorStep | Project/final_v2/oe-sortmw.cpp:235-236 | a worker's write-back keeps the buffer mirroring every copy |
| Farm.Deliver | Project/final_v2/oe-sortmw.cpp:184-241 | delivering a send replaces that worker's copy by its served cells, replies with its test, and keeps the mirror |
| Farm.Serve | Project/final_v2/oe-sortmw.cpp:184-241 | in worker order, the id-th sent task moves the copies one worker on towards the simultaneous phase |
| Farm.Answer | Project/final_v2/oe-sortmw.cpp:140-163 | the master takes the phase's id-th reply: before the last it only counts; at the last of a phase it ends the stream exactly when the odd phase was quiet, and otherwise broadcasts the next phase |
| Farm.MidPhase | Project/final_v2/oe-sortmw.cpp:140-163 | a reply before the last only adds its test and lowers `ntask`, and the last one ends the stream or broadcasts the other phase |
| Farm.PhaseTally | Project/final_v2/oe-sortmw.cpp:140 | the master's `test` over a phase counts the workers whose odd pass swapped |
| Farm.StepDone | Project/final_v2/oe-sortmw.cpp:140-163 | one delivered send and its answered reply advance the phase by one worker |
| Farm.Step | Project/final_v2/oe-sortmw.cpp:127-241 | one send delivered and its reply fed back to the master advance the phase by one worker |
| Farm.RunPhase | Project/final_v2/oe-sortmw.cpp:127-241 | a phase of the farm turns the copies into the simultaneous phase's blocks; after an odd phase the stream ends exactly when it was quiet |
| Farm.FinalView | Project/final_v2/oe-sortmw.cpp:243-246 | once every worker wrote its owned cells back, the buffer holds the copies' logical array |
| Farm.EndStep | Project/final_v2/oe-sortmw.cpp:244 | one worker's `svc_end` writes only its own cells and keeps the others' |
| Farm.EndAll | Project/final_v2/oe-sortmw.cpp:243-246 | after every `svc_end` the buffer holds the copies' logical array |
| Farm.Hire | Project/final_v2/oe-sortmw.cpp:283 | the workers, in order, hold fresh, distinct copies of the buffer's blocks |
| Farm.LocalsSnoc | Project/final_v2/oe-sortmw.cpp:283 | hiring one more worker appends its copy |
| Farm.RoundDone | Project/final_v2/oe-sortmw.cpp:144-163 | a farm round on which the master ends the stream leaves `OddEvenSorted` of the initial logical array in place; any other round keeps the result the sort reaches and strictly lowers the inversions |
| Farm.Rounds | Project/final_v2/oe-sortmw.cpp:127-238 | the phases until the end of the stream turn the copies' logical array into `OddEvenSorted` of the initial one |
| Farm.Start | Project/final_v2/oe-sortmw.cpp:125-138 | the master, given the null task, has broadcast an even task to every worker |
| Farm.RunFarm | Project/final_v2/oe-sortmw.cpp:282-295 | the whole farm leaves the buffer's logical array equal to `OddEvenSorted` of the initial one |
| Farm.FarmSort | Project/final_v2/oe-sortmw.cpp:282-315 | the farm and the rebuild return `OddEvenSorted` of the initial logical array |
| Farm.FarmProgram | Project/final_v2/oe-sortmw.cpp:251-328 | end to end: the output is `OddEvenSorted` of the OddUp(m - 1) + 1 draws, sorted, a permutation of them, with m or m + 1 values |

## Left out

- Threads, barriers and CPU pinning are not modelled. A phase of all threads is modelled as the
  threads' steps in worker order; `Threads.EvenHalfway` and `Threads.OddHalfway` prove that this
  order reads what the simultaneous phase reads. Memory-model questions, such as the atomic `cond`
  and its reset by every thread at line 194, are not modelled.
- FastFlow (the farm, its load balancer, `wrap_around`, `run_and_wait_end`) is not modelled. Sends
  go to an outbox and are delivered in outbox order, one worker at a time; other interleavings of
  the workers within a phase are not modelled.
- `srand`/`rand` are not modelled: the values `rand() % max` are the parameter `draw`, in call order.
- The uninitialised `int16_t back` is the parameter `garbage`.
- Timing, the phase statistics, `printVector`, `DEBUG` output, command-line parsing and `atoi` are
  left out: they are I/O with no effect on the sorted result.
- The `initializeVector` of `oe-sortseq.cpp` (lines 35-42) is left out: `Sequential.OddEvenSort`
  takes any array.
- The copies of `assignRanges` and `initializeVector` in `oe-sortmw.cpp` (lines 41-100) are the same
  code as in `oe-sortparnofs.cpp`. They are modelled once, in `Ranges` and `Padded`.
- `oe-sortfor.cpp` and the task allocation and deletion are left out; `utils.cpp` is read only for
  `Range` and `Task`.
- `int16_t` is not modelled: values are unbounded `int`s. The algorithm only compares and copies
  values, so the width cannot change the result. The `int16_t` `test` accumulators sum at most
  `nw` ones, so with fewer than 32768 workers they do not wrap; for more they would.
- Threads.ParallelSort: requires that `assignRanges` yields ranges none of which is empty,
  because the layout has no room for a block of size -1. For m = 15 and nw = 5 the last range is
  [16, 15] (`Ranges.IllFormedExample`) and gets size -1 (`Padded.IllFormedLastSize`). The thread
  program then stays inside its buffer: that block is its placeholder alone, and the sorting loops
  and the rebuild run over it zero times. But 17 values are drawn and the rebuild returns only 16.
- Farm.FarmProgram: the same requirement. Here the reason is that the program does index outside
  its buffers. The last worker allocates `vector(size + 1)`, which has no cells
  (Project/final_v2/oe-sortmw.cpp:180), and then reads and writes its cells 0 and `size`
  (Project/final_v2/oe-sortmw.cpp:193 and 236).
- Ranges.AssignRanges: requires `nw >= 1`; for 0 the C++ `m / nw` and `m % nw` divide by zero
  (Project/final_v2/oe-sortparnofs.cpp:40-41).
- Padded.SetUp, Threads.ParallelSort, Farm.FarmProgram: the same `nw >= 1`, for the same reason.
- Threads.ParallelSort: requires `c_size != 0`; for 0 the C++ `%` divides by zero.
- Farm.FarmProgram: the same requirement, for the same reason.
- Farm.FarmSort: requires that the last worker owns at least one cell. `Padded.RangeTablePartition`
  proves this for every well-formed table from `assignRanges`.
- The layout lemmas of `Padded` are stated for any padding function `pads`. `Padded.SetUp`
  instantiates it with the source's formula.
- Farm.RunFarm: states the buffer's logical array but not that the padding cells are kept, unlike
  `Threads.Sort`.

## Findings

| source | as written | input that shows it | evidently intended | confidence | as-written member | corrected member |
|---|---|---|---|---|---|---|
| Project/final_v2/oe-sortdouble.cpp:38-42 | the loop runs m/2 rounds, so for odd m the last cell of vec_even is never drawn and keeps 0 | m = 1: the array is [0] whatever `rand` returns | draw all m values, including vec_even[m/2] for odd m | not executed | TwoVector.OddLengthLastCellNotDrawn | TwoVector.InitializeVectorFull |
| Project/final_v2/oe-sortdouble.cpp:173-177 | the rebuild loops over every cell of vec_even and reads vec_odd[i] too, one past its end for odd m | any odd m, e.g. m = 3: vec_even has 2 cells and vec_odd 1, and the last round reads vec_odd[1] | push vec_odd[i] only while i < vec_odd.size() | not executed | TwoVector.OddLengthRebuildOverruns | TwoVector.RebuildAll |

The as-written members are `TwoVector.InitializeVector` and `TwoVector.Allocate`, with
`OddLengthLastCellNotDrawn` exhibiting the missing draw. `TwoVector.Rebuild` only admits vectors where
the loop stays in bounds, and `OddLengthRebuildOverruns` shows that main's sizing meets that requirement
exactly for even m, and that for odd m the last read is one past the end of vec_odd. `TwoVector.SortTwoVectors` uses the corrected members.
