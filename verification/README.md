# Advent of Code 2024 solvers, modelled in Dafny

This project models the puzzle solvers of an Advent of Code 2024 repository
written in Rust. Each day's solver becomes one Dafny module, in a file named
after the day. The model follows the Rust code's branches, constants and
edge cases, and proves what each solver computes.

| file | module | day |
|---|---|---|
| `day02.dfy` | `ReportSafety` | 2, Red-Nosed Reports: safe reports, with and without one removal |
| `day04.dfy` | `XmasSearch` | 4, Ceres Search: XMAS in every orientation, X-shaped MAS crossings |
| `day05.dfy` | `PrintQueue` | 5, Print Queue: ordering rules, the rule comparator, middle pages |
| `day06_walk.dfy` | `GuardWalk` | 6, the guard's walk iterator (`walk.rs`) with its loop detector |
| `day06_patrol.dfy` | `GuardPatrol` | 6, part 1: the start search and the visited-cell count |
| `day07.dfy` | `BridgeRepair` | 7, Bridge Repair: operator insertion with + and *, and with concatenation |
| `day08.dfy` | `ResonantCollinearity` | 8, Resonant Collinearity: antenna groups and antinodes |
| `day09.dfy` | `DiskFragmenter` | 9, Disk Fragmenter: block compaction and whole-file moves, checksums |
| `day10.dfy` | `HoofIt` | 10, Hoof It: trail scores and ratings |
| `day11.dfy` | `PlutonianPebbles` | 11, Plutonian Pebbles: the blink rules and the memoised count |
| `day12.dfy` | `GardenGroups` | 12, Garden Groups: flood-fill labelling, area, perimeter, corners |
| `day13.dfy` | `ClawContraption` | 13, Claw Contraption: the brute-force token search |
| `day14.dfy` | `RestroomRedoubt` | 14, Restroom Redoubt: positions after 100 seconds, the quadrant product |
| `day15.dfy` | `WarehouseWoes` | 15, Warehouse Woes: box pushing on the narrow and the widened map |
| `day16.dfy` | `ReindeerMaze` | 16, Reindeer Maze: uniform-cost search over position and heading |
| `day17.dfy` | `ChronospatialComputer` | 17, Chronospatial Computer: the 3-bit interpreter |
| `day18.dfy` | `RamRun` | 18, RAM Run: breadth-first search and the first blocking byte |
| `day19.dfy` | `Trie`, `LinenLayout` | 19, Linen Layout: the trie (`trie.rs`), possible designs, arrangement counts |
| `day20.dfy` | `RaceCondition` | 20, Race Condition: the distance table and the wall-removal loop |
| `options.dfy` | `Options` | the `Option` type used throughout |
| `counting.dfy` | `Counting` | counting the indices, or index pairs, that satisfy a predicate |
| `decimal.dfy` | `Decimal` | decimal text of naturals: `to_string`, `parse`, splitting the digits |

Values the Rust code reads from standard input are parameters here. Maps
are `seq<seq<char>>`. Heaps, queues, hash sets and hash maps become
multisets, sequences, sets and maps. Machine words are unbounded integers,
except where wrap-around decides a branch. That happens for `overflowing_sub`
on a coordinate, day 8's `Wrapping` differences (a negative integer here,
outside the map either way), `i64` arithmetic in day 17, the `usize::MAX`
sentinel of day 16, and the `u64::MAX` sentinel and the `new_dist + 100`
addition of day 20; those places model the wrap-around or the panic
explicitly. Other additions, such as day 16's `cost + current.score`, are
unbounded. Where the Rust code would panic, the model returns `None`,
`Fault` or `Panicked`, or states the condition under which it cannot panic
as a precondition.

## Model

| member | source | states |
|---|---|---|
| ReportSafety.Remove | 2024/day02/src/main.rs:43-45 | dropping level k leaves a report one shorter whose levels before k stay in place and whose later levels shift left by one |
| ReportSafety.IsSafe1 | 2024/day02/src/main.rs:14-24 | part 1's `is_safe` holds iff the report has at most one level, or every adjacent difference is in 1..=3, or every one is in -3..=-1; a zero first difference is therefore unsafe |
| ReportSafety.SameSignSteps | 2024/day02/src/main.rs:15-23 | differences that all share the first one's sign and have magnitude 1..=3 are exactly "all in 1..=3" or "all in -3..=-1" |
| ReportSafety.CountSafe1 | 2024/day02/src/main.rs:26-29 | the part-1 count, over non-empty safe reports, never exceeds the number of reports |
| ReportSafety.FirstErrorFrom | 2024/day02/src/main.rs:35-39 | one past the first difference outside the range (n when there is none): every earlier difference is in range and the one it names is not |
| ReportSafety.BadPairSurvives | 2024/day02/src/main.rs:43-52 | dropping any level other than i or i-1 keeps the first bad pair adjacent, so only those two removals can repair the report |
| ReportSafety.RemoveIthRepairs | 2024/day02/src/main.rs:43-52 | `can_remove_ith` together with an in-range tail makes the report with level i dropped safe |
| ReportSafety.RemovePrevRepairs | 2024/day02/src/main.rs:44-52 | `can_remove_prev` together with an in-range tail makes the report with level i-1 dropped safe |
| ReportSafety.Safe2Sound | 2024/day02/src/main.rs:40-52 | every report the window test accepts becomes safe in the given range after dropping some one level |
| ReportSafety.TailAfterRemoval | 2024/day02/src/main.rs:47-50 | if dropping level i or i-1 makes the report safe, every difference after index i is already in range |
| ReportSafety.Safe2Complete | 2024/day02/src/main.rs:40-52 | every report that dropping some one level makes safe is accepted by the window test |
| ReportSafety.IsSafe2 | 2024/day02/src/main.rs:33-53 | for a non-empty report, part 2's `is_safe` holds iff removing some single level leaves every difference in the range |
| ReportSafety.Safe2Characterization | 2024/day02/src/main.rs:40-52 | the test on the window around the first bad difference accepts iff some single removal repairs the report |
| ReportSafety.CountSafe2 | 2024/day02/src/main.rs:55-58 | the part-2 count, over non-empty reports safe increasing (1..4) or decreasing (-3..0), never exceeds the number of reports |
| ReportSafety.Safe1ImpliesSafe2 | 2024/day02/src/main.rs:57 | a non-empty report safe under part 1 is accepted by part 2 in one of its two ranges |
| ReportSafety.Part2AtLeastPart1 | 2024/day02/src/main.rs:55-58 | part 2's answer is never below part 1's |
| XmasSearch.XmasReversible | 2024/day04/src/main.rs:18 | a four-letter word reads XMAS or SAMX iff its reverse does, which is why one test covers both reading directions |
| XmasSearch.HorizontalCountsMatches | 2024/day04/src/main.rs:16-19 | the horizontal count equals the number of (row, start) positions whose four-letter window reads XMAS or SAMX |
| XmasSearch.Vertical | 2024/day04/src/main.rs:21-29 | fewer than four rows give no vertical match |
| XmasSearch.Diagonal | 2024/day04/src/main.rs:30-41 | fewer than four rows give no diagonal match |
| XmasSearch.SolvePart1 | 2024/day04/src/main.rs:44 | with fewer than four rows the part-1 answer is the horizontal count alone |
| XmasSearch.VerticalPairs | 2024/day04/src/main.rs:23-29 | the column loop counts exactly the (window, column) pairs, column below every row's length as `izip!` truncates, that read XMAS or SAMX downwards |
| XmasSearch.DownPairs | 2024/day04/src/main.rs:30-35 | the down-right loop counts exactly the positions whose diagonal cells all exist and read XMAS or SAMX |
| XmasSearch.UpPairs | 2024/day04/src/main.rs:36-41 | the up-right loop counts exactly the positions whose diagonal, read from the fourth row up, exists and reads XMAS or SAMX |
| XmasSearch.Part1CountsMatches | 2024/day04/src/main.rs:15-45 | the part-1 answer is the number of horizontal, vertical, down-right and up-right occurrences of XMAS in either direction |
| XmasSearch.CornersAreTwoMas | 2024/day04/src/main.rs:55-56 | with an 'A' at the centre, the corners (TL, TR, BR, BL) spell MMSS, MSSM, SSMM or SMMS iff both diagonals read MAS in some direction |
| XmasSearch.SolvePart2 | 2024/day04/src/main.rs:47-63 | fewer than three rows give no X-MAS |
| XmasSearch.CrossingPairs | 2024/day04/src/main.rs:49-60 | the window loop counts exactly the 3x3 blocks that lie inside all three rows, have 'A' at the centre and corners in one of the four accepted orders |
| XmasSearch.Part2CountsCrossings | 2024/day04/src/main.rs:47-63 | the part-2 answer is the number of top-left corners of 3x3 blocks whose two diagonals both read MAS with 'A' at the centre, each block counted once |
| PrintQueue.OrderedFrom | 2024/day05/src/main.rs:35-44 | the scan from index k fails iff some page at or after k has a rule-successor at or before its own position |
| PrintQueue.ClashWithSeen | 2024/day05/src/main.rs:36-41 | the seen pages meet page k's successors iff page k has a rule-successor at or before its own position |
| PrintQueue.IsOrderedCorrectly | 2024/day05/src/main.rs:33-45 | `is_ordered_correctly` is false iff some page has a rule-successor among the pages up to and including itself; an update with no such pair, the empty one included, passes |
| PrintQueue.Compare | 2024/day05/src/main.rs:48-57 | the comparator answers Less iff a\|b is a rule, Greater iff only b\|a is, and Equal otherwise |
| PrintQueue.CompareAntisymmetric | 2024/day05/src/main.rs:48-57 | when the rules do not order a pair both ways, swapping the arguments swaps Less and Greater and keeps Equal |
| PrintQueue.Insert | 2024/day05/src/main.rs:48 | inserting a page adds exactly that page to the multiset of pages |
| PrintQueue.SortPages | 2024/day05/src/main.rs:47-59 | `sort_pages` returns a permutation of its input |
| PrintQueue.InsertSorted | 2024/day05/src/main.rs:48-57 | under rules that order the pages strictly and totally, insertion keeps a sorted sequence sorted |
| PrintQueue.SortPagesSorted | 2024/day05/src/main.rs:47-59 | with such rules and no repeated page, the result is sorted by the comparator |
| PrintQueue.SortedIsOrdered | 2024/day05/src/main.rs:33-59 | a sequence sorted by the comparator passes `is_ordered_correctly` |
| PrintQueue.SortKeepsOrdered | 2024/day05/src/main.rs:47-59 | sorting an update that is already correctly ordered leaves it unchanged |
| PrintQueue.Solve | 2024/day05/src/main.rs:18-31 | when the rules order every update, each update contributes its middle page to exactly one answer, so the two answers add up to the sum of the middles of the sorted updates; with every update in order the second answer is 0, with none in order the first is 0 |
| PrintQueue.LastUpdate | 2024/day05/src/main.rs:20-28 | the updates before the last inherit the ordering facts, and an in-order last update sorts to itself, so its middle page is the same either way |
| GuardWalk.Rotate | 2024/day06/src/walk.rs:70-77 | turning right always changes the heading |
| GuardWalk.RotateCycle | 2024/day06/src/walk.rs:70-77 | four right turns are the identity and two or three are not |
| GuardWalk.Offset | 2024/day06/src/walk.rs:79-91 | the stepped coordinates stay within usize, wrapping below 0 to usize::MAX |
| GuardWalk.OffsetMovesOne | 2024/day06/src/walk.rs:79-91 | on a grid smaller than usize::MAX, a step moves one cell in the heading, and Up from row 0 or Left from column 0 lands outside the grid |
| GuardWalk.NewWalker | 2024/day06/src/walk.rs:40-48 | a new walker has no extra obstacles |
| GuardWalk.WithAddedObstacle | 2024/day06/src/walk.rs:50-53 | adding an obstacle appends it to the list and leaves position and heading unchanged |
| GuardWalk.Advance | 2024/day06/src/walk.rs:20-33 | one move keeps the walker's obstacle list |
| GuardWalk.Next | 2024/day06/src/walk.rs:14-36 | `next` returns None iff the walker is outside the grid, and otherwise yields the pose it had before moving |
| GuardWalk.NextTurnsAtMostOnce | 2024/day06/src/walk.rs:20-33 | after a move the heading is the old one or one right turn of it, never two; the walker either stays put after a turn in front of a '#' or obstacle, or steps one cell onto a free cell |
| GuardWalk.Iterate | 2024/day06/src/walk.rs:14-36 | n moves keep the walker's obstacle list |
| GuardWalk.IterateAdd | 2024/day06/src/walk.rs:14-36 | a + b moves are a moves followed by b moves |
| GuardWalk.RepeatNeverLeaves | 2024/day06/src/walk.rs:55-64 | a walker that returns to an earlier state inside the grid stays inside the grid for ever |
| GuardWalk.RepeatFound | 2024/day06/src/walk.rs:57-60 | finding the current pose among the poses already yielded means the walk never leaves the grid |
| GuardWalk.LeftAt | 2024/day06/src/walk.rs:16-18 | a walk that is outside the grid after some number of moves does not stay inside for ever |
| GuardWalk.DetectorStep | 2024/day06/src/walk.rs:57-62 | one round of the detector loop keeps its invariant: the seen set holds exactly the poses yielded so far, all distinct |
| GuardWalk.IsInfiniteLoop | 2024/day06/src/walk.rs:55-64 | `is_inifinite_loop` returns true iff the walk stays inside the grid for ever |
| GuardPatrol.FindFrom | 2024/day06/src/main.rs:45-53 | the search from (i, j) finds the first '^' at or after that position in row-major order, or proves there is none |
| GuardPatrol.FindStartingCoords | 2024/day06/src/main.rs:45-53 | `find_starting_coords` returns a '^' with no '^' before it in row-major order, and None iff the grid has no '^' |
| GuardPatrol.Ahead | 2024/day06/src/main.rs:27-33 | the cell ahead is missing exactly when the next step would leave the m x n grid in the current heading; otherwise it is an orthogonal neighbour inside the grid |
| GuardPatrol.Patrol | 2024/day06/src/main.rs:25-40 | a finished walk visits the start and only grid cells, and ends on a visited cell facing the grid's edge |
| GuardPatrol.SolvePart1 | 2024/day06/src/main.rs:15-43 | with no '^' the answer is 0, and with one it is at least 1 because the start cell is visited |
| GuardPatrol.CellsCard | 2024/day06/src/main.rs:20-21 | an m x n grid has m * n cells |
| GuardPatrol.Part1AtMostArea | 2024/day06/src/main.rs:42 | the number of distinct visited cells never exceeds the grid's area |
| BridgeRepair.Concatenate | 2024/day07/src/main.rs:47 | `format!("{acc}{first}").parse()` in arithmetic: never below either part; ConcatenateSplits recovers both parts from it |
| BridgeRepair.ConcatenateSplits | 2024/day07/src/main.rs:47 | the concatenation of acc and first is `acc * 10^digits(first) + first`: dividing by 10^digits(first) gives back acc and the remainder is first |
| BridgeRepair.Bit | 2024/day07/src/main.rs:24 | `1 & (flags >> i)` is 0 or 1 |
| BridgeRepair.FlagsToOps | 2024/day07/src/main.rs:21-30 | a flag set below 2^n picks one of + and * for each of the n gaps |
| BridgeRepair.BitMatchesOps | 2024/day07/src/main.rs:24-29 | bit i of the flags is 0 iff gap i gets + |
| BridgeRepair.FlagsRoundTrip | 2024/day07/src/main.rs:19-21 | every choice of + and * is the decoding of some flag set below 2^n |
| BridgeRepair.FlagAccIsEval | 2024/day07/src/main.rs:22-30 | the accumulator loop evaluates the chosen operators strictly left to right |
| BridgeRepair.AnyFlagsIsExists | 2024/day07/src/main.rs:21-33 | `any` over the flag range holds iff some flag set in it evaluates to the target |
| BridgeRepair.EqIsPossible1 | 2024/day07/src/main.rs:14-34 | part 1 is exact: an equation is solvable iff it has an operand and some choice of + and * in its gaps evaluates to the target; an empty operand list never is |
| BridgeRepair.Part1Characterization | 2024/day07/src/main.rs:19-33 | trying every flag set below 2^(n-1) finds a solution iff some choice of + and * hits the target |
| BridgeRepair.EqIsPossible2 | 2024/day07/src/main.rs:43-55 | whatever the pruned search accepts has an accumulator not above the target and a witness choice of +, * and concatenation |
| BridgeRepair.ReachableStep | 2024/day07/src/main.rs:46-53 | a witness for the remaining operands after one operator, or an accumulator on target with nothing left, is a witness for the whole |
| BridgeRepair.ExhaustiveSound | 2024/day07/src/main.rs:46-53 | whatever the unpruned search accepts has a witness choice of +, * and concatenation |
| BridgeRepair.ExhaustiveComplete | 2024/day07/src/main.rs:46-53 | every witness choice of the three operators is found by the unpruned search |
| BridgeRepair.Part2ExhaustiveCharacterization | 2024/day07/src/main.rs:43-55 | the search without its pruning step succeeds iff some choice of the three operators hits the target |
| BridgeRepair.EvalNeverDrops | 2024/day07/src/main.rs:44-45 | with every operand at least 1 no operator lowers the accumulator, the assumption behind the pruning |
| BridgeRepair.PruningSafeForPositiveOperands | 2024/day07/src/main.rs:43-55 | with every operand at least 1 the pruned and the unpruned search agree |
| BridgeRepair.Part2Sound | 2024/day07/src/main.rs:43-55 | whatever the pruned search accepts is genuinely solvable |
| BridgeRepair.PruningMissesZeroOperand | 2024/day07/src/main.rs:44-45 | the pruning rejects 5: 7 0 5 although 7 * 0 + 5 = 5, an equation part 1 accepts |
| BridgeRepair.Part1ImpliesPart2 | 2024/day07/src/main.rs:57-64 | every equation solvable with + and * is solvable with the three operators |
| BridgeRepair.Part2AtLeastPart1 | 2024/day07/src/main.rs:57-66 | the unpruned part-2 sum is never below the part-1 sum |
| BridgeRepair.Part2AsWrittenAgrees | 2024/day07/src/main.rs:57-66 | when every operand is at least 1 the pruned part-2 sum equals the unpruned one |
| BridgeRepair.SolvePart1 | 2024/day07/src/main.rs:36-39 | part 1's sum is the total calibration result with + and *: the sum of the test values of the equations some choice of those operators makes true |
| BridgeRepair.Solvable2Sound | 2024/day07/src/main.rs:57-64 | an equation the pruned filter keeps has an operand and is made true by some choice of +, * and concatenation |
| BridgeRepair.SolvePart2 | 2024/day07/src/main.rs:57-66 | the pruned part-2 sum never exceeds the total calibration result with all three operators |
| BridgeRepair.Solvable2ExhaustiveMeans | 2024/day07/src/main.rs:57-64 | the filter without pruning keeps exactly the equations with an operand that some choice of the three operators makes true |
| BridgeRepair.SolvePart2Exhaustive | 2024/day07/src/main.rs:57-66 | without the pruning, the part-2 sum is exactly the total calibration result with all three operators |
| ResonantCollinearity.RowMajorFromSpec | 2024/day08/src/main.rs:75-76 | the scan from row i visits exactly the in-bounds positions of rows i onwards, in strictly increasing row-major order |
| ResonantCollinearity.Filter | 2024/day08/src/main.rs:77-81 | keeping the positions holding byte f keeps every such position and nothing else |
| ResonantCollinearity.FilterOrdered | 2024/day08/src/main.rs:75-83 | the kept positions stay in row-major order |
| ResonantCollinearity.Group | 2024/day08/src/main.rs:73-85 | only ASCII alphanumeric bytes get an entry, and never an empty one; GroupIsFilter pins each entry down to the byte's positions in scan order |
| ResonantCollinearity.GroupIsFilter | 2024/day08/src/main.rs:73-85 | a byte gets an entry iff it is ASCII alphanumeric and occurs, and its entry lists exactly its positions in scan order |
| ResonantCollinearity.AntennasSpec | 2024/day08/src/main.rs:73-85 | `find_all_antennas` has an entry exactly for the alphanumeric bytes on the map, each listing all and only that byte's positions in strictly increasing row-major order |
| ResonantCollinearity.GroupAll | 2024/day08/src/main.rs:73-85 | grouping the whole row-major scan gives each alphanumeric byte on the map an entry listing all and only its positions, in strictly increasing order |
| ResonantCollinearity.FindAllAntennas | 2024/day08/src/main.rs:73-85 | every entry is an alphanumeric byte whose list holds exactly its positions, in strictly increasing row-major order, and every alphanumeric byte on the map has an entry |
| ResonantCollinearity.PairAntinodesSymmetric | 2024/day08/src/main.rs:20-31 | the two insertions per unordered pair i < j give exactly the reflections of each antenna through every other antenna of the same frequency |
| ResonantCollinearity.Part1Sound | 2024/day08/src/main.rs:19-32 | every point part 1 inserts is the reflection of one antenna through another of the same frequency |
| ResonantCollinearity.Part1Complete | 2024/day08/src/main.rs:19-32 | every such reflection is inserted |
| ResonantCollinearity.Part1Characterization | 2024/day08/src/main.rs:16-39 | a point is inserted by part 1 iff it lies in line with two distinct same-frequency antennas, twice as far from one as from the other |
| ResonantCollinearity.Part1Count | 2024/day08/src/main.rs:34-38 | the in-bounds inserted points are exactly the map positions that are antinodes |
| ResonantCollinearity.SolvePart1 | 2024/day08/src/main.rs:16-39 | part 1's answer is the number of map positions in line with two distinct same-frequency antennas and twice as far from one as from the other |
| ResonantCollinearity.RaySound | 2024/day08/src/main.rs:53-58 | every point a stepping loop inserts is a whole number of steps from its start, with every step up to it on the map |
| ResonantCollinearity.RayComplete | 2024/day08/src/main.rs:53-58 | every whole number of steps from the start that stays on the map all the way is inserted |
| ResonantCollinearity.RayCharacterization | 2024/day08/src/main.rs:53-65 | a stepping loop inserts exactly the points k steps of delta from its antenna for which every step so far stayed in bounds |
| ResonantCollinearity.Ray | 2024/day08/src/main.rs:53-58 | a stepping loop inserts its starting point exactly when that point is in bounds |
| ResonantCollinearity.AntennasDistinct | 2024/day08/src/main.rs:73-85 | an antenna list never repeats a position, so every pair has a non-zero delta and the part-2 loops end |
| ResonantCollinearity.Part2InBounds | 2024/day08/src/main.rs:53-65 | every point part 2 inserts is in bounds |
| ResonantCollinearity.Part2Sound | 2024/day08/src/main.rs:44-68 | every point part 2 inserts is reached from some antenna by whole steps of its difference from another antenna of the same frequency, staying on the map |
| ResonantCollinearity.RayOfPair | 2024/day08/src/main.rs:44-58 | a point the forward loop of one listed pair inserts is reached from two distinct antennas of the same frequency |
| ResonantCollinearity.Part2Complete | 2024/day08/src/main.rs:44-68 | every point reached that way from any pair of distinct same-frequency antennas is inserted, whichever of the two comes first in the list |
| ResonantCollinearity.Part2Count | 2024/day08/src/main.rs:41-71 | part 2 inserts exactly the map positions reached that way |
| ResonantCollinearity.SolvePart2 | 2024/day08/src/main.rs:41-71 | part 2's answer is the number of map positions reached from an antenna by whole steps of its difference from another antenna of the same frequency without leaving the map |
| ResonantCollinearity.PairedAntennaCounted | 2024/day08/src/main.rs:53-62 | every antenna sharing its frequency with another antenna is itself a part-2 antinode |
| ResonantCollinearity.Part1PointOnRay | 2024/day08/src/main.rs:28-29 | an in-bounds point part 1 inserts is also inserted by part 2 |
| ResonantCollinearity.ReflectOnRay | 2024/day08/src/main.rs:28-58 | the in-bounds reflection of antenna x through antenna y is the first step of part 2's loop from y away from x |
| ResonantCollinearity.Part1WithinPart2 | 2024/day08/src/main.rs:34-70 | every in-bounds part-1 antinode is a part-2 antinode, so part 1's answer never exceeds part 2's |
| DiskFragmenter.Repeat | 2024/day09/src/main.rs:22-23 | `repeat_n` gives n copies of its block |
| DiskFragmenter.Layout | 2024/day09/src/main.rs:15-26 | the expanded disk has as many blocks as the digits of the disk map add up to |
| DiskFragmenter.LayoutSpec | 2024/day09/src/main.rs:15-26 | file id x occupies exactly `dm[2x]` blocks of the expanded disk, and ids past the last chunk occupy none |
| DiskFragmenter.CompactKeepsBlocks | 2024/day09/src/main.rs:31-40 | compaction keeps every file block exactly once: the compacted ids are the disk's file ids as a multiset |
| DiskFragmenter.CompactFromFront | 2024/day09/src/main.rs:32-39 | a file block under the left pointer is placed where it is |
| DiskFragmenter.CompactFromBack | 2024/day09/src/main.rs:32-35 | a free block under the left pointer drops a trailing free block, or takes the last file block before the right pointer |
| DiskFragmenter.CompactDropsTrailingGap | 2024/day09/src/main.rs:32-35 | with a free block under the left pointer and a free block last, dropping the last block keeps the compacted file blocks those of the disk |
| DiskFragmenter.CompactFillsGap | 2024/day09/src/main.rs:32-39 | with a free block under the left pointer and a file block last, moving the last block into the gap keeps them as well |
| DiskFragmenter.CompactStep | 2024/day09/src/main.rs:31-40 | one round of the two-pointer loop keeps left <= right and the invariant that the placed blocks followed by the compacted window form the compacted disk, and narrows the window |
| DiskFragmenter.CompactChecksum | 2024/day09/src/main.rs:28-42 | the two-pointer loop ends with the sum of position times id over the compacted disk |
| DiskFragmenter.SolvePart1 | 2024/day09/src/main.rs:14-43 | part 1 is the checksum of the expanded disk map after every free block left of the meeting point takes the rightmost remaining file block |
| DiskFragmenter.Ranges | 2024/day09/src/main.rs:46-57 | the chunk loop yields one file and one span per chunk, the spans in increasing disjoint order |
| DiskFragmenter.RangesFiles | 2024/day09/src/main.rs:49-52 | file k has id k and length `dm[2k]` |
| DiskFragmenter.RangesAdjacent | 2024/day09/src/main.rs:48-57 | each span starts where its file ends and the next file starts where the span ends, from block 0 |
| DiskFragmenter.SpacesFollowFiles | 2024/day09/src/main.rs:48-57 | each span starts at the block just past its file |
| DiskFragmenter.FilesFollowSpaces | 2024/day09/src/main.rs:48-57 | each span ends where the next file starts, and the first file starts at the given block |
| DiskFragmenter.RangeSumClosedForm | 2024/day09/src/main.rs:68-70 | the sum of positions start..start+len is len * (2 start + len - 1) / 2 |
| DiskFragmenter.FindSpace | 2024/day09/src/main.rs:61-63 | a found span index lies in the searched part of the list |
| DiskFragmenter.FindSpaceSpec | 2024/day09/src/main.rs:61-63 | the search returns the leftmost span that ends at or before the file's start and can hold the file, and None iff there is none |
| DiskFragmenter.Place | 2024/day09/src/main.rs:61-71 | placing a file keeps its id and length, either leaves it where it was or puts it wholly before its old start, and keeps the spans ordered and disjoint |
| DiskFragmenter.ShrinkKeepsWellFormed | 2024/day09/src/main.rs:67 | consuming the front of a span by the file's length keeps the spans ordered and disjoint |
| DiskFragmenter.MoveKeeps | 2024/day09/src/main.rs:60-72 | processing the files from the highest id down places every file, with its id and length, either where it was or wholly to the left of its old start |
| DiskFragmenter.Move | 2024/day09/src/main.rs:59-74 | the reversed loop returns one placement per file, and the checksum it accumulates is the sum over the final placements of id times the sum of the positions the file occupies; MoveKeeps adds that each file keeps its id and length and stays or moves wholly left |
| DiskFragmenter.SolvePart2 | 2024/day09/src/main.rs:45-75 | part 2's answer is the checksum of the final placements of all files, read off the file and gap ranges of the disk map |
| DiskFragmenter.Part2Placement | 2024/day09/src/main.rs:45-75 | in part 2 file k keeps id k and length `dm[2k]` and either stays put or moves wholly to its left |
| HoofIt.TrailLength | 2024/day10/src/main.rs:24-37 | a hiking trail from height e has 10 - e cells and ends on a 9, so the recursion is at most ten deep |
| HoofIt.TrailsExact | 2024/day10/src/main.rs:52-74 | the trails enumerated from a cell at height e are exactly the sequences of orthogonal +1 steps from that cell up to a 9 |
| HoofIt.Dfs1 | 2024/day10/src/main.rs:15-38 | the part-1 search only adds to the set it is given |
| HoofIt.EndsOfTrails | 2024/day10/src/main.rs:29-37 | the 9s reachable from a matching cell below 9 are those reachable from its four neighbours at height e + 1 |
| HoofIt.Dfs1Ends | 2024/day10/src/main.rs:15-38 | the part-1 search adds exactly the end cells of the trails from its start: nothing off the grid or on a wrong height, the cell itself on a 9 |
| HoofIt.ScoreCharacterization | 2024/day10/src/main.rs:40-48 | a cell's score set holds exactly the 9s reached by some trail from it, and a cell that is not a 0 scores 0 |
| HoofIt.Dfs2 | 2024/day10/src/main.rs:51-62 | the part-2 search returns the number of distinct trails from its start: none off the map or at the wrong height, one at a summit |
| HoofIt.Dfs2Climb | 2024/day10/src/main.rs:64-72 | below a summit, the sum over the four neighbours is the number of distinct trails from the cell |
| HoofIt.TrailsEnds | 2024/day10/src/main.rs:53-62 | no trail starts off the map or at a cell of the wrong height, and a summit of the right height is a one-cell trail |
| HoofIt.TrailsSplitCard | 2024/day10/src/main.rs:65-73 | the trails from a cell below 9 are the trails from its four neighbours, none counted twice |
| HoofIt.ScoreAtMostRating | 2024/day10/src/main.rs:40-82 | a cell's score never exceeds its rating |
| HoofIt.Part1AtMostPart2 | 2024/day10/src/main.rs:40-82 | the total score never exceeds the total rating |
| HoofIt.TrailsFromMeaning | 2024/day10/src/main.rs:76-82 | the trails counted over the whole map are exactly the hiking trails from a 0 |
| HoofIt.HeadSummitsMeaning | 2024/day10/src/main.rs:40-48 | the pairs counted over the whole map are exactly the trailheads with each 9 some trail from them reaches |
| HoofIt.PairCard | 2024/day10/src/main.rs:43-45 | one trailhead's pairs number its reached 9s |
| HoofIt.RowRatingsCount | 2024/day10/src/main.rs:78-80 | a row's ratings from column j on number the trails starting there |
| HoofIt.TrailsFromSplit | 2024/day10/src/main.rs:77-81 | the trails from rows i onwards are those of row i and those of the later rows, none shared |
| HoofIt.RowScoresCount | 2024/day10/src/main.rs:42-46 | a row's scores from column j on number the (trailhead, reached 9) pairs starting there |
| HoofIt.HeadSummitsSplit | 2024/day10/src/main.rs:41-47 | the pairs from rows i onwards are those of row i and those of the later rows, none shared |
| HoofIt.TotalScoresCount | 2024/day10/src/main.rs:40-48 | the scores summed over rows i onwards number the (trailhead, 9) pairs with the trailhead in those rows |
| HoofIt.TotalRatingsCount | 2024/day10/src/main.rs:76-82 | the ratings summed over rows i onwards number the trails starting in those rows |
| HoofIt.NoRowsLeft | 2024/day10/src/main.rs:41 | past the last row there is no trail and no (trailhead, 9) pair to count |
| HoofIt.TotalsOrdered | 2024/day10/src/main.rs:40-82 | over rows i onwards, the summed scores never exceed the summed ratings |
| HoofIt.SolvePart1 | 2024/day10/src/main.rs:40-48 | the total score is the number of distinct (trailhead, 9) pairs joined by a hiking trail |
| HoofIt.SolvePart2 | 2024/day10/src/main.rs:76-82 | the total rating is the number of distinct hiking trails on the map |
| PlutonianPebbles.Blink | 2024/day11/src/main.rs:33-47 | one blink turns a stone into one or two stones |
| PlutonianPebbles.BlinkRules | 2024/day11/src/main.rs:33-47 | stone 0 becomes 1; a stone with an even number of digits becomes the numeric values of the two halves of its decimal text, so leading zeros vanish; any other stone becomes stone * 2024 |
| PlutonianPebbles.BlinkAll | 2024/day11/src/main.rs:14-22 | one blink of the whole line never shortens it, since each stone becomes one or two |
| PlutonianPebbles.ExpandAppend | 2024/day11/src/main.rs:14-22 | stones evolve independently: blinking a concatenated line gives the concatenation of the blinked parts |
| PlutonianPebbles.Count | 2024/day11/src/main.rs:24-52 | the memo-free recursion of `count_resulting_stones`: a stone never turns into fewer than one stone; CountIsLength pins the count down to the length of the line the stone becomes |
| PlutonianPebbles.CountOfSplit | 2024/day11/src/main.rs:39-44 | an even-digit stone counts what its two halves count with one blink fewer |
| PlutonianPebbles.CountIsLength | 2024/day11/src/main.rs:24-52 | the recursive count is the length of the line a single stone becomes after the given blinks; with 0 blinks it is 1 |
| PlutonianPebbles.CountResultingStones | 2024/day11/src/main.rs:24-52 | `count_resulting_stones` returns the true count whatever valid memo it is handed, and hands back a memo that is still valid and keeps every earlier key |
| PlutonianPebbles.BlinkOnce | 2024/day11/src/main.rs:33-48 | applying the three rules and recursing gives the true count and keeps the memo valid |
| PlutonianPebbles.MemoExtend | 2024/day11/src/main.rs:50 | recording a true count keeps every memo entry equal to the recursive count |
| PlutonianPebbles.Solve | 2024/day11/src/main.rs:14-22 | the answer is the number of stones after the blinks, at least one per initial stone |
| PlutonianPebbles.SolvePart1 | 2024/day11/src/main.rs:14-17 | part 1 is the number of stones after 25 blinks |
| PlutonianPebbles.SolvePart2 | 2024/day11/src/main.rs:19-22 | part 2 is the number of stones after 75 blinks |
| GardenGroups.NeighboursSymmetric | 2024/day12/src/main.rs:116-118 | the four-neighbour relation used by the flood fill is symmetric |
| GardenGroups.ConnectedSymmetric | 2024/day12/src/main.rs:120-124 | being in the same region is symmetric: a same-plant walk can be walked back |
| GardenGroups.ConnectedTransitive | 2024/day12/src/main.rs:120-124 | being in the same region is transitive |
| GardenGroups.RegionOnePlant | 2024/day12/src/main.rs:121 | every plot reachable from p over same-plant steps lies on the map and grows p's plant |
| GardenGroups.Put | 2024/day12/src/main.rs:112 | writing a label keeps the shape of the label table; PutEffect states which entry changes |
| GardenGroups.PutEffect | 2024/day12/src/main.rs:112 | labelling an unlabelled plot changes that plot only and removes it from the unlabelled set |
| GardenGroups.FloodFill | 2024/day12/src/main.rs:108-126 | returns false and changes nothing when p is already labelled; otherwise labels p, keeps every earlier label, gives val only to plots in p's region, and leaves every newly labelled plot with all its same-plant neighbours labelled |
| GardenGroups.FillInvStep | 2024/day12/src/main.rs:120-124 | after recursing into the k-th same-plant neighbour the fill invariant holds for the first k + 1 neighbours |
| GardenGroups.FillInvDone | 2024/day12/src/main.rs:120-125 | once all four neighbours are handled every newly labelled plot has its whole same-plant neighbourhood labelled |
| GardenGroups.ConsistentAfterFill | 2024/day12/src/main.rs:136-141 | a fill with a fresh region number keeps "two labelled plots share a label exactly when they are in one region" |
| GardenGroups.LabelStep | 2024/day12/src/main.rs:137-141 | the region counter goes up exactly when the fill at (i, j) reports true |
| GardenGroups.LabelRegions | 2024/day12/src/main.rs:131-144 | every plot gets a label below the region count, and two plots share a label if and only if a same-plant walk joins them |
| GardenGroups.LabelDone | 2024/day12/src/main.rs:136-144 | after the last row every plot carries a label below the region count, equal labels meaning exactly one region |
| GardenGroups.SameLabelIffConnected | 2024/day12/src/main.rs:131-144 | with every plot labelled, equal labels hold exactly for plots of one region, in both directions |
| GardenGroups.CellSides | 2024/day12/src/main.rs:27-36 | the fence sides of a plot are the number of its four neighbours that are off the map or in another region |
| GardenGroups.SideCountIsCard | 2024/day12/src/main.rs:32-36 | the counted perimeter contribution is the size of the set of exposed directions |
| GardenGroups.FencedIffPlantChanges | 2024/day12/src/main.rs:33 | with a correct labelling a side is fenced exactly when the neighbour is off the map or grows another plant |
| GardenGroups.QuadrantCornerIff | 2024/day12/src/main.rs:70-75 | a quadrant adds one corner exactly when its two orthogonal neighbours are both inside or both outside the region, except when the diagonal is also inside |
| GardenGroups.QuadrantsCountOutlineCorners | 2024/day12/src/main.rs:70-96 | the four quadrant tests around a lattice point, summed over the plots of one region, count the corners of the region's outline at that point (two at a diagonal touch) |
| GardenGroups.GetNeighborhood | 2024/day12/src/main.rs:46-58 | returns a 3 by 3 window whose entry (a, b) is the label at (i - 1 + a, j - 1 + b), or the off-map marker |
| GardenGroups.NeighborhoodEntries | 2024/day12/src/main.rs:47-55 | the window's centre is the plot's own label, and an entry is the off-map marker exactly when its position is off the map |
| GardenGroups.CornerCount | 2024/day12/src/main.rs:70-96 | a plot contributes at most four corners, one per quadrant |
| GardenGroups.CornersAt | 2024/day12/src/main.rs:66-96 | the corners added for plot (i, j) are the corner count of its neighbourhood window |
| GardenGroups.AreaIsCard | 2024/day12/src/main.rs:25 | the area tallied for region r is the number of plots labelled r |
| GardenGroups.MeasureAtMostFourAreas | 2024/day12/src/main.rs:31-36 | a region's perimeter or corner tally is at most four times its area |
| GardenGroups.TallyCell | 2024/day12/src/main.rs:24-36 | visiting plot (i, j) adds its measure to its own region's entry and leaves the running tallies equal to the per-region totals over the plots visited |
| GardenGroups.PriceOf | 2024/day12/src/main.rs:40-42 | zipping areas with the second tally and summing the products gives the price over all regions |
| GardenGroups.SolvePart1 | 2024/day12/src/main.rs:18-43 | the answer is the sum over regions of area times perimeter |
| GardenGroups.SolvePart2 | 2024/day12/src/main.rs:45-105 | the answer is the sum over regions of area times number of corners |
| ClawContraption.DividesExactly | 2024/day13/src/main.rs:33-40 | with truncating division, the remainder is zero and the quotient is b exactly when x is b times the step |
| ClawContraption.BPresses | 2024/day13/src/main.rs:31-43 | the divisibility and equal-quotient checks accept b presses of B after a presses of A exactly when those presses land on the prize, so any b that lands is the one produced |
| ClawContraption.ChecksAccept | 2024/day13/src/main.rs:31-43 | both truncating remainders are zero with both quotients equal to b exactly when b presses of B finish the way to the prize |
| ClawContraption.Keep | 2024/day13/src/main.rs:45-49 | keeping the minimum yields a value no larger than the new cost or the previous best, and is one of the two |
| ClawContraption.NoCandidateAfterStop | 2024/day13/src/main.rs:27-29 | once the stopping test fires, no larger number of A presses can win, so breaking loses nothing |
| ClawContraption.Scan | 2024/day13/src/main.rs:23-50 | the loop never loses the best cost it started with, and any other cost it reports is 3a + b for some a from the current count up to 100 and some b that land on the prize |
| ClawContraption.AcceptedIsCandidate | 2024/day13/src/main.rs:23-43 | inside the loop, the B presses the checks accept are exactly the winning ways for this number of A presses |
| ClawContraption.ScanFindsFewest | 2024/day13/src/main.rs:22-50 | the loop from a onward returns nothing exactly when there is no earlier best and no win from a onward, and otherwise the least cost among the earlier best and every later win |
| ClawContraption.FewestNone | 2024/day13/src/main.rs:23-29 | with no way to win from a presses of A on, the best so far is the answer from a on |
| ClawContraption.FewestSkip | 2024/day13/src/main.rs:31-43 | skipping a number of A presses with no way to win keeps the cheapest from the next one on |
| ClawContraption.FewestTake | 2024/day13/src/main.rs:45-49 | keeping the single win at a presses of A in the minimum turns the cheapest from a + 1 on into the cheapest from a on |
| ClawContraption.MachineTokens | 2024/day13/src/main.rs:17-50 | a machine yields no cost exactly when no way to win exists, and otherwise the fewest tokens 3a + b over all ways to win |
| ClawContraption.SolvePart1 | 2024/day13/src/main.rs:14-55 | the answer sums each machine's fewest tokens, 0 for a machine that cannot be won; under the intended stopping test it is never negative |
| ClawContraption.IntendedTokensNonNegative | 2024/day13/src/main.rs:40-48 | with the intended test the fewest tokens of a winnable machine are never negative |
| ClawContraption.NegativePressesCounted | 2024/day13/src/main.rs:27-48 | for A = (10, 10), B = (1, 1), prize (20, 20) the code as written counts a way to win with a negative number of B presses and reports at most -680 tokens, where the intended answer is 6 |
| ClawContraption.NegativeWin | 2024/day13/src/main.rs:27-48 | as written, 100 presses of A and -980 of B count as a win on that machine, so the cost found is at most -680 |
| ClawContraption.CheapestWin | 2024/day13/src/main.rs:23-49 | as intended, the fewest tokens on that machine are 6 |
| ClawContraption.TwoZeroWins | 2024/day13/src/main.rs:31-43 | as intended, 2 presses of A and none of B win on that machine |
| ClawContraption.NoCheaperWin | 2024/day13/src/main.rs:23-49 | as intended, every win on that machine costs at least 6 tokens |
| ClawContraption.FewestIsTokens | 2024/day13/src/main.rs:22-50 | a win no other win undercuts fixes the answer of any search meeting the contract of the per-machine cost |
| ClawContraption.BigStepStopsTooSoon | 2024/day13/src/main.rs:27-29 | for A = (30, 1), B = (1, 1), prize (20, 20) the test as written stops before trying 0 presses of A and finds nothing, where 20 presses of B win |
| ClawContraption.OnlyWayToWin | 2024/day13/src/main.rs:23-43 | for that machine the only win is 0 presses of A and 20 of B |
| RestroomRedoubt.PositionAfter | 2024/day14/src/main.rs:20-21 | after any number of seconds a robot is on the 101 by 103 floor |
| RestroomRedoubt.Step | 2024/day14/src/main.rs:20-21 | one second of motion stays on the floor and lands a whole number of floor widths and heights away from position plus velocity |
| RestroomRedoubt.WalkIsPositionAfter | 2024/day14/src/main.rs:20-21 | jumping straight to second t with one Euclidean remainder lands where moving one wrapped step per second does |
| RestroomRedoubt.Bump | 2024/day14/src/main.rs:23-39 | the four independent side tests add one to exactly the counter of the robot's quadrant, and to none when it is on the middle column or row |
| RestroomRedoubt.CountedStep | 2024/day14/src/main.rs:19-40 | after robot k is handled each counter holds the number of robots among the first k + 1 in its quadrant |
| RestroomRedoubt.SolvePart1 | 2024/day14/src/main.rs:17-43 | the safety factor is the product of the four quadrant populations after 100 seconds |
| RestroomRedoubt.PopulationIsCount | 2024/day14/src/main.rs:28-39 | a quadrant's population is the number of robot indices that land in it |
| RestroomRedoubt.QuadrantsPartition | 2024/day14/src/main.rs:23-39 | every robot is in exactly one quadrant or on a middle line |
| RestroomRedoubt.PopulationsAtMostRobots | 2024/day14/src/main.rs:28-39 | the four populations together count each robot at most once |
| WarehouseWoes.Put | 2024/day15/src/main.rs:34-36 | writing one tile keeps the map's shape; PutTile states that only that tile changes |
| WarehouseWoes.PutTile | 2024/day15/src/main.rs:34-36 | writing one tile changes that tile only |
| WarehouseWoes.CellsAfterPut | 2024/day15/src/main.rs:34-36 | after writing t at p, the tiles showing ch are the old ones without p, plus p when t is ch |
| WarehouseWoes.StepInside | 2024/day15/src/main.rs:25-31 | on a walled map a step from any non-wall tile stays on the map, so the unchecked indexing never leaves it |
| WarehouseWoes.GpsSum | 2024/day15/src/main.rs:85-92 | `gps_sum` is never negative and is 0 on a map without the tile; GpsSumAfterPut states how one write changes it |
| WarehouseWoes.GpsSumAfterPut | 2024/day15/src/main.rs:85-92 | writing one tile changes the GPS sum by that tile's GPS value, taken out if it showed the tile and added if it now does |
| WarehouseWoes.FirstNonBox | 2024/day15/src/main.rs:26-31 | the scan past the boxes ahead ends on the map at a tile that is not a box, no farther than the wall, and moves only when it starts on a box |
| WarehouseWoes.Move1Keeps | 2024/day15/src/main.rs:24-39 | a part 1 move keeps the map walled in with one robot, keeps every wall and the number of boxes, succeeds exactly when the first tile past the boxes ahead is not wall, so a stray byte there is floor that the box overwrites, and changes nothing when blocked |
| WarehouseWoes.Move1 | 2024/day15/src/main.rs:24-39 | a part 1 move keeps the map's shape, leaves the robot in place or one step along the move, and changes nothing when the robot stays |
| WarehouseWoes.PushWrites | 2024/day15/src/main.rs:33-38 | the three writes of a successful move, onto the first tile past the boxes that is neither box nor wall, leave the robot on its new tile as the only robot, with the same walls and number of boxes |
| WarehouseWoes.Move1Gps | 2024/day15/src/main.rs:33-38 | a push of a row of boxes changes the GPS sum as if the first box jumped to the free tile, and a blocked move or a plain step changes nothing |
| WarehouseWoes.Run1 | 2024/day15/src/main.rs:20-42 | after all part 1 moves the map is still walled in with one robot, the same walls and the same number of boxes |
| WarehouseWoes.SolvePart1 | 2024/day15/src/main.rs:20-42 | the answer is the GPS sum of the boxes after every move, on a map still walled in with one robot, the same walls and the same number of boxes |
| WarehouseWoes.WidenRow | 2024/day15/src/main.rs:118-128 | a widened row is twice as long |
| WarehouseWoes.WidenRowAt | 2024/day15/src/main.rs:118-128 | tile m of a widened row is half m % 2 of the widened tile m / 2 |
| WarehouseWoes.NarrowWiden | 2024/day15/src/main.rs:117-133 | for rows of `#O.@`, narrowing back each widened pair gives the original row, so widening loses nothing |
| WarehouseWoes.Widen | 2024/day15/src/main.rs:117-133 | the widened map has as many rows, each twice as long; WidenRowAt gives each widened tile and WidenKeepsWarehouse the shape of the result |
| WarehouseWoes.WidenKeepsWarehouse | 2024/day15/src/main.rs:45-47 | widening a walled map with one robot at column c, whatever other bytes it holds, gives a walled map of `#[].@` only, whole boxes, and the robot the only `@`, at column 2c |
| WarehouseWoes.WidenPaired | 2024/day15/src/main.rs:117-133 | every `[` of a widened map has its `]` to its right, and every `]` its `[` to its left |
| WarehouseWoes.WidenRobot | 2024/day15/src/main.rs:45-47 | after widening the only robot tile is at the doubled column |
| WarehouseWoes.PushVertically | 2024/day15/src/main.rs:94-115 | a vertical push that does not panic leaves a map of the same shape |
| WarehouseWoes.PushSpec | 2024/day15/src/main.rs:94-115 | on a walled map of whole boxes with no robot ahead, a vertical push never panics, keeps walls and whole boxes, touches nothing behind its starting row, and on success leaves floor at pos |
| WarehouseWoes.PushBoxSpec | 2024/day15/src/main.rs:104-114 | pushing a whole box never panics under the same conditions, and on success leaves floor under both halves of the box |
| WarehouseWoes.PushBox | 2024/day15/src/main.rs:104-114 | pushing a box that does not panic leaves a map of the same shape |
| WarehouseWoes.MoveBoxKeeps | 2024/day15/src/main.rs:107-111 | moving a box into the two cleared tiles ahead keeps walls and whole boxes and clears its old tiles |
| WarehouseWoes.BoxMovedPaired | 2024/day15/src/main.rs:107-111 | the four writes of a box move keep every box whole |
| WarehouseWoes.VerticalPushSafe | 2024/day15/src/main.rs:53-55 | in the wide warehouse a vertical move's push starts on the map with no robot ahead and never panics |
| WarehouseWoes.MoveVerticallyKeeps | 2024/day15/src/main.rs:53-61 | a vertical move keeps the wide warehouse well formed with the same walls, moves the robot exactly when the push succeeds, and otherwise changes nothing |
| WarehouseWoes.MoveVertically | 2024/day15/src/main.rs:53-61 | a vertical move keeps the map's shape, leaves the robot in place or one row along the move, and changes nothing when the robot stays |
| WarehouseWoes.RunEnd | 2024/day15/src/main.rs:64-67 | the horizontal scan stops at the first tile that is not a box half, everything between being box halves |
| WarehouseWoes.ShiftRun | 2024/day15/src/main.rs:69-72 | the copy loop shifts the tiles from the scan's end back to the destination one step along the move, leaving the rest of the row alone |
| WarehouseWoes.MoveHorizontally | 2024/day15/src/main.rs:62-77 | when the scan ends on floor the robot steps and the row is shifted, other rows untouched; otherwise nothing changes; either way the wide warehouse stays well formed with the same walls |
| WarehouseWoes.ShiftedRow | 2024/day15/src/main.rs:64-76 | a shifted row keeps its boxes whole, its walls in place, and shows the robot at the destination only |
| WarehouseWoes.PairedRows | 2024/day15/src/main.rs:117-133 | boxes are whole in the map exactly when they are whole in every row |
| WarehouseWoes.Move2 | 2024/day15/src/main.rs:49-80 | a part 2 move keeps the wide warehouse well formed with the same walls |
| WarehouseWoes.Run2 | 2024/day15/src/main.rs:44-83 | after all part 2 moves the wide warehouse is still well formed, with the same walls |
| WarehouseWoes.SolvePart2 | 2024/day15/src/main.rs:44-83 | the answer is the GPS sum of the `[` tiles of a well-formed wide warehouse with the walls of the widened map |
| ReindeerMaze.Edges | 2024/day16/src/main.rs:64-78 | every expansion pushes three states: one step straight on at cost 1, and one step in each of the two perpendicular headings at cost 1001 |
| ReindeerMaze.EdgeCostOfEdges | 2024/day16/src/main.rs:64-78 | each pushed state is a move of the walk relation at exactly the cost pushed with it |
| ReindeerMaze.EdgeIsIndexed | 2024/day16/src/main.rs:64-78 | every move of the walk relation is one of the three pushes, with the same cost |
| ReindeerMaze.MinimumExists | 2024/day16/src/main.rs:29-38 | a non-empty heap always holds an entry of least score, which is what the reversed ordering pops |
| ReindeerMaze.Frontier | 2024/day16/src/main.rs:54-79 | under the loop invariant every walk from the start is accounted for: its end is at the end cell with the best score at most its cost, or some state of it is on the heap with a score no larger than its cost so far |
| ReindeerMaze.PoppedIsOptimal | 2024/day16/src/main.rs:54-62 | a popped state that is expanded for the first time carries the least cost of any walk to it |
| ReindeerMaze.SearchInvAfterDiscard | 2024/day16/src/main.rs:56-62 | popping an entry at the end cell (and taking the minimum) or one that is a wall or already visited keeps the loop invariant |
| ReindeerMaze.Pushes | 2024/day16/src/main.rs:70-78 | the three pushes all score at least one more than the popped entry |
| ReindeerMaze.PushesSound | 2024/day16/src/main.rs:70-78 | every pushed entry's score is the cost of some walk from the start to it, and it lies on the map |
| ReindeerMaze.SoundAfterExpand | 2024/day16/src/main.rs:60-78 | after an expansion every heap entry still scores a real walk |
| ReindeerMaze.ClosedAfterExpand | 2024/day16/src/main.rs:60-78 | expanding a minimum entry that is new keeps every walk accounted for, with the state marked visited at its optimal score |
| ReindeerMaze.DrainedIsLowerBound | 2024/day16/src/main.rs:54-81 | once the heap is empty no walk to the end costs less than the best score |
| ReindeerMaze.SortedAppend | 2024/day16/src/main.rs:54 | entries leave the heap in non-decreasing score order |
| ReindeerMaze.SearchInvInit | 2024/day16/src/main.rs:45-53 | the heap holding only the start facing east at score 0, with nothing visited and the best score usize::MAX, meets the loop invariant |
| ReindeerMaze.GridShrinks | 2024/day16/src/main.rs:60 | inserting a new on-map state into the visited set shrinks the set of unvisited states, which bounds the number of expansions |
| ReindeerMaze.SolvePart1 | 2024/day16/src/main.rs:40-82 | pops come in non-decreasing score order starting with the start entry; no state is expanded twice; the result is usize::MAX or the cost of a walk to the end, and no walk to the end costs less |
| ReindeerMaze.SolvePart1IsMinimum | 2024/day16/src/main.rs:40-82 | when the result is not usize::MAX, it is the cost of some walk to the end and the least cost of any walk to the end |
| ChronospatialComputer.QuotRem8 | 2024/day17/src/main.rs:44 | Rust's truncating `/` and `%` by 8 rebuild x, with a remainder strictly between -8 and 8 that takes x's sign |
| ChronospatialComputer.Quot | 2024/day17/src/main.rs:42 | Rust's `/` on `i64` truncates toward zero: the quotient's magnitude is the largest whose multiple of the divisor stays within the dividend, and its sign is the product of the operands' signs |
| ChronospatialComputer.DivBounds | 2024/day17/src/main.rs:42 | the quotient of naturals is non-negative and bracketed by the dividend |
| ChronospatialComputer.Shl | 2024/day17/src/main.rs:42 | `1 << c` on `i64` is defined exactly for shifts 0 to 63 and gives the `i64` whose bit pattern is 2 to the c, i64::MIN for 63 |
| ChronospatialComputer.Combo | 2024/day17/src/main.rs:33-39 | the combo operand exists exactly for operands 0 to 6, and is an `i64` when the registers are |
| ChronospatialComputer.DivideA | 2024/day17/src/main.rs:42 | A divided by 1 shifted by the combo operand is defined exactly for shifts 0 to 63 and stays an `i64` |
| ChronospatialComputer.QuotInRange | 2024/day17/src/main.rs:42 | dividing an `i64` by a shift result that did not panic stays within `i64`, including the shift by 63 that gives i64::MIN |
| ChronospatialComputer.Xor | 2024/day17/src/main.rs:43 | two's-complement exclusive or of two `i64` values is an `i64` |
| ChronospatialComputer.XorInvolution | 2024/day17/src/main.rs:43 | applying bxl's exclusive or with the same value twice restores B |
| ChronospatialComputer.Show | 2024/day17/src/main.rs:54 | the decimal text of a value is never empty and starts with a digit or a minus sign |
| ChronospatialComputer.EmitJoin | 2024/day17/src/main.rs:50-55 | appending value by value, with a comma before all but the first, builds the comma-separated list of the values printed |
| ChronospatialComputer.StepShape | 2024/day17/src/main.rs:29-62 | a step halts exactly when `ip` is past the program; otherwise registers stay `i64`, jnz jumps to its literal when A is not 0, every other instruction advances `ip` by 2, and only out prints |
| ChronospatialComputer.Execute | 2024/day17/src/main.rs:41-61 | an instruction panics exactly on an opcode above 7 or a division shift outside 0 to 63; otherwise it keeps the registers `i64`, only appends to the output with no leading comma, and jumps to the literal on jnz with A not 0 or else advances by 2 |
| ChronospatialComputer.Step | 2024/day17/src/main.rs:29-62 | a step halts exactly when `ip` is past the program, and otherwise keeps the registers `i64` and only appends to the output |
| ChronospatialComputer.Run | 2024/day17/src/main.rs:29-63 | a run only appends to the output, keeps the registers `i64`, and never puts a comma first |
| ChronospatialComputer.SolvePart1 | 2024/day17/src/main.rs:21-64 | the printed text of a halted run never starts with a comma, and an unfinished run keeps the registers `i64` |
| ChronospatialComputer.StepDivides | 2024/day17/src/main.rs:42-57 | adv, bdv and cdv store A divided by 2 to the combo operand, truncated, into A, B or C; for non-negative A that is floor division |
| ChronospatialComputer.StepBxl | 2024/day17/src/main.rs:43 | bxl sets B to B xor its literal and advances by 2 |
| ChronospatialComputer.StepBst | 2024/day17/src/main.rs:44 | bst sets B to the combo operand's truncated remainder by 8 and advances by 2 |
| ChronospatialComputer.StepJnz | 2024/day17/src/main.rs:45-48 | jnz jumps to its literal when A is not 0 and otherwise advances by 2 |
| ChronospatialComputer.StepBxc | 2024/day17/src/main.rs:49 | bxc sets B to B xor C and advances by 2 |
| ChronospatialComputer.BxlTwice | 2024/day17/src/main.rs:43 | two bxl with the same literal leave every register as it was |
| ChronospatialComputer.StepPrints | 2024/day17/src/main.rs:50-55 | out appends the combo operand's truncated remainder by 8 to the printed list |
| ChronospatialComputer.RunSettled | 2024/day17/src/main.rs:29-63 | once a run has halted or panicked, a larger step budget ends it the same way |
| ChronospatialComputer.RulesAgree | 2024/day17/src/main.rs:33-39 | wherever the combo operand is defined, evaluating it before looking at the opcode changes nothing |
| ChronospatialComputer.LiteralInstructionsRun | 2024/day17/src/main.rs:41-49 | as intended, bxl, jnz and bxc never panic, whatever their operand |
| ChronospatialComputer.BxlSevenPanics | 2024/day17/src/main.rs:33-43 | for the program `1,7` the code as written panics at once, whatever the registers, while as intended it sets B to B xor 7 and halts with nothing printed |
| RamRun.NeighborNotNegative | 2024/day18/src/main.rs:45-50 | the wrapped subtraction never yields a negative coordinate: 0 - 1 becomes usize::MAX, which the bounds test then rejects |
| RamRun.ReachMonotone | 2024/day18/src/main.rs:44-62 | whatever is reachable in i moves is reachable in any j >= i moves |
| RamRun.ReachOpen | 2024/day18/src/main.rs:53 | every reachable cell other than the start is inside the memory space and not blocked |
| RamRun.ClosedHoldsReach | 2024/day18/src/main.rs:52-61 | a set holding the start and closed under open neighbours holds everything reachable |
| RamRun.LevelDone | 2024/day18/src/main.rs:44-61 | when the queue holds only distances beyond d, every cell within d moves has been expanded |
| RamRun.ExactAppend | 2024/day18/src/main.rs:59-60 | queueing a cell with its true distance keeps every queued distance exact |
| RamRun.LevelsAppend | 2024/day18/src/main.rs:60 | appending distance d + 1 behind entries of distance d or d + 1 keeps the queue sorted with at most two levels |
| RamRun.NewNeighbor | 2024/day18/src/main.rs:52-60 | an open, unvisited neighbour of a cell at distance d is at distance exactly d + 1 |
| RamRun.QueueNeighbor | 2024/day18/src/main.rs:59-60 | marking such a neighbour visited and queueing it with d + 1 keeps the expansion invariant |
| RamRun.SkipNeighbor | 2024/day18/src/main.rs:53-55 | skipping a neighbour that is off the space, blocked or already visited keeps the expansion invariant |
| RamRun.FinishExpanding | 2024/day18/src/main.rs:44-61 | after all four neighbours the breadth-first invariant holds again: exact distances, two levels in order, and every cell one level behind the front expanded |
| RamRun.SearchStarts | 2024/day18/src/main.rs:38-42 | the start marked visited and queued at distance 0 meets the invariant |
| RamRun.Drained | 2024/day18/src/main.rs:44-64 | an empty queue means the end is the start or cannot be reached at all |
| RamRun.Expand | 2024/day18/src/main.rs:45-61 | returning at a neighbour equal to the end means the end is exactly one move farther than the cell expanded; otherwise the invariant is restored and the queue only grows by fresh cells |
| RamRun.Bfs | 2024/day18/src/main.rs:37-65 | Some(d) is the fewest moves from the corner to the end, and None means the end is the corner itself or unreachable |
| RamRun.SolvePart1 | 2024/day18/src/main.rs:17-23 | with the first 1024 bytes fallen the answer is the fewest moves to the exit; there is none (a panic) exactly when one of those bytes lies outside the memory space or no path is left, and bytes after the first 1024 are never looked at |
| RamRun.FirstBlocking | 2024/day18/src/main.rs:25-35 | the loop stops at the first byte whose fall cuts every path to the exit, or panics at the first byte outside the memory space if that comes earlier; when it runs to the end every byte is inside and none cuts the exit off |
| RamRun.SolvePart2 | 2024/day18/src/main.rs:25-35 | the answer is "No answer found" exactly when every byte lies inside and none cuts the exit off; otherwise it is the coordinates "x,y" of the first byte that does, or a panic (`None`) at a byte outside the space that comes before any cut |
| RamRun.NotNoAnswer | 2024/day18/src/main.rs:30-34 | no pair of coordinates prints as "No answer found", so the two outcomes cannot be confused |
| Trie.New | 2024/day19/src/trie.rs:9-11 | a new trie has no end flag, no children, and contains no word |
| Trie.Get | 2024/day19/src/trie.rs:34-36 | `get` finds a child exactly when one is stored under that character, and returns that child |
| Trie.Contains | 2024/day19/src/trie.rs:23-32 | a word is contained exactly when following its characters never falls off the trie and ends on a node with the end flag |
| Trie.WalkSnoc | 2024/day19/src/trie.rs:24-30 | following w then c is following w and then taking c's child |
| Trie.Insert | 2024/day19/src/trie.rs:13-20 | after inserting s the trie contains exactly the words it contained before plus s |
| Trie.FromIter | 2024/day19/src/trie.rs:43-50 | a trie built from a list of words contains exactly the words of the list |
| LinenLayout.ConcatCons | 2024/day19/src/main.rs:61-68 | a layout that starts with pattern p spells p followed by what the rest spells |
| LinenLayout.LayoutsSound | 2024/day19/src/main.rs:54-73 | every sequence of patterns the first-pattern recursion builds spells s out of non-empty stored patterns |
| LinenLayout.LayoutsComplete | 2024/day19/src/main.rs:54-73 | every way of spelling s out of non-empty stored patterns is built by that recursion |
| LinenLayout.ConsLayout | 2024/day19/src/main.rs:54-73 | a non-empty stored pattern in front of a layout of t is a layout of the pattern followed by t |
| LinenLayout.LayoutsExact | 2024/day19/src/main.rs:54-73 | the enumerated layouts of a design are exactly the lists of non-empty stored patterns that spell it |
| LinenLayout.LayoutsCard | 2024/day19/src/main.rs:54-73 | the number of ways the counting recurrence gives is the number of distinct layouts |
| LinenLayout.WaysPositive | 2024/day19/src/main.rs:54-73 | a non-empty design has a positive number of ways exactly when it can be cut into stored patterns |
| LinenLayout.IsPossible | 2024/day19/src/main.rs:29-42 | on a non-empty rest the check from a node succeeds exactly when some prefix of the rest is a word below the node and the remainder is empty or splits into patterns from the root |
| LinenLayout.NoFirstStep | 2024/day19/src/main.rs:31-33 | without a child for the first character no prefix is a word below the node, so returning false loses nothing |
| LinenLayout.IsPossibleStep | 2024/day19/src/main.rs:30-41 | trying the root after a pattern ends on the first character, then carrying on below it, covers every prefix of the rest |
| LinenLayout.DesignIsPossible | 2024/day19/src/main.rs:28-45 | a non-empty design is possible exactly when it can be cut into stored patterns; the empty design exactly when the empty pattern was stored |
| LinenLayout.SolvePart1 | 2024/day19/src/main.rs:22-26 | the number of possible designs is at most the number of designs |
| LinenLayout.Tally | 2024/day19/src/main.rs:60-69 | walking the trie along a suffix and adding the count past every pattern found gives the suffix's number of ways |
| LinenLayout.NoLongerPatterns | 2024/day19/src/main.rs:62-64 | once the walk falls off the trie no longer prefix is a pattern, so breaking loses nothing |
| LinenLayout.CountArrangements | 2024/day19/src/main.rs:54-73 | the count is the number of ways, which is the number of distinct layouts of the design |
| LinenLayout.SolvePart2 | 2024/day19/src/main.rs:48-52 | the answer is the sum over designs of their numbers of ways |
| LinenLayout.PossibleHaveWays | 2024/day19/src/main.rs:22-52 | with no empty design, the part 1 count never exceeds the part 2 sum: every possible design has at least one layout |
| RaceCondition.Neighbor | 2024/day20/src/main.rs:78-84 | `neighbors` lists up, down, left, right; each differs from the cell in exactly one coordinate, so none is the cell itself even where the subtraction wraps, and each is one unit move away unless it wraps |
| RaceCondition.LayerStep | 2024/day20/src/main.rs:56-71 | from a cell a walk of d moves reaches and may walk through, every in-maze neighbour is reached in d + 1 moves |
| RaceCondition.LayerBack | 2024/day20/src/main.rs:56-71 | every cell reached in n > 0 moves is an in-maze neighbour of a cell reached in n - 1 moves that the walk may pass through |
| RaceCondition.Lower | 2024/day20/src/main.rs:65 | writing a distance changes that entry only and keeps the table's shape |
| RaceCondition.LowerTotal | 2024/day20/src/main.rs:62-65 | lowering one entry lowers the sum of the table by the same amount, which bounds the number of relaxations |
| RaceCondition.Initial | 2024/day20/src/main.rs:47-50 | the initial table has the maze's shape, with 0 at the pinned cell and u64::MAX everywhere else |
| RaceCondition.RelaxFacts | 2024/day20/src/main.rs:57-71 | a relaxation only lowers the neighbour's entry, to the new distance, and queues the neighbour exactly when it lowered it and the cell may be walked through |
| RaceCondition.Relax | 2024/day20/src/main.rs:57-71 | a relaxation keeps the table in the maze's shape with every entry at most u64::MAX |
| RaceCondition.VisitFacts | 2024/day20/src/main.rs:56-72 | handling the four neighbours never raises an entry and never makes the measure of remaining work grow |
| RaceCondition.Visit | 2024/day20/src/main.rs:56-72 | handling the four neighbours keeps the table in the maze's shape with every entry at most u64::MAX |
| RaceCondition.Search | 2024/day20/src/main.rs:55-73 | the queue loop ends with a table of the maze's shape |
| RaceCondition.SearchBelow | 2024/day20/src/main.rs:55-73 | the final table is entry by entry no larger than the one the loop started from |
| RaceCondition.Bfs | 2024/day20/src/main.rs:46-76 | the search returns a table of the maze's shape with 0 at the pinned cell |
| RaceCondition.RelaxSound | 2024/day20/src/main.rs:61-71 | a relaxation from a cell at a walked distance records and queues only lengths of real walks |
| RaceCondition.SearchSound | 2024/day20/src/main.rs:55-73 | throughout the loop every recorded distance below u64::MAX, apart from the pinned 0, is the length of some walk from the start |
| RaceCondition.BfsSound | 2024/day20/src/main.rs:46-76 | every distance the search reports is the pinned 0 or the length of a walk from the start |
| RaceCondition.RelaxVisiting | 2024/day20/src/main.rs:61-71 | after relaxing neighbour k, every neighbour up to k is covered by the table or by the queue |
| RaceCondition.SearchSettles | 2024/day20/src/main.rs:55-73 | once the queue is drained every reached cell the search may walk through has all its neighbours at most one further |
| RaceCondition.SettledComplete | 2024/day20/src/main.rs:55-73 | in a settled table every cell a walk of n moves reaches has a recorded distance of at most n |
| RaceCondition.BfsExact | 2024/day20/src/main.rs:46-76 | with the start pinned, every reported distance is the length of a walk and no walk is shorter: the table holds exact shortest distances |
| RaceCondition.PinnedCornerHidesEnd | 2024/day20/src/main.rs:50 | in the maze Corner, with start (0, 1) and end (2, 0), the end is 3 moves away, yet the search as written never records it; as intended it finds it within 3 |
| RaceCondition.Opened | 2024/day20/src/main.rs:35 | removing a wall keeps the maze's shape |
| RaceCondition.OpenedKeepsWalks | 2024/day20/src/main.rs:35-36 | removing a wall keeps every walk of the original maze |
| RaceCondition.CheatNeverLonger | 2024/day20/src/main.rs:35-37 | for the intended search (start pinned at 0), removing a wall never makes the end farther away |
| RaceCondition.NoOverflowWhenReachable | 2024/day20/src/main.rs:37 | for the intended search (start pinned at 0), when the end is reached and its distance plus 100 fits in u64, no candidate wall makes `new_dist + 100` overflow |
| RaceCondition.TryWall | 2024/day20/src/main.rs:35-40 | knocking the wall out, searching again and putting it back gives the end distance with that wall removed and leaves the maze as it was |
| RaceCondition.Judge | 2024/day20/src/main.rs:31-40 | the test for cell (i, j) panics exactly on an overflowing candidate, and otherwise says whether it is a wall reached before the end whose removal saves at least 100 moves |
| RaceCondition.ScanRow | 2024/day20/src/main.rs:30-41 | one row adds the number of its cells that save at least 100 moves, or panics exactly when one of them overflows |
| RaceCondition.RowHolds | 2024/day20/src/main.rs:29-42 | the counts over the first i + 1 rows are the counts over the first i plus those of row i |
| RaceCondition.ScanRows | 2024/day20/src/main.rs:29-42 | the answer is the number of walls whose removal saves at least 100 moves, or a panic exactly when some candidate's addition overflows |
| RaceCondition.SolvePart1 | 2024/day20/src/main.rs:20-44 | part 1 counts the walls reached before the end whose removal brings the end at least 100 moves closer, and panics exactly when `new_dist + 100` overflows for a candidate |
| Decimal.Digits | 2024/day11/src/main.rs:36-37 | the length of a number's decimal text is the d with 10^(d-1) <= x < 10^d, and 1 for 0 |
| Decimal.Text | 2024/day11/src/main.rs:36-37 | `to_string` of a number is a digit string of exactly that many characters |
| Decimal.ParseText | 2024/day07/src/main.rs:47 | parsing a number's decimal text gives the number back |
| Decimal.DigitRoundTrip | 2024/day07/src/main.rs:47 | the character of a digit reads back as that digit |
| Decimal.ParseSnoc | 2024/day07/src/main.rs:47 | appending a digit to a digit string multiplies its value by 10 and adds the digit |
| Decimal.FrontBackDivMod | 2024/day11/src/main.rs:40-42 | the number written by all but the last k digits is n / 10^k, and the last k digits write n % 10^k |
| Decimal.SplitText | 2024/day11/src/main.rs:40-42 | splitting the decimal text k characters from the end and parsing both halves gives n / 10^k and n % 10^k, leading zeros of the right half vanishing |
| Decimal.DivisionUnique | 2024/day11/src/main.rs:40-42 | quotient and remainder by p are unique, the fact that makes the two halves unique |

## Left out

- Every `main` and `parse_input`: reading standard input, splitting lines, the regular-expression parsers of days 13 and 14, and printing. Parsed values are parameters. The one part of a parser that is modelled is day 12's `flood_fill` and its labelling loop, which compute the regions.
- Days 1 and 3. Day 1 holds no logic, and day 3 is regular-expression matching in a library this model does not include.
- Integer overflow: `i32` in days 2, 5 and 15, `u32` in day 10, and `u64`/`usize` in days 7, 9, 10, 11, 12, 14 (the quadrant counts and their product), 15, 16, 18 and 19, including day 16's score addition `cost + current.score` and day 20's answer counter. Day 13 works in `i64` throughout (button moves, prize, presses and tokens), and so do day 14's positions, velocities, `WIDTH` and `HEIGHT`. In all of these the values are unbounded naturals or integers. In particular `i64` overflow is dropped in days 13 and 14, unlike in day 17, whose registers are shown to stay within `i64`. The places where wrap-around decides a branch are modelled explicitly (see above).
- Library internals. `sort_by`, `BinaryHeap`, `VecDeque`, `HashSet`, `HashMap` and `izip!` are modelled by what they promise, not by how they do it. Day 5 sorts by insertion. Day 16's heap is a multiset from which a minimum-score entry is taken, and ties between equal scores are left open.
- PrintQueue.SortPagesSorted: sortedness and "ordered correctly" are proved only when the rules are a strict total order on the update's pages and the pages are distinct. Otherwise the comparator is not an order, and what `sort_by` returns depends on its algorithm.
- XmasSearch.SolvePart1: requires every row to be long enough for the slices the Rust code takes. On a shorter row those slices panic.
- ReportSafety.IsSafe2: stated for non-empty reports only. Both parts skip empty reports before calling `is_safe`.
- ReportSafety.CountSafe1: states only that the count does not exceed the number of reports. What is counted is pinned down per report by IsSafe1's contract.
- ReportSafety.CountSafe2: the same bound. What is counted is pinned down by IsSafe2's contract.
- GuardPatrol.SolvePart1: the walk takes a step budget, because the Rust loop need not end. A run that exhausts it yields `None`. The map must be rectangular because the walk bounds columns by the first row's length.
- GuardPatrol.Patrol: the visited set is proved to contain the start and only map cells, not to be exactly the set of cells the walk passes.
- PlutonianPebbles.CountResultingStones: the memo is passed in and handed back as a value instead of being borrowed mutably.
- ClawContraption.SolvePart1: requires B's steps to be positive. The Rust code computes `rx % bx` before testing `bx == 0`, so a zero step panics; its own zero test is dead code.
- WarehouseWoes.Run2: the number of boxes is not proved to stay the same in part 2. Walls, whole boxes and a single robot are.
- WarehouseWoes.SolvePart2: names the final map only through an existential, because Run2 is a loop and cannot appear in a contract. The walls, whole boxes and single robot are kept, but the answer is not tied to a particular sequence of moves. VerticalPushSafe shows that no push panics on a well-formed warehouse.
- WarehouseWoes.Run1: requires a rectangular map walled on every edge, because the Rust code indexes without bounds checks.
- ReindeerMaze.SolvePart1: follows the code's costs, 1 for a step and 1001 for a turn fused with a step. No optimal path is reconstructed, since that part is commented out. The maze must be walled in, because `maze[i][j]` is indexed unchecked.
- ChronospatialComputer.SolvePart1: runs take a step budget, because a program may loop forever. Exclusive or is modelled on naturals through two's complement, not on 64-bit vectors.
- RamRun.SolvePart1: the two panics, an index outside the blocked array and the `unwrap` on a failed search, are both the `None` case of the model.
- RamRun.Bfs: the start is fixed to the corner (0, 0), the only start the code uses and the cell it marks visited.
- BridgeRepair.SolvePart2: states only that the pruned sum is at most the true total, because the pruning can reject a true equation with a 0 operand (see Findings). Part2AsWrittenAgrees gives equality when every operand is at least 1.
- ResonantCollinearity.Ray: its own contract says only that the loop inserts its in-bounds start. Which points it inserts is stated by RayCharacterization, and that they are all in bounds by RayInBounds.
- ClawContraption.Scan: its own contract is soundness only. ScanFindsFewest proves the loop finds the fewest tokens.
- RestroomRedoubt.Step: used only to show that stepping second by second agrees with the jump to second 100. The Rust code makes the jump directly.
- WarehouseWoes.Move1: its own contract covers the map's shape and where the robot can go. Move1Keeps and Move1Gps state what happens to walls, boxes and the GPS sum.
- WarehouseWoes.MoveVertically: the same. MoveVerticallyKeeps states the rest.
- WarehouseWoes.PushBox: its own contract is shape only. PushBoxSpec states when it succeeds and what it writes.
- ChronospatialComputer.Run: its own contract covers the registers' range and the output growing by appending. The effect of each instruction is stated by StepDivides (adv, bdv, cdv), StepBxl, StepBst, StepJnz, StepBxc and StepPrints (out), and the output's form by EmitJoin.
- ChronospatialComputer.Step: the same. StepShape states the jump and the advance by 2.
- RaceCondition.Relax: its own contract is shape and range. RelaxFacts states the lowering and the queueing.
- RaceCondition.Visit: the same. VisitFacts states the rest.
- LinenLayout.SolvePart1: states only that the count is at most the number of designs. Each design's test is characterised by DesignIsPossible.
- LinenLayout.SolvePart2: the `u64` sum and counts are unbounded.
- RaceCondition.SolvePart1: the answer counter itself is not checked for overflow, since it never exceeds the number of cells. Under the search as written, only soundness is proved: every distance reported is a walk's length, apart from the pinned 0. Exactness is proved for the intended search.

## Findings

| source | as written | input that shows it | evidently intended | confidence | as-written member | corrected member |
|---|---|---|---|---|---|---|
| 2024/day07/src/main.rs:44-45 | part 2 gives up once the accumulator exceeds the target | target 5, operands 7, 0, 5: 7 * 0 + 5 = 5, but 7 > 5 stops the search (part 1 finds it) | the pruning is safe only when no operand is 0; the search without it is exact | not executed; real puzzle inputs may contain no zero operand | BridgeRepair.PruningMissesZeroOperand | BridgeRepair.Part2ExhaustiveCharacterization |
| 2024/day13/src/main.rs:27-29 | the stopping test compares one press of A (`ax > px`) with the prize, not the distance `x` travelled | A = (10, 10), B = (1, 1), prize (20, 20): the loop runs on to a = 100 and accepts b = -980, giving at most -680 tokens instead of 6 | stop when `x > px \|\| y > py`, so only non-negative B presses count | not executed | ClawContraption.NegativePressesCounted | ClawContraption.IntendedTokensNonNegative |
| 2024/day17/src/main.rs:33-39 | the combo operand is evaluated for every instruction, so operand 7 hits `unreachable!` even where it is a literal | the program `1,7` (bxl 7) panics at once | only adv, bst, out, bdv and cdv evaluate a combo operand | not executed | ChronospatialComputer.BxlSevenPanics | ChronospatialComputer.LiteralInstructionsRun |
| 2024/day20/src/main.rs:50 | the search pins distance 0 on the top left cell, not on the start | the maze Corner, start (0, 1), end (2, 0): the end, 3 moves away, keeps distance `u64::MAX` | `dist[start.0][start.1] = 0` | not executed | RaceCondition.PinnedCornerHidesEnd | RaceCondition.BfsExact |
