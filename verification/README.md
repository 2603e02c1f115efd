# Triton analyses and schedules, modelled and proved

Dafny models of the parts of the Triton compiler that carry real algorithms, with proofs of what those parts are for:
barriers that make shared memory race free, an allocator that terminates and never overlaps live buffers, linear
layouts over the two-element field, permutation factoring, reshape grouping, multi-root topological sorting, and the
concurrency of the layer-norm, interpreter and persistent-matmul kernels.

`dafny verify dfyconfig.toml` checks everything.

| file | what it models |
|---|---|
| Basics.dfy | options, half-open intervals, a few facts about sets, lists and arithmetic |
| Membar.dfy | the state of the barrier analysis (`BlockInfo`) |
| MembarTransfer.dfy | the block transfer function, execution traces, and race freedom of a trace |
| MembarRaces.dfy | race freedom in terms of the intervals that operations read and write |
| MembarAnalysis.dfy | the worklist that edits the program it analyses |
| Allocation.dfy | shared-memory offsets: triple map, interference graph, colouring, bump loop |
| GF2.dfy, RowReduction.dfy | vectors over two elements, spans, annihilators; Gauss-Jordan elimination in place |
| Dimension.dfy | how long independent lists can be, and how far a span must reach into a coordinate subspace |
| LinearSolve.dfy | free variables, rank, least squares, null spaces, on flattened layouts |
| Layouts.dfy, LayoutProducts.dfy, LayoutQuotients.dfy | layouts with named dimensions: apply, compose, product, quotients |
| LayoutMatrix.dfy | flattening a layout to a bit matrix, and deciding surjectivity by its rank |
| LayoutInversion.dfy | `invertAndCompose`: least squares on layouts, identity dimensions |
| InversionGuarantees.dfy | exactly when `invertAndCompose` succeeds and when it chooses the smallest offset |
| SharedDimensions.dfy | what `invertAndCompose` does with dimensions that both layouts share, and with the others |
| Swizzling.dfy | subspace intersection, basis completion, segments with few bank conflicts |
| SwizzleOptimality.dfy | when the conflicts of a segment are the fewest possible |
| PermutationFactoring.dfy | the cycle walk that factors a register/lane permutation |
| ReshapeDecomposition.dfy | grouping of source and destination dimensions |
| TopologicalSort.dfy | depth-first search from many roots over operands and enclosing operations |
| InterpreterAtomics.dfy | compare-and-swap loops as a state machine over one cell |
| LayerNorm.dfy | the lock-protected accumulation as a state machine, and the final reduction |
| TileSchedule.dfy | grouped program ids, persistent and grouped tile loops |

## How the system is represented

- A control-flow graph is a list of virtual blocks with successor lists; a block is a list of operations, each a barrier,
  an asynchronous wait, or an operation with read intervals, write intervals and possibly a scratch buffer. The operation
  list is a field that the analysis changes as it inserts barriers.
- A buffer is a class with a size, an alignment, a live range, an owner region and an offset that the allocator moves.
  `Interval` is half open, its default covers all operation ids, and `setOffsetAligned` rounds up to the alignment
  (include/triton/Analysis/Allocation.h:31-57 and 165). Live ranges are taken as non-empty.
- A vector over two elements is the set of its one-positions, so words have any length. A layout maps every bit of every
  named input dimension to a set of named output bits; sizes are base-two logarithms.
- The external row reduction is replaced by an elimination in place that is proved to keep the row space and to reach
  reduced row echelon form with pivots at the lowest set bit, zero rows last.
- Concurrency is a transition relation whose steps are single memory operations under sequential consistency; theorems
  quantify over every run. Gradients are real numbers.

## Where the code and its comments disagree

- `supremum` is documented to report an error when no supremum exists. Its two error points cannot be reached; it merges
  any two duplicate-free lists, and keeps both orders exactly when they are compatible
  (`LayoutProducts.Supremum`, `LayoutProducts.InconsistentOrdersAreMerged`).
- `divideRight` is documented to compute C with A = C * B if it exists. Its checks skip output dimensions that B lacks:
  `LayoutQuotients.StrayBitIsMissed` is an input that passes all of them although no quotient exists, and
  `LayoutQuotients.RightDivisibleIff` is the exact condition. A comment there expects the quotient of surjective layouts
  to be surjective, and the constructor insists on it; `LayoutQuotients.StrayQuotientIsRejected` is an input on which it
  is not. Without stray bits it is (`LayoutQuotients.RightQuotientSurjective`). For other inputs with stray bits only the
  final assertion stands in the way.
- `computeOffsets` only asserts in a comment that its bump loop ends because offsets always increase;
  `Allocation.OffsetsNeverDecrease` says exactly which do, and `Allocation.BumpLowersRank` is the measure.
- `divideLeft` ends in an assertion that multiplying back gives the dividend. It fails when the divisor lists the same
  dimensions in another order (`LayoutQuotients.LeftAssertionFails`); `LayoutQuotients.DivideLeft` says exactly when.
- The product is documented as associative (include/triton/Tools/LinearLayout.h:618). Sizes and basis vectors are; the
  order of dimensions need not be, even when every two lists that are merged have compatible orders
  (`LayoutProducts.ProductAssociates`, `LayoutProducts.OrderIsNotAssociative`).
- `invertAndCompose` is documented to need the same output names, a surjective outer layout and a codomain that is large
  enough (LinearLayout.h:725-733). That makes the equation solvable (`InversionGuarantees.SurjectiveHasSolution`), but
  identity dimensions are taken out first. `InversionGuarantees.ShortcutLosesSolution` and
  `InversionGuarantees.OneSideIsRejected` are inputs that meet the demands and run into its assertions, and
  `InversionGuarantees.SucceedsIff` is the exact condition. The check that a FIXME there asks for would exclude the first
  kind (`InversionGuarantees.ClearShortcutIsSafe`).
- It is also documented to choose the smallest offset (LinearLayout.h:735-737). Least squares does
  (`LinearSolve.ReducedIsSmallest`), but an identity dimension is kept even when a smaller offset would do:
  `InversionGuarantees.RepeatedVectorIsNotSmallest` is an input, `InversionGuarantees.ChoosesSmallestIff` the condition.
- The swizzle is called optimal. Where instructions are compared by their total of bank conflicts, no segment has any
  (`SwizzleOptimality.TileSearchIsConflictFree`). For plain loads and stores a segment has the fewest conflicts possible
  on its worse side (`SwizzleOptimality.WorseSideIsLeast`), but not always the least total: with 64 lanes, a destination
  that broadcasts all lanes but one has a conflict too many (`SwizzleOptimality.TotalIsNotLeast`).
  `SwizzleOptimality.TotalIsLeastIff` is the condition on the two tiles.

## Model

| member | source | states |
|---|---|---|
| Membar.BlockInfo.Join | include/triton/Analysis/Membar.h:26-34 | joining unites both interval maps entry by entry |
| Membar.BlockInfo.Sync | include/triton/Analysis/Membar.h:66-69 | a barrier clears everything pending |
| Membar.BlockInfo.IsIntersected | include/triton/Analysis/Membar.h:56-63 | answers true exactly when some pending and some new access intersect, one of them writes, and the filter does not exempt the pair |
| Membar.FindHit | include/triton/Analysis/Membar.h:80-92 | the four nested loops find a hit exactly when there is one |
| MembarTransfer.TransferIsSafe | lib/Analysis/Membar.cpp:165-272 | in the rewritten block no access conflicts with what is pending when it happens, and the state out is what an execution leaves pending |
| MembarTransfer.SafeIsRaceFree | lib/Analysis/Membar.cpp:165-272 | the local check made at every access is equivalent to race freedom of the whole trace: any two conflicting accesses have a synchronisation between them |
| MembarTransfer.TransferSyncsWaits | lib/Analysis/Membar.cpp:174-182 | after a scan every asynchronous wait is followed by a barrier |
| MembarTransfer.SafeIsStable | lib/Analysis/Membar.cpp:165-272 | a block that is already safe and synced is left exactly as it is |
| MembarTransfer.TransferIsIdempotent | lib/Analysis/Membar.cpp:165-272 | scanning a scanned block again from the same state changes nothing |
| MembarTransfer.MergedStateIsSafe | lib/Analysis/Membar.cpp:76-80 | a merged input state in which every fact comes from some path is safe when every path's state is: merging loses no precision for a block that is safe on each path |
| MembarTransfer.TransferSpendsBudget | lib/Analysis/Membar.cpp:165-272 | a scan that inserts a barrier strictly lowers the number of places where barriers can still be inserted |
| MembarRaces.FootprintFields | lib/Analysis/Membar.cpp:196-272 | what the analysis records for an operation is exactly what it accesses: inputs, outputs, all of memory when it arrives at another thread's barrier, and its scratch buffer for reading and writing |
| MembarRaces.ConflictIsClash | lib/Analysis/Membar.cpp:196-272 | two operations conflict for the analysis exactly when the filter does not exempt them and an interval one of them writes intersects one the other reads or writes |
| MembarRaces.RaceFreeIsClashFree | lib/Analysis/Membar.cpp:165-272 | the trace of an execution is race free exactly when any two of its operations that access common memory in this way have a barrier, or the inside of a scratch operation that is not warp-synchronous, between them |
| MembarAnalysis.FixedPointIsRaceFree | lib/Analysis/Membar.cpp:50-81 | an empty worklist whose stored outputs are settled makes every control-flow path, loops included, race free |
| MembarAnalysis.RaceFreePathsAreClashFree | lib/Analysis/Membar.cpp:50-81 | the same on all paths of a function: race-free traces are race-free operations |
| MembarAnalysis.PushDecreases | lib/Analysis/Membar.cpp:66-80 | a visit that inserts nothing but changes the block's output either grows an input below its bound or removes a stale block, although outputs are overwritten non-monotonically |
| MembarAnalysis.JustifiedVisit | lib/Analysis/Membar.cpp:50-81 | in a function whose paths are race free already, the inputs computed stay covered by real paths, and a visit inserts nothing |
| MembarAnalysis.MembarAnalysis.Update | lib/Analysis/Membar.cpp:165-272 | one operation is replaced in the program, and the block state changed, as the transfer function says; it aborts exactly on a scratch operation that has inputs, outputs or an arrive of its own |
| MembarAnalysis.MembarAnalysis.VisitBlock | lib/Analysis/Membar.cpp:51-65 | the scan over a block that grows under it yields the transfer function of the original block, and aborts exactly when that block has a scratch operation with explicit accesses |
| MembarAnalysis.MembarAnalysis.Resolve | lib/Analysis/Membar.cpp:36-81 | the worklist terminates, and aborts exactly when control can reach a scratch operation with explicit accesses; the program only gains barriers; afterwards, on every path, operations whose intervals intersect with one of them written have a synchronisation between them, and every reachable wait is followed by a barrier; nothing is inserted if and only if that was so before |
| MembarAnalysis.PushSuccessors | lib/Analysis/Membar.cpp:76-80 | the output is joined into the input of every successor and each is queued |
| Basics.IntersectsMeans | include/triton/Analysis/Allocation.h:40-42 | non-empty intervals intersect exactly when they have an element in common |
| Allocation.AlignTo | lib/Analysis/Allocation.cpp:480-480 | the least multiple of the alignment that is not below the offset |
| Allocation.SplitCovers | lib/Analysis/Allocation.cpp:478-491 | the pieces that replace a triple meet every live range that met it, and none of them is empty |
| Allocation.SplitKeepsBase | lib/Analysis/Allocation.cpp:478-491 | after a split the space above the buffer is free exactly while the buffer is live; before and after that the old base stays free |
| Allocation.PlaceKeepsReachable | lib/Analysis/Allocation.cpp:460-493 | placing a buffer keeps every other unplaced buffer in reach of some triple |
| Allocation.CalculateStarts | lib/Analysis/Allocation.cpp:438-496 | never reads an empty triple map and terminates; every buffer is placed exactly once, the first in the list first, from the lowest base upward, aligned, on the bottom or on the end of one placed before it; among buffers that live apart from all the others, only on these |
| Allocation.StackBound | lib/Analysis/Allocation.cpp:438-496 | any buffers that live apart from all the others take no more room in the first placement than stacking them, each with its largest alignment gap |
| Allocation.UndisturbedPeak | lib/Analysis/Allocation.cpp:404-435 | where the first placement has no interference, the reported size is at most that of a stack of all the buffers |
| Allocation.TogetherMeans | lib/Analysis/Allocation.cpp:511-533 | buffers are kept apart exactly when some operation id lies in both live ranges, or their owners are in different regions of one asynchronous operation |
| Allocation.BuildInterferenceGraph | lib/Analysis/Allocation.cpp:500-538 | the graph has exactly the pairs that overlap in address and are live together or in different regions of one asynchronous operation |
| Allocation.Color | lib/Analysis/Allocation.cpp:544-568 | first-fit: every colour is the smallest not used by an earlier interfering buffer |
| Allocation.OffsetsNeverDecrease | lib/Analysis/Allocation.cpp:420-426 | a round never lowers an offset, and raises it exactly for the buffers without colour 0 |
| Allocation.BumpLowersRank | lib/Analysis/Allocation.cpp:420-432 | while interference remains, each round lowers lexicographically the vector of counts of earlier buffers not yet passed |
| Allocation.AllocationAnalysis.Allocate | lib/Analysis/Allocation.cpp:541-586 | one round: a first-fit colouring, every buffer without colour 0 moved above its neighbours as they then are, the exact peak recorded |
| Allocation.AllocationAnalysis.ComputeOffsets | lib/Analysis/Allocation.cpp:404-435 | terminates for all buffers; works on them sorted by descending size, stably; starts from a first placement, moves no buffer down and moves none at all when that placement is disjoint; in the end buffers that can hold data together occupy disjoint ranges, offsets are aligned, and the reported size is the exact maximum end |
| Allocation.PeakCoversLiveBuffers | lib/Analysis/Allocation.cpp:404-435 | at any operation the sizes of the live buffers add up to at most the reported size |
| Allocation.SortBySizeKeeps | lib/Analysis/Allocation.cpp:415-416 | the sorted list holds the same buffers, each as often |
| Allocation.SortBySizeIsStable | lib/Analysis/Allocation.cpp:415-416 | the sorted list descends by size and keeps buffers of one size in their old order |
| GF2.DoubleAnnihilator | lib/Tools/GenericSwizzling.cpp:212-213 | a vector is in the span exactly when everything orthogonal to the vectors is orthogonal to it |
| RowReduction.InplaceRref | lib/Tools/LinearLayout.cpp:121-134 | in place, to reduced row echelon form: pivots increase from row to row, occur in no other row, and zero rows come last; row space and independence are kept |
| RowReduction.SameAnnihilator | lib/Tools/LinearLayout.cpp:964-985 | row-equivalent matrices have the same solutions |
| LinearSolve.GetMatrix | lib/Tools/LinearLayout.cpp:73-116 | the packed rows are the transpose of the basis columns |
| LinearSolve.PivotIsNewDirection | lib/Tools/LinearLayout.cpp:1165-1173 | a column holds a pivot exactly when its basis vector is not in the span of the earlier ones |
| LinearSolve.GetFreeVariableMasks | lib/Tools/LinearLayout.cpp:1155-1187 | a mask bit is set exactly for the input bits whose basis vector lies in the span of earlier ones, dimension by dimension |
| LinearSolve.ExactlyOneReducedInput | lib/Tools/LinearLayout.cpp:1155-1187 | every input has exactly one equivalent input with all free bits zero |
| LinearSolve.ReducedIsSmallest | include/triton/Tools/LinearLayout.h:735-737 | an input leaves the free bits zero exactly when, read as a number, it is the smallest of all inputs with its output |
| LinearSolve.GetMatrixRank | lib/Tools/LinearLayout.cpp:121-134 | the rank counts the input bits that are not free, and equals the number of output bits exactly when the layout is onto |
| LinearSolve.OntoIffRowsIndependent | lib/Tools/LinearLayout.cpp:264-276 | surjectivity of the layout is independence of its matrix's rows |
| LinearSolve.Lstsq | lib/Tools/LinearLayout.cpp:964-1020 | succeeds exactly when every column of B is in the image of A; each column of the result solves its equation and leaves free variables zero |
| LinearSolve.NullspaceBasis | lib/Tools/GenericSwizzling.cpp:69-97 | an independent list that spans exactly the vectors orthogonal to all the given ones |
| Dimension.Exchange | lib/Tools/LinearLayout.cpp:264-276 | independent vectors of a span are no more than the vectors that span it: why counting pivots gives the rank |
| Dimension.BasesHaveOneLength | lib/Tools/GenericSwizzling.cpp:234-259 | counting the vectors of an intersection basis does not depend on the basis |
| Dimension.MeetAtLeast | lib/Tools/GenericSwizzling.cpp:135-180 | the dimensions that a span has to share with the vectors of some given bits |
| Layouts.Apply | lib/Tools/LinearLayout.cpp:892-907 | the nested loops compute, per output dimension and in order, the coordinate of the linear image |
| Layouts.ImageXor | include/triton/Tools/LinearLayout.h:50-61 | a layout is linear: the image of a sum is the sum of the images |
| Layouts.Compose | lib/Tools/LinearLayout.cpp:909-937 | composition: applying the result is applying one layout after the other, on every input |
| LayoutMatrix.ComboIsImage | lib/Tools/LinearLayout.cpp:73-116 | the flattened matrix applied to flattened bits is the layout applied to the bits |
| LayoutMatrix.SurjectiveIsOnto | lib/Tools/LinearLayout.cpp:264-276 | every output is reached exactly when the flattened columns span all output bits |
| LayoutMatrix.IsSurjective | lib/Tools/LinearLayout.cpp:264-278 | comparing the rank with the number of output bits decides surjectivity |
| LayoutMatrix.ComposedSurjective | lib/Tools/LinearLayout.cpp:930-936 | a composition is surjective whenever its constructor demands it |
| LayoutProducts.Supremum | lib/Tools/LayoutUtils.cpp:358-414 | a duplicate-free merge of both lists for all inputs, never reaching its error points; it keeps both orders exactly when the common names come in the same order, and then a name of the second list alone precedes one of the first only where the orders force it |
| LayoutProducts.MergeIsDetermined | lib/Tools/LayoutUtils.cpp:358-414 | for lists in compatible orders this leaves exactly one merge |
| LayoutProducts.SupersequenceNeedsSameOrder | lib/Tools/LayoutUtils.cpp:354-357 | a merge that keeps both orders exists only for compatible orders |
| LayoutProducts.InconsistentOrdersAreMerged | lib/Tools/LayoutUtils.cpp:354-357 | [a, b] and [b, a] have no supremum and are merged to [a, b] without an error |
| LayoutProducts.Product | lib/Tools/LinearLayout.cpp:720-781 | the block-diagonal layout of the factors, its dimensions merged |
| LayoutProducts.ProductAssociates | include/triton/Tools/LinearLayout.h:618-618 | both bracketings of a product of three have the same sizes and basis vectors; they are equal exactly when the merged dimension lists are |
| LayoutProducts.OrderIsNotAssociative | include/triton/Tools/LinearLayout.h:609-622 | three lists, in compatible orders at every merge, whose merge depends on the bracketing |
| LayoutProducts.ProductImage | lib/Tools/LinearLayout.cpp:720-781 | a product acts on low bits as the inner and on high bits as the outer layout |
| LayoutProducts.ProductSurjective | lib/Tools/LinearLayout.cpp:776-781 | a product is surjective exactly when both factors are, so the constructor's demand never fails |
| LayoutQuotients.DivideLeft | lib/Tools/LinearLayout.cpp:564-636 | answers exactly when the dividend has the block form, with that quotient; whether multiplying back gives the dividend itself is decided by the merged dimension lists, and it does when the divisor keeps the dividend's order |
| LayoutQuotients.LeftAssertionFails | lib/Tools/LinearLayout.cpp:634-634 | layouts on which the division answers and multiplying back lists the dimensions in another order, so that the assertion fails |
| LayoutQuotients.LeftQuotientSound | lib/Tools/LinearLayout.cpp:629-636 | the quotient is a valid layout and divisor times quotient is the dividend |
| LayoutQuotients.LeftDivisibleIff | lib/Tools/LinearLayout.cpp:566-571 | the checks pass if and only if a quotient exists |
| LayoutQuotients.ProductThenDivideLeft | lib/Tools/LinearLayout.cpp:564-636 | dividing B * C by B gives back C when C lists all dimensions of the product |
| LayoutQuotients.LeftQuotientSurjective | lib/Tools/LinearLayout.cpp:631-634 | the quotient of a surjective layout is surjective, as its constructor demands |
| LayoutQuotients.DivideRight | lib/Tools/LinearLayout.cpp:638-718 | the four outcomes, each exactly when: a failed check, a basis too large for the constructor, a quotient that the constructor rejects because it is not surjective though both layouts are, or a quotient, which multiplies back exactly when no bits are stray and the dimension lists merge to the dividend's |
| LayoutQuotients.RightQuotientExact | lib/Tools/LinearLayout.cpp:638-718 | quotient times divisor is the dividend exactly when the checks pass and no basis vector has bits outside the divisor's dimensions |
| LayoutQuotients.RightDivisibleIff | lib/Tools/LinearLayout.cpp:640-645 | a right quotient exists exactly under three checkable conditions |
| LayoutQuotients.RightQuotientUnique | lib/Tools/LinearLayout.cpp:638-718 | dividing B * C by C gives back B when B lists all dimensions of the product |
| LayoutQuotients.StrayBitIsMissed | lib/Tools/LinearLayout.cpp:690-716 | an input that passes every check, the constructor's included, although quotient times divisor is not the dividend |
| LayoutQuotients.RightQuotientSurjective | lib/Tools/LinearLayout.cpp:713-715 | without stray bits the quotient of a surjective layout is surjective, as the comment expects |
| LayoutQuotients.StrayQuotientIsRejected | lib/Tools/LinearLayout.cpp:713-715 | surjective layouts that pass all checks and whose quotient is not surjective, so that the constructor ends the program |
| LayoutInversion.LayoutLstsq | lib/Tools/LinearLayout.cpp:964-1035 | least squares on layouts: solvable exactly when every basis vector of B is an image of A; free bits stay zero |
| LayoutInversion.AddIdentities | lib/Tools/LinearLayout.cpp:1107-1110 | multiplying in identity maps adds exactly those dimensions and leaves the rest alone |
| LayoutInversion.InvertAndCompose | lib/Tools/LinearLayout.cpp:1039-1116 | succeeds exactly when the non-identity part is solvable; the result X satisfies A(X(x)) = B(x) for every x, is the identity on the dimensions left out, and leaves free bits of A zero elsewhere |
| SharedDimensions.AgreeIff | lib/Tools/LinearLayout.cpp:1075-1082 | a dimension is left out exactly when both layouts have it with the same basis vectors, zero vectors included, and all output sizes are equal |
| SharedDimensions.InversionIff | lib/Tools/LinearLayout.cpp:1060-1116 | a result is one of `invertAndCompose` exactly when it solves the equation, keeps every bit of a dimension on which the layouts agree, and sends every other bit to the smallest offset of A outside these dimensions |
| SharedDimensions.InversionIsUnique | lib/Tools/LinearLayout.cpp:1039-1116 | there is at most one such result |
| SharedDimensions.SharedBroadcastIsKept | lib/Tools/LinearLayout.cpp:1060-1072 | with a warp bit that both layouts map to zero the call succeeds and keeps that bit, although zero would solve the equation |
| InversionGuarantees.SucceedsIff | lib/Tools/LinearLayout.cpp:1060-1099 | it succeeds exactly when both or neither layout has other dimensions than the identity dimensions and the remaining inputs of A reach every remaining basis vector of B |
| InversionGuarantees.SolutionIff | include/triton/Tools/LinearLayout.h:705-709 | a layout X with A(X(x)) = B(x) exists exactly when A reaches every basis vector of B |
| InversionGuarantees.SurjectiveHasSolution | include/triton/Tools/LinearLayout.h:725-733 | the documented demands make the equation solvable |
| InversionGuarantees.ShortcutLosesSolution | lib/Tools/LinearLayout.cpp:1073-1082 | layouts that meet the demands, whose equation is solvable, and on which the call fails since a basis vector is reached only through an identity dimension |
| InversionGuarantees.OneSideIsRejected | lib/Tools/LinearLayout.cpp:1098-1099 | layouts that meet the demands and are solved by the identity, and on which the call fails since only one has a further dimension |
| InversionGuarantees.ClearShortcutIsSafe | lib/Tools/LinearLayout.cpp:1073-1074 | when the identity dimensions share no output bit with the others, a surjective A reaches all that is left of B |
| InversionGuarantees.FreeBitMeans | include/triton/Tools/LinearLayout.h:747-752 | an input bit is free exactly when some input of lower bits has the same output |
| InversionGuarantees.LeastIsSmallest | lib/Tools/LinearLayout.cpp:964-1008 | the least-squares input is the smallest offset with that output |
| InversionGuarantees.ChoosesSmallestIff | include/triton/Tools/LinearLayout.h:735-737 | the result chooses the smallest offset for every input exactly when no bit of an identity dimension is free and the smallest offset of every other basis vector lies in the remaining dimensions |
| InversionGuarantees.RepeatedVectorIsNotSmallest | include/triton/Tools/LinearLayout.h:735-737 | a surjective layout inverted against itself for which that fails |
| Swizzling.IntersectionBasis | lib/Tools/GenericSwizzling.cpp:209-232 | spans exactly the intersection of the two spans, in the unit-vector branch and in the null-space branch, independent when the first list is |
| Swizzling.DoubleNullspace | lib/Tools/GenericSwizzling.cpp:226-231 | the null space of the joined null spaces is the intersection of the spans |
| Swizzling.ComplementBasis | lib/Tools/GenericSwizzling.cpp:182-204 | unit vectors that complete an independent list to a basis of the whole space, as many as are missing |
| Swizzling.BasisIsBijection | lib/Tools/GenericSwizzling.cpp:413-422 | a layout whose basis vectors form a basis is one-to-one and onto |
| Swizzling.ComputeSegment | lib/Tools/GenericSwizzling.cpp:135-180 | the segment has the wanted length as far as bits allow, avoids bits shared by source and destination, and meets each of them in exactly the computed number of conflicts, none on the early path |
| Swizzling.WithinIsIntersection | lib/Tools/GenericSwizzling.cpp:234-259 | the segment vectors inside a bank tile's bits are a basis of the intersection of the two spans |
| Swizzling.SegmentConflicts | lib/Tools/GenericSwizzling.cpp:135-180 | the segment's span meets the span of either bank tile in exactly the computed number of dimensions |
| SwizzleOptimality.BankIsMet | lib/Tools/GenericSwizzling.cpp:234-259 | the conflicts that no choice of independent segment vectors can avoid |
| SwizzleOptimality.WorseSideIsLeast | lib/Tools/GenericSwizzling.cpp:135-180 | no independent list as long as the segment has fewer conflicts on its worse side, nor on either side when the tiles have equally many bits |
| Swizzling.ConflictCount | lib/Tools/GenericSwizzling.cpp:164-168 | there are as many conflicts as the larger tile has bits without room, at most one for each pair; none exactly when they fit or one tile contains the other |
| SwizzleOptimality.TotalIsLeastIff | lib/Tools/GenericSwizzling.cpp:135-180 | the total of conflicts is the least among all candidates exactly when the larger tile leaves room for the segment, one tile contains the other, or they have equally many bits |
| SwizzleOptimality.TotalIsNotLeast | lib/Tools/GenericSwizzling.cpp:164-175 | 32-bit elements in 7 bits, six bits against one: the segment has two conflicts where fewer are enough |
| SwizzleOptimality.TileSearchIsConflictFree | lib/Tools/GenericSwizzling.cpp:593-659 | with the vector of a 128-bit access and tiles of at most three more vectors, no segment has a conflict |
| Swizzling.LenBankBasis | lib/Tools/GenericSwizzling.cpp:392-394 | vector and bank bits together fit a bank segment and the tensor, with one bank bit more they would not, and the result is -1 exactly for a vector wider than a bank segment |
| Swizzling.OptimalSwizzling | lib/Tools/GenericSwizzling.cpp:358-411 | vector, segment and bank bases together are a basis of the tensor's bits and the size assertion holds, also for a vector wider than a bank segment; the conflicts are the bits of the larger tile beyond vector and bank, at most one for each pair |
| PermutationFactoring.TransposeAllSwaps | lib/Analysis/Utility.cpp:411-421 | disjoint transpositions swap their pairs and fix everything else |
| PermutationFactoring.ClosedBackwards | lib/Analysis/Utility.cpp:392-459 | a cycle walk can never run into a cycle walked before |
| PermutationFactoring.NextIsFresh | lib/Analysis/Utility.cpp:424-459 | the next bit of a walk is new or the entry, so every bit is visited once and the walk ends |
| PermutationFactoring.WalkCycle | lib/Analysis/Utility.cpp:402-460 | one cycle is closed and recorded, a transposition factored out for each segment of lanes |
| PermutationFactoring.FactorPermutation | lib/Analysis/Utility.cpp:377-463 | for every permutation P of register and lane bits, pReg and pLane are permutations, the transpositions are pairwise disjoint, P = mixed . pLane . pReg, with one transposition per register sent to a lane |
| PermutationFactoring.MixedCount | lib/Analysis/Utility.cpp:440-455 | the number of transpositions is the number of registers sent to lanes |
| ReshapeDecomposition.GetReshapeDecomposition | lib/Analysis/Utility.cpp:697-733 | for positive shapes of equal size it terminates with its assertions holding; the groups run through both shapes in order, each is balanced, and none can be divided: where the two sides of a group first meet at more than one element only dimensions of size one follow; every group after the first begins with a larger dimension on either side; it fails exactly on an empty source with a destination that has dimensions |
| ReshapeDecomposition.OneSideDone | lib/Analysis/Utility.cpp:711-722 | why the index assertions hold, and why a new group is never opened with only one side left |
| TopologicalSort.StillWaiting | lib/Analysis/Utility.cpp:1066-1078 | the last thing an operation waits for is an operand definer or its direct parent |
| TopologicalSort.NothingWaits | lib/Analysis/Utility.cpp:1082-1106 | with an empty work list no operation can be waiting: refutes a waiting operation on an acyclic graph |
| TopologicalSort.DependentsInside | lib/Analysis/Utility.cpp:1082-1106 | a set closed under users and children holds everything that depends on its members, through any number of enclosing operations |
| TopologicalSort.QueueGetsLighter | lib/Analysis/Utility.cpp:1086-1091 | replacing a queued operation by what it waits for lowers the queue's weight |
| TopologicalSort.ChainsLeadBack | lib/Analysis/Utility.cpp:1108-1111 | in what a search places, everything reached along a chain of dependencies comes earlier |
| TopologicalSort.PlaceInFront | lib/Analysis/Utility.cpp:1108-1111 | the operations of a later search go in front of the earlier ones and the order stays sorted |
| TopologicalSort.DfsState.AddToReadyQueue | lib/Analysis/Utility.cpp:1059-1079 | an operation becomes ready exactly when operands and ancestors are seen, and otherwise exactly the unseen ones are queued |
| TopologicalSort.DfsPostorder | lib/Analysis/Utility.cpp:1082-1112 | one search terminates, places its root, and leaves the placed operations closed under dependencies and dependents |
| TopologicalSort.MultiRootTopologicalSort | lib/Analysis/Utility.cpp:1116-1138 | on every acyclic graph it returns exactly the given set, each operation after all of the set that it depends on along operands and enclosing operations, directly or through operations outside the set, across all roots |
| InterpreterAtomics.StepExtendsHistory | python/src/interpreter.cc:40-89 | every step of any call, spurious failures included, extends the sequential history by at most one call |
| InterpreterAtomics.RunsLinearize | python/src/interpreter.cc:40-89 | for any number of concurrent calls some sequential order explains every returned value and the final cell, and respects real time |
| InterpreterAtomics.StepStores | python/src/interpreter.cc:40-89 | what a returning call leaves in the cell in terms of the value it returns: the sum for an addition, its operand for an exchange, the new value for a compare-and-swap exactly when it returns the expected one, and an improving operand for minimum and maximum |
| InterpreterAtomics.NoAdditionIsLost | python/src/interpreter.cc:69-89 | with additions only, the cell ends as its initial value plus all operands |
| InterpreterAtomics.MinimaReachTheMinimum | python/src/interpreter.cc:40-67 | with minimum operations only, the cell ends as the minimum of its initial value and all operands |
| InterpreterAtomics.MaximaReachTheMaximum | python/src/interpreter.cc:40-67 | with maximum operations only, the cell ends as the maximum of its initial value and all operands |
| InterpreterAtomics.StepMakesProgress | python/src/interpreter.cc:54-58 | every step that is not a spurious failure lowers a common measure of the remaining work |
| InterpreterAtomics.RunsAreShort | python/src/interpreter.cc:69-89 | without spurious failures n calls take at most n * (n + 3) steps together, whatever the interleaving |
| InterpreterAtomics.NobodyIsStuck | python/src/interpreter.cc:40-89 | a call that has not returned can always take a step that is no spurious failure |
| LayerNorm.MutualExclusion | python/tutorials/05-layer-norm.py:177-194 | in every run at most one of the row programs whose rows are congruent modulo the number of groups is in the critical section |
| LayerNorm.StepKeepsInv | python/tutorials/05-layer-norm.py:177-194 | every step of every program keeps lock, count, registers and buffer consistent, cell by cell |
| LayerNorm.SyncKeeps | python/tutorials/05-layer-norm.py:187-191 | past the barrier every cell of the buffer includes the row, before the lock is released |
| LayerNorm.BuffersHoldGroupSums | python/tutorials/05-layer-norm.py:153-157 | once all programs have finished, buffer g holds the sum of the partial gradients of the rows congruent to g modulo the number of groups, whatever it held before |
| LayerNorm.NoDeadlock | python/tutorials/05-layer-norm.py:177-194 | while a program has not finished some program can take a step |
| LayerNorm.RunsAreBounded | python/tutorials/05-layer-norm.py:177-194 | failed attempts at the lock aside, steps taken and work left add up to rows * (2 * width + 5) in every run, whatever the interleaving |
| LayerNorm.RunsFinish | python/tutorials/05-layer-norm.py:177-194 | a run can go no further exactly when every program has finished, which is exactly after that many steps |
| LayerNorm.ReduceColumn | python/tutorials/05-layer-norm.py:210-218 | the masked tiles of rows add up to the sum of the column over the buffers |
| LayerNorm.FinalReduction | python/tutorials/05-layer-norm.py:206-221 | the grid of column blocks writes the sum of every column |
| LayerNorm.GradientIsTotal | python/tutorials/05-layer-norm.py:290-292 | reducing min(GROUP_SIZE_M, M) buffers after any complete run gives the sum over all rows |
| TileSchedule.PidInGrid | python/tutorials/03-matrix-multiplication.py:256-264 | every program id names a tile of the grid, and the inverse mapping gives the id back, also in a short last group and for the rotated variant |
| TileSchedule.TileHasPid | python/tutorials/09-persistent-matmul.py:260-267 | every tile of the grid is named by the id the inverse mapping gives |
| TileSchedule.PidsAreABijection | python/tutorials/03-matrix-multiplication.py:256-264 | both program-id mappings are bijections from ids to tiles |
| TileSchedule.PidOrder | python/tutorials/03-matrix-multiplication.py:256-264 | ascending program ids take the tiles group of rows by group of rows, column by column within a group, and top to bottom within a column |
| TileSchedule.RotatedPid | python/tutorials/09-persistent-matmul.py:260-267 | the persistent mapping stays in the same group and column, and differs only in a short last group |
| TileSchedule.StridesPartition | python/tutorials/09-persistent-matmul.py:299-299 | strided loops, one per program, take every number below the end exactly once |
| TileSchedule.PersistentProgram | python/tutorials/09-persistent-matmul.py:286-323 | the duplicated counter always names the tile being computed |
| TileSchedule.PersistentCoversEachTileOnce | python/tutorials/09-persistent-matmul.py:344-344 | min(NUM_SMS, tiles) programs compute and store every tile exactly once |
| TileSchedule.GroupedProgram | python/tutorials/08-grouped-gemm.py:114-169 | the nested loops visit exactly the strided tiles of the concatenated problems, each with its problem and coordinates |
| TileSchedule.FlatTileUnique | python/tutorials/08-grouped-gemm.py:135-137 | different tiles of different or equal problems have different indices |
| TileSchedule.FlatTileOrder | python/tutorials/08-grouped-gemm.py:135-137 | the indices ascend problem by problem, row by row, and from left to right within a row |
| TileSchedule.EveryIdIsATile | python/tutorials/08-grouped-gemm.py:128-137 | every index below the number of tiles names a tile |
| TileSchedule.VisitsInOrder | python/tutorials/08-grouped-gemm.py:114-169 | a program takes its tiles in that order |
| TileSchedule.GroupedCoversEachTileOnce | python/tutorials/08-grouped-gemm.py:114-169 | every tile of every problem is taken by exactly one program exactly once |

## Left out

- Calls: the callee summary and the final join of dangling accesses at returns (lib/Analysis/Membar.cpp:83-104, 186-191); functions are call free.
- Region and branch interfaces: `visitTerminator` is an abstract successor list per virtual block.
- The filter callback is a function on operation pairs; a missing callback is the function that exempts nothing.
- Asynchronous waits carry no shared-memory accesses of their own, as their declarations say (include/triton/Dialect/TritonGPU/IR/TritonGPUOps.td:45).
- Liveness: live ranges and owner regions of buffers are inputs; overflow of machine-sized offsets is not modelled.
- Hash-set iteration followed by a sort in `computeSegment` is modelled as one ascending scan.
- Word width: bit vectors have any length, so the 64-column and 64-row limits of the matrix code are not modelled.
- Swizzling.OptimalSwizzling: the bit width is positive, as the source divides by it; the selection of tiles, `buildReps`, `logBankConflicts` on whole layouts and the load/store variant are left out.
- Layouts: reshaping of inputs and outputs beyond what least squares uses, quotients by trivial dimensions, `ColumnAction`, and caching of the rank are left out.
- LayoutInversion.InvertAndCompose: the demand that both layouts have the same output dimensions, A at least as large, is a precondition, as the source asserts it; where its other assertions fail the result is None.
- LayoutQuotients.DivideLeft: the product check of its final assertion is an output, `matches`, rather than a crash.
- PermutationFactoring: how the skeleton permutation is obtained from two layouts and how transpositions become byte-permute selectors are left out; its shape as a permutation is a precondition.
- TopologicalSort: the chain of enclosing operations is given with each operation instead of being followed through parent pointers; multi-sets are excluded, as the source asserts.
- InterpreterAtomics: types without lock-free atomics go through one mutex, which makes each call a single step; the bitwise operations differ from Exchange only in the stored value; masks and element loops are left out.
- LayerNorm: a failed attempt at the lock is no step; the scalar count is loaded in one step by the whole program; fairness of the scheduler, rounding and weak memory effects are left out.
- TileSchedule: the inner loop over K, pointer arithmetic and tile contents are left out.
- AxisInfo, lowering, Python bindings, pass registration, benchmarks and numeric kernel bodies are not modelled.
