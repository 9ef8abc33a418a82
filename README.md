# RocketGame utility core in Dafny

This project models the integer utility layer of RocketGame, a Unity game that
builds its levels on grids. It covers these parts of the layer:

- **Integer geometry** (`MathUtil`): `Mod`, `GetDivisors` and `InRange`; the vector `Vec2i` and its
  neighbourhoods; the half-open interval `Segment1i` and `RectiSide`; the half-open rectangle `Recti`.
- **Direction algebra**: `Dir`, `Dir8` and `DirFlags` with their tables, turns and the 4-bit
  rotation. Quarter-turn rotations are `Rot4`.
- **Random draws**: the WELL512 generator `RNG`, with its state, copy constructor and integer draws.
- **Weighted selection**: `WeightedSelection`, which keeps a cumulative-weight table and searches it.
- **Grids**: `Grid<T>`, and `BitGrid` with its bit operations and popcount (`GetCardinality`).
- **Container helpers** from `CSharpUtil`: flags, `Arranged`, `RepeatElementWise`, `Zip`, the
  Fisher-Yates `Shuffle`, `RemoveIf`, `BinarySearch`, `Find` and `AppendOrNewList`.
- **Small value types**: the inclusive range `Rangei`, `UnorderedPair` and `DoubleBuffer`.
- **Trees and graphs**: the binary tree `BTNode` and its traversals; the DAG searches and `NTree`
  of `GraphUtil`; the adjacency-list `Graph`.
- **Colour codec**: the hex colour codec of `UnityUtil`.
- **Game lifecycle**: the state machine of `GameManager`.

Each source file is one module, and the model keeps the file's form:

- Pure C# expressions become functions over datatypes.
- Objects updated in place become classes with `modifies` frames: the generator state, the selection,
  the grids, the linked list, the double buffer, the tree and graph nodes, and the game manager.
- Loops become methods with invariants. Each method is proved against a specification function,
  and the properties the code promises are proved about that function as lemmas.
- A .NET exception is a `Failure` carrying the exception's type name (module `Wrappers`).
- Integers are unbounded except where the source depends on 32-bit behaviour. `uint` in the
  generator and the popcount is `bv32`. The `median` of `Rangei` wraps explicitly.

## Model

| member | source | states |
|---|---|---|
| Rotation.Add | Assets/Scripts/Utils/Math/Rotation.cs:23-26 | combining two quarter turns gives a rotation congruent to their sum modulo 4 |
| Rotation.Reverse | Assets/Scripts/Utils/Math/Rotation.cs:34-37 | the reversed rotation added to the original gives `None` (it is the additive inverse) |
| Rotation.AddGroup | Assets/Scripts/Utils/Math/Rotation.cs:23-26 | `Add` is commutative and associative with `None` as identity |
| Rotation.AddWraps | Assets/Scripts/Utils/Math/Rotation.cs:23-26 | `Add` is the sum of the two enum values, wrapped back by 4 when it reaches 4 |
| Rotation.ReverseInvolution | Assets/Scripts/Utils/Math/Rotation.cs:34-37 | reversing twice restores the rotation |
| Rotation.ReverseVersusHalfTurn | Assets/Scripts/Utils/Math/Rotation.cs:30-37 | reversing differs from adding `Rev` exactly for `None` and `Rev`; they agree only for the quarter turns |
| IntMath.Abs | Assets/Scripts/Utils/Math/MathUtil.cs:288-292 | the result is non-negative and equals the argument or its negation |
| IntMath.Min | Assets/Scripts/Utils/Math/MathUtil.cs:306-316 | the result is at most both arguments and is one of them |
| IntMath.Max | Assets/Scripts/Utils/Math/MathUtil.cs:306-316 | the result is at least both arguments and is one of them |
| IntMath.SignOf | Assets/Scripts/Utils/Math/MathUtil.cs:318-336 | the sign is 1, 0 or -1 according to the argument's sign |
| IntMath.Quot | Assets/Scripts/Utils/Math/MathUtil.cs:136-150 | C#'s truncating division: the magnitude is the quotient of the magnitudes and the sign is the product of the signs |
| IntMath.Rem | Assets/Scripts/Utils/Math/MathUtil.cs:16-19 | C#'s `%`: the magnitude is the remainder of the magnitudes and the sign follows the dividend |
| IntMath.RemIsSignedModulus | Assets/Scripts/Utils/Math/MathUtil.cs:16-19 | the remainder is what the truncated quotient leaves, `a - b * Quot(a, b)` |
| IntMath.Mod | Assets/Scripts/Utils/Math/MathUtil.cs:16-19 | fails with a divide-by-zero error exactly when the modulus is 0; otherwise the result is congruent to `x`, in `[0, m)` for a positive modulus and in `(m, 0]` for a negative one |
| IntMath.ModFacts | Assets/Scripts/Utils/Math/MathUtil.cs:16-19 | the two-remainder formula `(x % m + m) % m` is the Euclidean residue for positive `m` and a congruent value in `(m, 0]` for negative `m` |
| IntMath.ModAsWritten | Assets/Scripts/Utils/Math/MathUtil.cs:16-19 | the 32-bit computation throws a divide-by-zero error exactly for a zero modulus and an overflow error exactly for `int.MinValue % -1`, and otherwise yields an `int` |
| IntMath.ModAsWrittenAgrees | Assets/Scripts/Utils/Math/MathUtil.cs:16-19 | for a modulus of size at most 2^30, outside the throwing case, the 32-bit computation equals the intended residue |
| IntMath.ModWrapWitness | Assets/Scripts/Utils/Math/MathUtil.cs:16-19 | for `x = 2147483646`, `m = 2147483647` the intended residue is 2147483646 while the 32-bit computation yields -3 |
| IntMath.ModAsWrittenWraps | Assets/Scripts/Utils/Math/MathUtil.cs:16-19 | when `x % m + m` passes `int.MaxValue` the 32-bit result is that sum less 2^32, a negative value for a positive modulus |
| IntMath.ModMinValueWitness | Assets/Scripts/Utils/Math/MathUtil.cs:18 | `int.MinValue` modulo -1 has residue 0, but the 32-bit computation throws an overflow error |
| IntMath.RemSmall | Assets/Scripts/Utils/Math/MathUtil.cs:18 | a dividend smaller in size than a positive divisor is its own C# remainder |
| IntMath.ModSmall | Assets/Scripts/Utils/Math/MathUtil.cs:16-19 | a value already in `[0, m)` is its own residue |
| IntMath.WrapPast | Assets/Scripts/Utils/Foundation/Range.cs:28 | a value just past `int.MaxValue` wraps to itself less 2^32 |
| IntMath.SqrtBound | Assets/Scripts/Utils/Math/MathUtil.cs:25 | for a non-negative number the truncated square root `s` satisfies `s*s <= n < (s+1)*(s+1)` |
| IntMath.FloorSqrt | Assets/Scripts/Utils/Math/MathUtil.cs:25 | the integer square root brackets its argument between `s*s` and `(s+1)*(s+1)` |
| IntMath.GetDivisors | Assets/Scripts/Utils/Math/MathUtil.cs:22-40 | the list holds exactly the divisors of the number other than 1 and the number itself, each once |
| IntMath.FoundStep | Assets/Scripts/Utils/Math/MathUtil.cs:27-37 | one loop step adds exactly `i` and its cofactor when `i` divides the number |
| IntMath.FoundAll | Assets/Scripts/Utils/Math/MathUtil.cs:25-39 | once the loop passes the square root, the divisors found are exactly the proper divisors |
| IntMath.Cofactor | Assets/Scripts/Utils/Math/MathUtil.cs:31-35 | a divisor's cofactor is itself a divisor, at least the divisor when it is at most the square root, and different from the number |
| Vectors.YXInvolution | Assets/Scripts/Utils/Math/MathUtil.cs:75 | swapping the components twice restores the vector |
| Vectors.With | Assets/Scripts/Utils/Math/MathUtil.cs:77-90 | the indexer setter changes the chosen component and leaves the other alone |
| Vectors.DivScalar | Assets/Scripts/Utils/Math/MathUtil.cs:136-142 | division by a scalar fails exactly on a zero divisor and otherwise truncates each component |
| Vectors.Div | Assets/Scripts/Utils/Math/MathUtil.cs:144-150 | component-wise division fails exactly when a divisor component is zero, and otherwise truncates each component |
| Vectors.EqIsEquality | Assets/Scripts/Utils/Math/MathUtil.cs:160 | `==` holds exactly for equal vectors |
| Vectors.NeAsWrittenIsNotNegation | Assets/Scripts/Utils/Math/MathUtil.cs:162 | `!=` as written implies inequality, but two vectors that differ in one component are neither `==` nor `!=` |
| Vectors.NeIsNegation | Assets/Scripts/Utils/Math/MathUtil.cs:160-162 | the corrected `!=` holds exactly for different vectors and is implied by the written one |
| Vectors.OrderFacts | Assets/Scripts/Utils/Math/MathUtil.cs:152-158 | `<=` is a partial order (reflexive, antisymmetric, transitive, not total), `<` is its strict part, and `>=`/`>` are the mirrored relations |
| Vectors.ArithmeticInverses | Assets/Scripts/Utils/Math/MathUtil.cs:132-150 | subtraction undoes addition (vector and scalar), negation is an involution and equals subtraction from zero |
| Vectors.DivUndoesMul | Assets/Scripts/Utils/Math/MathUtil.cs:136-142 | dividing by a non-zero scalar undoes multiplying by it |
| Directions.NextCW8 | Assets/Scripts/Utils/Math/Directions.cs:109-112 | the clockwise neighbour of an 8-direction is the previous index, wrapping 0 to 7 |
| Directions.NextCCW8 | Assets/Scripts/Utils/Math/Directions.cs:114-117 | the counter-clockwise neighbour is the next index, wrapping 7 to 0 |
| Directions.Opposite8 | Assets/Scripts/Utils/Math/Directions.cs:119-122 | the opposite 8-direction is four steps away |
| Directions.FromVec2i | Assets/Scripts/Utils/Math/MathUtil.cs:98 | the cast succeeds with a direction whose unit vector is the argument, and fails with a missing-key error exactly when no direction has that vector |
| Directions.TablesAgree | Assets/Scripts/Utils/Math/Directions.cs:30-76 | the sign, axis, unit-vector, opposite and 8-direction tables agree: each direction's vector is its sign on its axis, opposite vectors are negated, and the cast back recovers the direction |
| Directions.TurnsAgree | Assets/Scripts/Utils/Math/Directions.cs:78-86 | `NextCW`/`NextCCW` turn the unit vector by a quarter, undo each other, cycle in four steps and match two 8-direction steps |
| Directions.Turns8Agree | Assets/Scripts/Utils/Math/Directions.cs:92-122 | two 8-direction steps turn the vector by a quarter, the clockwise and counter-clockwise steps undo each other, and the opposite negates the vector and is an involution |
| Directions.Rotate | Assets/Scripts/Utils/Math/Directions.cs:128-133 | rotating a flag set never sets bits outside the four direction flags |
| Directions.RotateIsRotation | Assets/Scripts/Utils/Math/Directions.cs:128-133 | the shift-and-wrap formula is a 4-bit rotation to the left by the rotation's value |
| Directions.RotateAgreesWithTurns | Assets/Scripts/Utils/Math/Directions.cs:128-133 | rotating a single flag by CCW90, CW90 or Rev gives the flag of the turned or opposite direction |
| Directions.RotateComposes | Assets/Scripts/Utils/Math/Directions.cs:128-133 | rotating twice equals rotating by the combined rotation, `None` changes nothing, and the reversed rotation undoes a rotation |
| Directions.RotatePreservesCount | Assets/Scripts/Utils/Math/Directions.cs:128-133 | rotation keeps the number of directions in the set |
| Directions.RotateFixedPoints | Assets/Scripts/Utils/Math/Directions.cs:128-133 | the empty and full sets are fixed by every rotation, and four quarter turns restore any set |
| Directions.Priority | Assets/Scripts/Utils/Math/Directions.cs:39 | each direction has a position in the `CWMap` table (S, E, W, N), and the table holds it there |
| Directions.ToDir | Assets/Scripts/Utils/Math/Directions.cs:138-144 | fails with an argument error exactly when no direction flag is set; otherwise the result is set in the flags and is the first set one in `CWMap` order |
| Directions.ToDirOfFlag | Assets/Scripts/Utils/Math/Directions.cs:138-144 | converting a direction to its flag and back returns it |
| Directions.FlagFacts | Assets/Scripts/Utils/Math/Directions.cs:13-21 | each direction flag is one bit within `ALL`, distinct directions have distinct flags, and the sign and axis tables pick E/N and N/S |
| Neighbours.MooreNeighbours | Assets/Scripts/Utils/Math/MathUtil.cs:167-178 | eight cells, the k-th one step away in 8-direction k |
| Neighbours.VonNeumannNeighbours | Assets/Scripts/Utils/Math/MathUtil.cs:183-189 | the four cells one step east, north, west and south |
| Neighbours.NeighbourhoodsAgree | Assets/Scripts/Utils/Math/MathUtil.cs:167-189 | the von Neumann cells are the even-indexed Moore cells, and every Moore cell is at Chebyshev distance 1 |
| Neighbours.MooreRing | Assets/Scripts/Utils/Math/MathUtil.cs:192-214 | fails with an out-of-range error exactly for a negative distance; distance 0 gives the centre alone; otherwise the cells are exactly those at that Chebyshev distance, `8*distance` of them |
| Neighbours.RingIsRing | Assets/Scripts/Utils/Math/MathUtil.cs:192-214 | a cell is on the walked ring exactly when its Chebyshev distance from the centre is the ring's distance |
| Neighbours.RingDistinct | Assets/Scripts/Utils/Math/MathUtil.cs:192-214 | the ring walk never visits a cell twice |
| Neighbours.RingAt | Assets/Scripts/Utils/Math/MathUtil.cs:200-211 | the ring is four sides walked from the south-east corner, each side `2*distance` cells, with each cell's coordinates given explicitly |
| Neighbours.GoStep | Assets/Scripts/Utils/Math/MathUtil.cs:216-224 | walking one step counter-clockwise of a side moves to the next cell on that side |
| Segments.Make | Assets/Scripts/Utils/Math/MathUtil.cs:275-279 | the constructor succeeds exactly when `a <= b`, giving that segment, and otherwise throws an argument error |
| Segments.Center | Assets/Scripts/Utils/Math/MathUtil.cs:273 | the truncated midpoint of a valid segment lies between its ends |
| Segments.Cells | Assets/Scripts/Utils/Math/MathUtil.cs:345-349 | the enumerator yields `b - a` cells, the k-th being `a + k` |
| Segments.CellsMembership | Assets/Scripts/Utils/Math/MathUtil.cs:345-349 | a value is enumerated exactly when it lies in the half-open range `[a, b)` |
| Segments.OverlapsMeansSharedCell | Assets/Scripts/Utils/Math/MathUtil.cs:281-284 | overlap is symmetric and, for non-empty segments, holds exactly when they share a cell |
| Segments.DistanceIsCellDistance | Assets/Scripts/Utils/Math/MathUtil.cs:288-292 | the distance is symmetric and, for disjoint non-empty segments, is the least distance between a cell of one and a cell of the other |
| Segments.Intersect | Assets/Scripts/Utils/Math/MathUtil.cs:306-311 | the intersection of valid segments is constructed without error, and is `(0, 0)` when they do not overlap |
| Segments.IntersectIsIntersection | Assets/Scripts/Utils/Math/MathUtil.cs:306-311 | the cells of the intersection are exactly the cells common to both segments |
| Segments.Union | Assets/Scripts/Utils/Math/MathUtil.cs:313-316 | the union of valid segments is constructed without error |
| Segments.UnionIsHull | Assets/Scripts/Utils/Math/MathUtil.cs:313-316 | the union holds every cell of both segments and lies within any segment that covers both |
| Segments.Lerp | Assets/Scripts/Utils/Math/MathUtil.cs:318-336 | the loop yields the interpolation path; an intermediate segment whose ends cross throws an argument error, which never happens between valid segments |
| Segments.LerpPathFacts | Assets/Scripts/Utils/Math/MathUtil.cs:318-336 | between valid segments every yielded segment is valid and differs from both the start and the target |
| Segments.LerpPathMove | Assets/Scripts/Utils/Math/MathUtil.cs:328-334 | consecutive yielded segments move each end by at most one |
| Segments.LerpExamples | Assets/Scripts/Utils/Math/MathUtil.cs:318-336 | the paths from `(0,5)` to `(7,10)`, to `(-3,6)` and to itself, worked out in full |
| Segments.TowardReach | Assets/Scripts/Utils/Math/MathUtil.cs:326-333 | after k steps an end has moved at most k, and it has reached its target exactly when the target was within k |
| Segments.MakeSide | Assets/Scripts/Utils/Math/MathUtil.cs:372-401 | a rectangle side is built exactly when its segment is valid, with the given direction and other-axis coordinate |
| Segments.SideCellsOnLine | Assets/Scripts/Utils/Math/MathUtil.cs:377-395 | a side's cells are distinct, and a cell is one of them exactly when it lies on the side's line within the segment |
| Rects.SetMinAsWritten | Assets/Scripts/Utils/Math/MathUtil.cs:419 | the `min` setter as written leaves the rectangle unchanged |
| Rects.SetMinAsWrittenIgnoresValue | Assets/Scripts/Utils/Math/MathUtil.cs:419 | setting `min` of a 2x2 rectangle at the origin to `(1,1)` leaves its minimum corner at the origin |
| Rects.SetMin | Assets/Scripts/Utils/Math/MathUtil.cs:419-420 | the corrected setter moves the minimum corner to the value and keeps the size |
| Rects.SetMax | Assets/Scripts/Utils/Math/MathUtil.cs:420 | the `max` setter moves the maximum corner to the value and keeps the minimum corner |
| Rects.SetXMin | Assets/Scripts/Utils/Math/MathUtil.cs:439-440 | setting `xMin` moves only the left edge; the other three edges stay |
| Rects.SetYMin | Assets/Scripts/Utils/Math/MathUtil.cs:443-444 | setting `yMin` moves only the bottom edge; the other three edges stay |
| Rects.SetXMax | Assets/Scripts/Utils/Math/MathUtil.cs:441-442 | setting `xMax` moves only the right edge; the other three edges stay |
| Rects.SetYMax | Assets/Scripts/Utils/Math/MathUtil.cs:437-438 | setting `yMax` moves only the top edge; the other three edges stay |
| Rects.NeAsWrittenIsNotNegation | Assets/Scripts/Utils/Math/MathUtil.cs:469-471 | two rectangles that differ only in `y` are neither `==` nor `!=` as written |
| Rects.EqNeAgree | Assets/Scripts/Utils/Math/MathUtil.cs:469-471 | `==` is value equality, the corrected `!=` is its negation, and the written `!=` implies the corrected one |
| Rects.MinMaxRecti | Assets/Scripts/Utils/Math/MathUtil.cs:473-476 | the rectangle starts at the given minimum, has non-negative size, and ends at the given maximum clamped to be no smaller than the minimum |
| Rects.ContainsMeans | Assets/Scripts/Utils/Math/MathUtil.cs:519-523 | a point is contained exactly when it lies in the half-open ranges `[xMin, xMax)` and `[yMin, yMax)` |
| Rects.MinMaxContains | Assets/Scripts/Utils/Math/MathUtil.cs:519-523 | a rectangle made from corners contains exactly the points in the half-open box between them |
| Rects.ContainsRectMeans | Assets/Scripts/Utils/Math/MathUtil.cs:525 | a rectangle contains a non-empty rectangle exactly when it contains every point of it |
| Rects.OverlapsMeans | Assets/Scripts/Utils/Math/MathUtil.cs:527 | overlap is symmetric and, for non-empty rectangles, holds exactly when they share a point |
| Rects.MoveShifts | Assets/Scripts/Utils/Math/MathUtil.cs:529-531 | a moved rectangle contains exactly the shifted points, and `MoveTo` is a move by the difference of positions |
| Rects.Intersect | Assets/Scripts/Utils/Math/MathUtil.cs:534-541 | the intersection has non-negative size |
| Rects.IntersectIsIntersection | Assets/Scripts/Utils/Math/MathUtil.cs:534-541 | the intersection contains exactly the points contained in both rectangles |
| Rects.Union | Assets/Scripts/Utils/Math/MathUtil.cs:544-551 | the union has non-negative size |
| Rects.UnionIsBoundingBox | Assets/Scripts/Utils/Math/MathUtil.cs:544-551 | every point of either rectangle is in the union, and the union contains both rectangles |
| Rects.ShrinkUndoesExpand | Assets/Scripts/Utils/Math/MathUtil.cs:553-601 | expanding by a non-negative thickness (all round or on one side) contains the original, and shrinking by the same amount restores it |
| Rects.SideCoordIsExtreme | Assets/Scripts/Utils/Math/MathUtil.cs:422-435 | a side's coordinate is the outermost coordinate, in that direction, of any contained point, and is attained |
| Rects.ExpandSideMovesOneSide | Assets/Scripts/Utils/Math/MathUtil.cs:559-565 | expanding one side pushes that side out by the thickness and leaves the other three sides where they were |
| Rects.Centeri | Assets/Scripts/Utils/Math/MathUtil.cs:451 | the integer centre of a non-empty rectangle lies inside it |
| Rects.CornerAfterJoinsSides | Assets/Scripts/Utils/Math/MathUtil.cs:481-496 | the corner after a side lies on that side and on the next side counter-clockwise, and inside a non-empty rectangle |
| Rects.GetSideOn | Assets/Scripts/Utils/Math/MathUtil.cs:502-517 | the side has the requested direction and lies at that side's coordinate; it fails exactly when the side is too short for its segment (`a > b`) |
| Rects.GetSideOnCells | Assets/Scripts/Utils/Math/MathUtil.cs:502-517 | for a non-empty rectangle the side's cells are exactly the contained points on that side, without the trailing corner when `skipTail` is set |
| Rects.ExpandToInclude | Assets/Scripts/Utils/Math/MathUtil.cs:569-587 | the step-by-step update yields the expanded rectangle |
| Rects.ExpandToIncludeFacts | Assets/Scripts/Utils/Math/MathUtil.cs:569-587 | the expanded rectangle contains the point and every point of the original, is the bounding box of both for a non-empty original, and expanding again changes nothing |
| Rects.Divide | Assets/Scripts/Utils/Math/MathUtil.cs:603-623 | a division yields one or two rectangles |
| Rects.DivideTiles | Assets/Scripts/Utils/Math/MathUtil.cs:603-623 | there are two pieces exactly when the line falls strictly inside; one piece is the rectangle itself; two pieces partition its points |
| Rects.Insert | Assets/Scripts/Utils/Math/MathUtil.cs:628 | inserting keeps every element and adds the new one, with the smaller of it and the old head first |
| Rects.InsertSorted | Assets/Scripts/Utils/Math/MathUtil.cs:628 | inserting into a sorted sequence keeps it sorted |
| Rects.SortSeq | Assets/Scripts/Utils/Math/MathUtil.cs:628 | sorting keeps the same elements with the same multiplicities |
| Rects.SortSeqSorted | Assets/Scripts/Utils/Math/MathUtil.cs:628 | the sorted sequence is in non-decreasing order |
| Rects.SortInPlace | Assets/Scripts/Utils/Math/MathUtil.cs:628 | `Array.Sort` leaves the array sorted and a permutation of its old contents |
| Rects.MultiCut | Assets/Scripts/Utils/Math/MathUtil.cs:625-647 | the cut positions are sorted in place; an empty array throws an index error; otherwise the result is the list of pieces between consecutive cuts |
| Rects.CutAt | Assets/Scripts/Utils/Math/MathUtil.cs:630-646 | the loop builds exactly the pieces between consecutive cuts |
| Rects.PiecesTile | Assets/Scripts/Utils/Math/MathUtil.cs:625-647 | the pieces start at the rectangle's edge, each starts where the previous ends, all span the rectangle across the cut, and their extents sum to its size |
| Rects.PiecesNonNegative | Assets/Scripts/Utils/Math/MathUtil.cs:625-647 | sorted cuts inside the rectangle give pieces of non-negative size |
| Rects.OverlapsEdgeLine | Assets/Scripts/Utils/Math/MathUtil.cs:652-658 | a segment touches an edge only when it lies on the rectangle's first or last row (column) and overlaps that edge's extent |
| Rects.OverlapsEdge | Assets/Scripts/Utils/Math/MathUtil.cs:665-673 | building the other rectangle's edge segments cannot throw when it has non-negative size |
| Rects.OverlapsEdgeSymmetric | Assets/Scripts/Utils/Math/MathUtil.cs:652-673 | the test is the shared-edge relation, it is symmetric, and a non-empty rectangle shares an edge with itself |
| Rects.ColumnsFacts | Assets/Scripts/Utils/Math/MathUtil.cs:693-704 | the column-major enumeration lists each point of the box exactly once, `width*height` of them |
| Rects.Cells | Assets/Scripts/Utils/Math/MathUtil.cs:693-704 | the nested loops enumerate the cells column by column, exactly the contained points, `area` of them |
| Rects.ColumnsOfRect | Assets/Scripts/Utils/Math/MathUtil.cs:693-704 | a rectangle's enumeration holds exactly its contained points and, for non-negative size, `area` of them |
| Well512.Prev | Assets/Scripts/Utils/Math/RNG.cs:70 | the new index is below 16 and differs from the old one |
| Well512.WrittenIs | Assets/Scripts/Utils/Math/RNG.cs:63-68 | the first half of the step stores `b ^ c` at the old index and changes nothing else |
| Well512.StepFromWrites | Assets/Scripts/Utils/Math/RNG.cs:61-74 | the two in-place writes of the recurrence, done in the source's order, produce exactly the draw `Step` describes |
| Well512.Step | Assets/Scripts/Utils/Math/RNG.cs:59-75 | one step moves the index one place down cyclically, changes only the words at the old and new index, and returns the word just written at the new index |
| Well512.ZeroIsFixedPoint | Assets/Scripts/Utils/Math/RNG.cs:59-75 | an all-zero state draws 0 and stays all zero |
| Well512.NonZeroStateDraws | Assets/Scripts/Utils/Math/RNG.cs:59-75 | a state with a single set bit draws a non-zero value |
| Well512.Outputs | Assets/Scripts/Utils/Math/RNG.cs:59-75 | `n` successive draws give `n` values |
| Well512.ZeroStateOutputs | Assets/Scripts/Utils/Math/RNG.cs:59-75 | every draw from the all-zero state is 0 |
| Well512.State.FromWords | Assets/Scripts/Utils/Math/RNG.cs:19-27 | a fresh state holds the given sixteen words with index 0 |
| Well512.State.CopyAsWritten | Assets/Scripts/Utils/Math/RNG.cs:29-33 | the copy constructor as written leaves the new state all zero and overwrites the SOURCE state's words with zeros, copying only the index |
| Well512.State.Copy | Assets/Scripts/Utils/Math/RNG.cs:29-33 | the corrected copy holds a fresh array with the other state's words and index |
| Well512.ToInt32 | Assets/Scripts/Utils/Math/RNG.cs:78 | the `(int)` cast of a `uint` keeps values below 2^31 and subtracts 2^32 from the rest |
| Well512.ToUInt32 | Assets/Scripts/Utils/Math/RNG.cs:51 | the `(uint)` cast keeps the value modulo 2^32 |
| Well512.CastsRoundTrip | Assets/Scripts/Utils/Math/RNG.cs:78 | the two casts are inverse bijections between `uint` and `int` |
| Well512.RNG.FromWords | Assets/Scripts/Utils/Math/RNG.cs:38-42 | a generator starts from the given sixteen words at index 0 |
| Well512.RNG.Resume | Assets/Scripts/Utils/Math/RNG.cs:44-47 | resuming from a state, as written, yields an all-zero generator and zeroes the given state |
| Well512.RNG.ResumeCorrected | Assets/Scripts/Utils/Math/RNG.cs:44-47 | with the corrected copy, the generator resumes from a private copy of the given state |
| Well512.RNG.NextUInt | Assets/Scripts/Utils/Math/RNG.cs:59-75 | the in-place update performs one `Step`: the words and index become the step's and the step's value is returned; an index of 16 or more is an index error with nothing changed |
| Well512.RNG.Next | Assets/Scripts/Utils/Math/RNG.cs:54-57 | draws one word and reduces it modulo the bound, so a positive bound gives a value below it; a zero bound is a divide-by-zero error after the draw |
| Well512.RNG.NextInRange | Assets/Scripts/Utils/Math/RNG.cs:49-52 | draws one word and applies the `int`/`long`/`uint` reduction; for `0 <= min < max` the result lies in `[min, max)` |
| Well512.RNG.NextInt | Assets/Scripts/Utils/Math/RNG.cs:78 | draws one word and returns the `int` with the same bits |
| Well512.InRange | Assets/Scripts/Utils/Math/RNG.cs:51 | the reduction fails with divide-by-zero exactly when the wrapped difference `max - min` is 0 |
| Well512.InRangeBounds | Assets/Scripts/Utils/Math/RNG.cs:49-52 | for `0 <= min < max` the reduction of any word lies in `[min, max)` |
| Well512.Wrap | Assets/Scripts/Utils/Math/RNG.cs:51 | unchecked `int` subtraction: the result is congruent to the exact difference modulo 2^32, and equal to it when it fits |
| Distribution.Kept | Assets/Scripts/Utils/Math/Distribution.cs:25-34 | the constructor keeps at most the given items, each with a positive weight |
| Distribution.KeptMembers | Assets/Scripts/Utils/Math/Distribution.cs:25-34 | an item is kept exactly when it was given and its weight is positive |
| Distribution.PrefixSumsAt | Assets/Scripts/Utils/Math/Distribution.cs:31-32 | the k-th cumulative weight is the sum of the first k+1 weights |
| Distribution.PrefixSumsIncrease | Assets/Scripts/Utils/Math/Distribution.cs:25-40 | positive weights give a strictly increasing cumulative list whose last entry is the total, and the total is positive when anything was kept |
| Distribution.ListBinarySearch | Assets/Scripts/Utils/Math/Distribution.cs:66 | `List.BinarySearch` returns a found index holding the key within the range, or the complement of an insertion point within it |
| Distribution.SearchFindsLeast | Assets/Scripts/Utils/Math/Distribution.cs:66 | on a strictly increasing list the search returns the key's index, or the complement of the first position whose entry exceeds the key |
| Distribution.SelectIndex | Assets/Scripts/Utils/Math/Distribution.cs:64-70 | the selected index is between 0 and the list length |
| Distribution.SelectIsLeast | Assets/Scripts/Utils/Math/Distribution.cs:64-70 | the selected index is the first whose cumulative weight reaches the sample |
| Distribution.SelectInterval | Assets/Scripts/Utils/Math/Distribution.cs:64-79 | a sample up to the total selects the item whose cumulative interval `(cdf[i-1], cdf[i]]` contains it; a larger sample selects one past the end |
| Distribution.RemoveAtIndex | Assets/Scripts/Utils/Math/Distribution.cs:90-91 | `RemoveAt` shifts every later element down by one |
| Distribution.SumRemoveAt | Assets/Scripts/Utils/Math/Distribution.cs:89 | removing an element lowers the total by its weight |
| Distribution.RemoveKeepsPrefixSums | Assets/Scripts/Utils/Math/Distribution.cs:83-92 | lowering the cumulative weights from `i` on and deleting entry `i` gives exactly the cumulative weights of the list without item `i` |
| Distribution.RemoveItem | Assets/Scripts/Utils/Math/Distribution.cs:83-92 | removing an item removes its weight from the weight list and the total, and the remaining weights stay positive |
| Distribution.Accumulate | Assets/Scripts/Utils/Math/Distribution.cs:25-34 | the constructor's loop keeps the positive-weight items, records their running totals and sums them |
| Distribution.WeightedSelection.constructor | Assets/Scripts/Utils/Math/Distribution.cs:19-34 | the object keeps the positive-weight items with their running totals, consistently (`Valid`) |
| Distribution.WeightedSelection.Create | Assets/Scripts/Utils/Math/Distribution.cs:19-41 | construction throws an argument error exactly when no item has positive weight; otherwise the object holds the kept items, their cumulative weights and the total |
| Distribution.WeightedSelection.Select | Assets/Scripts/Utils/Math/Distribution.cs:64-70 | the selected index is the first whose cumulative weight reaches the sample |
| Distribution.WeightedSelection.SelectItem | Assets/Scripts/Utils/Math/Distribution.cs:75-79 | a sample in `[1, total]` selects the item whose cumulative interval contains it; a larger sample selects past the end and the list access throws an out-of-range error |
| Distribution.WeightedSelection.Remove | Assets/Scripts/Utils/Math/Distribution.cs:83-92 | an index outside the list is an error that changes nothing; otherwise the item is removed, later cumulative weights are lowered by its weight and the total drops by it, keeping the object consistent |
| Distribution.ExampleTotals | Assets/Scripts/Utils/Math/Distribution.cs:25-34 | weights 2, 3, 5, 7 give cumulative weights 2, 5, 10, 17 |
| Distribution.ExampleRemove | Assets/Scripts/Utils/Math/Distribution.cs:83-92 | removing the weight-3 item from 2, 5, 10, 17 leaves 2, 7, 14 |
| Distribution.ExampleSelect | Assets/Scripts/Utils/Math/Distribution.cs:64-70 | sample 6 selects index 2 and sample 18 selects one past the end |
| Grids.Column | Assets/Scripts/Utils/Foundation/Grid.cs:108-111 | column `x` of the array lists its cells `a[x, 0..h)` in order |
| Grids.FirstColumnsAt | Assets/Scripts/Utils/Foundation/Grid.cs:108-111 | in the enumeration of the first `n` columns, cell `(x, y)` sits at position `x*h + y` |
| Grids.AllColumns | Assets/Scripts/Utils/Foundation/Grid.cs:108-111 | the enumeration of all columns has `w*h` entries in row-major array order (the order in which `Cast<T>()` walks a `T[,]`) |
| Grids.Grid.constructor | Assets/Scripts/Utils/Foundation/Grid.cs:51-54 | the successful path of `Grid.New`: a `w` by `h` grid records its size, region and cell count and holds `default(T)` in every cell |
| Grids.Grid.Square | Assets/Scripts/Utils/Foundation/Grid.cs:56-58 | the successful path of `Grid.NewSquare`: a square grid is the `wh` by `wh` grid |
| Grids.Grid.New | Assets/Scripts/Utils/Foundation/Grid.cs:51-54 | `new Grid<T>(w, h)` fails with an overflow error exactly when a dimension is negative, and otherwise yields a fresh `w` by `h` grid of `default(T)` |
| Grids.Grid.NewSquare | Assets/Scripts/Utils/Foundation/Grid.cs:56-58 | `new Grid<T>(wh)` fails with an overflow error exactly when `wh` is negative, and otherwise yields a fresh `wh` by `wh` grid of `default(T)` |
| Grids.Grid.FromArray | Assets/Scripts/Utils/Foundation/Grid.cs:60-64 | a grid built from an array has its dimensions and a fresh copy of every cell |
| Grids.Grid.Get | Assets/Scripts/Utils/Foundation/Grid.cs:39-49 | the indexer returns the cell when both coordinates are in range and throws an index error otherwise |
| Grids.Grid.Set | Assets/Scripts/Utils/Foundation/Grid.cs:39-49 | the indexer setter stores the value in range and throws an index error otherwise; no other cell changes |
| Grids.Grid.Clear | Assets/Scripts/Utils/Foundation/Grid.cs:75-78 | every cell is reset to `default(T)` |
| Grids.Grid.ClearWith | Assets/Scripts/Utils/Foundation/Grid.cs:80-85 | every cell holds the given value |
| Grids.Grid.TryGet | Assets/Scripts/Utils/Foundation/Grid.cs:94-106 | reports success exactly for coordinates inside the grid, with the cell's value; otherwise `default(T)` |
| Grids.Grid.Elements | Assets/Scripts/Utils/Foundation/Grid.cs:108-111 | the enumeration yields all `TotalCells` cells, cell `(x, y)` at position `x*Height + y` |
| Grids.CellIndexInjective | Assets/Scripts/Utils/Foundation/Grid.cs:142-152 | the bit index `y*Width + x` of an in-range cell is in `[0, w*h)` and different cells have different indices |
| Grids.BitGrid.constructor | Assets/Scripts/Utils/Foundation/Grid.cs:154-157 | the successful path of `BitGrid.New`: a new bit grid has `w*h` cleared bits |
| Grids.BitGrid.New | Assets/Scripts/Utils/Foundation/Grid.cs:154-157 | `new BitGrid(w, h)` fails with an argument-out-of-range error exactly when `w*h` is negative (two negative dimensions give a grid), and otherwise yields `w*h` cleared bits |
| Grids.BitGrid.Copy | Assets/Scripts/Utils/Foundation/Grid.cs:159-162 | the copy has the other grid's size and a fresh copy of its bits |
| Grids.BitGrid.Get | Assets/Scripts/Utils/Foundation/Grid.cs:142-152 | reads bit `y*Width + x`, throwing an out-of-range error exactly when that index is outside the bit array |
| Grids.BitGrid.Set | Assets/Scripts/Utils/Foundation/Grid.cs:142-152 | writes bit `y*Width + x` and nothing else, or throws an out-of-range error and changes nothing |
| Grids.BitGrid.SetAll | Assets/Scripts/Utils/Foundation/Grid.cs:164-167 | every bit, including the storage past the last cell, takes the value |
| Grids.BitGrid.Not | Assets/Scripts/Utils/Foundation/Grid.cs:181-184 | every bit is inverted |
| Grids.BitGrid.Combine | Assets/Scripts/Utils/Foundation/Grid.cs:169-190 | grids of different size throw an argument error and nothing changes; otherwise each bit becomes the operation applied to the two old bits |
| Grids.BitGrid.And | Assets/Scripts/Utils/Foundation/Grid.cs:169-173 | after the size check each bit is the conjunction of the two old bits |
| Grids.BitGrid.Or | Assets/Scripts/Utils/Foundation/Grid.cs:175-179 | after the size check each bit is the disjunction of the two old bits |
| Grids.BitGrid.Xor | Assets/Scripts/Utils/Foundation/Grid.cs:186-190 | after the size check each bit is the exclusive or of the two old bits |
| Grids.BitGrid.CountBits | Assets/Scripts/Utils/Foundation/Grid.cs:192-195 | the count is the number of set cells, whatever the storage past the last cell holds |
| Grids.Map2 | Assets/Scripts/Utils/Foundation/Grid.cs:169-190 | the bit-wise combination applies the operation position by position |
| Grids.CountNot | Assets/Scripts/Utils/Foundation/Grid.cs:181-195 | after `Not` the count is the number of cells minus the old count |
| Grids.CountCombined | Assets/Scripts/Utils/Foundation/Grid.cs:169-195 | the counts after `And` and `Or` add up to the two old counts, and the count after `Xor` is their sum minus twice the `And` count |
| Grids.CountAll | Assets/Scripts/Utils/Foundation/Grid.cs:164-195 | after `SetAll(v)` the count is the number of cells when `v` is true and 0 otherwise |
| Grids.ItemBitGrid.constructor | Assets/Scripts/Utils/Foundation/Grid.cs:228-231 | the successful path of `ItemBitGrid.New`: the bits are cleared and the item grid of the same size holds `default(T)` |
| Grids.ItemBitGrid.Copy | Assets/Scripts/Utils/Foundation/Grid.cs:233-236 | the successful path of `ItemBitGrid.NewCopy`: the bits are copied from the other grid and the item grid of the same size holds `default(T)` |
| Grids.ItemBitGrid.New | Assets/Scripts/Utils/Foundation/Grid.cs:228-231 | `new BitGrid<T>(w, h)` fails exactly when a dimension is negative: with an argument-out-of-range error from the bits when `w*h` is negative, and with an overflow error from the item array otherwise; on success the bits are cleared and the items are `default(T)` |
| Grids.ItemBitGrid.NewCopy | Assets/Scripts/Utils/Foundation/Grid.cs:233-236 | `new BitGrid<T>(ot)` fails with an overflow error exactly when `ot` has a negative dimension, and otherwise copies `ot`'s bits beside a same-size grid of `default(T)` |
| BitCount.CountSplit | Assets/Scripts/Utils/Foundation/CSharpUtil.cs:320-333 | the count over a range is the sum of the counts over two adjacent parts |
| BitCount.CountIsMultiplicity | Assets/Scripts/Utils/Foundation/CSharpUtil.cs:309-336 | counting set cells is the multiplicity of `true` in the prefix |
| BitCount.PaddedCount | Assets/Scripts/Utils/Foundation/CSharpUtil.cs:317-318 | stale storage after the last cell does not affect the count of the cells |
| BitCount.LastWord | Assets/Scripts/Utils/Foundation/CSharpUtil.cs:318 | masking the last word with `~(-1 << r)` leaves exactly the first `r` cells' bits |
| BitCount.FullWord | Assets/Scripts/Utils/Foundation/CSharpUtil.cs:313 | a word copied from 32 cells has as many set bits as the cells |
| BitCount.SwarValue | Assets/Scripts/Utils/Foundation/CSharpUtil.cs:327-329 | the three-line parallel bit count of a word equals its number of set bits |
| BitCount.CopyTo | Assets/Scripts/Utils/Foundation/CSharpUtil.cs:311-313 | `BitArray.CopyTo` fills each word with the next 32 cells, lowest bit first |
| BitCount.ClearTail | Assets/Scripts/Utils/Foundation/CSharpUtil.cs:318 | after the mask the last word counts only the cells before `Count`, and no other word changes |
| BitCount.StepCount | Assets/Scripts/Utils/Foundation/CSharpUtil.cs:320-333 | each loop iteration adds the set cells of one more word to the running count |
| BitCount.GetCardinality | Assets/Scripts/Utils/Foundation/CSharpUtil.cs:309-336 | the result is the number of true cells of the bit array, whatever the storage past its end holds |
| CSharpUtil.HasFlag | Assets/Scripts/Utils/Foundation/CSharpUtil.cs:163-172 | values of different enum types throw an argument error; otherwise the result holds exactly when `val & flag == flag` |
| CSharpUtil.HasFlagBits | Assets/Scripts/Utils/Foundation/CSharpUtil.cs:163-172 | a flag is present exactly when every bit of it is set in the value |
| CSharpUtil.IsFlagOneBit | Assets/Scripts/Utils/Foundation/CSharpUtil.cs:179-183 | `x > 0 && (x & (x - 1)) == 0` holds exactly for values with a single bit set, below the sign bit |
| CSharpUtil.PowerIsFlag | Assets/Scripts/Utils/Foundation/CSharpUtil.cs:179-183 | every single bit below the sign bit passes the flag test |
| CSharpUtil.SingleBit | Assets/Scripts/Utils/Foundation/CSharpUtil.cs:182 | a non-zero word with `x & (x - 1) == 0` is a power of two |
| CSharpUtil.Swap | Assets/Scripts/Utils/Foundation/CSharpUtil.cs:203-208 | the two variables exchange their values |
| CSharpUtil.UnorderedCheckSymmetric | Assets/Scripts/Utils/Foundation/CSharpUtil.cs:210-213 | the check is insensitive to argument order and holds whenever the check holds one way round |
| CSharpUtil.Upper | Assets/Scripts/Utils/Foundation/CSharpUtil.cs:234-236 | `ToUpper` maps `a`-`z` to `A`-`Z` and leaves every other character |
| CSharpUtil.TitleCase | Assets/Scripts/Utils/Foundation/CSharpUtil.cs:228-237 | null stays null; otherwise the length is kept, the first character is upper-cased and the rest are unchanged |
| CSharpUtil.TitleCaseIdempotent | Assets/Scripts/Utils/Foundation/CSharpUtil.cs:228-237 | title-casing twice is the same as once |
| CSharpUtil.Arranged | Assets/Scripts/Utils/Foundation/CSharpUtil.cs:286-298 | differing lengths throw an invalid-operation error, an index outside the array throws an index error, and otherwise entry `i` of the result is `array[newIndices[i]]` |
| CSharpUtil.ArrangedReversed | Assets/Scripts/Utils/Foundation/CSharpUtil.cs:286-298 | arranging by the reversed indices reverses the array |
| CSharpUtil.RepeatElementWise | Assets/Scripts/Utils/Foundation/CSharpUtil.cs:403-416 | a negative count throws an out-of-range error; otherwise the nested loops yield each item `count` times, in order |
| CSharpUtil.RepeatedLength | Assets/Scripts/Utils/Foundation/CSharpUtil.cs:403-416 | the repetition has `|s| * count` items |
| CSharpUtil.RepeatedAt | Assets/Scripts/Utils/Foundation/CSharpUtil.cs:409-415 | the `j`-th copy of item `i` sits at position `i*count + j` |
| CSharpUtil.RepeatedMultiset | Assets/Scripts/Utils/Foundation/CSharpUtil.cs:403-416 | each value occurs `count` times as often as in the input |
| CSharpUtil.Zip | Assets/Scripts/Utils/Foundation/CSharpUtil.cs:440-453 | a null sequence throws a null-argument error; otherwise the result pairs the elements up to the end of the shorter sequence through the function |
| CSharpUtil.ExchangeMultiset | Assets/Scripts/Utils/Foundation/CSharpUtil.cs:470-472 | exchanging two entries keeps the elements |
| CSharpUtil.FisherYatesPermutes | Assets/Scripts/Utils/Foundation/CSharpUtil.cs:462-475 | whatever indices are drawn in range, the shuffle is a permutation |
| CSharpUtil.FisherYatesKeepsTail | Assets/Scripts/Utils/Foundation/CSharpUtil.cs:466-473 | the steps not yet taken leave the tail of the list alone |
| CSharpUtil.Shuffle | Assets/Scripts/Utils/Foundation/CSharpUtil.cs:462-475 | the in-place loop performs the Fisher-Yates steps for the drawn indices and leaves the list a permutation of its old contents |
| CSharpUtil.Without | Assets/Scripts/Utils/Foundation/CSharpUtil.cs:483-499 | filtering never lengthens the list |
| CSharpUtil.WithoutMembers | Assets/Scripts/Utils/Foundation/CSharpUtil.cs:483-499 | exactly the values not satisfying the predicate remain |
| CSharpUtil.WithoutIdempotent | Assets/Scripts/Utils/Foundation/CSharpUtil.cs:483-499 | removing again removes nothing more |
| CSharpUtil.RemoveIfStep | Assets/Scripts/Utils/Foundation/CSharpUtil.cs:490-498 | one loop step either unlinks the current node, when the predicate holds, or keeps it and moves past it |
| CSharpUtil.LinkedList.constructor | Assets/Scripts/Utils/Foundation/CSharpUtil.cs:483 | a linked list holds the given values in order |
| CSharpUtil.LinkedList.RemoveIf | Assets/Scripts/Utils/Foundation/CSharpUtil.cs:483-499 | afterwards the list holds exactly the old values that do not satisfy the predicate, in their old order |
| CSharpUtil.LinkedList.Find | Assets/Scripts/Utils/Foundation/CSharpUtil.cs:560-572 | the result is the first node whose value satisfies the predicate, or none when no value does |
| CSharpUtil.SearchAsWrittenSound | Assets/Scripts/Utils/Foundation/CSharpUtil.cs:517-550 | when the search as written returns, its answer is an index holding the key or the complement of the insertion point |
| CSharpUtil.SearchLastCandidate | Assets/Scripts/Utils/Foundation/CSharpUtil.cs:539-548 | the final single-candidate comparison returns the right complement on either side of the candidate |
| CSharpUtil.BinarySearchThrows | Assets/Scripts/Utils/Foundation/CSharpUtil.cs:529-550 | searching 3 in the sorted list `[5, 10]` throws instead of returning the complement of insertion point 0 |
| CSharpUtil.BinarySearch | Assets/Scripts/Utils/Foundation/CSharpUtil.cs:511-551 | the corrected search throws only on an empty list; otherwise it returns an index holding the key or the complement of the insertion point |
| CSharpUtil.InsertionPointAbsent | Assets/Scripts/Utils/Foundation/CSharpUtil.cs:510 | a complement result means no element has the key |
| CSharpUtil.ListMap.constructor | Assets/Scripts/Utils/Foundation/CSharpUtil.cs:580 | a new dictionary of lists is empty |
| CSharpUtil.ListMap.AppendOrNewList | Assets/Scripts/Utils/Foundation/CSharpUtil.cs:580-589 | the value is appended to the key's list, which starts empty for a new key; every other key keeps its list |
| Lists.IndexOf | Assets/Scripts/Utils/Foundation/Graph.cs:171 | the index of the first occurrence, or -1 exactly when the value is absent |
| Lists.RemoveAt | Assets/Scripts/Utils/Foundation/Graph.cs:175-176 | removing position `i` shifts later elements down by one and keeps earlier ones |
| Lists.RemoveFirst | Assets/Scripts/Utils/Foundation/Graph.cs:166 | an absent value leaves the list alone; otherwise one occurrence is removed |
| IntMath.Wrap32 | Assets/Scripts/Utils/Foundation/Range.cs:28 | unchecked `int` arithmetic: the result is a 32-bit value congruent to the exact one modulo 2^32, and equal to it when it fits |
| Ranges.EmptyWhenReversed | Assets/Scripts/Utils/Foundation/Range.cs:13-35 | a range stored with `min > max` contains no value |
| Ranges.MedianAsWrittenOverflows | Assets/Scripts/Utils/Foundation/Range.cs:28 | for the range `[int.MinValue, 1]` the subtraction overflows and the median as written is 0x40000001, outside the range |
| Ranges.MedianAsWrittenWhenNoOverflow | Assets/Scripts/Utils/Foundation/Range.cs:28 | when `max - min` fits in an `int`, the median as written equals the corrected median |
| Ranges.MedianInRange | Assets/Scripts/Utils/Foundation/Range.cs:28-35 | the corrected median of an ordered range is contained in it and is the midpoint rounded down |
| Ranges.ToString | Assets/Scripts/Utils/Foundation/Range.cs:19-22 | the text is the decimal `min`, then " ~ ", then the decimal `max` |
| UnorderedPairs.New | Assets/Scripts/Utils/Foundation/UnorderedPair.cs:11-19 | a null element throws a null-reference error; otherwise the pair holds the two elements as given |
| UnorderedPairs.EqualsMeansSameElements | Assets/Scripts/Utils/Foundation/UnorderedPair.cs:21-30 | two pairs are equal exactly when they hold the same elements, counted with multiplicity, in either order |
| UnorderedPairs.EqualsIsEquivalence | Assets/Scripts/Utils/Foundation/UnorderedPair.cs:21-30 | `Equals` is reflexive, symmetric and transitive, and false for null or a non-pair |
| UnorderedPairs.EqualPairsHashEqual | Assets/Scripts/Utils/Foundation/UnorderedPair.cs:32-35 | equal pairs have equal `A ^ B` hash codes |
| DoubleBuffers.DoubleBuffer.constructor | Assets/Scripts/Utils/Foundation/DoubleBuffer.cs:22-29 | a new double buffer starts at index 0 with the two new objects as current and next buffer |
| DoubleBuffers.DoubleBuffer.SwitchBuffers | Assets/Scripts/Utils/Foundation/DoubleBuffer.cs:32-35 | the current and next buffers change places and the index stays 0 or 1 |
| DoubleBuffers.Switched | Assets/Scripts/Utils/Foundation/DoubleBuffer.cs:32-35 | after an even number of switches the index is back where it started, after an odd number it is the other one |
| BinaryTrees.BTNode.constructor | Assets/Scripts/Utils/Foundation/BTNode.cs:42-46 | a new node holds the value and the two given children in a fresh two-slot array; its parent is unset and the children's parents are left as they were |
| BinaryTrees.BTNode.Get | Assets/Scripts/Utils/Foundation/BTNode.cs:27-32 | the indexer succeeds exactly for indices 0 and 1, yielding that child slot, and fails with an index-out-of-range error otherwise |
| BinaryTrees.BTNode.Left | Assets/Scripts/Utils/Foundation/BTNode.cs:15-19 | `Left` is the indexer at 0 |
| BinaryTrees.BTNode.Right | Assets/Scripts/Utils/Foundation/BTNode.cs:21-25 | `Right` is the indexer at 1 |
| BinaryTrees.BTNode.Set | Assets/Scripts/Utils/Foundation/BTNode.cs:33-37 | an index other than 0 or 1 fails with an index error and changes nothing; otherwise the slot is overwritten and the other slot kept, and then a null child fails with a null-reference error while a real child gets this node as its parent |
| BinaryTrees.BTNode.SetLeft | Assets/Scripts/Utils/Foundation/BTNode.cs:18 | the left slot takes the value, the right slot is kept, and the call completes exactly when the value is not null, which then has this node as parent |
| BinaryTrees.BTNode.SetRight | Assets/Scripts/Utils/Foundation/BTNode.cs:24 | the right slot takes the value, the left slot is kept, and the call completes exactly when the value is not null, which then has this node as parent |
| BinaryTrees.PreorderRL | Assets/Scripts/Utils/Foundation/BTNode.cs:58-71 | the depth-first order visits every node of the tree once, the root first |
| BinaryTrees.PreorderNodes | Assets/Scripts/Utils/Foundation/BTNode.cs:66-69 | null children are never visited: every visited entry is a real node |
| BinaryTrees.StackPush | Assets/Scripts/Utils/Foundation/BTNode.cs:61 | pushing a subtree on the stack puts that subtree's whole traversal in front of what the stack held |
| BinaryTrees.Pushed | Assets/Scripts/Utils/Foundation/BTNode.cs:66-69 | only non-null children are pushed |
| BinaryTrees.StackAppend | Assets/Scripts/Utils/Foundation/BTNode.cs:62-70 | the traversal of a stack is the traversal of its upper part followed by that of its lower part |
| BinaryTrees.PushedChildren | Assets/Scripts/Utils/Foundation/BTNode.cs:66-69 | because the right child is pushed last it is popped first: the children's traversals come out right subtree, then left subtree |
| BinaryTrees.PushedOrder | Assets/Scripts/Utils/Foundation/BTNode.cs:64-69 | popping a node and pushing its children leaves its right subtree, then its left subtree, then the rest of the stack |
| BinaryTrees.StackStep | Assets/Scripts/Utils/Foundation/BTNode.cs:64-69 | one pop-yield-push step yields the popped node and leaves a stack whose traversal is the remainder |
| BinaryTrees.DepthStep | Assets/Scripts/Utils/Foundation/BTNode.cs:62-70 | each loop iteration keeps "visited so far, then the stack's traversal, is the whole traversal" and visits fewer than all nodes before it, so the loop ends |
| BinaryTrees.PushedNodes | Assets/Scripts/Utils/Foundation/BTNode.cs:66-69 | the stack never holds a null node |
| BinaryTrees.DepthFirst | Assets/Scripts/Utils/Foundation/BTNode.cs:58-71 | the stack-driven loop yields exactly the preorder that visits a node, then its right subtree, then its left subtree |
| BinaryTrees.ValuesOf | Assets/Scripts/Utils/Foundation/BTNode.cs:50 | projecting nodes to their values keeps the length and the position of each value |
| BinaryTrees.ValuesOfAppend | Assets/Scripts/Utils/Foundation/BTNode.cs:50 | the projection to values distributes over concatenation |
| BinaryTrees.Enumerate | Assets/Scripts/Utils/Foundation/BTNode.cs:48-51 | enumerating a node yields one value per node of its subtree, its own value first |
| BinaryTrees.EnumerateContents | Assets/Scripts/Utils/Foundation/BTNode.cs:48-51 | the enumerated values are exactly the values stored in the tree, with multiplicity |
| BinaryTrees.LeavesOf | Assets/Scripts/Utils/Foundation/BTNode.cs:90 | filtering keeps at most the entries it is given |
| BinaryTrees.LeavesOfMembers | Assets/Scripts/Utils/Foundation/BTNode.cs:90 | the filter keeps exactly the entries whose two children are null |
| BinaryTrees.LeavesOfAppend | Assets/Scripts/Utils/Foundation/BTNode.cs:90 | the leaf filter distributes over concatenation |
| BinaryTrees.GetAllLeaves | Assets/Scripts/Utils/Foundation/BTNode.cs:88-91 | the result holds every leaf of the depth-first traversal and nothing that is not one |
| BinaryTrees.LeafCount | Assets/Scripts/Utils/Foundation/BTNode.cs:88-91 | a tree has exactly one more leaf than it has nodes with two children |
| BinaryTrees.Kids | Assets/Scripts/Utils/Foundation/BTNode.cs:81-84 | the enqueued children are real nodes one level deeper, and together they hold all of the node's subtree but the node itself |
| BinaryTrees.Bfs | Assets/Scripts/Utils/Foundation/BTNode.cs:77-85 | draining the queue visits exactly as many nodes as the queued subtrees hold |
| BinaryTrees.LevelOrder | Assets/Scripts/Utils/Foundation/BTNode.cs:73-86 | the breadth-first order visits every node once, starting with the root at depth 0 |
| BinaryTrees.BfsStep | Assets/Scripts/Utils/Foundation/BTNode.cs:79-84 | one dequeue-yield-enqueue step yields the front node and leaves a queue of real nodes whose order is the remainder |
| BinaryTrees.TreesCons | Assets/Scripts/Utils/Foundation/BTNode.cs:80 | dropping depth tags commutes with putting a node in front |
| BinaryTrees.TagsStep | Assets/Scripts/Utils/Foundation/BTNode.cs:79-84 | the depth-tagged queue of the specification and the untagged queue of the loop stay in step |
| BinaryTrees.BreadthFirst | Assets/Scripts/Utils/Foundation/BTNode.cs:73-86 | the queue-driven loop yields exactly the level order, which is every node at depth 0, then every node at depth 1, and so on, each level whole and left to right |
| BinaryTrees.BagAppend | Assets/Scripts/Utils/Foundation/BTNode.cs:77-85 | the nodes held by a queue are those of its front part plus those of its back part |
| BinaryTrees.BagSingle | Assets/Scripts/Utils/Foundation/BTNode.cs:76 | a queue holding one subtree holds the nodes of its preorder |
| BinaryTrees.BagKids | Assets/Scripts/Utils/Foundation/BTNode.cs:81-84 | enqueuing the children brings in exactly the nodes of the two subtrees |
| BinaryTrees.BfsBag | Assets/Scripts/Utils/Foundation/BTNode.cs:77-85 | draining a queue visits exactly the nodes the queued subtrees hold, each once |
| BinaryTrees.SameNodes | Assets/Scripts/Utils/Foundation/BTNode.cs:58-86 | the breadth-first and depth-first traversals visit the same nodes the same number of times; only the order differs |
| BinaryTrees.NextLayered | Assets/Scripts/Utils/Foundation/BTNode.cs:79-84 | a queue whose depths rise by at most one from front to back keeps that shape after a step, and the next front is no shallower |
| BinaryTrees.ConsSorted | Assets/Scripts/Utils/Foundation/BTNode.cs:80 | yielding a node no deeper than everything after it keeps the output sorted by depth |
| BinaryTrees.BfsSorted | Assets/Scripts/Utils/Foundation/BTNode.cs:77-85 | draining a layered queue yields nodes in non-decreasing depth, none shallower than the front |
| BinaryTrees.LevelOrderSorted | Assets/Scripts/Utils/Foundation/BTNode.cs:73-86 | the breadth-first traversal visits nodes level by level: depths never decrease |
| BinaryTrees.Level | Assets/Scripts/Utils/Foundation/BTNode.cs:73-86 | the nodes at a given depth, left subtree's before right subtree's, are real nodes |
| BinaryTrees.LevelBeyond | Assets/Scripts/Utils/Foundation/BTNode.cs:73-86 | no level at or beyond a tree's size holds a node, so the first `Size` levels are all of them |
| BinaryTrees.SizeFAppend | Assets/Scripts/Utils/Foundation/BTNode.cs:77-85 | the node count of a row of subtrees is additive over concatenation |
| BinaryTrees.Below | Assets/Scripts/Utils/Foundation/BTNode.cs:81-84 | the children of a row of nodes, left to right, are real nodes and hold one node fewer per row entry |
| BinaryTrees.LevelFAppend | Assets/Scripts/Utils/Foundation/BTNode.cs:77-85 | taking a level of a row distributes over concatenation |
| BinaryTrees.LevelFZero | Assets/Scripts/Utils/Foundation/BTNode.cs:80 | level 0 of a row of nodes is the row itself |
| BinaryTrees.LevelFBelow | Assets/Scripts/Utils/Foundation/BTNode.cs:81-84 | depth d below the row of children is depth d + 1 below the row, left to right |
| BinaryTrees.LevelsFBelow | Assets/Scripts/Utils/Foundation/BTNode.cs:81-84 | consecutive levels below the row of children are the next levels of the row |
| BinaryTrees.LayersAreLevels | Assets/Scripts/Utils/Foundation/BTNode.cs:77-85 | a row followed by the rows below it, down to the last, is the row's levels by increasing depth |
| BinaryTrees.EmptyLevels | Assets/Scripts/Utils/Foundation/BTNode.cs:77 | an empty row has empty levels |
| BinaryTrees.KidsAll | Assets/Scripts/Utils/Foundation/BTNode.cs:81-84 | the children enqueued for every entry of a queue are real nodes |
| BinaryTrees.TreesAppend | Assets/Scripts/Utils/Foundation/BTNode.cs:80 | dropping depth tags distributes over concatenation |
| BinaryTrees.KidsAllBelow | Assets/Scripts/Utils/Foundation/BTNode.cs:81-84 | the children enqueued for a queue are the row below the queued nodes, and weigh one node less per entry |
| BinaryTrees.BfsDrain | Assets/Scripts/Utils/Foundation/BTNode.cs:77-85 | dequeuing the front part of a queue yields it in order and leaves the rest followed by the front part's children |
| BinaryTrees.BfsLayers | Assets/Scripts/Utils/Foundation/BTNode.cs:77-85 | draining a queue yields its row, then the row below, and so on |
| BinaryTrees.LevelOrderByLevels | Assets/Scripts/Utils/Foundation/BTNode.cs:73-86 | the breadth-first order is the concatenation of the tree's levels by increasing depth |
| BinaryTrees.SingleLevels | Assets/Scripts/Utils/Foundation/BTNode.cs:76 | the levels of a one-tree row are that tree's levels |
| DagTraversal.PreOrder | Assets/Scripts/Utils/Foundation/GraphUtil.cs:142-147 | a pre-order visit is non-empty and starts with the node itself |
| DagTraversal.PostOrder | Assets/Scripts/Utils/Foundation/GraphUtil.cs:150-155 | a post-order visit is non-empty and ends with the node itself |
| DagTraversal.PreOrderAllAppend | Assets/Scripts/Utils/Foundation/GraphUtil.cs:145-146 | visiting a list of subtrees in order is visiting its first part, then its second part |
| DagTraversal.SameVisits | Assets/Scripts/Utils/Foundation/GraphUtil.cs:142-155 | pre-order and post-order visit the same nodes the same number of times |
| DagTraversal.SameVisitsAll | Assets/Scripts/Utils/Foundation/GraphUtil.cs:145-153 | the same holds for a whole list of subtrees |
| DagTraversal.Reverse | Assets/Scripts/Utils/Foundation/GraphUtil.cs:62-65 | reversal keeps the length |
| DagTraversal.ReverseSnoc | Assets/Scripts/Utils/Foundation/GraphUtil.cs:62-65 | the last element pushed is the first one reversed out |
| DagTraversal.PreOrderAllReverse | Assets/Scripts/Utils/Foundation/GraphUtil.cs:62-65 | pushing destinations in reverse order does not change which nodes lie below them |
| DagTraversal.QueueStep | Assets/Scripts/Utils/Foundation/GraphUtil.cs:38-46 | dequeuing a node and enqueuing its destinations keeps the nodes still to be met, minus the dequeued one |
| DagTraversal.StackStep | Assets/Scripts/Utils/Foundation/GraphUtil.cs:57-65 | popping a node and pushing its destinations keeps the nodes still to be met, minus the popped one |
| DagTraversal.FifoOrder | Assets/Scripts/Utils/Foundation/GraphUtil.cs:34-47 | the queue-driven order starts with the front of the queue |
| DagTraversal.LifoOrder | Assets/Scripts/Utils/Foundation/GraphUtil.cs:53-66 | the stack-driven order starts with the top of the stack |
| DagTraversal.FifoVisitsAll | Assets/Scripts/Utils/Foundation/GraphUtil.cs:34-47 | the queue-driven order meets every node below the queue once per occurrence, and nothing else |
| DagTraversal.LifoVisitsAll | Assets/Scripts/Utils/Foundation/GraphUtil.cs:53-66 | the stack-driven order meets every node below the stack once per occurrence, and nothing else |
| DagTraversal.FirstMatch | Assets/Scripts/Utils/Foundation/GraphUtil.cs:39-48 | no result exactly when nothing matches; otherwise the result is the earliest matching entry |
| DagTraversal.UnfoldAll | Assets/Scripts/Utils/Foundation/GraphUtil.cs:43-46 | each destination contributes one subtree |
| DagTraversal.UnfoldKids | Assets/Scripts/Utils/Foundation/GraphUtil.cs:17 | the subtrees of an unfolded node are the unfoldings of its destinations, in order |
| DagTraversal.UnfoldCountsPaths | Assets/Scripts/Utils/Foundation/GraphUtil.cs:32-68 | without a visited set a node is met once per path leading to it: the unfolded tree holds x exactly as often as there are paths from the origin to x |
| DagTraversal.UnfoldAllCountsPaths | Assets/Scripts/Utils/Foundation/GraphUtil.cs:43-46 | the same count, summed over a list of destinations |
| DagTraversal.FirstMatchCons | Assets/Scripts/Utils/Foundation/GraphUtil.cs:39-42 | the first match of a list is its head when the head matches, otherwise the first match of the rest |
| DagTraversal.FifoTurn | Assets/Scripts/Utils/Foundation/GraphUtil.cs:38-46 | one turn of the BFS loop yields the front and leaves a queue, smaller by one node, whose order is the rest |
| DagTraversal.LifoTurn | Assets/Scripts/Utils/Foundation/GraphUtil.cs:57-65 | one turn of the DFS loop yields the top and leaves a stack, smaller by one node, whose order is the rest |
| DagTraversal.EnqueueEach | Assets/Scripts/Utils/Foundation/GraphUtil.cs:43-46 | enqueuing the destinations one by one appends them in order |
| DagTraversal.PushEach | Assets/Scripts/Utils/Foundation/GraphUtil.cs:62-65 | pushing the destinations one by one puts them on top in reverse order |
| DagTraversal.BFS | Assets/Scripts/Utils/Foundation/GraphUtil.cs:32-49 | the search returns the first matching node in breadth-first order, or nothing when none matches; a matching origin is returned at once |
| DagTraversal.DFS | Assets/Scripts/Utils/Foundation/GraphUtil.cs:51-68 | the search returns the first matching node in depth-first order, last destination first, or nothing when none matches; a matching origin is returned at once |
| DagTraversal.SingletonForest | Assets/Scripts/Utils/Foundation/GraphUtil.cs:35 | a queue holding only the origin holds its traversal |
| DagTraversal.CanReach | Assets/Scripts/Utils/Foundation/GraphUtil.cs:27-30 | the origin reaches the destination exactly when at least one path leads from one to the other |
| DagTraversal.GetAccessibleNodes | Assets/Scripts/Utils/Foundation/GraphUtil.cs:70-83 | the nodes yield in breadth-first order, the root first |
| DagTraversal.AccessibleCountsPaths | Assets/Scripts/Utils/Foundation/GraphUtil.cs:70-83 | each node is yielded once per path from the root to it |
| DagTraversal.SameMembersSameVerdict | Assets/Scripts/Utils/Foundation/GraphUtil.cs:36-67 | two orders of the same nodes agree on whether any node matches |
| DagTraversal.SearchesAgree | Assets/Scripts/Utils/Foundation/GraphUtil.cs:32-68 | breadth-first and depth-first search agree on whether a match exists |
| DagTraversal.PostOrderAllAppend | Assets/Scripts/Utils/Foundation/GraphUtil.cs:150-155 | the post-order of a row of subtrees is additive over concatenation |
| DagTraversal.PreOrderBlock | Assets/Scripts/Utils/Foundation/GraphUtil.cs:142-147 | pre-order is the node, then each child's pre-order as one contiguous block in child order: every node comes before all of its descendants |
| DagTraversal.PostOrderBlock | Assets/Scripts/Utils/Foundation/GraphUtil.cs:150-155 | post-order is each child's post-order as one contiguous block in child order, then the node: every node comes after all of its descendants |
| DagTraversal.NTree.Shape | Assets/Scripts/Utils/Foundation/GraphUtil.cs:87-99 | the subtree rooted at a node of a well-formed tree has that node at its root and one subtree per child |
| DagTraversal.NTree.KidShape | Assets/Scripts/Utils/Foundation/GraphUtil.cs:93 | the i-th subtree of a node's shape is the shape of its i-th child, which is itself well formed |
| DagTraversal.NTree.constructor | Assets/Scripts/Utils/Foundation/GraphUtil.cs:108-111 | a new tree holds the value, has no parent and no children, and is a well-formed one-node tree |
| DagTraversal.NTree.WithParent | Assets/Scripts/Utils/Foundation/GraphUtil.cs:113-116 | the protected constructor also records the parent |
| DagTraversal.NTree.AddChild | Assets/Scripts/Utils/Foundation/GraphUtil.cs:118-130 | the new child is fresh, holds the value, has this node as parent and no children, and is appended to the children; the count grows by one, nothing else of this node changes, the tree stays well formed and its shape gains one leaf on the right |
| DagTraversal.NTree.Remove | Assets/Scripts/Utils/Foundation/GraphUtil.cs:133-139 | a node with a parent is taken out of the parent's children at its first occurrence, which shrinks them by one when it was there; the parent's value, parent and footprint are kept, a well-formed parent stays well formed and its shape loses exactly the subtree at that position (or is unchanged when the node was not among its children); the node's own parent link stays |
| DagTraversal.NTree.VisitPreOrder | Assets/Scripts/Utils/Foundation/GraphUtil.cs:142-147 | the visitor is called on exactly the pre-order of the node's subtree: the node first, each child's block after it |
| DagTraversal.NTree.VisitPostOrder | Assets/Scripts/Utils/Foundation/GraphUtil.cs:150-155 | the visitor is called on exactly the post-order of the node's subtree: each child's block, then the node last |
| DagTraversal.VisitsAgree | Assets/Scripts/Utils/Foundation/GraphUtil.cs:142-155 | both traversals call the visitor on the same nodes as often, pre-order starting and post-order ending at the node |
| Graphs.GraphNode.constructor | Assets/Scripts/Utils/Foundation/Graph.cs:83 | a new node holds the value and has no neighbours and no costs |
| Graphs.FirstWithValue | Assets/Scripts/Utils/Foundation/Graph.cs:64-73 | the position of the first node holding the value, or -1 exactly when no node holds it |
| Graphs.FindByValue | Assets/Scripts/Utils/Foundation/Graph.cs:64-73 | the search returns the first node whose value equals the one sought, or null when there is none |
| Graphs.Unlink | Assets/Scripts/Utils/Foundation/Graph.cs:171-177 | removing an edge keeps neighbours and costs the same length |
| Graphs.UnlinkDropsFirstEdge | Assets/Scripts/Utils/Foundation/Graph.cs:171-177 | a node without an edge to x is left alone; otherwise exactly the first edge to x and the cost at the same position go, every other edge stays |
| Graphs.Graph.constructor | Assets/Scripts/Utils/Foundation/Graph.cs:115-123 | without a node list the graph starts empty; with one it adopts that list |
| Graphs.Graph.Values | Assets/Scripts/Utils/Foundation/Graph.cs:183-186 | enumerating the graph yields the value of each node, in list order |
| Graphs.Graph.AddNode | Assets/Scripts/Utils/Foundation/Graph.cs:125-129 | the node is appended to the node list, which grows by one |
| Graphs.Graph.AddValue | Assets/Scripts/Utils/Foundation/Graph.cs:131-135 | a fresh node without edges is appended, and the enumerated values gain the new value at the end |
| Graphs.Graph.AddDirectedEdge | Assets/Scripts/Utils/Foundation/Graph.cs:137-141 | the target and the cost are appended to the source's edges; the source's value is kept, and its lists stay aligned exactly when they were |
| Graphs.Graph.AddUndirectedEdge | Assets/Scripts/Utils/Foundation/Graph.cs:143-150 | each end gains the other as a neighbour with the cost; a self-loop gains itself twice; aligned lists stay aligned |
| Graphs.Graph.Contains | Assets/Scripts/Utils/Foundation/Graph.cs:152-155 | true exactly when some node holds the value |
| Graphs.Graph.Remove | Assets/Scripts/Utils/Foundation/Graph.cs:157-181 | true exactly when some node holds the value; then that first node leaves the node list, the list of values loses exactly that position, and every remaining node loses its first edge to it with the matching cost; otherwise nothing changes; no node's value changes |
| Graphs.FirstIsIndex | Assets/Scripts/Utils/Foundation/Graph.cs:160-166 | the first node holding the value is also that node's first occurrence in the list, so removing it by reference takes out the position the search found |
| Graphs.Graph.Detach | Assets/Scripts/Utils/Foundation/Graph.cs:166-178 | the node leaves the node list and each remaining node's edges are swept of it, keeping neighbour and cost lists aligned; no node's value changes |
| Graphs.EdgeMap | Assets/Scripts/Utils/Foundation/Graph.cs:169-178 | the edge snapshot has an entry for every listed node |
| Graphs.Sweep | Assets/Scripts/Utils/Foundation/Graph.cs:169-178 | sweeping the edges keeps every adjacency list aligned with its costs and touches no node outside the snapshot |
| Graphs.SweepSkips | Assets/Scripts/Utils/Foundation/Graph.cs:169 | a node the sweep does not enumerate keeps its edges |
| Graphs.SweepOnce | Assets/Scripts/Utils/Foundation/Graph.cs:169-178 | a node enumerated once loses exactly its first edge to the removed node |
| Graphs.RemoveFirstWithin | Assets/Scripts/Utils/Foundation/Graph.cs:166 | removing a node from the list introduces no new node |
| Graphs.UnlinkNode | Assets/Scripts/Utils/Foundation/Graph.cs:171-177 | one loop body removes the node's first edge to x and the matching cost and keeps its value |
| Graphs.UnlinkEach | Assets/Scripts/Utils/Foundation/Graph.cs:169-178 | the loop over the remaining nodes leaves every node's edges as the sweep of the snapshot says, and no node's value changes |
| Graphs.SweepNext | Assets/Scripts/Utils/Foundation/Graph.cs:169-178 | sweeping one more node updates exactly that node's entry |
| Graphs.DistinctCount | Assets/Scripts/Utils/Foundation/Graph.cs:113 | in a list without repeats each node occurs once or not at all |
| Graphs.RemoveDistinct | Assets/Scripts/Utils/Foundation/Graph.cs:166 | in a list without repeats the removed node is gone afterwards and every other node is still there once |
| Graphs.RemoveFromDistinct | Assets/Scripts/Utils/Foundation/Graph.cs:157-181 | in a graph listing each node once, removal leaves the removed node's own edges alone and strips from every other node exactly its first edge to it |
| Colors.UpperDigit | Assets/Scripts/Utils/Unity/UnityUtil.cs:265 | a nibble is written as an upper-case hex digit |
| Colors.HexValue | Assets/Scripts/Utils/Unity/UnityUtil.cs:48 | exactly 0-9, a-f and A-F are hex digits, each worth less than 16 |
| Colors.ByteToHex | Assets/Scripts/Utils/Unity/UnityUtil.cs:265-268 | `ToString("X2")` writes a byte as exactly two upper-case hex digits |
| Colors.ByteToHexDigits | Assets/Scripts/Utils/Unity/UnityUtil.cs:265-268 | the first digit is the high nibble and the second the low nibble |
| Colors.ToHex | Assets/Scripts/Utils/Unity/UnityUtil.cs:263-269 | a colour is written as exactly eight upper-case hex digits |
| Colors.RemoveAll | Assets/Scripts/Utils/Unity/UnityUtil.cs:39-40 | `Replace(pattern, "")` never lengthens the string |
| Colors.RemoveAllAbsent | Assets/Scripts/Utils/Unity/UnityUtil.cs:39-40 | a string lacking a character of the pattern is left unchanged |
| Colors.RemoveAllOnePass | Assets/Scripts/Utils/Unity/UnityUtil.cs:39 | the replacement is a single pass: "00xx" becomes "0x", which still holds the prefix |
| Colors.ToLower | Assets/Scripts/Utils/Unity/UnityUtil.cs:41 | lowering keeps the length, leaves no upper-case ASCII letter and changes no other character |
| Colors.LowerKeepsHex | Assets/Scripts/Utils/Unity/UnityUtil.cs:41 | lowering keeps the value of every hex digit |
| Colors.ParseHexByte | Assets/Scripts/Utils/Unity/UnityUtil.cs:48-50 | a two-character piece parses only when each character is a hex digit or white space and at least one is a digit; otherwise it fails with a format error |
| Colors.ParseByteToHex | Assets/Scripts/Utils/Unity/UnityUtil.cs:48-50 | a byte written with `X2`, in upper or lower case, parses back to itself |
| Colors.Normalize | Assets/Scripts/Utils/Unity/UnityUtil.cs:38-41 | normalising never lengthens the code |
| Colors.StrToColor | Assets/Scripts/Utils/Unity/UnityUtil.cs:36-58 | a built-in name yields that colour; any other code shorter than six characters fails; a parsed colour comes from six hex characters, plus two more for alpha when the code is exactly eight long, and is opaque otherwise |
| Colors.NoMarks | Assets/Scripts/Utils/Unity/UnityUtil.cs:263-269 | hex output holds neither "x" nor "#", so normalising it only lowers it |
| Colors.NormalizeToHex | Assets/Scripts/Utils/Unity/UnityUtil.cs:38-41 | normalising the output of `ToHex` just lowers it |
| Colors.RoundTrip | Assets/Scripts/Utils/Unity/UnityUtil.cs:36-58 | reading back what `ToHex` wrote gives the same colour |
| Colors.SixDigitsOpaque | Assets/Scripts/Utils/Unity/UnityUtil.cs:47-57 | a "#"-prefixed six-digit code gives the colour with alpha 255 |
| Lifecycle.Updated | Assets/Scripts/GameManager.cs:69-89 | an update moves the state at most one stage forward, and moves it exactly when loading finds no scene initializers or post-loading finds no post-scene initializers |
| Lifecycle.Started | Assets/Scripts/GameManager.cs:56-61 | starting changes the state exactly when it is Ready, and then to InGame |
| Lifecycle.Ended | Assets/Scripts/GameManager.cs:38-54 | ending changes the state exactly when it is InGame, and then to GameOver, whether the game was won or not |
| Lifecycle.ApplyForward | Assets/Scripts/GameManager.cs:38-89 | no event moves the state back or more than one stage |
| Lifecycle.RunForward | Assets/Scripts/GameManager.cs:38-89 | a series of events advances the state by at most one stage per event |
| Lifecycle.GameOverFinal | Assets/Scripts/GameManager.cs:38-89 | GameOver is final: no event leaves it |
| Lifecycle.FullRun | Assets/Scripts/GameManager.cs:38-89 | a load, start and finish in order reaches GameOver; starting or ending a game still loading changes nothing |
| Lifecycle.GameManager.constructor | Assets/Scripts/GameManager.cs:23-25 | both initializer sets start empty |
| Lifecycle.GameManager.Awake | Assets/Scripts/GameManager.cs:63-66 | waking sets the state to Loading and keeps the initializer sets |
| Lifecycle.GameManager.Update | Assets/Scripts/GameManager.cs:69-89 | the new state is the lifecycle update of the old one under the initializer sets as they were, which are kept |
| Lifecycle.GameManager.GameStart | Assets/Scripts/GameManager.cs:56-61 | the new state is the started old state; the initializer sets are kept |
| Lifecycle.GameManager.GameOver | Assets/Scripts/GameManager.cs:38-54 | the new state is the ended old state; the initializer sets are kept |

## Left out

- Overflow of C# `int` in the geometry (`Vec2i`, `Segment1i`, `Recti`, `GetDivisors`) is not modelled: coordinates are unbounded integers. Only `Rangei.median`, whose finding depends on it, wraps explicitly.
- The single-precision float members are left out because the model has no IEEE floats: `RNG.NextIntRange`, `NextFloat`, `NextFloat1`, `NextFloatRange`, `NextBool` and `NextVec2i`; `Vec2i.length`; `Recti.center` and `aspectRatio`; `Rangef`; `RectTree.AreaSum`.
- `WeightedSelection.Select(RNG)` and `GetSample` draw through the float path, so they are left out. The selection takes its sample as a parameter (`Select`, `SelectItem`).
- The index that `Shuffle` draws from the generator is a parameter (`draws`), because the draw goes through the float path.
- Seeding `State(int seed)` fills the words from `System.Random`, which is foreign code. A state is built from sixteen given words (`State.FromWords`).
- `Grid.Init<S>()` is left out: it creates one object of an unknown type per cell, and the model has no generic object creation.
- `BitGrid<T>` inherits from `BitGrid` in C#. The model's `ItemBitGrid` instead holds a `BitGrid` and its payload `Grid<T>` as two fields, so the bit operations are reached through `Bits`.
- Grids.BitGrid.New, Grids.Grid.New and the other grid constructors compute `TotalCells` and the BitArray length `w*h` as an unbounded integer. The source multiplies in 32 bits, so a product of 2^31 or more wraps; such a grid would not fit in memory anyway.
- Graph edge costs are C# `float`. They are only stored and removed, never computed with, so they are `real` values.
- The `GraphNode(value, neighbors)` constructor and `NodeList(initialSize)` are left out. The first can give a node neighbours without costs, the second fills the list with nulls, and the graph operations assume neither.
- Graphs.Graph.Remove requires every node's neighbour and cost lists to have the same length. The source's `Costs.RemoveAt` throws otherwise; that throw is not modelled. The model's graph operations keep the lists aligned.
- A `NodeList` handed to the `Graph` constructor, and a node's `Neighbors` list handed out by the property, can be changed by the caller behind the graph's back. The model has no such aliasing: the node list is a sequence field.
- Graphs.FindByValue compares values with value equality. The source calls the values' own `Equals`, which a null value would make throw.
- `BTNode` traversals are modelled on the value tree `Tree` that an acyclic, unshared node structure describes. A node reachable twice, or a cycle through `Parent`-less children, is not modelled.
- Enumerators (`yield return`) are modelled as the whole sequence they yield. Laziness and a consumer that stops early are not modelled.
- DagTraversal.BFS, DagTraversal.DFS, DagTraversal.CanReach and DagTraversal.GetAccessibleNodes require an acyclic graph, given as a rank that every edge decreases. On a cycle the source may loop forever when no reachable node matches, and the model does not represent non-termination.
- `NTree.PreOrder` and `PostOrder` take a visitor callback. The model gives the sequence of nodes the visitor is called with (`NTree.VisitPreOrder`, `NTree.VisitPostOrder`); a visitor that changes the tree is not modelled.
- DagTraversal.NTree.AddChild: the shape and footprint promised are those of the node itself; the footprints of its ancestors are not enlarged, so an ancestor's `Valid` is not carried across the call.
- `RectTree` and its area sums are float arithmetic and are left out.
- The colour names that `StrToColor` looks up are read from Unity's `Color` by reflection. The model yields the name (`Named`) instead of the float colour.
- `ToLower` is modelled on ASCII letters only; culture-specific lowering of other characters is not modelled. A null code and the .NET parser's acceptance of trailing NUL characters are not modelled either.
- CSharpUtil.Upper and CSharpUtil.TitleCase upper-case the ASCII letters `a`-`z` only. .NET's `char.ToUpper` follows the current culture and also maps other letters (accented Latin, Greek, Cyrillic, ...); those characters are left unchanged in the model.
- IntMath.Mod is the intended residue computed without overflow. The source's 32-bit `x % m + m` wraps when `|m|` exceeds 2^30, and `int.MinValue % -1` throws; `IntMath.ModAsWritten` models both (see Findings), and `IntMath.ModAsWrittenAgrees` shows the two agree whenever `|m| <= 2^30` and the throwing case is excluded.
- Distribution.Accumulate, Distribution.WeightedSelection.constructor and Distribution.WeightedSelection.Create keep the running totals and `TotalWeights` as unbounded integers. The source adds in 32-bit `int`, which wraps once the kept weights sum past `int.MaxValue`: weights `[2147483647, 2147483647, 2]` total 0 there, and the source throws where the model succeeds. The model's promises hold for totals up to `int.MaxValue`.
- `GameManager` camera, audio, event and scene-object side effects are left out; the initializer sets are a type parameter. The `SceneInitializer` registration that fills them is Unity glue.
- `LinkedList<T>` is modelled as the sequence of its node values, and a node as its position. `RemoveIf` unlinking nodes in place and `Find` returning a node object are modelled on that sequence.
- DoubleBuffers.DoubleBuffer.constructor takes the two buffers as arguments, where the source creates them with `new T()`; their freshness and distinctness are not modelled.
- CSharpUtil.BinarySearch does not promise to return the FIRST index holding the key, as the source's doc comment says: with repeated keys the code returns whichever matching index the bisection meets first.
- `UnorderedPair.GetHashCode` of the elements is a parameter, because element hashing is the elements' own code.
- `Repeat` and `Append` of `CSharpUtil`, reflection, regular-expression and attribute tooling, the editor and asset utilities, and the gameplay MonoBehaviours are not part of this model.

## Findings

| source | as written | input that shows it | evidently intended | confidence | as-written member | corrected member |
|---|---|---|---|---|---|---|
| Assets/Scripts/Utils/Math/MathUtil.cs:162 | `Vec2i` `!=` holds only when both components differ | `(1,2)` and `(1,3)`: neither `==` nor `!=` holds | `!=` is the negation of `==` | not executed | Vectors.NeAsWrittenIsNotNegation | Vectors.NeIsNegation |
| Assets/Scripts/Utils/Math/MathUtil.cs:471 | `a.position != b.position`, or else `a.size != b.size`, each with the `Vec2i` `!=`, so it holds only when the positions differ on both axes or the sizes differ on both axes | two rectangles that differ only in `y` | `!=` is the negation of `==` | not executed | Rects.NeAsWrittenIsNotNegation | Rects.EqNeAgree |
| Assets/Scripts/Utils/Math/MathUtil.cs:419 | the `min` setter assigns the position to itself | setting `min` of `(0,0,2,2)` to `(1,1)` leaves it at `(0,0)` | the minimum corner moves to the value | not executed | Rects.SetMinAsWrittenIgnoresValue | Rects.SetMin |
| Assets/Scripts/Utils/Math/RNG.cs:31 | the copy constructor passes `Array.Copy` its arguments in reverse | copying any state: both the copy and the original end with sixteen zero words | the copy takes the original's words and leaves the original alone | not executed | Well512.State.CopyAsWritten | Well512.State.Copy |
| Assets/Scripts/Utils/Foundation/CSharpUtil.cs:550 | when the bisection ends with `min > max` the search throws | key 3 in the sorted list `[5, 10]` | return the complement of the insertion point | not executed | CSharpUtil.BinarySearchThrows | CSharpUtil.BinarySearch |
| Assets/Scripts/Utils/Foundation/Range.cs:28 | `max - min` overflows for ranges wider than `int.MaxValue` | `[int.MinValue, 1]` gives a median of 0x40000001, outside the range | the midpoint, always inside the range | not executed | Ranges.MedianAsWrittenOverflows | Ranges.MedianInRange |
| Assets/Scripts/Utils/Math/MathUtil.cs:16-19 | `(x % m + m) % m` in 32-bit `int`: the sum can wrap once the modulus exceeds 2^30, and `int.MinValue % -1` throws | `x = 2147483646`, `m = 2147483647` gives -3; `x = int.MinValue`, `m = -1` throws | the residue of `x`, in `[0, m)` for a positive modulus | not executed | IntMath.ModWrapWitness | IntMath.Mod |
