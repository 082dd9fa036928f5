# MiniGUI: regions, fixed point, coordinate mapping, byte order and memory loops

A Dafny model of the parts of MiniGUI whose arithmetic is easy to get wrong, with proofs of what they compute.
`dafny verify dfyconfig.toml` checks everything.

| Source | Modules | What is modelled |
|---|---|---|
| `src/newgdi/region.c` | `Spans`, `Bands`, `Coalescing`, `Pointers`, `RegionRep`, `Sweep`, `Regions`, `RegionShift`, `RegionMerging`, `StaleRegions`, `InvertedRects`, `ClipRegion`, `RegionSweep`, `RegionFunctions`, `RegionRuns` | clipping regions: the scan-line sweep, the merging of bands, the public region operations |
| `src/newgdi/rect.c`, `include/gdi.h` | `Rects` | rectangle operations |
| `include/fixedmath.h` | `Doubles`, `FixedArith`, `FixedDouble`, `FixedNearest`, `FixedMath`, `FixedLibrary` | 16.16 arithmetic through C `double`, and `errno` |
| `src/newgdi/coor.c` | `Mapping` | logical and device coordinates |
| `include/endianrw.h` | `Endian` | byte swaps and cursor readers |
| `vcongui/defs.h` | `MemoryLoops` | copying downwards and clearing |

## How the region proof is built

The class `ClipRgn` and the methods of `RegionSweep` and `RegionFunctions` work in place on the rectangle list, loop
for loop, with list nodes as indices. They are proved to leave exactly the list `Sweep.SweepFrom`, for any lists and
any bounds, valid or not. A valid region is a list in y-x-banded form with the bounds that belong to it. For such
regions the list is that of the slabs of the sweep (`Bands.Slabs`), paired by the calls of REGION_Coalesce
(`Coalescing.MergePairs`), and the lemmas say what that is: a banded list that covers, point by point, the union,
intersection or difference. The pairing (`Sweep.SweepIsOpBands`) and the contents of every scanline
(`Bands.SlabsRow`) hold for far more than valid bands.

InitCircleRegion and InitEllipseRegion can leave a region that is not valid: one cell with stale bounds.
`StaleRegions` gives, for every operation on valid and stale regions, the exact condition under which it is right.
`InvertedRects` does so for inverted rectangles, which AddClipRect accepts: they cost no point of a valid region, but
may stay in its list. `RegionRuns` lifts all this to every sequence of calls on one region.

`double` is a `real` rounded to 53 bits, ties to even (section 4.3.1 of IEEE 754-2008). The module `Doubles`
proves that this is the rounding meant: the result is a double and no double is nearer (`Doubles.RoundedIsDouble`,
`Doubles.Nearest`). The results on fixmul and fixdiv use that it is monotone, the identity on doubles, and off by at
most one part in 2^53 (`Doubles.RoundedMonotone`, `Doubles.DoubleExact`, `Doubles.RelativeError`).

## Where the code differs from its documentation

The model follows the code.

- The region comments (`src/newgdi/region.c:88-92`, `include/gdi.h:529-533`) promise that bands are merged
  whenever possible. REGION_RegionOp passes the tail of the list before the new slab as the start of the current
  band (`src/newgdi/region.c:692`, `src/newgdi/region.c:754-759`), so the slab just appended is never compared
  with the one before it. `Regions.StackedNotMerged` gives the family of smallest examples;
  `Regions.RegionOpCanonicalIff` and `Regions.CanonicalKeptIff` say exactly when the result is fully merged,
  `RegionMerging.TwoRectsCanonicalIff` does so on the coordinates of two rectangles, and
  `RegionMerging.EqualRowsLeave` shows what drawing a rectangle row by row leaves.
- InitCircleRegion with a radius below 1, and InitEllipseRegion with such a half axis, leave a rectangle in a region
  whose type and bounds are those of an empty one (`src/newgdi/region.c:1660-1669`). Later operations can then lose
  the point or store an inverted rectangle: `StaleRegions.DotUnionLost`. `StaleRegions.CombinedRightIff`,
  `StaleRegions.XorRightIff` and `RegionRuns.RunRightIff` say exactly when they are right.
- AddClipRect takes an inverted rectangle for one with points, because IsRectEmpty only compares sides for equality
  (`src/newgdi/rect.c:23-28`), and can leave a list that is not y-x-banded: `InvertedRects.InvertedAdded` says when.
- ftofix does not return the nearest value for the greatest double below half a unit, nor for its negative:
  `FixedNearest.FtofixNearestIff`.
- fixsub(0, -2^31) overflows without an error (`include/fixedmath.h:231-251`): `FixedMath.FixsubExact`.
- fixceil is documented as rounding to the nearest integer (`include/fixedmath.h:296`); it is a ceiling,
  and the nearest integer exactly where `FixedMath.FixceilIsNearestIff` says.
- The trigonometric functions are documented in radians; a turn is 256.0 and nothing else: `FixedMath.CosTurnIff`,
  `FixedMath.SinTurnIff`, `FixedMath.TanTurnIff`, `FixedMath.NotRadians`.
- InflateRectToPt is documented to make the rectangle contain the point (`include/gdi.h:4999-5000`). Under PtInRect
  that holds only for a point left of the old right side and above the old bottom: `Rects.InflatedContains`.
- lzero clears twice as many bytes as asked for where `long` has eight bytes: `MemoryLoops.ClearedExactly`.

## Model

| member | source | states |
|---|---|---|
| RegionSweep.RegionOpInto | src/newgdi/region.c:589-842 | for any two lists that are not empty and any bounds, in place and also when the result is one of the sources, the sweep leaves exactly the list `RegionOp` of the two old values |
| RegionSweep.SweepTurn | src/newgdi/region.c:691-778 | one turn of the main loop, on any lists: it appends, coalesces, and moves the nodes and the sweep line as `Turn` says |
| RegionSweep.AddLeftOver | src/newgdi/region.c:781-799 | appends the bands of the region left over, clipped at the sweep line |
| Sweep.SweepIsOpBands | src/newgdi/region.c:691-802 | for any bands and any start: if every slab starts below the one before, as it does for valid regions, the list with its pointers is that of the slabs, paired as `MergePairs` pairs them |
| Sweep.SweepPairs | src/newgdi/region.c:691-802 | the same from any state of the main loop |
| Sweep.TurnSettles | src/newgdi/region.c:691-778 | one turn keeps the state of the output: settled and pending bands, the latter at `prevBand`, as long as its slabs start below them |
| Sweep.FoldedPairs | src/newgdi/region.c:754-774 | settling one slab after the other amounts to pairing the whole list of slabs |
| Sweep.UnionIntoIs | src/newgdi/region.c:957-1006 | onto a tail that is not in the band, REGION_UnionO appends the union of the spans |
| Bands.SlabsValid | src/newgdi/region.c:691-804 | the slabs of the sweep are valid bands, in order, below the sweep line |
| Bands.SlabsRow | src/newgdi/region.c:691-804 | on every scanline from the sweep line on, the slabs hold what the overlap function makes of the two regions there, even if the rectangles of a band overlap or are inverted |
| Bands.SlabsIn | src/newgdi/region.c:691-804 | a point at or below the sweep line is in the slabs iff the set operation holds of it |
| Spans.OverlapSeparated | src/newgdi/region.c:861-1157 | within a band, each of the three overlap functions yields non-empty spans, sorted, no two touching |
| Spans.OverlapIn | src/newgdi/region.c:861-1157 | and they cover exactly the points of the union, intersection or difference |
| Spans.SpansUnique | include/gdi.h:525-527 | two span lists with no touching neighbours that cover the same points are equal |
| ClipRegion.ClipRgn.IntersectO | src/newgdi/region.c:861-906 | appends to the list the rectangles of the intersection of two bands, in place |
| ClipRegion.ClipRgn.UnionO | src/newgdi/region.c:957-1006 | merges the rectangles of two bands into any list by MERGERECT, from left to right |
| ClipRegion.ClipRgn.SubtractO | src/newgdi/region.c:1055-1157 | appends the rectangles of the difference of two bands |
| ClipRegion.ClipRgn.NonOverlap | src/newgdi/region.c:927-941 | appends the rectangles of a band with new top and bottom |
| ClipRegion.ClipRgn.Coalesce | src/newgdi/region.c:420-562 | stretches the previous band and unlinks the current one iff they have the same number of rectangles, touch and have equal sides; returns the start for the next call |
| Pointers.CallStep | src/newgdi/region.c:754-774 | as REGION_RegionOp calls it, with the old tail as current band, one call settles the pending bands by one step of `MergePairs`, and the index it returns is where the next pending band starts |
| Pointers.NeighboursMerged | src/newgdi/region.c:420-562 | REGION_Coalesce on two neighbouring bands of any sizes that touch and have equal sides leaves one band over both, and the next call starts there |
| Pointers.NeighboursKept | src/newgdi/region.c:420-562 | any other two neighbouring bands it leaves as they are, and the next call starts at the second |
| Coalescing.OpBandsValid | src/newgdi/region.c:691-802 | after all calls the bands are still y-x-banded |
| Coalescing.OpBandsIn | src/newgdi/region.c:691-802 | and cover exactly the points of the set operation |
| Coalescing.MergePairsCoalescedIff | src/newgdi/region.c:88-92 | the calls leave no mergeable neighbours iff every mergeable pair of slabs is one that they compare |
| Coalescing.OpBandsCoalescedIff | src/newgdi/region.c:754-802 | the same for the whole sweep, with the slabs of the region left over at the end |
| Coalescing.LeftOverCoalesced | src/newgdi/region.c:541-545 | the slabs of the region left over have nothing to merge among them if the sources have nothing to merge |
| Coalescing.OpBandsKeptIff | src/newgdi/region.c:754-802 | from fully merged sources the result is fully merged iff every mergeable pair of paired slabs is compared |
| RegionRep.ToBandsValid | include/gdi.h:511-523 | a banded rectangle list is the writing out of valid bands |
| RegionRep.ToBandsFlatten | include/gdi.h:511-523 | valid bands are recovered from the rectangle list |
| RegionRep.BandsUnique | include/gdi.h:511-533 | two fully merged band lists that cover the same points are equal |
| RegionRep.CanonicalUnique | include/gdi.h:511-533 | the documented form is canonical: two lists in that form covering the same points under PtInRect are the same list |
| Regions.WithinExtents | src/newgdi/region.c:337-371 | the bounds, with top and bottom read off head and tail, hold every rectangle |
| Regions.ExtentsLeast | src/newgdi/region.c:337-371 | no smaller rectangle holds all points of the region |
| Regions.SingleValid | src/newgdi/region.c:268-293 | a region of one rectangle is valid iff the rectangle has points, and covers exactly that rectangle |
| Regions.RegionOpBanded | src/newgdi/region.c:589-842 | the result list of the sweep is y-x-banded |
| Regions.RegionOpIn | src/newgdi/region.c:589-842 | the result list covers exactly the points of the set operation |
| Regions.CombinedValid | src/newgdi/region.c:1162-1293 | with all their short cuts, union, intersection and difference keep the region invariant |
| Regions.CombinedIn | src/newgdi/region.c:1162-1293 | with all their short cuts they compute the set operation on every point |
| Regions.CombinedIs | src/newgdi/region.c:1162-1293 | for valid regions, the value is a copy of a source, type and bounds included, if one rectangle holds every point of the other region (union) or the bounds share no point (difference); an intersection is then empty; otherwise list and type are those of the sweep |
| Regions.AroundStays | src/newgdi/region.c:1252-1279 | the union with a rectangle that holds every point of the other region is that one rectangle, from either side |
| Regions.XorCombinedIn | src/newgdi/region.c:1296-1311 | XorRegion keeps the invariant and holds a point iff exactly one source does |
| Regions.OffsetValid | src/newgdi/region.c:1497-1509 | moving keeps the invariant, bounds included |
| Regions.OffsetIn | src/newgdi/region.c:1497-1509 | a point is in the moved region iff the unmoved point was in the old one |
| RegionShift.OffsetCanonical | src/newgdi/region.c:1497-1509 | the moved list is in the full documented form iff the old one was |
| Regions.RegionOpCanonicalIff | src/newgdi/region.c:88-92 | for all sources, the result is in the full documented form iff the calls compare every mergeable pair of slabs and none is left in the tail |
| Regions.CanonicalKeptIff | src/newgdi/region.c:88-92 | for sources in the full form the condition on the tail falls away |
| Regions.StackedNotMerged | src/newgdi/region.c:88-92 | the union of any two rectangles of equal sides stacked on each other stays two rectangles, though one would do |
| RegionMerging.TwoRectsCanonicalIff | src/newgdi/region.c:88-92 | the union of two rectangles is fully merged iff neither lies deeper than the other, overlapping it and as wide at both sides, or touching it with equal sides |
| RegionMerging.EqualRowsLeave | src/newgdi/region.c:1511-1654 | drawing a rectangle of at least two rows row by row leaves two rectangles, the last row by itself |
| RegionFunctions.SetExtents | src/newgdi/region.c:337-371 | one pass sets the bounds of any list: top and bottom of its ends, the outermost sides of all rectangles; zero for an empty list |
| RegionFunctions.PtInRegion | src/newgdi/region.c:145-172 | TRUE only for a point of the region; for any banded list, whatever its bounds, exactly then |
| RegionFunctions.RectInRegion | src/newgdi/region.c:175-208 | TRUE only if the bounds and some rectangle meet the given one; for any banded list exactly then |
| RegionFunctions.MeetsIffCommonPoint | src/newgdi/region.c:175-208 | for a valid region and a rectangle with points, that is to have a point in common |
| RegionFunctions.DotMeetsIff | src/newgdi/region.c:1656-1669 | on the dot of a radius below 1, it is so only if the rectangle also reaches across the origin |
| RegionFunctions.SetClipRgn | src/newgdi/region.c:268-293 | sets list, bounds and type to the rectangle; fails and changes nothing for an empty one |
| RegionFunctions.ClipRgnCopy | src/newgdi/region.c:295-334 | copies list, bounds and type; fails and changes nothing if the two are one object |
| RegionFunctions.ClipRgnIntersect | src/newgdi/region.c:1162-1186 | on any regions, aliased or not: leaves `Combined` of the old values in dst; FALSE iff one is empty or the bounds do not meet |
| RegionFunctions.SubtractRegion | src/newgdi/region.c:1201-1224 | on any regions, aliased or not: leaves `Combined` of the old values, a copy of the minuend if that is empty |
| RegionFunctions.UnionRegion | src/newgdi/region.c:1229-1293 | on any regions, aliased or not: leaves `Combined` of the old values, a copy if the sources are one object or the first is empty; of valid regions, the one rectangle that holds all points of the other |
| RegionFunctions.XorRegion | src/newgdi/region.c:1296-1311 | on any regions, aliased or not: leaves the union of the two differences of the old values |
| RegionFunctions.AddClipRect | src/newgdi/region.c:1314-1346 | for any region and any rectangle, inverted ones too: leaves `Combined` with it; fails and changes nothing for an empty one |
| RegionFunctions.IntersectClipRect | src/newgdi/region.c:1349-1383 | for any region and any rectangle: leaves `Combined` with it, the empty region for an empty one |
| RegionFunctions.SubtractClipRect | src/newgdi/region.c:1385-1417 | for any region and any rectangle: leaves `Combined` with it; fails and changes nothing for an empty rectangle or one apart from the bounds |
| RegionFunctions.OffsetRegion | src/newgdi/region.c:1497-1509 | adds the offset to the four sides of every rectangle and of the bounds, in place, and keeps the type |
| RegionFunctions.CbRegion | src/newgdi/region.c:1622-1653 | adds one row of pixels, given either end first |
| RegionMerging.RowsSnoc | src/newgdi/region.c:1622-1653 | the rows are united one after the other, in the order in which they are reported, into an empty region as into any other |
| RegionFunctions.InitCircleRegion | src/newgdi/region.c:1656-1674 | for a radius below 1 leaves one cell with the type and bounds of the empty region, otherwise what the callbacks draw |
| RegionFunctions.InitEllipseRegion | src/newgdi/region.c:1676-1694 | the same for half axes |
| StaleRegions.CombinedRightIff | src/newgdi/region.c:1162-1293 | for valid and stale regions, union, intersection and difference are right on every point iff the guard of their branch holds: for copies, that the cell is not a common point; for short cuts, that it is covered; for the sweep, that it does not start below a kept upper cell |
| StaleRegions.CombinedSound | src/newgdi/region.c:1162-1293 | under the guard the result is valid or stale again |
| StaleRegions.FitsRight | src/newgdi/region.c:675-678 | for any two banded lists with any bounds, a sweep whose start fits leaves a banded list with exactly the points of the set operation |
| StaleRegions.CellLost | src/newgdi/region.c:716-735 | otherwise the cell is lost, and unless the start is the line right below it an inverted rectangle is stored |
| StaleRegions.XorRightIff | src/newgdi/region.c:1296-1311 | the symmetric difference is right iff both differences are, and their union where they are mere copies |
| StaleRegions.DotUnited | src/newgdi/region.c:1229-1293 | the dot (x, y) and a valid region, either way round: the union is right iff the region is empty, or is one rectangle around the origin that holds the point, or min(0, its top) <= y |
| StaleRegions.DotUnionLost | src/newgdi/region.c:1229-1293 | where the start is below the point, the exact list that UnionRegion leaves; it is valid only if the start is right below the point |
| StaleRegions.DotCut | src/newgdi/region.c:1162-1224 | the same for both differences and both intersections: in terms of the point, of the top of the region, and of whether its bounds lie around the origin |
| StaleRegions.DotClipped | src/newgdi/region.c:1656-1694 | clipped to a rectangle around its point, the dot keeps the point iff the rectangle reaches across the origin |
| InvertedRects.InvertedAdded | src/newgdi/region.c:1314-1346 | adding an inverted rectangle to a valid region changes no point, to a stale one iff the sweep starts above the cell or the rectangle runs up to it; the list keeps its form iff the region seems to contain the rectangle, or one from bottom to top lands on the sides of a band, or one from right to left has the region all along its left |
| RegionRuns.Perform | src/newgdi/region.c:235-1694 | any call of the region functions, in place, with the region itself or any others as its sources, leaves the value that `Step` gives, on any region whose list is not empty or whose type and bounds are those of an empty one |
| RegionRuns.PerformAll | src/newgdi/region.c:235-1694 | so does any sequence of calls; the object then holds the points that the sequence means if every guard was met, and is valid if moreover no radius was below 1 and no inverted rectangle stayed |
| RegionRuns.StepRightIff | src/newgdi/region.c:235-1694 | a call on a valid or stale region is right on every point iff its guard holds, inverted rectangles included, and then leaves such a region iff no inverted rectangle stays in the list |
| RegionRuns.RunRightIff | src/newgdi/region.c:69-93 | over every sequence of calls, with any radius and any rectangle, in which every call finds a valid or stale region: it holds exactly the points meant after every call iff every call meets its guard |
| RegionRuns.RunCorrect | src/newgdi/region.c:69-93 | over every sequence of calls with radii and half axes of at least 1 and valid sources, every guard holds, the region holds exactly the points meant after every call, and it stays valid iff no call leaves an inverted rectangle in the list |
| RegionRuns.UprightKeepsForm | src/newgdi/region.c:69-93 | so it always stays valid if no inverted rectangle is passed to SetClipRgn or AddClipRect |
| RegionRuns.RunsAgree | include/gdi.h:511-533 | two such sequences that meet their guards, mean the same points and end fully merged end with the same list, and with the same bounds if valid |
| Rects.IntersectsIffCommonPoint | src/newgdi/rect.c:83-97 | DoesIntersect is true iff some point is in both rectangles, for any two rectangles |
| Rects.SubtractRect | src/newgdi/rect.c:171-222 | writes the rectangle itself if they do not meet; otherwise one piece for every side left inside it, none empty, the full-width ones first; nothing behind them |
| Rects.PiecesPartition | src/newgdi/rect.c:171-222 | the pieces are disjoint and cover exactly the points of the one rectangle that are not in the other |
| Rects.PiecesShape | src/newgdi/rect.c:171-222 | there are as many pieces as the one rectangle has sides inside the other, none empty, the upper and the lower one first and over the full width |
| Rects.PieceWhole | src/newgdi/rect.c:179-182 | without a common point the only piece is the rectangle itself |
| Rects.UnionRectExact | src/newgdi/rect.c:99-153 | for any two rectangles, normalised as the code does: UnionRect joins only into the exact union, which is their bounding rectangle, and refuses a union that is a rectangle only if one is empty or covers the other |
| Rects.UnionRectJoinsIff | src/newgdi/rect.c:99-153 | it joins two rectangles, empty ones too, iff two opposite sides are in line and there is no gap between the others |
| Rects.UnionRectRefusesIff | src/newgdi/rect.c:99-153 | of two that are not empty, it refuses a union that is a rectangle iff one covers the other and neither the left and right sides nor the top and bottom sides are in line |
| Rects.UnionIsBounding | src/newgdi/rect.c:155-169 | a rectangle that is the union of two that are not empty is what GetBoundRect returns |
| Rects.BoundingIsLeast | include/gdi.h:5174-5176 | for any two rectangles, GetBoundRect returns the one smallest rectangle that covers both once they are normalised |
| Rects.RectVar.InflateRectToPt | include/gdi.h:5010-5016 | stretches the four sides in place as far as the point requires |
| Rects.RectVar.NormalizeRect | src/newgdi/rect.c:39-56 | swaps sides in place so that left and top are the smaller ones |
| Rects.InflatedLeast | include/gdi.h:5010-5016 | inflating to any points gives the least box, sides included, that holds the old box and all the points |
| Rects.InflatedOrder | include/gdi.h:5010-5016 | neither the order of the points nor their repetition matters |
| Rects.InflatedContains | include/gdi.h:5035-5040 | PtInRect finds the point afterwards iff it was left of the old right side and above the old bottom; one wider and higher, always |
| Doubles.Nearest | include/fixedmath.h:150-177 | the model of `double`: no double is nearer to a real value than the one it is rounded to |
| Doubles.TiesToEven | include/fixedmath.h:150-177 | half-way between two doubles the one with the even significand is taken |
| Doubles.RelativeError | include/fixedmath.h:150-177 | rounding is off by at most one part in 2^53 |
| FixedDouble.FixtofExact | include/fixedmath.h:174-177 | the conversion to double is exact |
| FixedDouble.FixmulExact | include/fixedmath.h:266-269 | for all x, y: the product rounded half away from zero if its size is at most 32767, otherwise saturated with ERANGE |
| FixedDouble.FixmulStepsExact | include/fixedmath.h:266-269 | and within that range no intermediate double is rounded |
| FixedDouble.FixdivExact | include/fixedmath.h:284-292 | for all x, y: the quotient rounded half away from zero, although three double operations round, if its size is at most 32767; otherwise, and for y = 0, saturated with ERANGE |
| FixedMath.FixaddExact | include/fixedmath.h:194-214 | the sign test finds every overflow: the exact sum if it fits in 32 bits, otherwise saturated with ERANGE |
| FixedMath.FixsubExact | include/fixedmath.h:231-251 | the same for differences, except at exactly one pair, (0, -2^31) |
| FixedMath.FixsubIsFixadd | include/fixedmath.h:231-251 | subtracting y is adding -y, in value and error, for every y that has a negative |
| FixedMath.MulDivRoundTrip | include/fixedmath.h:266-292 | without errors, dividing a product by y gives x back if y is at least 1.0 in size, and is off by at most 2^15/y + 1/2 units otherwise |
| FixedMath.DoubleRoundTrip | include/fixedmath.h:150-177 | a value survives conversion to double and back iff it lies within +-32767; beyond, ftofix saturates with ERANGE |
| FixedNearest.FtofixNearestIff | include/fixedmath.h:150-163 | for every double x within +-32767, ftofix returns 65536x rounded half away from zero iff the size of 65536x is not 1/2 - 2^-54; for these two it returns 1 and -1 instead of 0 |
| FixedMath.StepFaithful | include/fixedmath.h:194-292 | a call without an error returns the exact or the correctly rounded result iff it is not fixsub(0, -2^31) |
| FixedMath.RunClear | include/fixedmath.h:150-292 | errno is clear after any sequence of calls iff it was clear before and no call reported an error |
| FixedMath.RunFaithful | include/fixedmath.h:150-292 | one look at errno at the end vouches for every result of the sequence, up to that one exception |
| FixedMath.DotError | include/fixedmath.h:194-269 | a dot product of any length n that ends with errno clear is off by at most n/2 units of 2^-16 |
| FixedMath.FixceilIsCeiling | include/fixedmath.h:304-317 | the least integer not below x for all x up to 32767.0; beyond, ERANGE |
| FixedMath.FixceilIsNearestIff | include/fixedmath.h:295-317 | it is the nearest integer, halves up, iff the fraction is 0 or at least a half; saturated, iff below 32767.5; for x = 1 it is not |
| FixedMath.FixtoiIsNearest | include/fixedmath.h:339-342 | the nearest integer, halves up |
| FixedMath.IntegersOrdered | include/fixedmath.h:304-342 | both are monotone, and the ceiling is the nearest integer or one more |
| FixedMath.IntegerRoundTrip | include/fixedmath.h:326-342 | 16-bit integers, and only they, convert exactly and come back; a value moves by at most a half there and back iff it is below 32767.5 |
| FixedMath.IndexPeriodic | include/fixedmath.h:353-384 | the table indices of cosine, sine and tangent do not change when whole turns of 256.0 are added, wrapped or not |
| FixedMath.IndexNearest | include/fixedmath.h:353-384 | for x = j * 2^15 up to a half step, halves up, the entries j mod 512 of the cosine, j - 128 mod 512 of the sine and j mod 256 of the tangent are looked up |
| FixedMath.CosTurnIff | include/fixedmath.h:345-356 | adding d never changes the cosine index iff d is a multiple of 256.0 |
| FixedMath.SinTurnIff | include/fixedmath.h:359-370 | the same for the sine index |
| FixedMath.TanTurnIff | include/fixedmath.h:373-384 | the same for the tangent index and 128.0 |
| FixedMath.NotRadians | include/fixedmath.h:345-384 | none of them repeats after 2 pi |
| FixedMath.IndexRelations | include/fixedmath.h:353-384 | the indices stay in their tables; sine lags cosine by 128 of 512; the tangent index is the cosine index mod 256 |
| FixedMath.AcosAsin | include/fixedmath.h:399-430 | in the domain, arc cosine is entry k of the table for the nearest k, halves down, and arc sine is 64.0 less that entry; outside, both are 0 with EDOM |
| FixedMath.AcosPlusAsin | include/fixedmath.h:399-430 | they add up to 64.0 |
| FixedLibrary.Library.Ftofix | include/fixedmath.h:150-163 | saturates and sets errno beyond +-32767; for every double within, leaves errno alone and returns the nearest value iff it is not one of the two exceptions |
| FixedLibrary.Library.Fixadd | include/fixedmath.h:194-214 | returns the exact sum and leaves errno alone, or the saturated value with ERANGE |
| FixedLibrary.Library.Fixsub | include/fixedmath.h:231-251 | returns the exact difference and leaves errno alone, or the saturated value with ERANGE, but for the one pair |
| FixedLibrary.Library.Fixmul | include/fixedmath.h:266-269 | returns the product rounded to the nearest, ties away from zero, leaving errno alone; or, above 32767 in size, the saturated value with ERANGE |
| FixedLibrary.Library.Fixdiv | include/fixedmath.h:284-292 | returns the quotient rounded to the nearest, ties away from zero, leaving errno alone; or, above 32767 in size and for y = 0, the saturated value with ERANGE |
| FixedLibrary.Library.RunSteps | include/fixedmath.h:150-292 | any sequence of calls in place: the values, the sticky errno, and what a clear errno at the end vouches for |
| FixedLibrary.Library.Fixceil | include/fixedmath.h:304-317 | returns the ceiling, or 0x7FFF with ERANGE |
| FixedLibrary.Library.Fixacos | include/fixedmath.h:399-407 | returns the nearest entry of the table, or 0 with EDOM |
| FixedLibrary.Library.Fixasin | include/fixedmath.h:422-430 | returns 64.0 less the nearest entry of the table, or 0 with EDOM |
| Mapping.PointVar.LPtoDP | src/newgdi/coor.c:39-54 | maps the point in place: each coordinate is the viewport origin plus the distance from the window origin times VE / WE, without its fraction, for any signs; nothing changes in MM_TEXT |
| Mapping.PointVar.DPtoLP | src/newgdi/coor.c:56-71 | the same with window and viewport exchanged |
| Mapping.MappedCoordinates | src/newgdi/coor.c:39-71 | both mappings coordinate by coordinate: size and sign of every quotient |
| Mapping.ScaledThereAndBack | include/gdi.h:3939-3959 | for any signs and non-zero extents: back in logical units a coordinate is on the side of the origin, short by less than 1 + WE/VE, and exact iff WE divides (L - WO) * VE |
| Mapping.PointThereAndBack | src/newgdi/coor.c:39-71 | DPtoLP undoes LPtoDP iff the mode is MM_TEXT or both divisions are exact; with VE at least WE in size at most one unit is lost, towards the window origin |
| Endian.ArchSwap64 | include/endianrw.h:402-414 | all eight bytes in the opposite order |
| Endian.Swap16Reverses | include/endianrw.h:391-393 | the swap exchanges the two bytes; twice is the identity |
| Endian.Swap32Reverses | include/endianrw.h:396-398 | the swap reverses the four bytes; twice is the identity |
| Endian.Swap64Involution | include/endianrw.h:402-414 | twice is the identity |
| Endian.TwoReadsJoined | include/common.h:480-480 | two 16-bit reads joined by MAKELONG are one 32-bit read, in either byte order |
| Endian.BranchesAgree16 | include/endianrw.h:688-739 | the two bodies of a 16-bit reader give the same value iff MGUI_BYTEORDER is the order of the host, or the bytes are equal |
| Endian.BranchesAgree32 | include/endianrw.h:705-758 | the same for 32 bits, or the bytes read the same both ways |
| Endian.Cursor.ReadLE16 | include/endianrw.h:688-703 | reads two bytes, low one first, and advances by two |
| Endian.Cursor.ReadLE32 | include/endianrw.h:705-722 | reads four bytes, low one first, and advances by four |
| Endian.Cursor.ReadBE16 | include/endianrw.h:724-739 | reads two bytes, high one first, and advances by two |
| Endian.Cursor.ReadBE32 | include/endianrw.h:741-758 | reads four bytes, high one first, and advances by four |
| Endian.Cursor.Read16Copied | include/endianrw.h:697-701 | the dead memcpy body of the 16-bit readers advances by two as well, and gives the bytes in the order of the data on a host of the order MGUI_BYTEORDER, in the opposite order on any other |
| Endian.Cursor.Read32Copied | include/endianrw.h:716-720 | the same for the 32-bit readers |
| Endian.Cursor.ReadAll | include/endianrw.h:688-758 | a caller that reads any list of mixed fields gets their decoding and ends right behind them |
| Endian.DecodedAt | include/endianrw.h:688-758 | every field is read from the bytes right behind those of the fields before it |
| Endian.DecodedOneIs | include/endianrw.h:688-758 | by the reader of its size and byte order |
| Endian.ReadBack | include/endianrw.h:688-758 | reading any list of mixed fields from its encoding gives the list and uses up exactly the encoding |
| Endian.WriteBack | include/endianrw.h:688-758 | encoding what was read gives the bytes that were read |
| MemoryLoops.Brmove | vcongui/defs.h:134-142 | the downward copy moves every byte, unless the source starts d bytes above inside the destination: then the last d bytes of the source are repeated downwards; nothing else changes |
| MemoryLoops.OriginIs | vcongui/defs.h:134-142 | with the source d bytes above, the origin of byte i is i + d * k for the largest k that stays inside |
| MemoryLoops.CorrectIff | vcongui/defs.h:134-142 | every byte comes from its own place iff not 0 < src - dst < n |
| MemoryLoops.Bzero2 | vcongui/defs.h:53-60 | zeroes exactly max(0, n) bytes |
| MemoryLoops.Wzero | vcongui/defs.h:75-82 | zeroes exactly 2 * max(0, n >> 1) bytes |
| MemoryLoops.Lzero | vcongui/defs.h:97-104 | zeroes exactly sizeof(LONG) * max(0, n >> 2) bytes |
| MemoryLoops.ClearedExactly | vcongui/defs.h:97-104 | lzero clears the n bytes asked for, n a multiple of 4, iff n is 0 or LONG has four bytes; wzero iff n is even and not negative |

## Left out

- RegionRuns.RunRightIff: says nothing about what a region holds after the first call whose guard fails or that leaves an inverted rectangle in the list, beyond the value that RegionRuns.PerformAll gives. clip.c normalises the rectangle before such calls (`src/newgdi/clip.c:37-40`).
- RegionFunctions.PtInRegion: requires a region that is not empty, because the code dereferences the tail before it looks.
- ClipRegion.ClipRgn.NewClipRect: the linked list is a sequence and its nodes are indices, so next/prev pointers, the block heap and a failed allocation are not modelled.
- FixedLibrary.Library.Ftofix: `double` has no exponent limits, infinities or NaN here (none arises from 32-bit values), and the extra precision of x87 registers is not modelled.
- Coordinates, extents and their products are unbounded integers; C leaves their overflow undefined.
- `fixed` is a 32-bit integer, as `include/fixedmath.h:60-64` documents; where `long` has 64 bits the wrap-around does not occur.
- The contents of the cosine, tangent and arc cosine tables, and fixsqrt, fixhypot, fixatan and fixatan2.
- The circle, ellipse and polygon generators: their rows enter as arbitrary calls of cb_region; InitPolygonRegion is such calls after EmptyClipRgn.
- OffsetRegionEx, which clips while it moves, and the conversions of clip.c from logical to screen coordinates.
- SetRect, CopyRect, EqualRect, SetRectEmpty and InflateRect: assignments that say nothing beyond their bodies.
- The FILE and MG_RWops readers and writers of `include/endianrw.h`: input and output.
- The assembler variants in `vcongui/defs.h`.
