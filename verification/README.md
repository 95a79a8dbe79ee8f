# svelte-draggable-resizable helpers, modelled in Dafny

The drag/resize component keeps its arithmetic and its DOM walk in one file
of helpers, `src/lib/utils.js`. This project models the five helpers there
that carry logic and proves what their callers rely on:

- `restrictToBounds` (module `Bounds`): clamp a value to an optional lower
  and an optional upper bound. The lower bound is tested first.
- `snapToGrid` (module `Grid`): divide the pending position by the scale,
  then round it to whole grid cells. A number scale is broadcast to both
  axes. The scale is not multiplied back in.
- `computeWidth` / `computeHeight` (module `Box`): subtract two insets from
  the parent extent, with no clamping.
- `matchesSelectorToParentElements` (module `Ancestors`): walk from an
  element up its parent links. Each node is tested against a selector
  before the base-node check. The walk stops at the base node (inclusive)
  or at the top of the tree.

Modelling choices:

- JavaScript numbers are `real`.
- `null` is `Option.None` (module `Wrappers`).
- `Math.round` is `Numbers.Round`, the floor of `x + 1/2`. Ties go toward
  positive infinity. This follows the code: negative half-integers round up
  (`-2.5` to `-2`), not away from zero.
- The scale argument is `Grid.Scale`: either `Uniform(factor)` (a number)
  or `PerAxis(x, y)` (a pair). The default parameter `scale = 1` is
  `Grid.DefaultScale`, the default value of `SnapToGrid`'s `scale`.
- The element tree is `Ancestors.Tree<N>`: a parent link per node and a
  rank that every parent step lowers, so the tree has no cycles. The CSS
  selector is a predicate `matches` on nodes. The vendor-prefixed
  method probe is a flag `hasMatcher`.

## Model

| member | source | states |
|---|---|---|
| Numbers.Round | src/lib/utils.js:50-51 | `Math.round(x)` lies in the window `x - 1/2 < k <= x + 1/2` |
| Numbers.RoundUnique | src/lib/utils.js:50-51 | the window determines the rounding: any integer inside it is `Math.round(x)` |
| Numbers.RoundIsNearest | src/lib/utils.js:50-51 | no integer is nearer to `x` than `Math.round(x)`; of two equally near integers it picks the larger |
| Numbers.RoundTiesTowardPositiveInfinity | src/lib/utils.js:50-51 | `Math.round(2.5) = 3`, `Math.round(-2.5) = -2`, `Math.round(-0.5) = 0` |
| Bounds.RestrictToBounds | src/lib/utils.js:36-46 | the result is the value, min or max; a value below a present min gives min whatever max is; a value above a present max and not below min gives max; a value that already respects the bounds is returned unchanged; the value only moves onto a bound it violates |
| Bounds.AboveMaxGivesMax | src/lib/utils.js:41-43 | a value above a present max, and not below min, gives max |
| Bounds.UnboundedIsIdentity | src/lib/utils.js:36-46 | with both bounds null the value is returned |
| Bounds.ResultWithinBounds | src/lib/utils.js:36-46 | with min <= max, the result respects every bound that is present |
| Bounds.ResultIsNearest | src/lib/utils.js:36-46 | with min <= max, the result is the admissible point nearest to the value |
| Bounds.Idempotent | src/lib/utils.js:36-46 | with min <= max, clamping twice equals clamping once |
| Bounds.InvertedBoundsNotIdempotent | src/lib/utils.js:37-43 | with bounds (10, 2), 5 clamps to 10 (min wins) and 10 clamps to 2, so the clamp is not idempotent there |
| Grid.SnapAxis | src/lib/utils.js:50-51 | one snapped coordinate is a whole number of cells, within half a cell of `pending / scale` for either sign of the cell; for a positive cell a tie goes to the larger multiple |
| Grid.SnapToGrid | src/lib/utils.js:48-53 | both output coordinates are whole numbers of their own cell and within half a cell of the unscaled pending position, for either sign of each cell |
| Grid.SnapAxisIsNearestMultiple | src/lib/utils.js:50-51 | no multiple of the cell is nearer to `pending / scale` than the snapped coordinate |
| Grid.UniformIsBroadcast | src/lib/utils.js:49 | a number scale `s` behaves exactly as the pair `[s, s]` |
| Grid.AxesIndependent | src/lib/utils.js:49-51 | x depends only on pendingX and the x scale, y only on pendingY and the y scale |
| Grid.ScaleIsDividedOut | src/lib/utils.js:48-52 | snapping at a scale equals snapping the divided position at the default scale 1: the scale is never re-applied |
| Grid.SnapExamples | src/lib/utils.js:48-53 | cells 10x10: (23, 47) snaps to (20, 50); at scale 2 to (10, 20) |
| Box.ComputeWidth | src/lib/utils.js:55-57 | adding the left and right insets back to the result gives the parent width |
| Box.ComputeHeight | src/lib/utils.js:59-61 | adding the top and bottom insets back to the result gives the parent height |
| Box.WidthNonNegativeIffInsetsFit | src/lib/utils.js:55-57 | the width is non-negative exactly when left + right <= parent width; no clamping |
| Box.HeightNonNegativeIffInsetsFit | src/lib/utils.js:59-61 | the height is non-negative exactly when top + bottom <= parent height |
| Box.WidthDependsOnTotalInset | src/lib/utils.js:55-57 | only the sum of the two insets matters |
| Box.InsetExamples | src/lib/utils.js:55-61 | 100 - 10 - 10 = 80; 100 - 60 - 60 = -20 (negative, not clamped) |
| Ancestors.MatchesFrom | src/lib/utils.js:27-33 | a matching node answers true even when it is the base node; at the base node or the top of the tree the answer is that node's own match |
| Ancestors.MatchesSelectorToParentElements | src/lib/utils.js:14-34 | without a matching method the answer is false; a matching start node gives true; with `el == baseNode` the answer is exactly whether a matching method exists and el matches |
| Ancestors.Chain | src/lib/utils.js:27-33 | the visited nodes start at el, follow parent links, meet the base node only as the last entry, end at the base node or the top, and number at most rank(el) + 1 |
| Ancestors.WalkIsUnique | src/lib/utils.js:27-33 | any node sequence with those properties is exactly `Chain` |
| Ancestors.MatchesIffSomeMatchOnChain | src/lib/utils.js:27-33 | the walk answers true exactly when some node on the chain from el to the base node matches |
| Ancestors.MatchesIffMatcherAndSomeMatch | src/lib/utils.js:14-34 | the whole function is true exactly when a matching method exists and some node on the chain matches |
| Ancestors.OnlyChainIsTested | src/lib/utils.js:25-33 | two selectors that agree on the chain give the same answer, so nodes above the base node are never tested |
| Ancestors.NoMatcherTestsNothing | src/lib/utils.js:25 | without a matching method the answer is false for every selector, so no node is tested |
| Ancestors.PathExamples | src/lib/utils.js:14-34 | on the path 3 -> 2 -> 1 -> 0 with base 1: a match at 2 is found, a match only at 0 (above the base) is not, a start node that is its own base node and matches gives true, and no method gives false |

## Left out

- `isFunction` (src/lib/utils.js:1-3) depends on JavaScript's `typeof` and on the `[object Function]` tag check. The only part the model keeps is the flag `hasMatcher`.
- `getComputedSize` (src/lib/utils.js:5-12) reads computed style from the browser and parses it with `parseFloat`. That is host I/O plus text-to-float parsing, so it is not modelled.
- The five vendor-prefixed method names (src/lib/utils.js:17-23) are reduced to the one flag `hasMatcher`. The source probes the method on the start node only and then calls it on every ancestor. If the walk climbs above `<html>` to `document`, which has no `matches`, that call would throw. The model assumes every node can be tested.
- Numbers.Round, Grid.SnapAxis, Grid.SnapToGrid: computed over the reals, not IEEE-754 doubles. So there is no rounding error in the divisions and no overflow, NaN or infinity.
- Box.ComputeWidth, Box.ComputeHeight: the subtraction is over the reals. In doubles the round trip `result + a + b == parent` holds only up to rounding, and overflow to `Infinity` and `NaN` inputs are not modelled.
- Grid.SnapAxis, Grid.SnapToGrid: require non-zero cells and scale factors. In JavaScript a zero there makes the division give `Infinity` or `NaN`, and the model does not represent those values.
- Bounds.RestrictToBounds: a `NaN` value or bound and `undefined` bounds are not modelled. A `NaN` value fails both comparisons, so the source returns it unclamped. In the source, an `undefined` bound fails every comparison and so acts like `null`. `Option.None` stands for both `null` and `undefined`.
- The source's throwing paths are outside the model's types: an invalid selector makes the matching call throw on the first node (src/lib/utils.js:28), a null `el` throws at the method probe (src/lib/utils.js:23), and an explicit `null` scale throws at the destructuring (src/lib/utils.js:49). The model's `matches` is total, `el` is always a node, and `Scale` has no null value.
- Ancestors.MatchesFrom, Ancestors.MatchesSelectorToParentElements: require parent links with a strictly decreasing rank, which rules out cycles. A real DOM tree has no cycles.
