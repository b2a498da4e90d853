# Triangles: a verified model of the triangle-animation core

`src/Triangles.ts` paints a canvas with the base colour. It then animates a
population of `density` equilateral triangles. The triangles drift upwards, and
their lightness is jittered around the base lightness. This project models the
logic of that file in Dafny:

- **`randomNum`** (module `Random`): the draw of `Math.random()` is a parameter `r`
  in [0, 1). The value `r * (max - min + 1) + min` is then truncated toward zero,
  as `parseInt(x.toString(), 10)` does.
- **the RGB to HSL arithmetic of `convertColor`** (module `Color`): it starts from
  the three channel integers that the regular expression extracts. The fractions are
  exact `real`s. `Math.round` is `floor(x + 1/2)`.
- **the triangle population over values** (module `Population`):
  - `getRandomColor`, `createTriangle` and `init` as functions of the base colour,
    the canvas size and the draws;
  - the `forEach` walk of `updateTriangles` as the function `Walk`. The visit range
    is fixed when the walk starts, and each visit reads the element that is at that
    index now.
- **the objects** (module `Triangles`):
  - `Triangle` is a class whose `y` is lowered in place;
  - `Triangles` is a class with `baseColor`, `density`, the canvas size and
    `triangleList`.

  Its methods are the constructor, `changeColor`, `init`, `createTriangle` and
  `updateTriangles`. `updateTriangles` is split into its `forEach` callback
  (`VisitTriangle`) and the `splice`/`push` pair (`Respawn`). Each method is proved
  against the value-level functions.

What the walk does, as proved:

- The list keeps its length. Each `splice(index, 1)` is paired with one `push`.
- A triangle that expires when visited leaves the list, and a new triangle, made
  with `createTriangle(true)`, is pushed at the end. The new triangle starts exactly
  at the canvas height (`VisitTriangle`, `WalkAppendsReplacements`).
- The element that shifts into the freed index is not visited in that tick: it
  stays at that index unchanged (`WalkSkipsShifted`, with the concrete case
  `WalkSkipsShiftedElement`).
- The decrement after the splice lowers the removed object. No listed object is
  lowered by it (`VisitTriangle`).

Where the code and its informal description differ, the model follows the code:

- The rounded hue can be 360, not only values in [0, 360). `rgb(255, 0, 1)` gives
  359.76... before rounding (`HueCanBe360`). The hue is never negative (`HueBounds`).
- An expired triangle is not always replaced in the same tick. The triangle that
  shifts into its index is skipped, so an expired triangle can survive one more
  tick (`WalkSkipsShifted`).
- The new lightness can lie up to one percent outside the clamped band. `randomNum`
  truncates fractional bounds such as 53.82 (`RandomColorBelowBand`). It stays in
  the band when both ends are whole percentages, and always stays in [0, 1].
- The width of a new triangle can be 0 on a canvas narrower than 34 pixels, since
  `randomNum(0.99, 8.25)` can give 0. It lies in [3%, 25%] of the canvas width when
  that width is a multiple of 100 (`NewWidthBounds`).
- The constructor ends with a direct call of `drawFrame`, so one `updateTriangles`
  walk runs before it returns. No triangle `init` scatters is expired, so that walk
  lowers each of them once and replaces none (`FirstWalkAgesAll`).
- `new Array(density)` is modelled as an empty list, which `Init` fills slot by slot.
  The first `init` the constructor runs inside `changeColor` sees `density`
  undefined and creates nothing, so it is not modelled.

## Model

| member | source | states |
|---|---|---|
| Random.Trunc | src/Triangles.ts:3 | `parseInt` of the decimal text: truncation toward zero, within one of its argument on the side of zero |
| Random.TruncMonotone | src/Triangles.ts:3 | truncation toward zero is monotone |
| Random.ScaledDrawRange | src/Triangles.ts:3 | a draw in [0, 1) is scaled to a value in [minNum, maxNum + 1) |
| Random.RandomNumBounds | src/Triangles.ts:2-4 | for real bounds with minNum <= maxNum, `randomNum` lies between the truncations of minNum and maxNum + 1, more than minNum - 1, and below maxNum + 1 when maxNum > -1 |
| Random.RandomNumInRange | src/Triangles.ts:2-4 | with integer bounds minNum <= maxNum and maxNum >= 0, `randomNum` is an integer of [minNum, maxNum] |
| Random.RandomNumReaches | src/Triangles.ts:2-4 | every integer of [minNum, maxNum] is returned for some draw in [0, 1) |
| Random.RandomNumNegativeRangeOverflows | src/Triangles.ts:2-4 | with a negative upper bound the result can exceed it: `randomNum(-5, -1)` gives 0 for the draw 0.9 |
| Color.Max3 | src/Triangles.ts:15 | `Math.max` of three values is one of them and at least each |
| Color.Min3 | src/Triangles.ts:15 | `Math.min` of three values is one of them and at most each |
| Color.Round | src/Triangles.ts:37 | `Math.round` gives the integer within one half, halves rounded up |
| Color.ConvertColor | src/Triangles.ts:14-37 | for 8-bit channels, lightness and saturation lie in [0, 1] and the hue in [0, 360] |
| Color.NormalisedChannels | src/Triangles.ts:14 | the channels divided by 255 lie in [0, 1] |
| Color.LightnessBounds | src/Triangles.ts:14-16 | lightness is (max + min) / 2 of the channels, (max + min) / 510 of the integers, and lies in [0, 1] |
| Color.SaturationBounds | src/Triangles.ts:18-22 | saturation lies in [0, 1] and is 0 exactly when the three channels are equal; otherwise it is in (0, 1] under both the l > 0.5 and the l <= 0.5 formula |
| Color.RawHueBounds | src/Triangles.ts:23-34 | before rounding the hue lies in [0, 360) thanks to the +6 when g < b, and its sector names the largest channel |
| Color.HueBounds | src/Triangles.ts:23-37 | the hue before rounding lies in [0, 360), so the rounded hue is an integer in [0, 360] |
| Color.Achromatic | src/Triangles.ts:18-19 | equal channels give hue 0 and saturation 0, and saturation 0 only for equal channels |
| Color.SaturationIsChromaOverSpread | src/Triangles.ts:21-22 | for a non-grey colour, both saturation formulas equal chroma / (1 - abs(2l - 1)) |
| Color.HueCanBe360 | src/Triangles.ts:23-37 | `rgb(255, 0, 1)` converts to hue 360 |
| Color.ConvertSteelBlue | src/Triangles.ts:14-37 | `rgb(100, 150, 200)` converts to hue 210, saturation 10/21, lightness 10/17 |
| Population.LightBandBounds | src/Triangles.ts:164-168 | the clamped band satisfies 0 <= minLight <= l <= maxLight <= 1 and is at most 0.1 wide |
| Population.PercentDraw | src/Triangles.ts:170 | `randomNum` between two ends in [0, 100] gives an integer in [0, 100] within one of the ends, and between them when both are whole |
| Population.PercentToUnit | src/Triangles.ts:170 | dividing that integer by 100 gives a whole percentage in [0, 1] with the ends scaled by 1/100 |
| Population.RandomColorInBand | src/Triangles.ts:163-173 | hue and saturation pass through; the lightness is a whole percentage in [0, 1], less than 0.01 outside the band, and inside it when both ends are whole percentages |
| Population.RandomColorBelowBand | src/Triangles.ts:163-172 | for base lightness 10/17 the draw 0 gives lightness 0.53, below minLight |
| Population.NewWidthBounds | src/Triangles.ts:152 | the width is a whole non-negative number within one pixel of [3%, 25%] of the canvas width, and inside that range when the canvas width is a multiple of 100 |
| Population.MarginBounds | src/Triangles.ts:158-159 | a coordinate drawn from [-margin, extent + margin] with margin >= 0 is at least -margin and less than one pixel above extent + margin |
| Population.NewTriangleGeometry | src/Triangles.ts:151-161 | a new triangle is equilateral with the width bounds above, and `x` is at least -width/2 and less than one pixel above canvas width + width/2; it is coloured by `getRandomColor`; its `y` is exactly the canvas height when it starts at the bottom, and otherwise at least -height and less than one pixel above canvas height + height; either way it is not expired |
| Population.Walk | src/Triangles.ts:140-149 | the `forEach` walk from index k keeps the list's length and takes at most one replacement per visit |
| Population.VisitAt | src/Triangles.ts:141-147 | one visit keeps the length, takes a replacement exactly when the visited triangle is expired, and leaves the indices before it untouched |
| Population.WalkFirst | src/Triangles.ts:140-149 | after n forward visits the length is kept and at most n replacements have been taken |
| Population.WalkStep | src/Triangles.ts:141-147 | one visit followed by the rest of the walk is the walk |
| Population.WalkFirstThenRest | src/Triangles.ts:140-149 | finishing the walk after n forward visits gives the list and the replacement count of the whole walk |
| Population.WalkFirstIsWalk | src/Triangles.ts:140-149 | the forward loop over every index computes Walk |
| Population.WalkKeepsVisited | src/Triangles.ts:141-147 | indices the walk has passed are never changed again |
| Population.WalkTail | src/Triangles.ts:141-147 | a tail of triangles that will not expire moves left as a block, one place per removal, and the replacements follow it in order, each aged at most once; with no expiry left to visit, nothing is removed |
| Population.WalkSkipsShifted | src/Triangles.ts:141-147 | after an expired triangle at index k is spliced out, the element that shifts into index k is not visited: it is still there, unchanged, when the walk ends |
| Population.WalkAgesLive | src/Triangles.ts:141-147 | when no triangle still to be visited is expired, the walk removes nothing, takes no replacement and lowers each of them once in place |
| Population.PopulateLive | src/Triangles.ts:108-110 | no triangle `init` scatters is expired |
| Population.FirstWalkAgesAll | src/Triangles.ts:140-149 | the first walk over the triangles of `init` replaces none and lowers each once |
| Population.WalkAppendsReplacements | src/Triangles.ts:143-144 | the replacements end up at the end of the list in the order they were made, each aged at most once |
| Population.WalkSkipsShiftedElement | src/Triangles.ts:141-147 | with two expired triangles side by side, the second shifts into the freed index and is not visited (it stays expired and unaged), and the pushed replacement is aged in the same tick |
| Triangles.Triangle.constructor | src/Triangles.ts:48-54 | the new object holds the given colour, size and position |
| Triangles.SpliceThenPush | src/Triangles.ts:143-144 | `splice(k, 1)` then `push(t)` of a new object keeps the length, keeps the objects distinct, drops the removed object, shifts the later ones down by one, and puts `t` last |
| Triangles.Triangles.constructor | src/Triangles.ts:81-95 | the base colour is the conversion of the given channels; the list holds `density` new, distinct triangles whose values are those of `init` after the first frame's walk, which is each of them lowered once |
| Triangles.Triangles.ChangeColor | src/Triangles.ts:97-100 | the base colour is replaced, and the list is refilled with new triangles drawn around the new base colour on the same canvas |
| Triangles.Triangles.Init | src/Triangles.ts:102-111 | takes the canvas size and fills every slot up to `density` with a new distinct triangle whose value is that of `createTriangle(false)` from the slot's draws |
| Triangles.Triangles.CreateTriangle | src/Triangles.ts:151-161 | returns a new object whose value is NewTriangle of the canvas size, base colour and draws |
| Triangles.Triangles.Respawn | src/Triangles.ts:143-144 | the visited object leaves the list, the later ones shift down, a new triangle started at the bottom is pushed last, and the other objects and all values are kept |
| Triangles.Triangles.VisitTriangle | src/Triangles.ts:141-147 | the callback removes and replaces the visited triangle exactly when it is expired; otherwise the list is unchanged and that triangle is aged; the visited object is lowered by height / 1000 either way, even after removal; the list stays `density` distinct objects |
| Triangles.Triangles.UpdateTriangles | src/Triangles.ts:140-149 | the list keeps `density` distinct objects; their new values are Walk of the old values with replacements drawn in order; every listed object was listed before or is new |

## Left out

- The host colour probing of `convertColor` (a hidden element and its computed style) and the regular expression: the model takes the three matched channel integers as input.
- Canvas drawing (`clearFrame`, `drawTriangle`, `fillRect`, the `fillStyle` strings), the `requestAnimationFrame` loop of `drawFrame` and the window resize listener: these are host effects. The `hsl(...)` string of a triangle is kept as its three numbers.
- `Math.random()` as a source: each call site receives the draw it would have produced, and `Draws` holds the four draws of one `createTriangle` in evaluation order.
- IEEE-754 doubles: numbers are exact reals. `Math.sqrt(3) / 2` is the decimal constant the double prints as. The exponent notation that `toString` uses for very small or very large numbers, which `parseInt` would cut short, is not modelled.
- RandomNumInRange: requires maxNum >= 0, because with a negative upper bound truncation toward zero can return maxNum + 1 (RandomNumNegativeRangeOverflows); every call in the source has a non-negative upper bound.
- NewTriangleGeometry: states the width within one pixel of both ends of its range, and `x` and `y` within one pixel above the upper ends of theirs, rather than inside them. `randomNum` truncates the fractional bounds the source passes, so the width can fall below its fractional lower end and any of the three can pass its fractional upper end. The lower ends of `x` and `y` hold exactly, and the width is inside its range when the canvas width is a multiple of 100.
- RandomColorInBand: states the lightness within one percent of the band rather than inside it, for the same truncation (RandomColorBelowBand shows a case outside).
- UpdateTriangles: states the values of the listed objects and that each is old or new. It does not state which old objects remain listed after the whole walk, or the `y` of removed objects. VisitTriangle states both facts for each single visit.
- The canvas size is a pair of naturals given to `Init`, not read from a canvas object.
