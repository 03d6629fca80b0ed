# dr-circles in Dafny

A model of `circle.rb` from dr-circles. That file adds a `Circle` sprite to the DragonRuby game engine and teaches `GTK::Geometry.intersect_rect?` about ellipses. A circle is drawn through a private render target. That target stacks a shared circular mask, built from 360 turned squares, under the circle's image, with blend mode 4.

The model has two halves:

- **The collision oracle** (`geometry.dfy`) is pure. It is a function over `Shape = Rect(x, y, w, h) | Circle(x, y, w, h)` that returns `Option<bool>`, with `None` standing for Ruby's `nil`. It has the source's tiers: a missing operand, box rejection with strict comparisons, rect/rect, circle/circle, the axis-straddle short cut, and the ellipse test at the corner picked by the angle.
  - Around it are lemmas for each tier, independence from argument order, and agreement of the exact cross-multiplied ellipse test with the quotient the source writes.
  - The soundness theorem `HitIsGenuine` says every `true` comes with a point that both shapes cover.
  - For two rects the answer is exact (`RectsHitIffBoxesMeet`).
- **The circle entity** (`circles.dfy`, `render.dfy`, `decimal.dfy`) is imperative. `Registry` holds the class-wide state: `@@instances`, `@@circle_rt_exists` and the engine's render targets as a map from name to (w, h, layers). `Circle` holds the instance variables and has methods for `initialize`, `rx=`/`ry=`, `path=`, the `instance_variable_set` step and `<<`.
  - `Merge` and `New` return `ok`; `ok == false` stands for the `NameError` that `<<` raises on a key `attr_accessor` rejects. The pairs before that key stay applied.
  - The effect of `<<` is specified on values by `Assign` and `MergeAll`. Lemmas about `MergeAll` cover concatenation, stopping at a rejected key, which keys can change which field, and last-write-wins in the attribute bag.
  - The registry invariant says the mask exists exactly once a circle has been built and keeps its 360 generated layers. It also says no target is named for a circle not yet built.
  - `TargetNamesDistinct` proves that `:"circle#{n}"` names never collide with each other or with `:circle`. It rests on `Integer#to_s` having an inverse (`decimal.dfy`).

`scenarios.dfy` replays the shapes of the demo driver (main.rb:10-12) and a few edge cases.

Three behaviours of the code that are easy to misread:

- **Radii are floored integers.** `rx` is `@w / 2` with Ruby's floor division, not a fractional radius.
- **The corner buckets are integer ranges.** Any angle outside them, including 90.5 and negative angles, takes the `else` corner (right, bottom).
- **The demo ellipse does not overlap at the start.** It sits at (640, 600), so at their starting positions `$circle` against `$ellipse` is rejected by the boxes, not by the circle/circle rule. Once the arrow keys have moved `$circle` (main.rb:23-26) their boxes can overlap, and then the circle/circle rule answers `false`.

## Model

| member | source | states |
|---|---|---|
| Geometry.FloorHalf | circle.rb:63-64 | `rx`/`ry` read half of `w`/`h` rounded down: `2r <= n < 2r + 2` |
| Geometry.IntersectRect | circle.rb:133-134 | the result is `nil` exactly when an operand is missing, never `false` for that |
| Geometry.Shape.IntersectRectWith | circle.rb:129-131 | the instance form is `nil` only for a missing argument and gives the same answer as the module function, with either operand order |
| Geometry.BoxRejection | circle.rb:136-140 | strictly separated boxes give `false`; two rects sharing a whole vertical edge are not rejected and give `true` (any touching rects: `RectsHitIffBoxesMeet`) |
| Geometry.SameKindAfterBoxTest | circle.rb:142-149 | past the box test two non-circles give `true` and two circles give `false`, whatever they cover |
| Geometry.AxisStraddleShortCircuit | circle.rb:155-163 | with one circle, a rect strictly across either ellipse axis gives `true`, whichever operand is the circle |
| Geometry.CornerTest | circle.rb:165-173 | otherwise the result is the strict ellipse test at the corner the angle picks; a corner exactly on the ellipse gives `false` |
| Geometry.CornerBuckets | circle.rb:165-170 | the contract of `CornerFor`: 0..90 picks (right, top), 91..180 (left, top), 181..270 (left, bottom), every other angle, gaps and negatives included, (right, bottom) |
| Geometry.ArgumentOrder | circle.rb:137-155 | the answer does not depend on which operand comes first |
| Geometry.CrossMultipliedIsQuotient | circle.rb:172-173 | `dx²·ry² + dy²·rx² < rx²·ry²` holds exactly when `dx²/rx² + dy²/ry² < 1` over the reals, and is false for a zero radius, as Infinity/NaN `< 1` is |
| Geometry.EllipseTestIsSourceQuotient | circle.rb:172-173 | the oracle's ellipse test `StrictlyInsideEllipse` is the source's quotient inequality at that circle's axes and radii |
| Geometry.InsideEllipseInsideBox | circle.rb:172-173 | for a circle of non-negative size, a point `StrictlyInsideEllipse` accepts lies strictly inside the circle's box |
| Geometry.MixedHitIsGenuine | circle.rb:155-173 | for one rect and one evenly sized circle, a `true` comes with a point in the rect and in the closed ellipse |
| Geometry.HitIsGenuine | circle.rb:133-174 | whenever the oracle answers `true`, the two shapes share a point |
| Geometry.RectsHitIffBoxesMeet | circle.rb:137-145 | for two rects of non-negative size the answer is `true` exactly when the closed boxes share a point |
| Decimal.NatToString | circle.rb:56 | the interpolated number is a non-empty digit string without a leading zero |
| Decimal.ParseNatToString | circle.rb:56 | reading the digits back gives the number |
| Decimal.NatToStringInjective | circle.rb:56 | distinct counts print differently |
| Render.TargetName | circle.rb:56 | the name is the mask's name `circle` followed by digits that read back as the count |
| Render.MaskLayer | circle.rb:39-48 | layer `i` turns by the whole degree `d` with `4d <= i < 4d + 4`, and by at most 89 degrees for the 360 layers |
| Render.TargetNamesDistinct | circle.rb:56 | `circle<n>` names are pairwise distinct and never the mask's `circle` |
| Render.BuildMaskLayers | circle.rb:39-48 | 360 layers at (187, 187), 905×905, path `:pixel`, angle `i / 4`; angles non-decreasing within 0..89 |
| Render.MaskAngleCoverage | circle.rb:39-48 | each whole degree 0..89 is the angle of exactly the four layers `4d .. 4d + 3` |
| Circles.Assign | circle.rb:98-112 | one pair of `<<`: only `path`/`path=` touches the target, which becomes a mask-plus-image target of the current size; the bag gains at most that key; a plain key is stored in the bag and nothing else changes |
| Circles.MergeAll | circle.rb:98-114 | all of `<<` in hash order, stopping at a key `attr_accessor` rejects: afterwards the target is either the old one or a mask-plus-image target |
| Circles.MergeAllAppend | circle.rb:98-114 | merging two hashes in turn is merging their concatenation |
| Circles.MergeStopsAtRejectedKey | circle.rb:111-113 | a key `attr_accessor` rejects stops the merge; the pairs before it stay applied and none after it is |
| Circles.SettersOnly | circle.rb:98-114 | the target changes only through `path`, `@path_dir` only through `path` or `path_dir`, `w` only through `rx` or `w`, `h` only through `ry` or `h`, `x`/`y` only through their keys |
| Circles.BagChangesOnlyByKey | circle.rb:111-112 | the bag gains only keys of the hash, and an entry whose key is absent keeps its value |
| Circles.LastWriteWins | circle.rb:111-112 | a plain key holds the value it was last given; a Ruby hash holds each key once, so this speaks of successive `<<` calls, joined by `MergeAllAppend` |
| Circles.RxRoundTrip | circle.rb:63-65 | after `rx = r`, `w == 2r` and `rx` reads `r`; `h` and `ry` are unchanged |
| Circles.RyRoundTrip | circle.rb:64-66 | after `ry = r`, `h == 2r` and `ry` reads `r`; `w` and `rx` are unchanged |
| Circles.PathSetter | circle.rb:71-82 | `path = p` makes the target the current `w`×`h` with the mask layer then `p` at blend mode 4, `path` reads `p`, and nothing else changes |
| Circles.Registry.constructor | circle.rb:22-23 | no instances, no mask, no render targets, and the registry invariant holds |
| Circles.Circle.constructor | circle.rb:27-56 | the counter rises by one; the target is named `circle<count>`; fields start at 0 with no image and no target; the mask is added on the first construction only |
| Circles.Circle.Rx | circle.rb:63 | `rx` is half the width rounded down: `2·rx <= w < 2·rx + 2` (the same `FloorHalf` as `Circles.Entity.Rx` and `Geometry.Shape.Rx`) |
| Circles.Circle.Ry | circle.rb:64 | `ry` is half the height rounded down: `2·ry <= h < 2·ry + 2` |
| Circles.Circle.SetRx | circle.rb:65 | `w` becomes `2r` and `rx` reads `r`; every other field and target is unchanged |
| Circles.Circle.SetRy | circle.rb:66 | `h` becomes `2r` and `ry` reads `r`; every other field and target is unchanged |
| Circles.Circle.SetPath | circle.rb:71-90 | only this circle's target is replaced, by the current size with mask then image; the getter returns `p`; the counter and flag are unchanged |
| Circles.Circle.SetField | circle.rb:111-112 | a non-routed key sets `x`, `y`, `w`, `h`, `@path_dir` or a bag entry, as `Assign` says |
| Circles.Circle.Merge | circle.rb:98-114 | the new state is `MergeAll` of the old one; `ok` says whether every key was accepted; no other target changes |
| Circles.Circle.New | circle.rb:27-61 | a fresh circle in the `MergeAll` state of its hash from all-zero fields; the existing mask stays as it was; the other targets are untouched |
| Scenarios.CircleMissesSquare | main.rb:10-11 | `$circle` against `$square` is `false` at every angle (640 > 0 + 300) |
| Scenarios.CircleMissesEllipse | main.rb:10-12 | `$circle.intersect_rect? $ellipse` is `false` at every angle (300 < 600) |
| Scenarios.OverlappingCirclesReportedApart | circle.rb:147-149 | two circles with overlapping boxes give `false` |
| Scenarios.StraddlingRectHits | circle.rb:159-163 | a rect across both axes of the circle centred at (300, 150) gives `true` |
| Scenarios.CornerOnEllipseMisses | circle.rb:172-173 | a corner exactly on the ellipse gives `false` |
| Scenarios.CornerInsideHits | circle.rb:165-173 | a corner strictly inside gives `true`, with the circle as either operand |
| Scenarios.OddHeightLeavesAGap | circle.rb:156-163 | with an odd height, a rect touching the box's top is reported as a hit that shares no point with the rounded-down ellipse `Covers` describes |
| Scenarios.OddSizeCornerHitOutsideDrawing | circle.rb:165-173 | for a 21×21 circle the corner test reports a hit for a rect that lies wholly outside the ellipse the mask draws |
| Scenarios.PathSnapshotsCurrentSize | circle.rb:71-80 | `path` before `w`/`h` in the hash gives a 0×0 target; after them, a 300×300 one |
| Scenarios.DemoCircleState | main.rb:10-12 | `Circle.new(x:, y:, w:, h:, path:)` ends with those fields, `path` set, and a `w`×`h` target of mask plus image |
| Scenarios.DemoConstruction | main.rb:10-12 | building `$circle` then `$ellipse` names their targets `circle1` and `circle2`, distinct from each other and from the mask, and at the start the oracle reports them apart |

## Left out

- `tolerance` is accepted by the source and never used, so the model drops it.
- The engine's `angle_to` is foreign code. Its result, the angle from the rect to the circle in degrees, is a parameter of the oracle.
- The engine's anchor-aware `left`/`right`/`bottom`/`top` are foreign code. The model uses the default anchor: `left = x`, `right = x + w`, `bottom = y`, `top = y + h`.
- The source's ellipse test uses floats (`**2.to_f`). The model uses exact integer arithmetic, which idealises float rounding on boundary cases. A zero radius is modelled as `false`, which is what the float division's Infinity or NaN gives.
- Coordinates and sizes are integers. Float positions and sizes are not modelled.
- Geometry.HitIsGenuine: the lemma asks for circles of even, positive size and rects of non-negative size. Its `Covers` is the ellipse the oracle tests, with the rounded-down radii of circle.rb:172-173; for an odd size that ellipse stops one unit short of its box (`Scenarios.OddHeightLeavesAGap`), although the drawn one reaches it. Against the drawn ellipse (`Geometry.InDrawnEllipse`) an odd size can give a hit that shares no point (`Scenarios.OddSizeCornerHitOutsideDrawing`); soundness against the drawing is not claimed. The converse, that every real overlap is reported, is false for ellipses and is not claimed: the corner heuristic can miss, and circle/circle is unimplemented.
- Circles.Circle.Merge: requires numbers under `x`, `y`, `w`, `h`, `rx` and `ry`. With a string there, Ruby would store it or repeat it (`"ab" * 2`) and fail later.
- Circles.Circle.New: requires the same numbers under `x`, `y`, `w`, `h`, `rx` and `ry` as `Circles.Circle.Merge`.
- Circles.MergeAll: requires the same numbers under `x`, `y`, `w`, `h`, `rx` and `ry`, also for pairs after a rejected key, which Ruby never reaches.
- Circles.Assign: requires a number under `x`, `y`, `w`, `h`, `rx` and `ry`, for the same reason.
- Circles.Circle.New: when `ok` is false, `<<` raised a `NameError` inside `initialize`. Ruby's `Circle.new` then returns no object, but the raised counter, the mask and any target already written stay. The model still returns `c`, which stands for an instance no Ruby code receives.
- Hash keys are Symbols. A String key (`"path"`) does not match the `when :path` branches of circle.rb:101-108 and would reach `attr_accessor` and `instance_variable_set` instead, overwriting `@path`; String keys are not modelled.
- Circles.IsAttributeName accepts ASCII identifiers only. Ruby's `attr_accessor` also accepts non-ASCII letters; such keys are treated here as raising.
- `attr_accessor` is sent to the class, so a new key adds accessors to every circle. The model keeps a per-instance attribute bag. Keys that would redefine existing methods (`initialize`, say) are not modelled.
- Attribute values are integers, strings and symbols only.
- Rasterisation, blend-mode pixel semantics, drawing a circle through its target, and `GTK.reset` belong to the engine. Render targets appear only as (w, h, layers) records. The nested arrays pushed with `sprites <<` are listed flat, in drawing order.
- `Circle.instances` (circle.rb:25) is a getter of `Registry.instances` and has no member of its own. `Circles.Circle.Path` reads `@path_dir`; what it returns after `path = p` is stated by `Circles.Circle.SetPath` and `Circles.PathSetter`. `Geometry.CornerFor` and `Geometry.StrictlyInsideEllipse` carry no contract of their own: `CornerBuckets`, `EllipseTestIsSourceQuotient` and `InsideEllipseInsideBox` state what they compute. `Render.PathLayers` is stated through `Circles.PathSetter`, which spells its two layers out. `Hash#to_circle` (circle.rb:118) is `Circles.Circle.New` applied to the hash.
- The rotation `angle` field is cosmetic. It lands in the attribute bag, and the oracle ignores it.
- The demo driver's per-frame loop, input polling and globals (main.rb) are host glue. Only their shapes are used, as scenarios.
