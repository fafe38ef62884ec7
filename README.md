# Template match counting in `YourService.java`, modelled in Dafny

This project models the recognition core of the KIBO-RPC service. For each template image, the service does the following:

- It tries 17 widths (20 to 100 px in steps of 5) and 9 rotation angles (0° to 360° in steps of 45°).
- It scores each of these attempts against the target image with normalised cross-correlation.
- When an attempt's best score reaches the threshold 0.8, it collects every position whose thresholded score is above zero.
- After the sweep, it merges positions that lie within 10 px of a position it already kept.
- It stores the size of the merged list as that template's match count.
- Finally, it picks the template with the most matches using a left-to-right strict-greater scan that starts from count 0 at index 0.

The modules follow the source's structure:

- `Geometry` (geometry.dfy): detection positions and the distance test of `calculateDistance`.
- `Deduplication` (dedup.dfy): `removeDuplicates`. It is an imperative pass proved equal to the specification function `Dedup`. The properties of `Dedup` are proved as lemmas.
- `Ranking` (ranking.dfy): `getMaxIndex`, an array scan.
- `Detection` (detection.dfy): one scoring attempt. This covers the `minMaxLoc` gate, the `THRESH_TOZERO` transform and the row-major collection loop.
- `Sweep` (sweep.dfy): the width and angle loops, the per-template `matches` list, the `templateMatchCnt` array and the final pick.

Resizing, rotating and correlating a template are OpenCV calls. They appear in the model only as a parameter, `score(template, width, angle)`, which returns the response surface for that attempt. The target image stays the same for the whole pass, so it is folded into that parameter.

Scores are exact `real`s and the threshold is the rational 0.8. Detection positions are integer pixels, because the source builds them from the loop counters `x` and `y`. The source compares `sqrt(dx² + dy²) <= 10`; the model uses the equivalent integer test `dx² + dy² <= 100`.

Two behaviours of the code are worth knowing, and the model follows the code in both:

- The comments at lines 134 and 139 speak of scores "greater than or equal to" the threshold. The gate at line 138 does use `>=`. But `THRESH_TOZERO` keeps only values strictly above 0.8, and line 146 then tests `> 0`. A surface whose maximum is exactly 0.8 therefore opens the gate and emits nothing (`MaxAtThresholdEmitsNothing`).
- The angle loop includes both 0 and 360 (`SweepBounds`). Each width is therefore scored twice in the same orientation.

## Model

| member | source | states |
|---|---|---|
| Geometry.SqDistance | YourService.java:251-255 | the squared distance is never negative, and it is zero exactly when the two points coincide |
| Geometry.NearSymmetric | YourService.java:251-255 | the distance, and so the 10 px merge test, does not depend on argument order |
| Deduplication.RemoveDuplicates | YourService.java:228-248 | the pass with its inner `isInclude`/`break` scan returns exactly `Dedup(points)`: a point is appended iff no point kept so far is within 10 px |
| Deduplication.DedupSubsequence | YourService.java:228-248 | the output is a subsequence of the input (input points only, in input order), so it is never longer than the input |
| Deduplication.DedupKeepsFirst | YourService.java:228-248 | the output is empty iff the input is empty, and a non-empty input's first point is the output's first point |
| Deduplication.DedupSeparated | YourService.java:228-248 | any two kept points are more than 10 px apart |
| Deduplication.DedupPrefix | YourService.java:230-247 | the list built after reading a prefix of the input is a prefix of the final list: kept points are never removed |
| Deduplication.DedupCovers | YourService.java:230-247 | every input point lies within 10 px of some kept point |
| Deduplication.SeparatedIsFixpoint | YourService.java:228-248 | a list whose points are pairwise more than 10 px apart passes through unchanged |
| Deduplication.DedupIdempotent | YourService.java:228-248 | running the pass on its own output changes nothing |
| Deduplication.DedupFixpointIff | YourService.java:228-248 | the pass leaves a list unchanged iff its points are pairwise more than 10 px apart |
| Deduplication.DedupOrderSensitive | YourService.java:230-247 | the result depends on input order: points at x = 0, 8, 16 keep two points, but with 8 first they keep only one |
| Ranking.GetMaxIndex | YourService.java:258-270 | if no entry is positive (including an empty array), the result is 0; otherwise it is the index of the largest entry, and every earlier entry is strictly smaller (first maximum wins ties) |
| Detection.RowMaxIsMax | YourService.java:136-137 | the maximum of a row bounds every score in it and is one of them |
| Detection.RowsMaxIsMax | YourService.java:136-137 | the maximum over the first `n` rows bounds every score there and is attained at some position |
| Detection.MaxScoreIsMax | YourService.java:136-137 | the `maxVal` read from `minMaxLoc` bounds every score of the surface and is attained at some position |
| Detection.ToZero | YourService.java:141 | a thresholded cell is either its score or 0, and it is positive iff the score is strictly above 0.8 |
| Detection.CollectDetections | YourService.java:135-150 | the nested row/column loops leave `matches` equal to its old contents followed by `Collected(s)`; earlier entries are untouched |
| Detection.RowHitsExactly | YourService.java:145-149 | one row emits exactly the columns whose score is above 0.8, in increasing column order |
| Detection.GridHitsExactly | YourService.java:144-149 | the first `m` rows emit exactly the in-bounds positions with score above 0.8, in row-major order |
| Detection.RowHitsNone | YourService.java:145-149 | a row with no score above 0.8 emits nothing |
| Detection.GridHitsNone | YourService.java:144-149 | rows with no score above 0.8 emit nothing |
| Detection.HitsExactly | YourService.java:141-149 | a surface emits exactly its positions with score strictly above 0.8, each once, in row-major order; it emits nothing when no score is above 0.8 |
| Detection.GateOnlySavesWork | YourService.java:138-149 | the `maxVal >= threshold` gate never changes what is emitted: with or without it, an attempt contributes exactly its hits |
| Detection.MaxAtThresholdEmitsNothing | YourService.java:138-149 | a surface whose maximum is exactly 0.8 passes the gate but emits no position |
| Sweep.Range | YourService.java:126-127 | the values of `for (v = lo; v <= hi; v += step)`: `lo + step*k` in order, none iff `lo > hi`, the last one at most `hi` and within one step of it |
| Sweep.SweepBounds | YourService.java:121-127 | there are 17 widths, `20 + 5k`, and 9 angles, `45k`, running from 0 to 360 inclusive |
| Sweep.GridLength | YourService.java:126-127 | the nested loops make `|widths| * |angles|` attempts |
| Sweep.GridAt | YourService.java:126-127 | attempt number `wi * |angles| + ai` uses width `wi` and angle `ai`, so widths vary slowest |
| Sweep.AttemptsShape | YourService.java:121-127 | each template gets 153 attempts; attempt `9wi + ai` uses width `20 + 5wi` and angle `45ai` |
| Sweep.DetectionsAppend | YourService.java:126-152 | the list for consecutive runs of attempts is the concatenation of their lists; nothing is reordered or merged before de-duplication |
| Sweep.DetectionsEmptyIff | YourService.java:126-152 | the list is empty iff no attempt contributes anything |
| Sweep.CollectedNonEmptyIff | YourService.java:138-149 | an attempt contributes positions iff some score of its surface is strictly above 0.8 |
| Sweep.MatchCountBounds | YourService.java:156-157 | a template's count is at most its number of raw detections, and it is positive iff some attempt has a score strictly above 0.8 |
| Sweep.RowStep | YourService.java:127-151 | one pass of the angle loop extends the list by that attempt's contribution |
| Sweep.GridStep | YourService.java:126-152 | one pass of the width loop extends the list by that width's row of attempts |
| Sweep.SweepAngles | YourService.java:127-151 | the angle loop for one width appends the contributions of angles 0, 45, …, 360, in that order |
| Sweep.SweepTemplate | YourService.java:114-152 | starting from an empty `matches`, the two loops leave exactly the detections of all 153 attempts, in width-then-angle order |
| Sweep.CountMatches | YourService.java:107-161 | `templateMatchCnt` has one slot per template, and slot `t` holds the size of the de-duplicated detections of template `t` |
| Sweep.Recognise | YourService.java:107-165 | the chosen template's count is the largest of all counts, and every template before it has a strictly smaller count; with all counts 0, template 0 is chosen |

## Left out

- The mission, robot motion, camera snapshots, flashlight and image saving are calls into the robot API. They are not part of this model.
- Loading the template images from assets (lines 76-104) is left out. Templates are an abstract type `T`. A failed load (the `IOException` caught at lines 101-102) leaves its slot of `templates` null; this is not modelled.
- Undistortion of the captured image (`undistortImg`) and ArUco marker handling are not modelled. The target image is folded into the `score` parameter.
- `resizeImg`, `rotImg` and `Imgproc.matchTemplate` are OpenCV image operations. They are the `score(template, width, angle)` parameter, so the model makes no claim about correlation values, resized heights or rotation geometry.
- Detection.MaxScore: models `minMaxLoc`'s maximum as the largest score. The gate is closed for an empty surface; such a surface has no cells to emit either way.
- Scores are exact reals, not Java `double`s. The double nearest to 0.8 is not exactly 4/5, and floating-point rounding is not modelled.
- Sweep.CountMatches: counts are unbounded integers. Java `int` overflow of `match_cnt` cannot occur in practice (a list is far shorter than 2³¹) and is not modelled.
- The `setAreaInfo` report at line 165 is a call into the robot API. `Recognise` returns the winner and its count instead of reporting them.
- Sweep.Recognise: requires at least one template. With none, line 165 would index past the end of `TEMPLATE_FILE_NAMES` (and of `templateMatchCnt`).
- There is no try/catch between lines 107 and 165. The model assumes every template slot is loaded and every OpenCV call at lines 128-141 returns a surface. A slot left null by a failed load makes `templates[temp_num].clone()` at line 117 throw a `NullPointerException`, ending the whole sweep. Neither that nor OpenCV's own exceptions is modelled.
- `resizeImg` truncates the scaled height to an `int` (line 212). That arithmetic is part of the `score` parameter.
