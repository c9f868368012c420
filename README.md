# Loot detection core, modelled in Dafny

This project models the detection pipeline of a game-loot scanner. The scanner takes a screenshot and matches a catalog of item-icon templates against it. For each template it keeps the confident matches that are spatially distinct, counts them per template file name, and turns the counts into a priced, categorised loot report. The model covers the arithmetic and bookkeeping of `app/utils.py`. The image-library calls are treated as given inputs.

Modules, one file each:

- `LootTypes` (`loot_types.dfy`): the constants `TARGET_WIDTH` (1920), `CROP_WIDTH` (352), `THRESHOLD` and `NMS_DISTANCE` (20). Also the values the stages exchange: frame dimensions, points, candidates `(score, x, y)`, templates, errors.
- `Preprocess` (`preprocess.dfy`): the dimension arithmetic of the resize to width 1920 and the crop to the leftmost 352 columns. It includes the decode-failure and zero-height error paths.
- `Matching` (`matching.dfy`): thresholding a score surface in row-major order, as the index search returns it. Ranking the results by descending `(score, x, y)` tuple, written as an insertion sort with its permutation and order lemmas. Skipping templates larger than the frame.
- `Suppression` (`suppression.dfy`): `IsFarEnough`, the distance check with early exit. `Greedy`, the specification of the accept loop. Lemmas about separation, prefixes, maximality and subsequences.
- `Counting` (`counting.dfy`): the detection counter, a dictionary whose missing keys read as 0. It keeps the insertion order of its keys, because the report is built in that order.
- `Enrichment` (`enrichment.dfy`): `FormatLootData`, the loop that builds the report from the counter and the item table, with its specification `Formatted`.
- `Pipeline` (`pipeline.dfy`): `ProcessImage`, the whole request as a method, with the accept-and-count loop as `AcceptMatches`. `Detect` is its specification on values. Lemmas cover exact counting, threshold monotonicity and report completeness.

Inputs that stand for things the model does not compute:

- `decoded: Option<Dims>` is the shape of the decoded image, or `None` when decoding failed.
- `surfaces[i]` is the correlation score surface of `catalog[i]` on the analysis frame, indexed `[y][x]`.
- `table` is the item metadata table. It maps a template file name to a display name, a price and a category.
- The catalog is one sequence of templates. It lists the categories' templates in the order the category dictionary is iterated.

Scores are integers. The model agrees with the source when the integer surface orders positions exactly as the floating-point scores do (equal only where the floats are equal) and maps exactly the scores at or above 0.7 to values at or above `THRESHOLD = 700`; such an encoding exists for every finite surface. Plain rounding to thousandths is not such an encoding: it can merge two distinct scores, and the merged tie is then broken by position instead of by score. The distance test `hypot(dx, dy) < 20` is stated exactly as `dx*dx + dy*dy < 400`.

Two behaviours of the code are easy to misread; the model follows the code:

- Ties in score are not broken in scan order. `sorted(zip(scores, xloc, yloc), reverse=True)` orders the whole tuple in descending order, so on equal scores the larger `x` comes first, then the larger `y`. `Matching.Above` states this order, and `Pipeline.CloseCopies` shows its effect: of two equal copies at (10, 10) and (10, 15), the one at (10, 15) is kept.
- A narrow frame is never left uncropped. Every decoded frame is first rescaled to width 1920, so the `width >= 352` test always passes. The skip branch is modelled, but `Preprocess.AnalysisFrame` proves that `ProcessImage` never reaches it.

## Model

| member | source | states |
|---|---|---|
| `Preprocess.Resize` | app/utils.py:90-95 | a frame already 1920 wide is unchanged; otherwise the result is 1920 wide; the only failure is the resize error |
| `Preprocess.ResizeHeight` | app/utils.py:91-94 | the resize fails exactly when the width differs from 1920 and `h*1920 < w`, which makes the new height truncate to 0; otherwise the new height is `floor(h*1920/w)`, bounded by `newH*w <= h*1920 < (newH+1)*w` |
| `Preprocess.Normalize` | app/utils.py:84-103 | an image that failed to decode gives the `InvalidImage` error; a successfully preprocessed frame is always exactly 352 wide, because the crop always applies |
| `Preprocess.AnalysisFrame` | app/utils.py:90-103 | every successfully preprocessed frame is exactly 352 wide; its height is the original height when the width was 1920, and `h*1920/w` otherwise |
| `Matching.ThresholdedSpec` | app/utils.py:118-119 | the thresholded list holds exactly the offsets of the surface whose score is at least the threshold, carrying that score, in strictly increasing row-major order |
| `Matching.RowHitsSpec` | app/utils.py:118 | one row's hits are exactly its offsets at or above the threshold, by increasing x |
| `Matching.SortDescSpec` | app/utils.py:121 | the sort output is a permutation of its input and is descending in lexicographic `(score, x, y)` order |
| `Matching.InsertElements` | app/utils.py:121 | inserting into the ranking adds exactly the inserted candidate |
| `Matching.InsertDescending` | app/utils.py:121 | inserting into a descending list keeps it descending |
| `Matching.RankedSpec` | app/utils.py:118-121 | the ranked list contains exactly the offsets that clear the threshold, each once, strictly descending by `(score, x, y)` |
| `Matching.MatchesSpec` | app/utils.py:112-121 | a template taller or wider than the frame yields no candidate; on a surface of the shape the correlation produces, the candidates are exactly the in-frame offsets `0 <= x <= W-tW`, `0 <= y <= H-tH` whose score clears the threshold, visited in strictly descending `(score, x, y)` order |
| `Matching.StrictlyDescendingUnique` | app/utils.py:121 | two strictly descending lists with the same elements are equal, so the ranking is independent of the input order |
| `Matching.RankedThresholdPrefix` | app/utils.py:118-121 | the ranking at a higher threshold is a prefix of the ranking at a lower one |
| `Matching.MatchesThresholdPrefix` | app/utils.py:114-121 | the same prefix property for a template's candidates, including the skipped case |
| `Suppression.IsFarEnough` | app/utils.py:73-78 | returns true iff every existing point is at Euclidean distance at least `d` from the new one; true on an empty list |
| `Suppression.Greedy` | app/utils.py:123-127 | the accept loop keeps at most one point per candidate |
| `Suppression.GreedySeparated` | app/utils.py:123-127 | every pair of accepted points is at distance at least `d`, in both orders |
| `Suppression.GreedyPrefix` | app/utils.py:123-127 | running the loop on a prefix of the candidates gives a prefix of the accepted list |
| `Suppression.GreedyAcceptsFirst` | app/utils.py:125-127 | the top-ranked candidate is always accepted, as the first point |
| `Suppression.GreedyDecision` | app/utils.py:125-127 | each candidate is either appended right after the points accepted before it, or lies within `d` of one of them; the selection is maximal |
| `Suppression.GreedySubsequence` | app/utils.py:123-127 | the accepted points are a subsequence of the ranked candidates' points |
| `Suppression.SubsequenceMembers` | app/utils.py:127 | every accepted point is the point of some candidate |
| `Counting.Empty` | app/utils.py:107 | the counter starts empty and well formed |
| `Counting.IncSpec` | app/utils.py:133 | `counter[f] += 1` adds one to `f`, which then is a key; no other key changes; a new key goes to the end of the key order; well-formedness is kept |
| `Counting.BumpSpec` | app/utils.py:133 | `n` increments add `n` to `f` and nothing to any other key; `f` is a key afterwards iff it was before or `n > 0`; the key order is unchanged unless `f` is new and `n > 0`, in which case `f` is appended |
| `Counting.ItemsSpec` | app/utils.py:27 | iterating the counter visits its keys in insertion order, each key exactly once with its positive count, and no other key |
| `Enrichment.FormatLootData` | app/utils.py:22-42 | the loop builds exactly the report `Formatted`, writing one entry per item in order |
| `Enrichment.FormattedKeys` | app/utils.py:26-42 | the report's keys are exactly the items' keys: the catalog name of a known file and the file name of an unknown one |
| `Enrichment.FormattedLast` | app/utils.py:27-41 | the entry under a key is the one written by the last item with that key: catalog price and category for a known file, price 0 and category "unknown" for an unknown one, and the item's count as quantity |
| `Enrichment.FormattedEntry` | app/utils.py:27-41 | every report entry was written by some item whose key it is |
| `Pipeline.ProcessImage` | app/utils.py:81-138 | the request returns exactly `Detect`: a decode or resize error, or the analysis frame and the report built from the counts of every template (a template of another pixel type is listed under Left out) |
| `Pipeline.AcceptMatches` | app/utils.py:123-133 | the accept loop keeps exactly the greedy selection of the ranked matches and counts each kept point once under the template's file name |
| `Pipeline.CountsExact` | app/utils.py:107-133 | `counter[f]` is the total number of acceptances over every template named `f`, whatever its category; `f` is a key iff that total is positive; the keys are listed once each |
| `Pipeline.AcceptedSound` | app/utils.py:114-127 | a template's accepted points are pairwise at least 20 apart and no more numerous than its candidates; on a correctly shaped surface each is an in-frame offset whose score clears the threshold |
| `Pipeline.AcceptedThresholdMonotone` | app/utils.py:118-127 | raising the threshold keeps a prefix of a template's accepted points |
| `Pipeline.TotalMonotone` | app/utils.py:133 | totals never exceed those of per-template counts that are at least as large |
| `Pipeline.ThresholdMonotone` | app/utils.py:109-133 | for score surfaces that are the same at both thresholds, raising the threshold never increases the count of any file name (see Left out) |
| `Pipeline.ReportEntry` | app/utils.py:133-136 | every report entry is the enrichment of a file name with at least one acceptance, with that name's total as quantity |
| `Pipeline.ReportCovers` | app/utils.py:133-136 | every file name with at least one acceptance has its key in the report |
| `Pipeline.FirstHit` | app/utils.py:109-133 | the result is the index of the first template named `f` with at least one acceptance, or `k` when none of the first `k` templates is |
| `Pipeline.KeyHit` | app/utils.py:107-133 | a file name is a key of the counter exactly when one of its templates has an acceptance |
| `Pipeline.KeyOrder` | app/utils.py:107-133 | the counter lists its keys in strictly increasing order of their first template with an acceptance |
| `Pipeline.LaterKeysDiffer` | app/utils.py:27-41 | when `f`'s first acceptance comes after that of every other detected file name with the same report key, no counter key listed after `f` has that report key |
| `Pipeline.ReportWinner` | app/utils.py:107-136 | when detected file names share a report key, the entry under it is the enrichment of the one whose first acceptance comes last in catalog order, with that name's total as quantity |
| `Pipeline.CloseCopies` | app/utils.py:121-127 | of two equal-score copies at (10, 10) and (10, 15), only the one at (10, 15) is accepted |
| `Pipeline.DistantCopies` | app/utils.py:121-127 | two copies at (10, 10) and (10, 40) are both accepted |

## Left out

- Image decoding, the pixel interpolation of the resize, and PNG encoding of the result are image-library calls. Only the decode failure, the resize's dimensions and its rejection of a zero target height are modelled. The returned frame is represented by its dimensions.
- Normalised cross-correlation is floating-point work inside the image library. Each template's score surface is an input of integer scores. Floating-point scores, NaN and float32/float64 comparison effects are not modelled; a surface whose integers merge distinct scores (such as rounding to thousandths) can change which of two nearby matches is kept.
- Templates are assumed to have the frame's pixel type. Only 4-channel assets are converted on load, so a grayscale or 16-bit asset reaches the correlation call unconverted; that call then raises and the whole request fails. The model has no such failure.
- `Pipeline.ThresholdMonotone` is proved for score surfaces that do not depend on the threshold. In the source, each accepted box is drawn into the frame, and later templates are scored against that frame, so a box accepted at the lower threshold can lower a later template's scores. A later template can then have more acceptances at the higher threshold than at the lower one.
- Rectangle drawing is not modelled. It changes the frame in place, so templates matched later are scored against an annotated frame. That effect lives in the input surfaces, so the model cannot capture it. Box colours are not modelled either.
- `Preprocess.Resize`: the height is exact `floor(h*1920/w)`. The source computes `int(h * (1920 / w))` in floating point, which can come out one lower when the exact quotient is an integer and rounding lands just below it.
- Catalog loading from the asset folders, and the module-level catalog, are filesystem I/O. The catalog is an input sequence, and its grouping by category only fixes the iteration order.
- `Enrichment.FormatLootData` assumes every item-table row is a complete record. A row that is an empty dictionary, which Python treats as false, or one missing a field is not modelled.
- The report is a map. The key order of the returned dictionary is not modelled. The counter's key order is modelled, because it decides which entry wins when two file names share a display name (`Pipeline.ReportWinner`).
- Logging, the web endpoints, request reading, CORS and timing middleware, and the response schema declaration are I/O and have no behaviour to model. The schema only shaped the `LootEntry` datatype.
