# Minimap red-pixel colour analysis — a Dafny model

This project models the colour-analysis tool of the minimap overlay
(`color_test.py`). The tool captures the minimap region of the screen as a
grid of BGRA pixels. It splits off the blue, green and red channel planes in
row-major order and scans them with two red-marker rules. The "current" rule
is R > 200, R-G > 80, R-B > 80. The "stricter" rule is R > 220, R-G > 150,
R-B > 150. For each rule it reports either "no pixels detected", or the
number of detected pixels and the ten most common detected colours with
their counts.

Modules, one per stage of the analysis:

- `Pixels` (`pixels.dfy`): bytes, BGRA pixels, frames as rows of pixels,
  row-major flattening, channel planes (`arr[:, :, k].flatten()`), and
  colour triples (alpha dropped).
- `Rules` (`rules.dfy`): the two rules as integer thresholds, the
  stricter-than relation between rules, and what wrapping byte subtraction
  would have done instead of the integer widening the tool uses.
- `Detection` (`detection.dfy`): the detected list as an order-preserving
  filter (`Detect`), the scan loop over channel planes (`Scan`), and the
  subsequence relation between the two rules' detections.
- `Counter` (`counter.dfy`): the colour histogram (`Tally`, Python's
  `Counter`) as a list of (colour, count) entries in first-seen order, and
  `MostCommon` (Python's `most_common(n)`) as a stable sort by descending
  count followed by a prefix.
- `ColorTest` (`color_test.dfy`): the per-rule report (`Summarize`) and the
  whole analysis of one frame (`Analyze`).

## Model

| member | source | states |
|---|---|---|
| Pixels.FlattenRowMajor | color_test.py:33-35 | flattening a grid of width w puts the pixel at row i, column j at position i*w + j |
| Pixels.FlattenLength | color_test.py:33-35 | a grid of h rows of width w flattens to h*w entries |
| Pixels.Plane | color_test.py:33-35 | `arr[:, :, k].flatten()`: one entry per pixel, and entry i is channel k (0 blue, 1 green, 2 red) of the i-th pixel in row-major order |
| Pixels.PlaneMapping | color_test.py:32-35 | every channel plane has one entry per pixel; entry i of plane k is channel k of flattened pixel i (0 blue, 1 green, 2 red, alpha unused) |
| Rules.Matches | color_test.py:41-42 | a colour passes a rule iff red exceeds the red threshold and R-G and R-B, taken as integers that may be negative, each exceed their margin; all three comparisons are strict |
| Rules.CurrentBoundaries | color_test.py:42 | at the current rule's thresholds (200/80/80) each condition fails and one above it passes; a red equal to or below green is rejected |
| Rules.StrictBoundaries | color_test.py:59 | at the stricter rule's thresholds (220/150/150) each condition fails and one above it passes; a red equal to or below green is rejected |
| Rules.StricterSelectsFewer | color_test.py:54-60 | a rule with thresholds at least as high accepts only colours the looser rule accepts |
| Rules.StrictRefinesCurrent | color_test.py:54-60 | the stricter rule implies the current rule and is not equal to it |
| Rules.IntegerRuleWithinWrapping | color_test.py:41-42 | with non-negative margins, an integer-difference match is also a wrapping-byte-difference match |
| Rules.WideningRejectsWrappedDifference | color_test.py:41-42 | the colour (210, 255, 0) would pass the current rule under wrapping subtraction, but the integer rule rejects it |
| Detection.Detect | color_test.py:39-43 | the detected list is no longer than the input and every entry satisfies the rule |
| Detection.DetectOccurrences | color_test.py:39-43 | each colour occurs in the detected list exactly as often as in the input if the rule accepts it, otherwise never |
| Detection.DetectMembership | color_test.py:39-43 | a colour is detected iff it occurs in the input and satisfies the rule |
| Detection.DetectEmpty | color_test.py:45-52 | the detected list is empty iff no input colour satisfies the rule |
| Detection.DetectIsSubsequence | color_test.py:39-43 | the detected list keeps the input's scan order (it is a subsequence of it) |
| Detection.DetectNarrows | color_test.py:54-60 | filtering the looser rule's detections with a stricter rule gives the stricter rule's detections |
| Detection.StricterIsSubsequence | color_test.py:54-60 | a stricter rule's detections are a subsequence of a looser rule's, so there are no more of them |
| Detection.StrictWithinCurrent | color_test.py:54-60 | the stricter rule's detections are a subsequence of the current rule's, and there are no more of them |
| Detection.Scan | color_test.py:39-43 | the index loop over the R, G, B planes produces exactly the order-preserving filter of the frame's colours |
| Counter.Bump | color_test.py:47 | adding one occurrence raises that colour's count by one and keeps keys distinct, counts positive and the total one higher |
| Counter.Tally | color_test.py:47 | the histogram has one entry per distinct colour of the list, each with its number of occurrences, and the counts sum to the list's length |
| Counter.TallyEntries | color_test.py:46-47 | every histogram entry is a colour of the list with its exact, positive number of occurrences |
| Counter.InsertByCount | color_test.py:49 | inserting into a list sorted by descending count keeps it sorted and adds exactly that entry |
| Counter.SortByCount | color_test.py:49 | sorting by count gives a descending rearrangement of the histogram |
| Counter.SortedPrefix | color_test.py:49 | a prefix of a descending rearrangement holds histogram entries, and no entry left out counts more than one kept |
| Counter.SortKeys | color_test.py:49 | sorting keeps the histogram's set of colours and keeps them distinct |
| Counter.MostCommon | color_test.py:49 | most_common(n) returns min(n, size) entries in descending count order, each an entry of the histogram, with distinct colours when the histogram's are distinct, and no omitted entry counts more than a listed one |
| ColorTest.Summarize | color_test.py:45-52 | "nothing detected" iff the list is empty; otherwise the pixel count is the list's length, at most 10 distinct colours are listed in descending order with their exact counts, no detected colour left off outnumbers a listed one, and if fewer than 10 are listed every detected colour is |
| ColorTest.ListingFacts | color_test.py:46-50 | the listing of a detected list holds at most 10 distinct colours in descending order, each with its exact count, no unlisted colour outnumbers a listed one, and a listing shorter than 10 names every detected colour |
| ColorTest.ListingIsTop | color_test.py:49 | the listed colours are distinct, and a detected colour that is not listed occurs no more often than any listed one |
| ColorTest.TopIsWholeHistogram | color_test.py:49 | when fewer than 10 entries are listed, the listing holds every histogram entry |
| ColorTest.ReportFollowsRule | color_test.py:45-52 | a rule's report says "nothing detected" iff no pixel satisfies the rule; each listed colour satisfies it and carries its count in the whole frame |
| ColorTest.ReportedDifferences | color_test.py:50 | for the current rule, the printed R-G and R-B of each listed colour both exceed 80 |
| ColorTest.StrictReportWithinCurrent | color_test.py:62-66 | if the stricter rule detects anything, so does the current one, with at least as many pixels; each strict colour has the same count in the current histogram |
| ColorTest.BothReports | color_test.py:45-68 | over one frame, each report says "nothing detected" iff no pixel satisfies its rule, the strict report is within the current one, and listed colours satisfy their rule |
| ColorTest.Analyze | color_test.py:32-68 | each rule's report is the summary of that rule's detections over the frame's colours in scan order; "nothing detected" iff no pixel satisfies the rule; the strict report is within the current one; listed colours satisfy their rule |

## Left out

- Screen capture (`mss` grab of the fixed 331×221 region at (2200, 133)), the `np.asarray` conversion, the `input()` prompts and all printing: the frame is a parameter of `Analyze`, and a report records what would be printed.
- The numpy dtype: the capture is an unsigned byte array; the model holds channels as integers in 0..255 and shows, in `Rules`, what wrapping subtraction would have changed.
- Counter.MostCommon: the order among entries with equal counts is not stated. The model's sort is stable, like Python's, but that is not proved, because Python's tie-breaking is library behaviour rather than something the tool relies on.
- The whole of `minimap_overlay.py`: window setup, click-through, dragging, the floating-point display size, image resizing and the rescheduling timer. These are GUI and platform calls.
