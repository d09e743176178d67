# health-data-narrative: category filter, heart-rate zoom and map gallery

This Dafny project models the small amount of state and data-shaping logic found in the
health-data narrative slides and in the map-gallery thumbnail script.

- **Category filter** (`initSlide0` in `slides_logic.js`, the same code as `initCharts` in
  `interactive_slide_part_1.js`).
  - A legend click toggles one workout type in the `disabledTypes` set.
  - Each redraw derives, in order, the enabled pie rows and the enabled stack keys.
  - A segment's tooltip percentage is its value over the total of the enabled rows.
  - The bar chart's y-domain top is the largest per-year sum of the enabled keys.
  - The yearly CSV rows are converted field by field: `year` is kept and every other field becomes `+field`.
  - Modules: `CategoryFilter` (the `Legend` class holds the disabled set), `YearlyRecords` and
    `JsNumber`. `JsNumber` models JavaScript's unary plus on CSV text and `d3.sum`.
- **Heart-rate slide** (`initSlide1` in `slides_logic.js`). Modules: `HeartRate` and `Zoom`.
  - Samples dated before 2021-09-07 are dropped.
  - The survivors are thinned to every 10th (heart rate) or every 2nd (resting) sample.
  - The y-domain is the bpm extent padded by 5 and rounded outward.
  - The zoom controls form a small state machine: the toggle button arms or disarms the brush,
    a brush end with a selection sets the x-domain and disarms, and the reset button restores
    the full time extent. It is modelled by the pure `Step`/`Run` functions and by the
    `ZoomControl` class, whose handlers are proved to follow `Step`.
- **Thumbnail script** (`data-automation/thumbnail-generator.py`). Modules: `Gallery` and `Strings`.
  - The script keeps the `.html` entries of the maps directory and sorts them.
  - It derives each thumbnail path with `os.path.splitext` and `os.path.join`.
  - It draws a thumbnail only when its path is missing; the file system is a set of paths.
  - It emits one card per map, with a caption and a link.
  - `Strings` models Python's `split`, `join`, single-pass `replace` and code-point ordering of `str`.

Modelling choices:
- A JavaScript number is `Finite(real)` or `NonFinite`. NaN and the infinities are merged, and
  `d3.sum` skips non-finite values.
- Timestamps are integer milliseconds since the epoch. The cutoff `new Date("2021-09-07")` is
  UTC midnight, `1630972800000`.
- `xScale.invert` is abstracted: a brush selection arrives as an interval of timestamps.
- Percentages are exact reals.

## Model

| member | source | states |
|---|---|---|
| CategoryFilter.Toggled | slides_logic.js:141-146 | a click puts the key in the set exactly when it was absent; every other key keeps its membership |
| CategoryFilter.ToggleTwice | slides_logic.js:140-147 | two clicks on the same key give back the original disabled set |
| CategoryFilter.ToggleCommutes | interactive_slide_part_1.js:140-147 | clicks on two keys give the same set in either order |
| CategoryFilter.Legend.Click | interactive_slide_part_1.js:141-147 | the handler replaces `disabledTypes` by its toggle on the clicked legend key and keeps the legend consistent |
| CategoryFilter.Legend.constructor | interactive_slide_part_1.js:116-124 | loading starts with nothing disabled, keys = columns after the first, rows converted one for one |
| CategoryFilter.Enabled | slides_logic.js:29 | the filter never grows the list, and an item is kept exactly when it is present and its key is not disabled |
| Filters.Filter | slides_logic.js:29 | `array.filter(keep)` never grows the list and keeps an entry exactly when it is present and accepted |
| Filters.FilterConcat | slides_logic.js:55 | filtering distributes over concatenation, so the kept entries stay in their original order |
| Filters.FilterCount | interactive_slide_part_1.js:29 | an accepted entry keeps all its occurrences, a rejected one loses all |
| Filters.FilterTwice | interactive_slide_part_1.js:55 | filtering by one test and then another is filtering by both at once |
| CategoryFilter.FilteredPie | slides_logic.js:29 | `filteredPie`: the enabled rows in table order; stated by `CategoryFilter.FilteredPieExact` |
| CategoryFilter.FilteredKeys | interactive_slide_part_1.js:55 | `filteredKeys`: the enabled keys in header order; stated by `CategoryFilter.FilteredKeysExact` and `CategoryFilter.ReenableKeepsOrder` |
| CategoryFilter.KeysOf | slides_logic.js:124 | `columns.slice(1)`: the header is its first column followed by the keys; no header gives no keys |
| CategoryFilter.FilteredPieExact | interactive_slide_part_1.js:29 | `filteredPie` holds exactly the rows whose label is not disabled, with their multiplicities and in their original order |
| CategoryFilter.FilteredKeysExact | slides_logic.js:55 | `filteredKeys` holds exactly the header columns after the first that are not disabled, in header order |
| CategoryFilter.ReenableKeepsOrder | interactive_slide_part_1.js:55 | the keys drawn under a larger disabled set are a filter of those drawn under a smaller one, so re-enabling never reorders |
| CategoryFilter.Total | slides_logic.js:44 | `d3.sum(filteredPie, d => d.value)`; how disabling changes it is stated by `CategoryFilter.DisablingLowersTotal` |
| CategoryFilter.SegmentPercents | interactive_slide_part_1.js:45 | every drawn segment's percentage over the drawn total; they sum to 100 by `CategoryFilter.PercentsSumTo100` |
| CategoryFilter.Percent | slides_logic.js:45 | a percentage is finite exactly when the value is finite and the total non-zero; then percent × total = value × 100 |
| CategoryFilter.SumPercentsOver | interactive_slide_part_1.js:45 | the percentages over a list sum to its total over the denominator, times 100 |
| CategoryFilter.PercentsSumTo100 | slides_logic.js:44-45 | with a non-zero filtered total, the drawn segments' percentages sum to exactly 100 |
| CategoryFilter.DisablingLowersTotal | interactive_slide_part_1.js:44 | disabling a label removes exactly that label's finite values from the denominator |
| CategoryFilter.DisablingLowersRowSum | slides_logic.js:73 | disabling a key removes exactly its contributions from each year's stacked sum |
| CategoryFilter.YMaxIgnoresDisabled | interactive_slide_part_1.js:72-74 | the y-domain top does not depend on the values of disabled keys |
| CategoryFilter.Render | slides_logic.js:28-76 | a redraw shows exactly the enabled pie rows (one percentage each) and the enabled keys, with the y top bounding every year's stacked sum and absent only for an empty table |
| CategoryFilter.Legend.View | slides_logic.js:148 | what `updateCharts` draws after a click: `Render` of the legend's current disabled set |
| CategoryFilter.ClickTwiceRedrawsSame | interactive_slide_part_1.js:140-148 | a double click redraws the same scene |
| CategoryFilter.EmptyTableDrawsNothing | slides_logic.js:29-31 | an empty category table draws no segments and no percentages |
| CategoryFilter.WalkingRunningExample | interactive_slide_part_1.js:44-45 | 120 walking and 80 running give 60% and 40%; with walking disabled, running alone is 100% |
| YearlyRecords.ConvertRecord | slides_logic.js:117-120 | the row keeps its keys plus `year`; `year` is unchanged (undefined when missing) and every other field becomes its unary plus |
| YearlyRecords.ConvertRecords | interactive_slide_part_1.js:116-122 | one converted row per CSV row, in the same order |
| YearlyRecords.ConversionIsIdempotent | slides_logic.js:116-122 | converting a converted row changes nothing |
| YearlyRecords.RowSum | interactive_slide_part_1.js:73 | `d3.sum(filteredKeys, k => +d[k])` for one year; stated by `CategoryFilter.DisablingLowersRowSum` and `YearlyRecords.RowSumAgree` |
| YearlyRecords.RowSumAgree | slides_logic.js:73 | rows that agree on every key's contribution have equal stacked sums |
| YearlyRecords.YMax | interactive_slide_part_1.js:71-74 | the maximum is absent exactly for no rows; otherwise it bounds every row's sum and is attained |
| YearlyRecords.YMaxPointwise | slides_logic.js:72-74 | the y top depends only on the rows' sums |
| JsNumber.Sum | interactive_slide_part_1.js:44 | `d3.sum`: the finite values added, NaN skipped, 0 for none; stated by `JsNumber.SumConcat` |
| JsNumber.ToNumber | slides_logic.js:119 | unary plus on a CSV field; stated by `JsNumber.ToNumberOfDecimal`, `JsNumber.ToNumberOfPaddedDecimal` and `JsNumber.ToNumberOfBlank` |
| JsNumber.ToNumberOfPaddedDecimal | interactive_slide_part_1.js:119 | any of the white space JavaScript trims, around a decimal integer, leaves its value unchanged |
| JsNumber.SumConcat | slides_logic.js:44 | `d3.sum` is additive over concatenation |
| JsNumber.ToNumberOfDecimal | slides_logic.js:119 | unary plus reads a decimal integer's text back as that integer |
| JsNumber.ToNumberOfBlank | interactive_slide_part_1.js:119 | unary plus turns an empty or blank CSV cell into 0 |
| HeartRate.AfterCutoff | slides_logic.js:172-185 | a sample survives exactly when it is dated on or after 2021-09-07; no sample is invented |
| HeartRate.Downsample | slides_logic.js:185 | the cutoff and then every n-th survivor; its length, positions and provenance are stated by `HeartRate.DownsampleSpec` |
| HeartRate.EveryNth | slides_logic.js:186 | keeping positions divisible by n gives ⌈m/n⌉ samples out of m |
| HeartRate.EveryNthAt | slides_logic.js:185 | the j-th kept sample exists exactly when j·n < m, and it is the sample at position j·n |
| HeartRate.DownsampleSpec | slides_logic.js:185-186 | the shaped series has ⌈m/n⌉ samples, the j-th being survivor j·n, all from the input and on or after the cutoff |
| HeartRate.DownsampleKeepsMultiples | slides_logic.js:186 | every survivor at a position i with i % n == 0 is kept, at position i / n |
| HeartRate.CombinedDrawn | slides_logic.js:185-188 | `heart.concat(resting)` holds the drawn heart-rate samples then the drawn resting ones, each a raw sample of its series on or after the cutoff |
| HeartRate.Combined | slides_logic.js:188 | `heart.concat(resting)`; stated by `HeartRate.CombinedDrawn` |
| HeartRate.XExtent | slides_logic.js:189 | `xExtent`, the full time domain; `Zoom.ResetShowsEveryDrawnSample` states that it spans every drawn sample |
| HeartRate.TimeExtent | slides_logic.js:189 | `d3.extent` of times: absent exactly for no samples, otherwise an attained lower and upper bound |
| HeartRate.BpmExtent | slides_logic.js:190 | `d3.extent` of bpm ignores non-finite values: absent exactly when none is finite, otherwise attained bounds |
| HeartRate.Ceil | slides_logic.js:193 | `Math.ceil` is the least integer at or above its argument |
| HeartRate.YDomain | slides_logic.js:193 | the y-domain exists exactly when the bpm extent does |
| HeartRate.YDomainPads | slides_logic.js:190-193 | every finite rate lies at least 5 inside the y-domain, and each end is less than 6 beyond some finite rate |
| Zoom.Step | slides_logic.js:264-338 | one handler of the toggle, brush-end or reset button; stated by `Zoom.BrushEndEffect`, `Zoom.ToggleTwice` and `Zoom.ResetRestoresExtent` |
| Zoom.RunConcat | slides_logic.js:257-338 | handling two event sequences in turn is handling their concatenation |
| Zoom.ToggleTwice | slides_logic.js:299-311 | two toggle clicks restore both the flag and the domain |
| Zoom.BrushEndEffect | slides_logic.js:264-277 | a brush end with a selection sets the domain to it and disarms; without a selection nothing changes |
| Zoom.ResetRestoresExtent | slides_logic.js:333-334 | after any events, reset sets the domain to the full extent and leaves the flag alone |
| Zoom.ResetShowsEveryDrawnSample | slides_logic.js:333-334 | after any events, a reset to `xExtent` makes the time axis span every drawn sample of both series |
| Zoom.DomainStaysInExtent | slides_logic.js:267-268 | when every selection lies inside the extent, the domain never leaves the extent |
| Zoom.ZoomControl.constructor | slides_logic.js:257 | the slide starts disarmed with the full extent as its domain |
| Zoom.ZoomControl.Toggle | slides_logic.js:299-311 | the toggle handler's new state is one step of the state machine |
| Zoom.ZoomControl.OnBrushEnd | slides_logic.js:264-277 | the brush-end handler's new state is one step of the state machine |
| Zoom.ZoomControl.Reset | slides_logic.js:333-338 | the reset handler's new state is one step of the state machine |
| Strings.Split | data-automation/thumbnail-generator.py:21 | `str.split(sep)` gives at least one piece and no piece contains the separator |
| Strings.Join | data-automation/thumbnail-generator.py:21 | `sep.join(parts)`; `Strings.JoinSplit` states it undoes `Split` |
| Strings.Replace | data-automation/thumbnail-generator.py:21 | `str.replace` in one left-to-right pass; stated by `Strings.ReplaceChar`, `Strings.ReplaceAbsent` and `Strings.ReplaceAppend` |
| Strings.ReplaceAppend | data-automation/thumbnail-generator.py:21 | with a pattern that cannot overlap itself, an occurrence appended at the end is replaced on its own |
| Strings.AfterFirstAppend | data-automation/thumbnail-generator.py:21 | text appended after the first separator stays after it |
| Strings.JoinSplit | data-automation/thumbnail-generator.py:21 | joining the pieces of a split with the same separator gives back the text |
| Strings.JoinTail | data-automation/thumbnail-generator.py:21 | dropping the first piece and joining the rest with another character is the text after the first separator, with later separators replaced |
| Strings.ReplaceChar | data-automation/thumbnail-generator.py:91 | replacing one character by another maps every occurrence and nothing else |
| Strings.ReplaceAbsent | data-automation/thumbnail-generator.py:91 | replacing a pattern that does not occur changes nothing |
| Strings.Insert | data-automation/thumbnail-generator.py:28 | inserting into a sorted list keeps it sorted and adds exactly one element |
| Strings.Sort | data-automation/thumbnail-generator.py:28 | `list.sort()` yields a sorted permutation |
| Strings.LexTotal | data-automation/thumbnail-generator.py:28 | any two names are comparable |
| Strings.LexTrans | data-automation/thumbnail-generator.py:28 | the order of names is transitive |
| Strings.LexAntisym | data-automation/thumbnail-generator.py:28 | names ordered both ways are equal |
| Strings.SortedUnique | data-automation/thumbnail-generator.py:28 | two sorted permutations of the same names are equal, so the sorted list is determined |
| Gallery.ThumbsDirValue | data-automation/thumbnail-generator.py:5 | the thumbnail directory is `../maps/map-thumbnails` |
| Gallery.LastIndexOf | data-automation/thumbnail-generator.py:32 | the result is the last position of the character, or -1 when it does not occur |
| Gallery.SplitExt | data-automation/thumbnail-generator.py:32 | `splitext` splits the name into root and extension that concatenate to it; the extension is empty or one dot with no further dot or slash |
| Gallery.Base | data-automation/thumbnail-generator.py:32 | `os.path.splitext(html_file)[0]`; stated by `Gallery.SplitExt`, `Gallery.BaseOfHtml` and `Gallery.BaseOfDotsOnly` |
| Gallery.BaseOfHtml | data-automation/thumbnail-generator.py:32 | a map name `<x>.html` whose `<x>` is not all dots has base `<x>` |
| Gallery.BaseOfDotsOnly | data-automation/thumbnail-generator.py:32 | a name made of dots then `.html` has no extension and is its own base |
| Gallery.HtmlOnly | data-automation/thumbnail-generator.py:27 | the comprehension keeps exactly the `.html` entries, each as often as it is listed |
| Gallery.HtmlFiles | data-automation/thumbnail-generator.py:27-28 | the collected list; stated by `Gallery.HtmlFilesSpec` |
| Gallery.HtmlFilesSpec | data-automation/thumbnail-generator.py:27-28 | the collected list is the `.html` entries, sorted, and the only sorted list of them |
| Gallery.ThumbPath | data-automation/thumbnail-generator.py:33 | `os.path.join(THUMBS_DIR, base + ".png")`; stated by `Gallery.ThumbPathShape` |
| Gallery.ThumbPathShape | data-automation/thumbnail-generator.py:32-33 | a map's thumbnail path is `../maps/map-thumbnails/<base>.png` |
| Gallery.GenerateMissing | data-automation/thumbnail-generator.py:31-35 | the loop writes the missing thumbnails in order and leaves every collected file's thumbnail present |
| Gallery.NewThumbs | data-automation/thumbnail-generator.py:34-35 | the thumbnails the loop writes, in order; stated by `Gallery.NewThumbsSpec` |
| Gallery.NewThumbsSpec | data-automation/thumbnail-generator.py:31-35 | existing thumbnails are never regenerated, none is written twice, and exactly the missing ones are written |
| Gallery.EveryFileHasThumbnail | data-automation/thumbnail-generator.py:31-35 | after the loop every collected file's thumbnail exists |
| Gallery.ThumbText | data-automation/thumbnail-generator.py:21 | the text drawn on a thumbnail; stated by `Gallery.ThumbTextLines`, `Gallery.ThumbTextDropsSuffix` and `Gallery.ThumbTextSinglePass` |
| Gallery.ThumbTextLines | data-automation/thumbnail-generator.py:21 | before `.html` is removed, the text is the part after the first underscore with underscores made line breaks; a name without an underscore draws nothing |
| Gallery.ThumbTextDropsSuffix | data-automation/thumbnail-generator.py:21 | a map name's `.html` suffix never reaches the drawn text: `x.html` draws what `x` draws |
| Gallery.ThumbTextSinglePass | data-automation/thumbnail-generator.py:21 | `.html` is removed in one pass, so `a_.ht.htmlml` is drawn as `.html` |
| Gallery.CardLabel | data-automation/thumbnail-generator.py:91 | a card's caption; stated by `Gallery.CardLabelSpec` |
| Gallery.CardLabelSpec | data-automation/thumbnail-generator.py:91 | a caption is the base without `route_` and with underscores made spaces, so it has no underscore |
| Gallery.CardLabelExample | data-automation/thumbnail-generator.py:91 | `route_a_b` is captioned `a b` |
| Gallery.EmitCards | data-automation/thumbnail-generator.py:89-100 | exactly one card per collected file, in the collected order |
| Gallery.CardFor | data-automation/thumbnail-generator.py:90-98 | the card written for one map, as the script writes it; stated by `Gallery.CardSpec` and `Gallery.AsWrittenImageNeverGenerated` |
| Gallery.CardSpec | data-automation/thumbnail-generator.py:90-98 | a card links to `../maps/<file>`, its alt text is the caption plus ` thumbnail`, and its caption has no underscore |
| Gallery.AsWrittenImageNeverGenerated | data-automation/thumbnail-generator.py:92 | as written, no card's image is a path the loop writes a thumbnail to |
| Gallery.CorrectedImageExists | data-automation/thumbnail-generator.py:33 | with the image taken from the thumbnail path, every card's image exists after the loop |

## Left out

- d3 rendering: DOM selection, the pie/arc/stack layouts, scales, axes, transitions, clip paths and
  tooltips. These are foreign library calls. `Render` stops at the data handed to them.
- `.nice()` rounding of the bar chart's y-domain is not modelled. `YMax` is the domain top before rounding.
- `toFixed(1)` formatting of percentages is not modelled: percentages are exact reals.
- The pie CSV mapping (`label: d.workoutActivityType, value: +d.count`) is not modelled. `PieRow` holds that label and value as given.
- Asynchronous loading (`d3.csv`, `Promise.all`) and the loading indicator: I/O.
- Date parsing: a sample's time is an integer given as input. Invalid dates are not represented.
- `xScale.invert`: a brush selection is given directly as an interval of timestamps.
- `initSlide1Old` is a superseded variant of the heart-rate slide.
- The rest of `slides_logic.js` (other slides) is not part of this model.
- JsNumber.ToNumber: exponent notation, the `0x`, `0o` and `0b` prefixes and `Infinity` texts all give
  `NonFinite`, not their JavaScript values. NaN and the infinities are not distinguished.
- JsNumber.ToNumber: a decimal literal is read as an exact real, not rounded to a double. Digits
  beyond a double's precision are kept, and a literal beyond its range gives a finite value where
  JavaScript gives `Infinity`.
- JsNumber.Sum: `d3.sum` and `d3.extent` would keep an infinite value. The model gives no CSV text an
  infinite value, so it never meets one.
- YearlyRecords.ConvertRecord: the conversion returns a new map rather than rewriting the CSV row
  object in place, so aliasing of that object is not captured.
- CategoryFilter.Legend.Click: it requires the key to be a legend key, because handlers exist only
  for legend items.
- PIL drawing, `os.makedirs`, font loading and writing the index file with its HTML and CSS text are
  I/O. The file system is a set of existing paths, and `os.listdir` is an input sequence of names
  without `/`.
- Gallery.EmitCards returns the card fields, not the HTML markup text of each card.
- Zoom: selections are not range-checked and time-series points are not filtered to the zoom window.
  The code has neither step: it sets the domain from any selection, and off-window points are only
  clipped by the SVG clip path. Annotation toggles do not occur in this code either.

## Findings

| source | as written | input that shows it | evidently intended | confidence | as-written member | corrected member |
|---|---|---|---|---|---|---|
| data-automation/thumbnail-generator.py:92 | card images point at `../maps/thumbnails/<base>.png`, but thumbnails are written under `../maps/map-thumbnails/` (line 5) | a maps directory holding `route_a.html` and no thumbnails: the loop writes `../maps/map-thumbnails/route_a.png` and the card shows `../maps/thumbnails/route_a.png` | the card image is the thumbnail path of line 33 | medium, not executed | Gallery.AsWrittenImageNeverGenerated | Gallery.CorrectedImageExists |
