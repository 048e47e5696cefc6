# Bell-icon contrast: a Dafny model

This project models the logic of a small web page (`src/App.tsx`). The page is a
full-window drop target: dropping an image file makes it the page background.
A notification bell sits 24 px in from the top-right corner. When a new
background has loaded, the page reads back the 32×32 pixels 24 px in from the
image's top-right corner, which the source means to be the area under the bell
(src/App.tsx:59, 67), and computes the median of their luma values. It then strokes the bell dark (`#222`)
if that median is strictly above 128, and light (`#fff`) otherwise.

Modules, following the steps of the source:

- `Luma` (`luma.dfy`): per-pixel luma `0.299R + 0.587G + 0.114B` as an exact
  `real`. The RGBA buffer is a `seq<byte>`. One luma is produced per 4-byte group,
  and the alpha byte is never read.
- `Sorting` (`sorting.dfy`): the ascending sort. Insertion sort stands in for the
  engine's sort. Sorted permutations are unique (`SortedUnique`), so any correct
  sort gives the same result.
- `OrderStatistics` (`order_statistics.dfy`): "the k-th smallest value", defined
  by counting elements below and at-or-below a value. This is the reference
  definition the median is checked against.
- `Median` (`median.dfy`): `getMedianLuminance`'s odd/even median. The result is a
  JavaScript number: `Finite(v)` or `NaN`.
- `BellContrast` (`bell_contrast.dfy`): the clamped sampling window, the
  fallback of 255 when no 2D context exists, and the `> 128` threshold.
- `Page` (`page.dfy`): the component state (`bgUrl`, `dragActive`, `bellColor`),
  its drag-over, drag-leave, drop and image-load handlers, and runs of events.
- `Wrappers` (`wrappers.dfy`): `Option`, which stands for the source's `null`
  and for a missing drawing context.

Three behaviours of the source are easy to misread; the model follows the code:

- The component has no drag-enter handler, only drag-over, drag-leave and drop.
- For an empty luma list the source reads `luminances[-1]` and `luminances[0]`.
  Both are `undefined`, so the median is `NaN`. `NaN > 128` is false, so the
  bell turns light. The bell window always holds 1024 pixels, so this case
  never arises there. `MedianOf` still models it.
- The load effect returns early when `bgUrl` is falsy, so a load can only
  follow a non-empty background URL. `OnImageLoaded` does nothing without one.

Inputs that come from browser calls are parameters of the events:

- the object URL made for a dropped file (`Drop.objectUrl`);
- the decoded image's natural width (`ImageLoaded.imageWidth`);
- the RGBA buffer read back from the canvas, or `None` when `getContext('2d')`
  fails (`ImageLoaded.pixels`).

`WellFormed` states what the browser guarantees about these inputs: an object
URL is never empty, and the buffer holds 4 bytes per window pixel.

## Model

| member | source | states |
|---|---|---|
| Luma.PixelLuma | src/App.tsx:22 | luma of one pixel lies in [0, 255]; a grey pixel (R = G = B = v) has luma v; luma is 0 exactly for black and 255 exactly for white |
| Luma.Lumas | src/App.tsx:19-24 | one luma per 4-byte group, so `data.length / 4` values; value k is the luma of bytes 4k, 4k+1 and 4k+2 |
| Luma.LumasInRange | src/App.tsx:21-23 | every luma of a buffer lies in [0, 255] |
| Luma.AlphaIgnored | src/App.tsx:21-23 | buffers that differ only in alpha bytes give identical luma lists |
| Luma.GreyBufferLumas | src/App.tsx:21-23 | a buffer whose every pixel is grey v yields only the luma v |
| Sorting.Sort | src/App.tsx:25 | the result is ascending and is a permutation (same multiset) of the input |
| Sorting.SortedUnique | src/App.tsx:25 | two ascending sequences with the same multiset are equal, so the sort's result does not depend on the algorithm |
| Sorting.SortPermutationInvariant | src/App.tsx:25 | inputs that are permutations of each other sort to the same sequence |
| Sorting.SortIdempotent | src/App.tsx:25 | sorting an ascending sequence returns it unchanged |
| OrderStatistics.SortKeepsCounts | src/App.tsx:25 | sorting preserves, for every threshold, how many values lie below it and at or below it |
| OrderStatistics.SortedIndexIsOrderStatistic | src/App.tsx:25-28 | the element at sorted index k is the k-th smallest value by rank counting |
| OrderStatistics.OrderStatisticUnique | src/App.tsx:25-28 | at most one value has a given rank |
| OrderStatistics.OrderStatisticIsSortedIndex | src/App.tsx:25-28 | v has rank k exactly when v is the element at sorted index k |
| Median.MedianOf | src/App.tsx:25-29 | the median is NaN exactly when there are no lumas |
| Median.MedianOddIsMiddleRank | src/App.tsx:26-28 | for an odd count, the median is v if and only if v has rank floor(n/2) |
| Median.MedianEvenIsMeanOfMiddleRanks | src/App.tsx:26-29 | for an even non-zero count, the median is the mean of the values ranked n/2 - 1 and n/2, and the lower is at most the upper |
| Median.MedianWithinRange | src/App.tsx:26-29 | a non-empty list has a finite median that lies between two of its own values, hence between its minimum and maximum |
| Median.MedianBounded | src/App.tsx:26-29 | any bounds shared by all values also bound the median |
| Median.MedianOrderIndependent | src/App.tsx:25-29 | the median depends only on the multiset of values, not on pixel order |
| Median.MedianOfConstant | src/App.tsx:26-29 | a non-empty list of equal values has that value as its median |
| Median.MedianOddExample | src/App.tsx:26-28 | [10, 20, 30] has median 20 |
| Median.MedianEvenExample | src/App.tsx:26-29 | [10, 20, 30, 40] has median 25 |
| Median.MedianOfSortedTriple | src/App.tsx:26-28 | for any three values in ascending order, the median is the middle one |
| Median.MedianOfSortedQuadruple | src/App.tsx:26-29 | for any four values in ascending order, the median is the mean of the second and third |
| BellContrast.BellWindow | src/App.tsx:68-71 | the window is 32×32 with origin clamped non-negative and y = 24; on an image at least 56 px wide its right edge is 24 px from the image's right edge, otherwise x = 0 |
| BellContrast.BellWindowMonotone | src/App.tsx:68-71 | a wider image never moves the window left, and moves it by at most the width difference |
| BellContrast.BellBufferSize | src/App.tsx:14-19 | the bell window reads back 4096 bytes, i.e. 1024 pixels |
| BellContrast.MedianLuminance | src/App.tsx:12-29 | without a 2D context the result is 255; with one it is NaN only for an empty window and otherwise finite; every finite result lies in [0, 255] |
| BellContrast.BellMedianIsMeanOfMiddleRanks | src/App.tsx:19-29 | the bell window always holds 1024 lumas, an even count, so its median is the mean of the 512th and 513th smallest lumas |
| BellContrast.ColorFor | src/App.tsx:72 | the bell is dark, with stroke `#222`, exactly when the median is a finite number strictly above 128; otherwise it is `#fff` |
| BellContrast.ThresholdBoundaries | src/App.tsx:72 | a median of exactly 128 gives light, the 255 fallback gives dark and NaN gives light |
| BellContrast.ColorMonotone | src/App.tsx:72 | a brighter median never turns a dark bell light |
| BellContrast.LoadedColor | src/App.tsx:65-73 | after a load with no 2D context the bell is dark |
| BellContrast.UniformWindowLuminance | src/App.tsx:12-29 | a window whose every pixel is grey v has median luminance v |
| BellContrast.UniformWindowColors | src/App.tsx:68-72 | a uniform grey-v window gives the dark bell exactly when v > 128: all white gives dark, all black and grey 128 give light |
| BellContrast.LoadedColorOrderIndependent | src/App.tsx:65-73 | the colour depends only on the multiset of pixel lumas in the window |
| Page.OnDragOver | src/App.tsx:50-53 | drag-over shows the overlay and changes nothing else |
| Page.OnDragLeave | src/App.tsx:54-57 | drag-leave hides the overlay and changes nothing else |
| Page.OnDrop | src/App.tsx:39-47 | a drop always hides the overlay and never changes the bell; the background becomes the new URL exactly when the first file's media type starts with `image/`, and is otherwise unchanged |
| Page.OnImageLoaded | src/App.tsx:59-74 | with a background, a load sets the bell to the colour of the sampled window; background and overlay are untouched; without a background nothing changes |
| Page.RejectedDropKeepsPage | src/App.tsx:42-46 | a drop with no file or a non-image first file changes only the overlay flag |
| Page.DropExamples | src/App.tsx:42-43 | `image/png` is accepted; `text/plain`, `IMAGE/PNG`, `image` and an empty drop are rejected; only the first file is inspected |
| Page.AcceptsImageTypes | src/App.tsx:42-43 | a drop whose first file has any media type `image/…` is accepted, whatever other files come with it |
| Page.AcceptedTypesHaveImagePrefix | src/App.tsx:43 | conversely, an accepted drop's first file has a media type of the form `image/…` |
| Page.OnlyFirstFileMatters | src/App.tsx:42-43 | files after the first never change whether a drop is accepted |
| Page.BackgroundPersists | src/App.tsx:39-47 | once a background is set, no sequence of events removes it |
| Page.BackgroundIsLastAcceptedDrop | src/App.tsx:39-47 | after any events, the background is the URL of the last accepted drop, or the starting one if no drop was accepted |
| Page.ColorIsLastLoad | src/App.tsx:59-74 | with a background in place, the bell shows the colour of the last load among the events; earlier loads and other events leave no trace |
| Page.ColorComesFromALoad | src/App.tsx:33-35 | after any events, the bell shows its starting colour or the colour of one of the loads |
| Page.DarkUntilFirstLoad | src/App.tsx:33-35 | from the initial state, the bell stays dark while no image has loaded, and the background is the last accepted drop's URL or null |
| Page.ColorAfterAcceptedDrop | src/App.tsx:39-74 | from the initial page, once a drop has been accepted, the bell shows the colour of the last later image load, or keeps its colour if none has happened |
| Page.RunAppend | src/App.tsx:39-74 | handling two batches of events in turn is the same as handling their concatenation |
| Page.NewImageDecidesColor | src/App.tsx:39-74 | an accepted drop followed by its load sets the background to the new URL and the bell to the colour of the new image alone |

## Left out

- Canvas and DOM work (`createElement`, `getContext`, `drawImage`, `getImageData`) is not modelled. The buffer read back is an input. What the browser draws where the window extends past the image is not visible in the source.
- Luma.Lumas: requires the buffer length to be a multiple of 4. `getImageData` always returns 4 bytes per pixel. A trailing group of one or two bytes would give `NaN`, and a group of three would give a finite luma. `getImageData` returns neither, so neither is modelled.
- A zero-sized window makes `getImageData` throw. The model treats it as an empty buffer, whose median is NaN. The bell window is never empty.
- Luma.PixelLuma: exact real arithmetic. The source computes in IEEE-754 doubles, so rounding near the 128 threshold is idealised away.
- Sorting.Sort: an insertion sort stands in for the engine's `Array.prototype.sort`. The comparator `a - b` gives a total order on finite values, and sorted permutations are unique, so the result is the same.
- `URL.createObjectURL`, image decoding and `crossOrigin` are foreign browser calls. The object URL and the image's width are event inputs. Decode failures (no `onerror` handler) are simply an absence of a load event.
- React hooks, rendering, the overlay markup, `preventDefault` and the `BellIcon` SVG are UI only. `imgRef` is stored but never read, so it is not modelled.
- Overlapping drops are not modelled as concurrency. The asynchronous loads are events in a sequence, and the last one processed wins, as in the source. No load is tied to the drop that caused it.
- The previous object URL is never revoked. Releasing resources is not part of the model.
