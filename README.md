# Voronoi mosaic core of voronoi-interp, in Dafny

voronoi-interp turns a still image into an animation. It lists every pixel
coordinate of the image, shuffles that list once, and then renders a growing
sequence of frames. Frame k uses the first `count` shuffled coordinates as
seeds. Every pixel takes a colour from its nearest seed:

- in direct mode, the source colour at the seed;
- in average mode, the mean colour of all pixels that share that seed (the
  seed's Voronoi cell), fully opaque.

The loop stops after the frame that uses every coordinate.

This project models that core of `main.go` and proves its properties:

| file | module | models |
|---|---|---|
| `geometry.dfy` | `Geometry` | integer coordinates, squared distance, and the contract of the coordinate tree's `NearestNeighbor` query |
| `imaging.dfy` | `Imaging` | 16-bit `RGBA()` colours, 8-bit `image.RGBA` pixels, the source image |
| `seeds.dfy` | `Seeds` | building the coordinate grid and the in-place swap shuffle |
| `driver.dfy` | `Driver` | the count clamp and the exit of the growth loop |
| `direct.dfy` | `Direct` | `RenderFrame` |
| `average.dfy` | `Average` | `RenderFrameAverage`: pass one as `Accumulate`, pass two as `Paint` |

Modelling choices:

- **Coordinate tree.** The tree (`model2d.NewCoordTree` / `NearestNeighbor`)
  is a function argument `nearest: Coord -> Coord`. It is specified only by
  `IsNearest`: the answer is one of the seeds, and no seed is at a smaller
  squared Euclidean distance. No tie-break rule is assumed. Being a function
  means it is fixed for a fixed build, so both passes of the average renderer
  get the same seed for a pixel. The renderers' basic contracts hold for any
  such function. The properties that depend on nearness (exact reproduction,
  single seed) are conditional on `NearestOnGrid`.
- **Random source.** The random source is the sequence `draws` of values that
  `rand.Intn(len(coords) - i)` returned, so step `i` swaps `i` with
  `i + draws[i]`. Every property is proved for every legal sequence of draws.
- **Growth loop.** The growth loop gets its per-step counts as an input, in
  place of the floating-point schedule. It returns the seed slices it hands
  to the renderer, in emission order.
- **Image.** The source image is a value with bounds (`minX`, `minY`, `dx`,
  `dy`) and a total `at` function, like `image.Image.At`. Frames are
  `array2<Rgba8>` buffers indexed `[x, y]` with origin `(0, 0)`.
- **Colour storage.** Storing a colour with `res.Set` keeps the high byte of
  each 16-bit channel (`ToRgba8`). This is the conversion `image.RGBA`
  applies.
- **Average colour.** The average is the integer quotient
  `Σc / (256 · n)`, which is the source's `uint8(Σ(c/256) / n)` computed in
  exact arithmetic.

Notes on `main.go`:

- `main.go:69` clamps the count only from above, to `len(coords)`.
- The last growth frame uses the whole shuffled coordinate list, which holds
  every pixel (`Seeds.ShuffledGridCovers`).
- Pixels are grouped by integer `Coord` keys.

## Model

| member | source | states |
|---|---|---|
| `Geometry.ScanNearest` | main.go:94 | for any non-empty seed list, a linear scan finds a seed meeting the nearest-neighbour contract, so the tree's contract can always be met |
| `Geometry.NearestMatchesScan` | main.go:94 | whatever tie-break the tree applies, its answer is at the same distance as the brute-force scan's |
| `Geometry.SeedIsOwnNearest` | main.go:94-96 | a query point that is itself a seed is its own nearest seed, and the only one, since only it is at distance 0 |
| `Geometry.SingleSeedIsNearest` | main.go:94 | with a single seed, that seed answers every query |
| `Imaging.ToRgba8` | main.go:96 | the pixel `res.Set` stores holds the high byte of each 16-bit channel of the colour |
| `Seeds.Grid` | main.go:48-53 | the coordinate list has exactly `Dx*Dy` entries |
| `Seeds.GridAt` | main.go:49-51 | coordinate `(x, y)` sits at index `x*Dy + y`, so the list is x-major |
| `Seeds.GridOccurrences` | main.go:48-53 | every coordinate with `0 <= x < Dx`, `0 <= y < Dy` occurs exactly once, and no other coordinate occurs |
| `Seeds.BuildGrid` | main.go:48-53 | the nested append loops produce exactly that x-major grid |
| `Seeds.Swap` | main.go:57 | the swap exchanges two positions and leaves every other position alone |
| `Seeds.SwapPermutes` | main.go:57 | one swap keeps the multiset of coordinates |
| `Seeds.ShuffleSteps` | main.go:55-58 | the swap loop never changes the slice's length |
| `Seeds.ShuffleStepsPermutes` | main.go:55-58 | whatever `j` in `[i, len)` is drawn at each step, the slice keeps the same multiset of coordinates |
| `Seeds.ShuffleKeepsPrefix` | main.go:55-58 | after step `k`, positions below `k` are never touched again |
| `Seeds.Shuffle` | main.go:55-58 | the in-place loop leaves the array equal to the specified shuffle of its old contents |
| `Seeds.SeedOrder` | main.go:47-58 | the seed order has `Dx*Dy` entries, and every pixel coordinate occurs in it exactly once |
| `Seeds.ShuffledGridIsPixels` | main.go:47-58 | a coordinate is in the shuffled list exactly when it is a pixel of the image |
| `Seeds.ShuffledGridCovers` | main.go:47-58 | the full shuffled list covers the grid and holds only pixels |
| `Driver.MinInt` | main.go:69 | the clamp returns one of its arguments and is below both |
| `Driver.ActivePrefix` | main.go:69-75 | the seed slice is a prefix of the coordinates of length `min(count, len(coords))`, so it never exceeds the point set |
| `Driver.ActivePrefixGrows` | main.go:68-75 | a larger count gives a seed slice that extends the smaller one's |
| `Driver.GrowthFrames` | main.go:66-82 | frame `k` renders `coords[:min(count_k, len)]`; every frame before the last has fewer seeds than coordinates; the last uses all of them, and the loop then exits |
| `Direct.RenderFrame` | main.go:88-100 | the frame is `Dx×Dy` with origin `(0,0)`, and pixel `(x,y)` is the source colour at `nearest(x,y) + b.Min`; with every pixel a seed it is the source image, pixel for pixel; with one seed it is flat in that seed's colour |
| `Average.CountBeforePositive` | main.go:108-116 | a seed has a non-zero count after any prefix of pass one exactly when some pixel scanned so far has it as nearest seed |
| `Average.CellCountPositive` | main.go:108-116 | a seed's cell is non-empty exactly when some pixel has that seed as its nearest |
| `Average.SumBeforeBound` | main.go:111-113 | each channel total of a cell is at most `0xffff` times its pixel count |
| `Average.MeanQuotient` | main.go:122-126 | `Σc / (256·n)` is the truncated 8-bit mean and lies in `0..255`, so `uint8` never wraps |
| `Average.MeanChannel` | main.go:122-126 | each output channel is the truncated mean of the cell's channel values |
| `Average.Mean` | main.go:122-128 | the cell colour has each channel the truncated mean and alpha `0xff` |
| `Average.CountAt` | main.go:114 | `counts[source]++` makes the entry at `source` one more than before (a missing key reads as 0), leaves every other entry unchanged, and raises the sum of all counts by exactly one |
| `Average.AddAt` | main.go:113 | `sums[source] = sums[source].Add(rgb)` makes the entry at `source` its old total (zero when missing) plus `rgb`, adds no other key, and leaves every other entry unchanged |
| `Average.TotalRemove` | main.go:114 | the sum of all counts does not depend on the order the keys are taken in |
| `Average.TallyPixel` | main.go:110-114 | handling one pixel moves both maps from "totals over the pixels before it" to "totals including it" |
| `Average.TallyRow` | main.go:109-115 | the inner loop over one row moves both maps from "totals over the rows above" to "totals including this row", and adds the row's width to the sum of all counts |
| `Average.Accumulate` | main.go:107-116 | after pass one, a seed has an entry exactly when it is nearest to some pixel; each entry's count and channel sums are the totals over exactly the pixels mapped to it; the counts over all seeds sum to `Dx*Dy` |
| `Average.OwnCountBefore` | main.go:108-116 | when every pixel is its own nearest seed, each cell holds one pixel |
| `Average.OwnSumBefore` | main.go:108-116 | when every pixel is its own nearest seed, each cell's sums are that pixel's own channels |
| `Average.OwnCellMean` | main.go:119-128 | when every pixel is its own nearest seed, each cell's colour is that pixel's colour at 8 bits, made opaque |
| `Average.Paint` | main.go:118-131 | pass two finds every looked-up count non-zero, and paints each pixel with its seed's cell mean |
| `Average.RenderFrameAverage` | main.go:102-132 | the frame is `Dx×Dy`; every pixel is the truncated mean of its seed's cell with alpha `0xff`; with every pixel a seed it is the source image at 8 bits, made opaque |

## Left out

- Flag parsing, opening the input file and decoding the image (main.go:20-45) are input plumbing and are not modelled.
- The `ffmpego` video writer, `WriteFrame` and the pause-frame loop (main.go:60-62, 77, 83-85) are an external sink, and the pause length depends on a floating-point product.
- The schedule `round(exp(log(N) * t^e))` (main.go:64-68) uses floating-point `exp`, `log` and `pow`, and logging (main.go:67) is output only. The per-step counts are an input.
- Driver.GrowthFrames: requires that some count reaches `len(coords)`. The source's schedule guarantees this because `t` grows without bound. The method returns each frame's seed slice rather than the rendered frame. Rendering a slice is `RenderFrame` or `RenderFrameAverage`.
- `math/rand` is replaced by the sequence of drawn values. The model proves the permutation property for every sequence, but not that the shuffle is uniform.
- The k-d tree inside `model2d` is not part of this model. Only its nearest-neighbour contract is used. No tie-break is assumed, and `NewCoordTree` on an empty seed list is not modelled.
- Direct.RenderFrame: does not say the returned buffer is freshly allocated, as `image.NewRGBA` makes it.
- Average.RenderFrameAverage: does not say the returned buffer is freshly allocated.
- Floating point in the average is not modelled: the sums of `c/256` and the scaling by `1/n`. The mean is exact integer floor division, so the source's float rounding could differ from it by one in rare cases.
- `RGBA()` colours are taken as given 16-bit channel values. Alpha premultiplication is not modelled, and average mode ignores alpha, as the source does.
- Go slices share their backing array (`coords[:count]`). The model uses sequence values, so aliasing is not captured.
