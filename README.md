# PhotoTransform core in Dafny

This project models the two classes at the centre of PhotoTransform and proves properties of
the model.

- `ImageTransformer` is the transform engine.
  - It wraps one image and offers per-pixel maps: red, negative, posterize and grayscale.
  - It offers a horizontal mirror.
  - It offers 3x3 neighbourhood filters with clipping at the edges: `denoise` takes the
    per-channel median and `weather` the per-channel minimum.
  - It offers block quantisation (`blockPaint`).
  - It offers the colour-key overlay `greenScreen`. This runs a stack-based 8-connected
    flood fill over a `visited` matrix and keeps the first largest region. It then takes that
    region's bounding rectangle and replaces the target-coloured pixels inside it with a tiled
    background.
- `ImageProcessing` compares and ranks images.
  - `cosineSimilarity` collapses the grayscale images to their low bytes, accumulates the dot
    product and the two squared magnitudes, and applies the zero-magnitude policy.
  - `bestMatch` scores every candidate against a reference image. It sorts the scores and the
    candidate list together with a Lomuto quicksort, then reverses the list.

## How the model is built

**Images and pixels.**
- An image is an `array2<Int32>` indexed `[row, column]`; Java's `Image.get(col, row)` is
  transposed into this order.
- A pixel is a Java `int`. The channels `(p >> k) & 0xFF` are `(p / 2^k) % 256`, which agrees
  with Java's arithmetic shift for negative `p` too.
- `java.awt.Color` is the datatype `Colour`. Packing wraps to a signed 32-bit `int`, as
  Java's `<<` and `|` do (`Pixels`).

**Modules.**

| module | contents |
|---|---|
| `Pixels` | pixel packing and unpacking; image contents as a rectangular `Picture` (a sequence of rows) |
| `Grid` | cells, the eight neighbour moves and the clipped neighbourhood |
| `Lists` | `Collections.sort` and `Collections.min`, given by their contracts |
| `Regions` | the colour-key vocabulary: components, the flood-fill and scan invariants, bounding boxes, the replaced pixel |
| `Transformer` | the class `ImageTransformer`, with one method per Java method |
| `Ranking` | `QuickSort.partition`, `QuickSort.qSortMapAsTwoLists` and `Collections.reverse` |
| `Processing` | `collapseMatrix`, `cosineSimilarity` and `bestMatch` |

**Transformer.**
- An `ImageTransformer` keeps its source `image` and a ghost `pixels`, the source's contents
  when the transformer was made. No operation changes the source, so `Valid()` keeps holding.
- Every transform allocates a fresh output image.
- Each transform states its output cell by cell through a pure function of `pixels`, for
  example `RedPixel`, `DenoisedPixel`, `BlockColour` or `GreenScreenPixel`. The lemmas
  are stated about those functions.
- The flood fill and the scan of `findLargestConnectedRegion` are loops over the real
  `visited` matrix, the `Stack` (a sequence) and the region list. Ghost values carry their
  invariants, which are stated in `Regions`.
- The flood fill terminates: each step either takes an unvisited cell or pops the stack.

**Ranking.**
- The two lists of `qSortMapAsTwoLists` are arrays that are swapped in place.
- That the values and images stay paired is stated with an index permutation `perm`:
  `values[k] == old(values)[perm[k]]` and `images[k] == old(images)[perm[k]]`.
- `perm` maps `[low, high]` onto itself and fixes every other index.

**Similarity.**
- The model computes the integer part of `cosineSimilarity` exactly: the dot product, the two
  squared magnitudes and the zero-magnitude policy. The result is the datatype `Similarity`.
- The final `dot / (sqrt(mag1) * sqrt(mag2))` is a parameter `ratio` standing for that
  floating-point quotient.
- `Image.toGray` is a parameter `toGray`.
- In `bestMatch`, the contents of the reference image and of the candidates are ghost
  parameters tied to the arrays by `Holds`. The result is stated as the candidate list
  rearranged by a permutation `order`, with non-increasing similarity from front to back.

**Where the code and its documentation disagree.** The model follows the code in both cases.
- The doc comment of `cosineSimilarity` says that the images must not be black. The code
  handles black images by its zero-magnitude policy: 1 when both are black, 0 when exactly
  one is.
- The doc comment of `blockPaint` asks for a block size "less than" the width or height. The
  code rejects only a block size greater than the width or the height.

## Model

The source paths are relative to the repository root.

| member | source | states |
|---|---|---|
| Pixels.Pack | src/main/java/ca/ubc/ece/cpen221/ip/mp/ImageTransformer.java:167-168 | `(a << 24) \| (r << 16) \| (g << 8) \| b` as a signed int: each channel read back with shift and mask is the channel packed in |
| Pixels.Unpack | src/main/java/ca/ubc/ece/cpen221/ip/mp/ImageTransformer.java:66 | `Image.get` as a `Color`: the only colour whose packed value is the pixel |
| Pixels.UnpackPack | src/main/java/ca/ubc/ece/cpen221/ip/mp/ImageTransformer.java:125-128 | unpacking a packed colour gives the colour back |
| Pixels.PackUnpack | src/main/java/ca/ubc/ece/cpen221/ip/mp/ImageTransformer.java:124-130 | every int is the packing of its own four channels, so shift-and-mask extraction loses nothing |
| Pixels.PackInjective | src/main/java/ca/ubc/ece/cpen221/ip/mp/ImageTransformer.java:468-470 | two colours have the same `getRGB` exactly when they are the same colour |
| Grid.Neighbours | src/main/java/ca/ubc/ece/cpen221/ip/mp/ImageTransformer.java:387-394 | the eight cells the flood fill pushes, in push order, are exactly the cells adjacent to the point |
| Grid.MovesAreAdjacent | src/main/java/ca/ubc/ece/cpen221/ip/mp/ImageTransformer.java:204 | the eight offsets of the direction table are exactly the displacements to adjacent cells |
| Grid.InBoundsStepsSound | src/main/java/ca/ubc/ece/cpen221/ip/mp/ImageTransformer.java:205-210 | every cell the neighbourhood filter keeps is in bounds and is the pixel moved by one of the offsets |
| Grid.InBoundsStepsComplete | src/main/java/ca/ubc/ece/cpen221/ip/mp/ImageTransformer.java:205-210 | every in-bounds cell reached by an offset is kept |
| Grid.NeighbourhoodShape | src/main/java/ca/ubc/ece/cpen221/ip/mp/ImageTransformer.java:202-213 | for an in-bounds pixel the neighbourhood has 1 to 9 distinct cells, the pixel first; a cell is in it exactly when it is in bounds and at most one row and one column away (no wrap-around) |
| Lists.Sort | src/main/java/ca/ubc/ece/cpen221/ip/mp/ImageTransformer.java:185 | `Collections.sort` gives a sorted permutation of the list |
| Lists.SortedUnique | src/main/java/ca/ubc/ece/cpen221/ip/mp/ImageTransformer.java:185 | two sorted permutations of the same list are equal, so the median does not depend on how the list was sorted |
| Lists.Min | src/main/java/ca/ubc/ece/cpen221/ip/mp/ImageTransformer.java:268-270 | `Collections.min` is an element of the list and no greater than any element |
| Transformer.RedPixel | src/main/java/ca/ubc/ece/cpen221/ip/mp/ImageTransformer.java:83-86 | the red pixel keeps alpha and red and has green and blue 0 |
| Transformer.RedIdempotent | src/main/java/ca/ubc/ece/cpen221/ip/mp/ImageTransformer.java:79-91 | applying `red` to a red pixel changes nothing |
| Transformer.NegativePixel | src/main/java/ca/ubc/ece/cpen221/ip/mp/ImageTransformer.java:124-130 | the negative keeps alpha and maps each of red, green and blue to 255 - c |
| Transformer.NegativeInvolution | src/main/java/ca/ubc/ece/cpen221/ip/mp/ImageTransformer.java:120-135 | the negative of the negative is the original pixel |
| Transformer.CalculatePosterizeColour | src/main/java/ca/ubc/ece/cpen221/ip/mp/ImageTransformer.java:143-152 | every channel value maps to one of the three levels 32, 96 and 222 |
| Transformer.PosterizeMonotone | src/main/java/ca/ubc/ece/cpen221/ip/mp/ImageTransformer.java:143-152 | a brighter channel never gets a darker level |
| Transformer.PosterizeBoundaries | src/main/java/ca/ubc/ece/cpen221/ip/mp/ImageTransformer.java:143-152 | 0 and 64 map to 32, 65 and 128 to 96, 129 and 255 to 222 |
| Transformer.PosterizePixel | src/main/java/ca/ubc/ece/cpen221/ip/mp/ImageTransformer.java:163-168 | the posterized pixel has alpha 255 and each colour channel posterized |
| Transformer.PosterizeIdempotent | src/main/java/ca/ubc/ece/cpen221/ip/mp/ImageTransformer.java:143-173 | posterizing a posterized pixel changes nothing |
| Transformer.NeighbourColoursAtCells | src/main/java/ca/ubc/ece/cpen221/ip/mp/ImageTransformer.java:205-210 | entry k of the colour list is the colour of cell k of the clipped neighbourhood, which is in bounds |
| Transformer.Neighbourhood | src/main/java/ca/ubc/ece/cpen221/ip/mp/ImageTransformer.java:202-213 | at most nine colours, and for an in-bounds pixel at least one, the pixel's own colour first |
| Transformer.NeighbourhoodCells | src/main/java/ca/ubc/ece/cpen221/ip/mp/ImageTransformer.java:202-213 | each colour of the neighbourhood is the colour of an in-bounds cell at most one step from the pixel |
| Transformer.ChannelLists | src/main/java/ca/ubc/ece/cpen221/ip/mp/ImageTransformer.java:226-236 | the three lists are the red, green and blue channels of the neighbourhood, in its order |
| Transformer.JavaHalf | src/main/java/ca/ubc/ece/cpen221/ip/mp/ImageTransformer.java:192 | Java's `x / 2` on an `int`: half of x rounded down for x >= 0 and up (toward zero) for x < 0 |
| Transformer.MedianBounds | src/main/java/ca/ubc/ece/cpen221/ip/mp/ImageTransformer.java:184-193 | the median lies between the least and the greatest element; for an odd length it is an element |
| Transformer.MedianOfAnySortedPermutation | src/main/java/ca/ubc/ece/cpen221/ip/mp/ImageTransformer.java:184-193 | the median is the middle element of the sorted list, or for even length the sum of the two middle ones halved toward zero, as Java's `int` division does |
| Transformer.MedianOfList | src/main/java/ca/ubc/ece/cpen221/ip/mp/ImageTransformer.java:184-193 | `median` sorts the list and returns exactly that value |
| Transformer.MedianUniform | src/main/java/ca/ubc/ece/cpen221/ip/mp/ImageTransformer.java:184-193 | the median of a constant list is the constant |
| Transformer.DenoiseUniform | src/main/java/ca/ubc/ece/cpen221/ip/mp/ImageTransformer.java:220-246 | `denoise` leaves every pixel of a uniform opaque image unchanged |
| Transformer.WeatherIsNeighbourhoodMinimum | src/main/java/ca/ubc/ece/cpen221/ip/mp/ImageTransformer.java:251-277 | each weathered channel is the least value of that channel over the in-bounds neighbourhood, and alpha is 255 |
| Transformer.WeatherNeverBrighter | src/main/java/ca/ubc/ece/cpen221/ip/mp/ImageTransformer.java:251-277 | no weathered channel exceeds the pixel's own channel |
| Transformer.WeatherSinglePixel | src/main/java/ca/ubc/ece/cpen221/ip/mp/ImageTransformer.java:251-277 | a 1x1 opaque image is unchanged by `weather` |
| Transformer.BlockAverage | src/main/java/ca/ubc/ece/cpen221/ip/mp/ImageTransformer.java:288-304 | the block average is an opaque colour (`new Color(r, g, b)`) |
| Transformer.BlockSumBounds | src/main/java/ca/ubc/ece/cpen221/ip/mp/ImageTransformer.java:292-299 | a channel sum over a rows x cols block lies in 0 .. 255 * rows * cols, so the truncated mean is a byte |
| Transformer.BlockAverageUniform | src/main/java/ca/ubc/ece/cpen221/ip/mp/ImageTransformer.java:288-304 | the average of a block of one pixel value is that pixel's colour made opaque |
| Transformer.SameBlockSameColour | src/main/java/ca/ubc/ece/cpen221/ip/mp/ImageTransformer.java:312-332 | all pixels of one block of `blockPaint` get the same colour |
| Transformer.BlockColourOfBlock | src/main/java/ca/ubc/ece/cpen221/ip/mp/ImageTransformer.java:318-329 | every pixel of the block starting at (r0, c0) gets the average of that block, clipped at the right and bottom edges |
| Transformer.MirrorTwice | src/main/java/ca/ubc/ece/cpen221/ip/mp/ImageTransformer.java:100-111 | the mirror of the mirrored contents is the original image |
| Transformer.ImageTransformer.constructor | src/main/java/ca/ubc/ece/cpen221/ip/mp/ImageTransformer.java:48-55 | the transformer holds the image, its size and its contents |
| Transformer.ImageTransformer.Grayscale | src/main/java/ca/ubc/ece/cpen221/ip/mp/ImageTransformer.java:62-72 | fresh image of the same size; each pixel is `toGray` of the source pixel |
| Transformer.ImageTransformer.Red | src/main/java/ca/ubc/ece/cpen221/ip/mp/ImageTransformer.java:79-91 | fresh image of the same size; each pixel is `RedPixel` of the source pixel |
| Transformer.ImageTransformer.Mirror | src/main/java/ca/ubc/ece/cpen221/ip/mp/ImageTransformer.java:100-111 | fresh image of the same size; cell (i, j) is source cell (i, width - 1 - j), so the output holds `Mirrored(pixels)` |
| Transformer.ImageTransformer.Negative | src/main/java/ca/ubc/ece/cpen221/ip/mp/ImageTransformer.java:120-135 | fresh image of the same size; each pixel is `NegativePixel` of the source pixel |
| Transformer.ImageTransformer.Posterize | src/main/java/ca/ubc/ece/cpen221/ip/mp/ImageTransformer.java:159-173 | fresh image of the same size; each pixel is `PosterizePixel` of the source pixel |
| Transformer.ImageTransformer.GetPixelNeighbourhood | src/main/java/ca/ubc/ece/cpen221/ip/mp/ImageTransformer.java:202-213 | the colours of the in-bounds cells of the direction table, in table order |
| Transformer.ImageTransformer.DenoiseAt | src/main/java/ca/ubc/ece/cpen221/ip/mp/ImageTransformer.java:224-242 | the opaque pixel of the three channel medians over the neighbourhood |
| Transformer.ImageTransformer.Denoise | src/main/java/ca/ubc/ece/cpen221/ip/mp/ImageTransformer.java:220-246 | fresh image of the same size; each pixel is the denoised pixel |
| Transformer.ImageTransformer.WeatherAt | src/main/java/ca/ubc/ece/cpen221/ip/mp/ImageTransformer.java:255-273 | the opaque pixel of the three channel minima over the neighbourhood |
| Transformer.ImageTransformer.Weather | src/main/java/ca/ubc/ece/cpen221/ip/mp/ImageTransformer.java:251-277 | fresh image of the same size; each pixel is the weathered pixel |
| Transformer.ImageTransformer.GetBlockRGBAverage | src/main/java/ca/ubc/ece/cpen221/ip/mp/ImageTransformer.java:288-304 | the channel-wise truncated mean of the block, as an opaque colour |
| Transformer.ImageTransformer.BlockPaint | src/main/java/ca/ubc/ece/cpen221/ip/mp/ImageTransformer.java:312-332 | IllegalArgument exactly when the block size exceeds the width or the height; otherwise a fresh image in which every pixel has the average of its clipped block |
| Transformer.ImageTransformer.FloodStep | src/main/java/ca/ubc/ece/cpen221/ip/mp/ImageTransformer.java:375-396 | one pass of the flood-fill loop keeps the flood invariant and the visited matrix in step, and takes an unvisited cell or shrinks the stack |
| Transformer.ImageTransformer.FindConnectedRegion | src/main/java/ca/ubc/ece/cpen221/ip/mp/ImageTransformer.java:370-398 | distinct, previously unvisited target-coloured in-bounds cells, connected to the first, which is the start cell; non-empty exactly when the start cell matches and is unvisited; every matching neighbour of the region is visited or in it; exactly these cells become visited |
| Transformer.ImageTransformer.ScanCell | src/main/java/ca/ubc/ece/cpen221/ip/mp/ImageTransformer.java:349-356 | one cell of the scan keeps the scan invariant and the first-largest choice |
| Transformer.ImageTransformer.FindLargestConnectedRegion | src/main/java/ca/ubc/ece/cpen221/ip/mp/ImageTransformer.java:343-359 | the regions found are the components of the colour in scan order and cover every matching cell; the result is the first of the largest of them, or empty |
| Transformer.ImageTransformer.FindRectangle | src/main/java/ca/ubc/ece/cpen221/ip/mp/ImageTransformer.java:406-426 | the rectangle holds every region cell and each bound is attained by a cell or is the initial value; for a non-empty in-bounds region it is the bounding box |
| Transformer.ImageTransformer.SetGreenScreen | src/main/java/ca/ubc/ece/cpen221/ip/mp/ImageTransformer.java:436-449 | in place: every pixel of the image becomes `GreenScreenPixel` of its old contents |
| Transformer.ImageTransformer.CopyImage | src/main/java/ca/ubc/ece/cpen221/ip/mp/ImageTransformer.java:459 | `new Image(image)`: a fresh image with the same contents |
| Transformer.ImageTransformer.GreenScreen | src/main/java/ca/ubc/ece/cpen221/ip/mp/ImageTransformer.java:458-466 | fresh image of the same size; a copy of the source when no region is found, and otherwise the source with the target-coloured pixels inside the bounding box of the first largest region replaced by the tiled background |
| Regions.IsMatchingColour | src/main/java/ca/ubc/ece/cpen221/ip/mp/ImageTransformer.java:468-470 | the packed values agree exactly when the colours are equal |
| Regions.MatchesPacked | src/main/java/ca/ubc/ece/cpen221/ip/mp/ImageTransformer.java:468-470 | a cell matches exactly when its pixel is the packed target colour |
| Regions.FloodStart | src/main/java/ca/ubc/ece/cpen221/ip/mp/ImageTransformer.java:371-374 | the stack holding only the start point satisfies the flood invariant |
| Regions.FloodSkip | src/main/java/ca/ubc/ece/cpen221/ip/mp/ImageTransformer.java:376-381 | popping an out-of-bounds, visited or non-matching point keeps the flood invariant |
| Regions.FloodTake | src/main/java/ca/ubc/ece/cpen221/ip/mp/ImageTransformer.java:382-394 | taking a matching unvisited point and pushing its eight neighbours keeps the flood invariant |
| Regions.FloodDone | src/main/java/ca/ubc/ece/cpen221/ip/mp/ImageTransformer.java:376-397 | once the stack is empty the region is connected to its first cell, is non-empty exactly when the start cell matches and is unvisited, and no matching neighbour is left out |
| Regions.ScanTake | src/main/java/ca/ubc/ece/cpen221/ip/mp/ImageTransformer.java:351-352 | adding a flood-filled region started at the scan position keeps the scan invariant |
| Regions.ScanDone | src/main/java/ca/ubc/ece/cpen221/ip/mp/ImageTransformer.java:347-358 | after the scan the found regions are the components of the colour, distinct, in scan order and covering every matching cell |
| Regions.LargestStep | src/main/java/ca/ubc/ece/cpen221/ip/mp/ImageTransformer.java:353-355 | replacing the choice only on a strictly larger region keeps it the first of the largest |
| Regions.LargestIsComponent | src/main/java/ca/ubc/ece/cpen221/ip/mp/ImageTransformer.java:343-359 | a non-empty chosen region is a whole 8-connected component of the colour |
| Regions.ComponentUnique | src/main/java/ca/ubc/ece/cpen221/ip/mp/ImageTransformer.java:370-398 | two components that share a cell have the same cells |
| Regions.LargestIsLargest | src/main/java/ca/ubc/ece/cpen221/ip/mp/ImageTransformer.java:343-359 | if any cell matches, the chosen region is non-empty and no region holding that cell is larger |
| Regions.NothingToReplace | src/main/java/ca/ubc/ece/cpen221/ip/mp/ImageTransformer.java:458-466 | with no pixel of the colour, no region is found and the chosen region is empty |
| Regions.BoundingBoxWithin | src/main/java/ca/ubc/ece/cpen221/ip/mp/ImageTransformer.java:406-426 | the bounding box of in-bounds cells lies inside the image |
| Regions.BoundingBoxSmallest | src/main/java/ca/ubc/ece/cpen221/ip/mp/ImageTransformer.java:406-426 | every rectangle holding the region contains its bounding box |
| Regions.GreenScreenKeeps | src/main/java/ca/ubc/ece/cpen221/ip/mp/ImageTransformer.java:440-447 | a pixel outside the rectangle, or not of the target colour, keeps its value |
| Regions.GreenScreenReplaces | src/main/java/ca/ubc/ece/cpen221/ip/mp/ImageTransformer.java:441-445 | a target-coloured pixel inside the rectangle becomes background(row mod height, column mod width) |
| Ranking.Swapped | src/main/java/ca/ubc/ece/cpen221/ip/mp/ImageProcessing.java:114-117 | the two entries are exchanged and every other entry is kept |
| Ranking.SwapBoth | src/main/java/ca/ubc/ece/cpen221/ip/mp/ImageProcessing.java:114-121 | both lists are swapped at the same two indices |
| Ranking.SwapMoves | src/main/java/ca/ubc/ece/cpen221/ip/mp/ImageProcessing.java:112-122 | a paired swap inside the range keeps each image with its value and the permutation inside the range |
| Ranking.ComposeMoves | src/main/java/ca/ubc/ece/cpen221/ip/mp/ImageProcessing.java:136-142 | two pairing-preserving rearrangements in succession are one, for the composed permutation |
| Ranking.IdentityMoves | src/main/java/ca/ubc/ece/cpen221/ip/mp/ImageProcessing.java:137 | leaving the lists alone is the identity rearrangement |
| Ranking.PartitionScan | src/main/java/ca/ubc/ece/cpen221/ip/mp/ImageProcessing.java:108-123 | after the scan the entries up to i are at most the pivot and those after it up to high - 1 are above it; the pivot stays at high; both lists are rearranged together within [low, high] |
| Ranking.PivotPlaced | src/main/java/ca/ubc/ece/cpen221/ip/mp/ImageProcessing.java:125-133 | the final swap puts the pivot at i + 1 with smaller-or-equal values before it and larger values after it |
| Ranking.Partition | src/main/java/ca/ubc/ece/cpen221/ip/mp/ImageProcessing.java:108-134 | returns p in [low, high] with values[low..p-1] <= values[p] < values[p+1..high]; the lists are rearranged together by a permutation of [low, high] that fixes everything outside |
| Ranking.SortedAroundPivot | src/main/java/ca/ubc/ece/cpen221/ip/mp/ImageProcessing.java:136-142 | a partitioned range whose two sides are then sorted is sorted |
| Ranking.QSortStep | src/main/java/ca/ubc/ece/cpen221/ip/mp/ImageProcessing.java:137-141 | partition followed by the two recursive sorts sorts [low, high] as one paired rearrangement of it |
| Ranking.QSortMapAsTwoLists | src/main/java/ca/ubc/ece/cpen221/ip/mp/ImageProcessing.java:136-142 | values[low..high] ascending, both lists rearranged together by a permutation of that range; nothing changes when low >= high |
| Ranking.Reverse | src/main/java/ca/ubc/ece/cpen221/ip/mp/ImageProcessing.java:99 | `Collections.reverse` in place: the list becomes its reverse |
| Ranking.ReversedTwice | src/main/java/ca/ubc/ece/cpen221/ip/mp/ImageProcessing.java:99 | reversing the list twice gives it back |
| Ranking.ReversedMultiset | src/main/java/ca/ubc/ece/cpen221/ip/mp/ImageProcessing.java:99 | reversing keeps every image, each as often |
| Ranking.ReversedReorders | src/main/java/ca/ubc/ece/cpen221/ip/mp/ImageProcessing.java:99 | a reversed permutation is a permutation |
| Ranking.PermuteMultiset | src/main/java/ca/ubc/ece/cpen221/ip/mp/ImageProcessing.java:96-99 | a list rearranged by a permutation of its positions has the same elements, each as often |
| Ranking.SortedThenReversed | src/main/java/ca/ubc/ece/cpen221/ip/mp/ImageProcessing.java:98-99 | reversing the ascending result gives the original images in an order of non-increasing value |
| Ranking.SortDescending | src/main/java/ca/ubc/ece/cpen221/ip/mp/ImageProcessing.java:97-99 | the images become the original list rearranged by a permutation, with the same multiset of images, whose values never increase from front to back |
| Processing.Collapsed | src/main/java/ca/ubc/ece/cpen221/ip/mp/ImageProcessing.java:25-34 | the collapsed image has height * width entries |
| Processing.CollapsedAt | src/main/java/ca/ubc/ece/cpen221/ip/mp/ImageProcessing.java:27-31 | row-major order: entry i * width + j is the low byte of pixel (i, j) |
| Processing.CollapsedBytes | src/main/java/ca/ubc/ece/cpen221/ip/mp/ImageProcessing.java:29 | every entry lies in 0 .. 255 |
| Processing.CollapsedZero | src/main/java/ca/ubc/ece/cpen221/ip/mp/ImageProcessing.java:25-34 | the vector is all zeros exactly when every pixel's low byte is 0 |
| Processing.CollapseMatrix | src/main/java/ca/ubc/ece/cpen221/ip/mp/ImageProcessing.java:25-34 | the loops build exactly the collapsed image |
| Processing.SquaredNormZero | src/main/java/ca/ubc/ece/cpen221/ip/mp/ImageProcessing.java:61-76 | a squared magnitude is at least 0, and it is 0 exactly when the vector is all zeros |
| Processing.DotSymmetric | src/main/java/ca/ubc/ece/cpen221/ip/mp/ImageProcessing.java:61-70 | the dot product does not depend on the order of the vectors |
| Processing.DotNonNegative | src/main/java/ca/ubc/ece/cpen221/ip/mp/ImageProcessing.java:61-70 | the dot product of non-negative vectors is non-negative |
| Processing.CauchySchwarz | src/main/java/ca/ubc/ece/cpen221/ip/mp/ImageProcessing.java:77 | dot * dot <= mag1 * mag2, so the quotient lies in [-1, 1] |
| Processing.Classify | src/main/java/ca/ubc/ece/cpen221/ip/mp/ImageProcessing.java:72-76 | both magnitudes zero gives BothBlack, exactly one zero gives OneBlack, and only two non-zero magnitudes give Cosine with the three sums |
| Processing.Value | src/main/java/ca/ubc/ece/cpen221/ip/mp/ImageProcessing.java:72-77 | the returned value: 1 for BothBlack, 0 for OneBlack, and the square-root quotient of the three sums for Cosine |
| Processing.GrayVectorLength | src/main/java/ca/ubc/ece/cpen221/ip/mp/ImageProcessing.java:58-64 | the gray levels of an image number height * width, so two images of the same size give vectors of the same length |
| Processing.GrayVectorCollapsed | src/main/java/ca/ubc/ece/cpen221/ip/mp/ImageProcessing.java:56-59 | the gray levels compared are the collapsed grayscale image |
| Processing.GrayVectorZero | src/main/java/ca/ubc/ece/cpen221/ip/mp/ImageProcessing.java:56-59 | the gray levels are all zero exactly when the image is black |
| Processing.SimilarityCases | src/main/java/ca/ubc/ece/cpen221/ip/mp/ImageProcessing.java:72-78 | both images black gives result 1, exactly one black gives 0, and only two non-black images get a cosine |
| Processing.CosineInRange | src/main/java/ca/ubc/ece/cpen221/ip/mp/ImageProcessing.java:61-78 | in the cosine case the dot product is at least 0, both magnitudes are positive and dot^2 <= mag1 * mag2, so the cosine lies in [0, 1] |
| Processing.SelfSimilarity | src/main/java/ca/ubc/ece/cpen221/ip/mp/ImageProcessing.java:44-79 | an image compared with itself is black (1) or gets a cosine whose dot product equals both magnitudes (1) |
| Processing.SimilaritySymmetric | src/main/java/ca/ubc/ece/cpen221/ip/mp/ImageProcessing.java:44-79 | swapping the two images swaps the magnitudes and changes nothing else |
| Processing.GrayLevels | src/main/java/ca/ubc/ece/cpen221/ip/mp/ImageProcessing.java:54-59 | transformer, grayscale and collapse give the image's gray levels |
| Processing.Accumulate | src/main/java/ca/ubc/ece/cpen221/ip/mp/ImageProcessing.java:61-70 | after the loop dot is the sum of the products and the magnitudes are the sums of squares |
| Processing.CosineSimilarity | src/main/java/ca/ubc/ece/cpen221/ip/mp/ImageProcessing.java:44-79 | NullImage when an image is missing, IllegalArgument when the sizes differ, and otherwise the similarity of the two images' contents |
| Processing.ScoreCandidate | src/main/java/ca/ubc/ece/cpen221/ip/mp/ImageProcessing.java:93 | the call `cosineSimilarity(img, image)`: it succeeds exactly for a comparable pair, with that pair's similarity value, and otherwise fails with that pair's exception |
| Processing.AddSimilarity | src/main/java/ca/ubc/ece/cpen221/ip/mp/ImageProcessing.java:92-95 | one pass of the scoring loop appends the similarity of candidate k, or stops with its exception |
| Processing.Similarities | src/main/java/ca/ubc/ece/cpen221/ip/mp/ImageProcessing.java:89-95 | succeeds exactly when every candidate is comparable with img, and then gives a fresh list whose entry k is the similarity to candidate k; otherwise the exception of the first rejected candidate |
| Processing.BestMatch | src/main/java/ca/ubc/ece/cpen221/ip/mp/ImageProcessing.java:89-101 | fails with the exception of the first rejected candidate, leaving the list unchanged; otherwise returns the same list, rearranged by a permutation (so with the same multiset of images), with similarity to img non-increasing from front to back |

## Left out

- `Image.toGray` is not part of this model. `grayscale` takes it as the parameter `toGray`.
- The final floating-point division (ImageProcessing.java line 77) is left out: `dot / (sqrt(mag1) * sqrt(mag2))` is the parameter `ratio`, and the scores of `bestMatch` are `real`s. Rounding, NaN and `Math.sqrt` are not modelled.
- Processing.Accumulate: the Java accumulators are a `long` and two `double`s. The model's integers are unbounded, so overflow of `dot` and loss of precision in the magnitudes (only possible beyond about 10^11 pixels) are not modelled.
- The commented-out code at ImageTransformer.java:473-617, that is `calculateAngle`, `rotateImage`, `alignTextImage` and `downscale`, is disabled code and is not modelled.
- Transformer.ImageTransformer.constructor: takes a non-null array. The exception thrown for a null image (ImageTransformer.java lines 49-51) is not modelled. The null checks of `cosineSimilarity` are modelled.
- Transformer.ImageTransformer.Mirror: requires width >= 1 when the height is positive. With width 0 the loop at ImageTransformer.java:103-104 reads column -1 and throws; that error path is not modelled.
- Transformer.ImageTransformer.GetBlockRGBAverage: the Java channel sums at ImageTransformer.java lines 295-297 are `int`s, which wrap once 255 * blockHeight * blockWidth exceeds 2^31 - 1 (blocks of about 2902 x 2902 pixels and larger); the model's sums are unbounded and the contract promises the exact mean.
- Transformer.ImageTransformer.BlockPaint: for such large blocks the wrapped sum gives a negative or wrong mean, and Java's `new Color` then throws IllegalArgumentException or paints a wrong colour; the model returns Success with the exact mean. Images of that size are beyond what the model's contract covers faithfully.
- Transformer.Median: the Java sum of the two middle entries at ImageTransformer.java line 192 is an `int` and could wrap for entries beyond 2^30; the model's sum is unbounded. The lists `denoise` passes hold bytes, so its results are unaffected.
- Transformer.ImageTransformer.BlockPaint: requires a block size of at least 1 unless the image is empty. With a block size of 0 the loop at ImageTransformer.java:319 never ends, and a negative one is not meaningful.
- Transformer.ImageTransformer.GreenScreen: requires a background of at least 1x1. With an empty background the `%` at ImageTransformer.java:443 divides by zero when a pixel is replaced.
- Transformer.ImageTransformer.SetGreenScreen: requires the image and the background to be different arrays. `greenScreen` always passes a fresh copy, so this holds at its only call.
- `Image`, `Rectangle` and `java.awt.Color` are external classes. They are modelled as a packed-pixel `array2`, a four-field datatype and the datatype `Colour`.
- `Collections.sort`, `Collections.min`, `Collections.reverse` and `Stack` are library code, modelled by their contracts. The algorithm `Collections.sort` uses is not modelled.
- Processing.BestMatch: the image contents are ghost parameters tied to the image arrays, and the Java lists are arrays. `similarities.add` is modelled as writing entry k of a fresh array of the final length.
- Processing.BestMatch and Ranking.QSortMapAsTwoLists: that each image stays with its score is stated through an explicit index permutation, not through a multiset of (score, image) pairs. The multiset of the images follows from the permutation (Ranking.PermuteMultiset).
- The tests and their image fixtures under `resources/` are file I/O and are not modelled.
