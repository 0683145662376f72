# Zhang-Suen thinning, modelled in Dafny

This project models `zhangsuenThinning.cpp`, an OpenCV implementation of the
Zhang-Suen thinning algorithm. It has two routines:

- `thinningIteration(image, step)` is one sub-iteration. It sweeps the interior
  of a 0/1 image. For each pixel it reads the eight neighbours clockwise from
  east (N0..N7). It computes three conditions:
  - the connectivity number over the index set S = {0, 2, 4, 6};
  - the neighbour sum;
  - two step-specific AND-triples.

  It marks the pixel in a separate zero-initialised marker grid when the
  connectivity number is 1, the sum is in [2, 6] and both triples are 0. Only
  after the sweep does it clear every marked pixel, with `image &= ~marker`.
- `thinning(image)` is the driver. It divides a 0/255 image by 255. It then
  repeats step 1 and step 2 until the image equals the snapshot `prev` taken
  after the previous round. `prev` starts all zero. Finally it multiplies the
  image by 255.

The project has three modules:

- `Grids` (grids.dfy) holds images as `seq<seq<int>>`, the 0/255 and 0/1
  encodings and the conversions between them, and the white-pixel count.
- `ZhangSuen` (zhangsuen.dfy) is the pure specification:
  - `Window`, the conditions, `Marked` and `Mask`;
  - `Pass`, which clears every marked pixel of the image as it was at the start
    of the pass;
  - `Round`, which is step 1 then step 2;
  - `Skeleton`, which runs rounds to the fixed point;
  - `Thin`, which is the whole driver.

  It also holds the properties of these functions.
- `Thinning` (thinning.dfy) models the two routines imperatively:
  - the image is an `array2<int>` changed in place;
  - the marker is a fresh `array2<int>`;
  - each C++ loop is a `while` loop.

  Each method is proved equal to its specification function. `ThinningIteration`
  gives `Pass`. `Thinning` gives `Thin`.

The C++ `&` and `~` at lines 81 and 102-107 act on operands promoted to `int`.
Those lines are modelled with `bv32`. The `&= ~` on `uchar` at line 121 is
modelled with `bv8`. Lemmas show that on 0/1 values these bit operations are
the Boolean AND and NOT that the specification uses.

Two source comments disagree with the code, and the model follows the code:

- Line 39 says the neighbour sum must be 2 to 8. The test at line 115 accepts
  2 to 6.
- Line 114 says both AND-triples must equal 1. The test at line 115 requires
  both to be 0.

The marking test never reads the centre pixel. A black pixel can therefore be
marked, and clearing it has no effect. `MarkIgnoresCentre` states that a
pixel's mark does not depend on its own value. The `Shrinks` clause of `Pass`
states that a pass never turns a pixel on.

## Model

| member | source | states |
|---|---|---|
| Grids.Normalised | zhangsuenThinning.cpp:13 | on a 0/255 image, `/255` keeps the shape, gives a 0/1 image, and a pixel is 1 exactly where it was 255 |
| Grids.Denormalised | zhangsuenThinning.cpp:33 | on a 0/1 image, `*255` keeps the shape, gives a 0/255 image, and a pixel is 255 exactly where it was 1 |
| Grids.DenormaliseNormalise | zhangsuenThinning.cpp:11-34 | normalising and then denormalising a 0/255 image gives it back |
| Grids.NormaliseDenormalise | zhangsuenThinning.cpp:11-34 | denormalising and then normalising a 0/1 image gives it back |
| Grids.CountRowShrinks | zhangsuenThinning.cpp:19-29 | switching values of a row off never raises its white count, and switching any off lowers it |
| Grids.CountShrinks | zhangsuenThinning.cpp:19-29 | an image that only lost white pixels has no more white pixels, and strictly fewer if it differs: this is the driver loop's termination measure |
| ZhangSuen.Window | zhangsuenThinning.cpp:55-56 | the eight neighbours of an interior pixel, clockwise from east; they are 0/1 when the image is |
| ZhangSuen.Interior | zhangsuenThinning.cpp:47-49 | the sweep visits rows 1..rows-2 and columns 1..cols-2; an image with fewer than three rows or columns has no such pixel |
| ZhangSuen.S | zhangsuenThinning.cpp:77-78 | the default index set `set_S` = {0, 2, 4, 6} with `Slen` = 4 |
| ZhangSuen.Transition | zhangsuenThinning.cpp:71-81 | the contribution of N[k] is 0 or 1, and it is 1 exactly when N[k] is set and N[k+1] or N[k+2] (mod 8) is clear |
| ZhangSuen.ConnectivityNumber | zhangsuenThinning.cpp:84-87 | the unrolled connectivity number over S = {0, 2, 4, 6} is at most 4 |
| ZhangSuen.ConnectivityOver | zhangsuenThinning.cpp:80-81 | the running connectivity sum over a list of indices is at most the list's length |
| ZhangSuen.ConnectivityOverS | zhangsuenThinning.cpp:77-87 | the loop over S computes the unrolled connectivity number |
| ZhangSuen.NeighbourSum | zhangsuenThinning.cpp:93-94 | the neighbour sum of a 0/1 window lies in [0, 8] |
| ZhangSuen.Sum | zhangsuenThinning.cpp:93-94 | the running sum of a 0/1 sequence lies between 0 and its length |
| ZhangSuen.SumIsNeighbourSum | zhangsuenThinning.cpp:93-94 | the accumulating loop over the window computes the neighbour sum |
| ZhangSuen.CheckA | zhangsuenThinning.cpp:99-109 | the first triple of the step (`N0&N4&N6` for step 1, `N0&N2&N6` for step 2); on both steps it can hold only when east and north are white |
| ZhangSuen.CheckB | zhangsuenThinning.cpp:99-109 | the second triple of the step (`N2&N4&N6` for step 1, `N0&N2&N4` for step 2); on both steps it can hold only when south and west are white |
| ZhangSuen.DeletableWindow | zhangsuenThinning.cpp:115 | the deletion test on a window; it never holds when the four edge neighbours are all white, on either step |
| ZhangSuen.Marked | zhangsuenThinning.cpp:111-116 | a pixel is marked only when it is interior and its window passes the deletion test |
| ZhangSuen.MarkIgnoresCentre | zhangsuenThinning.cpp:55-56 | the window omits the centre pixel, so a pixel's mark is the same whatever its own value; black pixels can be marked |
| ZhangSuen.Mask | zhangsuenThinning.cpp:44-118 | the marker grid depends only on the image at the start of the pass, has the image's shape, and marks only interior pixels (rows and columns 1..n-2) |
| ZhangSuen.Pass | zhangsuenThinning.cpp:41-122 | a sub-iteration keeps the shape, never turns a pixel on, keeps a 0/1 image 0/1, and leaves the outer ring of pixels unchanged |
| ZhangSuen.PassClears | zhangsuenThinning.cpp:111-116 | an interior white pixel is cleared if and only if the connectivity number is 1, the neighbour sum is in [2, 6] and both step triples are 0; otherwise it keeps its value |
| ZhangSuen.SparsePixelSurvives | zhangsuenThinning.cpp:115 | a pixel with fewer than two white neighbours, such as an isolated pixel or a line end, is never deleted |
| ZhangSuen.ConnectivityBelowSum | zhangsuenThinning.cpp:77-94 | on a 0/1 window the connectivity number is at most the neighbour sum, and it is 0 when all eight neighbours are white |
| ZhangSuen.Round | zhangsuenThinning.cpp:20-21 | step 1 then step 2 never turns a pixel on and keeps a 0/1 image 0/1 |
| ZhangSuen.AllBlackFixed | zhangsuenThinning.cpp:15-29 | a round leaves an all-black image unchanged |
| ZhangSuen.RoundDecreases | zhangsuenThinning.cpp:19-29 | a round that changes the image strictly lowers its white count |
| ZhangSuen.Skeleton | zhangsuenThinning.cpp:19-29 | repeating rounds terminates in an image that a further round does not change; that image is the input with pixels only switched off, and it stays 0/1 |
| ZhangSuen.SkeletonOfFixedPoint | zhangsuenThinning.cpp:19-29 | an image that a round leaves unchanged is its own skeleton |
| ZhangSuen.SkeletonOfRound | zhangsuenThinning.cpp:19-29 | running one round first does not change the fixed point reached |
| ZhangSuen.SkeletonIdempotent | zhangsuenThinning.cpp:19-29 | the skeleton of a skeleton is itself |
| ZhangSuen.Thin | zhangsuenThinning.cpp:11-34 | the driver maps a 0/255 image to a 0/255 image of the same shape |
| ZhangSuen.ThinFixedPoint | zhangsuenThinning.cpp:11-34 | the driver's output, normalised, is a fixed point of a round; no black input pixel becomes white |
| ZhangSuen.ThinIdempotent | zhangsuenThinning.cpp:11-34 | thinning an already thinned image changes nothing |
| Thinning.TransitionBits | zhangsuenThinning.cpp:81 | on 0/1 operands, the int-promoted `a & ~(a & b & c)` is the Boolean `a AND NOT (a AND b AND c)` |
| Thinning.AndBits | zhangsuenThinning.cpp:102-107 | on 0/1 operands, the int-promoted `a & b & c` is the Boolean conjunction |
| Thinning.ClearBits | zhangsuenThinning.cpp:121 | on 0/1 `uchar` values, `p & ~m` is 0 where m is 1 and p elsewhere |
| Thinning.ConnectivityNum | zhangsuenThinning.cpp:77-81 | the loop over `set_S` computes the connectivity number of the window |
| Thinning.NeighborSum | zhangsuenThinning.cpp:93-94 | the loop over the window computes the neighbour sum |
| Thinning.NeighborChecked | zhangsuenThinning.cpp:99-109 | the switch on the step sets each of the two checks to 1 exactly when its step-specific triple of neighbours is all white, and to 0 otherwise |
| Thinning.IsDeletable | zhangsuenThinning.cpp:51-116 | the per-pixel body decides to mark (i, j) exactly when the specification marks it |
| Thinning.MarkRow | zhangsuenThinning.cpp:49-117 | the inner loop sets row i of the marker to the specification's marks for that row and leaves the other rows unchanged |
| Thinning.MarkDeletable | zhangsuenThinning.cpp:44-118 | the sweep returns a fresh marker of the image's size that is 1 exactly at the marked pixels and 0 elsewhere; the image is only read |
| Thinning.ClearMarked | zhangsuenThinning.cpp:121 | `image &= ~marker` clears exactly the pixels whose mark is 1 and keeps every other pixel |
| Thinning.ThinningIteration | zhangsuenThinning.cpp:41-122 | one sub-iteration in place leaves `Pass` of the image as it was on entry |
| Thinning.Normalise | zhangsuenThinning.cpp:13 | `image /= 255` in place leaves the normalised image |
| Thinning.Denormalise | zhangsuenThinning.cpp:33 | `image *= 255` in place leaves the denormalised image |
| Thinning.CountDifferences | zhangsuenThinning.cpp:24-29 | the count of non-zero entries of `absdiff(image, prev)` is zero exactly when the two images are equal |
| Thinning.CopyTo | zhangsuenThinning.cpp:27 | after `copyTo`, the snapshot holds the image |
| Thinning.ThinningRound | zhangsuenThinning.cpp:19-29 | one pass of the `do ... while` body leaves a round of the image in both `image` and `prev`, and reports exit exactly when the result equals the previous snapshot |
| Thinning.RoundStep | zhangsuenThinning.cpp:15-29 | after any round, the fixed point reached is unchanged and the white count has not grown. When the comparison was with the previous round's snapshot and the loop goes on, the count has strictly dropped. After the first comparison, against the all-zero snapshot, the loop can go on with no drop. An all-black image exits after its first round. |
| Thinning.RunRounds | zhangsuenThinning.cpp:15-29 | the loop with a zero-initialised `prev` terminates and leaves the skeleton of the normalised image; it runs at least one round, and exactly one on an all-black image |
| Thinning.Thinning | zhangsuenThinning.cpp:11-34 | the whole routine in place leaves `Thin` of the input 0/255 image; it runs at least one round, and exactly one on an all-black image |

## Left out

- The OpenCV `Mat` machinery is not modelled: headers, types, reference counting, `Mat::zeros`, `at<uchar>`, and the element types `CV_8UC1`. An image is a rectangular `array2<int>`.
- Pixel width is not modelled. Values are unbounded `int`. They only ever hold 0/1, or 0/255 at the boundary, so `uchar` wrap-around and saturation never arise.
- Thinning.Normalise and Thinning.Denormalise require a 0/255 image and a 0/1 image respectively. The source only asks for a binarised image in a comment (line 10). OpenCV's rounding of `/255` on grey values and its saturation of `*255` are not modelled.
- Thinning.ConnectivityNum hard-codes the default index set S = {0, 2, 4, 6}. The source says S is configurable, but it fixes S in code at lines 77-78.
- Thinning.ThinningIteration requires `step` to be 1 or 2. For any other step, the source's `switch` has no default, both checks stay 0, and the sweep then deletes by conditions (1) and (2) alone. That behaviour is not modelled.
- The driver's `do ... while` is a `while !done` loop whose first test always passes, which is the same thing. Its body is the method `ThinningRound`.
- The 2-D sweep and the bulk clear are split into methods: `MarkDeletable` and `MarkRow` for the sweep, and `ClearMarked`, `CountDifferences` and `CopyTo` for the matrix operations. Each keeps the loop order of the C++ code, or of the element-wise operation it stands for.
- The source has no multi-channel images, parallelism or I/O, and none are modelled.
- Grids.Normalised, Grids.Denormalised, ZhangSuen.Thin: state their results on the 0/255 and 0/1 domains only, matching the requirements above.
- ZhangSuen.Pass: reads pixels as Booleans (`!= 0`) on any rectangular grid. This agrees with the source's bit operations only on 0/1 images. For example, line 121 turns a marked 255 into 254. The in-place `Thinning.ThinningIteration` requires a 0/1 image, so the two never diverge in the model.
