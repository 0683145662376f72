/** The Zhang-Suen deletion rule on normalised (0/1) images, one sub-iteration
    as a pure function of the image at the start of the pass, a full round,
    and the fixed point the driver converges to.

    Pixel values are read as Booleans by `!= 0`; on 0/1 images this is what
    the C++ `&` and `~` at zhangsuenThinning.cpp lines 81, 102-107 and 121
    compute (see the bit-level lemmas in module Thinning). */
module ZhangSuen {
  import opened Grids

  /** Pixel (i, j) has all eight neighbours: rows 1..rows-2, cols 1..cols-2.
      An image with fewer than three rows or columns has no interior. */
  predicate Interior(g: Grid, i: int, j: int)
    ensures Interior(g, i, j) ==> |g| >= 3 && Cols(g) >= 3
  {
    1 <= i < |g| - 1 && 1 <= j < Cols(g) - 1
  }

  /** The eight neighbours of (i, j), clockwise from east:
      N0 = east, N1 = south-east, N2 = south, N3 = south-west,
      N4 = west, N5 = north-west, N6 = north, N7 = north-east. */
  function Window(g: Grid, i: int, j: int): (n: seq<int>)
    requires Rect(g) && Interior(g, i, j)
    ensures |n| == 8
    ensures IsBinary(g) ==> BinaryRow(n)
  {
    [g[i][j + 1], g[i + 1][j + 1], g[i + 1][j], g[i + 1][j - 1],
     g[i][j - 1], g[i - 1][j - 1], g[i - 1][j], g[i - 1][j + 1]]
  }

  /** The index set S of the connectivity number. */
  const S: seq<nat> := [0, 2, 4, 6]

  /** Contribution of N[k]: `N[k] AND NOT (N[k] AND N[k+1] AND N[k+2])`,
      indices modulo 8. */
  function Transition(n: seq<int>, k: nat): (t: nat)
    requires |n| == 8 && k < 8
    ensures t <= 1
    ensures t == 1 <==> n[k] != 0 && (n[(k + 1) % 8] == 0 || n[(k + 2) % 8] == 0)
  {
    if n[k] != 0 && !(n[k] != 0 && n[(k + 1) % 8] != 0 && n[(k + 2) % 8] != 0) then 1 else 0
  }

  /** Condition (1): the connectivity number, the contributions of the
      index set S = {0, 2, 4, 6} written out as in the comment at
      zhangsuenThinning.cpp:84-87. */
  function ConnectivityNumber(n: seq<int>): (c: nat)
    requires |n| == 8
    ensures c <= 4
  {
    Transition(n, 0) + Transition(n, 2) + Transition(n, 4) + Transition(n, 6)
  }

  /** Sum of the contributions of the indices in `ks`, as the loop over the
      index set accumulates it. */
  function ConnectivityOver(n: seq<int>, ks: seq<nat>): (c: nat)
    requires |n| == 8 && forall m :: 0 <= m < |ks| ==> ks[m] < 8
    ensures c <= |ks|
  {
    if ks == [] then 0
    else ConnectivityOver(n, ks[..|ks| - 1]) + Transition(n, ks[|ks| - 1])
  }

  /** The loop over S computes the connectivity number. */
  lemma ConnectivityOverS(n: seq<int>)
    requires |n| == 8
    ensures ConnectivityOver(n, S) == ConnectivityNumber(n)
  {
    assert S[..3] == [0, 2, 4] && [0, 2, 4][..2] == [0, 2] && [0, 2][..1] == [0] && [0][..0] == [];
    assert ConnectivityOver(n, [0]) == Transition(n, 0);
    assert ConnectivityOver(n, [0, 2]) == Transition(n, 0) + Transition(n, 2);
    assert ConnectivityOver(n, [0, 2, 4]) == Transition(n, 0) + Transition(n, 2) + Transition(n, 4);
  }

  /** Condition (2): the neighbour sum, in closed form. The sweep computes it
      with an accumulating loop, whose running value is `Sum` below;
      `SumIsNeighbourSum` shows the two agree. (Likewise `ConnectivityNumber`
      is the written-out form and `ConnectivityOver` the loop's.) */
  function NeighbourSum(n: seq<int>): (r: int)
    requires |n| == 8
    ensures BinaryRow(n) ==> 0 <= r <= 8
  {
    n[0] + n[1] + n[2] + n[3] + n[4] + n[5] + n[6] + n[7]
  }

  /** Sum of a sequence, as the loop over the window accumulates it. */
  function Sum(s: seq<int>): (r: int)
    ensures BinaryRow(s) ==> 0 <= r <= |s|
  {
    if s == [] then 0 else Sum(s[..|s| - 1]) + s[|s| - 1]
  }

  /** The loop over the window computes the neighbour sum. */
  lemma {:induction false} SumIsNeighbourSum(n: seq<int>)
    requires |n| == 8
    ensures Sum(n) == NeighbourSum(n)
  {
    forall k | 0 <= k < 8 ensures Sum(n[..k + 1]) == Sum(n[..k]) + n[k] {
      assert n[..k + 1][..k] == n[..k];
    }
    assert n[..0] == [] && n[..8] == n;
  }

  /** Condition (3), first triple: `N0&N4&N6` for step 1, `N0&N2&N6` for step 2.
      Both steps test east and north. */
  predicate CheckA(n: seq<int>, step: int)
    requires |n| == 8 && (step == 1 || step == 2)
    ensures CheckA(n, step) ==> n[0] != 0 && n[6] != 0
  {
    if step == 1 then n[0] != 0 && n[4] != 0 && n[6] != 0
    else n[0] != 0 && n[2] != 0 && n[6] != 0
  }

  /** Condition (3), second triple: `N2&N4&N6` for step 1, `N0&N2&N4` for step 2.
      Both steps test south and west. */
  predicate CheckB(n: seq<int>, step: int)
    requires |n| == 8 && (step == 1 || step == 2)
    ensures CheckB(n, step) ==> n[2] != 0 && n[4] != 0
  {
    if step == 1 then n[2] != 0 && n[4] != 0 && n[6] != 0
    else n[0] != 0 && n[2] != 0 && n[4] != 0
  }

  /** The deletion test of one pixel, given its window. A pixel whose four
      edge neighbours (east, south, west, north) are all white is never
      deleted, on either step. */
  predicate DeletableWindow(n: seq<int>, step: int)
    requires |n| == 8 && (step == 1 || step == 2)
    ensures DeletableWindow(n, step) ==> !(n[0] != 0 && n[2] != 0 && n[4] != 0 && n[6] != 0)
  {
    ConnectivityNumber(n) == 1 && 2 <= NeighbourSum(n) <= 6 && !CheckA(n, step) && !CheckB(n, step)
  }

  /** Pixel (i, j) is set in the marker grid of a pass. The pixel's own value
      is not consulted: a black pixel can be marked, and clearing it is a no-op. */
  predicate Marked(g: Grid, i: int, j: int, step: int)
    requires Rect(g) && (step == 1 || step == 2)
    ensures Marked(g, i, j, step) ==> Interior(g, i, j)
  {
    Interior(g, i, j) && DeletableWindow(Window(g, i, j), step)
  }

  /** The mark of (i, j) does not depend on the pixel's own value: whatever
      it holds, black or white, the mark is the same. */
  lemma MarkIgnoresCentre(g: Grid, i: int, j: int, step: int, v: int)
    requires Rect(g) && (step == 1 || step == 2) && 0 <= i < |g| && 0 <= j < |g[i]|
    ensures Rect(g[i := g[i][j := v]])
    ensures Marked(g[i := g[i][j := v]], i, j, step) == Marked(g, i, j, step)
  {
  }

  /** The marker grid of a pass, computed from `g` alone: only interior
      pixels can be marked. */
  function Mask(g: Grid, step: int): (m: seq<seq<bool>>)
    requires Rect(g) && (step == 1 || step == 2)
    ensures |m| == |g| && forall i :: 0 <= i < |g| ==> |m[i]| == |g[i]|
    ensures forall i, j :: 0 <= i < |g| && 0 <= j < |g[i]| && m[i][j] ==> Interior(g, i, j)
  {
    seq(|g|, i requires 0 <= i < |g| =>
      seq(|g[i]|, j requires 0 <= j < |g[i]| => Marked(g, i, j, step)))
  }

  /** One sub-iteration: every marked pixel of `g` is cleared, every other
      pixel keeps its value. Pixels are read as Booleans (`!= 0`), which is
      what the source's bit operations compute on 0/1 images only; the
      in-place model (`Thinning.ThinningIteration`) applies it to 0/1 images. */
  function Pass(g: Grid, step: int): (r: Grid)
    requires Rect(g) && (step == 1 || step == 2)
    ensures Rect(r) && SameShape(r, g)
    ensures Shrinks(r, g)
    ensures IsBinary(g) ==> IsBinary(r)
    ensures forall i, j :: 0 <= i < |g| && 0 <= j < |g[i]| && !Interior(g, i, j) ==> r[i][j] == g[i][j]
  {
    var m := Mask(g, step);
    seq(|g|, i requires 0 <= i < |g| =>
      seq(|g[i]|, j requires 0 <= j < |g[i]| => if m[i][j] then 0 else g[i][j]))
  }

  /** An interior white pixel is cleared by a pass exactly when its
      connectivity number is 1, its neighbour sum lies in [2, 6] and both
      step triples are 0. */
  lemma PassClears(g: Grid, i: int, j: int, step: int)
    requires Rect(g) && (step == 1 || step == 2) && Interior(g, i, j) && g[i][j] == 1
    ensures Pass(g, step)[i][j] == 0 <==>
      var n := Window(g, i, j);
      ConnectivityNumber(n) == 1 && 2 <= NeighbourSum(n) <= 6 && !CheckA(n, step) && !CheckB(n, step)
    ensures Pass(g, step)[i][j] != 0 ==> Pass(g, step)[i][j] == g[i][j]
  {
  }

  /** A white pixel with fewer than two white neighbours (an isolated pixel,
      or the end of a line) survives every pass. */
  lemma SparsePixelSurvives(g: Grid, i: int, j: int, step: int)
    requires Rect(g) && IsBinary(g) && (step == 1 || step == 2) && Interior(g, i, j)
    requires NeighbourSum(Window(g, i, j)) < 2
    ensures Pass(g, step)[i][j] == g[i][j]
  {
  }

  /** In a 0/1 window the connectivity number never exceeds the number of
      white neighbours (each contribution needs a white even neighbour), and a
      pixel whose eight neighbours are all white has connectivity number 0. */
  lemma ConnectivityBelowSum(n: seq<int>)
    requires |n| == 8 && BinaryRow(n)
    ensures ConnectivityNumber(n) <= NeighbourSum(n)
    ensures NeighbourSum(n) == 8 ==> ConnectivityNumber(n) == 0
  {
  }

  /** One round of the driver: step 1, then step 2. */
  function Round(g: Grid): (r: Grid)
    requires Rect(g)
    ensures Rect(r) && Shrinks(r, g)
    ensures IsBinary(g) ==> IsBinary(r)
  {
    Pass(Pass(g, 1), 2)
  }

  /** An all-black image is left alone by a round. */
  lemma AllBlackFixed(g: Grid)
    requires Rect(g) && AllBlack(g)
    ensures Round(g) == g
  {
    var r := Round(g);
    assert AllBlack(r);
    AllBlackEqual(r, g);
  }

  /** A round that changes something lowers the white count. */
  lemma RoundDecreases(g: Grid)
    requires Rect(g) && Round(g) != g
    ensures WhiteCount(Round(g)) < WhiteCount(g)
  {
    CountShrinks(Round(g), g);
  }

  /** Rounds repeated until one changes nothing. */
  function Skeleton(g: Grid): (r: Grid)
    requires Rect(g)
    ensures Rect(r) && Shrinks(r, g)
    ensures Round(r) == r
    ensures IsBinary(g) ==> IsBinary(r)
    decreases WhiteCount(g)
  {
    var n := Round(g);
    if n == g then g
    else
      RoundDecreases(g);
      Skeleton(n)
  }

  lemma SkeletonOfFixedPoint(g: Grid)
    requires Rect(g) && Round(g) == g
    ensures Skeleton(g) == g
  {
  }

  /** Taking one more round first does not change where the rounds end. */
  lemma SkeletonOfRound(g: Grid)
    requires Rect(g)
    ensures Skeleton(Round(g)) == Skeleton(g)
  {
    if Round(g) == g {
    } else {
    }
  }

  lemma SkeletonIdempotent(g: Grid)
    requires Rect(g)
    ensures Skeleton(Skeleton(g)) == Skeleton(g)
  {
    SkeletonOfFixedPoint(Skeleton(g));
  }

  /** The whole of `thinning` on a raw 0/255 image: normalise, run rounds to
      the fixed point, denormalise. */
  function Thin(g: Grid): (r: Grid)
    requires Rect(g) && IsRaw(g)
    ensures Rect(r) && SameShape(r, g) && IsRaw(r)
  {
    Denormalised(Skeleton(Normalised(g)))
  }

  /** The normalised output of `Thin` is a fixed point of a round, and no
      black pixel of the input turns white. */
  lemma ThinFixedPoint(g: Grid)
    requires Rect(g) && IsRaw(g)
    ensures Round(Normalised(Thin(g))) == Normalised(Thin(g))
    ensures forall i, j :: 0 <= i < |g| && 0 <= j < |g[i]| && g[i][j] == 0 ==> Thin(g)[i][j] == 0
  {
    NormaliseDenormalise(Skeleton(Normalised(g)));
  }

  /** Thinning a thinned image changes nothing. */
  lemma ThinIdempotent(g: Grid)
    requires Rect(g) && IsRaw(g)
    ensures Thin(Thin(g)) == Thin(g)
  {
    var s := Skeleton(Normalised(g));
    NormaliseDenormalise(s);
    SkeletonOfFixedPoint(s);
  }
}
