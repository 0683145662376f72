/** The two routines of zhangsuenThinning.cpp on a mutable image held in a
    2-D array: `ThinningIteration` (one sub-iteration, marker grid then bulk
    clear) and `Thinning` (normalise, rounds until nothing changes,
    denormalise), with the matrix operations they use written as loops. */
module Thinning {
  import opened Grids
  import opened ZhangSuen

  /** The image as a sequence of rows. */
  ghost function Contents(a: array2<int>): (g: Grid)
    reads a
    ensures |g| == a.Length0 && Rect(g)
    ensures forall i :: 0 <= i < |g| ==> |g[i]| == a.Length1
    ensures forall i, j :: 0 <= i < a.Length0 && 0 <= j < a.Length1 ==> g[i][j] == a[i, j]
  {
    seq(a.Length0, i requires 0 <= i < a.Length0 reads a =>
      seq(a.Length1, j requires 0 <= j < a.Length1 reads a => a[i, j]))
  }

  /** The array agrees with `g` pixel by pixel. */
  ghost predicate Holds(a: array2<int>, g: Grid)
    reads a
  {
    |g| == a.Length0 && (forall i :: 0 <= i < |g| ==> |g[i]| == a.Length1) &&
    forall i, j :: 0 <= i < a.Length0 && 0 <= j < a.Length1 ==> a[i, j] == g[i][j]
  }

  /** An array that agrees with `g` pixel by pixel holds `g`. */
  lemma ContentsAre(a: array2<int>, g: Grid)
    requires Holds(a, g)
    ensures Contents(a) == g
  {
    var c := Contents(a);
    forall i | 0 <= i < |g| ensures c[i] == g[i] {
      assert |c[i]| == |g[i]|;
    }
  }

  /** On 0/1 values, the C++ `a & ~(a & b & c)` (operands promoted to int)
      is the Boolean `a AND NOT (a AND b AND c)`. */
  lemma TransitionBits(a: int, b: int, c: int)
    requires a == 0 || a == 1
    requires b == 0 || b == 1
    requires c == 0 || c == 1
    ensures ((a as bv32) & !((a as bv32) & (b as bv32) & (c as bv32))) as int
            == if a != 0 && !(a != 0 && b != 0 && c != 0) then 1 else 0
  {
  }

  /** On 0/1 values, the C++ `a & b & c` is the Boolean conjunction. */
  lemma AndBits(a: int, b: int, c: int)
    requires a == 0 || a == 1
    requires b == 0 || b == 1
    requires c == 0 || c == 1
    ensures ((a as bv32) & (b as bv32) & (c as bv32)) as int == if a != 0 && b != 0 && c != 0 then 1 else 0
  {
  }

  /** On 0/1 uchar values, `p & ~m` is "0 where m is 1, else p". */
  lemma ClearBits(p: int, m: int)
    requires p == 0 || p == 1
    requires m == 0 || m == 1
    ensures ((p as bv8) & !(m as bv8)) as int == if m == 1 then 0 else p
  {
  }

  /** Condition (1) as the loop at zhangsuenThinning.cpp:80-81 computes it:
      `N[k] & ~(N[k] & N[k+1] & N[k+2])` summed over k in S, indices mod 8. */
  method ConnectivityNum(npixels: seq<int>) returns (connectivityNum: int)
    requires |npixels| == 8 && BinaryRow(npixels)
    ensures connectivityNum == ConnectivityNumber(npixels)
  {
    var setS: seq<nat> := [0, 2, 4, 6];
    connectivityNum := 0;
    var sIdx := 0;
    while sIdx < |setS|
      invariant 0 <= sIdx <= |setS|
      invariant connectivityNum == ConnectivityOver(npixels, setS[..sIdx])
    {
      var k := setS[sIdx];
      var a, b, c := npixels[k], npixels[(k + 1) % 8], npixels[(k + 2) % 8];
      TransitionBits(a, b, c);
      connectivityNum := connectivityNum + ((a as bv32) & !((a as bv32) & (b as bv32) & (c as bv32))) as int;
      assert setS[..sIdx + 1][..sIdx] == setS[..sIdx];
      sIdx := sIdx + 1;
    }
    assert setS[..|setS|] == S;
    ConnectivityOverS(npixels);
  }

  /** Condition (2) as the loop at zhangsuenThinning.cpp:93-94 computes it. */
  method NeighborSum(npixels: seq<int>) returns (neighborSum: int)
    requires |npixels| == 8
    ensures neighborSum == NeighbourSum(npixels)
  {
    neighborSum := 0;
    var nIdx := 0;
    while nIdx < 8
      invariant 0 <= nIdx <= 8
      invariant neighborSum == Sum(npixels[..nIdx])
    {
      assert npixels[..nIdx + 1][..nIdx] == npixels[..nIdx];
      neighborSum := neighborSum + npixels[nIdx];
      nIdx := nIdx + 1;
    }
    assert npixels[..8] == npixels;
    SumIsNeighbourSum(npixels);
  }

  /** Condition (3) as the `switch` at zhangsuenThinning.cpp:99-109 computes
      it: the two AND-triples of the step, each 0 or 1. */
  method NeighborChecked(npixels: seq<int>, step: int) returns (checkedA: int, checkedB: int)
    requires |npixels| == 8 && BinaryRow(npixels)
    requires step == 1 || step == 2
    ensures checkedA == (if CheckA(npixels, step) then 1 else 0)
    ensures checkedB == (if CheckB(npixels, step) then 1 else 0)
  {
    var p0, p2, p4, p6 := npixels[0], npixels[2], npixels[4], npixels[6];
    assert (p0 == 0 || p0 == 1) && (p2 == 0 || p2 == 1) && (p4 == 0 || p4 == 1) && (p6 == 0 || p6 == 1);
    if step == 1 {
      AndBits(p0, p4, p6);
      AndBits(p2, p4, p6);
      checkedA := ((p0 as bv32) & (p4 as bv32) & (p6 as bv32)) as int;
      checkedB := ((p2 as bv32) & (p4 as bv32) & (p6 as bv32)) as int;
    } else {
      AndBits(p0, p2, p6);
      AndBits(p0, p2, p4);
      checkedA := ((p0 as bv32) & (p2 as bv32) & (p6 as bv32)) as int;
      checkedB := ((p0 as bv32) & (p2 as bv32) & (p4 as bv32)) as int;
    }
  }

  /** The per-pixel body of the sweep: read the window clockwise from east,
      evaluate the three conditions, and decide whether (i, j) is marked. */
  method IsDeletable(image: array2<int>, ghost g: Grid, i: int, j: int, step: int) returns (del: bool)
    requires Holds(image, g) && Rect(g) && IsBinary(g)
    requires 1 <= i < image.Length0 - 1 && 1 <= j < image.Length1 - 1
    requires step == 1 || step == 2
    ensures del <==> Marked(g, i, j, step)
  {
    var npixels := [image[i, j + 1], image[i + 1, j + 1], image[i + 1, j], image[i + 1, j - 1],
                    image[i, j - 1], image[i - 1, j - 1], image[i - 1, j], image[i - 1, j + 1]];
    assert npixels == Window(g, i, j);
    var connectivityNum := ConnectivityNum(npixels);
    var neighborSum := NeighborSum(npixels);
    var checkedA, checkedB := NeighborChecked(npixels, step);
    del := connectivityNum == 1 && 2 <= neighborSum <= 6 && checkedA == 0 && checkedB == 0;
  }

  /** One sub-iteration in place: marks go to a separate zero-initialised
      grid, and only after the whole sweep are the marked pixels cleared,
      so the result is `Pass` of the image as it was on entry. */
  method ThinningIteration(image: array2<int>, step: int)
    requires IsBinary(Contents(image))
    requires step == 1 || step == 2
    modifies image
    ensures Contents(image) == Pass(old(Contents(image)), step)
  {
    ghost var g := Contents(image);
    var marker := MarkDeletable(image, step);
    assert IsBinary(Contents(marker));
    ClearMarked(image, marker);
    ContentsAre(image, Pass(g, step));
  }

  /** The sweep over the interior, rows 1..rows-2 and columns 1..cols-2:
      a fresh zero-initialised marker grid of the image's size with a 1
      exactly at the pixels the deletion test selects. The image is only read. */
  method MarkDeletable(image: array2<int>, step: int) returns (marker: array2<int>)
    requires IsBinary(Contents(image))
    requires step == 1 || step == 2
    ensures fresh(marker)
    ensures marker.Length0 == image.Length0 && marker.Length1 == image.Length1
    ensures forall a, b :: 0 <= a < image.Length0 && 0 <= b < image.Length1 ==>
              marker[a, b] == if Mask(Contents(image), step)[a][b] then 1 else 0
  {
    ghost var g := Contents(image);
    ghost var mask := Mask(g, step);
    marker := new int[image.Length0, image.Length1]((_, _) => 0);
    var i := 1;
    while i < image.Length0 - 1
      modifies marker
      invariant 1 <= i && (i <= image.Length0 - 1 || i == 1)
      invariant forall a, b :: 0 <= a < image.Length0 && 0 <= b < image.Length1 ==>
                  marker[a, b] == if a < i && mask[a][b] then 1 else 0
    {
      MarkRow(image, marker, g, i, step);
      i := i + 1;
    }
  }

  /** The inner loop of the sweep, over columns 1..cols-2 of interior row i:
      sets the row's marks and leaves every other row of the marker alone. */
  method MarkRow(image: array2<int>, marker: array2<int>, ghost g: Grid, i: int, step: int)
    requires image != marker
    requires Holds(image, g) && Rect(g) && IsBinary(g)
    requires marker.Length0 == image.Length0 && marker.Length1 == image.Length1
    requires 1 <= i < image.Length0 - 1
    requires step == 1 || step == 2
    requires forall b :: 0 <= b < image.Length1 ==> marker[i, b] == 0
    modifies marker
    ensures forall b {:trigger marker[i, b]} :: 0 <= b < image.Length1 ==> marker[i, b] == if Mask(g, step)[i][b] then 1 else 0
    ensures forall a, b :: 0 <= a < image.Length0 && a != i && 0 <= b < image.Length1 ==>
              marker[a, b] == old(marker[a, b])
  {
    ghost var row := Mask(g, step)[i];
    var j := 1;
    while j < image.Length1 - 1
      invariant 1 <= j && (j <= image.Length1 - 1 || j == 1)
      invariant forall b {:trigger marker[i, b]} :: 0 <= b < image.Length1 ==> marker[i, b] == if b < j && row[b] then 1 else 0
      invariant forall a, b :: 0 <= a < image.Length0 && a != i && 0 <= b < image.Length1 ==>
                  marker[a, b] == old(marker[a, b])
    {
      var del := IsDeletable(image, g, i, j, step);
      if del {
        marker[i, j] := 1;
      }
      j := j + 1;
    }
  }

  /** `image &= ~marker` on a 0/1 image and a 0/1 marker of the same size:
      pixels where the marker is 1 become 0, all others keep their value. */
  method ClearMarked(image: array2<int>, marker: array2<int>)
    requires image != marker
    requires image.Length0 == marker.Length0 && image.Length1 == marker.Length1
    requires IsBinary(Contents(image)) && IsBinary(Contents(marker))
    modifies image
    ensures forall a, b :: 0 <= a < image.Length0 && 0 <= b < image.Length1 ==>
              image[a, b] == if marker[a, b] == 1 then 0 else old(image[a, b])
  {
    ghost var g := Contents(image);
    var i := 0;
    while i < image.Length0
      invariant 0 <= i <= image.Length0
      invariant forall a, b :: 0 <= a < image.Length0 && 0 <= b < image.Length1 ==>
                  image[a, b] == if a < i && marker[a, b] == 1 then 0 else g[a][b]
    {
      var j := 0;
      while j < image.Length1
        invariant 0 <= j <= image.Length1
        invariant forall a, b :: 0 <= a < image.Length0 && 0 <= b < image.Length1 ==>
                    image[a, b] == if (a < i || (a == i && b < j)) && marker[a, b] == 1 then 0 else g[a][b]
      {
        var p, m := image[i, j], marker[i, j];
        assert p == g[i][j] && BinaryRow(g[i]);
        assert m == Contents(marker)[i][j] && BinaryRow(Contents(marker)[i]);
        ClearBits(p, m);
        image[i, j] := ((p as bv8) & !(m as bv8)) as int;
        j := j + 1;
      }
      i := i + 1;
    }
  }

  /** `image /= 255` on a raw image. */
  method Normalise(image: array2<int>)
    requires IsRaw(Contents(image))
    modifies image
    ensures Contents(image) == Normalised(old(Contents(image)))
  {
    ghost var g := Contents(image);
    var i := 0;
    while i < image.Length0
      invariant 0 <= i <= image.Length0
      invariant forall a, b :: 0 <= a < image.Length0 && 0 <= b < image.Length1 ==>
                  image[a, b] == if a < i then g[a][b] / 255 else g[a][b]
    {
      var j := 0;
      while j < image.Length1
        invariant 0 <= j <= image.Length1
        invariant forall a, b :: 0 <= a < image.Length0 && 0 <= b < image.Length1 ==>
                    image[a, b] == if a < i || (a == i && b < j) then g[a][b] / 255 else g[a][b]
      {
        image[i, j] := image[i, j] / 255;
        j := j + 1;
      }
      i := i + 1;
    }
    ContentsAre(image, Normalised(g));
  }

  /** `image *= 255` on a normalised image. */
  method Denormalise(image: array2<int>)
    requires IsBinary(Contents(image))
    modifies image
    ensures Contents(image) == Denormalised(old(Contents(image)))
  {
    ghost var g := Contents(image);
    var i := 0;
    while i < image.Length0
      invariant 0 <= i <= image.Length0
      invariant forall a, b :: 0 <= a < image.Length0 && 0 <= b < image.Length1 ==>
                  image[a, b] == if a < i then g[a][b] * 255 else g[a][b]
    {
      var j := 0;
      while j < image.Length1
        invariant 0 <= j <= image.Length1
        invariant forall a, b :: 0 <= a < image.Length0 && 0 <= b < image.Length1 ==>
                    image[a, b] == if a < i || (a == i && b < j) then g[a][b] * 255 else g[a][b]
      {
        image[i, j] := image[i, j] * 255;
        j := j + 1;
      }
      i := i + 1;
    }
    ContentsAre(image, Denormalised(g));
  }

  /** `countNonZero(absdiff(image, prev))`: the number of pixels where the
      two images differ, zero exactly when they are equal. */
  method CountDifferences(image: array2<int>, prev: array2<int>) returns (count: nat)
    requires image.Length0 == prev.Length0 && image.Length1 == prev.Length1
    ensures count == 0 <==> Contents(image) == Contents(prev)
  {
    count := 0;
    var i := 0;
    while i < image.Length0
      invariant 0 <= i <= image.Length0
      invariant count == 0 <==> forall a, b :: 0 <= a < i && 0 <= b < image.Length1 ==> image[a, b] == prev[a, b]
    {
      var j := 0;
      while j < image.Length1
        invariant 0 <= j <= image.Length1
        invariant count == 0 <==> forall a, b :: (0 <= a < image.Length0 && 0 <= b < image.Length1 && (a < i || (a == i && b < j)))
                                    ==> image[a, b] == prev[a, b]
      {
        var diff := if image[i, j] < prev[i, j] then prev[i, j] - image[i, j] else image[i, j] - prev[i, j];
        if diff != 0 {
          count := count + 1;
        }
        j := j + 1;
      }
      i := i + 1;
    }
    if count == 0 {
      ContentsAre(image, Contents(prev));
    }
  }

  /** `image.copyTo(prev)` between images of one size. */
  method CopyTo(src: array2<int>, dst: array2<int>)
    requires src != dst
    requires src.Length0 == dst.Length0 && src.Length1 == dst.Length1
    modifies dst
    ensures Contents(dst) == Contents(src)
  {
    var i := 0;
    while i < src.Length0
      invariant 0 <= i <= src.Length0
      invariant forall a, b :: 0 <= a < i && 0 <= b < src.Length1 ==> dst[a, b] == src[a, b]
    {
      var j := 0;
      while j < src.Length1
        invariant 0 <= j <= src.Length1
        invariant forall a, b :: (0 <= a < src.Length0 && 0 <= b < src.Length1 && (a < i || (a == i && b < j)))
                    ==> dst[a, b] == src[a, b]
      {
        dst[i, j] := src[i, j];
        j := j + 1;
      }
      i := i + 1;
    }
    ContentsAre(dst, Contents(src));
  }

  /** The body of the driver's `do ... while`: step 1, step 2, compare with
      the snapshot, overwrite the snapshot. `done` is the negation of the
      loop condition: no pixel differs from the snapshot. */
  method ThinningRound(image: array2<int>, prev: array2<int>) returns (done: bool)
    requires image != prev
    requires image.Length0 == prev.Length0 && image.Length1 == prev.Length1
    requires IsBinary(Contents(image))
    modifies image, prev
    ensures Contents(image) == Round(old(Contents(image)))
    ensures Contents(prev) == Contents(image)
    ensures done <==> Contents(image) == old(Contents(prev))
  {
    ThinningIteration(image, 1);
    ThinningIteration(image, 2);
    var diffCount := CountDifferences(image, prev);
    CopyTo(image, prev);
    done := diffCount == 0;
  }

  /** What one round of the driver loop establishes about the normalised
      image `before` and the snapshot `prev` it was compared against, with
      `done` the outcome of the comparison. */
  lemma RoundStep(start: Grid, before: Grid, prev: Grid, done: bool)
    requires Rect(start) && Rect(before) && IsBinary(before) && SameShape(prev, before)
    requires Skeleton(before) == Skeleton(start)
    requires prev == before || AllBlack(prev)
    requires done <==> Round(before) == prev
    ensures Skeleton(Round(before)) == Skeleton(start)
    ensures done ==> Round(Round(before)) == Round(before)
    ensures WhiteCount(Round(before)) <= WhiteCount(before)
    ensures !done ==> WhiteCount(Round(before)) < WhiteCount(before) + (if prev == before then 0 else 1)
    ensures AllBlack(before) ==> Round(before) == before && done
  {
    SkeletonOfRound(before);
    CountShrinks(Round(before), before);
    if done && AllBlack(prev) {
      AllBlackFixed(Round(before));
    }
    if AllBlack(before) {
      AllBlackFixed(before);
      AllBlackEqual(before, prev);
    }
  }

  /** The driver: `image /= 255`, the fixed-point loop, `image *= 255`.
      On a 0/255 image it leaves `Thin` of the input. */
  method Thinning(image: array2<int>) returns (ghost rounds: nat)
    requires IsRaw(Contents(image))
    modifies image
    ensures Contents(image) == Thin(old(Contents(image)))
    ensures rounds >= 1
    ensures AllBlack(old(Contents(image))) ==> rounds == 1
  {
    ghost var g0 := Contents(image);
    Normalise(image);
    assert AllBlack(g0) ==> AllBlack(Contents(image));
    rounds := RunRounds(image);
    Denormalise(image);
  }

  /** The `do ... while` of the driver on the normalised image, with its
      snapshot `prev` starting all black: rounds run until one leaves the
      image equal to the snapshot taken after the round before. The result
      is a fixed point of a round, reached from the input by rounds. The
      ghost `rounds` counts the rounds run; an all-black image stops after
      one, because the zero-initialised snapshot already matches. */
  method RunRounds(image: array2<int>) returns (ghost rounds: nat)
    requires IsBinary(Contents(image))
    modifies image
    ensures Contents(image) == Skeleton(old(Contents(image)))
    ensures rounds >= 1
    ensures AllBlack(old(Contents(image))) ==> rounds == 1
  {
    ghost var start := Contents(image);
    var prev := new int[image.Length0, image.Length1]((_, _) => 0);
    assert AllBlack(Contents(prev));
    var done := false;
    rounds := 0;
    ghost var cur := start;
    while !done
      modifies image, prev
      invariant Contents(image) == cur && IsBinary(cur)
      invariant Skeleton(cur) == Skeleton(start)
      invariant rounds == 0 ==> !done && cur == start && AllBlack(Contents(prev))
      invariant rounds > 0 ==> Contents(prev) == cur
      invariant done ==> Round(cur) == cur
      invariant AllBlack(start) ==> cur == start && rounds <= 1 && (done <==> rounds == 1)
      decreases (if done then 0 else 1) + WhiteCount(cur) + (if rounds == 0 then 1 else 0)
    {
      ghost var prevBefore := Contents(prev);
      done := ThinningRound(image, prev);
      rounds := rounds + 1;
      RoundStep(start, cur, prevBefore, done);
      cur := Round(cur);
    }
    SkeletonOfFixedPoint(cur);
  }
}
