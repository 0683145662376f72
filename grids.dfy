/** Single-channel raster images as sequences of rows, their two pixel
    encodings (raw 0/255 and normalised 0/1), and the white-pixel count that
    the thinning loop drives down. */
module Grids {

  type Grid = seq<seq<int>>

  /** Width of a grid, read off its first row. */
  function Cols(g: Grid): nat
  {
    if |g| == 0 then 0 else |g[0]|
  }

  /** Every row has the same width. */
  predicate Rect(g: Grid)
  {
    forall i :: 0 <= i < |g| ==> |g[i]| == Cols(g)
  }

  predicate SameShape(a: Grid, b: Grid)
  {
    |a| == |b| && forall i :: 0 <= i < |a| ==> |a[i]| == |b[i]|
  }

  /** Every value is 0 (black) or 1 (white): the normalised encoding. */
  predicate BinaryRow(s: seq<int>)
  {
    forall k :: 0 <= k < |s| ==> s[k] == 0 || s[k] == 1
  }

  predicate IsBinary(g: Grid)
  {
    forall i :: 0 <= i < |g| ==> BinaryRow(g[i])
  }

  /** Every pixel is 0 (black) or 255 (white): the encoding at the boundary. */
  predicate IsRaw(g: Grid)
  {
    forall i, j :: 0 <= i < |g| && 0 <= j < |g[i]| ==> g[i][j] == 0 || g[i][j] == 255
  }

  predicate AllBlack(g: Grid)
  {
    forall i, j :: 0 <= i < |g| && 0 <= j < |g[i]| ==> g[i][j] == 0
  }

  /** `a` is `g` with some pixels switched off and none switched on. */
  predicate Shrinks(a: Grid, g: Grid)
  {
    SameShape(a, g) &&
    forall i, j :: 0 <= i < |a| && 0 <= j < |a[i]| ==> a[i][j] == g[i][j] || a[i][j] == 0
  }

  /** `image /= 255` on a raw image. */
  function Normalised(g: Grid): (r: Grid)
    requires IsRaw(g)
    ensures SameShape(r, g) && IsBinary(r)
    ensures forall i, j :: 0 <= i < |g| && 0 <= j < |g[i]| ==> (r[i][j] == 1 <==> g[i][j] == 255)
  {
    seq(|g|, i requires 0 <= i < |g| => seq(|g[i]|, j requires 0 <= j < |g[i]| => g[i][j] / 255))
  }

  /** `image *= 255` on a normalised image. */
  function Denormalised(g: Grid): (r: Grid)
    requires IsBinary(g)
    ensures SameShape(r, g) && IsRaw(r)
    ensures forall i, j :: 0 <= i < |g| && 0 <= j < |g[i]| ==> (r[i][j] == 255 <==> g[i][j] == 1)
  {
    seq(|g|, i requires 0 <= i < |g| => seq(|g[i]|, j requires 0 <= j < |g[i]| => g[i][j] * 255))
  }

  lemma DenormaliseNormalise(g: Grid)
    requires IsRaw(g)
    ensures Denormalised(Normalised(g)) == g
  {
    var r := Denormalised(Normalised(g));
    forall i | 0 <= i < |g| ensures r[i] == g[i] {
      assert |r[i]| == |g[i]|;
    }
  }

  lemma NormaliseDenormalise(g: Grid)
    requires IsBinary(g)
    ensures Normalised(Denormalised(g)) == g
  {
    var r := Normalised(Denormalised(g));
    forall i | 0 <= i < |g| ensures r[i] == g[i] {
      assert |r[i]| == |g[i]|;
    }
  }

  /** Two grids of one shape that are both all black are equal. */
  lemma AllBlackEqual(a: Grid, b: Grid)
    requires SameShape(a, b) && AllBlack(a) && AllBlack(b)
    ensures a == b
  {
    forall i | 0 <= i < |a| ensures a[i] == b[i] {
      assert |a[i]| == |b[i]|;
    }
  }

  /** Number of white (non-zero) values in a row. */
  function CountRow(s: seq<int>): (n: nat)
    ensures n <= |s|
  {
    if s == [] then 0 else (if s[0] != 0 then 1 else 0) + CountRow(s[1..])
  }

  /** Number of white (non-zero) pixels in a grid. */
  function WhiteCount(g: Grid): nat
  {
    if g == [] then 0 else CountRow(g[0]) + WhiteCount(g[1..])
  }

  lemma {:induction false} CountRowShrinks(a: seq<int>, s: seq<int>)
    requires |a| == |s|
    requires forall k :: 0 <= k < |a| ==> a[k] == s[k] || a[k] == 0
    ensures CountRow(a) <= CountRow(s)
    ensures a != s ==> CountRow(a) < CountRow(s)
  {
    if a != [] {
      CountRowShrinks(a[1..], s[1..]);
      if a != s && a[0] == s[0] {
        assert a == [a[0]] + a[1..] && s == [s[0]] + s[1..];
        assert a[1..] != s[1..];
      }
    }
  }

  /** Switching pixels off never raises the white count, and switching at
      least one off lowers it. */
  lemma {:induction false} CountShrinks(a: Grid, g: Grid)
    requires Shrinks(a, g)
    ensures WhiteCount(a) <= WhiteCount(g)
    ensures a != g ==> WhiteCount(a) < WhiteCount(g)
  {
    if a != [] {
      assert forall k :: 0 <= k < |a[0]| ==> a[0][k] == g[0][k] || a[0][k] == 0;
      CountRowShrinks(a[0], g[0]);
      assert Shrinks(a[1..], g[1..]) by {
        forall i, j | 0 <= i < |a[1..]| && 0 <= j < |a[1..][i]|
          ensures a[1..][i][j] == g[1..][i][j] || a[1..][i][j] == 0
        {
          assert a[1..][i] == a[i + 1] && g[1..][i] == g[i + 1];
        }
      }
      CountShrinks(a[1..], g[1..]);
      if a != g && a[0] == g[0] {
        assert a == [a[0]] + a[1..] && g == [g[0]] + g[1..];
        assert a[1..] != g[1..];
      }
    }
  }
}
