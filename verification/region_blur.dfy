/**
 * Region blur: how `blur_one_image` turns each face detection into a
 * rectangle of the frame and overwrites that rectangle, in place, with the
 * blurred copy of itself.
 *
 * The frame is a two-dimensional array of pixels (rows first, as the image
 * library lays it out). The pixel type is left generic, so a pixel may stand
 * for a tuple of channel values. The box filter itself belongs to the image
 * library; here it is a parameter `blur` that, given the cut-out patch and a
 * position inside it, yields the pixel the filter writes there. The filter
 * therefore always returns a patch of the shape it was given.
 */
module RegionBlur {
  import opened Seqs

  /** Pixels added on every side of a detection box before blurring. */
  const Margin: nat := 20

  /** A face detection's box, in pixel coordinates of the frame.
      The detector may place the origin off the frame; sizes are never negative. */
  datatype BoundingBox = BoundingBox(originX: int, originY: int, width: nat, height: nat)

  /** The half-open rectangle of rows [top, bottom) and columns [left, right). */
  datatype Rect = Rect(top: nat, bottom: nat, left: nat, right: nat)

  predicate Contains(r: Rect, i: int, j: int)
  {
    r.top <= i < r.bottom && r.left <= j < r.right
  }

  /** A frame as a value: a sequence of rows. */
  type Grid<P> = seq<seq<P>>

  /** The value the box filter writes at (row, column) of the patch it is given. */
  type BoxFilter<!P> = (Grid<P>, nat, nat) -> P

  /** `g` has `rows` rows of `cols` pixels each. */
  predicate IsFrame<P>(g: Grid<P>, rows: nat, cols: nat)
  {
    |g| == rows && forall i :: 0 <= i < |g| ==> |g[i]| == cols
  }

  /** Two frames of one shape with equal pixels are equal. */
  lemma GridExtensional<P>(g: Grid<P>, h: Grid<P>, rows: nat, cols: nat)
    requires IsFrame(g, rows, cols) && IsFrame(h, rows, cols)
    requires forall i, j :: 0 <= i < rows && 0 <= j < cols ==> g[i][j] == h[i][j]
    ensures g == h
  {
    forall i | 0 <= i < rows
      ensures g[i] == h[i]
    {
      assert forall j :: 0 <= j < cols ==> g[i][j] == h[i][j];
    }
  }

  predicate InSpan(k: int, lo: int, hi: int)
  {
    lo <= k < hi
  }

  predicate WithinFrame(r: Rect, rows: nat, cols: nat)
  {
    r.top <= r.bottom <= rows && r.left <= r.right <= cols
  }

  /** The box grown by the margin, before the frame's edges are taken into
      account: the origin is clamped at 0 first and the far edge is measured
      from the clamped origin. */
  function Expand(b: BoundingBox): (r: Rect)
    // the rectangle always spans the box plus two margins, from the clamped origin
    ensures r.right - r.left == b.width + 2 * Margin
    ensures r.bottom - r.top == b.height + 2 * Margin
    // the near edge is the origin less the margin, or 0 if that would be negative
    ensures b.originX >= Margin ==> r.left == b.originX - Margin
    ensures b.originX < Margin ==> r.left == 0
    ensures b.originY >= Margin ==> r.top == b.originY - Margin
    ensures b.originY < Margin ==> r.top == 0
    // the box and a margin past its far edge are always covered; the far edge
    // lies exactly one margin past the box only when the origin was not clamped
    ensures r.right >= b.originX + b.width + Margin
    ensures r.right == b.originX + b.width + Margin <==> b.originX >= Margin
    ensures r.bottom >= b.originY + b.height + Margin
    ensures r.bottom == b.originY + b.height + Margin <==> b.originY >= Margin
  {
    var x1 := if b.originX - Margin > 0 then b.originX - Margin else 0;
    var y1 := if b.originY - Margin > 0 then b.originY - Margin else 0;
    Rect(y1, y1 + b.height + 2 * Margin, x1, x1 + b.width + 2 * Margin)
  }

  /** The bounds a slice `[lo:hi]` of a dimension of length `n` really covers,
      for non-negative `lo` and `hi`: both are cut back to `n`, and a stop
      before the start gives an empty range. */
  function SliceBounds(lo: nat, hi: nat, n: nat): (bounds: (nat, nat))
    ensures bounds.0 <= bounds.1 <= n
    ensures forall k :: InSpan(k, bounds.0, bounds.1) <==> InSpan(k, lo, hi) && k < n
  {
    var start := if lo < n then lo else n;
    var stop := if hi < n then hi else n;
    (start, if stop < start then start else stop)
  }

  /** The rectangle a detection actually blurs in a frame of `rows` x `cols`:
      the expanded rectangle, silently truncated at the frame's edges. */
  function Effective(b: BoundingBox, rows: nat, cols: nat): (r: Rect)
    ensures WithinFrame(r, rows, cols)
    ensures forall i, j :: Contains(r, i, j) <==> Contains(Expand(b), i, j) && i < rows && j < cols
    ensures r.top == Expand(b).top || r.top == rows
    ensures r.left == Expand(b).left || r.left == cols
    // no column is blurred exactly when the clamped origin lies at or past the right edge
    ensures r.left == r.right <==> Expand(b).left >= cols
    ensures r.top == r.bottom <==> Expand(b).top >= rows
  {
    var e := Expand(b);
    var ys := SliceBounds(e.top, e.bottom, rows);
    var xs := SliceBounds(e.left, e.right, cols);
    Rect(ys.0, ys.1, xs.0, xs.1)
  }

  /** The patch `g[r.top:r.bottom, r.left:r.right]`. */
  function Crop<P>(g: Grid<P>, rows: nat, cols: nat, r: Rect): (patch: Grid<P>)
    requires IsFrame(g, rows, cols) && WithinFrame(r, rows, cols)
    ensures IsFrame(patch, r.bottom - r.top, r.right - r.left)
    ensures forall i, j :: 0 <= i < r.bottom - r.top && 0 <= j < r.right - r.left ==>
              patch[i][j] == g[r.top + i][r.left + j]
  {
    seq(r.bottom - r.top, i requires 0 <= i < r.bottom - r.top => g[r.top + i][r.left..r.right])
  }

  /** The frame after `g[r] = blur(g[r])`: every pixel of `r` takes the
      filter's value for the patch cut out before the assignment; every other
      pixel keeps its value. */
  function Overwrite<P>(g: Grid<P>, rows: nat, cols: nat, r: Rect, blur: BoxFilter<P>): (g': Grid<P>)
    requires IsFrame(g, rows, cols) && WithinFrame(r, rows, cols)
    ensures IsFrame(g', rows, cols)
    ensures forall i, j :: 0 <= i < rows && 0 <= j < cols ==>
              g'[i][j] == if Contains(r, i, j) then blur(Crop(g, rows, cols, r), i - r.top, j - r.left) else g[i][j]
  {
    var patch := Crop(g, rows, cols, r);
    seq(rows, i requires 0 <= i < rows =>
      seq(cols, j requires 0 <= j < cols =>
        if Contains(r, i, j) then blur(patch, i - r.top, j - r.left) else g[i][j]))
  }

  /** The frame after the detections are processed in list order, each one
      blurring its effective rectangle of the frame the earlier ones left. */
  function BlurAll<P>(g: Grid<P>, rows: nat, cols: nat, detections: seq<BoundingBox>, blur: BoxFilter<P>): (g': Grid<P>)
    requires IsFrame(g, rows, cols)
    ensures IsFrame(g', rows, cols)
    ensures detections == [] ==> g' == g
    decreases |detections|
  {
    if detections == [] then g
    else
      var n := |detections| - 1;
      var before := BlurAll(g, rows, cols, detections[..n], blur);
      Overwrite(before, rows, cols, Effective(detections[n], rows, cols), blur)
  }

  /** The first `n + 1` detections are the first `n` followed by detection `n`. */
  lemma BlurAllStep<P>(g: Grid<P>, rows: nat, cols: nat, detections: seq<BoundingBox>, blur: BoxFilter<P>, n: nat)
    requires IsFrame(g, rows, cols) && n < |detections|
    ensures BlurAll(g, rows, cols, detections[..n + 1], blur)
         == Overwrite(BlurAll(g, rows, cols, detections[..n], blur), rows, cols, Effective(detections[n], rows, cols), blur)
  {
    assert detections[..n + 1][..n] == detections[..n];
    assert detections[..n + 1][n] == detections[n];
  }

  /** A pixel that detection `n` covers holds, once that detection is
      processed, the filter's value for the patch it cut out. */
  lemma CoveredByStep<P>(g: Grid<P>, rows: nat, cols: nat, detections: seq<BoundingBox>,
                         blur: BoxFilter<P>, n: nat, i: nat, j: nat)
    requires IsFrame(g, rows, cols) && i < rows && j < cols && n < |detections|
    requires Contains(Effective(detections[n], rows, cols), i, j)
    ensures var r := Effective(detections[n], rows, cols);
            BlurAll(g, rows, cols, detections[..n + 1], blur)[i][j]
              == blur(Crop(BlurAll(g, rows, cols, detections[..n], blur), rows, cols, r), i - r.top, j - r.left)
  {
    BlurAllStep(g, rows, cols, detections, blur, n);
  }

  /** Once no detection from index `k` on covers pixel (i, j), the pixel keeps
      the value it had after the first `k` detections. */
  lemma {:induction false} UnchangedAfter<P>(g: Grid<P>, rows: nat, cols: nat, detections: seq<BoundingBox>,
                                               blur: BoxFilter<P>, k: nat, i: nat, j: nat)
    requires IsFrame(g, rows, cols) && i < rows && j < cols && k <= |detections|
    requires forall m :: k <= m < |detections| ==> !Contains(Effective(detections[m], rows, cols), i, j)
    ensures BlurAll(g, rows, cols, detections, blur)[i][j] == BlurAll(g, rows, cols, detections[..k], blur)[i][j]
    decreases |detections|
  {
    if |detections| > k {
      var n := |detections| - 1;
      var before := BlurAll(g, rows, cols, detections[..n], blur);
      var r := Effective(detections[n], rows, cols);
      assert !Contains(r, i, j);
      assert BlurAll(g, rows, cols, detections, blur) == Overwrite(before, rows, cols, r, blur);
      assert Overwrite(before, rows, cols, r, blur)[i][j] == before[i][j];
      assert detections[..n][..k] == detections[..k];
      UnchangedAfter(g, rows, cols, detections[..n], blur, k, i, j);
    } else {
      assert detections[..k] == detections;
    }
  }

  /** A pixel outside every detection's effective rectangle is never changed. */
  lemma OutsideUntouched<P>(g: Grid<P>, rows: nat, cols: nat, detections: seq<BoundingBox>,
                            blur: BoxFilter<P>, i: nat, j: nat)
    requires IsFrame(g, rows, cols) && i < rows && j < cols
    requires forall m :: 0 <= m < |detections| ==> !Contains(Effective(detections[m], rows, cols), i, j)
    ensures BlurAll(g, rows, cols, detections, blur)[i][j] == g[i][j]
  {
    UnchangedAfter(g, rows, cols, detections, blur, 0, i, j);
    assert detections[..0] == [];
  }

  /** A pixel whose last covering detection is number `k` holds the filter's
      value for the patch that detection cut out of the frame the first `k`
      detections left. */
  lemma LastCoverWins<P>(g: Grid<P>, rows: nat, cols: nat, detections: seq<BoundingBox>,
                         blur: BoxFilter<P>, k: nat, i: nat, j: nat)
    requires IsFrame(g, rows, cols) && i < rows && j < cols && k < |detections|
    requires Contains(Effective(detections[k], rows, cols), i, j)
    requires forall m :: k < m < |detections| ==> !Contains(Effective(detections[m], rows, cols), i, j)
    ensures var r := Effective(detections[k], rows, cols);
            var before := BlurAll(g, rows, cols, detections[..k], blur);
            BlurAll(g, rows, cols, detections, blur)[i][j]
              == blur(Crop(before, rows, cols, r), i - r.top, j - r.left)
  {
    UnchangedAfter(g, rows, cols, detections, blur, k + 1, i, j);
    CoveredByStep(g, rows, cols, detections, blur, k, i, j);
  }

  ghost predicate Disjoint(r: Rect, s: Rect)
  {
    forall i, j :: Contains(r, i, j) ==> !Contains(s, i, j)
  }

  /** Blurring a rectangle leaves the patch of a disjoint rectangle as it was. */
  lemma CropUnaffected<P>(g: Grid<P>, rows: nat, cols: nat, r: Rect, s: Rect, blur: BoxFilter<P>)
    requires IsFrame(g, rows, cols) && WithinFrame(r, rows, cols) && WithinFrame(s, rows, cols)
    requires Disjoint(r, s)
    ensures Crop(Overwrite(g, rows, cols, r, blur), rows, cols, s) == Crop(g, rows, cols, s)
  {
    var after := Crop(Overwrite(g, rows, cols, r, blur), rows, cols, s);
    var before := Crop(g, rows, cols, s);
    forall i | 0 <= i < |after|
      ensures after[i] == before[i]
    {
      forall j | 0 <= j < s.right - s.left
        ensures after[i][j] == before[i][j]
      {
        assert Contains(s, s.top + i, s.left + j);
      }
    }
  }

  /** Blurring two disjoint rectangles gives the same frame in either order. */
  lemma OverwriteCommute<P>(g: Grid<P>, rows: nat, cols: nat, ra: Rect, rb: Rect, blur: BoxFilter<P>)
    requires IsFrame(g, rows, cols) && WithinFrame(ra, rows, cols) && WithinFrame(rb, rows, cols)
    requires Disjoint(ra, rb)
    ensures Overwrite(Overwrite(g, rows, cols, ra, blur), rows, cols, rb, blur)
         == Overwrite(Overwrite(g, rows, cols, rb, blur), rows, cols, ra, blur)
  {
    var ga := Overwrite(g, rows, cols, ra, blur);
    var gb := Overwrite(g, rows, cols, rb, blur);
    var ab := Overwrite(ga, rows, cols, rb, blur);
    var ba := Overwrite(gb, rows, cols, ra, blur);
    CropUnaffected(g, rows, cols, ra, rb, blur);
    assert Disjoint(rb, ra);
    CropUnaffected(g, rows, cols, rb, ra, blur);
    forall i | 0 <= i < rows
      ensures ab[i] == ba[i]
    {
      forall j | 0 <= j < cols
        ensures ab[i][j] == ba[i][j]
      {
        if Contains(ra, i, j) {
          assert !Contains(rb, i, j);
        }
      }
    }
  }

  /** Two detections whose effective rectangles do not overlap may be
      processed in either order. */
  lemma DisjointCommute<P>(g: Grid<P>, rows: nat, cols: nat, a: BoundingBox, b: BoundingBox, blur: BoxFilter<P>)
    requires IsFrame(g, rows, cols)
    requires Disjoint(Effective(a, rows, cols), Effective(b, rows, cols))
    ensures BlurAll(g, rows, cols, [a, b], blur) == BlurAll(g, rows, cols, [b, a], blur)
  {
    var ra, rb := Effective(a, rows, cols), Effective(b, rows, cols);
    assert [a, b][..1] == [a] && [b, a][..1] == [b];
    assert [a][..0] == [] && [b][..0] == [];
    assert BlurAll(g, rows, cols, [a], blur) == Overwrite(g, rows, cols, ra, blur);
    assert BlurAll(g, rows, cols, [b], blur) == Overwrite(g, rows, cols, rb, blur);
    OverwriteCommute(g, rows, cols, ra, rb, blur);
  }

  /** The last detection of `p + ys` is the last of `ys`, applied after `p`
      and the rest of `ys`. */
  lemma BlurAllAppendStep<P>(g: Grid<P>, rows: nat, cols: nat, p: seq<BoundingBox>,
                             ys: seq<BoundingBox>, blur: BoxFilter<P>)
    requires IsFrame(g, rows, cols) && ys != []
    ensures BlurAll(g, rows, cols, p + ys, blur)
         == Overwrite(BlurAll(g, rows, cols, p + ys[..|ys| - 1], blur), rows, cols, Effective(ys[|ys| - 1], rows, cols), blur)
  {
    DropLastAppend(p, ys);
  }

  /** Processing `p` and then `ys` is processing `p + ys`. */
  lemma {:induction false} BlurAllAppend<P>(g: Grid<P>, rows: nat, cols: nat, p: seq<BoundingBox>,
                                            ys: seq<BoundingBox>, blur: BoxFilter<P>)
    requires IsFrame(g, rows, cols)
    ensures BlurAll(g, rows, cols, p + ys, blur) == BlurAll(BlurAll(g, rows, cols, p, blur), rows, cols, ys, blur)
    decreases |ys|
  {
    if ys == [] {
      assert p + ys == p;
    } else {
      var n := |ys| - 1;
      var h := BlurAll(g, rows, cols, p, blur);
      BlurAllAppend(g, rows, cols, p, ys[..n], blur);
      BlurAllAppendStep(g, rows, cols, p, ys, blur);
      assert BlurAll(h, rows, cols, ys, blur)
          == Overwrite(BlurAll(h, rows, cols, ys[..n], blur), rows, cols, Effective(ys[n], rows, cols), blur);
    }
  }

  /** Two adjacent detections whose effective rectangles do not overlap may be
      swapped anywhere in the list. */
  lemma SwapAdjacent<P>(g: Grid<P>, rows: nat, cols: nat, xs: seq<BoundingBox>, a: BoundingBox,
                        b: BoundingBox, ys: seq<BoundingBox>, blur: BoxFilter<P>)
    requires IsFrame(g, rows, cols)
    requires Disjoint(Effective(a, rows, cols), Effective(b, rows, cols))
    ensures BlurAll(g, rows, cols, xs + [a, b] + ys, blur) == BlurAll(g, rows, cols, xs + [b, a] + ys, blur)
  {
    var h := BlurAll(g, rows, cols, xs, blur);
    BlurAllAppend(g, rows, cols, xs + [a, b], ys, blur);
    BlurAllAppend(g, rows, cols, xs + [b, a], ys, blur);
    BlurAllAppend(g, rows, cols, xs, [a, b], blur);
    BlurAllAppend(g, rows, cols, xs, [b, a], blur);
    DisjointCommute(h, rows, cols, a, b, blur);
  }

  /** The pixels of an array as a value. */
  function Pixels<P>(image: array2<P>): (g: Grid<P>)
    reads image
    ensures IsFrame(g, image.Length0, image.Length1)
    ensures forall i, j :: 0 <= i < image.Length0 && 0 <= j < image.Length1 ==> g[i][j] == image[i, j]
  {
    seq(image.Length0, i requires 0 <= i < image.Length0 reads image =>
      seq(image.Length1, j requires 0 <= j < image.Length1 reads image => image[i, j]))
  }

  /** Row `i` of `image[r] = blur(patch)`, column by column. */
  method BlurRow<P>(image: array2<P>, r: Rect, patch: Grid<P>, blur: BoxFilter<P>, i: nat)
    requires WithinFrame(r, image.Length0, image.Length1) && r.top <= i < r.bottom
    modifies image
    ensures forall a, c :: 0 <= a < image.Length0 && 0 <= c < image.Length1 ==>
              image[a, c] == if a == i && r.left <= c < r.right
                             then blur(patch, a - r.top, c - r.left) else old(image[a, c])
  {
    for j := r.left to r.right
      invariant forall a, c :: 0 <= a < image.Length0 && 0 <= c < image.Length1 ==>
                  image[a, c] == if a == i && r.left <= c < j
                                 then blur(patch, a - r.top, c - r.left) else old(image[a, c])
    {
      image[i, j] := blur(patch, i - r.top, j - r.left);
    }
  }

  /** `image[r] = blur(image[r])`, in place: the patch is cut out first, then
      written back blurred, row by row. */
  method BlurRegion<P>(image: array2<P>, r: Rect, blur: BoxFilter<P>)
    requires WithinFrame(r, image.Length0, image.Length1)
    modifies image
    ensures Pixels(image) == Overwrite(old(Pixels(image)), image.Length0, image.Length1, r, blur)
  {
    var patch := Crop(Pixels(image), image.Length0, image.Length1, r);
    for i := r.top to r.bottom
      invariant forall a, c :: 0 <= a < image.Length0 && 0 <= c < image.Length1 ==>
                  image[a, c] == if Contains(Rect(r.top, i, r.left, r.right), a, c)
                                 then blur(patch, a - r.top, c - r.left) else old(image[a, c])
    {
      BlurRow(image, r, patch, blur, i);
    }
    GridExtensional(Pixels(image), Overwrite(old(Pixels(image)), image.Length0, image.Length1, r, blur),
                    image.Length0, image.Length1);
  }

  /** The library's box filter refuses an empty patch. A detection's patch is
      empty when the clamped origin lies at or past the right or the bottom
      edge, so a frame with no rows or no columns fails on any detection. */
  predicate EmptyPatch(b: BoundingBox, rows: nat, cols: nat)
  {
    Expand(b).left >= cols || Expand(b).top >= rows
  }

  /** The index of the first detection with an empty patch, or the number of
      detections when there is none. */
  function FirstEmpty(detections: seq<BoundingBox>, rows: nat, cols: nat): (k: nat)
    ensures k <= |detections|
    ensures forall m :: 0 <= m < k ==> !EmptyPatch(detections[m], rows, cols)
    ensures k < |detections| ==> EmptyPatch(detections[k], rows, cols)
    decreases |detections|
  {
    if detections == [] then 0
    else if EmptyPatch(detections[0], rows, cols) then 0
    else
      var k := 1 + FirstEmpty(detections[1..], rows, cols);
      assert forall m :: 1 <= m < k ==> detections[m] == detections[1..][m - 1];
      k
  }

  /** The first empty patch is the one every earlier detection avoids. */
  lemma FirstEmptyUnique(detections: seq<BoundingBox>, rows: nat, cols: nat, k: nat)
    requires k <= |detections|
    requires forall m :: 0 <= m < k ==> !EmptyPatch(detections[m], rows, cols)
    requires k < |detections| ==> EmptyPatch(detections[k], rows, cols)
    ensures FirstEmpty(detections, rows, cols) == k
  {
  }

  /** A patch is empty exactly when the effective rectangle has no row or no
      column. */
  lemma EmptyPatchIff(b: BoundingBox, rows: nat, cols: nat)
    ensures EmptyPatch(b, rows, cols) <==>
            var r := Effective(b, rows, cols); r.top == r.bottom || r.left == r.right
  {
    var e := Expand(b);
    var r := Effective(b, rows, cols);
    assert r.left == r.right <==> e.left >= cols;
    assert r.top == r.bottom <==> e.top >= rows;
  }

  /** Two detection lists that have an empty patch at the same places fail at
      the same place. */
  lemma FirstEmptySamePlaces(d1: seq<BoundingBox>, d2: seq<BoundingBox>, rows: nat, cols: nat)
    requires |d1| == |d2|
    requires forall m :: 0 <= m < |d1| ==> (EmptyPatch(d1[m], rows, cols) <==> EmptyPatch(d2[m], rows, cols))
    ensures FirstEmpty(d1, rows, cols) == FirstEmpty(d2, rows, cols)
  {
    FirstEmptyUnique(d2, rows, cols, FirstEmpty(d1, rows, cols));
  }

  /** Swapping two neighbouring detections with non-empty patches does not
      move the first empty patch, and it never lies between them. */
  lemma SwapFirstEmpty(xs: seq<BoundingBox>, a: BoundingBox, b: BoundingBox, ys: seq<BoundingBox>,
                       rows: nat, cols: nat)
    requires !EmptyPatch(a, rows, cols) && !EmptyPatch(b, rows, cols)
    ensures FirstEmpty(xs + [a, b] + ys, rows, cols) == FirstEmpty(xs + [b, a] + ys, rows, cols)
    ensures var k := FirstEmpty(xs + [a, b] + ys, rows, cols);
            k <= |xs| || |xs| + 2 <= k
  {
    var d1, d2 := xs + [a, b] + ys, xs + [b, a] + ys;
    forall m | 0 <= m < |d1|
      ensures EmptyPatch(d1[m], rows, cols) <==> EmptyPatch(d2[m], rows, cols)
    {
      if m >= |xs| + 2 {
        assert d1[m] == ys[m - |xs| - 2] == d2[m];
      } else if m < |xs| {
        assert d1[m] == xs[m] == d2[m];
      }
    }
    FirstEmptySamePlaces(d1, d2, rows, cols);
    assert d1[|xs|] == a && d1[|xs| + 1] == b;
  }

  /** What `blur_one_image` does is unchanged when two neighbouring detections
      with non-empty, disjoint patches are swapped: it fails at the same index,
      if at all, and leaves the same frame. */
  lemma SwapOutcome<P>(g: Grid<P>, rows: nat, cols: nat, xs: seq<BoundingBox>, a: BoundingBox,
                       b: BoundingBox, ys: seq<BoundingBox>, blur: BoxFilter<P>)
    requires IsFrame(g, rows, cols)
    requires !EmptyPatch(a, rows, cols) && !EmptyPatch(b, rows, cols)
    requires Disjoint(Effective(a, rows, cols), Effective(b, rows, cols))
    ensures FirstEmpty(xs + [a, b] + ys, rows, cols) == FirstEmpty(xs + [b, a] + ys, rows, cols)
    ensures var k := FirstEmpty(xs + [a, b] + ys, rows, cols);
            BlurAll(g, rows, cols, (xs + [a, b] + ys)[..k], blur)
              == BlurAll(g, rows, cols, (xs + [b, a] + ys)[..k], blur)
  {
    SwapFirstEmpty(xs, a, b, ys, rows, cols);
    var k := FirstEmpty(xs + [a, b] + ys, rows, cols);
    if k <= |xs| {
      SwapPrefix(xs, a, b, ys, k);
    } else {
      PrefixPastAppend(xs + [a, b], ys, k);
      PrefixPastAppend(xs + [b, a], ys, k);
      SwapAdjacent(g, rows, cols, xs, a, b, ys[..k - |xs| - 2], blur);
    }
  }

  /** What `blur_one_image` yields: the blurred array, or the error the box
      filter raises at the detection with an empty patch. */
  datatype BlurResult<P> = Blurred(image: array2<P>) | EmptyPatchError(index: nat)

  /** `blur_one_image`: blurs, in place and in list order, the effective
      rectangle of every detection, and hands back the same array. The first
      detection with an empty patch stops it with an error; the detections
      before it have already been applied. */
  method BlurOneImage<P>(image: array2<P>, detections: seq<BoundingBox>, blur: BoxFilter<P>)
    returns (result: BlurResult<P>)
    modifies image
    ensures var k := FirstEmpty(detections, image.Length0, image.Length1);
            Pixels(image) == BlurAll(old(Pixels(image)), image.Length0, image.Length1, detections[..k], blur)
    ensures result.Blurred? <==> FirstEmpty(detections, image.Length0, image.Length1) == |detections|
    ensures result.Blurred? ==> result.image == image
    ensures result.EmptyPatchError? ==> result.index == FirstEmpty(detections, image.Length0, image.Length1)
  {
    ghost var g0 := Pixels(image);
    var rows, cols := image.Length0, image.Length1;
    for k := 0 to |detections|
      invariant k <= FirstEmpty(detections, rows, cols)
      invariant Pixels(image) == BlurAll(g0, rows, cols, detections[..k], blur)
    {
      if EmptyPatch(detections[k], rows, cols) {
        assert FirstEmpty(detections, rows, cols) == k;
        result := EmptyPatchError(k);
        assert Pixels(image) == BlurAll(old(Pixels(image)), rows, cols, detections[..k], blur);
        return;
      }
      assert !EmptyPatch(detections[k], rows, cols);
      assert k + 1 <= FirstEmpty(detections, rows, cols);
      BlurRegion(image, Effective(detections[k], rows, cols), blur);
      BlurAllStep(g0, rows, cols, detections, blur, k);
    }
    assert detections[..|detections|] == detections;
    result := Blurred(image);
  }
}
