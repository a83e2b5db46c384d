/**
 * quadtree_split.py: recursive quadtree splitting. A rectangle whose
 * intensities are uniform enough, or which is already small, becomes a leaf
 * and is filled in the result image with the truncated mean of its pixels;
 * any other rectangle is cut at its centre into four children, which are
 * split in turn.
 *
 * `cv2.meanStdDev` is taken as the exact population mean and standard
 * deviation of the region's pixels.
 */
module QuadtreeSplit {
  import opened Common
  import opened Sequences

  /** The region `split(x, y, w, h)` works on: columns x..x+w-1 of rows y..y+h-1. */
  datatype Rect = Rect(x: int, y: int, w: int, h: int) {
    predicate Contains(px: int, py: int) {
      x <= px < x + w && y <= py < y + h
    }

    predicate Within(outer: Rect) {
      outer.x <= x && x + w <= outer.x + outer.w && outer.y <= y && y + h <= outer.y + outer.h
    }

    /** The four quadrants of `split`, cut at `half_w = int(w / 2)` and `half_h = int(h / 2)`. */
    function TopLeft(): Rect { Rect(x, y, w / 2, h / 2) }
    function TopRight(): Rect { Rect(x + w / 2, y, w - w / 2, h / 2) }
    function BottomLeft(): Rect { Rect(x, y + h / 2, w / 2, h - h / 2) }
    function BottomRight(): Rect { Rect(x + w / 2, y + h / 2, w - w / 2, h - h / 2) }

    function Children(): seq<Rect> {
      [TopLeft(), TopRight(), BottomLeft(), BottomRight()]
    }

    /** The quadrant holding (px, py). */
    function ChildContaining(px: int, py: int): Rect {
      if px < x + w / 2 then
        (if py < y + h / 2 then TopLeft() else BottomLeft())
      else
        (if py < y + h / 2 then TopRight() else BottomRight())
    }
  }

  /** The quadrants of a rectangle of at least 2 x 2 pixels are non-empty, inside it and smaller. */
  lemma QuadrantsInside(r: Rect)
    requires r.w >= 2 && r.h >= 2
    ensures r.TopLeft().w >= 1 && r.TopLeft().h >= 1 && r.TopLeft().Within(r)
    ensures r.TopRight().w >= 1 && r.TopRight().h >= 1 && r.TopRight().Within(r)
    ensures r.BottomLeft().w >= 1 && r.BottomLeft().h >= 1 && r.BottomLeft().Within(r)
    ensures r.BottomRight().w >= 1 && r.BottomRight().h >= 1 && r.BottomRight().Within(r)
    ensures forall c :: c in r.Children() ==> c.w + c.h < r.w + r.h
  {
  }

  /** A pixel of the rectangle lies in the quadrant ChildContaining names. */
  lemma QuadrantHolds(r: Rect, px: int, py: int)
    requires r.w >= 2 && r.h >= 2 && r.Contains(px, py)
    ensures r.ChildContaining(px, py) in r.Children()
    ensures r.ChildContaining(px, py).Contains(px, py)
  {
  }

  /** ... and in no other: a quadrant holding (px, py) is that one, and (px, py) lies in the rectangle. */
  lemma QuadrantUnique(r: Rect, c: Rect, px: int, py: int)
    requires r.w >= 2 && r.h >= 2 && c in r.Children() && c.Contains(px, py)
    ensures r.Contains(px, py) && c == r.ChildContaining(px, py)
  {
  }

  /** The population variance of a non-empty list. */
  function Variance(s: seq<real>): real
    requires |s| > 0
  {
    var m := Mean(s);
    Mean(seq(|s|, k requires 0 <= k < |s| => (s[k] - m) * (s[k] - m)))
  }

  class QuadTreeSplitter {
    const img: seq<seq<int>>
    const h: nat
    const w: nat
    const stdThresh: real
    const minSize: int
    /** `result_image`, painted in place by Split. */
    const resultImage: array2<int>

    predicate Valid() {
      IsByteGrid(img, h, w) && resultImage.Length0 == h && resultImage.Length1 == w
    }

    /** `__init__`: the result image starts all zero. */
    constructor (img: seq<seq<int>>, h: nat, w: nat, stdThresh: real, minSize: int)
      requires IsByteGrid(img, h, w)
      ensures Valid()
      ensures this.img == img && this.h == h && this.w == w
      ensures this.stdThresh == stdThresh && this.minSize == minSize
      ensures fresh(resultImage)
      ensures forall y, x :: 0 <= y < h && 0 <= x < w ==> resultImage[y, x] == 0
    {
      this.img := img;
      this.h := h;
      this.w := w;
      this.stdThresh := stdThresh;
      this.minSize := minSize;
      resultImage := new int[h, w]((y, x) => 0);
    }

    /** A non-empty region lying inside the image. */
    predicate InImage(r: Rect) {
      r.w >= 1 && r.h >= 1 && r.Within(Rect(0, 0, w, h))
    }

    /** The pixels of row `row`, columns x..x+width-1, as reals. */
    function RowValues(row: int, x: int, width: int): (vals: seq<real>)
      requires Valid() && 0 <= row < h && 0 <= x && 0 <= width && x + width <= w
      ensures |vals| == width
      ensures AllWithin(vals, 0.0, 255.0)
    {
      seq(width, k requires 0 <= k < width => img[row][x + k] as real)
    }

    /** `roi = img[y:y+h, x:x+w]`, flattened row by row. */
    function RegionValues(r: Rect): (vals: seq<real>)
      requires Valid() && r.w >= 0 && r.h >= 0 && r.Within(Rect(0, 0, w, h))
      ensures r.w >= 1 && r.h >= 1 ==> |vals| >= 1
      ensures AllWithin(vals, 0.0, 255.0)
      decreases r.h
    {
      if r.h == 0 then []
      else
        var above := RegionValues(Rect(r.x, r.y, r.w, r.h - 1));
        var row := RowValues(r.y + r.h - 1, r.x, r.w);
        AllWithinConcat(above, row, 0.0, 255.0);
        above + row
    }

    /** `std <= std_thresh`, with std the square root of the variance. */
    predicate Uniform(r: Rect)
      requires Valid() && InImage(r)
    {
      stdThresh >= 0.0 && Variance(RegionValues(r)) <= stdThresh * stdThresh
    }

    /** The leaf test of `split`. */
    predicate IsLeaf(r: Rect)
      requires Valid() && InImage(r)
    {
      Uniform(r) || r.w <= minSize || r.h <= minSize
    }

    /** `int(mean)`: the mean of a region truncated toward zero (it is never negative). */
    function LeafValue(r: Rect): (v: int)
      requires Valid() && InImage(r)
    {
      Mean(RegionValues(r)).Floor
    }

    /** A leaf's value, the truncated mean of 8-bit pixels, lies in [0, 255]. */
    lemma LeafValueIsByte(r: Rect)
      requires Valid() && InImage(r)
      ensures 0 <= LeafValue(r) <= 255
    {
      MeanWithin(RegionValues(r), 0.0, 255.0);
    }

    /** The value `split` on region r leaves at pixel (px, py) of r: that of the leaf reached by descending into quadrants. */
    function PaintedValue(r: Rect, px: int, py: int): int
      requires Valid() && minSize >= 1 && InImage(r) && r.Contains(px, py)
      decreases r.w + r.h
    {
      if IsLeaf(r) then LeafValue(r)
      else
        QuadrantsInside(r);
        QuadrantHolds(r, px, py);
        PaintedValue(r.ChildContaining(px, py), px, py)
    }

    /** The leaves `split` on region r fills. */
    function Leaves(r: Rect): set<Rect>
      requires Valid() && minSize >= 1 && InImage(r)
      decreases r.w + r.h
    {
      if IsLeaf(r) then {r}
      else
        QuadrantsInside(r);
        Leaves(r.TopLeft()) + Leaves(r.TopRight()) + Leaves(r.BottomLeft()) + Leaves(r.BottomRight())
    }

    /** The leaf of r holding (px, py): a non-empty region inside r that holds the pixel and passes the leaf test. */
    function LeafOf(r: Rect, px: int, py: int): (l: Rect)
      requires Valid() && minSize >= 1 && InImage(r) && r.Contains(px, py)
      ensures InImage(l) && l.Within(r) && l.Contains(px, py) && IsLeaf(l)
      decreases r.w + r.h
    {
      if IsLeaf(r) then r
      else
        QuadrantsInside(r);
        QuadrantHolds(r, px, py);
        LeafOf(r.ChildContaining(px, py), px, py)
    }

    /** Every leaf of r is a non-empty region inside r that passes the leaf test. */
    lemma {:induction false} LeafIsLeaf(r: Rect, l: Rect)
      requires Valid() && minSize >= 1 && InImage(r) && l in Leaves(r)
      ensures InImage(l) && l.Within(r) && IsLeaf(l)
      decreases r.w + r.h
    {
      if !IsLeaf(r) {
        QuadrantsInside(r);
        if l in Leaves(r.TopLeft()) {
          LeafIsLeaf(r.TopLeft(), l);
        } else if l in Leaves(r.TopRight()) {
          LeafIsLeaf(r.TopRight(), l);
        } else if l in Leaves(r.BottomLeft()) {
          LeafIsLeaf(r.BottomLeft(), l);
        } else {
          LeafIsLeaf(r.BottomRight(), l);
        }
      }
    }

    /** The quadrant of r whose leaves include l. */
    lemma QuadrantOfLeaf(r: Rect, l: Rect) returns (c: Rect)
      requires Valid() && minSize >= 1 && InImage(r) && !IsLeaf(r) && l in Leaves(r)
      ensures c in r.Children() && InImage(c) && l in Leaves(c) && l.Within(c)
    {
      QuadrantsInside(r);
      if l in Leaves(r.TopLeft()) {
        c := r.TopLeft();
      } else if l in Leaves(r.TopRight()) {
        c := r.TopRight();
      } else if l in Leaves(r.BottomLeft()) {
        c := r.BottomLeft();
      } else {
        c := r.BottomRight();
      }
      LeafIsLeaf(c, l);
    }

    /**
     * The leaves tile r: a pixel of r lies in exactly one leaf, LeafOf, and
     * its painted value is that leaf's truncated mean.
     */
    lemma {:induction false} LeavesTile(r: Rect, px: int, py: int)
      requires Valid() && minSize >= 1 && InImage(r) && r.Contains(px, py)
      ensures LeafOf(r, px, py) in Leaves(r)
      ensures forall l :: l in Leaves(r) && l.Contains(px, py) ==> l == LeafOf(r, px, py)
      ensures PaintedValue(r, px, py) == LeafValue(LeafOf(r, px, py))
      decreases r.w + r.h
    {
      if !IsLeaf(r) {
        QuadrantsInside(r);
        QuadrantHolds(r, px, py);
        var c := r.ChildContaining(px, py);
        LeavesTile(c, px, py);
        forall l | l in Leaves(r) && l.Contains(px, py) ensures l == LeafOf(r, px, py) {
          var d := QuadrantOfLeaf(r, l);
          QuadrantUnique(r, d, px, py);
        }
      }
    }

    // ----- the result image -----

    /** `result_image` as a value, `Grid()[y][x] == resultImage[y, x]`. */
    ghost function Grid(): (g: seq<seq<int>>)
      requires Valid()
      reads resultImage
      ensures IsGrid(g, h, w)
    {
      seq(h, y requires 0 <= y < h reads resultImage =>
        seq(w, x requires 0 <= x < w reads resultImage => resultImage[y, x]))
    }

    /** g with every pixel of r set to v. */
    ghost function Fill(g: seq<seq<int>>, r: Rect, v: int): (g': seq<seq<int>>)
      requires IsGrid(g, h, w)
      ensures IsGrid(g', h, w)
    {
      seq(h, y requires 0 <= y < h => seq(w, x requires 0 <= x < w => if r.Contains(x, y) then v else g[y][x]))
    }

    /** g after `split` on region r: every pixel of r gets its painted value, the rest keep theirs. */
    ghost function Paint(g: seq<seq<int>>, r: Rect): (g': seq<seq<int>>)
      requires Valid() && minSize >= 1 && InImage(r) && IsGrid(g, h, w)
      ensures IsGrid(g', h, w)
    {
      seq(h, y requires 0 <= y < h =>
        seq(w, x requires 0 <= x < w => if r.Contains(x, y) then PaintedValue(r, x, y) else g[y][x]))
    }

    /** A leaf is painted by filling it with its truncated mean. */
    lemma PaintLeaf(g: seq<seq<int>>, r: Rect)
      requires Valid() && minSize >= 1 && InImage(r) && IsGrid(g, h, w) && IsLeaf(r)
      ensures Paint(g, r) == Fill(g, r, LeafValue(r))
    {
      var a, b := Paint(g, r), Fill(g, r, LeafValue(r));
      forall y | 0 <= y < h ensures a[y] == b[y] {
        assert forall x :: 0 <= x < w ==> a[y][x] == b[y][x];
      }
    }

    /** Painting the four quadrants in the order `split` recurses into them paints the whole region. */
    lemma PaintQuadrants(g: seq<seq<int>>, g1: seq<seq<int>>, g2: seq<seq<int>>, g3: seq<seq<int>>, g4: seq<seq<int>>, r: Rect)
      requires Valid() && minSize >= 1 && InImage(r) && IsGrid(g, h, w) && !IsLeaf(r)
      requires InImage(r.TopLeft()) && InImage(r.TopRight()) && InImage(r.BottomLeft()) && InImage(r.BottomRight())
      requires g1 == Paint(g, r.TopLeft()) && g2 == Paint(g1, r.TopRight())
      requires g3 == Paint(g2, r.BottomLeft()) && g4 == Paint(g3, r.BottomRight())
      ensures g4 == Paint(g, r)
    {
      var want := Paint(g, r);
      forall y | 0 <= y < h ensures g4[y] == want[y] {
        forall x | 0 <= x < w ensures g4[y][x] == want[y][x] {
          if r.Contains(x, y) {
            QuadrantHolds(r, x, y);
          } else {
            if r.TopLeft().Contains(x, y) { QuadrantUnique(r, r.TopLeft(), x, y); }
            if r.TopRight().Contains(x, y) { QuadrantUnique(r, r.TopRight(), x, y); }
            if r.BottomLeft().Contains(x, y) { QuadrantUnique(r, r.BottomLeft(), x, y); }
            if r.BottomRight().Contains(x, y) { QuadrantUnique(r, r.BottomRight(), x, y); }
          }
        }
      }
    }

    /** Filling no rows changes nothing. */
    lemma FillNothing(g: seq<seq<int>>, r: Rect, v: int)
      requires IsGrid(g, h, w) && r.h == 0
      ensures Fill(g, r, v) == g
    {
      var a := Fill(g, r, v);
      forall y | 0 <= y < h ensures a[y] == g[y] {
        assert forall x :: 0 <= x < w ==> a[y][x] == g[y][x];
      }
    }

    /** Filling the first k rows of a region and then its row k fills its first k + 1 rows. */
    lemma FillNextRow(g: seq<seq<int>>, r: Rect, k: int, v: int)
      requires IsGrid(g, h, w) && k >= 0
      ensures Fill(Fill(g, Rect(r.x, r.y, r.w, k), v), Rect(r.x, r.y + k, r.w, 1), v) == Fill(g, Rect(r.x, r.y, r.w, k + 1), v)
    {
      var a := Fill(Fill(g, Rect(r.x, r.y, r.w, k), v), Rect(r.x, r.y + k, r.w, 1), v);
      var b := Fill(g, Rect(r.x, r.y, r.w, k + 1), v);
      forall y | 0 <= y < h ensures a[y] == b[y] {
        assert forall x :: 0 <= x < w ==> a[y][x] == b[y][x];
      }
    }

    /** Row y of the slice assignment: columns x..x+width-1 set to v. */
    method FillRow(y: int, x: int, width: int, v: int)
      requires Valid() && 0 <= y < h && 0 <= x && 0 <= width && x + width <= w
      modifies resultImage
      ensures Grid() == Fill(old(Grid()), Rect(x, y, width, 1), v)
    {
      for j := x to x + width
        invariant forall yy, xx :: 0 <= yy < h && 0 <= xx < w ==>
                    resultImage[yy, xx] == if yy == y && x <= xx < j then v else old(resultImage[yy, xx])
      {
        resultImage[y, j] := v;
      }
      var a, b := Grid(), Fill(old(Grid()), Rect(x, y, width, 1), v);
      forall yy | 0 <= yy < h ensures a[yy] == b[yy] {
        assert forall xx :: 0 <= xx < w ==> a[yy][xx] == b[yy][xx];
      }
    }

    /** `self.result_image[y:y+h, x:x+w] = v`. */
    method FillRegion(r: Rect, v: int)
      requires Valid() && InImage(r)
      modifies resultImage
      ensures Grid() == Fill(old(Grid()), r, v)
    {
      FillNothing(Grid(), Rect(r.x, r.y, r.w, 0), v);
      for i := r.y to r.y + r.h
        invariant Grid() == Fill(old(Grid()), Rect(r.x, r.y, r.w, i - r.y), v)
      {
        FillRow(i, r.x, r.w, v);
        FillNextRow(old(Grid()), r, i - r.y, v);
      }
    }

    /**
     * `split(x, y, w, h)`: afterwards every pixel of the region holds its
     * painted value (the truncated mean of the one leaf holding it) and
     * every other pixel is unchanged.
     */
    method Split(x: int, y: int, width: int, height: int)
      requires Valid() && minSize >= 1 && InImage(Rect(x, y, width, height))
      modifies resultImage
      ensures Grid() == Paint(old(Grid()), Rect(x, y, width, height))
      decreases width + height, 1
    {
      var r := Rect(x, y, width, height);
      var roi := RegionValues(r);
      var mean, variance := Mean(roi), Variance(roi);
      var uniform := stdThresh >= 0.0 && variance <= stdThresh * stdThresh;
      ghost var g := Grid();
      assert uniform == Uniform(r);
      if uniform || width <= minSize || height <= minSize {
        FillRegion(r, mean.Floor);
        PaintLeaf(g, r);
      } else {
        SplitQuadrants(r);
      }
    }

    /** The recursive branch of `split`: the four quadrants, in the order the source visits them. */
    method SplitQuadrants(r: Rect)
      requires Valid() && minSize >= 1 && InImage(r) && !IsLeaf(r)
      modifies resultImage
      ensures Grid() == Paint(old(Grid()), r)
      decreases r.w + r.h, 0
    {
      ghost var g := Grid();
      var tl, tr, bl, br := r.TopLeft(), r.TopRight(), r.BottomLeft(), r.BottomRight();
      QuadrantsInside(r);
      Split(tl.x, tl.y, tl.w, tl.h);
      ghost var g1 := Grid();
      Split(tr.x, tr.y, tr.w, tr.h);
      ghost var g2 := Grid();
      Split(bl.x, bl.y, bl.w, bl.h);
      ghost var g3 := Grid();
      Split(br.x, br.y, br.w, br.h);
      PaintQuadrants(g, g1, g2, g3, Grid(), r);
    }

    /**
     * `run`: split the whole image. Every pixel of the result then holds the
     * truncated mean of the one leaf holding it, whatever it held before.
     */
    method Run() returns (result: array2<int>)
      requires Valid() && minSize >= 1 && h >= 1 && w >= 1
      modifies resultImage
      ensures result == resultImage
      ensures Grid() == Paint(old(Grid()), Rect(0, 0, w, h))
      ensures forall y, x :: 0 <= y < h && 0 <= x < w ==>
                result[y, x] == LeafValue(LeafOf(Rect(0, 0, w, h), x, y)) && 0 <= result[y, x] <= 255
    {
      Split(0, 0, w, h);
      result := resultImage;
      forall y, x | 0 <= y < h && 0 <= x < w
        ensures result[y, x] == LeafValue(LeafOf(Rect(0, 0, w, h), x, y)) && 0 <= result[y, x] <= 255
      {
        assert Grid()[y][x] == result[y, x];
        LeavesTile(Rect(0, 0, w, h), x, y);
        LeafValueIsByte(LeafOf(Rect(0, 0, w, h), x, y));
      }
    }
  }
}
