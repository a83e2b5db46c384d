/**
 * laplacian_edge_detection.py, the zero-crossing loop of `log_zero_crossing`:
 * a pixel of the Laplacian-of-Gaussian response is marked 255 when the
 * response changes sign, by more than a threshold, between it and its right
 * neighbour or between it and the pixel below. The smoothed response itself
 * (`cv2.GaussianBlur` then `cv2.Laplacian`) is an input field of reals.
 */
module LogZeroCrossing {
  import opened Common

  /** A sign change from `curr` to `other` whose jump exceeds the threshold. */
  predicate StrongCrossing(curr: real, other: real, threshold: real) {
    curr * other < 0.0 && AbsReal(curr - other) > threshold
  }

  /** The value `zc_img[r, c]` ends with. */
  function ZeroCrossingAt(resp: seq<seq<real>>, rows: int, cols: int, r: int, c: int, threshold: real): (v: int)
    requires IsGrid(resp, rows, cols) && 0 <= r < rows && 0 <= c < cols
    ensures v == 0 || v == 255
    ensures r == rows - 1 || c == cols - 1 ==> v == 0
  {
    if r < rows - 1 && c < cols - 1 &&
       (StrongCrossing(resp[r][c], resp[r][c + 1], threshold) || StrongCrossing(resp[r][c], resp[r + 1][c], threshold))
    then 255
    else 0
  }

  /** Opposite strict signs. */
  predicate OppositeSigns(a: real, b: real) {
    (a > 0.0 && b < 0.0) || (a < 0.0 && b > 0.0)
  }

  /** A negative product means opposite strict signs, and then the two values differ. */
  lemma NegativeProduct(a: real, b: real)
    ensures a * b < 0.0 <==> OppositeSigns(a, b)
    ensures OppositeSigns(a, b) ==> AbsReal(a - b) > 0.0
  {
    if a > 0.0 && b > 0.0 {
      assert a * b > 0.0;
    } else if a < 0.0 && b < 0.0 {
      assert a * b == (-a) * (-b);
      assert (-a) * (-b) > 0.0;
    } else if a > 0.0 && b < 0.0 {
      assert a * (-b) > 0.0;
    } else if a < 0.0 && b > 0.0 {
      assert (-a) * b > 0.0;
    } else {
      assert a == 0.0 || b == 0.0;
    }
  }

  /**
   * A marked pixel lies off the last row and column and has a response of
   * opposite sign to its right or below, with a jump there above the threshold;
   * and every such pixel is marked.
   */
  lemma MarkedMeaning(resp: seq<seq<real>>, rows: int, cols: int, r: int, c: int, threshold: real)
    requires IsGrid(resp, rows, cols) && 0 <= r < rows && 0 <= c < cols
    ensures ZeroCrossingAt(resp, rows, cols, r, c, threshold) == 255 <==>
              r < rows - 1 && c < cols - 1 &&
              ((OppositeSigns(resp[r][c], resp[r][c + 1]) && AbsReal(resp[r][c] - resp[r][c + 1]) > threshold) ||
               (OppositeSigns(resp[r][c], resp[r + 1][c]) && AbsReal(resp[r][c] - resp[r + 1][c]) > threshold))
  {
    if r < rows - 1 && c < cols - 1 {
      NegativeProduct(resp[r][c], resp[r][c + 1]);
      NegativeProduct(resp[r][c], resp[r + 1][c]);
    }
  }

  /** For a threshold of at most 0 the jump test always passes: marking is a pure sign change. */
  lemma NonPositiveThresholdIsSignChange(resp: seq<seq<real>>, rows: int, cols: int, r: int, c: int, threshold: real)
    requires IsGrid(resp, rows, cols) && 0 <= r < rows && 0 <= c < cols && threshold <= 0.0
    ensures ZeroCrossingAt(resp, rows, cols, r, c, threshold) == 255 <==>
              r < rows - 1 && c < cols - 1 &&
              (OppositeSigns(resp[r][c], resp[r][c + 1]) || OppositeSigns(resp[r][c], resp[r + 1][c]))
  {
    MarkedMeaning(resp, rows, cols, r, c, threshold);
    if r < rows - 1 && c < cols - 1 {
      NegativeProduct(resp[r][c], resp[r][c + 1]);
      NegativeProduct(resp[r][c], resp[r + 1][c]);
    }
  }

  /** Raising the threshold never marks a pixel that the lower threshold left unmarked. */
  lemma ThresholdMonotone(resp: seq<seq<real>>, rows: int, cols: int, r: int, c: int, low: real, high: real)
    requires IsGrid(resp, rows, cols) && 0 <= r < rows && 0 <= c < cols && low <= high
    ensures ZeroCrossingAt(resp, rows, cols, r, c, high) == 255 ==> ZeroCrossingAt(resp, rows, cols, r, c, low) == 255
  {
  }

  /** An all-zero response has no sign change anywhere, so nothing is marked. */
  lemma FlatResponseUnmarked(resp: seq<seq<real>>, rows: int, cols: int, r: int, c: int, threshold: real)
    requires IsGrid(resp, rows, cols) && 0 <= r < rows && 0 <= c < cols
    requires forall rr, cc :: 0 <= rr < rows && 0 <= cc < cols ==> resp[rr][cc] == 0.0
    ensures ZeroCrossingAt(resp, rows, cols, r, c, threshold) == 0
  {
    MarkedMeaning(resp, rows, cols, r, c, threshold);
  }

  /**
   * `log_zero_crossing` after the response is computed: a fresh zero image,
   * then every pixel off the last row and column is tested to the right and,
   * unless that marked it, below.
   */
  method ZeroCrossings(resp: seq<seq<real>>, rows: nat, cols: nat, threshold: real) returns (zc: array2<int>)
    requires IsGrid(resp, rows, cols)
    ensures fresh(zc) && zc.Length0 == rows && zc.Length1 == cols
    ensures forall r, c :: 0 <= r < rows && 0 <= c < cols ==> zc[r, c] == ZeroCrossingAt(resp, rows, cols, r, c, threshold)
  {
    zc := new int[rows, cols]((r, c) => 0);
    var r := 0;
    while r < rows - 1
      invariant 0 <= r && (r <= rows - 1 || r == 0)
      invariant forall rr, cc :: 0 <= rr < rows && 0 <= cc < cols ==>
                  zc[rr, cc] == if rr < r then ZeroCrossingAt(resp, rows, cols, rr, cc, threshold) else 0
    {
      MarkRow(resp, rows, cols, threshold, zc, r);
      r := r + 1;
    }
  }

  /** The inner loop over the columns of row r, with its early `continue`. */
  method MarkRow(resp: seq<seq<real>>, rows: nat, cols: nat, threshold: real, zc: array2<int>, r: int)
    requires IsGrid(resp, rows, cols) && zc.Length0 == rows && zc.Length1 == cols && 0 <= r < rows - 1
    requires forall cc :: 0 <= cc < cols ==> zc[r, cc] == 0
    modifies zc
    ensures forall rr, cc :: 0 <= rr < rows && 0 <= cc < cols ==>
              zc[rr, cc] == if rr == r then ZeroCrossingAt(resp, rows, cols, rr, cc, threshold) else old(zc[rr, cc])
  {
    var c := 0;
    while c < cols - 1
      invariant 0 <= c && (c <= cols - 1 || c == 0)
      invariant forall rr, cc :: 0 <= rr < rows && 0 <= cc < cols ==>
                  zc[rr, cc] == if rr == r && cc < c then ZeroCrossingAt(resp, rows, cols, rr, cc, threshold) else old(zc[rr, cc])
    {
      var curr := resp[r][c];
      var right := resp[r][c + 1];
      if curr * right < 0.0 {
        if AbsReal(curr - right) > threshold {
          zc[r, c] := 255;
          c := c + 1;
          continue;
        }
      }
      var bottom := resp[r + 1][c];
      if curr * bottom < 0.0 {
        if AbsReal(curr - bottom) > threshold {
          zc[r, c] := 255;
        }
      }
      c := c + 1;
    }
  }
}
