/**
 * canny_edge_detection.py, `non_max_suppression`: negative gradient
 * directions are folded into [0, 180) in place, and every interior pixel of
 * the gradient magnitude survives only if it is at least as large as its two
 * neighbours along the quantised gradient direction. The result is `nms_img`
 * before its conversion to 8 bits.
 *
 * The magnitude field is a read-only grid of reals; the angle array, which
 * the code changes in place, is an `array2`.
 */
module CannyNms {
  import opened Common

  /** The four quantised gradient directions, and the case of an angle outside [0, 180]. */
  datatype Sector = Horizontal | Rising | Vertical | Falling | Unsectored

  /** `angle_deg[angle_deg < 0] += 180` on one entry. */
  function Fold(a: real): real {
    if a < 0.0 then a + 180.0 else a
  }

  /** The sector chosen by the chain of range tests. */
  function SectorOf(a: real): Sector {
    if (0.0 <= a < 22.5) || (157.5 <= a <= 180.0) then Horizontal
    else if 22.5 <= a < 67.5 then Rising
    else if 67.5 <= a < 112.5 then Vertical
    else if 112.5 <= a < 157.5 then Falling
    else Unsectored
  }

  /** The four ranges cover exactly the angles of [0, 180]. */
  lemma SectorsCoverHalfTurn(a: real)
    ensures SectorOf(a) != Unsectored <==> 0.0 <= a <= 180.0
  {
  }

  /** An angle produced by `cv2.phase`'s signed counterpart, in [-180, 180], folds into [0, 180] onto the same line. */
  lemma FoldRange(a: real)
    requires -180.0 <= a <= 180.0
    ensures 0.0 <= Fold(a) <= 180.0
    ensures Fold(a) == a || Fold(a) == a + 180.0
    ensures SectorOf(Fold(a)) != Unsectored
  {
    SectorsCoverHalfTurn(Fold(a));
  }

  predicate Interior(h: int, w: int, i: int, j: int) {
    1 <= i < h - 1 && 1 <= j < w - 1
  }

  /** `(q, r)`: the two magnitudes the pixel is compared with; 255 for both when no sector matches. */
  function Comparands(mag: seq<seq<real>>, h: int, w: int, i: int, j: int, a: real): (real, real)
    requires IsGrid(mag, h, w) && Interior(h, w, i, j)
  {
    match SectorOf(a)
    case Horizontal => (mag[i][j + 1], mag[i][j - 1])
    case Rising => (mag[i + 1][j - 1], mag[i - 1][j + 1])
    case Vertical => (mag[i + 1][j], mag[i - 1][j])
    case Falling => (mag[i - 1][j - 1], mag[i + 1][j + 1])
    case Unsectored => (255.0, 255.0)
  }

  /** The value `nms_img[i, j]` receives at an interior pixel whose (folded) angle is a. */
  function NmsValue(mag: seq<seq<real>>, h: int, w: int, i: int, j: int, a: real): (v: real)
    requires IsGrid(mag, h, w) && Interior(h, w, i, j)
    ensures v == mag[i][j] || v == 0.0
  {
    var (q, r) := Comparands(mag, h, w, i, j, a);
    if mag[i][j] >= q && mag[i][j] >= r then mag[i][j] else 0.0
  }

  /** The value of `nms_img[i, j]` on return: border pixels keep the zero of `np.zeros`. */
  function NmsAt(mag: seq<seq<real>>, h: int, w: int, i: int, j: int, a: real): real
    requires IsGrid(mag, h, w)
  {
    if Interior(h, w, i, j) then NmsValue(mag, h, w, i, j, a) else 0.0
  }

  // ----- what suppression means -----

  /** One step along the gradient line of a sector, as a (row, column) offset. */
  function Direction(s: Sector): (d: (int, int))
    requires s != Unsectored
    ensures d != (0, 0) && -1 <= d.0 <= 1 && -1 <= d.1 <= 1
  {
    match s
    case Horizontal => (0, 1)
    case Rising => (1, -1)
    case Vertical => (1, 0)
    case Falling => (1, 1)
  }

  /** Pixel (i, j) is at least as large as both its neighbours one step either way along d. */
  predicate LocalMaxAlong(mag: seq<seq<real>>, h: int, w: int, i: int, j: int, d: (int, int))
    requires IsGrid(mag, h, w) && Interior(h, w, i, j) && -1 <= d.0 <= 1 && -1 <= d.1 <= 1
  {
    mag[i][j] >= mag[i + d.0][j + d.1] && mag[i][j] >= mag[i - d.0][j - d.1]
  }

  /**
   * An interior pixel keeps its magnitude exactly when it is a local maximum
   * along its sector's gradient line, and is zeroed otherwise; with no
   * sector it is kept only at a magnitude of at least 255.
   */
  lemma NmsMeaning(mag: seq<seq<real>>, h: int, w: int, i: int, j: int, a: real)
    requires IsGrid(mag, h, w) && Interior(h, w, i, j)
    ensures SectorOf(a) != Unsectored ==>
              NmsValue(mag, h, w, i, j, a) == if LocalMaxAlong(mag, h, w, i, j, Direction(SectorOf(a))) then mag[i][j] else 0.0
    ensures SectorOf(a) == Unsectored ==>
              NmsValue(mag, h, w, i, j, a) == if mag[i][j] >= 255.0 then mag[i][j] else 0.0
  {
  }

  /**
   * Suppression thins edges: of two neighbouring pixels along the gradient
   * line they share, both keep a non-zero magnitude only if the magnitudes are equal.
   */
  lemma ThinAlongGradient(mag: seq<seq<real>>, h: int, w: int, i: int, j: int, a: real, b: real)
    requires IsGrid(mag, h, w) && SectorOf(a) != Unsectored && SectorOf(a) == SectorOf(b)
    requires Interior(h, w, i, j)
    requires var d := Direction(SectorOf(a)); Interior(h, w, i + d.0, j + d.1)
    requires NmsValue(mag, h, w, i, j, a) != 0.0
    requires var d := Direction(SectorOf(a)); NmsValue(mag, h, w, i + d.0, j + d.1, b) != 0.0
    ensures var d := Direction(SectorOf(a)); mag[i][j] == mag[i + d.0][j + d.1]
  {
    var d := Direction(SectorOf(a));
    NmsMeaning(mag, h, w, i, j, a);
    NmsMeaning(mag, h, w, i + d.0, j + d.1, b);
    assert (i + d.0) - d.0 == i && (j + d.1) - d.1 == j;
  }

  /** No pixel of the 3 x 3 neighbourhood of (i, j) is larger than (i, j). */
  ghost predicate NeighbourhoodPeak(mag: seq<seq<real>>, h: int, w: int, i: int, j: int)
    requires IsGrid(mag, h, w) && Interior(h, w, i, j)
  {
    forall ii, jj :: i - 1 <= ii <= i + 1 && j - 1 <= jj <= j + 1 ==> mag[i][j] >= mag[ii][jj]
  }

  // ----- angles from `cv2.phase` -----

  /**
   * The caller passes `cv2.phase` angles, which lie in [0, 360). Folding only
   * the negative ones leaves every angle of (180, 360) without a sector, so
   * such a pixel is compared with 255 and is zeroed below that magnitude,
   * even at a peak of its neighbourhood.
   */
  lemma PhaseAsWrittenSuppressesPeaks(mag: seq<seq<real>>, h: int, w: int, i: int, j: int, a: real)
    requires IsGrid(mag, h, w) && Interior(h, w, i, j)
    requires 180.0 < a < 360.0 && 0.0 < mag[i][j] < 255.0
    ensures NeighbourhoodPeak(mag, h, w, i, j) ==> NmsValue(mag, h, w, i, j, Fold(a)) == 0.0
    ensures NmsValue(mag, h, w, i, j, Fold(a)) != mag[i][j]
  {
    SectorsCoverHalfTurn(Fold(a));
    NmsMeaning(mag, h, w, i, j, Fold(a));
  }

  /** A single bright pixel of magnitude 100 on a dark 3 x 3 field. */
  const IsolatedPeak: seq<seq<real>> := [[0.0, 0.0, 0.0], [0.0, 100.0, 0.0], [0.0, 0.0, 0.0]]

  /** A gradient pointing straight up (`cv2.phase` 270): suppressed as written, kept once folded onto [0, 180]. */
  lemma IsolatedPeakAt270()
    ensures IsGrid(IsolatedPeak, 3, 3) && Interior(3, 3, 1, 1)
    ensures NeighbourhoodPeak(IsolatedPeak, 3, 3, 1, 1)
    ensures NmsValue(IsolatedPeak, 3, 3, 1, 1, Fold(270.0)) == 0.0
    ensures NmsValue(IsolatedPeak, 3, 3, 1, 1, FoldPhase(270.0)) == 100.0
  {
    var m := IsolatedPeak;
    assert IsGrid(m, 3, 3);
    forall ii, jj | 0 <= ii <= 2 && 0 <= jj <= 2 ensures m[1][1] >= m[ii][jj] {
      assert ii == 0 || ii == 1 || ii == 2;
    }
    PhaseAsWrittenSuppressesPeaks(m, 3, 3, 1, 1, 270.0);
    PeakKept(m, 3, 3, 1, 1, 270.0);
  }

  /** The intended fold: any angle of [-180, 360) onto the same gradient line within [0, 180]. */
  function FoldPhase(a: real): real {
    if a < 0.0 then a + 180.0 else if a > 180.0 then a - 180.0 else a
  }

  lemma FoldPhaseHasSector(a: real)
    requires -180.0 <= a < 360.0
    ensures 0.0 <= FoldPhase(a) <= 180.0
    ensures FoldPhase(a) == a || FoldPhase(a) == a + 180.0 || FoldPhase(a) == a - 180.0
    ensures SectorOf(FoldPhase(a)) != Unsectored
  {
    SectorsCoverHalfTurn(FoldPhase(a));
  }

  /** With the intended fold, a peak of its 3 x 3 neighbourhood is never suppressed, whatever its angle. */
  lemma PeakKept(mag: seq<seq<real>>, h: int, w: int, i: int, j: int, a: real)
    requires IsGrid(mag, h, w) && Interior(h, w, i, j) && -180.0 <= a < 360.0
    requires NeighbourhoodPeak(mag, h, w, i, j)
    ensures NmsValue(mag, h, w, i, j, FoldPhase(a)) == mag[i][j]
  {
    FoldPhaseHasSector(a);
    var d := Direction(SectorOf(FoldPhase(a)));
    NmsMeaning(mag, h, w, i, j, FoldPhase(a));
    assert mag[i][j] >= mag[i + d.0][j + d.1];
    assert mag[i][j] >= mag[i - d.0][j - d.1];
  }

  // ----- the procedure -----

  /**
   * `non_max_suppression(magnitude, angle_deg)`: folds the negative angles of
   * `angle_deg` in place, then fills a fresh zero array row by row over the
   * interior. Every index it reads is in bounds, so the `IndexError` handler
   * never runs.
   */
  method NonMaxSuppression(magnitude: seq<seq<real>>, angle: array2<real>) returns (nms: array2<real>)
    requires IsGrid(magnitude, angle.Length0, angle.Length1)
    modifies angle
    ensures forall i, j :: 0 <= i < angle.Length0 && 0 <= j < angle.Length1 ==> angle[i, j] == Fold(old(angle[i, j]))
    ensures fresh(nms) && nms.Length0 == angle.Length0 && nms.Length1 == angle.Length1
    ensures forall i, j :: 0 <= i < nms.Length0 && 0 <= j < nms.Length1 ==>
              nms[i, j] == NmsAt(magnitude, angle.Length0, angle.Length1, i, j, angle[i, j])
  {
    var h, w := angle.Length0, angle.Length1;
    nms := new real[h, w]((i, j) => 0.0);
    forall i, j | 0 <= i < h && 0 <= j < w && angle[i, j] < 0.0 {
      angle[i, j] := angle[i, j] + 180.0;
    }
    var i := 1;
    while i < h - 1
      modifies nms
      invariant 1 <= i && (i <= h - 1 || i == 1)
      invariant forall ii, jj :: 0 <= ii < h && 0 <= jj < w ==>
                  nms[ii, jj] == if ii < i then NmsAt(magnitude, h, w, ii, jj, angle[ii, jj]) else 0.0
    {
      SuppressRow(magnitude, angle, nms, i);
      i := i + 1;
    }
  }

  /** The inner loop of `non_max_suppression`: row i of `nms_img`, columns 1..N-2. */
  method SuppressRow(magnitude: seq<seq<real>>, angle: array2<real>, nms: array2<real>, i: int)
    requires nms != angle && nms.Length0 == angle.Length0 && nms.Length1 == angle.Length1
    requires IsGrid(magnitude, angle.Length0, angle.Length1) && 1 <= i < angle.Length0 - 1
    requires forall jj :: 0 <= jj < nms.Length1 ==> nms[i, jj] == 0.0
    modifies nms
    ensures forall ii, jj :: 0 <= ii < nms.Length0 && 0 <= jj < nms.Length1 ==>
              nms[ii, jj] == if ii == i then NmsAt(magnitude, nms.Length0, nms.Length1, ii, jj, angle[ii, jj]) else old(nms[ii, jj])
  {
    var h, w := nms.Length0, nms.Length1;
    var j := 1;
    while j < w - 1
      invariant 1 <= j && (j <= w - 1 || j == 1)
      invariant forall ii, jj :: 0 <= ii < h && 0 <= jj < w ==>
                  nms[ii, jj] == if ii == i && 1 <= jj < j then NmsValue(magnitude, h, w, ii, jj, angle[ii, jj]) else old(nms[ii, jj])
    {
      var a := angle[i, j];
      var q, r := 255.0, 255.0;
      if (0.0 <= a < 22.5) || (157.5 <= a <= 180.0) {
        q, r := magnitude[i][j + 1], magnitude[i][j - 1];
      } else if 22.5 <= a < 67.5 {
        q, r := magnitude[i + 1][j - 1], magnitude[i - 1][j + 1];
      } else if 67.5 <= a < 112.5 {
        q, r := magnitude[i + 1][j], magnitude[i - 1][j];
      } else if 112.5 <= a < 157.5 {
        q, r := magnitude[i - 1][j - 1], magnitude[i + 1][j + 1];
      }
      if magnitude[i][j] >= q && magnitude[i][j] >= r {
        nms[i, j] := magnitude[i][j];
      } else {
        nms[i, j] := 0.0;
      }
      j := j + 1;
    }
  }
}
