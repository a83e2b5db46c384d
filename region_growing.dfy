/**
 * region_growing.py: seeded region growing. A breadth-first flood from a seed
 * pixel marks with 255, in the grower's output image, every pixel reachable
 * through 8-neighbours whose intensity is within `threshold` of the seed's.
 * The output image doubles as the visited set.
 *
 * Coordinates follow the source: a pixel is (x, y) = (column, row) and the
 * images are indexed [y][x].
 */
module RegionGrowing {
  import opened Common

  type Pixel = (int, int)

  /** Two distinct pixels that touch, edge or corner: the 8-neighbourhood. */
  predicate Adjacent(a: Pixel, b: Pixel) {
    a != b && AbsInt(a.0 - b.0) <= 1 && AbsInt(a.1 - b.1) <= 1
  }

  /** Row-major (x first, then y) order of the offsets loop. */
  predicate Before(a: Pixel, b: Pixel) {
    a.0 < b.0 || (a.0 == b.0 && a.1 < b.1)
  }

  ghost predicate StrictlyOrdered(ns: seq<Pixel>) {
    forall k, l :: 0 <= k < l < |ns| ==> Before(ns[k], ns[l])
  }

  /** path steps through 8-neighbours from its first pixel to its last and stays inside s. */
  ghost predicate PathWithin(path: seq<Pixel>, s: set<Pixel>) {
    && |path| > 0
    && (forall k :: 0 <= k < |path| ==> path[k] in s)
    && (forall k :: 0 <= k < |path| - 1 ==> Adjacent(path[k], path[k + 1]))
  }

  /** p is reached from the seed by a path of 8-neighbours lying inside s. */
  ghost predicate ReachedWithin(seed: Pixel, p: Pixel, s: set<Pixel>) {
    exists path :: PathWithin(path, s) && path[0] == seed && path[|path| - 1] == p
  }

  /** Growing the set keeps every path inside it. */
  lemma ReachedGrows(seed: Pixel, p: Pixel, s: set<Pixel>, s': set<Pixel>)
    requires ReachedWithin(seed, p, s) && s <= s'
    ensures ReachedWithin(seed, p, s')
  {
    var path :| PathWithin(path, s) && path[0] == seed && path[|path| - 1] == p;
    assert PathWithin(path, s');
  }

  /** A path to m, extended by a neighbour n of m, reaches n. */
  lemma ReachedStep(seed: Pixel, m: Pixel, n: Pixel, s: set<Pixel>)
    requires ReachedWithin(seed, m, s) && Adjacent(m, n)
    ensures ReachedWithin(seed, n, s + {n})
  {
    var path :| PathWithin(path, s) && path[0] == seed && path[|path| - 1] == m;
    var path' := path + [n];
    assert PathWithin(path', s + {n});
  }

  /**
   * The connectivity of the flood: every marked pixel is reached from the
   * seed through marked pixels, and every queued pixel is the seed or a
   * neighbour of a marked pixel.
   */
  ghost predicate Linked(seed: Pixel, q: seq<Pixel>, marked: set<Pixel>) {
    && (forall p :: p in marked ==> ReachedWithin(seed, p, marked))
    && (forall k :: 0 <= k < |q| ==> q[k] == seed || TouchesMarked(q[k], marked))
  }

  ghost predicate TouchesMarked(n: Pixel, marked: set<Pixel>) {
    exists m :: m in marked && Adjacent(m, n)
  }

  /** Popping the head keeps the flood connected. */
  lemma SkipKeepsLinked(seed: Pixel, q: seq<Pixel>, marked: set<Pixel>)
    requires |q| > 0 && Linked(seed, q, marked)
    ensures Linked(seed, q[1..], marked)
  {
    forall k | 0 <= k < |q| - 1 ensures q[1..][k] == seed || TouchesMarked(q[1..][k], marked) {
      assert q[1..][k] == q[k + 1];
    }
  }

  /** Marking the head c and queueing neighbours of c keeps the flood connected. */
  lemma MarkKeepsLinked(seed: Pixel, q: seq<Pixel>, q': seq<Pixel>, marked: set<Pixel>)
    requires |q| > 0 && Linked(seed, q, marked)
    requires |q'| >= |q| - 1 && q'[..|q| - 1] == q[1..]
    requires forall k :: |q| - 1 <= k < |q'| ==> Adjacent(q[0], q'[k])
    ensures Linked(seed, q', marked + {q[0]})
  {
    var c, s' := q[0], marked + {q[0]};
    assert c == seed || TouchesMarked(c, marked);
    forall p | p in s' ensures ReachedWithin(seed, p, s') {
      if p == c {
        if c == seed {
          assert PathWithin([seed], s');
        } else {
          var m :| m in marked && Adjacent(m, c);
          ReachedStep(seed, m, c, marked);
        }
      } else {
        ReachedGrows(seed, p, marked, s');
      }
    }
    forall k | 0 <= k < |q'| ensures q'[k] == seed || TouchesMarked(q'[k], s') {
      if k < |q| - 1 {
        assert q'[k] == q[k + 1];
        if q'[k] != seed {
          var m :| m in marked && Adjacent(m, q'[k]);
          assert m in s';
        }
      } else {
        assert c in s' && Adjacent(c, q'[k]);
      }
    }
  }

  /** How many neighbour slots the offset loops have visited before offset (dx, dy), not counting (0, 0). */
  function Slots(dx: int, dy: int): int {
    3 * (dx + 1) + (dy + 1) - (if dx > 0 || (dx == 0 && dy > 0) then 1 else 0)
  }

  class RegionGrower {
    const img: seq<seq<int>>
    const h: nat
    const w: nat
    const threshold: real
    /** The segmentation result, written in place by every call of RegionGrowing. */
    const output: array2<int>

    predicate Valid() {
      IsGrid(img, h, w) && output.Length0 == h && output.Length1 == w
    }

    predicate InImage(p: Pixel) {
      0 <= p.0 < w && 0 <= p.1 < h
    }

    /** The similarity criterion: the pixel's intensity is within `threshold` of the seed's. */
    predicate Similar(p: Pixel, seedVal: real)
      requires Valid() && InImage(p)
    {
      AbsReal(img[p.1][p.0] as real - seedVal) <= threshold
    }

    /** `__init__` on an already-read image: the output starts all zero. */
    constructor (img: seq<seq<int>>, h: nat, w: nat, threshold: real)
      requires IsGrid(img, h, w)
      ensures Valid()
      ensures this.img == img && this.h == h && this.w == w && this.threshold == threshold
      ensures fresh(output)
      ensures forall y, x :: 0 <= y < h && 0 <= x < w ==> output[y, x] == 0
    {
      this.img := img;
      this.h := h;
      this.w := w;
      this.threshold := threshold;
      output := new int[h, w]((y, x) => 0);
    }

    /** Every listed pixel is an in-image neighbour of (x, y) that comes before b. */
    ghost predicate ListedBefore(x: int, y: int, ns: seq<Pixel>, b: Pixel) {
      forall k :: 0 <= k < |ns| ==> InImage(ns[k]) && Adjacent((x, y), ns[k]) && Before(ns[k], b)
    }

    /** Every in-image neighbour of (x, y) that comes before b is listed. */
    ghost predicate CompleteBefore(x: int, y: int, ns: seq<Pixel>, b: Pixel) {
      forall p :: InImage(p) && Adjacent((x, y), p) && Before(p, b) ==> p in ns
    }

    /** ns lists in-image 8-neighbours of c, and all of them. */
    ghost predicate NeighborhoodOf(c: Pixel, ns: seq<Pixel>) {
      (forall k :: 0 <= k < |ns| ==> InImage(ns[k]) && Adjacent(c, ns[k])) &&
      (forall p :: InImage(p) && Adjacent(c, p) ==> p in ns)
    }

    /** The offsets (dx, -1), (dx, 0), (dx, 1) of `get_8_neighbors`, appended in that order. */
    method AddColumn(x: int, y: int, dx: int, neighbors: seq<Pixel>) returns (neighbors': seq<Pixel>)
      requires -1 <= dx <= 1
      requires ListedBefore(x, y, neighbors, (x + dx, y - 1))
      requires CompleteBefore(x, y, neighbors, (x + dx, y - 1))
      requires StrictlyOrdered(neighbors)
      requires |neighbors| <= Slots(dx, -1)
      ensures ListedBefore(x, y, neighbors', (x + dx + 1, y - 1))
      ensures CompleteBefore(x, y, neighbors', (x + dx + 1, y - 1))
      ensures StrictlyOrdered(neighbors')
      ensures |neighbors'| <= Slots(dx + 1, -1)
    {
      neighbors' := neighbors;
      for dy := -1 to 2
        invariant ListedBefore(x, y, neighbors', (x + dx, y + dy))
        invariant CompleteBefore(x, y, neighbors', (x + dx, y + dy))
        invariant StrictlyOrdered(neighbors')
        invariant |neighbors'| <= Slots(dx, dy)
      {
        if dx == 0 && dy == 0 {
          continue;
        }
        var nx, ny := x + dx, y + dy;
        if 0 <= nx < w && 0 <= ny < h {
          neighbors' := neighbors' + [(nx, ny)];
        }
      }
    }

    /**
     * `get_8_neighbors`: the in-image 8-neighbours of (x, y), all of them,
     * each once, never (x, y) itself, hence at most 8.
     */
    method Get8Neighbors(x: int, y: int) returns (neighbors: seq<Pixel>)
      ensures NeighborhoodOf((x, y), neighbors)
      ensures forall k, l :: 0 <= k < l < |neighbors| ==> neighbors[k] != neighbors[l]
      ensures |neighbors| <= 8
    {
      neighbors := [];
      for dx := -1 to 2
        invariant ListedBefore(x, y, neighbors, (x + dx, y - 1))
        invariant CompleteBefore(x, y, neighbors, (x + dx, y - 1))
        invariant StrictlyOrdered(neighbors)
        invariant |neighbors| <= Slots(dx, -1)
      {
        neighbors := AddColumn(x, y, dx, neighbors);
      }
    }

    /** `seed_val`: the seed's intensity, the reference of the similarity criterion. */
    function SeedValue(seed: Pixel): real
      requires Valid() && InImage(seed)
    {
      img[seed.1][seed.0] as real
    }

    /** The output image as a value, `Grid()[y][x] == output[y, x]`. */
    ghost function Grid(): (g: seq<seq<int>>)
      requires Valid()
      reads output
      ensures IsGrid(g, h, w)
    {
      seq(h, y requires 0 <= y < h reads output => seq(w, x requires 0 <= x < w reads output => output[y, x]))
    }

    ghost predicate IsOutput(g: seq<seq<int>>) {
      IsGrid(g, h, w)
    }

    /** The pixels that `after` marks with 255 and `before` did not. */
    ghost function NewlyMarked(before: seq<seq<int>>, after: seq<seq<int>>): set<Pixel>
      requires IsOutput(before) && IsOutput(after)
    {
      set x, y | 0 <= x < w && 0 <= y < h && before[y][x] != 255 && after[y][x] == 255 :: (x, y)
    }

    /** From `before` to `after` entries only turn from non-255 into 255. */
    ghost predicate OnlyMarks(before: seq<seq<int>>, after: seq<seq<int>>)
      requires IsOutput(before) && IsOutput(after)
    {
      forall y, x :: 0 <= y < h && 0 <= x < w ==>
        after[y][x] == before[y][x] || (before[y][x] != 255 && after[y][x] == 255)
    }

    /** Every in-image 8-neighbour of p similar to the seed is marked in g or waits in the queue q. */
    ghost predicate NeighborsCovered(g: seq<seq<int>>, p: Pixel, seedVal: real, q: seq<Pixel>)
      requires Valid() && IsOutput(g)
    {
      forall n :: InImage(n) && Adjacent(p, n) && Similar(n, seedVal) ==> g[n.1][n.0] == 255 || n in q
    }

    /** The bookkeeping of the flood: `marked` is exactly what changed from `before` to g, each change a new 255. */
    ghost predicate Tracks(before: seq<seq<int>>, g: seq<seq<int>>, marked: set<Pixel>)
      requires IsOutput(before) && IsOutput(g)
    {
      (forall p :: p in marked ==> InImage(p) && before[p.1][p.0] != 255 && g[p.1][p.0] == 255) &&
      (forall y, x :: 0 <= y < h && 0 <= x < w ==> g[y][x] == before[y][x] || (x, y) in marked)
    }

    /** Every queued pixel lies in the image and is the seed or similar to it. */
    ghost predicate QueueOk(q: seq<Pixel>, seed: Pixel, seedVal: real)
      requires Valid()
    {
      forall k :: 0 <= k < |q| ==> InImage(q[k]) && (q[k] == seed || Similar(q[k], seedVal))
    }

    /** The invariant of the flood loop, over values only. */
    ghost predicate Flooding(before: seq<seq<int>>, g: seq<seq<int>>, seed: Pixel, seedVal: real,
                             q: seq<Pixel>, marked: set<Pixel>, unmarked: set<Pixel>)
      requires Valid() && IsOutput(before) && IsOutput(g)
    {
      && (forall p :: InImage(p) && g[p.1][p.0] != 255 ==> p in unmarked)
      && Tracks(before, g, marked)
      && QueueOk(q, seed, seedVal)
      && (forall p :: p in marked ==> p == seed || Similar(p, seedVal))
      && (forall p :: p in marked ==> NeighborsCovered(g, p, seedVal, q))
      && (InImage(seed) && before[seed.1][seed.0] == 255 ==> marked == {} && (q == [] || q == [seed]))
      && InImage(seed) && (g[seed.1][seed.0] == 255 || q == [seed])
    }

    /** Popping an already-marked pixel keeps the invariant. */
    lemma SkipKeepsFlooding(before: seq<seq<int>>, g: seq<seq<int>>, seed: Pixel, seedVal: real,
                            q: seq<Pixel>, marked: set<Pixel>, unmarked: set<Pixel>)
      requires Valid() && IsOutput(before) && IsOutput(g) && |q| > 0
      requires Flooding(before, g, seed, seedVal, q, marked, unmarked)
      requires InImage(q[0]) && g[q[0].1][q[0].0] == 255
      ensures Flooding(before, g, seed, seedVal, q[1..], marked, unmarked)
    {
      forall p | p in marked ensures NeighborsCovered(g, p, seedVal, q[1..]) {
        assert NeighborsCovered(g, p, seedVal, q);
        forall n | InImage(n) && Adjacent(p, n) && Similar(n, seedVal) && g[n.1][n.0] != 255
          ensures n in q[1..]
        {
          assert n in q && n != q[0];
        }
      }
      if InImage(seed) && before[seed.1][seed.0] == 255 {
        assert q == [seed];
      }
    }

    /** Marking the popped pixel c and queueing its similar unmarked neighbours keeps the invariant. */
    lemma MarkKeepsFlooding(before: seq<seq<int>>, g: seq<seq<int>>, g': seq<seq<int>>, seed: Pixel, seedVal: real,
                            q: seq<Pixel>, q': seq<Pixel>, neighbors: seq<Pixel>, marked: set<Pixel>, unmarked: set<Pixel>)
      requires Valid() && IsOutput(before) && IsOutput(g) && IsOutput(g') && |q| > 0
      requires Flooding(before, g, seed, seedVal, q, marked, unmarked)
      requires InImage(q[0]) && g[q[0].1][q[0].0] != 255
      requires g' == g[q[0].1 := g[q[0].1][q[0].0 := 255]]
      requires NeighborhoodOf(q[0], neighbors)
      requires Queued(q[1..], q', neighbors, g', seedVal)
      ensures Flooding(before, g', seed, seedVal, q', marked + {q[0]}, unmarked - {q[0]})
      ensures |marked + {q[0]}| == |marked| + 1 && |unmarked - {q[0]}| < |unmarked|
    {
      var c := q[0];
      MarkKeepsTracks(before, g, g', c, marked, unmarked);
      MarkKeepsCover(g, g', seedVal, q, q', neighbors, marked);
      MarkKeepsQueue(seed, seedVal, q, q', neighbors, g');
    }

    /** Marking an unmarked pixel c moves it from the unmarked to the marked bookkeeping set. */
    lemma MarkKeepsTracks(before: seq<seq<int>>, g: seq<seq<int>>, g': seq<seq<int>>, c: Pixel,
                          marked: set<Pixel>, unmarked: set<Pixel>)
      requires Valid() && IsOutput(before) && IsOutput(g) && IsOutput(g') && InImage(c)
      requires Tracks(before, g, marked) && g[c.1][c.0] != 255
      requires forall p :: InImage(p) && g[p.1][p.0] != 255 ==> p in unmarked
      requires g' == g[c.1 := g[c.1][c.0 := 255]]
      ensures Tracks(before, g', marked + {c})
      ensures forall p :: InImage(p) && g'[p.1][p.0] != 255 ==> p in unmarked - {c}
      ensures |marked + {c}| == |marked| + 1 && |unmarked - {c}| < |unmarked|
    {
      assert c in unmarked && c !in marked;
    }

    /** After marking the head c: the neighbours of c and of every earlier mark stay covered. */
    lemma MarkKeepsCover(g: seq<seq<int>>, g': seq<seq<int>>, seedVal: real,
                         q: seq<Pixel>, q': seq<Pixel>, neighbors: seq<Pixel>, marked: set<Pixel>)
      requires Valid() && IsOutput(g) && IsOutput(g') && |q| > 0 && InImage(q[0])
      requires forall p :: p in marked ==> NeighborsCovered(g, p, seedVal, q)
      requires g' == g[q[0].1 := g[q[0].1][q[0].0 := 255]]
      requires NeighborhoodOf(q[0], neighbors)
      requires Queued(q[1..], q', neighbors, g', seedVal)
      ensures forall p :: p in marked + {q[0]} ==> NeighborsCovered(g', p, seedVal, q')
    {
      var c := q[0];
      forall n | n in q ensures n == c || n in q' {
        if n != c {
          var k :| 0 <= k < |q| && q[k] == n;
          assert q'[k - 1] == q[1..][k - 1];
        }
      }
      forall p | p in marked + {c} ensures NeighborsCovered(g', p, seedVal, q') {
        if p != c {
          assert NeighborsCovered(g, p, seedVal, q);
        }
      }
    }

    /** The queue after the neighbour loop still holds only in-image pixels similar to the seed (or the seed). */
    lemma MarkKeepsQueue(seed: Pixel, seedVal: real, q: seq<Pixel>, q': seq<Pixel>, neighbors: seq<Pixel>, g': seq<seq<int>>)
      requires Valid() && IsOutput(g') && |q| > 0
      requires QueueOk(q, seed, seedVal)
      requires Queued(q[1..], q', neighbors, g', seedVal)
      ensures QueueOk(q', seed, seedVal)
    {
      forall k | 0 <= k < |q'| ensures InImage(q'[k]) && (q'[k] == seed || Similar(q'[k], seedVal)) {
        if k < |q| - 1 {
          assert q'[k] == q[k + 1];
        }
      }
    }

    /** Before the first pop: nothing marked, the seed alone queued. */
    lemma FloodStart(before: seq<seq<int>>, seed: Pixel, unmarked: set<Pixel>)
      requires Valid() && IsOutput(before) && InImage(seed)
      requires unmarked == set x, y | 0 <= x < w && 0 <= y < h && before[y][x] != 255 :: (x, y)
      ensures Flooding(before, before, seed, SeedValue(seed), [seed], {}, unmarked)
    {
      forall p | InImage(p) && before[p.1][p.0] != 255 ensures p in unmarked {
        assert p == (p.0, p.1);
      }
    }

    /** Once the queue is empty, the invariant gives the promises of `region_growing`. */
    lemma FloodDone(before: seq<seq<int>>, g: seq<seq<int>>, seed: Pixel, seedVal: real,
                    marked: set<Pixel>, unmarked: set<Pixel>)
      requires Valid() && IsOutput(before) && IsOutput(g)
      requires Flooding(before, g, seed, seedVal, [], marked, unmarked)
      ensures OnlyMarks(before, g)
      ensures marked == NewlyMarked(before, g)
      ensures InImage(seed) && before[seed.1][seed.0] == 255 ==> marked == {} && g == before
      ensures forall p :: p in NewlyMarked(before, g) && p != seed ==> Similar(p, seedVal)
      ensures forall p :: p in NewlyMarked(before, g) ==> NeighborsCovered(g, p, seedVal, [])
      ensures g[seed.1][seed.0] == 255
    {
      assert marked == NewlyMarked(before, g);
      if InImage(seed) && before[seed.1][seed.0] == 255 {
        forall y | 0 <= y < h ensures g[y] == before[y] {
          assert forall x :: 0 <= x < w ==> g[y][x] == before[y][x];
        }
      }
    }

    /**
     * q' is q followed by neighbours that are unmarked in g and similar to
     * the seed, and holds every such neighbour.
     */
    ghost predicate Queued(q: seq<Pixel>, q': seq<Pixel>, neighbors: seq<Pixel>, g: seq<seq<int>>, seedVal: real)
      requires Valid() && IsOutput(g)
    {
      && |q| <= |q'| <= |q| + |neighbors|
      && q'[..|q|] == q
      && (forall k :: |q| <= k < |q'| ==>
            q'[k] in neighbors && InImage(q'[k]) && g[q'[k].1][q'[k].0] != 255 && Similar(q'[k], seedVal))
      && (forall n :: n in neighbors ==> InImage(n) && (g[n.1][n.0] != 255 && Similar(n, seedVal) ==> n in q'))
    }

    /**
     * The neighbour loop of `region_growing`: each neighbour not yet marked
     * and similar to the seed is queued, in order; the rest are skipped.
     */
    method QueueSimilarNeighbors(neighbors: seq<Pixel>, seedVal: real, q: seq<Pixel>) returns (q': seq<Pixel>)
      requires Valid() && forall k :: 0 <= k < |neighbors| ==> InImage(neighbors[k])
      ensures Queued(q, q', neighbors, Grid(), seedVal)
    {
      q' := q;
      for k := 0 to |neighbors|
        invariant |q| <= |q'| <= |q| + k
        invariant q'[..|q|] == q
        invariant forall m :: |q| <= m < |q'| ==>
                    q'[m] in neighbors && InImage(q'[m]) && Grid()[q'[m].1][q'[m].0] != 255 && Similar(q'[m], seedVal)
        invariant forall m :: (0 <= m < k && Grid()[neighbors[m].1][neighbors[m].0] != 255 &&
                               Similar(neighbors[m], seedVal)) ==> neighbors[m] in q'
      {
        var (nx, ny) := neighbors[k];
        if output[ny, nx] == 255 {
          continue;
        }
        var pixelVal := img[ny][nx] as real;
        if AbsReal(pixelVal - seedVal) <= threshold {
          q' := q' + [(nx, ny)];
        }
      }
    }

    /** `self.output[cy, cx] = 255`. */
    method MarkPixel(c: Pixel)
      requires Valid() && InImage(c)
      modifies output
      ensures Grid() == old(Grid())[c.1 := old(Grid())[c.1][c.0 := 255]]
    {
      ghost var g := Grid();
      output[c.1, c.0] := 255;
      ghost var g' := g[c.1 := g[c.1][c.0 := 255]];
      forall y | 0 <= y < h ensures Grid()[y] == g'[y] {
        assert forall x :: 0 <= x < w ==> Grid()[y][x] == g'[y][x];
      }
    }

    /**
     * One round of the flood loop: pop the head of the queue; skip it when
     * already marked, otherwise mark it and queue its similar unmarked
     * neighbours. `grew` says whether a pixel was marked.
     */
    method Visit(seed: Pixel, seedVal: real, q: seq<Pixel>, ghost before: seq<seq<int>>,
                 ghost marked: set<Pixel>, ghost unmarked: set<Pixel>)
      returns (q': seq<Pixel>, grew: bool, ghost marked': set<Pixel>, ghost unmarked': set<Pixel>)
      requires Valid() && IsOutput(before) && |q| > 0
      requires Flooding(before, Grid(), seed, seedVal, q, marked, unmarked)
      requires Linked(seed, q, marked)
      modifies output
      ensures Flooding(before, Grid(), seed, seedVal, q', marked', unmarked')
      ensures Linked(seed, q', marked')
      ensures |marked'| == |marked| + (if grew then 1 else 0)
      ensures |unmarked'| < |unmarked| || (unmarked' == unmarked && |q'| < |q|)
    {
      var c := q[0];
      if output[c.1, c.0] == 255 {
        assert Grid()[c.1][c.0] == 255;
        SkipKeepsFlooding(before, Grid(), seed, seedVal, q, marked, unmarked);
        SkipKeepsLinked(seed, q, marked);
        q', grew, marked', unmarked' := q[1..], false, marked, unmarked;
        return;
      }
      ghost var g := Grid();
      MarkPixel(c);
      var neighbors := Get8Neighbors(c.0, c.1);
      q' := QueueSimilarNeighbors(neighbors, seedVal, q[1..]);
      MarkKeepsFlooding(before, g, Grid(), seed, seedVal, q, q', neighbors, marked, unmarked);
      MarkKeepsLinked(seed, q, q', marked);
      grew, marked', unmarked' := true, marked + {c}, unmarked - {c};
    }

    /**
     * `region_growing`: breadth-first flood from the seed. Output entries
     * only ever turn from non-255 into 255; `count` is the number of pixels
     * this call marked; a seed already marked changes nothing; every newly
     * marked pixel other than the seed is similar to the seed; and every
     * similar 8-neighbour of a newly marked pixel ends up marked. The flood
     * stays connected: every newly marked pixel is reached from the seed by
     * a path of 8-neighbours that were all newly marked.
     */
    method RegionGrowing(seed: Pixel) returns (count: nat)
      requires Valid() && InImage(seed)
      modifies output
      ensures OnlyMarks(old(Grid()), Grid())
      ensures count == |NewlyMarked(old(Grid()), Grid())|
      ensures old(output[seed.1, seed.0]) == 255 ==> count == 0 && Grid() == old(Grid())
      ensures forall p :: p in NewlyMarked(old(Grid()), Grid()) && p != seed ==> Similar(p, SeedValue(seed))
      ensures forall p :: p in NewlyMarked(old(Grid()), Grid()) ==> NeighborsCovered(Grid(), p, SeedValue(seed), [])
      ensures output[seed.1, seed.0] == 255
      ensures forall p :: p in NewlyMarked(old(Grid()), Grid()) ==> ReachedWithin(seed, p, NewlyMarked(old(Grid()), Grid()))
    {
      var seedVal := img[seed.1][seed.0] as real;
      var q := [seed];
      count := 0;
      ghost var before := Grid();
      assert seedVal == SeedValue(seed);
      ghost var marked: set<Pixel> := {};
      ghost var unmarked := set x, y | 0 <= x < w && 0 <= y < h && before[y][x] != 255 :: (x, y);
      FloodStart(before, seed, unmarked);
      while |q| > 0
        invariant Flooding(before, Grid(), seed, seedVal, q, marked, unmarked)
        invariant Linked(seed, q, marked)
        invariant count == |marked|
        decreases |unmarked|, |q|
      {
        var grew;
        q, grew, marked, unmarked := Visit(seed, seedVal, q, before, marked, unmarked);
        if grew {
          count := count + 1;
        }
      }
      FloodDone(before, Grid(), seed, seedVal, marked, unmarked);
    }
  }
}
