/**
 * RenderFrameAverage: pass one groups the pixels by nearest seed, keeping
 * per-seed channel totals and pixel counts in two maps; pass two paints each
 * pixel with the truncated mean of its seed's cell, fully opaque. Both passes
 * query the same tree, the function `nearest`.
 */
module Average {
  import opened Geometry
  import opened Imaging

  /** Channel totals of a cell (the model3d.Coord3D sums): red, green, blue. */
  datatype Rgb = Rgb(r: nat, g: nat, b: nat)
  {
    function Add(o: Rgb): Rgb
    {
      Rgb(r + o.r, g + o.g, b + o.b)
    }
  }

  const Zero := Rgb(0, 0, 0)

  /** The red, green and blue channels that RGBA() reports for a colour. */
  function Channels(c: Color): (t: Rgb)
  {
    Rgb(c.r, c.g, c.b)
  }

  // ---------------------------------------------------------------------------
  // Cells, in the order both passes visit the pixels: rows top to bottom,
  // each row left to right. Position (j, i) stands for "before pixel (j, i)".

  /** Pixel (x, y) of a grid dx wide is visited before position (j, i). */
  predicate Before(x: int, y: int, dx: nat, i: nat, j: nat)
  {
    (0 <= y < i && 0 <= x < dx) || (y == i && 0 <= x < j)
  }

  /** How many pixels visited before (j, i) have `s` as their nearest seed. */
  function CountBefore(nearest: Coord -> Coord, s: Coord, dx: nat, i: nat, j: nat): (n: nat)
    requires j <= dx
    decreases i, j
  {
    if j == 0 then
      if i == 0 then 0 else CountBefore(nearest, s, dx, i - 1, dx)
    else
      var prev := CountBefore(nearest, s, dx, i, j - 1);
      if nearest(XY(j - 1, i)) == s then prev + 1 else prev
  }

  /** Channel totals of the pixels visited before (j, i) whose nearest seed is `s`. */
  function SumBefore(img: Picture, nearest: Coord -> Coord, s: Coord, i: nat, j: nat): (t: Rgb)
    requires j <= img.dx
    decreases i, j
  {
    if j == 0 then
      if i == 0 then Zero else SumBefore(img, nearest, s, i - 1, img.dx)
    else
      var prev := SumBefore(img, nearest, s, i, j - 1);
      if nearest(XY(j - 1, i)) == s then prev.Add(Channels(img.AtOffset(j - 1, i))) else prev
  }

  /** The number of pixels in the cell of seed `s`. */
  function CellCount(nearest: Coord -> Coord, s: Coord, dx: nat, dy: nat): (n: nat)
  {
    CountBefore(nearest, s, dx, dy, 0)
  }

  /** The channel totals of the cell of seed `s`. */
  function CellSum(img: Picture, nearest: Coord -> Coord, s: Coord): (t: Rgb)
  {
    SumBefore(img, nearest, s, img.dy, 0)
  }

  /** A seed has counted pixels exactly when some visited pixel has it as nearest seed. */
  lemma {:induction false} CountBeforePositive(nearest: Coord -> Coord, s: Coord, dx: nat, i: nat, j: nat)
    requires j <= dx
    ensures CountBefore(nearest, s, dx, i, j) > 0 <==>
      exists x, y :: Before(x, y, dx, i, j) && nearest(XY(x, y)) == s
    decreases i, j
  {
    if j == 0 {
      if i > 0 {
        CountBeforePositive(nearest, s, dx, i - 1, dx);
        assert forall x, y :: Before(x, y, dx, i - 1, dx) <==> Before(x, y, dx, i, 0);
      }
    } else {
      CountBeforePositive(nearest, s, dx, i, j - 1);
      assert forall x, y :: Before(x, y, dx, i, j) <==> Before(x, y, dx, i, j - 1) || (x == j - 1 && y == i);
    }
  }

  /** A cell has pixels exactly when some pixel of the grid has that seed as its nearest. */
  lemma CellCountPositive(nearest: Coord -> Coord, s: Coord, dx: nat, dy: nat)
    ensures CellCount(nearest, s, dx, dy) > 0 <==>
      exists x, y :: 0 <= x < dx && 0 <= y < dy && nearest(XY(x, y)) == s
  {
    CountBeforePositive(nearest, s, dx, dy, 0);
    assert forall x, y :: Before(x, y, dx, dy, 0) <==> 0 <= x < dx && 0 <= y < dy;
  }

  /** Each pixel adds at most 0xffff to each channel total. */
  lemma {:induction false} SumBeforeBound(img: Picture, nearest: Coord -> Coord, s: Coord, i: nat, j: nat)
    requires j <= img.dx
    ensures SumBefore(img, nearest, s, i, j).r <= 0xffff * CountBefore(nearest, s, img.dx, i, j)
    ensures SumBefore(img, nearest, s, i, j).g <= 0xffff * CountBefore(nearest, s, img.dx, i, j)
    ensures SumBefore(img, nearest, s, i, j).b <= 0xffff * CountBefore(nearest, s, img.dx, i, j)
    decreases i, j
  {
    if j == 0 {
      if i > 0 {
        SumBeforeBound(img, nearest, s, i - 1, img.dx);
      }
    } else {
      SumBeforeBound(img, nearest, s, i, j - 1);
    }
  }

  // ---------------------------------------------------------------------------
  // The truncated mean written into the frame.

  lemma MulMono(a: nat, b: nat, d: nat)
    requires a <= b
    ensures a * d <= b * d
  {
  }

  /** `q` is the mean of n channel values totalling t, scaled to 8 bits and rounded down. */
  predicate IsTruncatedMean(q: int, t: int, n: nat)
  {
    q * (256 * n) <= t < (q + 1) * (256 * n)
  }

  lemma FloorDivision(t: nat, d: nat)
    requires 0 < d
    ensures 0 <= t / d && (t / d) * d <= t < (t / d + 1) * d
  {
    var q, r := t / d, t % d;
    assert t == q * d + r && 0 <= r < d;
    assert (q + 1) * d == q * d + d;
  }

  /**
   * Dividing a total of n 16-bit values by 256 n gives their truncated mean
   * at 8 bits, and it fits in a byte, so the uint8 conversion never wraps.
   */
  lemma MeanQuotient(t: nat, n: nat)
    requires 0 < n && t <= 0xffff * n
    ensures 0 <= t / (256 * n) < 256 && IsTruncatedMean(t / (256 * n), t, n)
  {
    var d := 256 * n;
    FloorDivision(t, d);
    var q := t / d;
    if q >= 256 {
      MulMono(256, q, d);
      assert false;
    }
  }

  /** One channel of a cell's colour: the truncated mean of n values totalling t. */
  function MeanChannel(t: nat, n: nat): (q: Byte)
    requires 0 < n && t <= 0xffff * n
    ensures IsTruncatedMean(q, t, n)
  {
    MeanQuotient(t, n);
    t / (256 * n)
  }

  /**
   * The pixel for a cell of n pixels whose channels total `sum`: each channel
   * the truncated mean of the cell's channel, alpha 0xff.
   */
  function Mean(sum: Rgb, n: nat): (p: Rgba8)
    requires 0 < n && sum.r <= 0xffff * n && sum.g <= 0xffff * n && sum.b <= 0xffff * n
    ensures p.a == 0xff
    ensures IsTruncatedMean(p.r, sum.r, n) && IsTruncatedMean(p.g, sum.g, n) && IsTruncatedMean(p.b, sum.b, n)
  {
    Rgba8(MeanChannel(sum.r, n), MeanChannel(sum.g, n), MeanChannel(sum.b, n), 0xff)
  }

  /** The colour of the cell of seed `s` in an average-mode frame. */
  function CellMean(img: Picture, nearest: Coord -> Coord, s: Coord): (p: Rgba8)
    requires CellCount(nearest, s, img.dx, img.dy) > 0
  {
    SumBeforeBound(img, nearest, s, img.dy, 0);
    Mean(CellSum(img, nearest, s), CellCount(nearest, s, img.dx, img.dy))
  }

  // ---------------------------------------------------------------------------
  // Every pixel its own seed.

  /** Every pixel visited before (j, i) is its own nearest seed. */
  ghost predicate OwnSeedsBefore(nearest: Coord -> Coord, dx: nat, i: nat, j: nat)
  {
    forall x, y :: Before(x, y, dx, i, j) ==> nearest(XY(x, y)) == XY(x, y)
  }

  /** When every pixel is its own nearest seed, a pixel's cell holds that pixel alone... */
  lemma {:induction false} OwnCountBefore(nearest: Coord -> Coord, s: Coord, dx: nat, i: nat, j: nat)
    requires j <= dx && OwnSeedsBefore(nearest, dx, i, j)
    ensures CountBefore(nearest, s, dx, i, j) == if Before(s.x, s.y, dx, i, j) then 1 else 0
    decreases i, j
  {
    if j == 0 {
      if i > 0 {
        OwnCountBefore(nearest, s, dx, i - 1, dx);
      }
    } else {
      assert Before(j - 1, i, dx, i, j);
      OwnCountBefore(nearest, s, dx, i, j - 1);
    }
  }

  lemma AddZero(a: Rgb)
    ensures a.Add(Zero) == a && Zero.Add(a) == a
  {
  }

  /** ... and the cell's channel totals are that pixel's channels. */
  lemma {:induction false} OwnSumBefore(img: Picture, nearest: Coord -> Coord, s: Coord, i: nat, j: nat)
    requires j <= img.dx && OwnSeedsBefore(nearest, img.dx, i, j)
    ensures SumBefore(img, nearest, s, i, j) ==
      if Before(s.x, s.y, img.dx, i, j) then Channels(img.AtOffset(s.x, s.y)) else Zero
    decreases i, j
  {
    if j == 0 {
      if i > 0 {
        OwnSumBefore(img, nearest, s, i - 1, img.dx);
      }
    } else {
      assert Before(j - 1, i, img.dx, i, j);
      OwnSumBefore(img, nearest, s, i, j - 1);
      if s == XY(j - 1, i) {
        AddZero(Channels(img.AtOffset(s.x, s.y)));
      }
    }
  }

  // ---------------------------------------------------------------------------
  // The sum of all counts of a map.

  /** The sum of the values of a map: the pixel count over all seeds. */
  ghost function Total(m: map<Coord, nat>): (t: nat)
    decreases |m.Keys|
  {
    if m.Keys == {} then 0
    else
      var k :| k in m.Keys;
      assert (m - {k}).Keys < m.Keys;
      m[k] + Total(m - {k})
  }

  /** The total does not depend on which key is taken out first. */
  lemma TotalRemove(m: map<Coord, nat>, k: Coord)
    requires k in m
    ensures Total(m) == m[k] + Total(m - {k})
    decreases |m.Keys|
  {
    var j :| j in m.Keys && Total(m) == m[j] + Total(m - {j});
    if j != k {
      var mj, mk := m - {j}, m - {k};
      assert mj.Keys < m.Keys && mk.Keys < m.Keys;
      TotalRemove(mj, k);
      TotalRemove(mk, j);
      assert mj - {k} == mk - {j};
    }
  }

  /** Counting one more pixel for key k raises the total by one. */
  lemma TotalBump(m: map<Coord, nat>, k: Coord)
    ensures Total(m[k := (if k in m then m[k] else 0) + 1]) == Total(m) + 1
  {
    var m' := m[k := (if k in m then m[k] else 0) + 1];
    TotalRemove(m', k);
    assert m' - {k} == m - {k};
    if k in m {
      TotalRemove(m, k);
    } else {
      assert m - {k} == m;
    }
  }

  // ---------------------------------------------------------------------------
  // The map updates of pass one; a missing key reads as zero, as in Go.

  /** sums[k] = sums[k].Add(v). */
  function AddAt(sums: map<Coord, Rgb>, k: Coord, v: Rgb): (r: map<Coord, Rgb>)
    ensures r.Keys == sums.Keys + {k}
    ensures r[k] == (if k in sums then sums[k] else Zero).Add(v)
    ensures forall k' :: k' in sums && k' != k ==> r[k'] == sums[k']
  {
    sums[k := (if k in sums then sums[k] else Zero).Add(v)]
  }

  /** counts[k]++. */
  function CountAt(counts: map<Coord, nat>, k: Coord): (r: map<Coord, nat>)
    ensures r.Keys == counts.Keys + {k}
    ensures r[k] == (if k in counts then counts[k] else 0) + 1
    ensures forall k' :: k' in counts && k' != k ==> r[k'] == counts[k']
    ensures Total(r) == Total(counts) + 1
  {
    TotalBump(counts, k);
    counts[k := (if k in counts then counts[k] else 0) + 1]
  }

  // ---------------------------------------------------------------------------
  // The two passes.

  /** The maps hold, for every seed, the totals over the pixels visited before (j, i). */
  ghost predicate Tallied(img: Picture, nearest: Coord -> Coord, sums: map<Coord, Rgb>, counts: map<Coord, nat>, i: nat, j: nat)
    requires j <= img.dx
  {
    && sums.Keys == counts.Keys
    && (forall s :: s in counts <==> CountBefore(nearest, s, img.dx, i, j) > 0)
    && (forall s :: s in counts ==>
          counts[s] == CountBefore(nearest, s, img.dx, i, j) && sums[s] == SumBefore(img, nearest, s, i, j))
  }

  /** Tallying pixel (j, i) moves the maps from "before (j, i)" to "before (j + 1, i)". */
  lemma TallyPixel(img: Picture, nearest: Coord -> Coord, sums: map<Coord, Rgb>, counts: map<Coord, nat>, i: nat, j: nat)
    requires j < img.dx && Tallied(img, nearest, sums, counts, i, j)
    ensures var source := nearest(XY(j, i));
      Tallied(img, nearest, AddAt(sums, source, Channels(img.AtOffset(j, i))), CountAt(counts, source), i, j + 1)
  {
    var source := nearest(XY(j, i));
    var sums', counts' := AddAt(sums, source, Channels(img.AtOffset(j, i))), CountAt(counts, source);
    forall s
      ensures s in counts' <==> CountBefore(nearest, s, img.dx, i, j + 1) > 0
      ensures s in counts' ==> counts'[s] == CountBefore(nearest, s, img.dx, i, j + 1)
      ensures s in counts' ==> sums'[s] == SumBefore(img, nearest, s, i, j + 1)
    {
      if s == source {
        if s !in counts {
          // a seed with no pixels so far has all-zero totals
          SumBeforeBound(img, nearest, s, i, j);
          AddZero(Channels(img.AtOffset(j, i)));
        }
      }
    }
  }

  /** Pass one over row i: tallies pixels (0, i) .. (dx - 1, i), left to right. */
  method TallyRow(img: Picture, nearest: Coord -> Coord, sums0: map<Coord, Rgb>, counts0: map<Coord, nat>, i: nat)
    returns (sums: map<Coord, Rgb>, counts: map<Coord, nat>)
    requires Tallied(img, nearest, sums0, counts0, i, 0)
    ensures Tallied(img, nearest, sums, counts, i, img.dx)
    ensures Total(counts) == Total(counts0) + img.dx
  {
    sums, counts := sums0, counts0;
    var j := 0;
    while j < img.dx
      invariant 0 <= j <= img.dx
      invariant Tallied(img, nearest, sums, counts, i, j)
      invariant Total(counts) == Total(counts0) + j
    {
      var source := nearest(XY(j, i));
      var c := img.at(j + img.minX, i + img.minY);
      var rgb := Channels(c);
      assert rgb == Channels(img.AtOffset(j, i));
      TallyPixel(img, nearest, sums, counts, i, j);
      sums := AddAt(sums, source, rgb);
      counts := CountAt(counts, source);
      j := j + 1;
    }
  }

  /**
   * Pass one: for every pixel, adds its channels to its nearest seed's total
   * and counts it. A seed gets an entry exactly when it is nearest to some
   * pixel; the entries hold the totals over exactly that seed's pixels, and
   * the counts add up to the number of pixels.
   */
  method Accumulate(img: Picture, nearest: Coord -> Coord) returns (sums: map<Coord, Rgb>, counts: map<Coord, nat>)
    ensures sums.Keys == counts.Keys
    ensures forall s :: s in counts <==>
      exists x, y :: 0 <= x < img.dx && 0 <= y < img.dy && nearest(XY(x, y)) == s
    ensures forall s :: s in counts ==>
      counts[s] == CellCount(nearest, s, img.dx, img.dy) && sums[s] == CellSum(img, nearest, s)
    ensures Total(counts) == img.dx * img.dy
  {
    sums, counts := map[], map[];
    var i := 0;
    while i < img.dy
      invariant 0 <= i <= img.dy
      invariant Tallied(img, nearest, sums, counts, i, 0)
      invariant Total(counts) == i * img.dx
    {
      sums, counts := TallyRow(img, nearest, sums, counts, i);
      assert (i + 1) * img.dx == i * img.dx + img.dx;
      i := i + 1;
    }
    assert img.dy * img.dx == img.dx * img.dy;
    forall s
      ensures s in counts <==> exists x, y :: 0 <= x < img.dx && 0 <= y < img.dy && nearest(XY(x, y)) == s
    {
      CellCountPositive(nearest, s, img.dx, img.dy);
    }
  }

  /** `p`, the frame's pixel (x, y), has the colour of its seed's cell. */
  ghost predicate CellColoured(img: Picture, nearest: Coord -> Coord, p: Rgba8, x: int, y: int)
  {
    CellCount(nearest, nearest(XY(x, y)), img.dx, img.dy) > 0 &&
    p == CellMean(img, nearest, nearest(XY(x, y)))
  }

  /** When every pixel is its own seed, a pixel's cell colour is its own colour at 8 bits, opaque. */
  lemma OwnCellMean(img: Picture, nearest: Coord -> Coord, s: Coord)
    requires OwnSeedsBefore(nearest, img.dx, img.dy, 0) && InGrid(s, img.dx, img.dy)
    ensures CellCount(nearest, s, img.dx, img.dy) == 1
    ensures var c := img.AtOffset(s.x, s.y);
      CellMean(img, nearest, s) == Rgba8(c.r / 256, c.g / 256, c.b / 256, 0xff)
  {
    OwnCountBefore(nearest, s, img.dx, img.dy, 0);
    OwnSumBefore(img, nearest, s, img.dy, 0);
  }

  /**
   * Pass two: paints each pixel with the mean colour of its nearest seed's
   * cell, looked up in the maps of pass one.
   */
  method Paint(img: Picture, nearest: Coord -> Coord, sums: map<Coord, Rgb>, counts: map<Coord, nat>)
      returns (res: array2<Rgba8>)
    requires forall x, y :: 0 <= x < img.dx && 0 <= y < img.dy ==> nearest(XY(x, y)) in counts
    requires forall s :: s in counts ==>
      s in sums && counts[s] == CellCount(nearest, s, img.dx, img.dy) && sums[s] == CellSum(img, nearest, s)
    ensures res.Length0 == img.dx && res.Length1 == img.dy
    ensures forall x, y :: 0 <= x < img.dx && 0 <= y < img.dy ==> CellColoured(img, nearest, res[x, y], x, y)
  {
    res := new Rgba8[img.dx, img.dy];
    var i := 0;
    while i < img.dy
      invariant 0 <= i <= img.dy
      invariant forall x, y :: 0 <= x < img.dx && 0 <= y < i ==> CellColoured(img, nearest, res[x, y], x, y)
    {
      var j := 0;
      while j < img.dx
        invariant 0 <= j <= img.dx
        invariant forall x, y :: 0 <= x < img.dx && 0 <= y < i ==> CellColoured(img, nearest, res[x, y], x, y)
        invariant forall x :: 0 <= x < j ==> CellColoured(img, nearest, res[x, i], x, i)
      {
        var source := nearest(XY(j, i));
        // the pixel itself lies in its seed's cell, so the count is not zero
        CellCountPositive(nearest, source, img.dx, img.dy);
        SumBeforeBound(img, nearest, source, img.dy, 0);
        res[j, i] := Mean(sums[source], counts[source]);
        j := j + 1;
      }
      i := i + 1;
    }
  }

  /**
   * The whole average-mode frame: every pixel is the truncated mean colour of
   * its nearest seed's cell, fully opaque. With every pixel a seed, the frame
   * is the source image at 8 bits per channel, made opaque.
   */
  method RenderFrameAverage(img: Picture, seeds: seq<Coord>, nearest: Coord -> Coord) returns (res: array2<Rgba8>)
    ensures res.Length0 == img.dx && res.Length1 == img.dy
    ensures forall x, y :: 0 <= x < img.dx && 0 <= y < img.dy ==>
      CellColoured(img, nearest, res[x, y], x, y) && res[x, y].a == 0xff
    ensures NearestOnGrid(seeds, nearest, img.dx, img.dy) && CoversGrid(seeds, img.dx, img.dy) ==>
      forall x, y :: 0 <= x < img.dx && 0 <= y < img.dy ==>
        var c := img.AtOffset(x, y);
        res[x, y] == Rgba8(c.r / 256, c.g / 256, c.b / 256, 0xff)
  {
    var sums, counts := Accumulate(img, nearest);
    res := Paint(img, nearest, sums, counts);
    if NearestOnGrid(seeds, nearest, img.dx, img.dy) && CoversGrid(seeds, img.dx, img.dy) {
      forall x, y | 0 <= x < img.dx && 0 <= y < img.dy
        ensures nearest(XY(x, y)) == XY(x, y)
      {
        SeedIsOwnNearest(seeds, XY(x, y), nearest(XY(x, y)));
      }
      assert OwnSeedsBefore(nearest, img.dx, img.dy, 0);
      forall x, y | 0 <= x < img.dx && 0 <= y < img.dy
        ensures var c := img.AtOffset(x, y); res[x, y] == Rgba8(c.r / 256, c.g / 256, c.b / 256, 0xff)
      {
        OwnCellMean(img, nearest, XY(x, y));
      }
    }
  }
}
