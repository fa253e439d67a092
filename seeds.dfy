/**
 * The seed order: every pixel coordinate of the image, listed x-major, then
 * permuted in place by the swap loop of main (Fisher-Yates / Durstenfeld).
 * The random source is replaced by the sequence of values rand.Intn returned.
 */
module Seeds {
  import opened Geometry

  /** Column x of the grid: (x, 0), (x, 1), ..., (x, dy - 1). */
  function Column(x: int, dy: nat): (c: seq<Coord>)
  {
    seq(dy, y => XY(x, y))
  }

  /** Every coordinate of a dx-by-dy image, x-major: the slice main builds. */
  function Grid(dx: nat, dy: nat): (g: seq<Coord>)
    ensures |g| == dx * dy
  {
    if dx == 0 then []
    else
      assert (dx - 1) * dy + dy == dx * dy;
      Grid(dx - 1, dy) + Column(dx - 1, dy)
  }

  /** Coordinate (x, y) sits at index x * dy + y: the grid is x-major. */
  lemma {:induction false} GridAt(dx: nat, dy: nat, x: nat, y: nat)
    requires x < dx && y < dy
    ensures x * dy + y < dx * dy && Grid(dx, dy)[x * dy + y] == XY(x, y)
  {
    assert (dx - 1) * dy + dy == dx * dy;
    if x == dx - 1 {
      assert Grid(dx, dy)[x * dy + y] == Column(dx - 1, dy)[y];
    } else {
      GridAt(dx - 1, dy, x, y);
      assert x * dy + y < (dx - 1) * dy;
    }
  }

  lemma {:induction false} ColumnOccurrences(x: int, dy: nat, c: Coord)
    ensures multiset(Column(x, dy))[c] == if c.x == x && 0 <= c.y < dy then 1 else 0
  {
    if dy > 0 {
      assert Column(x, dy) == Column(x, dy - 1) + [XY(x, dy - 1)];
      ColumnOccurrences(x, dy - 1, c);
    }
  }

  /** Each pixel coordinate occurs exactly once in the grid, and nothing else does. */
  lemma {:induction false} GridOccurrences(dx: nat, dy: nat, c: Coord)
    ensures multiset(Grid(dx, dy))[c] == if InGrid(c, dx, dy) then 1 else 0
  {
    if dx > 0 {
      GridOccurrences(dx - 1, dy, c);
      ColumnOccurrences(dx - 1, dy, c);
    }
  }

  /** The nested loops of main that append every coordinate to the slice. */
  method BuildGrid(dx: nat, dy: nat) returns (coords: seq<Coord>)
    ensures coords == Grid(dx, dy)
  {
    coords := [];
    var i := 0;
    while i < dx
      invariant 0 <= i <= dx
      invariant coords == Grid(i, dy)
    {
      var j := 0;
      while j < dy
        invariant 0 <= j <= dy
        invariant coords == Grid(i, dy) + Column(i, dy)[..j]
      {
        assert Column(i, dy)[..j + 1] == Column(i, dy)[..j] + [XY(i, j)];
        coords := coords + [XY(i, j)];
        j := j + 1;
      }
      assert Column(i, dy)[..dy] == Column(i, dy);
      i := i + 1;
    }
  }

  /**
   * The draws are possible results of rand.Intn(n - k) at each step k of the
   * swap loop, which runs n - 1 times (not at all for n <= 1).
   */
  predicate ValidDraws(n: nat, draws: seq<nat>)
  {
    |draws| == (if n == 0 then 0 else n - 1) &&
    forall k :: 0 <= k < |draws| ==> draws[k] < n - k
  }

  /** `s` with the elements at i and j exchanged. */
  function Swap(s: seq<Coord>, i: nat, j: nat): (r: seq<Coord>)
    requires i < |s| && j < |s|
    ensures |r| == |s| && r[i] == s[j] && r[j] == s[i]
    ensures forall m :: 0 <= m < |s| && m != i && m != j ==> r[m] == s[m]
  {
    s[i := s[j]][j := s[i]]
  }

  /** The slice after the first k steps of the swap loop: step m exchanges m and m + draws[m]. */
  function ShuffleSteps(s: seq<Coord>, draws: seq<nat>, k: nat): (r: seq<Coord>)
    requires ValidDraws(|s|, draws) && k <= |draws|
    ensures |r| == |s|
  {
    if k == 0 then s
    else Swap(ShuffleSteps(s, draws, k - 1), k - 1, k - 1 + draws[k - 1])
  }

  /** The slice after the whole swap loop. */
  function Shuffled(s: seq<Coord>, draws: seq<nat>): (r: seq<Coord>)
    requires ValidDraws(|s|, draws)
  {
    ShuffleSteps(s, draws, |draws|)
  }

  /** Whatever each draw is, the swap loop only rearranges the coordinates. */
  lemma {:induction false} ShuffleStepsPermutes(s: seq<Coord>, draws: seq<nat>, k: nat)
    requires ValidDraws(|s|, draws) && k <= |draws|
    ensures |ShuffleSteps(s, draws, k)| == |s|
    ensures multiset(ShuffleSteps(s, draws, k)) == multiset(s)
  {
    if k > 0 {
      ShuffleStepsPermutes(s, draws, k - 1);
      SwapPermutes(ShuffleSteps(s, draws, k - 1), k - 1, k - 1 + draws[k - 1]);
    }
  }

  lemma SwapPermutes(s: seq<Coord>, i: nat, j: nat)
    requires i < |s| && j < |s|
    ensures multiset(Swap(s, i, j)) == multiset(s)
  {
  }

  /** After step k, positions below k are never touched again. */
  lemma {:induction false} ShuffleKeepsPrefix(s: seq<Coord>, draws: seq<nat>, k: nat, m: nat)
    requires ValidDraws(|s|, draws) && k <= m <= |draws|
    ensures ShuffleSteps(s, draws, m)[..k] == ShuffleSteps(s, draws, k)[..k]
  {
    if m > k {
      ShuffleKeepsPrefix(s, draws, k, m - 1);
      var t := ShuffleSteps(s, draws, m - 1);
      assert ShuffleSteps(s, draws, m)[..k] == t[..k];
    }
  }

  /** The swap loop of main, in place on the slice. */
  method Shuffle(coords: array<Coord>, draws: seq<nat>)
    requires ValidDraws(coords.Length, draws)
    modifies coords
    ensures coords[..] == Shuffled(old(coords[..]), draws)
  {
    var i := 0;
    while i < coords.Length - 1
      invariant 0 <= i <= |draws|
      invariant coords[..] == ShuffleSteps(old(coords[..]), draws, i)
    {
      var j := i + draws[i];
      coords[i], coords[j] := coords[j], coords[i];
      i := i + 1;
    }
  }

  /**
   * The seed order main computes once at start-up: the grid, shuffled.
   * Every pixel coordinate appears in it exactly once.
   */
  method SeedOrder(dx: nat, dy: nat, draws: seq<nat>) returns (coords: array<Coord>)
    requires ValidDraws(dx * dy, draws)
    ensures coords[..] == Shuffled(Grid(dx, dy), draws)
    ensures coords.Length == dx * dy
    ensures forall c :: multiset(coords[..])[c] == if InGrid(c, dx, dy) then 1 else 0
  {
    var grid := BuildGrid(dx, dy);
    coords := new Coord[|grid|](k requires 0 <= k < |grid| => grid[k]);
    assert coords[..] == grid;
    Shuffle(coords, draws);
    ShuffleStepsPermutes(grid, draws, |draws|);
    forall c
      ensures multiset(coords[..])[c] == if InGrid(c, dx, dy) then 1 else 0
    {
      GridOccurrences(dx, dy, c);
    }
  }

  /** Every seed of the shuffled grid is a pixel, and every pixel is a seed. */
  lemma ShuffledGridIsPixels(dx: nat, dy: nat, draws: seq<nat>, c: Coord)
    requires ValidDraws(dx * dy, draws)
    ensures c in Shuffled(Grid(dx, dy), draws) <==> InGrid(c, dx, dy)
  {
    ShuffleStepsPermutes(Grid(dx, dy), draws, |draws|);
    GridOccurrences(dx, dy, c);
  }

  /**
   * The seed slice of the last growth frame is the whole shuffled grid: it
   * covers every pixel, so that frame's seeds are all the pixels.
   */
  lemma ShuffledGridCovers(dx: nat, dy: nat, draws: seq<nat>)
    requires ValidDraws(dx * dy, draws)
    ensures CoversGrid(Shuffled(Grid(dx, dy), draws), dx, dy)
    ensures forall c :: c in Shuffled(Grid(dx, dy), draws) ==> InGrid(c, dx, dy)
  {
    forall c
      ensures c in Shuffled(Grid(dx, dy), draws) <==> InGrid(c, dx, dy)
    {
      ShuffledGridIsPixels(dx, dy, draws, c);
    }
  }
}
