/**
 * Integer pixel coordinates and the contract of the nearest-neighbour query
 * that the coordinate tree (model2d.NewCoordTree / NearestNeighbor) answers.
 * The tree itself is not modelled: a query is any function that returns a
 * seed at minimal squared Euclidean distance, fixed for a fixed build.
 */
module Geometry {

  /** A pixel or seed location: a model2d.Coord whose components are integers. */
  datatype Coord = XY(x: int, y: int)

  /** The square of a difference; never negative. */
  function Square(d: int): (r: nat)
    ensures r == 0 <==> d == 0
  {
    var m := if d < 0 then -d else d;
    m * m
  }

  /** Squared Euclidean distance; it orders seeds exactly as the Euclidean distance does. */
  function SqDist(p: Coord, q: Coord): (d: nat)
  {
    Square(p.x - q.x) + Square(p.y - q.y)
  }

  /** (x, y) lies in the dx-by-dy pixel grid whose origin is (0, 0). */
  predicate InGrid(c: Coord, dx: int, dy: int)
  {
    0 <= c.x < dx && 0 <= c.y < dy
  }

  /** `s` is a nearest seed to `q`: one of the seeds, and no seed is strictly closer. */
  predicate IsNearest(seeds: seq<Coord>, q: Coord, s: Coord)
  {
    s in seeds && forall t :: t in seeds ==> SqDist(s, q) <= SqDist(t, q)
  }

  /**
   * `nearest` is a nearest-neighbour query over `seeds` for every pixel of
   * the dx-by-dy grid: what NearestNeighbor promises for a tree built from them.
   */
  predicate NearestOnGrid(seeds: seq<Coord>, nearest: Coord -> Coord, dx: int, dy: int)
  {
    forall x, y :: 0 <= x < dx && 0 <= y < dy ==> IsNearest(seeds, XY(x, y), nearest(XY(x, y)))
  }

  /** Every pixel of the dx-by-dy grid is one of the seeds. */
  predicate CoversGrid(seeds: seq<Coord>, dx: int, dy: int)
  {
    forall x, y :: 0 <= x < dx && 0 <= y < dy ==> XY(x, y) in seeds
  }

  /**
   * Reference answer by a linear scan over the seeds. It shows that the
   * nearest-neighbour contract can always be met when there is a seed, and it
   * is the brute-force check the tree's answers are compared with.
   */
  function ScanNearest(seeds: seq<Coord>, q: Coord): (s: Coord)
    requires |seeds| > 0
    ensures IsNearest(seeds, q, s)
  {
    if |seeds| == 1 then seeds[0]
    else
      var rest := ScanNearest(seeds[1..], q);
      assert forall t :: t in seeds ==> t == seeds[0] || t in seeds[1..];
      if SqDist(seeds[0], q) <= SqDist(rest, q) then seeds[0] else rest
  }

  /**
   * Whatever tie-break the tree applies, its answer is at the same distance as
   * the brute-force answer.
   */
  lemma NearestMatchesScan(seeds: seq<Coord>, q: Coord, s: Coord)
    requires IsNearest(seeds, q, s)
    ensures |seeds| > 0 && SqDist(s, q) == SqDist(ScanNearest(seeds, q), q)
  {
  }

  /** A query point that is itself a seed is its own, unique, nearest seed. */
  lemma SeedIsOwnNearest(seeds: seq<Coord>, q: Coord, s: Coord)
    requires q in seeds && IsNearest(seeds, q, s)
    ensures s == q
  {
  }

  /** With a single seed, that seed is the answer to every query. */
  lemma SingleSeedIsNearest(seeds: seq<Coord>, q: Coord, s: Coord)
    requires |seeds| == 1 && IsNearest(seeds, q, s)
    ensures s == seeds[0]
  {
  }
}
