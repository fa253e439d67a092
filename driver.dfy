/**
 * The growth loop of main: at each step the schedule yields a seed count,
 * the count is clamped to the number of coordinates, the first `count`
 * shuffled coordinates are handed to the renderer, and the loop ends right
 * after the frame that uses all of them. The schedule's floating-point
 * formula is abstracted: its per-step counts are an input.
 */
module Driver {
  import opened Geometry

  /** essentials.MinInt. */
  function MinInt(a: int, b: int): (m: int)
    ensures m <= a && m <= b && (m == a || m == b)
  {
    if a < b then a else b
  }

  /** The seed slice coords[:MinInt(count, len(coords))] a frame is rendered from. */
  function ActivePrefix(coords: seq<Coord>, count: nat): (p: seq<Coord>)
    ensures p <= coords
    ensures |p| == if count < |coords| then count else |coords|
  {
    coords[..MinInt(count, |coords|)]
  }

  /** With a non-decreasing schedule, each frame's seeds extend the previous frame's. */
  lemma ActivePrefixGrows(coords: seq<Coord>, a: nat, b: nat)
    requires a <= b
    ensures ActivePrefix(coords, a) <= ActivePrefix(coords, b)
  {
  }

  /**
   * Runs the growth loop over the per-step counts and returns the seed slices
   * of the frames it emits, in order. The loop ends at the first count that
   * reaches the number of coordinates, which the schedule always does.
   */
  method GrowthFrames(coords: seq<Coord>, counts: seq<nat>) returns (frames: seq<seq<Coord>>)
    requires exists k :: 0 <= k < |counts| && counts[k] >= |coords|
    ensures 0 < |frames| <= |counts|
    ensures forall k :: 0 <= k < |frames| ==> frames[k] == ActivePrefix(coords, counts[k])
    ensures forall k :: 0 <= k < |frames| - 1 ==> counts[k] < |coords| && |frames[k]| < |coords|
    ensures frames[|frames| - 1] == coords
  {
    ghost var stop :| 0 <= stop < |counts| && counts[stop] >= |coords|;
    frames := [];
    var k := 0;
    while true
      invariant 0 <= k <= stop
      invariant |frames| == k
      invariant forall m :: 0 <= m < k ==> frames[m] == ActivePrefix(coords, counts[m])
      invariant forall m :: 0 <= m < k ==> counts[m] < |coords| && |frames[m]| < |coords|
      decreases stop - k
    {
      var count := MinInt(counts[k], |coords|);
      frames := frames + [coords[..count]];
      if count == |coords| {
        return;
      }
      k := k + 1;
    }
  }
}
