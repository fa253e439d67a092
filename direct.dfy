/**
 * RenderFrame: every pixel of a fresh Dx-by-Dy frame takes the source colour
 * at its nearest seed. The coordinate tree is the function `nearest`.
 */
module Direct {
  import opened Geometry
  import opened Imaging

  method RenderFrame(img: Picture, seeds: seq<Coord>, nearest: Coord -> Coord) returns (res: array2<Rgba8>)
    ensures res.Length0 == img.dx && res.Length1 == img.dy
    ensures forall x, y :: 0 <= x < img.dx && 0 <= y < img.dy ==>
      res[x, y] == ToRgba8(img.AtOffset(nearest(XY(x, y)).x, nearest(XY(x, y)).y))
    // every pixel a seed: the frame is the source image itself
    ensures NearestOnGrid(seeds, nearest, img.dx, img.dy) && CoversGrid(seeds, img.dx, img.dy) ==>
      forall x, y :: 0 <= x < img.dx && 0 <= y < img.dy ==> res[x, y] == ToRgba8(img.AtOffset(x, y))
    // a single seed: the frame is flat, in that seed's colour
    ensures NearestOnGrid(seeds, nearest, img.dx, img.dy) && |seeds| == 1 ==>
      forall x, y :: 0 <= x < img.dx && 0 <= y < img.dy ==> res[x, y] == ToRgba8(img.AtOffset(seeds[0].x, seeds[0].y))
  {
    res := new Rgba8[img.dx, img.dy];
    var i := 0;
    while i < img.dy
      invariant 0 <= i <= img.dy
      invariant forall x, y :: 0 <= x < img.dx && 0 <= y < i ==>
        res[x, y] == ToRgba8(img.AtOffset(nearest(XY(x, y)).x, nearest(XY(x, y)).y))
    {
      var j := 0;
      while j < img.dx
        invariant 0 <= j <= img.dx
        invariant forall x, y :: 0 <= x < img.dx && 0 <= y < i ==>
          res[x, y] == ToRgba8(img.AtOffset(nearest(XY(x, y)).x, nearest(XY(x, y)).y))
        invariant forall x :: 0 <= x < j ==>
          res[x, i] == ToRgba8(img.AtOffset(nearest(XY(x, i)).x, nearest(XY(x, i)).y))
      {
        var source := nearest(XY(j, i));
        res[j, i] := ToRgba8(img.at(source.x + img.minX, source.y + img.minY));
        j := j + 1;
      }
      i := i + 1;
    }
    if NearestOnGrid(seeds, nearest, img.dx, img.dy) && CoversGrid(seeds, img.dx, img.dy) {
      forall x, y | 0 <= x < img.dx && 0 <= y < img.dy
        ensures nearest(XY(x, y)) == XY(x, y)
      {
        SeedIsOwnNearest(seeds, XY(x, y), nearest(XY(x, y)));
      }
    }
    if NearestOnGrid(seeds, nearest, img.dx, img.dy) && |seeds| == 1 {
      forall x, y | 0 <= x < img.dx && 0 <= y < img.dy
        ensures nearest(XY(x, y)) == seeds[0]
      {
        SingleSeedIsNearest(seeds, XY(x, y), nearest(XY(x, y)));
      }
    }
  }
}
