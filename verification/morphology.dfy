/**
 `dilate` and `erode` of src/BinaryImage.ts.

 Both copy `src` and then, for every interior pixel that is an "edge",
 stamp a value over the disk of the given radius around it: `dilate`
 stamps 1 around set pixels with an unset 4-neighbour, `erode` stamps 0
 around unset pixels with a set 4-neighbour. The pixels of the one-pixel
 frame are never edges. Both are the one operation `Spread(g, radius, b)`
 on the pictured grid, with `b` the stamped value.
 */
module Morphology {
  import opened Raster
  import BI = BinaryImage

  /**
   The stamp: offsets the source's loops visit (`-radius..radius` on both
   axes) that pass `dx * dx + dy * dy < radius * radius`. A radius of zero
   or less stamps nothing.
   */
  predicate InDisk(dx: int, dy: int, radius: int) {
    && -radius <= dx <= radius
    && -radius <= dy <= radius
    && dx * dx + dy * dy < radius * radius
  }

  /**
   (x, y) is an interior pixel holding `b` with some 4-neighbour that does
   not hold `b`.
   */
  predicate IsEdge(g: Grid, x: int, y: int, b: bool)
    requires WellShaped(g)
  {
    && 1 <= x < g.width - 1
    && 1 <= y < g.height - 1
    && At(g, x, y) == b
    && (At(g, x - 1, y) != b || At(g, x + 1, y) != b || At(g, x, y - 1) != b || At(g, x, y + 1) != b)
  }

  /** (x, y) lies in the disk around some edge. */
  ghost predicate Reached(g: Grid, radius: int, b: bool, x: int, y: int)
    requires WellShaped(g)
  {
    exists cx, cy :: IsEdge(g, cx, cy, b) && InDisk(x - cx, y - cy, radius)
  }

  /** Every pixel in the disk of an edge takes `b`; every other pixel keeps its value. */
  ghost function Spread(g: Grid, radius: int, b: bool): (r: Grid)
    requires WellShaped(g)
    ensures WellShaped(r) && SameShape(r, g)
  {
    Grid(g.width, g.height,
      seq(g.height, y requires 0 <= y < g.height =>
        seq(g.width, x requires 0 <= x < g.width =>
          if Reached(g, radius, b, x, y) then b else At(g, x, y))))
  }

  /** Squaring moves a number at least `r` away from zero to at least `r * r`. */
  lemma SquareOutside(d: int, r: int)
    requires r >= 0
    ensures d >= r || d <= -r ==> d * d >= r * r
  {
    if d >= r {
      assert d * d >= r * d >= r * r;
    } else if d <= -r {
      assert d * d == (-d) * (-d) >= r * (-d) >= r * r;
    }
  }

  /** A square below `r * r` has its root strictly between `-r` and `r`. */
  lemma SquareBelow(d: int, r: int)
    requires r >= 0 && d * d < r * r
    ensures -r < d < r
  {
    SquareOutside(d, r);
  }

  /**
   For a radius of zero or more the loop ranges of the source never cut
   the disk short: the stamp is exactly the offsets with
   `dx * dx + dy * dy < radius * radius`.
   */
  lemma DiskIsCircle(dx: int, dy: int, radius: int)
    requires radius >= 0
    ensures InDisk(dx, dy, radius) <==> dx * dx + dy * dy < radius * radius
  {
    if dx * dx + dy * dy < radius * radius {
      assert dy * dy >= 0;
      assert dx * dx >= 0;
      SquareBelow(dx, radius);
      SquareBelow(dy, radius);
    }
  }

  /** A disk of radius 1 or less holds at most its own centre. */
  lemma UnitDisk(dx: int, dy: int, radius: int)
    requires radius <= 1 && InDisk(dx, dy, radius)
    ensures dx == 0 && dy == 0
  {
    assert dx * dx >= 0 && dy * dy >= 0;
    SquareBelow(dx, radius);
    SquareBelow(dy, radius);
  }

  lemma SquareGrows(a: int, b: int)
    requires 0 <= a <= b
    ensures a * a <= b * b
  {
    assert a * a <= a * b;
    assert a * b <= b * b;
  }

  /** The disk of a radius lies inside the disk of any larger radius. */
  lemma DiskGrows(dx: int, dy: int, r1: int, r2: int)
    requires 0 <= r1 <= r2 && InDisk(dx, dy, r1)
    ensures InDisk(dx, dy, r2)
  {
    SquareGrows(r1, r2);
  }

  /** With a radius of 1 or less, `dilate` and `erode` leave the picture unchanged. */
  lemma {:induction false} SmallRadiusKeeps(g: Grid, radius: int, b: bool)
    requires WellShaped(g) && radius <= 1
    ensures Spread(g, radius, b) == g
  {
    var r := Spread(g, radius, b);
    forall x, y | InBounds(g.width, g.height, x, y)
      ensures At(r, x, y) == At(g, x, y)
    {
      if Reached(g, radius, b, x, y) {
        var cx, cy :| IsEdge(g, cx, cy, b) && InDisk(x - cx, y - cy, radius);
        UnitDisk(x - cx, y - cy, radius);
      }
    }
    Extensionality(r, g);
  }

  /** Every pixel the smaller radius reaches, the larger radius reaches too. */
  lemma ReachGrows(g: Grid, r1: int, r2: int, b: bool, x: int, y: int)
    requires WellShaped(g) && 0 <= r1 <= r2
    ensures Reached(g, r1, b, x, y) ==> Reached(g, r2, b, x, y)
  {
    if Reached(g, r1, b, x, y) {
      var cx, cy :| IsEdge(g, cx, cy, b) && InDisk(x - cx, y - cy, r1);
      DiskGrows(x - cx, y - cy, r1, r2);
    }
  }

  /** Every in-bounds pixel in the disk of an edge takes the stamped value. */
  lemma SpreadCovers(g: Grid, radius: int, b: bool)
    requires WellShaped(g)
    ensures forall cx, cy, x, y ::
      IsEdge(g, cx, cy, b) && InBounds(g.width, g.height, x, y) && InDisk(x - cx, y - cy, radius) ==>
        At(Spread(g, radius, b), x, y) == b
  {
    forall cx, cy, x, y | IsEdge(g, cx, cy, b) && InBounds(g.width, g.height, x, y) && InDisk(x - cx, y - cy, radius)
      ensures At(Spread(g, radius, b), x, y) == b
    {
      assert Reached(g, radius, b, x, y);
    }
  }

  /** A larger radius dilates to a superset. */
  lemma DilateGrows(g: Grid, r1: int, r2: int)
    requires WellShaped(g) && 0 <= r1 <= r2
    ensures Subset(Spread(g, r1, true), Spread(g, r2, true))
  {
    forall x, y | InBounds(g.width, g.height, x, y)
      ensures Reached(g, r1, true, x, y) ==> Reached(g, r2, true, x, y)
    {
      ReachGrows(g, r1, r2, true, x, y);
    }
  }

  /** A larger radius erodes to a subset. */
  lemma ErodeShrinks(g: Grid, r1: int, r2: int)
    requires WellShaped(g) && 0 <= r1 <= r2
    ensures Subset(Spread(g, r2, false), Spread(g, r1, false))
  {
    forall x, y | InBounds(g.width, g.height, x, y)
      ensures Reached(g, r1, false, x, y) ==> Reached(g, r2, false, x, y)
    {
      ReachGrows(g, r1, r2, false, x, y);
    }
  }

  /** The edges `erode` looks for are the edges `dilate` finds in the inverted picture. */
  lemma EdgeDual(g: Grid, x: int, y: int)
    requires WellShaped(g)
    ensures IsEdge(g, x, y, false) <==> IsEdge(Not(g), x, y, true)
  {
    if 1 <= x < g.width - 1 && 1 <= y < g.height - 1 {
      var n := Not(g);
      assert At(n, x, y) == !At(g, x, y);
      assert At(n, x - 1, y) == !At(g, x - 1, y);
      assert At(n, x + 1, y) == !At(g, x + 1, y);
      assert At(n, x, y - 1) == !At(g, x, y - 1);
      assert At(n, x, y + 1) == !At(g, x, y + 1);
    }
  }

  /** `erode` is `dilate` of the inverted picture, inverted back. */
  lemma {:induction false} ErodeIsDualOfDilate(g: Grid, radius: int)
    requires WellShaped(g)
    ensures Spread(g, radius, false) == Not(Spread(Not(g), radius, true))
  {
    var e, d := Spread(g, radius, false), Not(Spread(Not(g), radius, true));
    forall x, y | InBounds(e.width, e.height, x, y)
      ensures At(e, x, y) == At(d, x, y)
    {
      if Reached(g, radius, false, x, y) {
        var cx, cy :| IsEdge(g, cx, cy, false) && InDisk(x - cx, y - cy, radius);
        EdgeDual(g, cx, cy);
        assert Reached(Not(g), radius, true, x, y);
      }
      if Reached(Not(g), radius, true, x, y) {
        var cx, cy :| IsEdge(Not(g), cx, cy, true) && InDisk(x - cx, y - cy, radius);
        EdgeDual(g, cx, cy);
        assert Reached(g, radius, false, x, y);
      }
    }
    Extensionality(e, d);
  }

  /** (x, y) lies in the disk of an edge scanned before (ex, ey). */
  ghost predicate ReachedBefore(g: Grid, radius: int, b: bool, x: int, y: int, ex: int, ey: int)
    requires WellShaped(g)
  {
    exists cx, cy :: IsEdge(g, cx, cy, b) && InDisk(x - cx, y - cy, radius) && ScannedBefore(cx, cy, ex, ey)
  }

  /** Scanning one more centre adds exactly the disk around it, if it is an edge. */
  lemma ReachedStep(g: Grid, radius: int, b: bool, ex: int, ey: int)
    requires WellShaped(g)
    ensures forall x, y :: ReachedBefore(g, radius, b, x, y, ex + 1, ey) <==>
      ReachedBefore(g, radius, b, x, y, ex, ey) || (IsEdge(g, ex, ey, b) && InDisk(x - ex, y - ey, radius))
  {
    forall x, y
      ensures ReachedBefore(g, radius, b, x, y, ex + 1, ey) <==>
        ReachedBefore(g, radius, b, x, y, ex, ey) || (IsEdge(g, ex, ey, b) && InDisk(x - ex, y - ey, radius))
    {
      if ReachedBefore(g, radius, b, x, y, ex + 1, ey) {
        var cx, cy :| IsEdge(g, cx, cy, b) && InDisk(x - cx, y - cy, radius) && ScannedBefore(cx, cy, ex + 1, ey);
        if cx != ex || cy != ey {
          assert ScannedBefore(cx, cy, ex, ey);
        }
      }
      if ReachedBefore(g, radius, b, x, y, ex, ey) {
        var cx, cy :| IsEdge(g, cx, cy, b) && InDisk(x - cx, y - cy, radius) && ScannedBefore(cx, cy, ex, ey);
        assert ScannedBefore(cx, cy, ex + 1, ey);
      }
      if IsEdge(g, ex, ey, b) && InDisk(x - ex, y - ey, radius) {
        assert ScannedBefore(ex, ey, ex + 1, ey);
      }
    }
  }

  /** Finishing a row: every edge of row `ey` lies left of column `width - 1`. */
  lemma ReachedRow(g: Grid, radius: int, b: bool, ex: int, ey: int)
    requires WellShaped(g) && ex >= g.width - 1
    ensures forall x, y :: ReachedBefore(g, radius, b, x, y, ex, ey) <==> ReachedBefore(g, radius, b, x, y, 1, ey + 1)
  {
    forall x, y
      ensures ReachedBefore(g, radius, b, x, y, ex, ey) <==> ReachedBefore(g, radius, b, x, y, 1, ey + 1)
    {
      if ReachedBefore(g, radius, b, x, y, ex, ey) {
        var cx, cy :| IsEdge(g, cx, cy, b) && InDisk(x - cx, y - cy, radius) && ScannedBefore(cx, cy, ex, ey);
        assert ScannedBefore(cx, cy, 1, ey + 1);
      }
      if ReachedBefore(g, radius, b, x, y, 1, ey + 1) {
        var cx, cy :| IsEdge(g, cx, cy, b) && InDisk(x - cx, y - cy, radius) && ScannedBefore(cx, cy, 1, ey + 1);
        assert ScannedBefore(cx, cy, ex, ey);
      }
    }
  }

  /** Before the first interior row nothing is reached; after the last one everything is. */
  lemma ReachedEnds(g: Grid, radius: int, b: bool, ey: int)
    requires WellShaped(g) && ey >= g.height - 1
    ensures forall x, y :: !ReachedBefore(g, radius, b, x, y, 1, 1)
    ensures forall x, y :: ReachedBefore(g, radius, b, x, y, 1, ey) <==> Reached(g, radius, b, x, y)
  {
    forall x, y
      ensures ReachedBefore(g, radius, b, x, y, 1, ey) <==> Reached(g, radius, b, x, y)
    {
      if Reached(g, radius, b, x, y) {
        var cx, cy :| IsEdge(g, cx, cy, b) && InDisk(x - cx, y - cy, radius);
        assert ScannedBefore(cx, cy, 1, ey);
      }
    }
  }

  /**
   The stamping loops: every in-range pixel whose offset from (cx, cy) is in
   the disk reads `value` afterwards, and every other pixel reads as before.
   */
  method Stamp(img: BI.Image, cx: int, cy: int, radius: int, value: BI.BinaryValue) returns (r: BI.Image)
    requires BI.Valid(img)
    ensures BI.Valid(r) && BI.SameShape(r, img)
    ensures forall x, y :: InBounds(img.width, img.height, x, y) ==>
      BI.Get(r, x, y) == if InDisk(x - cx, y - cy, radius) then value else BI.Get(img, x, y)
  {
    r := img;
    var w, h := img.width, img.height;
    var rr := radius * radius;
    var dy := -radius;
    while dy <= radius
      invariant BI.Valid(r) && BI.SameShape(r, img)
      invariant -radius <= dy && (radius >= 0 ==> dy <= radius + 1)
      invariant forall x, y :: InBounds(img.width, img.height, x, y) ==>
        BI.Get(r, x, y) ==
          if InDisk(x - cx, y - cy, radius) && ScannedBefore(x - cx, y - cy, -radius, dy) then value
          else BI.Get(img, x, y)
    {
      var dx := -radius;
      while dx <= radius
        invariant BI.Valid(r) && BI.SameShape(r, img)
        invariant -radius <= dx <= radius + 1
        invariant forall x, y :: InBounds(img.width, img.height, x, y) ==>
          BI.Get(r, x, y) ==
            if InDisk(x - cx, y - cy, radius) && ScannedBefore(x - cx, y - cy, dx, dy) then value
            else BI.Get(img, x, y)
      {
        if dx * dx + dy * dy < rr {
          var x1 := cx + dx;
          var y1 := cy + dy;
          if 0 <= x1 < w && 0 <= y1 < h {
            assert x1 - cx == dx && y1 - cy == dy;
            r := BI.Set(r, x1, y1, value);
          }
        }
        dx := dx + 1;
      }
      dy := dy + 1;
    }
  }

  /** The edge test of `dilate` (b = true) and of `erode` (b = false), read off the words. */
  function EdgeAt(src: BI.Image, x: int, y: int, b: bool): (e: bool)
    requires BI.Valid(src)
    requires 1 <= x < src.width - 1 && 1 <= y < src.height - 1
    ensures e == IsEdge(BI.View(src), x, y, b)
  {
    BI.ViewAt(src, x, y);
    BI.ViewAt(src, x - 1, y);
    BI.ViewAt(src, x + 1, y);
    BI.ViewAt(src, x, y - 1);
    BI.ViewAt(src, x, y + 1);
    if b then
      BI.Get(src, x, y) == 1 &&
      !(BI.Get(src, x - 1, y) == 1 && BI.Get(src, x + 1, y) == 1 && BI.Get(src, x, y - 1) == 1 && BI.Get(src, x, y + 1) == 1)
    else
      BI.Get(src, x, y) != 1 &&
      (BI.Get(src, x - 1, y) == 1 || BI.Get(src, x + 1, y) == 1 || BI.Get(src, x, y - 1) == 1 || BI.Get(src, x, y + 1) == 1)
  }

  /**
   The scan shared by `dilate` and `erode`: copy `src`, then stamp `b` around
   every edge of `src`, visiting interior rows and columns in order.
   */
  method Morph(src: BI.Image, radius: int, b: bool) returns (dst: BI.Image)
    requires BI.Valid(src)
    ensures BI.Valid(dst) && BI.SameShape(dst, src)
    ensures BI.View(dst) == Spread(BI.View(src), radius, b)
  {
    ghost var g := BI.View(src);
    var value: BI.BinaryValue := if b then 1 else 0;
    dst := src;
    var w: int, h: int := src.width, src.height;
    ReachedEnds(g, radius, b, h - 1);
    var y := 1;
    while y < h - 1
      invariant BI.Valid(dst) && BI.SameShape(dst, src)
      invariant 1 <= y
      invariant forall px, py :: InBounds(src.width, src.height, px, py) ==>
        BI.Get(dst, px, py) == if ReachedBefore(g, radius, b, px, py, 1, y) then value else BI.Get(src, px, py)
    {
      var x := 1;
      while x < w - 1
        invariant BI.Valid(dst) && BI.SameShape(dst, src)
        invariant 1 <= x
        invariant forall px, py :: InBounds(src.width, src.height, px, py) ==>
          BI.Get(dst, px, py) == if ReachedBefore(g, radius, b, px, py, x, y) then value else BI.Get(src, px, py)
      {
        ReachedStep(g, radius, b, x, y);
        if EdgeAt(src, x, y, b) {
          dst := Stamp(dst, x, y, radius, value);
        }
        x := x + 1;
      }
      ReachedRow(g, radius, b, x, y);
      y := y + 1;
    }
    ReachedEnds(g, radius, b, y);
    BI.ViewIs(dst, Spread(g, radius, b));
  }

  /**
   `dst.dilate(src, radius)`: every pixel within the disk of an interior
   set pixel (1 <= x <= width - 2, 1 <= y <= height - 2) with an unset
   4-neighbour is set, every other pixel is copied from `src`, and so the
   result is a superset of `src`.
   */
  method Dilate(src: BI.Image, radius: int) returns (dst: BI.Image)
    requires BI.Valid(src)
    ensures BI.Valid(dst) && BI.SameShape(dst, src)
    ensures BI.View(dst) == Spread(BI.View(src), radius, true)
    ensures forall cx, cy, x, y ::
      IsEdge(BI.View(src), cx, cy, true) && InBounds(src.width, src.height, x, y) && InDisk(x - cx, y - cy, radius) ==>
        At(BI.View(dst), x, y)
    ensures forall x, y :: InBounds(src.width, src.height, x, y) && !Reached(BI.View(src), radius, true, x, y) ==>
      At(BI.View(dst), x, y) == At(BI.View(src), x, y)
    ensures Subset(BI.View(src), BI.View(dst))
    ensures radius <= 1 ==> BI.View(dst) == BI.View(src)
  {
    dst := Morph(src, radius, true);
    SpreadCovers(BI.View(src), radius, true);
    if radius <= 1 {
      SmallRadiusKeeps(BI.View(src), radius, true);
    }
  }

  /**
   `dst.erode(src, radius)`: every pixel within the disk of an interior
   unset pixel (1 <= x <= width - 2, 1 <= y <= height - 2) with a set
   4-neighbour is cleared, every other pixel is copied from `src`, and so
   the result is a subset of `src`.
   */
  method Erode(src: BI.Image, radius: int) returns (dst: BI.Image)
    requires BI.Valid(src)
    ensures BI.Valid(dst) && BI.SameShape(dst, src)
    ensures BI.View(dst) == Spread(BI.View(src), radius, false)
    ensures forall cx, cy, x, y ::
      IsEdge(BI.View(src), cx, cy, false) && InBounds(src.width, src.height, x, y) && InDisk(x - cx, y - cy, radius) ==>
        !At(BI.View(dst), x, y)
    ensures forall x, y :: InBounds(src.width, src.height, x, y) && !Reached(BI.View(src), radius, false, x, y) ==>
      At(BI.View(dst), x, y) == At(BI.View(src), x, y)
    ensures Subset(BI.View(dst), BI.View(src))
    ensures radius <= 1 ==> BI.View(dst) == BI.View(src)
  {
    dst := Morph(src, radius, false);
    SpreadCovers(BI.View(src), radius, false);
    if radius <= 1 {
      SmallRadiusKeeps(BI.View(src), radius, false);
    }
  }
}
