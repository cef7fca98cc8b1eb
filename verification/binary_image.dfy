/**
 The packed binary raster `BinaryImage` of src/BinaryImage.ts.

 Pixel (x, y) of a `width` by `height` image lives in word
 `y * stride + (x >> 5)` at bit `x & 31`, where `stride` is the number of
 32-bit words per row. Bits past `width` in the last word of a row are
 padding. `View` is the abstraction from the words to the pictured grid.
 */
module BinaryImage {
  import opened Words
  import Raster

  /** A pixel value as the source passes it around: 0 or 1. */
  type BinaryValue = v: int | 0 <= v <= 1

  datatype Image = Image(width: nat, height: nat, data: seq<bv32>)

  /** Words per row: `Math.ceil(width / 32)`. */
  function Stride(width: nat): (s: nat)
    ensures width <= 32 * s
    ensures s == 0 || 32 * (s - 1) < width
  {
    (width + 31) / 32
  }

  /** The image holds exactly `stride * height` words. */
  predicate Valid(img: Image) {
    |img.data| == Stride(img.width) * img.height
  }

  predicate SameShape(a: Image, b: Image) {
    a.width == b.width && a.height == b.height
  }

  /** The word that holds column `x` of row `y`: `y * stride + (x >> 5)`. */
  function Index(width: nat, x: nat, y: nat): nat {
    y * Stride(width) + x / 32
  }

  /** Every in-range pixel's word exists. */
  lemma IndexInRange(width: nat, height: nat, x: nat, y: nat)
    requires x < width && y < height
    ensures Index(width, x, y) < Stride(width) * height
  {
    var s := Stride(width);
    assert x / 32 < s;
    Raster.MulLeq(y + 1, height, s);
    assert Index(width, x, y) < (y + 1) * s;
  }

  /** Two different pixels differ in their word or in their bit. */
  lemma IndexSeparates(width: nat, x: nat, y: nat, x': nat, y': nat)
    requires x < width && x' < width
    requires x != x' || y != y'
    ensures Index(width, x, y) != Index(width, x', y') || x % 32 != x' % 32
  {
    var s := Stride(width);
    assert x / 32 < s && x' / 32 < s;
    if y < y' {
      Raster.MulLeq(y + 1, y', s);
      assert Index(width, x, y) < (y + 1) * s <= Index(width, x', y');
    } else if y' < y {
      Raster.MulLeq(y' + 1, y, s);
      assert Index(width, x', y') < (y' + 1) * s <= Index(width, x, y);
    } else if x / 32 == x' / 32 {
      assert x == 32 * (x / 32) + x % 32;
      assert x' == 32 * (x' / 32) + x' % 32;
    }
  }

  /**
   A freshly constructed image: `stride * height` words, all zero, so every
   pixel reads 0.
   */
  function New(width: nat, height: nat): (img: Image)
    ensures Valid(img) && img.width == width && img.height == height
    ensures |img.data| == Stride(width) * height
    ensures forall i :: 0 <= i < |img.data| ==> img.data[i] == 0
    ensures forall x, y :: Raster.InBounds(img.width, img.height, x, y) ==> Get(img, x, y) == 0
  {
    var img := Image(width, height, seq(Stride(width) * height, _ => 0));
    NewIsBlank(img);
    img
  }

  lemma NewIsBlank(img: Image)
    requires Valid(img)
    requires forall i :: 0 <= i < |img.data| ==> img.data[i] == 0
    ensures forall x, y :: Raster.InBounds(img.width, img.height, x, y) ==> Get(img, x, y) == 0
  {
    forall x, y | Raster.InBounds(img.width, img.height, x, y)
      ensures Get(img, x, y) == 0
    {
      IndexInRange(img.width, img.height, x, y);
      ZeroBit(x % 32);
    }
  }

  /** `get(x, y)`: bit `x & 31` of word `y * stride + (x >> 5)`. */
  function Get(img: Image, x: int, y: int): (v: BinaryValue)
    requires Valid(img) && Raster.InBounds(img.width, img.height, x, y)
    ensures Index(img.width, x, y) < |img.data|
  {
    IndexInRange(img.width, img.height, x, y);
    if Bit(img.data[Index(img.width, x, y)], x % 32) then 1 else 0
  }

  /**
   `get` in the source's own terms: with `xcell = x >> 5` and
   `xbit = x - (xcell << 5)`, the pixel is `(cell >> xbit) & 1` of
   `cell = data[y * stride + xcell]`.
   */
  lemma GetReadsWord(img: Image, x: int, y: int)
    requires Valid(img) && Raster.InBounds(img.width, img.height, x, y)
    ensures Index(img.width, x, y) == y * Stride(img.width) + x / 32 < |img.data|
    ensures Pos(x % 32) as int == x % 32
    ensures Get(img, x, y) == 1 <==> (img.data[Index(img.width, x, y)] >> Pos(x % 32)) & 1 == 1
  {
    IndexInRange(img.width, img.height, x, y);
    PosValue(x % 32);
    var w, p := img.data[Index(img.width, x, y)], Pos(x % 32);
    assert Get(img, x, y) == 1 <==> BitBv(w, p);
  }

  /** The word after `set` writes `value` into bit `k` of `cell`. */
  function SetWord(cell: bv32, k: nat, value: BinaryValue): bv32
    requires k < 32
  {
    if value != 0 then cell | Mask(k) else cell & !Mask(k)
  }

  /** Bit `j` of the written word: `value` at `k`, unchanged elsewhere. */
  lemma SetWordBit(cell: bv32, k: nat, value: BinaryValue, j: nat)
    requires k < 32 && j < 32
    ensures Bit(SetWord(cell, k, value), j) <==> if j == k then value == 1 else Bit(cell, j)
  {
    if value != 0 {
      SetBit(cell, k, j);
    } else {
      ClearBit(cell, k, j);
    }
  }

  /**
   `set(x, y, value)`: the pixel reads `value` afterwards and every other
   pixel, including the others held in the same word, reads as before.
   */
  function Set(img: Image, x: int, y: int, value: BinaryValue): (r: Image)
    requires Valid(img) && Raster.InBounds(img.width, img.height, x, y)
    ensures Valid(r) && SameShape(r, img)
    ensures Get(r, x, y) == value
    ensures forall x', y' :: Raster.InBounds(img.width, img.height, x', y') && (x' != x || y' != y) ==>
      Get(r, x', y') == Get(img, x', y')
  {
    IndexInRange(img.width, img.height, x, y);
    var i := Index(img.width, x, y);
    var r := img.(data := img.data[i := SetWord(img.data[i], x % 32, value)]);
    SetWordPixels(img, r, x, y, value);
    r
  }

  lemma SetWordPixels(img: Image, r: Image, x: nat, y: nat, value: BinaryValue)
    requires Valid(img) && Raster.InBounds(img.width, img.height, x, y)
    requires Index(img.width, x, y) < |img.data|
    requires r == img.(data := img.data[Index(img.width, x, y) :=
      SetWord(img.data[Index(img.width, x, y)], x % 32, value)])
    ensures Valid(r)
    ensures Get(r, x, y) == value
    ensures forall x', y' :: Raster.InBounds(img.width, img.height, x', y') && (x' != x || y' != y) ==>
      Get(r, x', y') == Get(img, x', y')
  {
    var i := Index(img.width, x, y);
    var cell := img.data[i];
    SetWordBit(cell, x % 32, value, x % 32);
    forall x', y' | Raster.InBounds(img.width, img.height, x', y') && (x' != x || y' != y)
      ensures Get(r, x', y') == Get(img, x', y')
    {
      IndexInRange(img.width, img.height, x', y');
      IndexSeparates(img.width, x, y, x', y');
      if Index(img.width, x', y') == i {
        SetWordBit(cell, x % 32, value, x' % 32);
      }
    }
  }

  /** The grid the words picture. */
  function View(img: Image): (g: Raster.Grid)
    requires Valid(img)
    ensures Raster.WellShaped(g) && g.width == img.width && g.height == img.height
  {
    Raster.Grid(img.width, img.height,
      seq(img.height, y requires 0 <= y < img.height =>
        seq(img.width, x requires 0 <= x < img.width => Get(img, x, y) == 1)))
  }

  /** Cell (x, y) of the picture is set exactly when pixel (x, y) reads 1. */
  lemma ViewAt(img: Image, x: int, y: int)
    requires Valid(img) && Raster.InBounds(img.width, img.height, x, y)
    ensures Raster.At(View(img), x, y) <==> Get(img, x, y) == 1
  {}

  /** An image pictures `g` when they agree on every pixel. */
  lemma ViewIs(img: Image, g: Raster.Grid)
    requires Valid(img) && Raster.WellShaped(g)
    requires g.width == img.width && g.height == img.height
    requires forall x, y :: Raster.InBounds(img.width, img.height, x, y) ==> (Get(img, x, y) == 1) == Raster.At(g, x, y)
    ensures View(img) == g
  {
    Raster.Extensionality(View(img), g);
  }

  /** After `set(x, y, v)` the picture is the old one with cell (x, y) replaced. */
  lemma SetView(img: Image, x: int, y: int, value: BinaryValue)
    requires Valid(img) && Raster.InBounds(img.width, img.height, x, y)
    ensures View(Set(img, x, y, value)) == Raster.Update(View(img), x, y, value == 1)
  {
    var r := Set(img, x, y, value);
    ViewIs(r, Raster.Update(View(img), x, y, value == 1));
  }

  /** Writing the value a pixel already has changes no pixel. */
  lemma SetGet(img: Image, x: int, y: int)
    requires Valid(img) && Raster.InBounds(img.width, img.height, x, y)
    ensures View(Set(img, x, y, Get(img, x, y))) == View(img)
  {
    var r := Set(img, x, y, Get(img, x, y));
    ViewIs(r, View(img));
  }

  /** Writing twice to one pixel is the same as writing the second value. */
  lemma SetSet(img: Image, x: int, y: int, v: BinaryValue, w: BinaryValue)
    requires Valid(img) && Raster.InBounds(img.width, img.height, x, y)
    ensures View(Set(Set(img, x, y, v), x, y, w)) == View(Set(img, x, y, w))
  {
    var r1 := Set(Set(img, x, y, v), x, y, w);
    var r2 := Set(img, x, y, w);
    ViewIs(r1, View(r2));
  }

  /** Pixel (x, y) of words combined with `a & ~b`. */
  lemma AndNotPixel(a: Image, b: Image, r: Image, x: int, y: int)
    requires Valid(a) && Valid(b) && Valid(r) && SameShape(a, b) && SameShape(r, a)
    requires Raster.InBounds(a.width, a.height, x, y)
    requires Index(a.width, x, y) < |r.data|
    requires r.data[Index(a.width, x, y)] == a.data[Index(a.width, x, y)] & !b.data[Index(a.width, x, y)]
    ensures (Get(r, x, y) == 1) == (Get(a, x, y) == 1 && Get(b, x, y) != 1)
  {
    var k := Index(a.width, x, y);
    AndNotBit(a.data[k], b.data[k], x % 32);
  }

  /** Pixel (x, y) of words combined with `a | b`. */
  lemma OrPixel(a: Image, b: Image, r: Image, x: int, y: int)
    requires Valid(a) && Valid(b) && Valid(r) && SameShape(a, b) && SameShape(r, a)
    requires Raster.InBounds(a.width, a.height, x, y)
    requires Index(a.width, x, y) < |r.data|
    requires r.data[Index(a.width, x, y)] == a.data[Index(a.width, x, y)] | b.data[Index(a.width, x, y)]
    ensures (Get(r, x, y) == 1) == (Get(a, x, y) == 1 || Get(b, x, y) == 1)
  {
    var k := Index(a.width, x, y);
    OrBit(a.data[k], b.data[k], x % 32);
  }

  /** Words combined one by one with `a & ~b` picture the cell-wise difference. */
  lemma WordwiseAndNot(a: Image, b: Image, r: Image)
    requires Valid(a) && Valid(b) && SameShape(a, b) && SameShape(r, a)
    requires |r.data| == |a.data|
    requires forall j :: 0 <= j < |r.data| ==> r.data[j] == a.data[j] & !b.data[j]
    ensures Valid(r) && View(r) == Raster.AndNot(View(a), View(b))
  {
    forall x, y | Raster.InBounds(r.width, r.height, x, y)
      ensures (Get(r, x, y) == 1) == Raster.At(Raster.AndNot(View(a), View(b)), x, y)
    {
      IndexInRange(a.width, a.height, x, y);
      AndNotPixel(a, b, r, x, y);
    }
    ViewIs(r, Raster.AndNot(View(a), View(b)));
  }

  /** Words combined one by one with `a | b` picture the cell-wise union. */
  lemma WordwiseOr(a: Image, b: Image, r: Image)
    requires Valid(a) && Valid(b) && SameShape(a, b) && SameShape(r, a)
    requires |r.data| == |a.data|
    requires forall j :: 0 <= j < |r.data| ==> r.data[j] == a.data[j] | b.data[j]
    ensures Valid(r) && View(r) == Raster.Or(View(a), View(b))
  {
    forall x, y | Raster.InBounds(r.width, r.height, x, y)
      ensures (Get(r, x, y) == 1) == Raster.At(Raster.Or(View(a), View(b)), x, y)
    {
      IndexInRange(a.width, a.height, x, y);
      OrPixel(a, b, r, x, y);
    }
    ViewIs(r, Raster.Or(View(a), View(b)));
  }

  /**
   `a.sub(b)`: every word becomes `a & ~b`, so a pixel stays set exactly
   when it was set in `a` and is not set in `b`.
   */
  method Sub(a: Image, b: Image) returns (r: Image)
    requires Valid(a) && Valid(b) && SameShape(a, b)
    ensures Valid(r) && SameShape(r, a)
    ensures View(r) == Raster.AndNot(View(a), View(b))
    ensures Raster.Subset(View(r), View(a))
  {
    var data := a.data;
    var i := 0;
    while i < |data|
      invariant |data| == |a.data| && 0 <= i <= |data|
      invariant forall j :: 0 <= j < i ==> data[j] == a.data[j] & !b.data[j]
      invariant forall j :: i <= j < |data| ==> data[j] == a.data[j]
    {
      data := data[i := data[i] & !b.data[i]];
      i := i + 1;
    }
    r := a.(data := data);
    WordwiseAndNot(a, b, r);
  }

  /**
   `a.add(b)`: every word becomes `a | b`, so a pixel is set exactly when it
   was set in `a` or in `b`.
   */
  method Add(a: Image, b: Image) returns (r: Image)
    requires Valid(a) && Valid(b) && SameShape(a, b)
    ensures Valid(r) && SameShape(r, a)
    ensures View(r) == Raster.Or(View(a), View(b))
    ensures Raster.Subset(View(a), View(r)) && Raster.Subset(View(b), View(r))
  {
    var data := a.data;
    var i := 0;
    assert |b.data| == |a.data|;
    while i < |b.data|
      invariant |data| == |a.data| && 0 <= i <= |data|
      invariant forall j :: 0 <= j < i ==> data[j] == a.data[j] | b.data[j]
      invariant forall j :: i <= j < |data| ==> data[j] == a.data[j]
    {
      data := data[i := data[i] | b.data[i]];
      i := i + 1;
    }
    r := a.(data := data);
    WordwiseOr(a, b, r);
  }
}
