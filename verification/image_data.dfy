/**
 Conversion between a packed binary image and a canvas `ImageData`: a
 `width` by `height` picture stored row by row as 4 bytes (red, green,
 blue, alpha) per pixel, so pixel (x, y) owns the bytes from
 `(y * width + x) * 4` to 4 further on.
 */
module Canvas {
  import opened Raster
  import BI = BinaryImage

  /** A byte of a `Uint8ClampedArray`. */
  type Byte = b: int | 0 <= b < 256

  datatype Option<T> = None | Some(value: T)

  datatype ImageData = ImageData(width: nat, height: nat, data: seq<Byte>)

  /** Four bytes for every pixel. */
  predicate WellFormed(im: ImageData) {
    |im.data| == 4 * im.width * im.height
  }

  /** First byte of pixel (x, y) in a picture `width` pixels wide. */
  function Offset(width: nat, x: int, y: int): int {
    (y * width + x) * 4
  }

  /** The four bytes of a pixel lie inside the buffer. */
  lemma OffsetInRange(width: nat, height: nat, x: int, y: int)
    requires 0 <= x < width && 0 <= y < height
    ensures 0 <= Offset(width, x, y) && Offset(width, x, y) + 4 <= 4 * width * height
  {
    assert y * width >= 0;
    assert y * width + x < (y + 1) * width <= height * width;
  }

  /** Two different pixels own disjoint runs of four bytes. */
  lemma OffsetsApart(width: nat, x: int, y: int, x': int, y': int)
    requires 0 <= x < width && 0 <= y && 0 <= x' < width && 0 <= y'
    requires (x, y) != (x', y')
    ensures Offset(width, x, y) + 4 <= Offset(width, x', y') || Offset(width, x', y') + 4 <= Offset(width, x, y)
  {
    if y < y' {
      assert y * width + x < (y + 1) * width <= y' * width;
    } else if y' < y {
      assert y' * width + x' < (y' + 1) * width <= y * width;
    }
  }

  /** The colour of pixel (x, y): the slice `data[offset .. offset + 4]`. */
  function Rgba(im: ImageData, x: int, y: int): (c: seq<Byte>)
    requires WellFormed(im) && InBounds(im.width, im.height, x, y)
    ensures |c| == 4
    ensures 0 <= Offset(im.width, x, y) && Offset(im.width, x, y) + 4 <= |im.data|
  {
    OffsetInRange(im.width, im.height, x, y);
    im.data[Offset(im.width, x, y)..Offset(im.width, x, y) + 4]
  }

  /** Byte `k` of a pixel's colour is byte `offset + k` of the buffer: red, green, blue, alpha in order. */
  lemma RgbaBytes(im: ImageData, x: int, y: int, k: int)
    requires WellFormed(im) && InBounds(im.width, im.height, x, y) && 0 <= k < 4
    ensures 0 <= Offset(im.width, x, y) + k < |im.data|
    ensures Rgba(im, x, y)[k] == im.data[Offset(im.width, x, y) + k]
  {
    OffsetInRange(im.width, im.height, x, y);
    var o := Offset(im.width, x, y);
    assert Rgba(im, x, y) == im.data[o..o + 4];
  }

  /** Two buffers of one shape whose pixels all carry the same colour are equal. */
  lemma {:induction false} RgbaDetermines(a: ImageData, b: ImageData)
    requires WellFormed(a) && WellFormed(b) && a.width == b.width && a.height == b.height
    requires forall x, y :: InBounds(a.width, a.height, x, y) ==> Rgba(a, x, y) == Rgba(b, x, y)
    ensures a == b
  {
    var w := a.width;
    forall i | 0 <= i < |a.data|
      ensures a.data[i] == b.data[i]
    {
      var p := i / 4;
      var x, y := p % w, p / w;
      assert w > 0;
      assert p == y * w + x;
      assert p < w * a.height;
      MulLeq(a.height, y, w);
      assert Offset(w, x, y) == 4 * p;
      assert a.data[i] == Rgba(a, x, y)[i - 4 * p];
      assert b.data[i] == Rgba(b, x, y)[i - 4 * p];
    }
  }

  /**
   `new ImageData(width, height)`: every byte zero. The constructor throws
   when either size is zero, so both must be positive.
   */
  function Blank(width: nat, height: nat): (im: ImageData)
    requires width > 0 && height > 0
    ensures WellFormed(im) && im.width == width && im.height == height
    ensures forall i :: 0 <= i < |im.data| ==> im.data[i] == 0
  {
    ImageData(width, height, seq(4 * width * height, _ => 0))
  }

  /**
   `image.data.set(rgba, offset)` for the offset of pixel (x, y): the
   pixel takes colour `c` and every other pixel keeps its colour.
   */
  function Paint(im: ImageData, x: int, y: int, c: seq<Byte>): (r: ImageData)
    requires WellFormed(im) && InBounds(im.width, im.height, x, y) && |c| == 4
    ensures WellFormed(r) && r.width == im.width && r.height == im.height
    ensures Rgba(r, x, y) == c
    ensures forall x', y' :: InBounds(im.width, im.height, x', y') && (x', y') != (x, y) ==> Rgba(r, x', y') == Rgba(im, x', y')
  {
    OffsetInRange(im.width, im.height, x, y);
    var o := Offset(im.width, x, y);
    var r := im.(data := im.data[..o] + c + im.data[o + 4..]);
    assert r.data[o..o + 4] == c;
    forall x', y' | InBounds(im.width, im.height, x', y') && (x', y') != (x, y)
      ensures Rgba(r, x', y') == Rgba(im, x', y')
    {
      OffsetsApart(im.width, x, y, x', y');
      OffsetInRange(im.width, im.height, x', y');
      var o' := Offset(im.width, x', y');
      assert r.data[o'..o' + 4] == im.data[o'..o' + 4];
    }
    r
  }

  /** The picture `fromImageData` builds: a pixel is set when `test` accepts its colour. */
  function Classify(im: ImageData, test: seq<Byte> -> BI.BinaryValue): (g: Grid)
    requires WellFormed(im)
    ensures WellShaped(g) && g.width == im.width && g.height == im.height
  {
    Grid(im.width, im.height,
      seq(im.height, y requires 0 <= y < im.height =>
        seq(im.width, x requires 0 <= x < im.width => test(Rgba(im, x, y)) == 1)))
  }

  /** `BinaryImage.fromImageData(image, test)`. */
  method FromImageData(image: ImageData, test: seq<Byte> -> BI.BinaryValue) returns (ret: BI.Image)
    requires WellFormed(image)
    ensures BI.Valid(ret) && ret.width == image.width && ret.height == image.height
    ensures forall x, y :: InBounds(image.width, image.height, x, y) ==> BI.Get(ret, x, y) == test(Rgba(image, x, y))
    ensures BI.View(ret) == Classify(image, test)
  {
    ret := BI.New(image.width, image.height);
    var y := 0;
    while y < image.height
      invariant 0 <= y <= image.height
      invariant BI.Valid(ret) && ret.width == image.width && ret.height == image.height
      invariant forall px, py :: InBounds(image.width, image.height, px, py) && ScannedBefore(px, py, 0, y) ==>
        BI.Get(ret, px, py) == test(Rgba(image, px, py))
    {
      var x := 0;
      while x < image.width
        invariant 0 <= x <= image.width
        invariant BI.Valid(ret) && ret.width == image.width && ret.height == image.height
        invariant forall px, py :: InBounds(image.width, image.height, px, py) && ScannedBefore(px, py, x, y) ==>
          BI.Get(ret, px, py) == test(Rgba(image, px, py))
      {
        OffsetInRange(image.width, image.height, x, y);
        var offset := Offset(image.width, x, y);
        var rgba := image.data[offset..offset + 4];
        ret := BI.Set(ret, x, y, test(rgba));
        x := x + 1;
      }
      y := y + 1;
    }
    BI.ViewIs(ret, Classify(image, test));
  }

  /**
   `toImageData(color0, color1, out)`: into `out`, or a new buffer of the
   image's size, write `color1` for every set pixel and `color0` for every
   clear one. The loops cover `out`'s own width and height.
   */
  method ToImageData(img: BI.Image, color0: seq<Byte>, color1: seq<Byte>, out: Option<ImageData>)
    returns (image: ImageData)
    requires BI.Valid(img) && |color0| == 4 && |color1| == 4
    requires out.Some? ==> WellFormed(out.value) && out.value.width <= img.width && out.value.height <= img.height
    requires out.None? ==> img.width > 0 && img.height > 0
    ensures WellFormed(image)
    ensures out.None? ==> image.width == img.width && image.height == img.height
    ensures out.Some? ==> image.width == out.value.width && image.height == out.value.height
    ensures forall x, y :: InBounds(image.width, image.height, x, y) ==>
      Rgba(image, x, y) == if BI.Get(img, x, y) == 1 then color1 else color0
  {
    image := if out.Some? then out.value else Blank(img.width, img.height);
    var y := 0;
    while y < image.height
      invariant 0 <= y <= image.height
      invariant WellFormed(image) && image.width <= img.width && image.height <= img.height
      invariant out.None? ==> image.width == img.width && image.height == img.height
      invariant out.Some? ==> image.width == out.value.width && image.height == out.value.height
      invariant forall px, py :: InBounds(image.width, image.height, px, py) && ScannedBefore(px, py, 0, y) ==>
        Rgba(image, px, py) == if BI.Get(img, px, py) == 1 then color1 else color0
    {
      var x := 0;
      while x < image.width
        invariant 0 <= x <= image.width
        invariant WellFormed(image) && image.width <= img.width && image.height <= img.height
        invariant out.None? ==> image.width == img.width && image.height == img.height
        invariant out.Some? ==> image.width == out.value.width && image.height == out.value.height
        invariant forall px, py :: InBounds(image.width, image.height, px, py) && ScannedBefore(px, py, x, y) ==>
          Rgba(image, px, py) == if BI.Get(img, px, py) == 1 then color1 else color0
      {
        var rgba := if BI.Get(img, x, y) == 1 then color1 else color0;
        image := Paint(image, x, y, rgba);
        x := x + 1;
      }
      y := y + 1;
    }
  }

  /**
   Reading back a rendered buffer with a test that tells the two colours
   apart gives the original picture.
   */
  lemma {:induction false} RenderThenClassify(img: BI.Image, color0: seq<Byte>, color1: seq<Byte>,
                                              image: ImageData, test: seq<Byte> -> BI.BinaryValue)
    requires BI.Valid(img) && WellFormed(image) && image.width == img.width && image.height == img.height
    requires |color0| == 4 && |color1| == 4 && test(color0) == 0 && test(color1) == 1
    requires forall x, y :: InBounds(image.width, image.height, x, y) ==>
      Rgba(image, x, y) == if BI.Get(img, x, y) == 1 then color1 else color0
    ensures Classify(image, test) == BI.View(img)
  {
    var g := Classify(image, test);
    forall x, y | InBounds(g.width, g.height, x, y)
      ensures At(g, x, y) == At(BI.View(img), x, y)
    {
      BI.ViewAt(img, x, y);
    }
    Extensionality(g, BI.View(img));
  }
}
