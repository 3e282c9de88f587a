/** BitmapExtensions: the pixel-buffer sizing of both ConvertToByteArray
    overloads. C# evaluates `int` arithmetic unchecked, so the products
    wrap around at 32 bits, `/` truncates toward zero, and allocating an
    array of negative length throws OverflowException. The pixel bytes
    CopyPixels writes are not modelled, only the array it writes into. */
module BitmapExtensions {
  import opened Wrappers

  const TwoTo31: int := 0x8000_0000
  const TwoTo32: int := 0x1_0000_0000

  /** A C# `int`. */
  type Int32 = x: int | -0x8000_0000 <= x < 0x8000_0000

  /** Two's-complement truncation of an exact product to 32 bits. */
  function Wrap(x: int): (r: Int32)
    ensures (r - x) % TwoTo32 == 0
    ensures -TwoTo31 <= x < TwoTo31 ==> r == x
  {
    (x + TwoTo31) % TwoTo32 - TwoTo31
  }

  /** C# integer division by a positive divisor: rounds toward zero. */
  function TruncDiv(a: int, b: int): (q: int)
    requires b > 0
    ensures a >= 0 ==> 0 <= q * b <= a < q * b + b
    ensures a < 0 ==> q * b - b < a <= q * b <= 0
  {
    if a >= 0 then DivBounds(a, b); a / b
    else DivBounds(-a, b); -((-a) / b)
  }

  lemma DivBounds(a: int, b: int)
    requires a >= 0 && b > 0
    ensures 0 <= (a / b) * b <= a < (a / b) * b + b
  {
    var q, m := a / b, a % b;
    assert a == q * b + m && 0 <= m < b;
    assert q >= 0;
  }

  /** The pixel dimensions and format depth both bitmap kinds expose. */
  datatype PixelSize = PixelSize(pixelWidth: Int32, pixelHeight: Int32, bitsPerPixel: Int32)

  /** The receivers of the two overloads. */
  datatype WriteableBitmap = Writeable(pixels: PixelSize)
  datatype RenderTargetBitmap = RenderTarget(pixels: PixelSize)

  /** What a call produces: null, a byte array handed to CopyPixels with
      this stride, or the OverflowException of `new byte[size]` with a
      negative size. */
  datatype ByteArray =
    | Null
    | Buffer(length: nat, stride: Int32)
    | OverflowException

  /** The `stride` local of ConvertToByteArray, as C# computes it. */
  function Stride(p: PixelSize): Int32
  {
    TruncDiv(Wrap(p.pixelWidth * p.bitsPerPixel), 8)
  }

  /** The `size` local of ConvertToByteArray, as C# computes it. */
  function StoredSize(p: PixelSize): Int32
  {
    Wrap(Stride(p) * p.pixelHeight)
  }

  /** Neither product leaves the `int` range: the arithmetic is exact. */
  predicate NoOverflow(p: PixelSize)
  {
    && 0 <= p.pixelWidth * p.bitsPerPixel < TwoTo31
    && 0 <= (p.pixelWidth * p.bitsPerPixel / 8) * p.pixelHeight < TwoTo31
  }

  /** ConvertToByteArray on a WriteableBitmap: null for a
      null bitmap or an empty one; otherwise a buffer of `size` bytes, or
      OverflowException when the wrapped size is negative. When nothing
      overflows, the stride is the row's bit count divided by eight rounded
      down and the buffer holds `stride` bytes for every row. */
  function ConvertToByteArray(b: Option<WriteableBitmap>): (r: ByteArray)
    ensures r.Null? <==> b.None? || b.value.pixels.pixelHeight == 0 || b.value.pixels.pixelWidth == 0
    ensures r.OverflowException? <==> !r.Null? && StoredSize(b.value.pixels) < 0
    ensures r.Buffer? ==> r.stride == Stride(b.value.pixels) && r.length == StoredSize(b.value.pixels)
    ensures !r.Null? && NoOverflow(b.value.pixels) ==>
      var p := b.value.pixels;
      && r.Buffer?
      && r.stride * 8 <= p.pixelWidth * p.bitsPerPixel < r.stride * 8 + 8
      && r.length == r.stride * p.pixelHeight
  {
    if b.None? || b.value.pixels.pixelHeight == 0 || b.value.pixels.pixelWidth == 0 then Null
    else
      var p := b.value.pixels;
      var stride := Stride(p);
      var size := StoredSize(p);
      ExactWhenNoOverflow(p);
      if size < 0 then OverflowException else Buffer(size, stride)
  }

  /** ConvertToByteArray on a RenderTargetBitmap, a separate C# method
      with its own copy of the body. */
  function ConvertRenderTargetToByteArray(b: Option<RenderTargetBitmap>): (r: ByteArray)
    ensures r.Null? <==> b.None? || b.value.pixels.pixelHeight == 0 || b.value.pixels.pixelWidth == 0
    ensures r.OverflowException? <==> !r.Null? && StoredSize(b.value.pixels) < 0
    ensures r.Buffer? ==> r.stride == Stride(b.value.pixels) && r.length == StoredSize(b.value.pixels)
  {
    match b
    case None => Null
    case Some(RenderTarget(p)) =>
      if p.pixelHeight == 0 || p.pixelWidth == 0 then Null
      else
        var stride: Int32 := TruncDiv(Wrap(p.pixelWidth * p.bitsPerPixel), 8);
        var size: Int32 := Wrap(stride * p.pixelHeight);
        if size < 0 then OverflowException else Buffer(size, stride)
  }

  /** Without overflow, the C# stride and size are the exact ones. */
  lemma ExactWhenNoOverflow(p: PixelSize)
    ensures NoOverflow(p) ==>
      && Stride(p) == p.pixelWidth * p.bitsPerPixel / 8
      && StoredSize(p) == Stride(p) * p.pixelHeight >= 0
  {
    if NoOverflow(p) {
      var bits := p.pixelWidth * p.bitsPerPixel;
      assert Wrap(bits) == bits;
      assert Stride(p) == bits / 8;
      assert StoredSize(p) == Wrap(bits / 8 * p.pixelHeight);
    }
  }

  /** The two overloads agree: for a null receiver, or for receivers with
      equal pixel sizes, they produce the same result. */
  lemma OverloadsAgree(p: Option<PixelSize>)
    ensures var w := if p.None? then None else Some(Writeable(p.value));
      var t := if p.None? then None else Some(RenderTarget(p.value));
      ConvertToByteArray(w) == ConvertRenderTargetToByteArray(t)
  {
  }

  /** A 2^26-pixel-wide 32-bit row has 2^31 bits: the product wraps to a
      negative int and the allocation throws. */
  lemma WideRowOverflows()
    ensures ConvertToByteArray(Some(Writeable(PixelSize(0x400_0000, 1, 32)))) == OverflowException
  {
    var p := PixelSize(0x400_0000, 1, 32);
    assert p.pixelWidth * p.bitsPerPixel == TwoTo31;
    assert Wrap(TwoTo31) == -TwoTo31;
    assert Stride(p) == -0x1000_0000;
    assert StoredSize(p) == -0x1000_0000;
  }

  /** A 2^14-pixel-wide 32-bit bitmap 2^16 + 1 rows high needs 2^32 + 2^16
      bytes; the size wraps to 2^16, so the buffer is a single row. */
  lemma TallImageWrapsToOneRow()
    ensures var p := PixelSize(0x4000, 0x1_0001, 32);
      && !NoOverflow(p)
      && ConvertRenderTargetToByteArray(Some(RenderTarget(p))) == Buffer(0x1_0000, 0x1_0000)
  {
    var p := PixelSize(0x4000, 0x1_0001, 32);
    assert p.pixelWidth * p.bitsPerPixel == 0x8_0000;
    assert Stride(p) == 0x1_0000;
    assert Stride(p) * p.pixelHeight == 0x1_0001_0000;
    assert Wrap(0x1_0001_0000) == 0x1_0000;
  }
}
