/** The per-frame conversion step of a decoder (ConvertFrameToRGB): the
    downscale policy, the conversion buffer that is freed and reallocated on
    every frame, and the scaler context that is built once from the first
    frame. The pixels themselves are produced by FFmpeg and are not modelled;
    only sizes, pointers and the calls into the unmanaged heap are. */
module FrameConversion {
  import opened Wrappers

  /** A width at or above this is scaled down to CappedWidth. */
  const WidthThreshold: int := 1280
  const CappedWidth: int := 640
  /** A height at or above this is scaled down to CappedHeight. */
  const HeightThreshold: int := 720
  const CappedHeight: int := 480

  /** One axis of the downscale policy: at or above the threshold the axis
      is replaced by the cap, below it the source size is kept. */
  function DownscaleAxis(source: int, threshold: int, cap: int): int
  {
    if source >= threshold then cap else source
  }

  /** Destination size of a converted frame, as a (width, height) pair. */
  function DestinationSize(sourceWidth: int, sourceHeight: int): (d: (int, int))
    ensures d.0 < WidthThreshold && d.1 < HeightThreshold
    ensures d.0 <= sourceWidth && d.1 <= sourceHeight
    ensures d.0 == sourceWidth <==> sourceWidth < WidthThreshold
    ensures d.1 == sourceHeight <==> sourceHeight < HeightThreshold
    ensures sourceWidth >= WidthThreshold ==> d.0 == CappedWidth
    ensures sourceHeight >= HeightThreshold ==> d.1 == CappedHeight
  {
    (DownscaleAxis(sourceWidth, WidthThreshold, CappedWidth),
     DownscaleAxis(sourceHeight, HeightThreshold, CappedHeight))
  }

  /** The width policy never looks at the height and vice versa, and a
      converted size is already a fixed point of the policy. */
  lemma DownscaleAxesIndependent(w: int, h: int, w': int, h': int)
    ensures DestinationSize(w, h).0 == DestinationSize(w, h').0
    ensures DestinationSize(w, h).1 == DestinationSize(w', h).1
    ensures var d := DestinationSize(w, h); DestinationSize(d.0, d.1) == d
  {
  }

  /** An unmanaged pointer. Zero is IntPtr.Zero; every AllocHGlobal hands
      out a block with a new serial number. */
  datatype Ptr = Zero | Block(serial: nat)

  /** A call into the unmanaged heap (Marshal.FreeHGlobal / AllocHGlobal). */
  datatype HeapCall = FreeHGlobal(ptr: Ptr) | AllocHGlobal(ptr: Ptr, size: nat)

  /** The blocks still allocated after replaying `calls` on top of `live`.
      Freeing Zero does nothing, as FreeHGlobal documents. */
  function LiveAfter(live: set<Ptr>, calls: seq<HeapCall>): set<Ptr>
    decreases |calls|
  {
    if calls == [] then live
    else
      var next := match calls[0]
        case FreeHGlobal(p) => live - {p}
        case AllocHGlobal(p, _) => live + {p};
      LiveAfter(next, calls[1..])
  }

  /** Replaying two logs one after the other is replaying their concatenation. */
  lemma {:induction false} LiveAfterAppend(live: set<Ptr>, a: seq<HeapCall>, b: seq<HeapCall>)
    ensures LiveAfter(live, a + b) == LiveAfter(LiveAfter(live, a), b)
    decreases |a|
  {
    if a == [] {
      assert a + b == b;
    } else {
      assert (a + b)[0] == a[0];
      assert (a + b)[1..] == a[1..] + b;
      var next := match a[0]
        case FreeHGlobal(p) => live - {p}
        case AllocHGlobal(p, _) => live + {p};
      LiveAfterAppend(next, a[1..], b);
    }
  }

  /** The scaler context (SwsContext) and the dimensions it was built for. */
  datatype ScalerContext = ScalerContext(
    sourceWidth: int, sourceHeight: int, sourceFormat: int,
    destinationWidth: int, destinationHeight: int)

  /** The conversion state a decoder keeps between frames: the scaler
      context (null until the first frame), the conversion buffer pointer and
      size, and how many blocks it has allocated so far. */
  datatype Converter = Converter(
    scaler: Option<ScalerContext>, bufferPtr: Ptr, bufferSize: int, allocations: nat)

  /** A fresh decoder: null scaler, IntPtr.Zero buffer, size 0. */
  const InitialConverter: Converter := Converter(None, Zero, 0, 0)

  /** The buffer pointer, if not Zero, is one this converter allocated. */
  predicate Valid(c: Converter)
  {
    c.bufferPtr.Block? ==> c.bufferPtr.serial < c.allocations
  }

  /** The blocks a converter owns: its buffer, unless that is Zero. */
  function Owned(c: Converter): set<Ptr>
  {
    if c.bufferPtr == Zero then {} else {c.bufferPtr}
  }

  /** A decoded frame as FFmpeg hands it over: its size. */
  datatype DecodedFrame = DecodedFrame(width: int, height: int)

  /** A converted BGRA frame: its size, where it lives and how many bytes it has. */
  datatype ConvertedFrame = ConvertedFrame(width: int, height: int, data: Ptr, size: nat)

  /** The frame handed to the consumer. WritePixels copies the buffer into
      a frozen bitmap, so a published frame does not alias the buffer. */
  datatype Frame = Frame(width: int, height: int, byteCount: nat)

  /** Outcome of one conversion: the converter afterwards, the converted
      frame, and the heap calls made, in order. */
  datatype Conversion = Conversion(converter: Converter, frame: ConvertedFrame, calls: seq<HeapCall>)

  /** ConvertFrameToRGB. `codecPixelFormat` is the codec context's pix_fmt
      at the time of the call, which is what a new scaler context is built
      for; `imageSize` stands for av_image_get_buffer_size with the BGRA
      format and alignment 1, a library call. */
  function ConvertFrameToRgb(c: Converter, f: DecodedFrame, codecPixelFormat: int, imageSize: (int, int) -> nat): (r: Conversion)
    ensures Valid(r.converter)
    ensures r.frame.width == DestinationSize(f.width, f.height).0
    ensures r.frame.height == DestinationSize(f.width, f.height).1
    ensures r.frame.data == r.converter.bufferPtr != Zero
    ensures r.frame.size == r.converter.bufferSize == imageSize(r.frame.width, r.frame.height)
    // the old buffer is freed (a no-op when it is Zero) and a new one is allocated
    ensures r.calls == [FreeHGlobal(c.bufferPtr), AllocHGlobal(r.converter.bufferPtr, r.frame.size)]
    ensures Valid(c) ==> r.converter.bufferPtr != c.bufferPtr
    ensures r.converter.allocations == c.allocations + 1
    ensures LiveAfter(Owned(c), r.calls) == Owned(r.converter)
    // the scaler is built from the first frame and then kept
    ensures c.scaler.Some? ==> r.converter.scaler == c.scaler
    ensures c.scaler.None? ==> r.converter.scaler == Some(ScalerContext(
      f.width, f.height, codecPixelFormat, r.frame.width, r.frame.height))
  {
    var (w, h) := DestinationSize(f.width, f.height);
    var size := imageSize(w, h);
    var ptr := Block(c.allocations);
    var scaler := if c.scaler.None? then Some(ScalerContext(f.width, f.height, codecPixelFormat, w, h)) else c.scaler;
    var calls := [FreeHGlobal(c.bufferPtr), AllocHGlobal(ptr, size)];
    assert LiveAfter(Owned(c), calls) == {ptr} by {
      assert Owned(c) - {c.bufferPtr} == {};
      assert LiveAfter(Owned(c), calls) == LiveAfter({}, calls[1..]);
      assert calls[1..][1..] == [];
      assert LiveAfter({}, calls[1..]) == LiveAfter({ptr}, []);
    }
    Conversion(Converter(scaler, ptr, size, c.allocations + 1), ConvertedFrame(w, h, ptr, size), calls)
  }

  /** ConvertToBitmapSource: a frozen copy of the converted frame, of its
      size and holding all `_convertedFrameBufferSize` bytes. The result has
      no pointer, so the consumer never sees the reused buffer. */
  function Publish(f: ConvertedFrame): (r: Frame)
    ensures r.width == f.width && r.height == f.height && r.byteCount == f.size
  {
    Frame(f.width, f.height, f.size)
  }

  /** The frame the consumer should see for a decoded frame: the converted
      size and av_image_get_buffer_size bytes, with no buffer state at all. */
  function PublishedFrame(f: DecodedFrame, imageSize: (int, int) -> nat): Frame
  {
    var d := DestinationSize(f.width, f.height);
    Frame(d.0, d.1, imageSize(d.0, d.1))
  }

  /** Whatever buffer the converter held before, and whichever pointer the
      conversion lands in, the published frame is the same copy: it depends
      on the decoded frame alone, and holds `_convertedFrameBufferSize`
      bytes, the size the converter recorded. */
  lemma PublishedCopy(c: Converter, f: DecodedFrame, codecPixelFormat: int, imageSize: (int, int) -> nat)
    ensures var cv := ConvertFrameToRgb(c, f, codecPixelFormat, imageSize);
      && Publish(cv.frame) == PublishedFrame(f, imageSize)
      && Publish(cv.frame).byteCount == cv.converter.bufferSize
  {
  }
}
