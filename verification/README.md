# FFmpegWpfSample in Dafny

A model of the core of FFmpegWpfSample. This WPF sample plays eight camera
streams at once through FFmpeg. The model covers five parts:

- **The decoder** (`VideoStreamDecoder`): `Start`, `Stop`, the worker thread, and
  `RunFFmpeg`. `RunFFmpeg` runs the FFmpeg setup sequence, then a read loop that
  decodes packets and publishes frames, then a cleanup block.
- **The conversion step** (`FrameConversion`, from `ConvertFrameToRGB`): the
  downscale policy, the unmanaged conversion buffer that is freed and reallocated
  for every frame, and the scaler context that is built once.
- **The session registry** (`MainViewModel`): two dictionaries, from id to decoder
  and from id to display slot. Start replaces everything with eight fresh decoders,
  Stop tears them down, and the frame and error callbacks update one slot.
- **The camera grid** (`MainWindow`): how many rows and columns to draw for N
  channels, where each image control goes, and which slot each control is bound to.
- **Pixel-buffer sizing** (`BitmapExtensions`): both `ConvertToByteArray` overloads,
  with C# `int` semantics written out.

The model does not call FFmpeg. Every native call is replaced by its return code,
supplied in a `Script`:

- the setup results;
- one entry per packet that `av_read_frame` returned. Each entry holds the stream
  index, the send and receive results, the decoded frame's size, the codec
  context's pixel format (`pix_fmt`), and the keep-alive flag as the worker saw
  it then.

When the script runs out of packets, that is `av_read_frame` failing. Two
library-defined values are left as parameters: the values of `EAGAIN` and
`AVERROR_EOF` (`LibraryCodes`), and `av_image_get_buffer_size` (`imageSize`).

Unmanaged memory is a log of `FreeHGlobal` and `AllocHGlobal` calls over abstract
pointers. `LiveAfter` replays that log. Each decoder allocates its own blocks,
so the registry keeps one log per decoder id. Native handles are a log of acquire and
release calls.

Behaviour kept exactly as the code has it:

- **No video stream is not an error.** When `av_find_best_stream` finds no video
  stream, `RunFFmpeg` returns the non-negative result of `avformat_find_stream_info`,
  so nothing is reported.
- **A setup failure whose code equals the sentinel `-1111111` is not reported.**
- **The codec context and the scaler context are never freed.** In the release log,
  `Release(CodecContext)` occurs zero times.
- **A later frame does not clear an earlier error message.** Only an error, or a
  change handler throwing while a frame is set, clears the frame.
- **A failing `av_read_frame` is not reported.** It ends the loop and its code is
  dropped, and `RunFFmpeg` returns the last receive result. A stream that dies
  after a decoded frame, say on a network drop, ends without an error.
- **End of input right after an `EAGAIN` or `AVERROR_EOF` receive is reported,
  when that code is negative.** The loop returns that retry code, and the worker
  sends it as an error unless it equals the sentinel.
- **Starting a decoder twice launches a second worker thread.** Nothing stops the
  first one.
- **The stride rounds down.** Without overflow, `ConvertToByteArray` computes the
  stride as the row's bit count divided by 8, rounded down. For a sub-byte pixel
  format whose row is not a whole number of bytes, that stride is one byte shorter
  than the row.
- **`int` arithmetic wraps.** Both products wrap at 32 bits. A wrapped negative size
  makes `new byte[size]` throw.

## Model

| member | source | states |
|---|---|---|
| FrameConversion.DestinationSize | FFmpegWpfSample/VideoStreamDecoder.cs:158-161 | the destination is below 1280 x 720 and never larger than the source; an axis is kept exactly when it is below its threshold (1280 wide, 720 high), otherwise it becomes 640 or 480 |
| FrameConversion.DownscaleAxesIndependent | FFmpegWpfSample/VideoStreamDecoder.cs:160-161 | the destination width depends only on the source width and the height only on the height; converting an already converted size changes nothing |
| FrameConversion.ConvertFrameToRgb | FFmpegWpfSample/VideoStreamDecoder.cs:155-216 | each frame frees the previous buffer (a no-op for Zero) and allocates a new one of av_image_get_buffer_size bytes, distinct from the old one; afterwards exactly the new buffer is live; the converted frame has the policy's size and lives in that buffer; a missing scaler context is built from this frame's source size, the codec context's pixel format and the destination size, and an existing one is kept |
| FrameConversion.PublishedCopy | FFmpegWpfSample/VideoStreamDecoder.cs:237-247 | whatever buffer the converter held and whichever block the conversion lands in, the consumer's frame is the same: the converted size and av_image_get_buffer_size bytes, a function of the decoded frame alone, holding exactly the `_convertedFrameBufferSize` the converter recorded |
| VideoStreamDecoder.RunSetup | FFmpegWpfSample/VideoStreamDecoder.cs:80-115 | the first negative code among the checked setup calls is returned as a setup failure; the codec context is allocated exactly when the three opening calls succeeded and a video stream exists; with no failure and no video stream the non-negative probe result is returned; otherwise the loop starts on the found stream with the last setup code |
| VideoStreamDecoder.FirstEnding | FFmpegWpfSample/VideoStreamDecoder.cs:120-136 | the index of the first packet that ends the loop: no earlier packet ends it, and the packet at that index does |
| VideoStreamDecoder.ReadLoop | FFmpegWpfSample/VideoStreamDecoder.cs:120-152 | the loop ends on a stop, a send failure, a receive failure or the end of input; a stop returns the sentinel and a failure a negative code; the heap log is, per published frame, a FreeHGlobal of the previous buffer (the converter's old one for the first frame) and then an AllocHGlobal of exactly that frame's byte count, and the last allocation is the converter's buffer; the live blocks afterwards are exactly that buffer; the scaler is built for the first frame's size and kept |
| VideoStreamDecoder.ReadLoopMatchesReference | FFmpegWpfSample/VideoStreamDecoder.cs:120-142 | the loop reads up to and including the first packet that ends it; it publishes exactly the frames of the decodable packets before that packet, in packet order, and returns that packet's code; if no packet ends the loop, it returns the last receive result of a video packet (or the setup code) |
| VideoStreamDecoder.CleanupCounted | FFmpegWpfSample/VideoStreamDecoder.cs:144-150 | after any acquisitions, the finally block releases the format context, frame and packet once each and deinitialises the network once, and never releases the codec context |
| VideoStreamDecoder.RunFFmpeg | FFmpegWpfSample/VideoStreamDecoder.cs:70-153 | the finally block runs last and once on every path; it is a setup failure exactly when some checked setup code is negative, and that code is returned; it is "no video stream" exactly when no code is negative and no stream was found, with a non-negative response; setup exits publish nothing and touch no buffer; otherwise the heap log frees the previous buffer and allocates one of the frame's byte count for every published frame, in order |
| VideoStreamDecoder.Start | FFmpegWpfSample/VideoStreamDecoder.cs:37-47 | a null or empty URL leaves the decoder unchanged; any other URL sets the source, raises keep-alive and launches one more worker |
| VideoStreamDecoder.StartTwiceLaunchesTwoWorkers | FFmpegWpfSample/VideoStreamDecoder.cs:37-47 | two Starts with a URL launch two workers |
| VideoStreamDecoder.Stop | FFmpegWpfSample/VideoStreamDecoder.cs:49-57 | keep-alive is cleared; the buffer is freed exactly when the pointer is not Zero, and then nothing is left live; the pointer becomes Zero; the id, source, scaler context and recorded buffer size are untouched |
| VideoStreamDecoder.StopIdempotent | FFmpegWpfSample/VideoStreamDecoder.cs:49-57 | a second Stop makes no heap call and changes nothing |
| VideoStreamDecoder.StartWorkerThread | FFmpegWpfSample/VideoStreamDecoder.cs:59-68 | the worker sends every published frame in order, then one error exactly when the response is negative and not the sentinel; a requested stop and a missing video stream send no error; a setup failure sends a single error and no frame, unless its code is the sentinel |
| VideoStreamDecoder.RunThenStopLeavesNoBuffer | FFmpegWpfSample/VideoStreamDecoder.cs:49-57 | from a fresh decoder, on every path, a worker run followed by Stop leaves no conversion buffer allocated, and a scaler context built during the run survives |
| VideoStreamDecoder.InputEndsAfterFrameOrRetry | FFmpegWpfSample/VideoStreamDecoder.cs:120-142 | when av_read_frame fails after a decoded frame, the worker sends that frame and no error; when it fails right after an EAGAIN receive, the worker sends the frame and then EAGAIN as an error, for a negative EAGAIN other than the sentinel |
| VideoStreamDecoder.TwoFramesThenMalformedPacket | FFmpegWpfSample/VideoStreamDecoder.cs:120-131 | two decodable packets followed by one whose send fails produce exactly two frame notifications and then one error, and Stop afterwards leaves no buffer allocated |
| MainViewModel.Stop | FFmpegWpfSample/MainViewModel.cs:83-95 | both dictionaries end empty; every registered decoder is stopped, with handlers detached, keep-alive cleared and its pointer reset; each decoder's log holds exactly one FreeHGlobal of its buffer when it had one, and nothing otherwise, so none of its blocks stays live; CamerasStopped is raised once |
| MainViewModel.StopFreesWorkerBuffer | FFmpegWpfSample/MainViewModel.cs:85-90 | the registry's decoder is the one its worker runs on: after that worker's run, Stop frees the buffer the worker allocated last, so nothing the worker allocated stays live |
| MainViewModel.StopTwice | FFmpegWpfSample/MainViewModel.cs:83-95 | a second Stop stops nothing and only raises CamerasStopped |
| MainViewModel.Start | FFmpegWpfSample/MainViewModel.cs:60-81 | the old decoders are stopped first, with none of their buffers left live; afterwards both dictionaries hold exactly the eight new ids, in lock step, each decoder started on the address with handlers attached and each slot empty; the events are CamerasStopped, the eight registrations in order, then CamerasStarted |
| MainViewModel.RegisterAll | FFmpegWpfSample/MainViewModel.cs:64-78 | after the loop both maps hold exactly the given ids, one entry per id, each a started decoder or an empty slot, registered in order |
| MainViewModel.StartTwice | FFmpegWpfSample/MainViewModel.cs:60-81 | two Starts in a row leave exactly the second batch of eight: the registry never accumulates |
| MainViewModel.OnNewFrame | FFmpegWpfSample/MainViewModel.cs:97-126 | a callback from a non-decoder does nothing; an unknown id throws KeyNotFound; otherwise only the sender's slot changes: it shows the frame and keeps its error message, or, if a change handler throws, it shows no frame and shows the exception message; if a handler throws again during the catch block's assignments, that exception escapes |
| MainViewModel.OnError | FFmpegWpfSample/MainViewModel.cs:128-136 | a callback from a non-decoder does nothing; an unknown id throws KeyNotFound; an exception thrown by a change handler escapes, since nothing catches it; otherwise only the sender's slot changes, to no frame and the error text |
| MainViewModel.DeliverLatestWins | FFmpegWpfSample/MainViewModel.cs:97-136 | delivering a worker's notifications to a registered slot succeeds and touches no other slot; the slot shows the latest frame, or none if the last notification was an error, and the latest error text if there was one |
| MainWindow.GetMaxColumns | FFmpegWpfSample/MainWindow.xaml.cs:95-115 | more than 49 channels throws; 1 to 49 channels give the smallest k with k * k at least the count; 0 channels give 2 |
| MainWindow.CeilSqrtUnique | FFmpegWpfSample/MainWindow.xaml.cs:95-115 | there is only one such smallest k, so GetMaxColumns's answer is the only one its contract allows |
| MainWindow.OnCamerasStopped | FFmpegWpfSample/MainWindow.xaml.cs:30-40 | the grid is left with no children, rows or columns |
| MainWindow.AddRowsAndColumns | FFmpegWpfSample/MainWindow.xaml.cs:88-92 | adds the given number of rows and of columns and no children |
| MainWindow.SetRowsAndColumns | FFmpegWpfSample/MainWindow.xaml.cs:82-93 | fails exactly when GetMaxColumns throws; otherwise adds GetMaxColumns rows and as many columns |
| MainWindow.RowMajorIndex | FFmpegWpfSample/MainWindow.xaml.cs:74-78 | the control placed at row r, column c is the (r * columns + c)-th, so its row and column are that index divided by, and modulo, the column count |
| MainWindow.SetCameraControls | FFmpegWpfSample/MainWindow.xaml.cs:42-80 | appends rows * columns controls in row-major order; the k-th is placed at row k / columns and column k % columns, and is bound to the k-th slot exactly when k is below the decoder count |
| MainWindow.EachCellOnce | FFmpegWpfSample/MainWindow.xaml.cs:50-79 | every cell of the grid gets a control at its own row and column, and no two controls share a cell |
| MainWindow.EverySlotBound | FFmpegWpfSample/MainWindow.xaml.cs:64-72 | when the grid has room for every decoder, every slot is shown by some control, and distinct controls show distinct slots |
| MainWindow.OnCamerasStarted | FFmpegWpfSample/MainWindow.xaml.cs:23-28 | fails exactly when there are more than 49 decoders; otherwise the grid is rebuilt from scratch with k rows and k columns (k from GetMaxColumns) and the row-major layout of the slots |
| MainWindow.StartCameras | FFmpegWpfSample/MainWindow.xaml.cs:15-28 | after the Start command, the window shows a 3 x 3 grid; the first eight controls show the eight slots in registration order, the ninth shows nothing, and every slot is on screen |
| BitmapExtensions.Wrap | FFmpegWpfSample/BitmapExtensions.cs:12-13 | the unchecked 32-bit result is congruent to the exact product modulo 2^32, and equal to it when it fits |
| BitmapExtensions.TruncDiv | FFmpegWpfSample/BitmapExtensions.cs:12 | C# division rounds toward zero, for negative dividends too |
| BitmapExtensions.ConvertToByteArray | FFmpegWpfSample/BitmapExtensions.cs:7-18 | the result is null exactly for a null bitmap or a zero width or height; otherwise it is OverflowException exactly when the wrapped size is negative, and a buffer of the wrapped size otherwise; when nothing overflows, the stride is the row's bit count divided by eight, rounded down, and the buffer holds one stride per row |
| BitmapExtensions.ConvertRenderTargetToByteArray | FFmpegWpfSample/BitmapExtensions.cs:20-31 | null exactly for a null bitmap or a zero width or height; otherwise OverflowException exactly when the wrapped size is negative, and a buffer of the wrapped size and stride otherwise |
| BitmapExtensions.OverloadsAgree | FFmpegWpfSample/BitmapExtensions.cs:7-31 | the RenderTargetBitmap overload gives the same result as the WriteableBitmap one, for a null receiver and for every pixel size |
| BitmapExtensions.ExactWhenNoOverflow | FFmpegWpfSample/BitmapExtensions.cs:12-15 | when neither product leaves the int range, the stride and size are the exact ones and the size is not negative |
| BitmapExtensions.WideRowOverflows | FFmpegWpfSample/BitmapExtensions.cs:12-15 | a 2^26-pixel-wide 32-bit bitmap wraps to a negative size and throws OverflowException |
| BitmapExtensions.TallImageWrapsToOneRow | FFmpegWpfSample/BitmapExtensions.cs:25-28 | a 16384 x 65537 32-bit bitmap wraps to a 65536-byte buffer, one row's worth |

## Left out

- Threads, the WPF Dispatcher and the race between `Stop` and a running worker. The keep-alive flag a worker sees is an input per packet.
- `StartWorkerThread` raises events only when handlers are attached. The model lists what the worker sends, and `Deliver` hands it to the view model.
- FrameConversion.ConvertFrameToRgb: `sws_getContext` is taken to succeed. A null result would make the next frame build the scaler context again, from that frame's size, so "built once, from the first frame" rests on this.
- FFmpeg itself (`avformat_*`, `avcodec_*`, `sws_scale`, `av_image_fill_arrays`, `av_image_get_buffer_size`, `av_strerror`). These calls become script results or parameters. `av_image_get_buffer_size` is taken to return a size that is not negative.
- `av_frame_unref` and `av_packet_unref`: they change no state the model keeps.
- Pixel contents: `sws_scale`, `WritePixels` in `ConvertToBitmapSource`, and `CopyPixels`. A published frame keeps only its size and byte count.
- The checks WPF's `CopyPixels` makes on the stride and buffer it is given. `ConvertToByteArray` ends with the array it would pass.
- `ConvertWithImageSharp` and the commented-out encoder and file-writing code: dead code.
- `AVStringError`: an error is carried as its code. `Deliver` takes a function from codes to text.
- `new Uri(_source)` and `UriFormatException`: whether the source is a file is a boolean in the script.
- GUID generation: `MainViewModel.Start` takes the eight ids as distinct inputs. `Dictionary.Add` would throw on a duplicate.
- Dictionary enumeration order: `StartCameras` takes `RealPlayModels.Values` in insertion order. `OnCamerasStarted` itself takes the list as an input.
- The .NET runtime's own array-length limit and OutOfMemoryException: an array of any non-negative size is taken to be allocated.
- MainViewModel.Start: requires exactly eight distinct ids, because the loop runs eight times over fresh GUIDs.
- The `ObservableObject` property-change notifications themselves. Whether a change handler throws, and with what message, is an input to `OnNewFrame` and `OnError`. `Deliver` assumes no handler throws.
