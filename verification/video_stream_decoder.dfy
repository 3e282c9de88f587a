/** One decoder (VideoStreamDecoder): the Start/Stop entry points and the
    worker that runs RunFFmpeg and reports its outcome.

    Every FFmpeg call is replaced by its result, supplied in a script: the
    setup return codes, then one entry per packet that av_read_frame
    returned successfully, carrying the stream index, the results of
    avcodec_send_packet and avcodec_receive_frame, the decoded frame's size,
    the codec context's pixel format and the keep-alive flag as the worker saw it. Running out of script
    entries is av_read_frame failing. */
module VideoStreamDecoder {
  import opened Wrappers
  import opened FrameConversion

  /** The response RunFFmpeg starts with and returns on a requested stop;
      it is never reported as an error. */
  const DefaultResponse: int := -1111111

  /** ffmpeg.EAGAIN and ffmpeg.AVERROR_EOF. Their values live in FFmpeg, so
      the model leaves them open. */
  datatype LibraryCodes = LibraryCodes(eagain: int, averrorEof: int)

  /** Results of the calls made before the read loop, and whether the
      source URI is a file (Uri.IsFile). */
  datatype SetupResults = SetupResults(
    networkInit: int,
    openInput: int,
    findStreamInfo: int,
    bestStream: int,
    parametersToContext: int,
    codecOpen: int,
    sourceIsFile: bool,
    readPlay: int)

  /** Everything the loop learns about one packet av_read_frame returned,
      including the codec context's pix_fmt once the frame was received. */
  datatype PacketResults = PacketResults(
    keepAlive: bool,
    streamIndex: int,
    sendResult: int,
    receiveResult: int,
    frame: DecodedFrame,
    codecPixelFormat: int)

  datatype Script = Script(setup: SetupResults, packets: seq<PacketResults>)

  /** The way RunFFmpeg left its try block. */
  datatype Exit = SetupFailed | NoVideoStream | StopRequested | SendFailed | ReceiveFailed | InputEnded

  /* ---------------- Setup ---------------- */

  /** Setup either reaches the read loop on a video stream with a response
      code, or returns early. `codecAllocated` tells whether
      avcodec_alloc_context3 was reached. */
  datatype SetupOutcome =
    | Ready(videoStream: int, response: int)
    | Abort(response: int, exit: Exit, codecAllocated: bool)

  /** The setup results in the order they are checked; the ones after the
      stream search are only checked when a video stream was found, and
      av_read_play only runs for a source that is not a file. */
  function SetupCodes(s: SetupResults): seq<int>
  {
    OpenCodes(s) + CodecCodes(s)
  }

  /** The results checked after a video stream was found. */
  function CodecCodes(s: SetupResults): seq<int>
  {
    if s.bestStream < 0 then []
    else [s.parametersToContext, s.codecOpen] + (if s.sourceIsFile then [] else [s.readPlay])
  }

  /** The results checked before the video stream is searched for. */
  function OpenCodes(s: SetupResults): seq<int>
  {
    [s.networkInit, s.openInput, s.findStreamInfo]
  }

  /** The first negative code of `codes`, if any. */
  function FirstNegative(codes: seq<int>): Option<int>
  {
    if codes == [] then None
    else if codes[0] < 0 then Some(codes[0])
    else FirstNegative(codes[1..])
  }

  lemma {:induction false} FirstNegativeAppend(a: seq<int>, b: seq<int>)
    ensures FirstNegative(a + b) == if FirstNegative(a).Some? then FirstNegative(a) else FirstNegative(b)
  {
    if a == [] {
      assert a + b == b;
    } else {
      assert (a + b)[1..] == a[1..] + b;
      FirstNegativeAppend(a[1..], b);
    }
  }

  lemma FirstNegativeOfThree(a: int, b: int, c: int)
    ensures FirstNegative([a, b, c]) ==
      if a < 0 then Some(a) else if b < 0 then Some(b) else if c < 0 then Some(c) else None
  {
    assert [a, b, c][1..] == [b, c];
    assert [b, c][1..] == [c];
    assert [c][1..] == [];
    assert FirstNegative([c]) == if c < 0 then Some(c) else FirstNegative([]);
    assert FirstNegative([b, c]) == if b < 0 then Some(b) else FirstNegative([c]);
    assert FirstNegative([a, b, c]) == if a < 0 then Some(a) else FirstNegative([b, c]);
  }

  lemma CodecCodesFirstNegative(s: SetupResults)
    ensures FirstNegative(CodecCodes(s)) ==
      if s.bestStream < 0 then None
      else if s.parametersToContext < 0 then Some(s.parametersToContext)
      else if s.codecOpen < 0 then Some(s.codecOpen)
      else if !s.sourceIsFile && s.readPlay < 0 then Some(s.readPlay)
      else None
  {
    if s.bestStream < 0 {
    } else if s.sourceIsFile {
      assert CodecCodes(s) == [s.parametersToContext, s.codecOpen];
      assert [s.parametersToContext, s.codecOpen][1..] == [s.codecOpen];
      assert [s.codecOpen][1..] == [];
      assert FirstNegative([s.codecOpen]) == if s.codecOpen < 0 then Some(s.codecOpen) else FirstNegative([]);
      assert FirstNegative(CodecCodes(s)) == if s.parametersToContext < 0 then Some(s.parametersToContext) else FirstNegative([s.codecOpen]);
    } else {
      assert CodecCodes(s) == [s.parametersToContext, s.codecOpen, s.readPlay];
      FirstNegativeOfThree(s.parametersToContext, s.codecOpen, s.readPlay);
    }
  }

  /** The setup part of RunFFmpeg, up to the read loop. */
  function RunSetup(s: SetupResults): (o: SetupOutcome)
    ensures FirstNegative(SetupCodes(s)).Some? ==>
      o.Abort? && o.exit == SetupFailed && o.response == FirstNegative(SetupCodes(s)).value
    ensures o.Abort? ==> (o.codecAllocated <==> FirstNegative(OpenCodes(s)).None? && s.bestStream >= 0)
    ensures FirstNegative(SetupCodes(s)).None? && s.bestStream < 0 ==>
      o == Abort(s.findStreamInfo, NoVideoStream, false) && o.response >= 0
    ensures FirstNegative(SetupCodes(s)).None? && s.bestStream >= 0 ==>
      o == Ready(s.bestStream, SetupCodes(s)[|SetupCodes(s)| - 1]) && o.response >= 0
  {
    FirstNegativeAppend(OpenCodes(s), CodecCodes(s));
    FirstNegativeOfThree(s.networkInit, s.openInput, s.findStreamInfo);
    CodecCodesFirstNegative(s);
    if s.networkInit < 0 then Abort(s.networkInit, SetupFailed, false)
    else if s.openInput < 0 then Abort(s.openInput, SetupFailed, false)
    else if s.findStreamInfo < 0 then Abort(s.findStreamInfo, SetupFailed, false)
    // no video stream: the (non-negative) probe result is returned
    else if s.bestStream < 0 then Abort(s.findStreamInfo, NoVideoStream, false)
    else if s.parametersToContext < 0 then Abort(s.parametersToContext, SetupFailed, true)
    else if s.codecOpen < 0 then Abort(s.codecOpen, SetupFailed, true)
    else if s.sourceIsFile then Ready(s.bestStream, s.codecOpen)
    else if s.readPlay < 0 then Abort(s.readPlay, SetupFailed, true)
    else Ready(s.bestStream, s.readPlay)
  }

  /* ---------------- The read loop ---------------- */

  /** The receive results that make the loop move on to the next packet. */
  predicate IsRetry(k: LibraryCodes, receiveResult: int)
  {
    receiveResult == k.eagain || receiveResult == k.averrorEof
  }

  /** Whether packet `p` ends the loop (returns from RunFFmpeg). */
  predicate EndsLoop(k: LibraryCodes, videoStream: int, p: PacketResults)
  {
    || !p.keepAlive
    || (p.streamIndex == videoStream
        && (p.sendResult < 0 || (!IsRetry(k, p.receiveResult) && p.receiveResult < 0)))
  }

  /** Whether packet `p` yields a published frame. */
  predicate Decodes(k: LibraryCodes, videoStream: int, p: PacketResults)
  {
    && p.keepAlive
    && p.streamIndex == videoStream
    && p.sendResult >= 0
    && !IsRetry(k, p.receiveResult)
    && p.receiveResult >= 0
  }

  /** Index of the first packet that ends the loop, or |packets| if none does. */
  function FirstEnding(k: LibraryCodes, videoStream: int, packets: seq<PacketResults>): (i: nat)
    ensures i <= |packets|
    ensures forall j :: 0 <= j < i ==> !EndsLoop(k, videoStream, packets[j])
    ensures i < |packets| ==> EndsLoop(k, videoStream, packets[i])
  {
    if packets == [] then 0
    else if EndsLoop(k, videoStream, packets[0]) then 0
    else 1 + FirstEnding(k, videoStream, packets[1..])
  }

  /** The frames published for `packets`, in order, when none of them ends the loop. */
  function PublishedFrames(k: LibraryCodes, videoStream: int, packets: seq<PacketResults>, imageSize: (int, int) -> nat): seq<Frame>
  {
    if packets == [] then []
    else
      (if Decodes(k, videoStream, packets[0]) then [PublishedFrame(packets[0].frame, imageSize)] else [])
      + PublishedFrames(k, videoStream, packets[1..], imageSize)
  }

  /** The response code after a run of packets none of which ends the loop:
      packets of other streams leave it alone, the others set it to their
      receive result. */
  function ResponseAfter(k: LibraryCodes, videoStream: int, response: int, packets: seq<PacketResults>): int
    decreases |packets|
  {
    if packets == [] then response
    else if packets[0].streamIndex != videoStream then ResponseAfter(k, videoStream, response, packets[1..])
    else ResponseAfter(k, videoStream, packets[0].receiveResult, packets[1..])
  }

  /** How a packet that ends the loop ends it. */
  function EndingExit(p: PacketResults): Exit
  {
    if !p.keepAlive then StopRequested else if p.sendResult < 0 then SendFailed else ReceiveFailed
  }

  function EndingResponse(p: PacketResults): int
  {
    if !p.keepAlive then DefaultResponse else if p.sendResult < 0 then p.sendResult else p.receiveResult
  }

  /** The heap log of publishing `frames` from a converter whose buffer was
      `first`: for each frame, FreeHGlobal of the buffer before it (the
      previous frame's, or `first`) and then AllocHGlobal of exactly the
      frame's byte count; the last allocation is the buffer `last`. */
  predicate FrameLog(first: Ptr, last: Ptr, frames: seq<Frame>, heap: seq<HeapCall>)
    decreases |frames|
  {
    if frames == [] then heap == [] && last == first
    else
      && |heap| >= 2
      && heap[0] == FreeHGlobal(first)
      && heap[1].AllocHGlobal?
      && heap[1].size == frames[0].byteCount
      && FrameLog(heap[1].ptr, last, frames[1..], heap[2..])
  }

  /** Outcome of the read loop: the response returned, how it ended, the
      frames published in order, the converter afterwards, the heap calls the
      conversions made, and how many packets were read. */
  datatype LoopOutcome = LoopOutcome(
    response: int, exit: Exit, frames: seq<Frame>, converter: Converter, heap: seq<HeapCall>, read: nat)

  /** The av_read_frame loop of RunFFmpeg and the return after it. */
  function ReadLoop(k: LibraryCodes, videoStream: int, response: int, packets: seq<PacketResults>,
                    c: Converter, imageSize: (int, int) -> nat): (o: LoopOutcome)
    ensures o.read <= |packets|
    ensures o.exit in {StopRequested, SendFailed, ReceiveFailed, InputEnded}
    ensures Valid(c) ==> Valid(o.converter)
    ensures o.converter.allocations == c.allocations + |o.frames|
    ensures |o.heap| == 2 * |o.frames|
    ensures FrameLog(c.bufferPtr, o.converter.bufferPtr, o.frames, o.heap)
    ensures LiveAfter(Owned(c), o.heap) == Owned(o.converter)
    ensures c.scaler.Some? ==> o.converter.scaler == c.scaler
    ensures c.scaler.None? && o.frames != [] ==>
      o.converter.scaler.Some?
      && o.converter.scaler.value.destinationWidth == o.frames[0].width
      && o.converter.scaler.value.destinationHeight == o.frames[0].height
    ensures o.frames == [] ==> o.converter == c
    ensures o.exit == StopRequested ==> o.response == DefaultResponse
    ensures o.exit in {SendFailed, ReceiveFailed} ==> o.response < 0
    decreases |packets|
  {
    if packets == [] then LoopOutcome(response, InputEnded, [], c, [], 0)
    else
      var p := packets[0];
      if !p.keepAlive then LoopOutcome(DefaultResponse, StopRequested, [], c, [], 1)
      else if p.streamIndex != videoStream then
        var o := ReadLoop(k, videoStream, response, packets[1..], c, imageSize);
        o.(read := o.read + 1)
      else if p.sendResult < 0 then LoopOutcome(p.sendResult, SendFailed, [], c, [], 1)
      else if IsRetry(k, p.receiveResult) then
        var o := ReadLoop(k, videoStream, p.receiveResult, packets[1..], c, imageSize);
        o.(read := o.read + 1)
      else if p.receiveResult < 0 then LoopOutcome(p.receiveResult, ReceiveFailed, [], c, [], 1)
      else
        var cv := ConvertFrameToRgb(c, p.frame, p.codecPixelFormat, imageSize);
        var o := ReadLoop(k, videoStream, p.receiveResult, packets[1..], cv.converter, imageSize);
        LiveAfterAppend(Owned(c), cv.calls, o.heap);
        assert ([Publish(cv.frame)] + o.frames)[1..] == o.frames;
        assert (cv.calls + o.heap)[2..] == o.heap;
        LoopOutcome(o.response, o.exit, [Publish(cv.frame)] + o.frames, o.converter, cv.calls + o.heap, o.read + 1)
  }

  /** The loop reads up to and including the first packet that ends it,
      publishes exactly the frames of the decoded packets before it, in
      packet order, and returns that packet's code; when no packet ends it,
      it returns the last response set. */
  lemma {:induction false} ReadLoopMatchesReference(
    k: LibraryCodes, videoStream: int, response: int, packets: seq<PacketResults>,
    c: Converter, imageSize: (int, int) -> nat)
    ensures var o := ReadLoop(k, videoStream, response, packets, c, imageSize);
      var i := FirstEnding(k, videoStream, packets);
      && o.frames == PublishedFrames(k, videoStream, packets[..i], imageSize)
      && (i < |packets| ==>
            o.read == i + 1 && o.exit == EndingExit(packets[i]) && o.response == EndingResponse(packets[i]))
      && (i == |packets| ==>
            o.read == |packets| && o.exit == InputEnded
            && o.response == ResponseAfter(k, videoStream, response, packets))
    decreases |packets|
  {
    var i := FirstEnding(k, videoStream, packets);
    if packets == [] {
    } else if EndsLoop(k, videoStream, packets[0]) {
      assert i == 0;
      assert packets[..0] == [];
    } else {
      var p := packets[0];
      var rest := packets[1..];
      assert i == 1 + FirstEnding(k, videoStream, rest);
      assert packets[..i][0] == p;
      assert packets[..i][1..] == rest[..i - 1];
      var next := if p.streamIndex != videoStream then response else p.receiveResult;
      if Decodes(k, videoStream, p) {
        var cv := ConvertFrameToRgb(c, p.frame, p.codecPixelFormat, imageSize);
        ReadLoopMatchesReference(k, videoStream, next, rest, cv.converter, imageSize);
        PublishedCopy(c, p.frame, p.codecPixelFormat, imageSize);
      } else {
        ReadLoopMatchesReference(k, videoStream, next, rest, c, imageSize);
      }
    }
  }

  /* ---------------- RunFFmpeg ---------------- */

  /** Native handles RunFFmpeg creates and the calls that release them. */
  datatype Handle = FormatContext | PacketHandle | FrameHandle | CodecContext
  datatype HandleCall = Acquire(handle: Handle) | Release(handle: Handle) | NetworkDeinit

  /** The finally block: frees format context, frame and packet, and
      deinitialises the network layer. Neither the codec context nor the
      scaler context is freed there. */
  const Cleanup: seq<HandleCall> :=
    [Release(FormatContext), Release(FrameHandle), Release(PacketHandle), NetworkDeinit]

  /** The handles acquired before the finally block runs. */
  function Acquired(codecAllocated: bool): seq<HandleCall>
  {
    [Acquire(FormatContext), Acquire(PacketHandle), Acquire(FrameHandle)]
    + (if codecAllocated then [Acquire(CodecContext)] else [])
  }

  /** Outcome of RunFFmpeg. */
  datatype Run = Run(
    response: int, exit: Exit, frames: seq<Frame>, converter: Converter,
    heap: seq<HeapCall>, handles: seq<HandleCall>, read: nat)

  function Count<T(==)>(s: seq<T>, x: T): nat
  {
    if s == [] then 0 else (if s[0] == x then 1 else 0) + Count(s[1..], x)
  }

  lemma {:induction false} CountAppend<T>(a: seq<T>, b: seq<T>, x: T)
    ensures Count(a + b, x) == Count(a, x) + Count(b, x)
  {
    if a == [] {
      assert a + b == b;
    } else {
      assert (a + b)[1..] == a[1..] + b;
      CountAppend(a[1..], b, x);
    }
  }

  /** RunFFmpeg: setup, the read loop, and the finally block on every exit. */
  function RunFFmpeg(k: LibraryCodes, script: Script, c: Converter, imageSize: (int, int) -> nat): (r: Run)
    // the finally block runs once, last, whatever the exit
    ensures |r.handles| >= |Cleanup| && r.handles[|r.handles| - |Cleanup|..] == Cleanup
    ensures forall h :: Count(r.handles, Release(h)) == (if h == CodecContext then 0 else 1)
    ensures Count(r.handles, NetworkDeinit) == 1
    ensures r.exit in {SetupFailed, NoVideoStream} ==> r.frames == [] && r.heap == [] && r.converter == c && r.read == 0
    ensures r.exit == SetupFailed <==> FirstNegative(SetupCodes(script.setup)).Some?
    ensures r.exit == SetupFailed ==> r.response == FirstNegative(SetupCodes(script.setup)).value < 0
    ensures r.exit == NoVideoStream <==> FirstNegative(SetupCodes(script.setup)).None? && script.setup.bestStream < 0
    ensures r.exit == NoVideoStream ==> r.response >= 0
    ensures r.exit == StopRequested ==> r.response == DefaultResponse
    ensures r.exit in {SendFailed, ReceiveFailed} ==> r.response < 0
    ensures LiveAfter(Owned(c), r.heap) == Owned(r.converter)
    ensures Valid(c) ==> Valid(r.converter)
    ensures r.converter.allocations == c.allocations + |r.frames|
    ensures |r.heap| == 2 * |r.frames|
    ensures FrameLog(c.bufferPtr, r.converter.bufferPtr, r.frames, r.heap)
    ensures c.scaler.Some? ==> r.converter.scaler == c.scaler
    ensures c.scaler.None? && r.frames != [] ==>
      r.converter.scaler.Some?
      && r.converter.scaler.value.destinationWidth == r.frames[0].width
      && r.converter.scaler.value.destinationHeight == r.frames[0].height
  {
    CleanupCounted(Acquired(false));
    CleanupCounted(Acquired(true));
    match RunSetup(script.setup)
    case Abort(response, exit, codecAllocated) =>
      Run(response, exit, [], c, [], Acquired(codecAllocated) + Cleanup, 0)
    case Ready(videoStream, response) =>
      var o := ReadLoop(k, videoStream, response, script.packets, c, imageSize);
      Run(o.response, o.exit, o.frames, o.converter, o.heap, Acquired(true) + Cleanup, o.read)
  }

  lemma CleanupCounted(acquired: seq<HandleCall>)
    requires forall j :: 0 <= j < |acquired| ==> acquired[j].Acquire?
    ensures forall h :: Count(acquired + Cleanup, Release(h)) == (if h == CodecContext then 0 else 1)
    ensures Count(acquired + Cleanup, NetworkDeinit) == 1
  {
    forall x: HandleCall | !x.Acquire?
      ensures Count(acquired, x) == 0
    {
      CountNone(acquired, x);
    }
    forall h
      ensures Count(acquired + Cleanup, Release(h)) == (if h == CodecContext then 0 else 1)
    {
      CountAppend(acquired, Cleanup, Release(h));
    }
    CountAppend(acquired, Cleanup, NetworkDeinit);
  }

  lemma {:induction false} CountNone<T>(s: seq<T>, x: T)
    requires forall j :: 0 <= j < |s| ==> s[j] != x
    ensures Count(s, x) == 0
  {
    if s != [] {
      CountNone(s[1..], x);
    }
  }

  /* ---------------- The decoder object ---------------- */

  /** A VideoStreamDecoder: its id, the source it was started with (null
      until then), the keep-alive flag, how many worker threads Start has
      launched, whether the view model's handlers are attached, and the
      conversion state the worker keeps in its fields. */
  datatype Decoder = Decoder(
    id: string,
    source: Option<string>,
    keepAlive: bool,
    workersStarted: nat,
    handlersAttached: bool,
    converter: Converter)

  /** A decoder as the constructor leaves it, with its Id set. */
  function NewDecoder(id: string): Decoder
  {
    Decoder(id, None, false, 0, false, InitialConverter)
  }

  /** VideoStreamDecoder.Start: a null or empty URL changes nothing; otherwise the
      source is set, keep-alive raised and a new worker thread launched. */
  function Start(d: Decoder, url: Option<string>): (d': Decoder)
    ensures url.None? || url.value == [] ==> d' == d
    ensures url.Some? && url.value != [] ==>
      d'.source == url && d'.keepAlive && d'.workersStarted == d.workersStarted + 1
    ensures d'.id == d.id && d'.converter == d.converter && d'.handlersAttached == d.handlersAttached
  {
    if url.None? || url.value == [] then d
    else d.(source := url, keepAlive := true, workersStarted := d.workersStarted + 1)
  }

  /** Starting twice launches a second worker: nothing stops the first. */
  lemma StartTwiceLaunchesTwoWorkers(d: Decoder, url: string)
    requires url != []
    ensures Start(Start(d, Some(url)), Some(url)).workersStarted == d.workersStarted + 2
  {
  }

  /** The decoder after Stop and the heap calls Stop made. */
  datatype Stopped = Stopped(decoder: Decoder, calls: seq<HeapCall>)

  /** VideoStreamDecoder.Stop: clears keep-alive and frees the conversion buffer
      when the pointer is not Zero, leaving it Zero. */
  function Stop(d: Decoder): (r: Stopped)
    ensures !r.decoder.keepAlive
    ensures r.decoder.converter.bufferPtr == Zero
    ensures d.converter.bufferPtr == Zero ==> r.calls == []
    ensures d.converter.bufferPtr != Zero ==> r.calls == [FreeHGlobal(d.converter.bufferPtr)]
    ensures LiveAfter(Owned(d.converter), r.calls) == {}
    ensures r.decoder.id == d.id && r.decoder.source == d.source
    ensures r.decoder.workersStarted == d.workersStarted && r.decoder.handlersAttached == d.handlersAttached
    // neither the scaler context nor the recorded buffer size is touched
    ensures r.decoder.converter.scaler == d.converter.scaler
    ensures r.decoder.converter.bufferSize == d.converter.bufferSize
    ensures Valid(d.converter) ==> Valid(r.decoder.converter)
  {
    var p := d.converter.bufferPtr;
    var calls := if p != Zero then [FreeHGlobal(p)] else [];
    assert LiveAfter(Owned(d.converter), calls) == {} by {
      if p != Zero {
        assert calls[1..] == [];
      }
    }
    Stopped(d.(keepAlive := false, converter := d.converter.(bufferPtr := Zero)), calls)
  }

  /** A second Stop frees nothing and changes nothing. */
  lemma StopIdempotent(d: Decoder)
    ensures var once := Stop(d).decoder;
      Stop(once) == Stopped(once, [])
  {
  }

  /* ---------------- The worker thread ---------------- */

  /** What the worker hands to the consumer, in order. */
  datatype Notification = NewFrame(frame: Frame) | Error(code: int)

  /** Whether StartWorkerThread reports a final response as an error. */
  predicate IsReported(response: int)
  {
    response < 0 && response != DefaultResponse
  }

  /** The decoder after its worker finished, the run, and the notifications sent. */
  datatype WorkerRun = WorkerRun(decoder: Decoder, run: Run, notifications: seq<Notification>)

  /** StartWorkerThread: RunFFmpeg on the decoder's conversion
      state, every published frame, then the error if the final response is
      reported. The error text comes from av_strerror and is represented by
      the code itself. */
  function StartWorkerThread(d: Decoder, k: LibraryCodes, script: Script, imageSize: (int, int) -> nat): (w: WorkerRun)
    ensures w.run == RunFFmpeg(k, script, d.converter, imageSize)
    ensures w.decoder == d.(converter := w.run.converter)
    ensures |w.notifications| == |w.run.frames| + (if IsReported(w.run.response) then 1 else 0)
    ensures forall i :: 0 <= i < |w.run.frames| ==> w.notifications[i] == NewFrame(w.run.frames[i])
    ensures IsReported(w.run.response) ==> w.notifications[|w.notifications| - 1] == Error(w.run.response)
    ensures (exists i :: 0 <= i < |w.notifications| && w.notifications[i].Error?) <==> IsReported(w.run.response)
    // a requested stop and a missing video stream are never reported
    ensures w.run.exit in {StopRequested, NoVideoStream} ==>
      forall i :: 0 <= i < |w.notifications| ==> w.notifications[i].NewFrame?
    ensures w.run.exit == NoVideoStream ==> w.notifications == []
    // a setup failure is reported unless its code happens to be the sentinel, and no frame precedes it
    ensures w.run.exit == SetupFailed ==>
      w.notifications == (if w.run.response == DefaultResponse then [] else [Error(w.run.response)])
  {
    var run := RunFFmpeg(k, script, d.converter, imageSize);
    var frames := seq(|run.frames|, i requires 0 <= i < |run.frames| => NewFrame(run.frames[i]));
    var notes := frames + (if IsReported(run.response) then [Error(run.response)] else []);
    assert forall i :: 0 <= i < |frames| ==> notes[i] == frames[i];
    WorkerRun(d.(converter := run.converter), run, notes)
  }

  /** From a fresh decoder, a worker run followed by Stop leaves no
      conversion buffer allocated, whatever path the run took; the scaler
      context, once built, is still there. */
  lemma {:induction false} RunThenStopLeavesNoBuffer(
    id: string, k: LibraryCodes, script: Script, imageSize: (int, int) -> nat)
    ensures var w := StartWorkerThread(NewDecoder(id), k, script, imageSize);
      var s := Stop(w.decoder);
      && LiveAfter({}, w.run.heap + s.calls) == {}
      && (w.run.frames != [] ==> s.decoder.converter.scaler.Some?)
  {
    var w := StartWorkerThread(NewDecoder(id), k, script, imageSize);
    var s := Stop(w.decoder);
    assert Owned(InitialConverter) == {};
    LiveAfterAppend({}, w.run.heap, s.calls);
  }

  /** The scenario of two decodable packets followed by a malformed one:
      two frames are published, then one error, and once stopped no buffer
      is left allocated. */
  lemma TwoFramesThenMalformedPacket(
    id: string, k: LibraryCodes, setup: SetupResults,
    f1: DecodedFrame, f2: DecodedFrame, bad: int, imageSize: (int, int) -> nat)
    requires FirstNegative(SetupCodes(setup)).None? && setup.bestStream >= 0
    requires !IsRetry(k, 0)
    requires bad < 0 && bad != DefaultResponse
    ensures var v := setup.bestStream;
      var packets := [PacketResults(true, v, 0, 0, f1, 0), PacketResults(true, v, 0, 0, f2, 0),
                      PacketResults(true, v, bad, 0, f1, 0)];
      var w := StartWorkerThread(NewDecoder(id), k, Script(setup, packets), imageSize);
      && w.notifications == [NewFrame(PublishedFrame(f1, imageSize)), NewFrame(PublishedFrame(f2, imageSize)), Error(bad)]
      && LiveAfter({}, w.run.heap + Stop(w.decoder).calls) == {}
  {
    var v := setup.bestStream;
    var p1 := PacketResults(true, v, 0, 0, f1, 0);
    var p2 := PacketResults(true, v, 0, 0, f2, 0);
    var p3 := PacketResults(true, v, bad, 0, f1, 0);
    var packets := [p1, p2, p3];
    var r := RunSetup(setup);
    assert r.Ready? && r.videoStream == v;
    ReadLoopMatchesReference(k, v, r.response, packets, InitialConverter, imageSize);
    assert FirstEnding(k, v, packets[2..]) == 0;
    assert packets[1..][1..] == packets[2..];
    assert FirstEnding(k, v, packets) == 2;
    assert packets[..2] == [p1, p2];
    assert [p1, p2][1..] == [p2];
    assert [p2][1..] == [];
    assert Decodes(k, v, p1) && Decodes(k, v, p2);
    assert PublishedFrames(k, v, [p2], imageSize) == [PublishedFrame(f2, imageSize)];
    assert PublishedFrames(k, v, packets[..2], imageSize)
        == [PublishedFrame(f1, imageSize), PublishedFrame(f2, imageSize)];
    RunThenStopLeavesNoBuffer(id, k, Script(setup, packets), imageSize);
  }

  /** av_read_frame failing ends the loop and its code is dropped. After a
      decoded frame the response is not negative, so a stream that dies
      there is not reported; right after an EAGAIN receive the response is
      EAGAIN, and that is reported as an error. */
  lemma InputEndsAfterFrameOrRetry(
    id: string, k: LibraryCodes, setup: SetupResults, f: DecodedFrame, imageSize: (int, int) -> nat)
    requires FirstNegative(SetupCodes(setup)).None? && setup.bestStream >= 0
    requires !IsRetry(k, 0)
    requires k.eagain < 0 && k.eagain != DefaultResponse
    ensures var v := setup.bestStream;
      var decoded := PacketResults(true, v, 0, 0, f, 0);
      var retry := PacketResults(true, v, 0, k.eagain, f, 0);
      && StartWorkerThread(NewDecoder(id), k, Script(setup, [decoded]), imageSize).notifications
         == [NewFrame(PublishedFrame(f, imageSize))]
      && StartWorkerThread(NewDecoder(id), k, Script(setup, [decoded, retry]), imageSize).notifications
         == [NewFrame(PublishedFrame(f, imageSize)), Error(k.eagain)]
  {
    var v := setup.bestStream;
    var decoded := PacketResults(true, v, 0, 0, f, 0);
    var retry := PacketResults(true, v, 0, k.eagain, f, 0);
    var r := RunSetup(setup);
    assert r.Ready? && r.videoStream == v;
    ReadLoopMatchesReference(k, v, r.response, [decoded], InitialConverter, imageSize);
    assert [decoded][1..] == [];
    assert [decoded][..1] == [decoded];
    var two := [decoded, retry];
    ReadLoopMatchesReference(k, v, r.response, two, InitialConverter, imageSize);
    assert two[1..] == [retry] && [retry][1..] == [];
    assert FirstEnding(k, v, two) == 2;
    assert two[..2] == two;
    assert PublishedFrames(k, v, two, imageSize) == [PublishedFrame(f, imageSize)];
    assert ResponseAfter(k, v, k.eagain, []) == k.eagain;
    assert ResponseAfter(k, v, 0, [retry]) == k.eagain;
    assert ResponseAfter(k, v, r.response, two) == k.eagain;
  }
}
