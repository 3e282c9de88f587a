/** The session registry (MainViewModel): Start replaces whatever was
    running with eight fresh decoders, Stop tears them all down, and the
    frame and error callbacks update the display slot of the decoder that
    raised them. Decoders and display slots live in two maps keyed by the
    same ids. */
module MainViewModel {
  import opened Wrappers
  import opened FrameConversion
  import VSD = VideoStreamDecoder

  /** How many decoders Start creates, whatever the layout could show. */
  const StreamCount: nat := 8

  /** A display slot (RealPlayModel): its id, the frame shown (null when
      none) and the error message shown (null when none). */
  datatype RealPlayModel = RealPlayModel(id: string, currentFrame: Option<Frame>, errorMessage: Option<string>)

  function NewRealPlayModel(id: string): RealPlayModel
  {
    RealPlayModel(id, None, None)
  }

  /** The view model: the address typed by the user, and the Decoders and
      RealPlayModels dictionaries. */
  datatype ViewModel = ViewModel(
    address: Option<string>,
    decoders: map<string, VSD.Decoder>,
    realPlayModels: map<string, RealPlayModel>)

  /** What Start and Stop do, in order: the CamerasStopped and
      CamerasStarted events, and the order of the Dictionary.Add calls
      that register each id. */
  datatype Event = CamerasStopped | Registered(id: string) | CamerasStarted

  /** The two dictionaries hold the same keys, and every decoder and every
      slot carries the key it is stored under. */
  predicate LockStep(vm: ViewModel)
  {
    && vm.decoders.Keys == vm.realPlayModels.Keys
    && (forall id :: id in vm.decoders ==> vm.decoders[id].id == id)
    && (forall id :: id in vm.realPlayModels ==> vm.realPlayModels[id].id == id)
  }

  /** A decoder as Start leaves it: handlers attached, then started on the address. */
  function StartedDecoder(id: string, address: Option<string>): VSD.Decoder
  {
    VSD.Start(VSD.NewDecoder(id).(handlersAttached := true), address)
  }

  /** A registered decoder after Stop detached the handlers and stopped it. */
  function StoppedDecoder(d: VSD.Decoder): VSD.Decoder
  {
    VSD.Stop(d.(handlersAttached := false)).decoder
  }

  /** The heap calls VideoStreamDecoder.Stop makes for a registered decoder. */
  function StopCalls(d: VSD.Decoder): seq<HeapCall>
  {
    VSD.Stop(d.(handlersAttached := false)).calls
  }

  /** Outcome of Stop: the view model, the decoders it stopped, the heap
      calls each of them made (both by key; pointers are only meaningful
      within one decoder's log) and the events raised. */
  datatype StopOutcome = StopOutcome(
    viewModel: ViewModel,
    stopped: map<string, VSD.Decoder>,
    released: map<string, seq<HeapCall>>,
    events: seq<Event>)

  /** MainViewModel.Stop, the Stop command. */
  function Stop(vm: ViewModel): (r: StopOutcome)
    ensures r.viewModel.decoders == map[] && r.viewModel.realPlayModels == map[]
    ensures r.viewModel.address == vm.address
    ensures LockStep(r.viewModel)
    ensures r.stopped.Keys == vm.decoders.Keys
    ensures forall id :: id in r.stopped ==>
      && r.stopped[id].id == vm.decoders[id].id
      && !r.stopped[id].keepAlive
      && !r.stopped[id].handlersAttached
      && r.stopped[id].converter.bufferPtr == Zero
      && r.stopped[id] == StoppedDecoder(vm.decoders[id])
    // every decoder's conversion buffer, if it has one, is freed, and nothing else is
    ensures r.released.Keys == vm.decoders.Keys
    ensures forall id :: id in r.released ==>
      var ptr := vm.decoders[id].converter.bufferPtr;
      && r.released[id] == (if ptr == Zero then [] else [FreeHGlobal(ptr)])
      && LiveAfter(Owned(vm.decoders[id].converter), r.released[id]) == {}
    ensures r.events == [CamerasStopped]
  {
    var stopped := map id | id in vm.decoders :: StoppedDecoder(vm.decoders[id]);
    var released := map id | id in vm.decoders :: StopCalls(vm.decoders[id]);
    StopOutcome(vm.(decoders := map[], realPlayModels := map[]), stopped, released, [CamerasStopped])
  }

  /** The registry holds the very decoder object its worker runs on: once
      the worker of `id` has finished and the registry's entry carries the
      worker's conversion state, Stop frees the buffer that worker
      allocated last, so nothing the worker allocated stays live. */
  lemma {:induction false} StopFreesWorkerBuffer(
    vm: ViewModel, id: string, k: VSD.LibraryCodes, script: VSD.Script, imageSize: (int, int) -> nat)
    requires id in vm.decoders
    ensures var d := vm.decoders[id];
      var w := VSD.StartWorkerThread(d, k, script, imageSize);
      var r := Stop(vm.(decoders := vm.decoders[id := w.decoder]));
      && id in r.released
      && LiveAfter(Owned(d.converter), w.run.heap + r.released[id]) == {}
  {
    var d := vm.decoders[id];
    var w := VSD.StartWorkerThread(d, k, script, imageSize);
    var r := Stop(vm.(decoders := vm.decoders[id := w.decoder]));
    assert r.released[id] == StopCalls(w.decoder);
    LiveAfterAppend(Owned(d.converter), w.run.heap, r.released[id]);
  }

  lemma RegistrationsSnoc(ids: seq<string>, i: nat)
    requires i < |ids|
    ensures Registrations(ids[..i + 1]) == Registrations(ids[..i]) + [Registered(ids[i])]
  {
    var a := Registrations(ids[..i + 1]);
    var b := Registrations(ids[..i]) + [Registered(ids[i])];
    assert |a| == |b|;
    forall k | 0 <= k < |a|
      ensures a[k] == b[k]
    {
      assert a[k] == Registered(ids[k]);
    }
  }

  lemma PrefixKeys(ids: seq<string>, i: nat)
    requires i < |ids|
    ensures (set j | 0 <= j < i + 1 :: ids[j]) == (set j | 0 <= j < i :: ids[j]) + {ids[i]}
  {
  }

  lemma MapAddSize<V>(m: map<string, V>, k: string, v: V)
    requires k !in m
    ensures |m[k := v]| == |m| + 1
    ensures m[k := v].Keys == m.Keys + {k}
  {
    assert m[k := v].Keys == m.Keys + {k};
  }

  /** A second Stop stops nothing more. */
  lemma StopTwice(vm: ViewModel)
    ensures var once := Stop(vm).viewModel;
      Stop(once) == StopOutcome(once, map[], map[], [CamerasStopped])
  {
  }

  /** The registration events for `ids`, in order. */
  function Registrations(ids: seq<string>): seq<Event>
  {
    seq(|ids|, i requires 0 <= i < |ids| => Registered(ids[i]))
  }

  /** MainViewModel.Start, the Start command. The ids stand for the GUIDs the loop generates. */
  method Start(vm: ViewModel, ids: seq<string>)
    returns (vm': ViewModel, stopped: map<string, VSD.Decoder>, released: map<string, seq<HeapCall>>, events: seq<Event>)
    requires |ids| == StreamCount
    requires forall i, j :: 0 <= i < j < |ids| ==> ids[i] != ids[j]
    ensures |vm'.decoders| == StreamCount && |vm'.realPlayModels| == StreamCount
    ensures vm'.decoders.Keys == (set i | 0 <= i < |ids| :: ids[i])
    ensures LockStep(vm')
    ensures vm'.address == vm.address
    ensures forall id :: id in vm'.decoders ==> vm'.decoders[id] == StartedDecoder(id, vm.address)
    ensures forall id :: id in vm'.realPlayModels ==> vm'.realPlayModels[id] == NewRealPlayModel(id)
    // whatever ran before was stopped first
    ensures stopped.Keys == vm.decoders.Keys
    ensures forall id :: id in stopped ==> stopped[id] == StoppedDecoder(vm.decoders[id])
    ensures released.Keys == vm.decoders.Keys
    ensures forall id :: id in released ==> LiveAfter(Owned(vm.decoders[id].converter), released[id]) == {}
    // CamerasStarted is raised once, after every registration
    ensures events == [CamerasStopped] + Registrations(ids) + [CamerasStarted]
  {
    var s := Stop(vm);
    stopped, released := s.stopped, s.released;
    var decoders, models, registrations := RegisterAll(ids, vm.address);
    assert decoders.Keys == (set j | 0 <= j < |ids| :: ids[j]);
    events := s.events + registrations + [CamerasStarted];
    vm' := ViewModel(vm.address, decoders, models);
  }

  /** The loop of Start: one started decoder and one empty slot per id. */
  method RegisterAll(ids: seq<string>, address: Option<string>)
    returns (decoders: map<string, VSD.Decoder>, models: map<string, RealPlayModel>, events: seq<Event>)
    requires forall i, j :: 0 <= i < j < |ids| ==> ids[i] != ids[j]
    ensures RegisteredPrefix(ids, |ids|, address, decoders, models)
    ensures events == Registrations(ids)
  {
    decoders := map[];
    models := map[];
    events := [];
    var i := 0;
    while i < |ids|
      invariant 0 <= i <= |ids|
      invariant RegisteredPrefix(ids, i, address, decoders, models)
      invariant events == Registrations(ids[..i])
    {
      var id := ids[i];
      var decoder := StartedDecoder(id, address);
      RegisterStep(ids, i, address, decoders, models);
      models := models[id := NewRealPlayModel(id)];
      decoders := decoders[id := decoder];
      RegistrationsSnoc(ids, i);
      events := events + [Registered(id)];
      i := i + 1;
    }
    assert ids[..i] == ids;
  }

  /** After registering the first `count` ids: both maps hold exactly
      those keys, one entry per id, each a started decoder or an empty slot. */
  ghost predicate RegisteredPrefix(ids: seq<string>, count: nat, address: Option<string>,
                                   decoders: map<string, VSD.Decoder>, models: map<string, RealPlayModel>)
    requires count <= |ids|
  {
    && KeysArePrefix(ids, count, decoders.Keys, models.Keys, |decoders|, |models|)
    && (forall id :: id in decoders ==> decoders[id] == StartedDecoder(id, address))
    && (forall id :: id in models ==> models[id] == NewRealPlayModel(id))
  }

  ghost predicate KeysArePrefix(ids: seq<string>, count: nat, decoderKeys: set<string>, modelKeys: set<string>,
                                decoderCount: nat, modelCount: nat)
    requires count <= |ids|
  {
    && decoderKeys == (set j | 0 <= j < count :: ids[j])
    && modelKeys == decoderKeys
    && decoderCount == count && modelCount == count
  }

  /** One turn of Start's loop keeps RegisteredPrefix. */
  lemma RegisterStep(ids: seq<string>, i: nat, address: Option<string>,
                     decoders: map<string, VSD.Decoder>, models: map<string, RealPlayModel>)
    requires i < |ids|
    requires forall a, b :: 0 <= a < b < |ids| ==> ids[a] != ids[b]
    requires RegisteredPrefix(ids, i, address, decoders, models)
    ensures RegisteredPrefix(ids, i + 1, address,
      decoders[ids[i] := StartedDecoder(ids[i], address)], models[ids[i] := NewRealPlayModel(ids[i])])
  {
    var id := ids[i];
    KeysStep(ids, i, decoders, models, StartedDecoder(id, address), NewRealPlayModel(id));
    DecodersStep(decoders, id, address);
    ModelsStep(models, id);
  }

  lemma DecodersStep(decoders: map<string, VSD.Decoder>, id: string, address: Option<string>)
    requires forall x :: x in decoders ==> decoders[x] == StartedDecoder(x, address)
    ensures var d' := decoders[id := StartedDecoder(id, address)];
      forall x :: x in d' ==> d'[x] == StartedDecoder(x, address)
  {
  }

  lemma ModelsStep(models: map<string, RealPlayModel>, id: string)
    requires forall x :: x in models ==> models[x] == NewRealPlayModel(x)
    ensures var m' := models[id := NewRealPlayModel(id)];
      forall x :: x in m' ==> m'[x] == NewRealPlayModel(x)
  {
  }

  lemma KeysStep<D, M>(ids: seq<string>, i: nat, decoders: map<string, D>, models: map<string, M>, d: D, m: M)
    requires i < |ids|
    requires forall a, b :: 0 <= a < b < |ids| ==> ids[a] != ids[b]
    requires KeysArePrefix(ids, i, decoders.Keys, models.Keys, |decoders|, |models|)
    ensures KeysArePrefix(ids, i + 1, decoders[ids[i] := d].Keys, models[ids[i] := m].Keys,
                          |decoders[ids[i] := d]|, |models[ids[i] := m]|)
  {
    var id := ids[i];
    assert id !in decoders;
    PrefixKeys(ids, i);
    MapAddSize(models, id, m);
    MapAddSize(decoders, id, d);
  }

  /** Whatever was registered before, two Starts in a row leave exactly the
      second batch: the registry never accumulates. */
  method StartTwice(vm: ViewModel, first: seq<string>, second: seq<string>) returns (vm': ViewModel)
    requires |first| == StreamCount && |second| == StreamCount
    requires forall i, j :: 0 <= i < j < |first| ==> first[i] != first[j]
    requires forall i, j :: 0 <= i < j < |second| ==> second[i] != second[j]
    ensures |vm'.decoders| == StreamCount && |vm'.realPlayModels| == StreamCount
    ensures vm'.decoders.Keys == (set i | 0 <= i < |second| :: second[i])
  {
    var once, stoppedFirst, releasedFirst, eventsFirst := Start(vm, first);
    var stoppedSecond, releasedSecond, eventsSecond;
    vm', stoppedSecond, releasedSecond, eventsSecond := Start(once, second);
  }

  /** Who raised a callback: a decoder (by its Id) or some other object. */
  datatype Sender = FromDecoder(id: string) | FromOther

  /** The exceptions that escape a callback: the Dictionary indexer's for a
      decoder whose Id has no slot, and one a property-change handler
      throws where nothing catches it. */
  datatype Fault = KeyNotFound(key: string) | HandlerFault(message: string)

  /** MainViewModel.OnNewFrame. `notifyFault` is the message of an
      exception thrown by a property-change handler while the frame is set,
      if any; the catch block then clears the frame and shows the message.
      Those two assignments raise change notifications too: `catchFault` is
      the message of an exception a handler throws during them, which
      nothing catches. It matters only when the catch block runs. */
  function OnNewFrame(vm: ViewModel, sender: Sender, frame: Frame, notifyFault: Option<string>, catchFault: Option<string>)
    : (r: Result<ViewModel, Fault>)
    ensures sender.FromOther? ==> r == Success(vm)
    ensures sender.FromDecoder? && sender.id !in vm.realPlayModels ==> r == Failure(KeyNotFound(sender.id))
    ensures sender.FromDecoder? && sender.id in vm.realPlayModels && notifyFault.Some? && catchFault.Some? ==>
      r == Failure(HandlerFault(catchFault.value))
    ensures sender.FromDecoder? && sender.id in vm.realPlayModels && (notifyFault.None? || catchFault.None?) ==>
      && r.Success?
      && r.value.address == vm.address
      && r.value.decoders == vm.decoders
      && r.value.realPlayModels.Keys == vm.realPlayModels.Keys
      && (forall id :: id in vm.realPlayModels && id != sender.id ==>
            r.value.realPlayModels[id] == vm.realPlayModels[id])
      && r.value.realPlayModels[sender.id].id == vm.realPlayModels[sender.id].id
      && (notifyFault.None? ==>
            && r.value.realPlayModels[sender.id].currentFrame == Some(frame)
            && r.value.realPlayModels[sender.id].errorMessage == vm.realPlayModels[sender.id].errorMessage)
      && (notifyFault.Some? ==>
            && r.value.realPlayModels[sender.id].currentFrame == None
            && r.value.realPlayModels[sender.id].errorMessage == notifyFault)
    ensures r.Success? && LockStep(vm) ==> LockStep(r.value)
  {
    match sender
    case FromOther => Success(vm)
    case FromDecoder(id) =>
      if id !in vm.realPlayModels then Failure(KeyNotFound(id))
      else if notifyFault.Some? && catchFault.Some? then Failure(HandlerFault(catchFault.value))
      else
        var slot := vm.realPlayModels[id];
        var slot' := if notifyFault.None? then slot.(currentFrame := Some(frame))
                     else slot.(currentFrame := None, errorMessage := notifyFault);
        Success(vm.(realPlayModels := vm.realPlayModels[id := slot']))
  }

  /** MainViewModel.OnError. It has no try block: `notifyFault` is the
      message of an exception a property-change handler throws while the
      frame or the message is set, and it escapes. */
  function OnError(vm: ViewModel, sender: Sender, error: string, notifyFault: Option<string>): (r: Result<ViewModel, Fault>)
    ensures sender.FromOther? ==> r == Success(vm)
    ensures sender.FromDecoder? && sender.id !in vm.realPlayModels ==> r == Failure(KeyNotFound(sender.id))
    ensures sender.FromDecoder? && sender.id in vm.realPlayModels && notifyFault.Some? ==>
      r == Failure(HandlerFault(notifyFault.value))
    ensures sender.FromDecoder? && sender.id in vm.realPlayModels && notifyFault.None? ==>
      && r.Success?
      && r.value.address == vm.address
      && r.value.decoders == vm.decoders
      && r.value.realPlayModels.Keys == vm.realPlayModels.Keys
      && (forall id :: id in vm.realPlayModels && id != sender.id ==>
            r.value.realPlayModels[id] == vm.realPlayModels[id])
      && r.value.realPlayModels[sender.id]
         == RealPlayModel(vm.realPlayModels[sender.id].id, None, Some(error))
    ensures r.Success? && LockStep(vm) ==> LockStep(r.value)
  {
    match sender
    case FromOther => Success(vm)
    case FromDecoder(id) =>
      if id !in vm.realPlayModels then Failure(KeyNotFound(id))
      else if notifyFault.Some? then Failure(HandlerFault(notifyFault.value))
      else
        var slot := vm.realPlayModels[id];
        Success(vm.(realPlayModels := vm.realPlayModels[id := slot.(currentFrame := None, errorMessage := Some(error))]))
  }

  /** Hands a worker's notifications to the view model one by one, as the
      dispatcher does, with `errorText` standing for av_strerror and no
      property-change handler throwing. */
  function Deliver(vm: ViewModel, id: string, notes: seq<VSD.Notification>, errorText: int -> string): Result<ViewModel, Fault>
    decreases |notes|
  {
    if notes == [] then Success(vm)
    else
      var step := match notes[0]
        case NewFrame(f) => OnNewFrame(vm, FromDecoder(id), f, None, None)
        case Error(code) => OnError(vm, FromDecoder(id), errorText(code), None);
      match step
      case Failure(e) => Failure(e)
      case Success(vm') => Deliver(vm', id, notes[1..], errorText)
  }

  /** The last error code among `notes`, if any. */
  function LastError(notes: seq<VSD.Notification>): Option<int>
  {
    if notes == [] then None
    else if LastError(notes[1..]).Some? then LastError(notes[1..])
    else if notes[0].Error? then Some(notes[0].code)
    else None
  }

  /** The frame a slot shows right after a notification. */
  function ShownFrame(n: VSD.Notification): Option<Frame>
  {
    match n
    case NewFrame(f) => Some(f)
    case Error(_) => None
  }

  /** Delivering a worker's notifications to a registered slot succeeds,
      touches no other slot, leaves the slot showing the latest frame (or
      nothing, if the latest notification was an error), and shows the text
      of the latest error, if there was one; a frame does not clear an
      earlier error message. */
  lemma {:induction false} DeliverLatestWins(vm: ViewModel, id: string, notes: seq<VSD.Notification>, errorText: int -> string)
    requires id in vm.realPlayModels
    ensures var r := Deliver(vm, id, notes, errorText);
      && r.Success?
      && r.value.decoders == vm.decoders
      && r.value.realPlayModels.Keys == vm.realPlayModels.Keys
      && (forall other :: other in vm.realPlayModels && other != id ==>
            r.value.realPlayModels[other] == vm.realPlayModels[other])
      && r.value.realPlayModels[id].id == vm.realPlayModels[id].id
      && (notes != [] ==> r.value.realPlayModels[id].currentFrame == ShownFrame(notes[|notes| - 1]))
      && r.value.realPlayModels[id].errorMessage ==
           (match LastError(notes) { case Some(code) => Some(errorText(code))
                                     case None => vm.realPlayModels[id].errorMessage })
    decreases |notes|
  {
    if notes != [] {
      var step := match notes[0]
        case NewFrame(f) => OnNewFrame(vm, FromDecoder(id), f, None, None)
        case Error(code) => OnError(vm, FromDecoder(id), errorText(code), None);
      var vm' := step.value;
      DeliverLatestWins(vm', id, notes[1..], errorText);
    }
  }
}
