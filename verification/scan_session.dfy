/** The scan-session controller of src/hooks/useISBNScanner.ts as a state machine.
    Every hook callback becomes a function from the session, plus the outcome of the
    browser or decoder call it awaited (passed in as an input), to the next session
    and the reports handed to the caller (`onScanSuccess` / `onScanError`). */
module ScanSession {
  import opened Common
  import opened Types
  import Isbn
  import InlineCheck

  /** A `MediaDeviceInfo`. */
  datatype Device = Device(deviceId: string, kind: string, caption: string)

  /** The hook's state. `decoding` is the state of the ZXing reader: a decode loop
      runs from a successful `decodeFromVideoDevice` until the next `reset()`, and
      frames reach the callback only while it runs. `camera` is the device id the
      last successful `decodeFromVideoDevice` was given. */
  datatype Session = Session(
    isScanning: bool,
    hasPermission: bool,
    error: Option<string>,
    devices: seq<Device>,
    selectedDeviceId: Option<string>,
    decoding: bool,
    camera: Option<string>)

  const Initial := Session(false, false, None, [], None, false, None)

  /** A call of `onScanSuccess` or `onScanError`. The message of a permission
      failure is read from the previous render's `error`, so only the call is kept. */
  datatype Report = Succeeded(result: ScanResult) | Failed(message: string) | PermissionReported

  datatype Step = Step(session: Session, reports: seq<Report>)

  const DevicesFailedMessage := "Failed to access camera devices"
  const DeniedMessage := "Camera access denied. Please enable camera permissions in your browser settings."
  const NoCameraMessage := "No camera found on this device."
  const PermissionFailedMessage := "Failed to access camera. Please check your camera permissions."
  const NotInitializedMessage := "Scanner not properly initialized"
  const NoDeviceMessage := "No camera device available"
  const ScanErrorMessage := "Scanning error occurred"
  const StartFailedMessage := "Failed to start camera"

  // ---------------------------------------------------------------------------
  // Device discovery (getVideoDevices)

  /** `devices.filter(device => device.kind === 'videoinput')`. */
  function VideoInputs(all: seq<Device>): (r: seq<Device>)
    ensures |r| <= |all|
    ensures forall d :: d in r <==> d in all && d.kind == "videoinput"
  {
    if all == [] then []
    else
      assert all == [all[0]] + all[1..];
      (if all[0].kind == "videoinput" then [all[0]] else []) + VideoInputs(all[1..])
  }

  /** A single device passes the filter exactly when it is a video input. */
  lemma VideoInputsOne(d: Device)
    ensures VideoInputs([d]) == if d.kind == "videoinput" then [d] else []
  {
    assert [d][1..] == [];
  }

  /** The filter works device by device and keeps the enumeration order, so the
      first video input listed is the first one kept. */
  lemma {:induction false} VideoInputsConcat(a: seq<Device>, b: seq<Device>)
    ensures VideoInputs(a + b) == VideoInputs(a) + VideoInputs(b)
  {
    if a == [] {
      assert a + b == b;
    } else {
      assert (a + b)[0] == a[0];
      assert (a + b)[1..] == a[1..] + b;
      VideoInputsConcat(a[1..], b);
      var k := if a[0].kind == "videoinput" then [a[0]] else [];
      AppendAssoc(k, VideoInputs(a[1..]), VideoInputs(b));
    }
  }

  /** A label that, lower-cased, mentions `back`, `rear` or `environment`. */
  predicate LooksRear(d: Device) {
    var text := ToLower(d.caption);
    Includes(text, "back") || Includes(text, "rear") || Includes(text, "environment")
  }

  /** `backCamera || videoDevices[0]`, as an index: the first rear-looking device,
      or the first device when none looks rear; `None` for no devices. */
  function PreferredIndex(ds: seq<Device>): (r: Option<nat>)
    ensures r.None? <==> ds == []
    ensures r.Some? ==> r.value < |ds| && forall j :: 0 <= j < r.value ==> !LooksRear(ds[j])
    ensures r.Some? && !LooksRear(ds[r.value]) ==> r.value == 0 && forall j :: 0 <= j < |ds| ==> !LooksRear(ds[j])
  {
    if ds == [] then None
    else if LooksRear(ds[0]) then Some(0)
    else
      var rest := PreferredIndex(ds[1..]);
      if rest.Some? && LooksRear(ds[1..][rest.value]) then Some(rest.value + 1) else Some(0)
  }

  /** What getVideoDevices' `enumerateDevices()` produced. */
  datatype Enumeration = Listed(all: seq<Device>) | ListingFailed

  /** getVideoDevices: store the video inputs and, only when no device is selected
      yet, select the preferred one; a failed listing only sets an error. */
  function ReceiveDevices(st: Session, e: Enumeration): (r: Session)
    ensures e.ListingFailed? ==> r == st.(error := Some(DevicesFailedMessage))
    ensures e.Listed? ==> r.devices == VideoInputs(e.all) && r.error == st.error
    ensures e.Listed? && Truthy(st.selectedDeviceId) ==> r.selectedDeviceId == st.selectedDeviceId
    ensures e.Listed? && !Truthy(st.selectedDeviceId) && VideoInputs(e.all) != [] ==>
      var p := PreferredIndex(VideoInputs(e.all)).value;
      r.selectedDeviceId == Some(VideoInputs(e.all)[p].deviceId)
    ensures e.Listed? && VideoInputs(e.all) == [] ==> r.selectedDeviceId == st.selectedDeviceId
    ensures r.isScanning == st.isScanning && r.hasPermission == st.hasPermission && r.decoding == st.decoding
    ensures r.camera == st.camera
  {
    match e
    case ListingFailed => st.(error := Some(DevicesFailedMessage))
    case Listed(all) =>
      var videos := VideoInputs(all);
      var preferred := PreferredIndex(videos);
      if preferred.Some? && !Truthy(st.selectedDeviceId) then
        st.(devices := videos, selectedDeviceId := Some(videos[preferred.value].deviceId))
      else
        st.(devices := videos)
  }

  /** With nothing selected yet, a listing that includes a rear-looking camera
      selects one (the first), so the scanner prefers the back camera. */
  lemma RearCameraPreferred(st: Session, all: seq<Device>, j: nat)
    requires !Truthy(st.selectedDeviceId)
    requires j < |VideoInputs(all)| && LooksRear(VideoInputs(all)[j])
    ensures exists d :: (d in VideoInputs(all) && LooksRear(d) &&
                         ReceiveDevices(st, Listed(all)).selectedDeviceId == Some(d.deviceId))
  {
    var videos := VideoInputs(all);
    var p := PreferredIndex(videos).value;
    assert LooksRear(videos[p]);
    assert videos[p] in videos;
  }

  /** Listing devices again never overrides a selection already made. */
  lemma SelectionSurvivesRelisting(st: Session, e: Enumeration)
    requires Truthy(st.selectedDeviceId)
    ensures ReceiveDevices(st, e).selectedDeviceId == st.selectedDeviceId
  {
  }

  // ---------------------------------------------------------------------------
  // Permission (requestPermission)

  /** What `getUserMedia` did: granted (then the devices were listed) or threw an
      error with the given `name`. */
  datatype Permission = Granted(listing: Enumeration) | Refused(errorName: string)

  datatype PermissionStep = PermissionStep(session: Session, granted: bool, reports: seq<Report>)

  /** The message chosen by the error's name. */
  function PermissionMessage(name: string): string {
    if name == "NotAllowedError" then DeniedMessage
    else if name == "NotFoundError" then NoCameraMessage
    else PermissionFailedMessage
  }

  /** requestPermission: on a grant, permission is recorded, the error cleared and the
      devices listed; on a refusal, permission is withdrawn, the error names the
      cause (denied, no camera, anything else) and the failure is reported. */
  function RequestPermission(st: Session, p: Permission): (r: PermissionStep)
    ensures r.granted <==> p.Granted?
    ensures r.session.hasPermission <==> p.Granted?
    ensures p.Granted? ==> r.reports == [] && r.session == ReceiveDevices(st.(hasPermission := true, error := None), p.listing)
    ensures p.Granted? && p.listing.Listed? ==> r.session.error.None?
    ensures p.Refused? ==> r.reports == [PermissionReported]
    ensures p.Refused? && p.errorName == "NotAllowedError" ==> r.session.error == Some(DeniedMessage)
    ensures p.Refused? && p.errorName == "NotFoundError" ==> r.session.error == Some(NoCameraMessage)
    ensures p.Refused? && p.errorName != "NotAllowedError" && p.errorName != "NotFoundError" ==>
      r.session.error == Some(PermissionFailedMessage)
    ensures p.Refused? ==> r.session == st.(hasPermission := false, error := r.session.error)
  {
    match p
    case Granted(listing) =>
      PermissionStep(ReceiveDevices(st.(hasPermission := true, error := None), listing), true, [])
    case Refused(name) =>
      PermissionStep(st.(hasPermission := false, error := Some(PermissionMessage(name))), false, [PermissionReported])
  }

  // ---------------------------------------------------------------------------
  // Starting, decoding, stopping

  /** The outcomes startScanning awaits: the permission request (used only when the
      session lacks permission), whether the video element is attached, and whether
      `decodeFromVideoDevice` started or threw. */
  datatype StartInputs = StartInputs(permission: Permission, videoAttached: bool, engineStarts: bool)

  /** `selectedDeviceId || devices[0]?.deviceId`: the selected id, else the first
      listed device's; empty ids count as missing. */
  function TargetDevice(st: Session): (r: Option<string>)
    ensures Truthy(st.selectedDeviceId) ==> r == st.selectedDeviceId
    ensures !Truthy(st.selectedDeviceId) ==> r == if |st.devices| > 0 then Some(st.devices[0].deviceId) else None
    ensures Truthy(r) <==> Truthy(st.selectedDeviceId) || (|st.devices| > 0 && st.devices[0].deviceId != "")
  {
    if Truthy(st.selectedDeviceId) then st.selectedDeviceId
    else if |st.devices| > 0 then Some(st.devices[0].deviceId)
    else None
  }

  /** startScanning. Without permission it first requests it and gives up on a
      refusal. It then marks the session scanning and picks the device from the
      state the call started from (the hook's callback sees that render's
      `selectedDeviceId` and `devices`, not the ones a permission grant inside this
      call has just stored). With no device it records an error but stays marked as
      scanning; a decoder that throws unmarks it and reports the failure. */
  function StartScanning(st: Session, inputs: StartInputs): (r: Step)
    ensures r.session.decoding && !st.decoding ==>
      inputs.videoAttached && inputs.engineStarts && Truthy(TargetDevice(st))
    ensures !st.hasPermission && inputs.permission.Refused? ==>
      r.session.isScanning == st.isScanning && r.session.decoding == st.decoding &&
      !r.session.hasPermission && r.reports == [PermissionReported]
    ensures (st.hasPermission || inputs.permission.Granted?) && inputs.videoAttached ==>
      r.session.hasPermission && (r.session.isScanning <==> !Truthy(TargetDevice(st)) || inputs.engineStarts)
    ensures (st.hasPermission || inputs.permission.Granted?) && inputs.videoAttached && !Truthy(TargetDevice(st)) ==>
      r.session.error == Some(NoDeviceMessage) && r.session.decoding == st.decoding
    ensures (st.hasPermission || inputs.permission.Granted?) && inputs.videoAttached && Truthy(TargetDevice(st)) ==>
      if inputs.engineStarts then r.session.decoding && r.session.error.None?
      else r.session.error == Some(StartFailedMessage) && |r.reports| > 0 && r.reports[|r.reports| - 1] == Failed(StartFailedMessage)
    ensures st.hasPermission ==> r.reports == [] || r.reports == [Failed(StartFailedMessage)]
    ensures (st.hasPermission || inputs.permission.Granted?) && !inputs.videoAttached ==>
      r.session.error == Some(NotInitializedMessage) && r.session.hasPermission &&
      r.session.isScanning == st.isScanning && r.session.decoding == st.decoding && r.reports == []
    ensures st.hasPermission && !inputs.videoAttached ==> r == Step(st.(error := Some(NotInitializedMessage)), [])
    ensures st.hasPermission ==> r.session.devices == st.devices && r.session.selectedDeviceId == st.selectedDeviceId
    ensures !st.hasPermission ==>
      var listed := RequestPermission(st, inputs.permission).session;
      r.session.devices == listed.devices && r.session.selectedDeviceId == listed.selectedDeviceId
    ensures var starts := (st.hasPermission || inputs.permission.Granted?) && inputs.videoAttached &&
        Truthy(TargetDevice(st)) && inputs.engineStarts;
      r.session.camera == if starts then TargetDevice(st) else st.camera
  {
    var asked := if st.hasPermission then PermissionStep(st, true, []) else RequestPermission(st, inputs.permission);
    var st1 := asked.session;
    if !asked.granted then Step(st1, asked.reports)
    else if !inputs.videoAttached then Step(st1.(error := Some(NotInitializedMessage)), asked.reports)
    else
      var st2 := st1.(isScanning := true, error := None);
      var device := TargetDevice(st);
      if !Truthy(device) then Step(st2.(error := Some(NoDeviceMessage)), asked.reports)
      else if !inputs.engineStarts then
        Step(st2.(error := Some(StartFailedMessage), isScanning := false), asked.reports + [Failed(StartFailedMessage)])
      else
        Step(st2.(decoding := true, camera := device), asked.reports)
  }

  /** A first start without permission that is granted and lists a camera still
      ends with "No camera device available": the device is chosen from the state
      the call began in, which had no devices yet. The scanner component avoids this
      path by requesting permission before it ever calls startScanning. */
  lemma FirstStartFindsNoDevice(cam: Device, engineStarts: bool)
    requires cam.kind == "videoinput"
    ensures var r := StartScanning(Initial, StartInputs(Granted(Listed([cam])), true, engineStarts));
      r.session.devices == [cam] && r.session.error == Some(NoDeviceMessage) &&
      r.session.isScanning && !r.session.decoding
  {
    assert VideoInputs([cam]) == [cam] by {
      assert [cam][1..] == [];
    }
  }

  /** The path the scanner component takes: permission first, then the start. A
      grant that lists a video input selects the preferred camera (when nothing was
      selected), and the start that follows decodes from exactly that camera,
      without an error or a report. */
  lemma PermissionThenStart(st: Session, all: seq<Device>, later: Permission)
    requires !st.hasPermission && !Truthy(st.selectedDeviceId) && VideoInputs(all) != []
    requires VideoInputs(all)[PreferredIndex(VideoInputs(all)).value].deviceId != ""
    ensures var granted := RequestPermission(st, Granted(Listed(all))).session;
      var preferred := VideoInputs(all)[PreferredIndex(VideoInputs(all)).value];
      var started := StartScanning(granted, StartInputs(later, true, true));
      TargetDevice(granted) == Some(preferred.deviceId) &&
      started.session.decoding && started.session.isScanning && started.session.error.None? &&
      started.reports == [] && started.session.selectedDeviceId == Some(preferred.deviceId) &&
      started.session.camera == Some(preferred.deviceId)
  {
  }

  /** stopScanning: reset the reader and unmark scanning; nothing else changes. */
  function StopScanning(st: Session): (r: Session)
    ensures !r.isScanning && !r.decoding
    ensures r.hasPermission == st.hasPermission && r.error == st.error
    ensures r.devices == st.devices && r.selectedDeviceId == st.selectedDeviceId && r.camera == st.camera
  {
    st.(isScanning := false, decoding := false)
  }

  /** Stopping twice is stopping once, whatever the state. */
  lemma StopIdempotent(st: Session)
    ensures StopScanning(StopScanning(st)) == StopScanning(st)
  {
  }

  /** What the decoder may hand the callback with a frame. */
  datatype FrameError = NoError | NotFound | EngineFailure

  /** One decode callback: a decoded text (if any) and an error (if any). */
  datatype Frame = Frame(text: Option<string>, err: FrameError)

  /** The decode callback. A text the inline validator accepts is reported once, as
      its cleaned form, and scanning stops; other texts are ignored. An error other
      than NotFound sets and reports the scanning error without stopping. With the
      reader reset, no callback arrives and nothing happens. */
  function OnFrame(st: Session, f: Frame): (r: Step)
    ensures !st.decoding ==> r == Step(st, [])
    ensures st.decoding && f.text.Some? && InlineCheck.Validate(f.text.value) ==>
      |r.reports| >= 1 && r.reports[0] == Succeeded(ScanResult(Isbn.Normalize(f.text.value), true, None)) &&
      !r.session.isScanning && !r.session.decoding
    ensures (f.text.None? || !InlineCheck.Validate(f.text.value)) && f.err != EngineFailure ==> r == Step(st, [])
    ensures st.decoding && f.err == EngineFailure ==>
      r.session.error == Some(ScanErrorMessage) && |r.reports| > 0 && r.reports[|r.reports| - 1] == Failed(ScanErrorMessage)
    ensures st.decoding && f.err == EngineFailure && (f.text.None? || !InlineCheck.Validate(f.text.value)) ==>
      r == Step(st.(error := Some(ScanErrorMessage)), [Failed(ScanErrorMessage)])
    ensures st.decoding && f.text.Some? && InlineCheck.Validate(f.text.value) ==>
      var success := Succeeded(ScanResult(Isbn.Normalize(f.text.value), true, None));
      if f.err == EngineFailure then
        r == Step(StopScanning(st).(error := Some(ScanErrorMessage)), [success, Failed(ScanErrorMessage)])
      else r == Step(StopScanning(st), [success])
    ensures forall k :: 0 <= k < |r.reports| ==> r.reports[k].Succeeded? ==> k == 0 && r.reports[k].result.success
    ensures r.session.devices == st.devices && r.session.selectedDeviceId == st.selectedDeviceId
    ensures r.session.hasPermission == st.hasPermission && r.session.camera == st.camera
  {
    if !st.decoding then Step(st, [])
    else
      var found :=
        if f.text.Some? && InlineCheck.Validate(f.text.value) then
          InlineCheck.CleanIsNormalWithoutLowercaseX(f.text.value);
          Step(StopScanning(st), [Succeeded(ScanResult(Isbn.Clean(f.text.value), true, None))])
        else Step(st, []);
      if f.err == EngineFailure then
        Step(found.session.(error := Some(ScanErrorMessage)), found.reports + [Failed(ScanErrorMessage)])
      else found
  }

  /** The reports of a run of frames, in order. */
  function RunFrames(st: Session, frames: seq<Frame>): Step
    decreases |frames|
  {
    if frames == [] then Step(st, [])
    else
      var first := OnFrame(st, frames[0]);
      var rest := RunFrames(first.session, frames[1..]);
      Step(rest.session, first.reports + rest.reports)
  }

  function CountSucceeded(reports: seq<Report>): nat {
    if reports == [] then 0
    else (if reports[0].Succeeded? then 1 else 0) + CountSucceeded(reports[1..])
  }

  lemma {:induction false} CountSucceededConcat(a: seq<Report>, b: seq<Report>)
    ensures CountSucceeded(a + b) == CountSucceeded(a) + CountSucceeded(b)
  {
    if a == [] {
      assert a + b == b;
    } else {
      assert (a + b)[1..] == a[1..] + b;
      CountSucceededConcat(a[1..], b);
    }
  }

  lemma {:induction false} CountSucceededNone(reports: seq<Report>)
    requires forall k :: 0 <= k < |reports| ==> !reports[k].Succeeded?
    ensures CountSucceeded(reports) == 0
  {
    if reports != [] {
      CountSucceededNone(reports[1..]);
    }
  }

  /** Once the reader is reset, later frames change nothing and report nothing. */
  lemma {:induction false} DetachedRunIsSilent(st: Session, frames: seq<Frame>)
    requires !st.decoding
    ensures RunFrames(st, frames) == Step(st, [])
    decreases |frames|
  {
    if frames != [] {
      DetachedRunIsSilent(st, frames[1..]);
    }
  }

  /** At most one success per scan: however many frames the decoder delivers, at
      most one ISBN reaches `onScanSuccess`, and after it the session has stopped. */
  lemma {:induction false} AtMostOneSuccess(st: Session, frames: seq<Frame>)
    ensures CountSucceeded(RunFrames(st, frames).reports) <= 1
    ensures CountSucceeded(RunFrames(st, frames).reports) == 1 ==> !RunFrames(st, frames).session.decoding
    decreases |frames|
  {
    if frames != [] {
      var first := OnFrame(st, frames[0]);
      var rest := RunFrames(first.session, frames[1..]);
      CountSucceededConcat(first.reports, rest.reports);
      if first.session.decoding {
        CountSucceededNone(first.reports);
        AtMostOneSuccess(first.session, frames[1..]);
      } else {
        DetachedRunIsSilent(first.session, frames[1..]);
        if exists k :: 0 <= k < |first.reports| && first.reports[k].Succeeded? {
          assert first.reports[0].Succeeded?;
          CountSucceededNone(first.reports[1..]);
          assert first.reports == [first.reports[0]] + first.reports[1..];
          CountSucceededConcat([first.reports[0]], first.reports[1..]);
        } else {
          CountSucceededNone(first.reports);
        }
      }
    }
  }

  // ---------------------------------------------------------------------------
  // Switching cameras

  /** `devices.findIndex(device => device.deviceId === selectedDeviceId)`: a position
      holding the selected id, or -1 (see IndexOfSelectedFirst for which one). */
  function IndexOfSelected(ds: seq<Device>, id: Option<string>): (r: int)
    ensures -1 <= r < |ds|
    ensures r >= 0 ==> id == Some(ds[r].deviceId)
    decreases |ds|
  {
    if ds == [] then -1
    else if id == Some(ds[0].deviceId) then 0
    else
      var k := IndexOfSelected(ds[1..], id);
      if k == -1 then -1 else k + 1
  }

  /** findIndex finds the first position holding the id, and -1 exactly when no
      position holds it. */
  lemma {:induction false} IndexOfSelectedFirst(ds: seq<Device>, id: Option<string>)
    ensures forall j :: 0 <= j < |ds| && j < IndexOfSelected(ds, id) ==> id != Some(ds[j].deviceId)
    ensures IndexOfSelected(ds, id) == -1 <==> forall j :: 0 <= j < |ds| ==> id != Some(ds[j].deviceId)
    decreases |ds|
  {
    if ds != [] && id != Some(ds[0].deviceId) {
      IndexOfSelectedFirst(ds[1..], id);
      assert forall j :: 1 <= j < |ds| ==> ds[j] == ds[1..][j - 1];
    }
  }

  /** The id switchCamera selects among at least two devices. */
  function NextSelection(ds: seq<Device>, selected: Option<string>): Option<string>
    requires |ds| >= 2
  {
    Some(ds[NextIndex(IndexOfSelected(ds, selected), |ds|)].deviceId)
  }

  /** The outcome of switchCamera: the new session and whether a restart was
      scheduled (the `setTimeout` whose later `startScanning` is a separate event). */
  datatype SwitchStep = SwitchStep(session: Session, restartScheduled: bool)

  /** switchCamera: with at most one device nothing changes; otherwise the device
      after the selected one (the first when none is selected) becomes selected, and
      a running scan is stopped before a restart is scheduled. */
  function SwitchCamera(st: Session): (r: SwitchStep)
    ensures |st.devices| <= 1 ==> r == SwitchStep(st, false)
    ensures |st.devices| >= 2 ==> r.session.selectedDeviceId == NextSelection(st.devices, st.selectedDeviceId)
    ensures |st.devices| >= 2 && IndexOfSelected(st.devices, st.selectedDeviceId) == -1 ==>
      r.session.selectedDeviceId == Some(st.devices[0].deviceId)
    ensures |st.devices| >= 2 ==> (r.restartScheduled <==> st.isScanning)
    ensures r.restartScheduled ==> !r.session.isScanning && !r.session.decoding
    ensures !r.restartScheduled ==> r.session.isScanning == st.isScanning && r.session.decoding == st.decoding
    ensures r.session.devices == st.devices && r.session.hasPermission == st.hasPermission
    ensures r.session.error == st.error && r.session.camera == st.camera
  {
    if |st.devices| <= 1 then SwitchStep(st, false)
    else
      var st1 := st.(selectedDeviceId := NextSelection(st.devices, st.selectedDeviceId));
      if st.isScanning then SwitchStep(StopScanning(st1), true) else SwitchStep(st1, false)
  }

  /** Device ids are pairwise distinct. */
  predicate DistinctIds(ds: seq<Device>) {
    forall i, j :: 0 <= i < j < |ds| ==> ds[i].deviceId != ds[j].deviceId
  }

  /** Every device is found by findIndex at its own position. */
  predicate FoundInPlace(ds: seq<Device>) {
    forall i :: 0 <= i < |ds| ==> IndexOfSelected(ds, Some(ds[i].deviceId)) == i
  }

  /** findIndex finds every device in place exactly when the ids are distinct. */
  lemma FoundInPlaceIffDistinct(ds: seq<Device>)
    ensures FoundInPlace(ds) <==> DistinctIds(ds)
  {
    forall i | 0 <= i < |ds| {
      IndexOfSelectedFirst(ds, Some(ds[i].deviceId));
    }
    if FoundInPlace(ds) {
      forall i, j | 0 <= i < j < |ds| ensures ds[i].deviceId != ds[j].deviceId {
        assert IndexOfSelected(ds, Some(ds[j].deviceId)) == j;
      }
    }
  }

  /** The session after k presses of the switch button. */
  function SwitchTimes(st: Session, k: nat): Session
    decreases k
  {
    if k == 0 then st else SwitchCamera(SwitchTimes(st, k - 1)).session
  }

  /** The selection after k presses, computed on the device list alone. */
  function SelectionAfter(ds: seq<Device>, selected: Option<string>, k: nat): Option<string>
    requires |ds| >= 2
    decreases k
  {
    if k == 0 then selected else NextSelection(ds, SelectionAfter(ds, selected, k - 1))
  }

  /** Pressing the switch button only moves the selection round the fixed list. */
  lemma {:induction false} SwitchTimesSelection(st: Session, k: nat)
    requires |st.devices| >= 2
    ensures SwitchTimes(st, k).devices == st.devices
    ensures SwitchTimes(st, k).selectedDeviceId == SelectionAfter(st.devices, st.selectedDeviceId, k)
    decreases k
  {
    if k > 0 {
      SwitchTimesSelection(st, k - 1);
    }
  }

  /** With every device found in place, switching from the device at position i
      selects the next position round the ring. */
  lemma SwitchFromPosition(ds: seq<Device>, i: nat, id: Option<string>)
    requires |ds| >= 2 && FoundInPlace(ds) && i < |ds| && id == Some(ds[i].deviceId)
    ensures NextSelection(ds, id) == Some(ds[NextIndex(i, |ds|)].deviceId)
  {
  }

  /** With every device found in place, the selection after k presses is the device
      k steps round the ring from the starting one. */
  lemma {:induction false} SelectionTracksPosition(ds: seq<Device>, i: nat, k: nat)
    requires |ds| >= 2 && FoundInPlace(ds) && i < |ds|
    ensures SelectionAfter(ds, Some(ds[i].deviceId), k) == Some(ds[PositionAfter(i, |ds|, k)].deviceId)
    decreases k
  {
    if k > 0 {
      SelectionTracksPosition(ds, i, k - 1);
      var p := PositionAfter(i, |ds|, k - 1);
      SwitchFromPosition(ds, p, SelectionAfter(ds, Some(ds[i].deviceId), k - 1));
    }
  }

  /** Round robin on sessions: k presses from the device at position i select the
      device k steps round the ring, which is position i + k until the end of the
      list is passed. */
  lemma SwitchRoundRobin(st: Session, i: nat, k: nat)
    requires |st.devices| >= 2 && DistinctIds(st.devices)
    requires i < |st.devices| && st.selectedDeviceId == Some(st.devices[i].deviceId)
    ensures SwitchTimes(st, k).devices == st.devices
    ensures SwitchTimes(st, k).selectedDeviceId == Some(st.devices[PositionAfter(i, |st.devices|, k)].deviceId)
    ensures i + k < |st.devices| ==> SwitchTimes(st, k).selectedDeviceId == Some(st.devices[i + k].deviceId)
  {
    FoundInPlaceIffDistinct(st.devices);
    SwitchTimesSelection(st, k);
    SelectionTracksPosition(st.devices, i, k);
    if i + k < |st.devices| {
      PositionForward(i, |st.devices|, k);
    }
  }

  /** As many switches as there are devices come back to the device one started
      from, having passed through every other device on the way. */
  lemma FullCircle(st: Session, i: nat)
    requires |st.devices| >= 2 && DistinctIds(st.devices)
    requires i < |st.devices| && st.selectedDeviceId == Some(st.devices[i].deviceId)
    ensures SwitchTimes(st, |st.devices|).devices == st.devices
    ensures SwitchTimes(st, |st.devices|).selectedDeviceId == st.selectedDeviceId
  {
    SwitchRoundRobin(st, i, |st.devices|);
    PositionFullCircle(i, |st.devices|);
  }
}
