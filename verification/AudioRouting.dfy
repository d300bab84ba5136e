/**
  Sound device routing (audio_hw.c): reference-counted sound devices, and the
  usecases that are moved between them.
*/
module AudioRouting {
  import opened Wrappers

  const SND_DEVICE_MAX := 36
  type SndDevice = x: int | 0 <= x < SND_DEVICE_MAX
  const SND_DEVICE_NONE: SndDevice := 0
  const SND_DEVICE_OUT_SPEAKER: SndDevice := 2
  const SND_DEVICE_OUT_HEADPHONES: SndDevice := 3
  const SND_DEVICE_OUT_SPEAKER_AND_HEADPHONES: SndDevice := 4

  const AUDIO_USECASE_MAX := 6
  type UsecaseId = x: int | 0 <= x < AUDIO_USECASE_MAX
  const USECASE_VOICE_CALL: UsecaseId := 5

  datatype UsecaseType = PcmPlayback | PcmCapture | VoiceCall

  /** An entry of the usecase list, with what routing looks at in its stream. */
  datatype Usecase = Usecase(
    id: UsecaseId,
    typ: UsecaseType,
    devices: int,             // the stream's devices
    primary: bool,            // the stream is adev->primary_output
    voiceCommunication: bool, // the stream's source is AUDIO_SOURCE_VOICE_COMMUNICATION
    out: SndDevice,           // out_snd_device
    inn: SndDevice)           // in_snd_device

  /** What else decides about devices at one moment: any two pickers, and the primary output's state. */
  datatype Policy = Policy(
    outputDevice: int -> SndDevice,   // get_output_snd_device
    inputDevice: int -> SndDevice,    // get_input_snd_device
    primaryActive: bool,
    primaryDevices: int)

  // ----- Reference counts ------------------------------------------------------------------

  /** How often a sound device takes part in a sound device: a combo counts for each of its parts. */
  function Part(dev: SndDevice, d: int): nat {
    if dev == SND_DEVICE_NONE then 0
    else if dev == SND_DEVICE_OUT_SPEAKER_AND_HEADPHONES then
      if d == SND_DEVICE_OUT_SPEAKER || d == SND_DEVICE_OUT_HEADPHONES then 1 else 0
    else if dev == d then 1 else 0
  }

  function UsedBy(uc: Usecase, d: int): nat {
    Part(uc.out, d) + Part(uc.inn, d)
  }

  /** The number of uses of a sound device by usecases. */
  function Uses(ucs: seq<Usecase>, d: int): nat {
    if ucs == [] then 0 else Uses(ucs[..|ucs| - 1], d) + UsedBy(ucs[|ucs| - 1], d)
  }

  lemma {:induction false} UsesUpdate(ucs: seq<Usecase>, k: nat, uc: Usecase, d: int)
    requires k < |ucs|
    ensures Uses(ucs[k := uc], d) + UsedBy(ucs[k], d) == Uses(ucs, d) + UsedBy(uc, d)
    decreases |ucs|
  {
    hide UsedBy;
    var n := |ucs| - 1;
    if k < n {
      UsesUpdate(ucs[..n], k, uc, d);
      assert ucs[k := uc][..n] == ucs[..n][k := uc];
    } else {
      assert ucs[k := uc][..n] == ucs[..n];
    }
  }

  lemma {:induction false} UsesRemove(ucs: seq<Usecase>, k: nat, d: int)
    requires k < |ucs|
    ensures Uses(ucs[..k] + ucs[k + 1..], d) + UsedBy(ucs[k], d) == Uses(ucs, d)
    decreases |ucs|
  {
    hide UsedBy;
    var n := |ucs| - 1;
    var rest := ucs[..k] + ucs[k + 1..];
    if k < n {
      UsesRemove(ucs[..n], k, d);
      assert rest[..n - 1] == ucs[..n][..k] + ucs[..n][k + 1..];
    } else {
      assert rest == ucs[..n];
    }
  }

  lemma UsesAppend(ucs: seq<Usecase>, uc: Usecase, d: int)
    ensures Uses(ucs + [uc], d) == Uses(ucs, d) + UsedBy(uc, d)
  {
    assert (ucs + [uc])[..|ucs|] == ucs;
  }

  /** enable_snd_device's effect on the counts. */
  function Raised(c: seq<int>, dev: SndDevice): (r: seq<int>)
    requires |c| == SND_DEVICE_MAX
    ensures |r| == |c|
  {
    if dev == SND_DEVICE_OUT_SPEAKER_AND_HEADPHONES then
      var c' := c[SND_DEVICE_OUT_SPEAKER := c[SND_DEVICE_OUT_SPEAKER] + 1];
      c'[SND_DEVICE_OUT_HEADPHONES := c'[SND_DEVICE_OUT_HEADPHONES] + 1]
    else c[dev := c[dev] + 1]
  }

  /** disable_snd_device's: counts that are not positive stay. */
  function LoweredOne(c: seq<int>, dev: SndDevice): (r: seq<int>)
    requires |c| == SND_DEVICE_MAX
    ensures |r| == |c|
  {
    if c[dev] <= 0 then c else c[dev := c[dev] - 1]
  }

  function Lowered(c: seq<int>, dev: SndDevice): (r: seq<int>)
    requires |c| == SND_DEVICE_MAX
    ensures |r| == |c|
  {
    if dev == SND_DEVICE_OUT_SPEAKER_AND_HEADPHONES then
      LoweredOne(LoweredOne(c, SND_DEVICE_OUT_SPEAKER), SND_DEVICE_OUT_HEADPHONES)
    else LoweredOne(c, dev)
  }

  /** Disabling finds no count of a real device at zero. */
  predicate Covers(c: seq<int>, dev: SndDevice)
    requires |c| == SND_DEVICE_MAX
  {
    forall d | 0 <= d < SND_DEVICE_MAX :: Part(dev, d) <= c[d]
  }

  // ----- Routing as functions on the usecase list ------------------------------------------------

  /** The first usecase with this id, or the length of the list. */
  function Find(ucs: seq<Usecase>, id: UsecaseId): (k: nat)
    ensures k <= |ucs| && (k < |ucs| ==> ucs[k].id == id)
    ensures forall j | 0 <= j < k :: ucs[j].id != id
  {
    if ucs == [] then 0
    else
      var k := Find(ucs[..|ucs| - 1], id);
      if k < |ucs| - 1 then k else if ucs[k].id == id then k else k + 1
  }

  /** The first capture or voice call usecase, or the length of the list. */
  function FindInput(ucs: seq<Usecase>): (k: nat)
    ensures k <= |ucs| && (k < |ucs| ==> ucs[k].typ != PcmPlayback)
    ensures forall j | 0 <= j < k :: ucs[j].typ == PcmPlayback
  {
    if ucs == [] then 0
    else
      var k := FindInput(ucs[..|ucs| - 1]);
      if k < |ucs| - 1 then k else if ucs[k].typ != PcmPlayback then k else k + 1
  }

  function DeviceOf(uc: Usecase, typ: UsecaseType): SndDevice {
    if typ == PcmPlayback then uc.out else uc.inn
  }

  function WithDevice(uc: Usecase, typ: UsecaseType, dev: SndDevice): Usecase {
    if typ == PcmPlayback then uc.(out := dev) else uc.(inn := dev)
  }

  /** check_and_route_usecases: the other usecases of one type follow to the device. */
  function Routed(ucs: seq<Usecase>, k: nat, typ: UsecaseType, dev: SndDevice): (r: seq<Usecase>)
    ensures |r| == |ucs|
    ensures forall j | 0 <= j < |ucs| :: r[j] == if j != k && ucs[j].typ == typ then WithDevice(ucs[j], typ, dev) else ucs[j]
  {
    seq(|ucs|, j requires 0 <= j < |ucs| =>
        if j != k && ucs[j].typ == typ then WithDevice(ucs[j], typ, dev) else ucs[j])
  }

  /** A usecase put on two sound devices, with the usecases that have to follow. */
  function Reassigned(ucs: seq<Usecase>, k: nat, out: SndDevice, inn: SndDevice): (r: seq<Usecase>)
    requires k < |ucs|
    ensures |r| == |ucs|
  {
    if out == ucs[k].out && inn == ucs[k].inn then ucs
    else
      var u1 := if out != SND_DEVICE_NONE then Routed(ucs, k, PcmPlayback, out) else ucs;
      var u2 := if inn != SND_DEVICE_NONE then Routed(u1, k, PcmCapture, inn) else u1;
      u2[k := u2[k].(out := out, inn := inn)]
  }

  /** The voice call's usecase, while there is a call. */
  function Call(ucs: seq<Usecase>, inCall: bool): Option<Usecase> {
    var k := Find(ucs, USECASE_VOICE_CALL);
    if inCall && k < |ucs| then Some(ucs[k]) else None
  }

  function CallOut(ucs: seq<Usecase>, inCall: bool): SndDevice {
    if Call(ucs, inCall).Some? then Call(ucs, inCall).value.out else SND_DEVICE_NONE
  }

  function CallIn(ucs: seq<Usecase>, inCall: bool): SndDevice {
    if Call(ucs, inCall).Some? then Call(ucs, inCall).value.inn else SND_DEVICE_NONE
  }

  /** The stream behind the first capture or voice call usecase is a voice communication input. */
  predicate VoiceInput(ucs: seq<Usecase>) {
    var k := FindInput(ucs);
    k < |ucs| && ucs[k].typ == PcmCapture && ucs[k].voiceCommunication
  }

  /** The device select_devices wants for a capture usecase. */
  function WantedIn(ucs: seq<Usecase>, inCall: bool, p: Policy): SndDevice {
    if CallIn(ucs, inCall) != SND_DEVICE_NONE then CallIn(ucs, inCall)
    else if VoiceInput(ucs) && p.primaryActive then p.inputDevice(p.primaryDevices)
    else p.inputDevice(0)
  }

  /** select_devices, for the capture usecase at `k`. */
  function SelectedInput(ucs: seq<Usecase>, inCall: bool, p: Policy, k: nat): (r: seq<Usecase>)
    requires k < |ucs|
    ensures |r| == |ucs|
  {
    Reassigned(ucs, k, SND_DEVICE_NONE, WantedIn(ucs, inCall, p))
  }

  /** select_devices. A playback usecase of the primary output takes the voice communication
      input along. */
  function Selected(ucs: seq<Usecase>, inCall: bool, p: Policy, id: UsecaseId): (r: seq<Usecase>)
    ensures |r| == |ucs|
  {
    var k := Find(ucs, id);
    if k == |ucs| then ucs
    else
      var uc := ucs[k];
      match uc.typ
      case VoiceCall => Reassigned(ucs, k, p.outputDevice(uc.devices), p.inputDevice(uc.devices))
      case PcmCapture => SelectedInput(ucs, inCall, p, k)
      case PcmPlayback =>
        if CallOut(ucs, inCall) != SND_DEVICE_NONE then Reassigned(ucs, k, CallOut(ucs, inCall), SND_DEVICE_NONE)
        else
          var w := if uc.primary && VoiceInput(ucs) then SelectedInput(ucs, inCall, p, FindInput(ucs)) else ucs;
          Reassigned(w, k, p.outputDevice(uc.devices), SND_DEVICE_NONE)
  }

  // ----- What every state keeps ------------------------------------------------------------------

  ghost predicate DistinctIds(ucs: seq<Usecase>) {
    forall i, j | 0 <= i < j < |ucs| :: ucs[i].id != ucs[j].id
  }

  /** The voice call, and nothing else, has the voice call's id. */
  ghost predicate OneCall(ucs: seq<Usecase>) {
    forall j | 0 <= j < |ucs| :: ucs[j].typ == VoiceCall <==> ucs[j].id == USECASE_VOICE_CALL
  }

  /** Playback has no input device, capture no output device. */
  ghost predicate Sided(ucs: seq<Usecase>) {
    forall j | 0 <= j < |ucs| ::
      && (ucs[j].typ == PcmPlayback ==> ucs[j].inn == SND_DEVICE_NONE)
      && (ucs[j].typ == PcmCapture ==> ucs[j].out == SND_DEVICE_NONE)
  }

  /** The usecases of one type that have a device have this one. */
  ghost predicate AllOn(ucs: seq<Usecase>, typ: UsecaseType, dev: SndDevice) {
    forall j | 0 <= j < |ucs| && ucs[j].typ == typ && DeviceOf(ucs[j], typ) != SND_DEVICE_NONE ::
      DeviceOf(ucs[j], typ) == dev
  }

  /** The usecases of one type share one device, the call's if there is one. */
  ghost predicate Shared(ucs: seq<Usecase>, typ: UsecaseType, callDevice: SndDevice) {
    if callDevice != SND_DEVICE_NONE then AllOn(ucs, typ, callDevice) else exists dev :: AllOn(ucs, typ, dev)
  }

  ghost predicate Good(ucs: seq<Usecase>, inCall: bool) {
    && DistinctIds(ucs) && OneCall(ucs) && Sided(ucs)
    && (inCall <==> Find(ucs, USECASE_VOICE_CALL) < |ucs|)
    && Shared(ucs, PcmPlayback, CallOut(ucs, inCall)) && Shared(ucs, PcmCapture, CallIn(ucs, inCall))
  }

  /** A state's list with the same entries but for their sound devices. */
  ghost predicate SameEntries(ucs: seq<Usecase>, vs: seq<Usecase>) {
    |ucs| == |vs| && forall j | 0 <= j < |ucs| :: vs[j] == ucs[j].(out := vs[j].out, inn := vs[j].inn)
  }

  lemma {:induction false} SameIdsFind(ucs: seq<Usecase>, vs: seq<Usecase>, id: UsecaseId)
    requires |ucs| == |vs| && forall j | 0 <= j < |ucs| :: ucs[j].id == vs[j].id
    ensures Find(ucs, id) == Find(vs, id)
    decreases |ucs|
  {
    var n := |ucs| - 1;
    if n >= 0 {
      SameIdsFind(ucs[..n], vs[..n], id);
    }
  }

  lemma SameFind(ucs: seq<Usecase>, vs: seq<Usecase>, id: UsecaseId)
    requires SameEntries(ucs, vs)
    ensures Find(ucs, id) == Find(vs, id)
  {
    SameIdsFind(ucs, vs, id);
  }

  lemma ReassignedEntries(ucs: seq<Usecase>, k: nat, out: SndDevice, inn: SndDevice)
    requires k < |ucs|
    ensures SameEntries(ucs, Reassigned(ucs, k, out, inn))
  {
  }

  /** Every usecase on the same device as before, or where it had to follow. */
  lemma ReassignedDevices(ucs: seq<Usecase>, k: nat, out: SndDevice, inn: SndDevice)
    requires k < |ucs|
    ensures var r := Reassigned(ucs, k, out, inn);
      forall j | 0 <= j < |ucs| ::
        if j == k then r[j].out == out && r[j].inn == inn
        else if out == ucs[k].out && inn == ucs[k].inn then r[j] == ucs[j]
        else
          && r[j].out == (if out != SND_DEVICE_NONE && ucs[j].typ == PcmPlayback then out else ucs[j].out)
          && r[j].inn == (if inn != SND_DEVICE_NONE && ucs[j].typ == PcmCapture then inn else ucs[j].inn)
  {
  }

  /** Putting a usecase on devices that the call allows keeps everything in order. */
  lemma ReassignedGood(ucs: seq<Usecase>, inCall: bool, k: nat, out: SndDevice, inn: SndDevice)
    requires Good(ucs, inCall) && k < |ucs|
    requires ucs[k].typ == PcmPlayback ==>
      inn == SND_DEVICE_NONE && (CallOut(ucs, inCall) != SND_DEVICE_NONE ==> out == CallOut(ucs, inCall))
    requires ucs[k].typ == PcmCapture ==>
      out == SND_DEVICE_NONE && (CallIn(ucs, inCall) != SND_DEVICE_NONE ==> inn == CallIn(ucs, inCall))
    ensures Good(Reassigned(ucs, k, out, inn), inCall)
  {
    hide Reassigned, Find, Shared;
    var r := Reassigned(ucs, k, out, inn);
    ReassignedEntries(ucs, k, out, inn);
    ReassignedDevices(ucs, k, out, inn);
    SameFind(ucs, r, USECASE_VOICE_CALL);
    ReassignedShared(ucs, inCall, k, out, inn);
  }

  lemma ReassignedShared(ucs: seq<Usecase>, inCall: bool, k: nat, out: SndDevice, inn: SndDevice)
    requires Good(ucs, inCall) && k < |ucs|
    requires ucs[k].typ == PcmPlayback ==>
      inn == SND_DEVICE_NONE && (CallOut(ucs, inCall) != SND_DEVICE_NONE ==> out == CallOut(ucs, inCall))
    requires ucs[k].typ == PcmCapture ==>
      out == SND_DEVICE_NONE && (CallIn(ucs, inCall) != SND_DEVICE_NONE ==> inn == CallIn(ucs, inCall))
    ensures var r := Reassigned(ucs, k, out, inn);
      Shared(r, PcmPlayback, CallOut(r, inCall)) && Shared(r, PcmCapture, CallIn(r, inCall))
  {
    hide Reassigned, Find;
    var r := Reassigned(ucs, k, out, inn);
    ReassignedEntries(ucs, k, out, inn);
    ReassignedDevices(ucs, k, out, inn);
    SameFind(ucs, r, USECASE_VOICE_CALL);
    if out == ucs[k].out && inn == ucs[k].inn {
      assert r == ucs;
    } else {
      if out != SND_DEVICE_NONE && ucs[k].typ != PcmCapture {
        assert AllOn(r, PcmPlayback, out);
      } else {
        var dev :| AllOn(ucs, PcmPlayback, dev) && (CallOut(ucs, inCall) != SND_DEVICE_NONE ==> dev == CallOut(ucs, inCall));
        assert AllOn(r, PcmPlayback, dev);
      }
      if inn != SND_DEVICE_NONE && ucs[k].typ != PcmPlayback {
        assert AllOn(r, PcmCapture, inn);
      } else {
        var dev :| AllOn(ucs, PcmCapture, dev) && (CallIn(ucs, inCall) != SND_DEVICE_NONE ==> dev == CallIn(ucs, inCall));
        assert AllOn(r, PcmCapture, dev);
      }
    }
  }

  /** select_devices keeps the state in order, whatever the pickers say. */
  lemma {:induction false} SelectedGood(ucs: seq<Usecase>, inCall: bool, p: Policy, id: UsecaseId)
    requires Good(ucs, inCall)
    ensures Good(Selected(ucs, inCall, p, id), inCall)
  {
    hide Reassigned, Find, Shared, Good;
    var k := Find(ucs, id);
    if k < |ucs| {
      var uc := ucs[k];
      if uc.typ == PcmPlayback && CallOut(ucs, inCall) == SND_DEVICE_NONE && uc.primary && VoiceInput(ucs) {
        var i := FindInput(ucs);
        var w := SelectedInput(ucs, inCall, p, i);
        ReassignedGood(ucs, inCall, i, SND_DEVICE_NONE, WantedIn(ucs, inCall, p));
        ReassignedEntries(ucs, i, SND_DEVICE_NONE, WantedIn(ucs, inCall, p));
        ReassignedDevices(ucs, i, SND_DEVICE_NONE, WantedIn(ucs, inCall, p));
        SameFind(ucs, w, USECASE_VOICE_CALL);
        ReassignedGood(w, inCall, k, p.outputDevice(uc.devices), SND_DEVICE_NONE);
      } else if uc.typ == PcmPlayback {
        ReassignedGood(ucs, inCall, k,
                       if CallOut(ucs, inCall) != SND_DEVICE_NONE then CallOut(ucs, inCall) else p.outputDevice(uc.devices),
                       SND_DEVICE_NONE);
      } else if uc.typ == PcmCapture {
        ReassignedGood(ucs, inCall, k, SND_DEVICE_NONE, WantedIn(ucs, inCall, p));
      } else {
        ReassignedGood(ucs, inCall, k, p.outputDevice(uc.devices), p.inputDevice(uc.devices));
      }
    }
  }

  // ----- Which devices a selection takes -----------------------------------------------------------

  /** The voice call at `v` decides about a side of the sound device when it has one there. */
  ghost predicate CallAt(ucs: seq<Usecase>, v: nat) {
    v < |ucs| && ucs[v].typ == VoiceCall
  }

  /** The first usecase that is not playback, whose stream is the active input. */
  ghost predicate FirstInput(ucs: seq<Usecase>, i: nat) {
    i < |ucs| && ucs[i].typ != PcmPlayback && forall j | 0 <= j < i :: ucs[j].typ == PcmPlayback
  }

  lemma CallFound(ucs: seq<Usecase>, inCall: bool)
    requires Good(ucs, inCall)
    ensures forall v: nat | CallAt(ucs, v) ::
      inCall && CallOut(ucs, inCall) == ucs[v].out && CallIn(ucs, inCall) == ucs[v].inn
    ensures (forall v: nat :: !CallAt(ucs, v)) ==>
      CallOut(ucs, inCall) == SND_DEVICE_NONE && CallIn(ucs, inCall) == SND_DEVICE_NONE
  {
    var f := Find(ucs, USECASE_VOICE_CALL);
    forall v: nat | CallAt(ucs, v)
      ensures v == f
    {
      assert ucs[v].id == USECASE_VOICE_CALL;
    }
    if f < |ucs| {
      assert CallAt(ucs, f);
    }
  }

  /** A playback usecase takes the call's output device, and without one the device picked for its stream;
      all playback usecases follow when it changes. */
  lemma {:induction false} SelectedPlayback(ucs: seq<Usecase>, inCall: bool, p: Policy, k: nat)
    requires Good(ucs, inCall) && k < |ucs| && ucs[k].typ == PcmPlayback
    ensures var r := Selected(ucs, inCall, p, ucs[k].id);
      && (forall v: nat | CallAt(ucs, v) && ucs[v].out != SND_DEVICE_NONE :: r[k].out == ucs[v].out)
      && ((forall v: nat | CallAt(ucs, v) :: ucs[v].out == SND_DEVICE_NONE) ==> r[k].out == p.outputDevice(ucs[k].devices))
      && (r[k].out != SND_DEVICE_NONE && r[k].out != ucs[k].out ==>
            forall j | 0 <= j < |ucs| && ucs[j].typ == PcmPlayback :: r[j].out == r[k].out)
  {
    hide Reassigned, Good, WantedIn, VoiceInput, CallOut, CallIn;
    GoodFacts(ucs, inCall);
    CallFound(ucs, inCall);
    FindOnly(ucs, k);
    var out := if CallOut(ucs, inCall) != SND_DEVICE_NONE then CallOut(ucs, inCall) else p.outputDevice(ucs[k].devices);
    var w := ucs;
    if CallOut(ucs, inCall) == SND_DEVICE_NONE && ucs[k].primary && VoiceInput(ucs) {
      VoiceInputCaptures(ucs);
      var i := FindInput(ucs);
      w := Reassigned(ucs, i, SND_DEVICE_NONE, WantedIn(ucs, inCall, p));
      ReassignedEntries(ucs, i, SND_DEVICE_NONE, WantedIn(ucs, inCall, p));
      ReassignedDevices(ucs, i, SND_DEVICE_NONE, WantedIn(ucs, inCall, p));
    }
    ReassignedDevices(w, k, out, SND_DEVICE_NONE);
  }

  /** The voice call takes the devices picked for it, and the usecases of each side follow. */
  lemma {:induction false} SelectedCall(ucs: seq<Usecase>, inCall: bool, p: Policy, k: nat)
    requires Good(ucs, inCall) && CallAt(ucs, k)
    ensures var r := Selected(ucs, inCall, p, ucs[k].id);
      var out, inn := p.outputDevice(ucs[k].devices), p.inputDevice(ucs[k].devices);
      && r[k].out == out && r[k].inn == inn
      && (out != ucs[k].out || inn != ucs[k].inn ==>
            forall j | 0 <= j < |ucs| ::
              && (out != SND_DEVICE_NONE && ucs[j].typ == PcmPlayback ==> r[j].out == out)
              && (inn != SND_DEVICE_NONE && ucs[j].typ == PcmCapture ==> r[j].inn == inn))
  {
    hide Reassigned, Good;
    GoodFacts(ucs, inCall);
    FindOnly(ucs, k);
    ReassignedDevices(ucs, k, p.outputDevice(ucs[k].devices), p.inputDevice(ucs[k].devices));
  }

  /** The device picked for an input: by the primary output's devices exactly when that is active and the active input is
      a voice communication. */
  function PickedInput(ucs: seq<Usecase>, i: nat, p: Policy): SndDevice
    requires i < |ucs|
  {
    p.inputDevice(if ucs[i].typ == PcmCapture && ucs[i].voiceCommunication && p.primaryActive then p.primaryDevices else 0)
  }

  lemma InputWanted(ucs: seq<Usecase>, inCall: bool, p: Policy, i: nat)
    requires Good(ucs, inCall) && FirstInput(ucs, i)
    ensures forall v: nat | CallAt(ucs, v) && ucs[v].inn != SND_DEVICE_NONE :: WantedIn(ucs, inCall, p) == ucs[v].inn
    ensures (forall v: nat | CallAt(ucs, v) :: ucs[v].inn == SND_DEVICE_NONE) ==>
      WantedIn(ucs, inCall, p) == PickedInput(ucs, i, p)
    ensures VoiceInput(ucs) <==> ucs[i].typ == PcmCapture && ucs[i].voiceCommunication
    ensures FindInput(ucs) == i
  {
    hide Good, CallOut, CallIn;
    CallFound(ucs, inCall);
    var f := FindInput(ucs);
    assert f == i;
  }

  /** A capture usecase takes the call's input device, and without one the device picked; all capture usecases follow
      when it changes. */
  lemma {:induction false} SelectedCapture(ucs: seq<Usecase>, inCall: bool, p: Policy, k: nat, i: nat)
    requires Good(ucs, inCall) && k < |ucs| && ucs[k].typ == PcmCapture && FirstInput(ucs, i)
    ensures var r := Selected(ucs, inCall, p, ucs[k].id);
      && (forall v: nat | CallAt(ucs, v) && ucs[v].inn != SND_DEVICE_NONE :: r[k].inn == ucs[v].inn)
      && ((forall v: nat | CallAt(ucs, v) :: ucs[v].inn == SND_DEVICE_NONE) ==> r[k].inn == PickedInput(ucs, i, p))
      && (r[k].inn != SND_DEVICE_NONE && r[k].inn != ucs[k].inn ==>
            forall j | 0 <= j < |ucs| && ucs[j].typ == PcmCapture :: r[j].inn == r[k].inn)
  {
    hide Reassigned, Good, WantedIn, VoiceInput, PickedInput;
    GoodFacts(ucs, inCall);
    FindOnly(ucs, k);
    InputWanted(ucs, inCall, p, i);
    ReassignedDevices(ucs, k, SND_DEVICE_NONE, WantedIn(ucs, inCall, p));
  }

  /** A playback usecase of the primary output that is not on a call's device takes a voice communication input along. */
  lemma {:induction false} InputTakenAlong(ucs: seq<Usecase>, inCall: bool, p: Policy, k: nat, i: nat)
    requires Good(ucs, inCall) && k < |ucs| && ucs[k].typ == PcmPlayback && ucs[k].primary && FirstInput(ucs, i)
    requires ucs[i].typ == PcmCapture && ucs[i].voiceCommunication
    requires forall v: nat | CallAt(ucs, v) :: ucs[v].out == SND_DEVICE_NONE
    ensures var r := Selected(ucs, inCall, p, ucs[k].id);
      && (forall v: nat | CallAt(ucs, v) && ucs[v].inn != SND_DEVICE_NONE :: r[i].inn == ucs[v].inn)
      && ((forall v: nat | CallAt(ucs, v) :: ucs[v].inn == SND_DEVICE_NONE) ==> r[i].inn == PickedInput(ucs, i, p))
  {
    hide Reassigned, Good, WantedIn, VoiceInput, PickedInput, CallOut;
    GoodFacts(ucs, inCall);
    CallFound(ucs, inCall);
    FindOnly(ucs, k);
    InputWanted(ucs, inCall, p, i);
    var w := Reassigned(ucs, i, SND_DEVICE_NONE, WantedIn(ucs, inCall, p));
    ReassignedEntries(ucs, i, SND_DEVICE_NONE, WantedIn(ucs, inCall, p));
    ReassignedDevices(ucs, i, SND_DEVICE_NONE, WantedIn(ucs, inCall, p));
    ReassignedDevices(w, k, p.outputDevice(ucs[k].devices), SND_DEVICE_NONE);
  }

  lemma VoiceInputCaptures(ucs: seq<Usecase>)
    requires VoiceInput(ucs)
    ensures FindInput(ucs) < |ucs| && ucs[FindInput(ucs)].typ == PcmCapture
  {
  }

  // ----- Runs ---------------------------------------------------------------------------------------

  datatype State = State(usecases: seq<Usecase>, inCall: bool)

  datatype Event =
    | Start(uc: Usecase)                        // a stream or the voice call starts
    | Stop(id: UsecaseId)                       // it stops
    | Reroute(target: UsecaseId, devices: int)  // its stream gets other devices

  function Started(s: State, uc: Usecase, p: Policy): State {
    var inCall := s.inCall || uc.typ == VoiceCall;
    State(Selected(s.usecases + [uc], inCall, p, uc.id), inCall)
  }

  function Stopped(s: State, id: UsecaseId): State {
    var k := Find(s.usecases, id);
    State(if k < |s.usecases| then s.usecases[..k] + s.usecases[k + 1..] else s.usecases,
          s.inCall && id != USECASE_VOICE_CALL)
  }

  function Rerouted(s: State, id: UsecaseId, devices: int, p: Policy): State {
    var k := Find(s.usecases, id);
    if k == |s.usecases| then s
    else State(Selected(s.usecases[k := s.usecases[k].(devices := devices)], s.inCall, p, id), s.inCall)
  }

  function Step(s: State, e: Event, p: Policy): State {
    match e
    case Start(uc) => Started(s, uc, p)
    case Stop(id) => Stopped(s, id)
    case Reroute(id, devices) => Rerouted(s, id, devices, p)
  }

  /** A usecase starts without devices, when none with its id is active. */
  predicate Startable(ucs: seq<Usecase>, uc: Usecase) {
    && Find(ucs, uc.id) == |ucs| && uc.out == SND_DEVICE_NONE && uc.inn == SND_DEVICE_NONE
    && (uc.typ == VoiceCall <==> uc.id == USECASE_VOICE_CALL)
  }

  predicate Enabled(s: State, e: Event) {
    e.Start? ==> Startable(s.usecases, e.uc)
  }

  lemma FindOnly(ucs: seq<Usecase>, j: nat)
    requires j < |ucs| && DistinctIds(ucs)
    ensures Find(ucs, ucs[j].id) == j
  {
  }

  lemma AppendedFind(ucs: seq<Usecase>, uc: Usecase, id: UsecaseId)
    ensures Find(ucs + [uc], id) == if Find(ucs, id) < |ucs| then Find(ucs, id) else if uc.id == id then |ucs| else |ucs| + 1
  {
    assert (ucs + [uc])[..|ucs|] == ucs;
  }

  /** The devices that the usecases share. */
  lemma GoodDevices(ucs: seq<Usecase>, inCall: bool) returns (out: SndDevice, inn: SndDevice)
    requires Good(ucs, inCall)
    ensures AllOn(ucs, PcmPlayback, out) && AllOn(ucs, PcmCapture, inn)
    ensures CallOut(ucs, inCall) == SND_DEVICE_NONE || CallOut(ucs, inCall) == out
    ensures CallIn(ucs, inCall) == SND_DEVICE_NONE || CallIn(ucs, inCall) == inn
  {
    hide Find, DistinctIds, OneCall, Sided, AllOn;
    out :| AllOn(ucs, PcmPlayback, out) && (CallOut(ucs, inCall) == SND_DEVICE_NONE || CallOut(ucs, inCall) == out);
    inn :| AllOn(ucs, PcmCapture, inn) && (CallIn(ucs, inCall) == SND_DEVICE_NONE || CallIn(ucs, inCall) == inn);
  }

  lemma GoodFrom(ucs: seq<Usecase>, inCall: bool, out: SndDevice, inn: SndDevice)
    requires DistinctIds(ucs) && OneCall(ucs) && Sided(ucs)
    requires inCall <==> Find(ucs, USECASE_VOICE_CALL) < |ucs|
    requires AllOn(ucs, PcmPlayback, out) && AllOn(ucs, PcmCapture, inn)
    requires CallOut(ucs, inCall) == SND_DEVICE_NONE || CallOut(ucs, inCall) == out
    requires CallIn(ucs, inCall) == SND_DEVICE_NONE || CallIn(ucs, inCall) == inn
    ensures Good(ucs, inCall)
  {
    hide Find, DistinctIds, OneCall, Sided, AllOn;
  }

  /** A usecase without devices added. */
  lemma AppendedGood(ucs: seq<Usecase>, inCall: bool, uc: Usecase)
    requires Good(ucs, inCall) && Startable(ucs, uc)
    ensures Good(ucs + [uc], inCall || uc.typ == VoiceCall)
  {
    hide Find, Good;
    AppendedFind(ucs, uc, USECASE_VOICE_CALL);
    GoodFacts(ucs, inCall);
    GoodCall(ucs, inCall);
    var out, inn := GoodDevices(ucs, inCall);
    var all := ucs + [uc];
    assert forall j | 0 <= j < |ucs| :: all[j] == ucs[j];
    GoodFrom(all, inCall || uc.typ == VoiceCall, out, inn);
  }

  function Without(ucs: seq<Usecase>, k: nat): (r: seq<Usecase>)
    requires k < |ucs|
    ensures |r| == |ucs| - 1
    ensures forall j | 0 <= j < |r| :: r[j] == if j < k then ucs[j] else ucs[j + 1]
  {
    ucs[..k] + ucs[k + 1..]
  }

  lemma WithoutKeeps(ucs: seq<Usecase>, k: nat, out: SndDevice, inn: SndDevice)
    requires k < |ucs| && DistinctIds(ucs) && OneCall(ucs) && Sided(ucs)
    requires AllOn(ucs, PcmPlayback, out) && AllOn(ucs, PcmCapture, inn)
    ensures var r := Without(ucs, k);
      DistinctIds(r) && OneCall(r) && Sided(r) && AllOn(r, PcmPlayback, out) && AllOn(r, PcmCapture, inn)
  {
  }

  /** Another usecase is still found; the one removed is not. */
  lemma WithoutFind(ucs: seq<Usecase>, k: nat, id: UsecaseId)
    requires k < |ucs| && DistinctIds(ucs)
    ensures var r, v, w := Without(ucs, k), Find(ucs, id), Find(Without(ucs, k), id);
      if v < |ucs| && v != k then w < |r| && r[w] == ucs[v] else w == |r|
  {
    var r, v := Without(ucs, k), Find(ucs, id);
    if v < |ucs| && v != k {
      var j := if v < k then v else v - 1;
      assert r[j] == ucs[v] && DistinctIds(r);
      FindOnly(r, j);
    } else {
      FindNone(r, id);
    }
  }

  lemma FindNone(ucs: seq<Usecase>, id: UsecaseId)
    requires forall j | 0 <= j < |ucs| :: ucs[j].id != id
    ensures Find(ucs, id) == |ucs|
  {
  }

  lemma StoppedGood(s: State, id: UsecaseId)
    requires Good(s.usecases, s.inCall)
    ensures Good(Stopped(s, id).usecases, Stopped(s, id).inCall)
  {
    hide Find, Good, DistinctIds, OneCall, Sided, AllOn;
    var ucs, r := s.usecases, Stopped(s, id);
    var k := Find(ucs, id);
    GoodFacts(ucs, s.inCall);
    GoodCall(ucs, s.inCall);
    var out, inn := GoodDevices(ucs, s.inCall);
    if k < |ucs| {
      assert r.usecases == Without(ucs, k);
      WithoutKeeps(ucs, k, out, inn);
      WithoutFind(ucs, k, USECASE_VOICE_CALL);
    }
    GoodFrom(r.usecases, r.inCall, out, inn);
  }

  /** Other devices in one stream. */
  lemma DevicesGood(ucs: seq<Usecase>, inCall: bool, k: nat, devices: int)
    requires Good(ucs, inCall) && k < |ucs|
    ensures Good(ucs[k := ucs[k].(devices := devices)], inCall)
  {
    hide Find, Good;
    var vs := ucs[k := ucs[k].(devices := devices)];
    SameIdsFind(ucs, vs, USECASE_VOICE_CALL);
    GoodFacts(ucs, inCall);
    GoodCall(ucs, inCall);
    var out, inn := GoodDevices(ucs, inCall);
    GoodFrom(vs, inCall, out, inn);
  }

  lemma ReroutedGood(s: State, id: UsecaseId, devices: int, p: Policy)
    requires Good(s.usecases, s.inCall)
    ensures Good(Rerouted(s, id, devices, p).usecases, s.inCall)
  {
    hide Selected, Find, Good;
    var ucs, k := s.usecases, Find(s.usecases, id);
    if k < |ucs| {
      DevicesGood(ucs, s.inCall, k, devices);
      SelectedGood(ucs[k := ucs[k].(devices := devices)], s.inCall, p, id);
    }
  }

  lemma StepGood(s: State, e: Event, p: Policy)
    requires Good(s.usecases, s.inCall) && Enabled(s, e)
    ensures Good(Step(s, e, p).usecases, Step(s, e, p).inCall)
  {
    hide Selected, Good, Find;
    match e
    case Start(uc) =>
      AppendedGood(s.usecases, s.inCall, uc);
      SelectedGood(s.usecases + [uc], s.inCall || uc.typ == VoiceCall, p, uc.id);
    case Stop(id) => StoppedGood(s, id);
    case Reroute(id, devices) => ReroutedGood(s, id, devices, p);
  }

  datatype Move = Move(event: Event, policy: Policy)

  /** A run from the state without usecases, with any policy at every step. */
  ghost predicate Run(states: seq<State>, moves: seq<Move>) {
    && |states| == |moves| + 1 && states[0] == State([], false)
    && forall i | 0 <= i < |moves| ::
         Enabled(states[i], moves[i].event) && states[i + 1] == Step(states[i], moves[i].event, moves[i].policy)
  }

  /** What holds in every state: one device for playback, one for capture, the call's during a call. */
  lemma {:induction false} RunGood(states: seq<State>, moves: seq<Move>, i: nat)
    requires Run(states, moves) && i < |states|
    ensures Good(states[i].usecases, states[i].inCall)
  {
    hide Step, Enabled, Find;
    if i == 0 {
      assert AllOn([], PcmPlayback, SND_DEVICE_NONE) && AllOn([], PcmCapture, SND_DEVICE_NONE);
    } else {
      hide Good;
      RunGood(states, moves, i - 1);
      StepGood(states[i - 1], moves[i - 1].event, moves[i - 1].policy);
    }
  }

  /** Any two playback usecases with a device are on the same one, the call's if there is one. */
  lemma {:induction false} PlaybackTogether(ucs: seq<Usecase>, inCall: bool, i: nat, j: nat)
    requires Good(ucs, inCall) && i < |ucs| && j < |ucs| && ucs[i].typ == PcmPlayback == ucs[j].typ
    requires ucs[i].out != SND_DEVICE_NONE && ucs[j].out != SND_DEVICE_NONE
    ensures ucs[i].out == ucs[j].out
    ensures CallOut(ucs, inCall) != SND_DEVICE_NONE ==> ucs[i].out == CallOut(ucs, inCall)
  {
    hide Find;
    assert DeviceOf(ucs[i], PcmPlayback) == ucs[i].out && DeviceOf(ucs[j], PcmPlayback) == ucs[j].out;
  }

  /** Nothing but sound devices changes. */
  lemma SelectedEntries(ucs: seq<Usecase>, inCall: bool, p: Policy, id: UsecaseId)
    ensures SameEntries(ucs, Selected(ucs, inCall, p, id))
  {
    hide Reassigned, WantedIn, CallOut;
    var k := Find(ucs, id);
    if k < |ucs| {
      var uc := ucs[k];
      match uc.typ
      case VoiceCall => ReassignedEntries(ucs, k, p.outputDevice(uc.devices), p.inputDevice(uc.devices));
      case PcmCapture => ReassignedEntries(ucs, k, SND_DEVICE_NONE, WantedIn(ucs, inCall, p));
      case PcmPlayback =>
        ReassignedEntries(ucs, k, CallOut(ucs, inCall), SND_DEVICE_NONE);
        var i, w := FindInput(ucs), ucs;
        if i < |ucs| {
          w := if uc.primary && VoiceInput(ucs) then Reassigned(ucs, i, SND_DEVICE_NONE, WantedIn(ucs, inCall, p)) else ucs;
          ReassignedEntries(ucs, i, SND_DEVICE_NONE, WantedIn(ucs, inCall, p));
        }
        ReassignedEntries(w, k, p.outputDevice(uc.devices), SND_DEVICE_NONE);
    }
  }

  /** A playback stream that starts ends up on the call's output device, and without one on the device picked for it;
      a capture stream on the call's input device, or the one picked. */
  lemma {:induction false} StartedOn(s: State, uc: Usecase, p: Policy, i: nat)
    requires Good(s.usecases, s.inCall) && Startable(s.usecases, uc) && uc.typ != VoiceCall
    requires uc.typ == PcmCapture ==> FirstInput(s.usecases + [uc], i)
    ensures var r := Step(s, Start(uc), p).usecases;
      var n := |s.usecases|;
      && |r| == n + 1 && r[n].id == uc.id
      && (uc.typ == PcmPlayback ==>
            && (forall v: nat | CallAt(s.usecases, v) && s.usecases[v].out != SND_DEVICE_NONE :: r[n].out == s.usecases[v].out)
            && ((forall v: nat | CallAt(s.usecases, v) :: s.usecases[v].out == SND_DEVICE_NONE) ==>
                  r[n].out == p.outputDevice(uc.devices)))
      && (uc.typ == PcmCapture ==>
            && (forall v: nat | CallAt(s.usecases, v) && s.usecases[v].inn != SND_DEVICE_NONE :: r[n].inn == s.usecases[v].inn)
            && ((forall v: nat | CallAt(s.usecases, v) :: s.usecases[v].inn == SND_DEVICE_NONE) ==>
                  r[n].inn == PickedInput(s.usecases + [uc], i, p)))
  {
    hide Selected, Good, PickedInput;
    var ucs, n := s.usecases + [uc], |s.usecases|;
    AppendedGood(s.usecases, s.inCall, uc);
    assert forall v: nat :: CallAt(ucs, v) <==> CallAt(s.usecases, v);
    assert forall v: nat | CallAt(s.usecases, v) :: ucs[v] == s.usecases[v];
    SelectedEntries(ucs, s.inCall, p, uc.id);
    if uc.typ == PcmPlayback {
      SelectedPlayback(ucs, s.inCall, p, n);
    } else {
      SelectedCapture(ucs, s.inCall, p, n, i);
    }
  }

  /** The voice call that starts takes the devices picked for it, and the usecases of each side follow. */
  lemma {:induction false} CallStartedOn(s: State, uc: Usecase, p: Policy)
    requires Good(s.usecases, s.inCall) && Startable(s.usecases, uc) && uc.typ == VoiceCall
    ensures var r := Step(s, Start(uc), p);
      var n, out, inn := |s.usecases|, p.outputDevice(uc.devices), p.inputDevice(uc.devices);
      && r.inCall && |r.usecases| == n + 1 && r.usecases[n].out == out && r.usecases[n].inn == inn
      && forall j | 0 <= j < n ::
           && (out != SND_DEVICE_NONE && s.usecases[j].typ == PcmPlayback ==> r.usecases[j].out == out)
           && (inn != SND_DEVICE_NONE && s.usecases[j].typ == PcmCapture ==> r.usecases[j].inn == inn)
  {
    hide Selected, Good;
    var ucs, n := s.usecases + [uc], |s.usecases|;
    AppendedGood(s.usecases, s.inCall, uc);
    assert forall j | 0 <= j < n :: ucs[j] == s.usecases[j];
    SelectedCall(ucs, true, p, n);
  }

  /** A playback stream that gets other devices: those, and the sound device picked for them, when the call has none. */
  lemma {:induction false} ReroutedOn(s: State, k: nat, devices: int, p: Policy)
    requires Good(s.usecases, s.inCall) && k < |s.usecases| && s.usecases[k].typ == PcmPlayback
    ensures var r := Step(s, Reroute(s.usecases[k].id, devices), p).usecases;
      && |r| == |s.usecases| && r[k].devices == devices
      && (forall v: nat | CallAt(s.usecases, v) && s.usecases[v].out != SND_DEVICE_NONE :: r[k].out == s.usecases[v].out)
      && ((forall v: nat | CallAt(s.usecases, v) :: s.usecases[v].out == SND_DEVICE_NONE) ==> r[k].out == p.outputDevice(devices))
  {
    hide Selected, Good;
    GoodFacts(s.usecases, s.inCall);
    FindOnly(s.usecases, k);
    var ucs := s.usecases[k := s.usecases[k].(devices := devices)];
    DevicesGood(s.usecases, s.inCall, k, devices);
    assert forall v: nat :: CallAt(ucs, v) <==> CallAt(s.usecases, v);
    SelectedEntries(ucs, s.inCall, p, ucs[k].id);
    SelectedPlayback(ucs, s.inCall, p, k);
  }

  // ----- Counts and uses -------------------------------------------------------------------------

  /** Each count is the number of uses. */
  ghost predicate Counted(c: seq<int>, ucs: seq<Usecase>) {
    |c| == SND_DEVICE_MAX && forall d | 0 <= d < SND_DEVICE_MAX :: c[d] == Uses(ucs, d)
  }

  /** The places in the list of the usecases whose output or input device is `dev`. */
  function OutOn(ucs: seq<Usecase>, dev: SndDevice): set<nat> {
    set k: nat | k < |ucs| && ucs[k].out == dev
  }

  function InOn(ucs: seq<Usecase>, dev: SndDevice): set<nat> {
    set k: nat | k < |ucs| && ucs[k].inn == dev
  }

  /** The number of usecases on a device. */
  function On(ucs: seq<Usecase>, dev: SndDevice): nat {
    |OutOn(ucs, dev)| + |InOn(ucs, dev)|
  }

  lemma OutOnAppend(ucs: seq<Usecase>, uc: Usecase, dev: SndDevice)
    ensures |OutOn(ucs + [uc], dev)| == |OutOn(ucs, dev)| + if uc.out == dev then 1 else 0
  {
    var n: nat, was, now := |ucs|, OutOn(ucs, dev), OutOn(ucs + [uc], dev);
    assert n !in was;
    if uc.out == dev {
      assert now == was + {n};
    } else {
      assert now == was;
    }
  }

  lemma InOnAppend(ucs: seq<Usecase>, uc: Usecase, dev: SndDevice)
    ensures |InOn(ucs + [uc], dev)| == |InOn(ucs, dev)| + if uc.inn == dev then 1 else 0
  {
    var n: nat, was, now := |ucs|, InOn(ucs, dev), InOn(ucs + [uc], dev);
    assert n !in was;
    if uc.inn == dev {
      assert now == was + {n};
    } else {
      assert now == was;
    }
  }

  lemma OnAppend(ucs: seq<Usecase>, uc: Usecase, dev: SndDevice)
    ensures On(ucs + [uc], dev) == On(ucs, dev) + (if uc.out == dev then 1 else 0) + (if uc.inn == dev then 1 else 0)
  {
    hide OutOn, InOn;
    OutOnAppend(ucs, uc, dev);
    InOnAppend(ucs, uc, dev);
  }

  /** What the counts mean: the speaker and the headphones are in use by their own usecases and by those of the
      combined device, which is not counted itself; any other device by its own. */
  lemma {:induction false} UsesMean(ucs: seq<Usecase>, dev: SndDevice)
    ensures Uses(ucs, dev) ==
      if dev == SND_DEVICE_NONE || dev == SND_DEVICE_OUT_SPEAKER_AND_HEADPHONES then 0
      else if dev == SND_DEVICE_OUT_SPEAKER || dev == SND_DEVICE_OUT_HEADPHONES
      then On(ucs, dev) + On(ucs, SND_DEVICE_OUT_SPEAKER_AND_HEADPHONES)
      else On(ucs, dev)
  {
    hide On;
    if ucs == [] {
      NobodyOn(dev);
      NobodyOn(SND_DEVICE_OUT_SPEAKER_AND_HEADPHONES);
    } else {
      var n := |ucs| - 1;
      UsesMean(ucs[..n], dev);
      OnAppend(ucs[..n], ucs[n], dev);
      OnAppend(ucs[..n], ucs[n], SND_DEVICE_OUT_SPEAKER_AND_HEADPHONES);
      assert ucs[..n] + [ucs[n]] == ucs;
    }
  }

  lemma NobodyOn(dev: SndDevice)
    ensures On([], dev) == 0
  {
    assert OutOn([], dev) == {} && InOn([], dev) == {};
  }

  lemma RaisedCounts(c: seq<int>, dev: SndDevice)
    requires |c| == SND_DEVICE_MAX && dev != SND_DEVICE_NONE
    ensures forall d | 0 <= d < SND_DEVICE_MAX :: Raised(c, dev)[d] == c[d] + Part(dev, d)
  {
  }

  lemma LoweredCounts(c: seq<int>, dev: SndDevice)
    requires |c| == SND_DEVICE_MAX && c[SND_DEVICE_NONE] == 0 && Covers(c, dev)
    ensures forall d | 0 <= d < SND_DEVICE_MAX :: Lowered(c, dev)[d] == c[d] - Part(dev, d)
  {
    assert Part(dev, dev) <= c[dev];
    assert Part(dev, SND_DEVICE_OUT_SPEAKER) <= c[SND_DEVICE_OUT_SPEAKER];
    assert Part(dev, SND_DEVICE_OUT_HEADPHONES) <= c[SND_DEVICE_OUT_HEADPHONES];
  }

  /** The uses by one usecase are among all uses. */
  lemma {:induction false} UsesOf(ucs: seq<Usecase>, k: nat, d: int)
    requires k < |ucs|
    ensures UsedBy(ucs[k], d) <= Uses(ucs, d)
  {
    UsesRemove(ucs, k, d);
  }

  lemma {:induction false} NoneUnused(ucs: seq<Usecase>)
    ensures Uses(ucs, SND_DEVICE_NONE) == 0
  {
    if ucs != [] {
      NoneUnused(ucs[..|ucs| - 1]);
    }
  }

  /** One of a usecase's devices can be disabled: none of its counts is zero. */
  lemma OneCovered(c: seq<int>, ucs: seq<Usecase>, k: nat)
    requires k < |ucs| && Counted(c, ucs)
    ensures Covers(c, ucs[k].out) && Covers(c, ucs[k].inn) && c[SND_DEVICE_NONE] == 0
    ensures forall d | 0 <= d < SND_DEVICE_MAX :: UsedBy(ucs[k], d) <= c[d]
  {
    hide Part, Uses;
    NoneUnused(ucs);
    forall d | 0 <= d < SND_DEVICE_MAX
      ensures UsedBy(ucs[k], d) <= c[d]
    {
      UsesOf(ucs, k, d);
    }
  }

  /** A device exchanged for another in one entry, and in the counts. */
  lemma CountsMoved(c: seq<int>, c': seq<int>, ucs: seq<Usecase>, j: nat, uc: Usecase)
    requires j < |ucs| && Counted(c, ucs) && |c'| == |c|
    requires forall d | 0 <= d < SND_DEVICE_MAX :: c'[d] + UsedBy(ucs[j], d) == c[d] + UsedBy(uc, d)
    ensures Counted(c', ucs[j := uc])
  {
    hide UsedBy, Uses;
    forall d | 0 <= d < SND_DEVICE_MAX
      ensures c'[d] == Uses(ucs[j := uc], d)
    {
      UsesUpdate(ucs, j, uc, d);
    }
  }

  // ----- The audio device -----------------------------------------------------------------------

  class AudioDevice {
    const sndDevRefCnt: array<int>    // snd_dev_ref_cnt
    var usecases: seq<Usecase>        // usecase_list
    var inCall: bool                  // voice.in_call
    ghost var faults: nat             // how often a disable found the count of a real device at zero

    ghost predicate Valid()
      reads this, sndDevRefCnt
    {
      Good(usecases, inCall) && Counted(sndDevRefCnt[..], usecases) && faults == 0
    }

    constructor ()
      ensures Valid() && fresh(sndDevRefCnt) && usecases == [] && !inCall
    {
      sndDevRefCnt := new int[SND_DEVICE_MAX](_ => 0);
      usecases, inCall, faults := [], false, 0;
      new;
      assert AllOn(usecases, PcmPlayback, SND_DEVICE_NONE) && AllOn(usecases, PcmCapture, SND_DEVICE_NONE);
    }

    method EnableSndDevice(dev: SndDevice)
      requires sndDevRefCnt.Length == SND_DEVICE_MAX
      modifies sndDevRefCnt
      ensures sndDevRefCnt[..] == Raised(old(sndDevRefCnt[..]), dev)
      decreases if dev == SND_DEVICE_OUT_SPEAKER_AND_HEADPHONES then 1 else 0
    {
      if dev == SND_DEVICE_OUT_SPEAKER_AND_HEADPHONES {
        EnableSndDevice(SND_DEVICE_OUT_SPEAKER);
        EnableSndDevice(SND_DEVICE_OUT_HEADPHONES);
        return;
      }
      sndDevRefCnt[dev] := sndDevRefCnt[dev] + 1;
    }

    method DisableSndDevice(dev: SndDevice) returns (ok: bool)
      requires sndDevRefCnt.Length == SND_DEVICE_MAX
      modifies sndDevRefCnt, `faults
      ensures sndDevRefCnt[..] == Lowered(old(sndDevRefCnt[..]), dev)
      ensures Covers(old(sndDevRefCnt[..]), dev) ==> faults == old(faults)
      ensures dev != SND_DEVICE_NONE && dev != SND_DEVICE_OUT_SPEAKER_AND_HEADPHONES && old(sndDevRefCnt[dev]) <= 0
        ==> faults == old(faults) + 1
      decreases if dev == SND_DEVICE_OUT_SPEAKER_AND_HEADPHONES then 1 else 0
    {
      if dev == SND_DEVICE_OUT_SPEAKER_AND_HEADPHONES {
        assert Part(dev, SND_DEVICE_OUT_SPEAKER) == 1 && Part(dev, SND_DEVICE_OUT_HEADPHONES) == 1;
        var _ := DisableSndDevice(SND_DEVICE_OUT_SPEAKER);
        var _ := DisableSndDevice(SND_DEVICE_OUT_HEADPHONES);
        return true;
      }
      assert dev != SND_DEVICE_NONE ==> Part(dev, dev) == 1;
      if sndDevRefCnt[dev] <= 0 {
        if dev != SND_DEVICE_NONE {
          faults := faults + 1;
        }
        return false;
      }
      sndDevRefCnt[dev] := sndDevRefCnt[dev] - 1;
      return true;
    }

    /** check_and_route_usecases, for the usecase at `k`, which holds the devices of `held` meanwhile. */
    method CheckAndRouteUsecases(k: nat, typ: UsecaseType, dev: SndDevice, ghost held: Usecase)
      requires k < |usecases| && typ != VoiceCall && dev != SND_DEVICE_NONE && DistinctIds(usecases)
      requires Counted(sndDevRefCnt[..], usecases[k := held])
      modifies sndDevRefCnt, `usecases, `faults
      ensures usecases == Routed(old(usecases), k, typ, dev) && faults == old(faults)
      ensures Counted(sndDevRefCnt[..], usecases[k := held])
    {
      hide Uses, UsedBy, Part, Find, Counted;
      ghost var c := sndDevRefCnt[..];
      var switchDevice, needSwitch := new bool[AUDIO_USECASE_MAX](_ => false), false;
      for j := 0 to |usecases|
        modifies switchDevice
        invariant forall i | 0 <= i < |usecases| ::
          switchDevice[usecases[i].id]
          <==> i < j && i != k && usecases[i].typ == typ && DeviceOf(usecases[i], typ) != dev
        invariant !needSwitch ==> forall i | 0 <= i < |usecases| :: !switchDevice[usecases[i].id]
      {
        if usecases[j].typ == typ && j != k && DeviceOf(usecases[j], typ) != dev {
          switchDevice[usecases[j].id] := true;
          needSwitch := true;
        }
      }
      ghost var was := usecases;
      assert sndDevRefCnt[..] == c;
      if needSwitch {
        for j := 0 to |usecases|
          modifies sndDevRefCnt, `usecases, `faults
          invariant |usecases| == |was| && faults == old(faults)
          invariant Counted(sndDevRefCnt[..], usecases[k := held])
          invariant forall i | 0 <= i < |was| ::
            usecases[i] == if i < j && switchDevice[was[i].id] then WithDevice(was[i], typ, dev) else was[i]
        {
          if switchDevice[usecases[j].id] {
            MoveUsecase(k, j, typ, dev, held);
          }
        }
      }
      assert usecases == Routed(was, k, typ, dev);
    }

    /** One usecase moved from its device to another. */
    method MoveUsecase(ghost k: nat, j: nat, typ: UsecaseType, dev: SndDevice, ghost held: Usecase)
      requires k < |usecases| && j < |usecases| && j != k && dev != SND_DEVICE_NONE
      requires Counted(sndDevRefCnt[..], usecases[k := held])
      modifies sndDevRefCnt, `usecases, `faults
      ensures usecases == old(usecases[j := WithDevice(usecases[j], typ, dev)]) && faults == old(faults)
      ensures Counted(sndDevRefCnt[..], usecases[k := held])
    {
      hide Uses, Part, Raised, Lowered, Covers;
      ghost var c, was := sndDevRefCnt[..], usecases[k := held];
      var uc := usecases[j];
      OneCovered(c, was, j);
      LoweredCounts(c, DeviceOf(uc, typ));
      var _ := DisableSndDevice(DeviceOf(uc, typ));
      RaisedCounts(sndDevRefCnt[..], dev);
      EnableSndDevice(dev);
      usecases := usecases[j := WithDevice(uc, typ, dev)];
      CountsMoved(c, sndDevRefCnt[..], was, j, WithDevice(uc, typ, dev));
      assert usecases[k := held] == was[j := WithDevice(uc, typ, dev)];
    }

    /** Takes the devices of the usecase at `k` away. */
    method DropDevices(k: nat)
      requires k < |usecases| && Counted(sndDevRefCnt[..], usecases)
      modifies sndDevRefCnt, `faults
      ensures faults == old(faults)
      ensures Counted(sndDevRefCnt[..], usecases[k := usecases[k].(out := SND_DEVICE_NONE, inn := SND_DEVICE_NONE)])
    {
      hide Uses, Part, Lowered, Covers;
      var uc := usecases[k];
      ghost var c := sndDevRefCnt[..];
      ghost var half, none := uc.(out := SND_DEVICE_NONE), uc.(out := SND_DEVICE_NONE, inn := SND_DEVICE_NONE);
      NoParts();
      OneCovered(c, usecases, k);
      LoweredCounts(c, uc.out);
      if uc.out != SND_DEVICE_NONE {
        var _ := DisableSndDevice(uc.out);
      }
      ghost var c' := sndDevRefCnt[..];
      CountsMoved(c, c', usecases, k, half);
      OneCovered(c', usecases[k := half], k);
      LoweredCounts(c', uc.inn);
      if uc.inn != SND_DEVICE_NONE {
        var _ := DisableSndDevice(uc.inn);
      }
      CountsMoved(c', sndDevRefCnt[..], usecases[k := half], k, none);
      assert usecases[k := half][k := none] == usecases[k := none];
    }

    /** Gives the usecase at `k` one device, and lets others follow; `held` is what it holds already. */
    method TakeDevice(k: nat, typ: UsecaseType, dev: SndDevice, ghost held: Usecase)
      requires k < |usecases| && typ != VoiceCall && DistinctIds(usecases) && DeviceOf(held, typ) == SND_DEVICE_NONE
      requires Counted(sndDevRefCnt[..], usecases[k := held])
      modifies sndDevRefCnt, `usecases, `faults
      ensures usecases == (if dev != SND_DEVICE_NONE then Routed(old(usecases), k, typ, dev) else old(usecases))
      ensures faults == old(faults) && Counted(sndDevRefCnt[..], usecases[k := WithDevice(held, typ, dev)])
    {
      hide Uses, Part, Raised;
      if dev != SND_DEVICE_NONE {
        CheckAndRouteUsecases(k, typ, dev, held);
        ghost var c := sndDevRefCnt[..];
        NoParts();
        RaisedCounts(c, dev);
        EnableSndDevice(dev);
        CountsMoved(c, sndDevRefCnt[..], usecases[k := held], k, WithDevice(held, typ, dev));
        assert usecases[k := held][k := WithDevice(held, typ, dev)] == usecases[k := WithDevice(held, typ, dev)];
      }
    }

    /** The second half of select_devices: from the old devices to the new ones. */
    method SwitchDevices(k: nat, out: SndDevice, inn: SndDevice)
      requires k < |usecases| && DistinctIds(usecases) && Counted(sndDevRefCnt[..], usecases)
      modifies sndDevRefCnt, `usecases, `faults
      ensures usecases == Reassigned(old(usecases), k, out, inn) && faults == old(faults)
      ensures Counted(sndDevRefCnt[..], usecases)
    {
      hide Uses, Part, Counted, Routed;
      if out == usecases[k].out && inn == usecases[k].inn {
        return;
      }
      DropDevices(k);
      ghost var none := usecases[k].(out := SND_DEVICE_NONE, inn := SND_DEVICE_NONE);
      ghost var was := usecases;
      TakeDevice(k, PcmPlayback, out, none);
      RoutedAt(was, k, PcmPlayback, out);
      TakeDevice(k, PcmCapture, inn, none.(out := out));
      RoutedAt(was, k, PcmCapture, inn);
      usecases := usecases[k := usecases[k].(inn := inn, out := out)];
    }

    method SelectDevices(id: UsecaseId, p: Policy) returns (ok: bool)
      requires Valid()
      modifies sndDevRefCnt, `usecases, `faults
      ensures Valid() && usecases == Selected(old(usecases), inCall, p, id)
      ensures ok <==> old(Find(usecases, id) < |usecases|)
      decreases if Find(usecases, id) < |usecases| && usecases[Find(usecases, id)].typ == PcmPlayback then 1 else 0
    {
      hide Uses, Counted, Reassigned, Good;
      GoodFacts(usecases, inCall);
      SelectedGood(usecases, inCall, p, id);
      var i := FindInput(usecases);
      var k := Find(usecases, id);
      if k == |usecases| {
        return false;
      }
      var uc := usecases[k];
      var out, inn := SND_DEVICE_NONE, SND_DEVICE_NONE;
      if uc.typ != VoiceCall && inCall {
        var v := Find(usecases, USECASE_VOICE_CALL);
        if v < |usecases| {
          inn := usecases[v].inn;
          out := usecases[v].out;
        }
      }
      match uc.typ {
      case VoiceCall =>
        out := p.outputDevice(uc.devices);
        inn := p.inputDevice(uc.devices);
      case PcmPlayback =>
        inn := SND_DEVICE_NONE;
        if out == SND_DEVICE_NONE {
          out := p.outputDevice(uc.devices);
          if uc.primary && i < |usecases| && usecases[i].typ == PcmCapture && usecases[i].voiceCommunication {
            FindOnly(usecases, i);
            var _ := SelectDevices(usecases[i].id, p);
            GoodFacts(usecases, inCall);
          }
        }
      case PcmCapture =>
        out := SND_DEVICE_NONE;
        if inn == SND_DEVICE_NONE {
          if usecases[i].typ == PcmCapture && usecases[i].voiceCommunication && p.primaryActive {
            inn := p.inputDevice(p.primaryDevices);
          } else {
            inn := p.inputDevice(0);
          }
        }
      }
      SwitchDevices(k, out, inn);
      return true;
    }

    /** The list's entry with this id is gone, and its devices are free. */
    method RemoveUsecase(k: nat)
      requires k < |usecases|
      requires Counted(sndDevRefCnt[..], usecases[k := usecases[k].(out := SND_DEVICE_NONE, inn := SND_DEVICE_NONE)])
      modifies `usecases
      ensures usecases == old(usecases[..k] + usecases[k + 1..]) && Counted(sndDevRefCnt[..], usecases)
    {
      hide Uses;
      ghost var was := usecases;
      ghost var none := was[k].(out := SND_DEVICE_NONE, inn := SND_DEVICE_NONE);
      usecases := usecases[..k] + usecases[k + 1..];
      forall d | 0 <= d < SND_DEVICE_MAX
        ensures Uses(usecases, d) == Uses(was[k := none], d)
      {
        UsesRemove(was[k := none], k, d);
        assert was[k := none][..k] + was[k := none][k + 1..] == usecases;
      }
    }

    ghost function Now(): State
      reads this
    {
      State(usecases, inCall)
    }

    /** One more usecase, without devices yet, and then its devices. */
    method AddUsecase(uc: Usecase, p: Policy)
      requires Good(usecases, inCall) && Counted(sndDevRefCnt[..], usecases) && faults == 0
      requires Startable(usecases, uc)
      modifies sndDevRefCnt, this
      ensures Valid() && Now() == Started(old(Now()), uc, p)
    {
      hide Uses, Find, Selected, Good;
      AppendedGood(usecases, inCall, uc);
      forall d
        ensures Uses(usecases + [uc], d) == Uses(usecases, d)
      {
        UsesAppend(usecases, uc, d);
      }
      if uc.typ == VoiceCall {
        inCall := true;
      }
      usecases := usecases + [uc];
      var _ := SelectDevices(uc.id, p);
    }

    method EnableOutputPath(id: UsecaseId, devices: int, primary: bool, p: Policy)
      requires Valid() && id != USECASE_VOICE_CALL && Find(usecases, id) == |usecases|
      modifies sndDevRefCnt, this
      ensures Valid()
      ensures Now() == Step(old(Now()), Start(Usecase(id, PcmPlayback, devices, primary, false, 0, 0)), p)
    {
      AddUsecase(Usecase(id, PcmPlayback, devices, primary, false, SND_DEVICE_NONE, SND_DEVICE_NONE), p);
    }

    method StartInputStream(id: UsecaseId, devices: int, voiceCommunication: bool, p: Policy)
      requires Valid() && id != USECASE_VOICE_CALL && Find(usecases, id) == |usecases|
      modifies sndDevRefCnt, this
      ensures Valid()
      ensures Now() == Step(old(Now()), Start(Usecase(id, PcmCapture, devices, false, voiceCommunication, 0, 0)), p)
    {
      AddUsecase(Usecase(id, PcmCapture, devices, false, voiceCommunication, SND_DEVICE_NONE, SND_DEVICE_NONE), p);
    }

    method StartVoiceCall(primaryDevices: int, p: Policy)
      requires Valid() && Find(usecases, USECASE_VOICE_CALL) == |usecases|
      modifies sndDevRefCnt, this
      ensures Valid()
      ensures Now() == Step(old(Now()), Start(Usecase(USECASE_VOICE_CALL, VoiceCall, primaryDevices, true, false, 0, 0)), p)
    {
      AddUsecase(Usecase(USECASE_VOICE_CALL, VoiceCall, primaryDevices, true, false, SND_DEVICE_NONE, SND_DEVICE_NONE), p);
    }

    /** disable_output_path_l: only the output device is given back. */
    method DisableOutputPath(id: UsecaseId) returns (ok: bool)
      requires Valid() && id != USECASE_VOICE_CALL
      requires Find(usecases, id) < |usecases| ==> usecases[Find(usecases, id)].typ == PcmPlayback
      modifies sndDevRefCnt, `usecases, `faults
      ensures Valid() && Now() == Step(old(Now()), Stop(id), AnyPolicy()) && (ok <==> old(Find(usecases, id) < |usecases|))
    {
      ok := StopOneSided(id);
    }

    method StopInputStream(id: UsecaseId) returns (ok: bool)
      requires Valid() && id != USECASE_VOICE_CALL
      requires Find(usecases, id) < |usecases| ==> usecases[Find(usecases, id)].typ == PcmCapture
      modifies sndDevRefCnt, `usecases, `faults
      ensures Valid() && Now() == Step(old(Now()), Stop(id), AnyPolicy()) && (ok <==> old(Find(usecases, id) < |usecases|))
    {
      ok := StopOneSided(id);
    }

    /** A playback usecase gives its output device back, a capture usecase its input device. */
    method StopOneSided(id: UsecaseId) returns (ok: bool)
      requires Valid() && id != USECASE_VOICE_CALL
      modifies sndDevRefCnt, `usecases, `faults
      ensures Valid() && Now() == Stopped(old(Now()), id) && (ok <==> old(Find(usecases, id) < |usecases|))
    {
      hide Uses, Part, Lowered, Covers, Find, Good;
      StoppedGood(Now(), id);
      GoodFacts(usecases, inCall);
      var k := Find(usecases, id);
      if k == |usecases| {
        return false;
      }
      var uc := usecases[k];
      var dev := if uc.typ == PcmPlayback then uc.out else uc.inn;
      ghost var c := sndDevRefCnt[..];
      OneCovered(c, usecases, k);
      LoweredCounts(c, dev);
      NoParts();
      var _ := DisableSndDevice(dev);
      CountsMoved(c, sndDevRefCnt[..], usecases, k, uc.(out := SND_DEVICE_NONE, inn := SND_DEVICE_NONE));
      RemoveUsecase(k);
      return true;
    }

    method StopVoiceCall() returns (ok: bool)
      requires Valid()
      modifies sndDevRefCnt, this
      ensures Valid() && Now() == Step(old(Now()), Stop(USECASE_VOICE_CALL), AnyPolicy())
      ensures ok <==> old(Find(usecases, USECASE_VOICE_CALL) < |usecases|)
    {
      hide Uses, Find, Good;
      StoppedGood(Now(), USECASE_VOICE_CALL);
      inCall := false;
      var k := Find(usecases, USECASE_VOICE_CALL);
      if k == |usecases| {
        return false;
      }
      DropDevices(k);
      RemoveUsecase(k);
      return true;
    }

    /** A stream's devices changed, by out_set_parameters and in_set_parameters. */
    method SetRouting(id: UsecaseId, devices: int, p: Policy)
      requires Valid()
      modifies sndDevRefCnt, `usecases, `faults
      ensures Valid() && Now() == Step(old(Now()), Reroute(id, devices), p)
    {
      hide Uses, Find, Selected, Good, Counted;
      var k := Find(usecases, id);
      if k < |usecases| {
        DevicesGood(usecases, inCall, k, devices);
        CountsMoved(sndDevRefCnt[..], sndDevRefCnt[..], usecases, k, usecases[k].(devices := devices));
        usecases := usecases[k := usecases[k].(devices := devices)];
        var _ := SelectDevices(id, p);
      }
    }

    /** With no usecase left, no sound device is counted. */
    lemma {:induction false} NothingCounted()
      requires Valid() && usecases == []
      ensures forall d | 0 <= d < SND_DEVICE_MAX :: sndDevRefCnt[d] == 0
    {
      forall d | 0 <= d < SND_DEVICE_MAX
        ensures sndDevRefCnt[d] == 0
      {
        assert sndDevRefCnt[..][d] == Uses([], d);
      }
    }
  }

  function AnyPolicy(): Policy {
    Policy(_ => SND_DEVICE_NONE, _ => SND_DEVICE_NONE, false, 0)
  }

  lemma GoodCall(ucs: seq<Usecase>, inCall: bool)
    requires Good(ucs, inCall)
    ensures inCall <==> Find(ucs, USECASE_VOICE_CALL) < |ucs|
  {
  }

  lemma GoodFacts(ucs: seq<Usecase>, inCall: bool)
    requires Good(ucs, inCall)
    ensures DistinctIds(ucs) && Sided(ucs) && OneCall(ucs)
  {
  }

  lemma NoParts()
    ensures forall d :: Part(SND_DEVICE_NONE, d) == 0
  {
  }

  /** Routing the others leaves the usecase itself alone. */
  lemma RoutedAt(ucs: seq<Usecase>, k: nat, typ: UsecaseType, dev: SndDevice)
    requires k < |ucs|
    ensures Routed(ucs, k, typ, dev)[k] == ucs[k] && (DistinctIds(ucs) ==> DistinctIds(Routed(ucs, k, typ, dev)))
  {
  }
}
