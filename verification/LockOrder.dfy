/**
  The mutexes of the audio HAL (audio_hw.c, audio_hw.h): which each call takes and
  releases, in which order, and which interleavings of calls can block for ever.
*/
module LockOrder {
  import opened Wrappers

  /** Streams are told apart by numbers. */
  datatype Mutex =
    | LockInputs          // adev->lock_inputs
    | InPreLock(i: nat)   // in->pre_lock
    | InLock(i: nat)      // in->lock
    | OutPreLock(o: nat)  // out->pre_lock
    | OutLock(o: nat)     // out->lock
    | DeviceLock          // adev->lock

  /** The order in which mutexes have to be taken. */
  function Rank(m: Mutex): nat {
    match m
    case LockInputs => 0
    case InPreLock(_) => 1
    case InLock(_) => 2
    case OutPreLock(_) => 3
    case OutLock(_) => 4
    case DeviceLock => 5
  }

  datatype Op = Lock(m: Mutex) | Unlock(m: Mutex)

  // ----- What each call does to mutexes, by the branches it takes ----------------------------------

  function LockInputStream(i: nat): seq<Op> {
    [Lock(InPreLock(i)), Lock(InLock(i)), Unlock(InPreLock(i))]
  }

  function LockOutputStream(o: nat): seq<Op> {
    [Lock(OutPreLock(o)), Lock(OutLock(o)), Unlock(OutPreLock(o))]
  }

  const UNDER_DEVICE_LOCK: seq<Op> := [Lock(DeviceLock), Unlock(DeviceLock)]

  function If(c: bool, ops: seq<Op>): seq<Op> {
    if c then ops else []
  }

  /** The input stream that out_set_parameters and out_write force into standby, with lock_inputs held. */
  function ForceInputStandby(i: nat): seq<Op> {
    LockInputStream(i) + UNDER_DEVICE_LOCK + [Unlock(InLock(i))]
  }

  /** out_standby, and out_pause and out_resume of an offloaded stream. */
  function OutStandby(o: nat, running: bool): seq<Op> {
    LockOutputStream(o) + If(running, UNDER_DEVICE_LOCK) + [Unlock(OutLock(o))]
  }

  function OutSetParameters(o: nat, routing: bool, input: Option<nat>): seq<Op> {
    If(routing,
       [Lock(LockInputs)] + LockOutputStream(o) + UNDER_DEVICE_LOCK + [Unlock(OutLock(o))]
       + (if input.Some? then ForceInputStandby(input.value) else []) + [Unlock(LockInputs)])
  }

  /** How out_write finds the stream: running, in standby but started by another thread
      meanwhile, or in standby; then the start fails or not, and an input is to be forced.
      Without PREPROCESSING_ENABLED a stream in standby is started at once. */
  datatype Start = Running | StartedMeanwhile | StartFails | Starts(input: Option<nat>) | PlainStart(fails: bool)

  predicate Failed(s: Start) {
    s.StartFails? || (s.PlainStart? && s.fails)
  }

  /** lock_inputs stays locked until an input stream was forced into standby. */
  predicate KeepsInputs(s: Start) {
    s.Starts? && s.input.Some?
  }

  function StartTrace(o: nat, s: Start): seq<Op> {
    match s
    case Running => []
    case StartedMeanwhile => [Unlock(OutLock(o)), Lock(LockInputs)] + LockOutputStream(o) + [Unlock(LockInputs)]
    case StartFails =>
      [Unlock(OutLock(o)), Lock(LockInputs)] + LockOutputStream(o) + UNDER_DEVICE_LOCK + [Unlock(LockInputs)]
    case Starts(input) =>
      [Unlock(OutLock(o)), Lock(LockInputs)] + LockOutputStream(o) + UNDER_DEVICE_LOCK
      + If(input.None?, [Unlock(LockInputs)])
    case PlainStart(_) => UNDER_DEVICE_LOCK
  }

  function OutWrite(o: nat, s: Start, newReference: bool, writeFails: bool, runningThen: bool): seq<Op> {
    LockOutputStream(o) + StartTrace(o, s) + If(newReference && !Failed(s), UNDER_DEVICE_LOCK) + [Unlock(OutLock(o))]
    + If(writeFails || Failed(s), OutStandby(o, runningThen))
    + (if KeepsInputs(s) then ForceInputStandby(s.input.value) + [Unlock(LockInputs)] else [])
  }

  /** out_write of an offloaded stream. It returns where out_write_offload does: without forcing an input, and, when
      the output path of a flushed stream cannot be enabled again, with the stream's mutex. */
  function OutWriteOffload(o: nat, s: Start, flushed: bool, enableFails: bool, runningThen: bool): seq<Op> {
    if Failed(s) then OutWrite(o, s, false, true, runningThen)
    else
      LockOutputStream(o) + StartTrace(o, s) + If(flushed, UNDER_DEVICE_LOCK)
      + If(!(flushed && enableFails), [Unlock(OutLock(o))])
  }

  /** out_get_presentation_position and out_set_callback, and out_drain and out_flush of an offloaded stream. */
  function OutQuery(o: nat): seq<Op> {
    LockOutputStream(o) + [Unlock(OutLock(o))]
  }

  /** in_standby, and adev_close_input_stream. */
  function InStandby(i: nat, running: bool): seq<Op> {
    [Lock(LockInputs)] + LockInputStream(i) + If(running, UNDER_DEVICE_LOCK) + [Unlock(InLock(i)), Unlock(LockInputs)]
  }

  /** in_set_parameters and add_remove_audio_effect. */
  function InChange(i: nat): seq<Op> {
    [Lock(LockInputs)] + LockInputStream(i) + UNDER_DEVICE_LOCK + [Unlock(InLock(i)), Unlock(LockInputs)]
  }

  function InRead(i: nat, standby: bool, startedMeanwhile: bool, readFails: bool, runningThen: bool): seq<Op> {
    LockInputStream(i)
    + If(standby,
         [Unlock(InLock(i)), Lock(LockInputs)] + LockInputStream(i)
         + If(!startedMeanwhile, UNDER_DEVICE_LOCK) + [Unlock(LockInputs)])
    + [Unlock(InLock(i))] + If(readFails, InStandby(i, runningThen))
  }

  function InCapturePosition(i: nat): seq<Op> {
    [Lock(InLock(i)), Unlock(InLock(i))]
  }

  datatype Call =
    | CallOutStandby(o: nat, running: bool)
    | CallOutSetParameters(o: nat, routing: bool, input: Option<nat>)
    | CallOutWrite(o: nat, start: Start, newReference: bool, writeFails: bool, runningThen: bool)
    | CallOutWriteOffload(o: nat, start: Start, flushed: bool, enableFails: bool, runningThen: bool)
    | CallOutQuery(o: nat)
    | CallInStandby(i: nat, running: bool)
    | CallInChange(i: nat)
    | CallInRead(i: nat, standby: bool, startedMeanwhile: bool, readFails: bool, runningThen: bool)
    | CallInCapturePosition(i: nat)
    | CallDevice   // adev_set_mode, adev_set_mic_mute, adev_set_voice_volume, adev_set_parameters, adev_open_output_stream

  function Trace(c: Call): seq<Op> {
    match c
    case CallOutStandby(o, running) => OutStandby(o, running)
    case CallOutSetParameters(o, routing, input) => OutSetParameters(o, routing, input)
    case CallOutWrite(o, start, newReference, writeFails, runningThen) =>
      OutWrite(o, start, newReference, writeFails, runningThen)
    case CallOutWriteOffload(o, start, flushed, enableFails, runningThen) =>
      OutWriteOffload(o, start, flushed, enableFails, runningThen)
    case CallOutQuery(o) => OutQuery(o)
    case CallInStandby(i, running) => InStandby(i, running)
    case CallInChange(i) => InChange(i)
    case CallInRead(i, standby, startedMeanwhile, readFails, runningThen) =>
      InRead(i, standby, startedMeanwhile, readFails, runningThen)
    case CallInCapturePosition(i) => InCapturePosition(i)
    case CallDevice => UNDER_DEVICE_LOCK
  }

  /** What a call leaves locked. */
  function Kept(c: Call): set<Mutex> {
    match c
    case CallOutWriteOffload(o, start, flushed, enableFails, _) =>
      if Failed(start) then {}
      else (if KeepsInputs(start) then {LockInputs} else {}) + (if flushed && enableFails then {OutLock(o)} else {})
    case _ => {}
  }

  predicate GivesBack(calls: seq<Call>) {
    forall k | 0 <= k < |calls| :: Kept(calls[k]) == {}
  }

  /** What a thread executes: one call after the other. */
  function Traces(calls: seq<Call>): seq<Op> {
    if calls == [] then [] else Trace(calls[0]) + Traces(calls[1..])
  }

  // ----- The order --------------------------------------------------------------------------------

  /** A mutex may be taken when it ranks above all that are held. */
  predicate Above(m: Mutex, held: set<Mutex>) {
    forall h | h in held :: Rank(h) < Rank(m)
  }

  /** Executing `ops` from `held` keeps the order, releases only what is held, and ends with `after`. */
  predicate Takes(ops: seq<Op>, held: set<Mutex>, after: set<Mutex>)
    decreases |ops|
  {
    if ops == [] then held == after
    else
      match ops[0]
      case Lock(m) => Above(m, held) && Takes(ops[1..], held + {m}, after)
      case Unlock(m) => m in held && Takes(ops[1..], held - {m}, after)
  }

  lemma {:induction false} TakesConcat(a: seq<Op>, b: seq<Op>, held: set<Mutex>, mid: set<Mutex>, after: set<Mutex>)
    requires Takes(a, held, mid) && Takes(b, mid, after)
    ensures Takes(a + b, held, after)
    decreases |a|
  {
    if a == [] {
      assert a + b == b;
    } else {
      assert (a + b)[1..] == a[1..] + b;
      match a[0]
      case Lock(m) => TakesConcat(a[1..], b, held + {m}, mid, after);
      case Unlock(m) => TakesConcat(a[1..], b, held - {m}, mid, after);
    }
  }

  // ----- What guards what ---------------------------------------------------------------------------------

  /** Who works on the device for an input stream holds lock_inputs. */
  predicate InputsHeld(held: set<Mutex>) {
    forall m | m in held && m.InLock? :: LockInputs in held
  }

  /** A stream's mutex is asked for behind its pre-lock only, and the device's with one of `guards` held, if there are any,
      and for an input stream with lock_inputs too. */
  predicate Guarded(ops: seq<Op>, held: set<Mutex>, guards: set<Mutex>)
    decreases |ops|
  {
    if ops == [] then true
    else
      match ops[0]
      case Lock(m) =>
        && (match m
            case InLock(i) => InPreLock(i) in held
            case OutLock(o) => OutPreLock(o) in held
            case DeviceLock => (guards == {} || held * guards != {}) && InputsHeld(held)
            case _ => true)
        && Guarded(ops[1..], held + {m}, guards)
      case Unlock(m) => Guarded(ops[1..], held - {m}, guards)
  }

  predicate Keeps(ops: seq<Op>, held: set<Mutex>, after: set<Mutex>, guards: set<Mutex>) {
    Takes(ops, held, after) && Guarded(ops, held, guards)
  }

  predicate Among(m: Mutex, guards: set<Mutex>) {
    guards == {} || m in guards
  }

  lemma {:induction false} GuardedConcat(a: seq<Op>, b: seq<Op>, held: set<Mutex>, mid: set<Mutex>, guards: set<Mutex>)
    requires Takes(a, held, mid) && Guarded(a, held, guards) && Guarded(b, mid, guards)
    ensures Guarded(a + b, held, guards)
    decreases |a|
  {
    if a == [] {
      assert a + b == b;
    } else {
      assert (a + b)[1..] == a[1..] + b;
      match a[0]
      case Lock(m) => GuardedConcat(a[1..], b, held + {m}, mid, guards);
      case Unlock(m) => GuardedConcat(a[1..], b, held - {m}, mid, guards);
    }
  }

  lemma KeepsConcat(a: seq<Op>, b: seq<Op>, held: set<Mutex>, mid: set<Mutex>, after: set<Mutex>, g: set<Mutex>)
    requires Keeps(a, held, mid, g) && Keeps(b, mid, after, g)
    ensures Keeps(a + b, held, after, g)
  {
    hide Takes, Guarded;
    TakesConcat(a, b, held, mid, after);
    GuardedConcat(a, b, held, mid, g);
  }

  lemma OneLock(m: Mutex, held: set<Mutex>, g: set<Mutex>)
    requires m == LockInputs
    requires Above(m, held)
    ensures Keeps([Lock(m)], held, held + {m}, g)
  {
    assert [Lock(m)][1..] == [];
  }

  lemma OneUnlock(m: Mutex, held: set<Mutex>, g: set<Mutex>)
    requires m in held
    ensures Keeps([Unlock(m)], held, held - {m}, g)
  {
    assert [Unlock(m)][1..] == [];
  }

  lemma LockInputTakes(i: nat, held: set<Mutex>, g: set<Mutex>)
    requires Above(InPreLock(i), held)
    ensures Keeps(LockInputStream(i), held, held + {InLock(i)}, g)
  {
    var ops := LockInputStream(i);
    assert ops[1..] == [Lock(InLock(i)), Unlock(InPreLock(i))] && ops[1..][1..] == [Unlock(InPreLock(i))];
    var two := held + {InPreLock(i)} + {InLock(i)};
    assert two - {InPreLock(i)} == held + {InLock(i)};
    OneUnlock(InPreLock(i), two, g);
  }

  lemma LockOutputTakes(o: nat, held: set<Mutex>, g: set<Mutex>)
    requires Above(OutPreLock(o), held)
    ensures Keeps(LockOutputStream(o), held, held + {OutLock(o)}, g)
  {
    var ops := LockOutputStream(o);
    assert ops[1..] == [Lock(OutLock(o)), Unlock(OutPreLock(o))] && ops[1..][1..] == [Unlock(OutPreLock(o))];
    var two := held + {OutPreLock(o)} + {OutLock(o)};
    assert two - {OutPreLock(o)} == held + {OutLock(o)};
    OneUnlock(OutPreLock(o), two, g);
  }

  lemma DeviceTakes(held: set<Mutex>, g: set<Mutex>)
    requires (g == {} || held * g != {}) && InputsHeld(held)
    requires Above(DeviceLock, held)
    ensures Keeps(UNDER_DEVICE_LOCK, held, held, g)
  {
    assert UNDER_DEVICE_LOCK[1..] == [Unlock(DeviceLock)];
    OneUnlock(DeviceLock, held + {DeviceLock}, g);
    assert held + {DeviceLock} - {DeviceLock} == held;
  }

  lemma NothingTakes(held: set<Mutex>, g: set<Mutex>)
    ensures Keeps([], held, held, g)
  {
  }

  lemma IfTakes(c: bool, ops: seq<Op>, held: set<Mutex>, g: set<Mutex>)
    requires c ==> Keeps(ops, held, held, g)
    ensures Keeps(If(c, ops), held, held, g)
  {
  }

  lemma ForceInputTakes(i: nat, g: set<Mutex>)
    requires Among(InLock(i), g)
    ensures Keeps(ForceInputStandby(i), {LockInputs}, {LockInputs}, g)
  {
    hide Keeps, LockInputStream, UNDER_DEVICE_LOCK;
    var two := {LockInputs} + {InLock(i)};
    LockInputTakes(i, {LockInputs}, g);
    DeviceTakes(two, g);
    KeepsConcat(LockInputStream(i), UNDER_DEVICE_LOCK, {LockInputs}, two, two, g);
    OneUnlock(InLock(i), two, g);
    assert two - {InLock(i)} == {LockInputs};
    KeepsConcat(LockInputStream(i) + UNDER_DEVICE_LOCK, [Unlock(InLock(i))], {LockInputs}, two, {LockInputs}, g);
  }

  /** The stream's mutex, then possibly the device's, then the stream's given back. */
  lemma OutStandbyTakes(o: nat, running: bool, held: set<Mutex>, g: set<Mutex>)
    requires Among(OutLock(o), g)
    requires Above(OutPreLock(o), held) && InputsHeld(held)
    ensures Keeps(OutStandby(o, running), held, held, g)
  {
    hide Keeps, LockOutputStream, UNDER_DEVICE_LOCK, If;
    var one := held + {OutLock(o)};
    LockOutputTakes(o, held, g);
    assert g == {} || OutLock(o) in one * g;
    DeviceTakes(one, g);
    IfTakes(running, UNDER_DEVICE_LOCK, one, g);
    KeepsConcat(LockOutputStream(o), If(running, UNDER_DEVICE_LOCK), held, one, one, g);
    OneUnlock(OutLock(o), one, g);
    assert one - {OutLock(o)} == held;
    KeepsConcat(LockOutputStream(o) + If(running, UNDER_DEVICE_LOCK), [Unlock(OutLock(o))], held, one, held, g);
  }

  lemma OutSetParametersTakes(o: nat, routing: bool, input: Option<nat>, g: set<Mutex>)
    requires Among(OutLock(o), g) && (input.Some? ==> Among(InLock(input.value), g))
    ensures Keeps(OutSetParameters(o, routing, input), {}, {}, g)
  {
    hide Keeps, LockOutputStream, UNDER_DEVICE_LOCK, ForceInputStandby;
    var held, one := {LockInputs}, {LockInputs} + {OutLock(o)};
    var a, b := [Lock(LockInputs)], [Lock(LockInputs)] + LockOutputStream(o);
    OneLock(LockInputs, {}, g);
    assert {} + {LockInputs} == held;
    LockOutputTakes(o, held, g);
    KeepsConcat(a, LockOutputStream(o), {}, held, one, g);
    DeviceTakes(one, g);
    KeepsConcat(b, UNDER_DEVICE_LOCK, {}, one, one, g);
    OneUnlock(OutLock(o), one, g);
    assert one - {OutLock(o)} == held && held - {LockInputs} == {};
    var c := b + UNDER_DEVICE_LOCK + [Unlock(OutLock(o))];
    KeepsConcat(b + UNDER_DEVICE_LOCK, [Unlock(OutLock(o))], {}, one, held, g);
    var force := if input.Some? then ForceInputStandby(input.value) else [];
    NothingTakes(held, g);
    if input.Some? {
      ForceInputTakes(input.value, g);
    }
    KeepsConcat(c, force, {}, held, held, g);
    OneUnlock(LockInputs, held, g);
    KeepsConcat(c + force, [Unlock(LockInputs)], {}, held, {}, g);
    NothingTakes({}, g);
  }

  /** The start of a stream in standby: the stream's mutex is given back first. */
  lemma StartTakes(o: nat, s: Start, g: set<Mutex>)
    requires Among(OutLock(o), g)
    ensures Keeps(StartTrace(o, s), {OutLock(o)},
                  if KeepsInputs(s) then {LockInputs} + {OutLock(o)} else {OutLock(o)}, g)
  {
    hide Keeps, LockOutputStream, UNDER_DEVICE_LOCK;
    var own, both := {OutLock(o)}, {LockInputs} + {OutLock(o)};
    NothingTakes(own, g);
    DeviceTakes(own, g);
    if !s.Running? && !s.PlainStart? {
      OneUnlock(OutLock(o), own, g);
      assert own - {OutLock(o)} == {} && {} + {LockInputs} == {LockInputs} && both - {LockInputs} == own;
      OneLock(LockInputs, {}, g);
      KeepsConcat([Unlock(OutLock(o))], [Lock(LockInputs)], own, {}, {LockInputs}, g);
      var a := [Unlock(OutLock(o)), Lock(LockInputs)];
      assert [Unlock(OutLock(o))] + [Lock(LockInputs)] == a;
      LockOutputTakes(o, {LockInputs}, g);
      KeepsConcat(a, LockOutputStream(o), own, {LockInputs}, both, g);
      OneUnlock(LockInputs, both, g);
      KeepsConcat(a + LockOutputStream(o), [Unlock(LockInputs)], own, both, own, g);
      DeviceTakes(both, g);
      var b := a + LockOutputStream(o) + UNDER_DEVICE_LOCK;
      KeepsConcat(a + LockOutputStream(o), UNDER_DEVICE_LOCK, own, both, both, g);
      KeepsConcat(b, [Unlock(LockInputs)], own, both, own, g);
      assert b + [] == b;
    }
  }

  lemma OutWriteTakes(o: nat, s: Start, newReference: bool, writeFails: bool, runningThen: bool, g: set<Mutex>)
    requires Among(OutLock(o), g) && (KeepsInputs(s) ==> Among(InLock(s.input.value), g))
    ensures Keeps(OutWrite(o, s, newReference, writeFails, runningThen), {}, {}, g)
  {
    hide Keeps, LockOutputStream, UNDER_DEVICE_LOCK, StartTrace, OutStandby, ForceInputStandby, If;
    var own := {OutLock(o)};
    var kept := if KeepsInputs(s) then {LockInputs} else {};
    var both := kept + own;
    LockOutputTakes(o, {}, g);
    assert {} + {OutLock(o)} == own && {LockInputs} + {OutLock(o)} == {LockInputs} + own && {} + own == own;
    StartTakes(o, s, g);
    var a := LockOutputStream(o) + StartTrace(o, s);
    KeepsConcat(LockOutputStream(o), StartTrace(o, s), {}, own, both, g);
    DeviceTakes(both, g);
    var sync := If(newReference && !Failed(s), UNDER_DEVICE_LOCK);
    IfTakes(newReference && !Failed(s), UNDER_DEVICE_LOCK, both, g);
    KeepsConcat(a, sync, {}, both, both, g);
    OneUnlock(OutLock(o), both, g);
    assert both - {OutLock(o)} == kept;
    var b := a + sync + [Unlock(OutLock(o))];
    KeepsConcat(a + sync, [Unlock(OutLock(o))], {}, both, kept, g);
    OutStandbyTakes(o, runningThen, kept, g);
    var fail := If(writeFails || Failed(s), OutStandby(o, runningThen));
    IfTakes(writeFails || Failed(s), OutStandby(o, runningThen), kept, g);
    KeepsConcat(b, fail, {}, kept, kept, g);
    WriteEndTakes(s, g);
    KeepsConcat(b + fail, if KeepsInputs(s) then ForceInputStandby(s.input.value) + [Unlock(LockInputs)] else [],
                {}, kept, {}, g);
  }

  lemma WriteEndTakes(s: Start, g: set<Mutex>)
    requires KeepsInputs(s) ==> Among(InLock(s.input.value), g)
    ensures Keeps(if KeepsInputs(s) then ForceInputStandby(s.input.value) + [Unlock(LockInputs)] else [],
                  if KeepsInputs(s) then {LockInputs} else {}, {}, g)
  {
    hide Keeps, ForceInputStandby;
    NothingTakes({}, g);
    if KeepsInputs(s) {
      ForceInputTakes(s.input.value, g);
      OneUnlock(LockInputs, {LockInputs}, g);
      assert {LockInputs} - {LockInputs} == {};
      KeepsConcat(ForceInputStandby(s.input.value), [Unlock(LockInputs)], {LockInputs}, {LockInputs}, {}, g);
    }
  }

  lemma OutWriteOffloadTakes(o: nat, s: Start, flushed: bool, enableFails: bool, runningThen: bool, g: set<Mutex>)
    requires Among(OutLock(o), g)
    ensures Keeps(OutWriteOffload(o, s, flushed, enableFails, runningThen), {},
                  Kept(CallOutWriteOffload(o, s, flushed, enableFails, runningThen)), g)
  {
    hide Keeps, LockOutputStream, UNDER_DEVICE_LOCK, StartTrace, OutWrite;
    if Failed(s) {
      OutWriteTakes(o, s, false, true, runningThen, g);
    } else {
      var own := {OutLock(o)};
      var kept := if KeepsInputs(s) then {LockInputs} else {};
      var both := kept + own;
      LockOutputTakes(o, {}, g);
      assert {} + {OutLock(o)} == own && {LockInputs} + {OutLock(o)} == {LockInputs} + own && {} + own == own;
      StartTakes(o, s, g);
      var a := LockOutputStream(o) + StartTrace(o, s);
      KeepsConcat(LockOutputStream(o), StartTrace(o, s), {}, own, both, g);
      DeviceTakes(both, g);
      IfTakes(flushed, UNDER_DEVICE_LOCK, both, g);
      KeepsConcat(a, If(flushed, UNDER_DEVICE_LOCK), {}, both, both, g);
      OneUnlock(OutLock(o), both, g);
      assert both - {OutLock(o)} == kept;
      NothingTakes(both, g);
      var end := if flushed && enableFails then both else kept;
      assert end == kept + if flushed && enableFails then {OutLock(o)} else {};
      KeepsConcat(a + If(flushed, UNDER_DEVICE_LOCK), If(!(flushed && enableFails), [Unlock(OutLock(o))]), {}, both, end, g);
    }
  }

  /** A call on an input stream that takes lock_inputs first. */
  lemma InStandbyTakes(i: nat, running: bool, g: set<Mutex>)
    requires Among(InLock(i), g)
    ensures Keeps(InStandby(i, running), {}, {}, g)
  {
    hide Keeps, LockInputStream, UNDER_DEVICE_LOCK, If;
    var held, both := {LockInputs}, {LockInputs} + {InLock(i)};
    OneLock(LockInputs, {}, g);
    assert {} + {LockInputs} == held && both - {InLock(i)} == held && held - {LockInputs} == {};
    LockInputTakes(i, held, g);
    KeepsConcat([Lock(LockInputs)], LockInputStream(i), {}, held, both, g);
    DeviceTakes(both, g);
    IfTakes(running, UNDER_DEVICE_LOCK, both, g);
    var a := [Lock(LockInputs)] + LockInputStream(i) + If(running, UNDER_DEVICE_LOCK);
    KeepsConcat([Lock(LockInputs)] + LockInputStream(i), If(running, UNDER_DEVICE_LOCK), {}, both, both, g);
    OneUnlock(InLock(i), both, g);
    OneUnlock(LockInputs, held, g);
    KeepsConcat([Unlock(InLock(i))], [Unlock(LockInputs)], both, held, {}, g);
    assert [Unlock(InLock(i))] + [Unlock(LockInputs)] == [Unlock(InLock(i)), Unlock(LockInputs)];
    KeepsConcat(a, [Unlock(InLock(i)), Unlock(LockInputs)], {}, both, {}, g);
  }

  lemma InReadTakes(i: nat, standby: bool, startedMeanwhile: bool, readFails: bool, runningThen: bool, g: set<Mutex>)
    requires Among(InLock(i), g)
    ensures Keeps(InRead(i, standby, startedMeanwhile, readFails, runningThen), {}, {}, g)
  {
    hide Keeps, LockInputStream, UNDER_DEVICE_LOCK, If, InStandby;
    var own, both := {InLock(i)}, {LockInputs} + {InLock(i)};
    LockInputTakes(i, {}, g);
    assert {} + {InLock(i)} == own && own - {InLock(i)} == {} && {} + {LockInputs} == {LockInputs};
    assert both - {LockInputs} == own;
    OneUnlock(InLock(i), own, g);
    OneLock(LockInputs, {}, g);
    KeepsConcat([Unlock(InLock(i))], [Lock(LockInputs)], own, {}, {LockInputs}, g);
    var a := [Unlock(InLock(i)), Lock(LockInputs)];
    assert [Unlock(InLock(i))] + [Lock(LockInputs)] == a;
    LockInputTakes(i, {LockInputs}, g);
    KeepsConcat(a, LockInputStream(i), own, {LockInputs}, both, g);
    DeviceTakes(both, g);
    var start := If(!startedMeanwhile, UNDER_DEVICE_LOCK);
    IfTakes(!startedMeanwhile, UNDER_DEVICE_LOCK, both, g);
    KeepsConcat(a + LockInputStream(i), start, own, both, both, g);
    OneUnlock(LockInputs, both, g);
    var b := a + LockInputStream(i) + start + [Unlock(LockInputs)];
    KeepsConcat(a + LockInputStream(i) + start, [Unlock(LockInputs)], own, both, own, g);
    IfTakes(standby, b, own, g);
    KeepsConcat(LockInputStream(i), If(standby, b), {}, own, own, g);
    KeepsConcat(LockInputStream(i) + If(standby, b), [Unlock(InLock(i))], {}, own, {}, g);
    InStandbyTakes(i, runningThen, g);
    IfTakes(readFails, InStandby(i, runningThen), {}, g);
    KeepsConcat(LockInputStream(i) + If(standby, b) + [Unlock(InLock(i))], If(readFails, InStandby(i, runningThen)), {}, {}, {}, g);
  }

  /** The mutexes of the streams that a call works on. */
  function Streams(c: Call): set<Mutex> {
    match c
    case CallOutStandby(o, _) => {OutLock(o)}
    case CallOutSetParameters(o, _, input) => {OutLock(o)} + if input.Some? then {InLock(input.value)} else {}
    case CallOutWrite(o, start, _, _, _) => {OutLock(o)} + if KeepsInputs(start) then {InLock(start.input.value)} else {}
    case CallOutWriteOffload(o, _, _, _, _) => {OutLock(o)}
    case CallOutQuery(o) => {OutLock(o)}
    case CallInStandby(i, _) => {InLock(i)}
    case CallInChange(i) => {InLock(i)}
    case CallInRead(i, _, _, _, _) => {InLock(i)}
    case CallInCapturePosition(i) => {InLock(i)}
    case CallDevice => {}
  }

  lemma CallKeeps(c: Call)
    requires !c.CallInCapturePosition?
    ensures Keeps(Trace(c), {}, Kept(c), Streams(c))
  {
    hide Keeps, LockOutputStream, UNDER_DEVICE_LOCK;
    var g := Streams(c);
    match c
    case CallOutStandby(o, running) => OutStandbyTakes(o, running, {}, g);
    case CallOutSetParameters(o, routing, input) => OutSetParametersTakes(o, routing, input, g);
    case CallOutWrite(o, start, newReference, writeFails, runningThen) =>
      OutWriteTakes(o, start, newReference, writeFails, runningThen, g);
    case CallOutWriteOffload(o, start, flushed, enableFails, runningThen) =>
      OutWriteOffloadTakes(o, start, flushed, enableFails, runningThen, g);
    case CallOutQuery(o) =>
      OutStandbyTakes(o, false, {}, g);
      assert OutStandby(o, false) == OutQuery(o) by { assert LockOutputStream(o) + [] == LockOutputStream(o); }
    case CallInStandby(i, running) => InStandbyTakes(i, running, g);
    case CallInChange(i) => InStandbyTakes(i, true, g);
    case CallInRead(i, standby, startedMeanwhile, readFails, runningThen) =>
      InReadTakes(i, standby, startedMeanwhile, readFails, runningThen, g);
    case CallDevice => DeviceTakes({}, g);
  }

  lemma PositionTakes(i: nat)
    ensures Takes(InCapturePosition(i), {}, {})
  {
    var ops := InCapturePosition(i);
    assert ops[1..] == [Unlock(InLock(i))] && ops[1..][1..] == [];
    assert {} + {InLock(i)} - {InLock(i)} == {};
  }

  /** Every call, on every branch, takes mutexes in the stated order, and gives all back but those kept. */
  lemma {:induction false} CallTakes(c: Call)
    ensures Takes(Trace(c), {}, Kept(c))
  {
    if c.CallInCapturePosition? {
      PositionTakes(c.i);
    } else {
      hide Takes, Trace;
      CallKeeps(c);
    }
  }

  /** Every call but in_get_capture_position asks for a stream's mutex behind its pre-lock, and works on the device with
      the mutex of one of its streams held, if it has one; for an input stream with lock_inputs too. */
  lemma {:induction false} CallGuarded(c: Call)
    requires !c.CallInCapturePosition?
    ensures Guarded(Trace(c), {}, Streams(c))
  {
    hide Takes, Trace, Guarded;
    CallKeeps(c);
  }

  /** The calls that work on the device: those that stop, start or change something there. */
  predicate WorksOnDevice(c: Call) {
    match c
    case CallOutStandby(_, running) => running
    case CallOutSetParameters(_, routing, _) => routing
    case CallOutWrite(_, start, newReference, writeFails, runningThen) =>
      start.StartFails? || start.Starts? || start.PlainStart? || newReference || (writeFails && runningThen)
    case CallOutWriteOffload(_, start, flushed, _, _) => start.StartFails? || start.Starts? || start.PlainStart? || flushed
    case CallOutQuery(_) => false
    case CallInStandby(_, running) => running
    case CallInChange(_) => true
    case CallInRead(_, standby, startedMeanwhile, readFails, runningThen) =>
      (standby && !startedMeanwhile) || (readFails && runningThen)
    case CallInCapturePosition(_) => false
    case CallDevice => true
  }

  lemma StreamLocks(o: nat)
    ensures Lock(OutLock(o)) in LockOutputStream(o) && Lock(DeviceLock) !in LockOutputStream(o)
    ensures Lock(InLock(o)) in LockInputStream(o) && Lock(DeviceLock) !in LockInputStream(o)
    ensures Lock(DeviceLock) in UNDER_DEVICE_LOCK
  {
    var out, inn := LockOutputStream(o), LockInputStream(o);
    assert out[1] == Lock(OutLock(o)) && inn[1] == Lock(InLock(o)) && UNDER_DEVICE_LOCK[0] == Lock(DeviceLock);
  }

  lemma ForcedLocks(i: nat)
    ensures Lock(DeviceLock) in ForceInputStandby(i) && Lock(InLock(i)) in ForceInputStandby(i)
  {
    StreamLocks(i);
    hide LockInputStream, UNDER_DEVICE_LOCK;
  }

  lemma StandbyLocks(o: nat, running: bool)
    ensures Lock(OutLock(o)) in OutStandby(o, running) && (Lock(DeviceLock) in OutStandby(o, running) <==> running)
    ensures Lock(InLock(o)) in InStandby(o, running) && (Lock(DeviceLock) in InStandby(o, running) <==> running)
  {
    StreamLocks(o);
    hide LockInputStream, LockOutputStream, UNDER_DEVICE_LOCK;
  }

  lemma StartLocks(o: nat, s: Start)
    ensures Lock(DeviceLock) in StartTrace(o, s) <==> s.StartFails? || s.Starts? || s.PlainStart?
  {
    StreamLocks(o);
    hide LockOutputStream, UNDER_DEVICE_LOCK;
  }

  lemma WriteLocks(o: nat, s: Start, newReference: bool, writeFails: bool, runningThen: bool)
    ensures var ops := OutWrite(o, s, newReference, writeFails, runningThen);
      && Lock(OutLock(o)) in ops && (KeepsInputs(s) ==> Lock(InLock(s.input.value)) in ops)
      && (Lock(DeviceLock) in ops <==>
            s.StartFails? || s.Starts? || s.PlainStart? || newReference || (writeFails && runningThen))
  {
    StreamLocks(o);
    StartLocks(o, s);
    StandbyLocks(o, runningThen);
    if KeepsInputs(s) {
      ForcedLocks(s.input.value);
    }
    hide LockOutputStream, UNDER_DEVICE_LOCK, StartTrace, OutStandby, ForceInputStandby;
  }

  lemma ReadLocks(i: nat, standby: bool, startedMeanwhile: bool, readFails: bool, runningThen: bool)
    ensures var ops := InRead(i, standby, startedMeanwhile, readFails, runningThen);
      && Lock(InLock(i)) in ops
      && (Lock(DeviceLock) in ops <==> (standby && !startedMeanwhile) || (readFails && runningThen))
  {
    StreamLocks(i);
    StandbyLocks(i, runningThen);
    hide LockInputStream, UNDER_DEVICE_LOCK, InStandby;
  }

  lemma OffloadLocks(o: nat, s: Start, flushed: bool, enableFails: bool, runningThen: bool)
    ensures var ops := OutWriteOffload(o, s, flushed, enableFails, runningThen);
      && Lock(OutLock(o)) in ops
      && (Lock(DeviceLock) in ops <==> s.StartFails? || s.Starts? || s.PlainStart? || flushed)
  {
    StreamLocks(o);
    StartLocks(o, s);
    WriteLocks(o, s, false, true, runningThen);
    hide LockOutputStream, UNDER_DEVICE_LOCK, StartTrace, OutWrite;
  }

  /** Exactly those take the device's mutex, and each takes the mutexes of its streams. */
  lemma {:induction false} CallLocks(c: Call)
    ensures Lock(DeviceLock) in Trace(c) <==> WorksOnDevice(c)
    ensures (c.CallOutSetParameters? ==> c.routing) ==> forall m | m in Streams(c) :: Lock(m) in Trace(c)
  {
    match c {
      case CallOutStandby(o, running) => StandbyLocks(o, running);
      case CallOutSetParameters(o, routing, input) =>
        StreamLocks(o);
        if input.Some? {
          ForcedLocks(input.value);
        }
        hide LockOutputStream, UNDER_DEVICE_LOCK, ForceInputStandby;
      case CallOutWrite(o, start, newReference, writeFails, runningThen) =>
        WriteLocks(o, start, newReference, writeFails, runningThen);
      case CallOutWriteOffload(o, start, flushed, enableFails, runningThen) =>
        OffloadLocks(o, start, flushed, enableFails, runningThen);
      case CallOutQuery(o) => StreamLocks(o);
      case CallInStandby(i, running) => StandbyLocks(i, running);
      case CallInChange(i) =>
        StreamLocks(i);
        hide LockInputStream, UNDER_DEVICE_LOCK;
      case CallInRead(i, standby, startedMeanwhile, readFails, runningThen) =>
        ReadLocks(i, standby, startedMeanwhile, readFails, runningThen);
      case CallInCapturePosition(i) =>
        assert InCapturePosition(i)[0] == Lock(InLock(i));
      case CallDevice => StreamLocks(0);
    }
  }

  lemma {:induction false} TracesTake(calls: seq<Call>)
    requires GivesBack(calls)
    ensures Takes(Traces(calls), {}, {})
  {
    if calls == [] {
      assert Takes(Traces(calls), {}, {});
    } else {
      CallTakes(calls[0]);
      assert Kept(calls[0]) == {};
      TracesTake(calls[1..]);
      TakesConcat(Trace(calls[0]), Traces(calls[1..]), {}, {}, {});
    }
  }

  // ----- Any number of threads ------------------------------------------------------------------------

  datatype Thread = Thread(held: set<Mutex>, rest: seq<Op>)

  /** No two threads hold the same mutex; each thread keeps the order to its end. */
  ghost predicate Ordered(ts: seq<Thread>) {
    && (forall t | 0 <= t < |ts| :: Takes(ts[t].rest, ts[t].held, {}))
    && (forall t, u, m | 0 <= t < |ts| && 0 <= u < |ts| && t != u :: !(m in ts[t].held && m in ts[u].held))
  }

  /** Thread `t` can go on: it releases, or nobody holds the mutex it asks for. */
  ghost predicate CanStep(ts: seq<Thread>, t: nat)
    requires t < |ts|
  {
    ts[t].rest != [] && (ts[t].rest[0].Lock? ==> forall u | 0 <= u < |ts| :: ts[t].rest[0].m !in ts[u].held)
  }

  function StepThread(t: Thread): Thread
    requires t.rest != []
  {
    match t.rest[0]
    case Lock(m) => Thread(t.held + {m}, t.rest[1..])
    case Unlock(m) => Thread(t.held - {m}, t.rest[1..])
  }

  ghost predicate Next(ts: seq<Thread>, us: seq<Thread>) {
    exists t: nat :: t < |ts| && CanStep(ts, t) && us == ts[t := StepThread(ts[t])]
  }

  /** All interleavings of threads that each make calls. */
  ghost predicate Run(states: seq<seq<Thread>>, programs: seq<seq<Call>>) {
    && |states| > 0 && |states[0]| == |programs|
    && (forall t | 0 <= t < |programs| :: states[0][t] == Thread({}, Traces(programs[t])))
    && forall k | 0 <= k < |states| - 1 :: Next(states[k], states[k + 1])
  }

  /** No thread makes a call that keeps a mutex. */
  predicate AllGiveBack(programs: seq<seq<Call>>) {
    forall t | 0 <= t < |programs| :: GivesBack(programs[t])
  }

  lemma NextOrdered(ts: seq<Thread>, us: seq<Thread>)
    requires Ordered(ts) && Next(ts, us)
    ensures Ordered(us)
  {
    var t: nat :| t < |ts| && CanStep(ts, t) && us == ts[t := StepThread(ts[t])];
    assert Takes(ts[t].rest, ts[t].held, {});
  }

  lemma {:induction false} RunOrdered(states: seq<seq<Thread>>, programs: seq<seq<Call>>, k: nat)
    requires Run(states, programs) && AllGiveBack(programs) && k < |states|
    ensures Ordered(states[k])
  {
    if k == 0 {
      forall t | 0 <= t < |programs|
        ensures Takes(states[0][t].rest, states[0][t].held, {})
      {
        TracesTake(programs[t]);
      }
    } else {
      RunOrdered(states, programs, k - 1);
      NextOrdered(states[k - 1], states[k]);
    }
  }

  /** The next thing thread `t` does is to take a mutex. */
  ghost predicate Asks(ts: seq<Thread>, t: nat) {
    t < |ts| && ts[t].rest != [] && ts[t].rest[0].Lock?
  }

  /** Thread `t` waits for a mutex that thread `u` holds. */
  ghost predicate Waits(ts: seq<Thread>, t: nat, u: nat)
    requires t < |ts| && u < |ts|
  {
    ts[t].rest != [] && ts[t].rest[0].Lock? && ts[t].rest[0].m in ts[u].held
  }

  /** Along a chain of waiting threads the awaited mutexes rank higher and higher. */
  lemma WaitsRank(ts: seq<Thread>, t: nat, u: nat)
    requires Ordered(ts) && t < |ts| && u < |ts| && Waits(ts, t, u) && ts[u].rest != [] && ts[u].rest[0].Lock?
    ensures Rank(ts[t].rest[0].m) < Rank(ts[u].rest[0].m)
  {
    assert Takes(ts[u].rest, ts[u].held, {});
  }

  /** Threads that wait for each other in turn. */
  ghost predicate Chain(ts: seq<Thread>, c: seq<nat>) {
    && (forall i | 0 <= i < |c| :: c[i] < |ts|)
    && forall i | 0 <= i < |c| - 1 :: Waits(ts, c[i], c[i + 1])
  }

  lemma {:induction false} ChainRank(ts: seq<Thread>, c: seq<nat>, i: nat)
    requires Ordered(ts) && Chain(ts, c) && 0 < i < |c| - 1
    ensures Asks(ts, c[0]) && Asks(ts, c[i]) && Rank(ts[c[0]].rest[0].m) < Rank(ts[c[i]].rest[0].m)
  {
    assert Waits(ts, c[0], c[1]);
    assert Waits(ts, c[i], c[i + 1]) && Waits(ts, c[i - 1], c[i]);
    WaitsRank(ts, c[i - 1], c[i]);
    if i > 1 {
      ChainRank(ts, c, i - 1);
    }
  }

  /** No cyclic wait, in any state of any run. */
  lemma {:induction false} NoCyclicWait(states: seq<seq<Thread>>, programs: seq<seq<Call>>, k: nat, c: seq<nat>)
    requires Run(states, programs) && AllGiveBack(programs) && k < |states| && |c| >= 2
    requires forall i | 0 <= i < |c| :: c[i] < |states[k]|
    ensures !(Chain(states[k], c) && c[|c| - 1] == c[0])
  {
    var ts := states[k];
    if Chain(ts, c) && c[|c| - 1] == c[0] {
      RunOrdered(states, programs, k);
      var n := |c| - 1;
      assert Waits(ts, c[n - 1], c[n]) && Waits(ts, c[0], c[1]);
      WaitsRank(ts, c[n - 1], c[0]);
      if n > 1 {
        ChainRank(ts, c, n - 1);
      }
      assert false;
    }
  }

  // ----- Some thread can always go on ---------------------------------------------------------------------

  /** Following the waits from a thread ends at one that can go on: ranks cannot grow for ever. */
  lemma {:induction false} SomebodySteps(ts: seq<Thread>, t: nat)
    returns (u: nat)
    requires Ordered(ts) && t < |ts| && ts[t].rest != []
    ensures u < |ts| && CanStep(ts, u)
    decreases if ts[t].rest[0].Lock? then 5 - Rank(ts[t].rest[0].m) else 0
  {
    if CanStep(ts, t) {
      return t;
    }
    u :| 0 <= u < |ts| && ts[t].rest[0].m in ts[u].held;
    assert Takes(ts[u].rest, ts[u].held, {});
    if ts[u].rest[0].Lock? {
      WaitsRank(ts, t, u);
      u := SomebodySteps(ts, u);
    }
  }

  /** In every state of every run, all threads are done or one can go on. */
  lemma {:induction false} NoDeadlock(states: seq<seq<Thread>>, programs: seq<seq<Call>>, k: nat)
    requires Run(states, programs) && AllGiveBack(programs) && k < |states|
    ensures (forall t | 0 <= t < |states[k]| :: states[k][t].rest == [])
         || exists u: nat :: u < |states[k]| && CanStep(states[k], u)
  {
    RunOrdered(states, programs, k);
    if t :| 0 <= t < |states[k]| && states[k][t].rest != [] {
      var u := SomebodySteps(states[k], t);
    }
  }

  /** When all threads are done, every mutex is free. */
  lemma {:induction false} AllReleased(states: seq<seq<Thread>>, programs: seq<seq<Call>>, k: nat, t: nat)
    requires Run(states, programs) && AllGiveBack(programs) && k < |states| && t < |states[k]| && states[k][t].rest == []
    ensures states[k][t].held == {}
  {
    RunOrdered(states, programs, k);
    assert Takes(states[k][t].rest, states[k][t].held, {});
  }

  // ----- A mutex that is kept blocks others for ever -------------------------------------------------------

  /** All threads are done or wait, and some wait. */
  ghost predicate Stuck(ts: seq<Thread>) {
    && (exists t :: 0 <= t < |ts| && ts[t].rest != [])
    && forall t: nat | t < |ts| :: !CanStep(ts, t)
  }

  /** The first thread runs to its end, the others wait. */
  lemma {:induction false} RunsAlone(t: Thread, others: seq<Thread>, after: set<Mutex>)
    returns (states: seq<seq<Thread>>)
    requires Takes(t.rest, t.held, after)
    requires forall u | 0 <= u < |others| :: others[u].held == {}
    ensures |states| > 0 && states[0] == [t] + others && states[|states| - 1] == [Thread(after, [])] + others
    ensures forall k | 0 <= k < |states| - 1 :: Next(states[k], states[k + 1])
    decreases |t.rest|
  {
    var now := [t] + others;
    if t.rest == [] {
      states := [now];
    } else {
      var next := StepThread(t);
      assert CanStep(now, 0);
      assert now[0 := next] == [next] + others;
      assert Next(now, [next] + others);
      var rest := RunsAlone(next, others, after);
      states := [now] + rest;
      forall k | 0 <= k < |states| - 1
        ensures Next(states[k], states[k + 1])
      {
        assert k > 0 ==> states[k] == rest[k - 1];
        assert states[k + 1] == rest[k];
      }
    }
  }

  lemma OneCall(c: Call)
    ensures Traces([c]) == Trace(c)
  {
    hide Trace;
    assert [c][1..] == [] && Trace(c) + [] == Trace(c);
  }

  /**
    Each call that keeps a mutex can block another one for ever: in this run it is made and done, and a call that
    gives everything back waits for what was kept.
    */
  lemma {:induction false} KeptBlocks(c: Call)
    returns (d: Call, states: seq<seq<Thread>>)
    requires Kept(c) != {}
    ensures GivesBack([d]) && Run(states, [[c], [d]]) && Stuck(states[|states| - 1])
  {
    hide Takes, Trace;
    d := if LockInputs in Kept(c) then CallInStandby(0, false) else CallOutQuery(c.o);
    OneCall(c);
    OneCall(d);
    CallTakes(c);
    var waiting := Thread({}, Trace(d));
    states := RunsAlone(Thread({}, Trace(c)), [waiting], Kept(c));
    var last := states[|states| - 1];
    assert last == [Thread(Kept(c), []), waiting];
    if LockInputs in Kept(c) {
      InputsAsked(0);
      WaitsStays(last, 1, 0);
    } else {
      QuerySteps(c.o);
      var next := [Thread(Kept(c), []), StepThread(waiting)];
      assert CanStep(last, 1) && next == last[1 := StepThread(last[1])];
      assert Next(last, next);
      WaitsStays(next, 1, 0);
      states := states + [next];
    }
  }

  lemma WaitsStays(ts: seq<Thread>, t: nat, u: nat)
    requires t < |ts| && u < |ts| && Waits(ts, t, u)
    ensures !CanStep(ts, t)
  {
  }

  lemma InputsAsked(i: nat)
    ensures var ops := Trace(CallInStandby(i, false)); ops != [] && ops[0] == Lock(LockInputs)
  {
  }

  lemma QuerySteps(o: nat)
    ensures var ops := Trace(CallOutQuery(o));
      |ops| > 1 && ops[0] == Lock(OutPreLock(o)) && ops[1] == Lock(OutLock(o))
  {
  }
}
