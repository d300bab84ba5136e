/**
  Who owns an echo reference (audio_hw.c): the device and the primary output
  stream share it, and a generation counter tells the stream when the device
  has let go. A reference is known by the number of its creation.
*/
module EchoReference {
  import opened Wrappers

  const GENERATIONS := 0x1_0000_0000
  type Generation = x: int | 0 <= x < GENERATIONS

  datatype State = State(
    device: Option<nat>,          // adev->echo_reference
    deviceGeneration: Generation, // adev->echo_reference_generation
    stream: Option<nat>,          // out->echo_reference
    streamGeneration: Generation, // out->echo_reference_generation
    standby: bool,                // out->standby
    created: nat,                 // how many references were created
    released: seq<nat>,           // the references released so far
    lag: nat)                     // generation changes since the stream last took over the generation

  datatype Event =
    | Get(succeeds: bool)           // get_echo_reference, and whether the creation succeeds
    | Put(reference: Option<nat>)   // put_echo_reference, for an input stream's reference
    | Write                         // out_write, when the stream is running
    | Standby                       // do_out_standby_l
    | Restart                       // start_output_stream

  const INITIAL := State(None, 0, None, 0, true, 0, [], 0)

  /** android_atomic_inc on the device's generation. */
  function Bumped(s: State): State {
    s.(deviceGeneration := (s.deviceGeneration + 1) % GENERATIONS, lag := s.lag + 1)
  }

  function Released(s: State, r: nat): State {
    s.(released := s.released + [r])
  }

  function Putted(s: State, reference: Option<nat>): State {
    if s.device.None? || reference != s.device then s
    else
      var t := Bumped(s.(device := None));
      if s.streamGeneration != s.deviceGeneration || s.standby then Released(t, s.device.value) else t
  }

  function Gotten(s: State, succeeds: bool): State {
    var t := Putted(s, s.device);
    if t.standby || !succeeds then t else Bumped(t.(device := Some(t.created), created := t.created + 1))
  }

  function TakenOver(s: State): State {
    s.(streamGeneration := s.deviceGeneration, lag := 0)
  }

  function Written(s: State): State {
    if s.deviceGeneration == s.streamGeneration then s
    else
      var t := if s.stream.Some? then Released(s, s.stream.value) else s;
      TakenOver(t.(stream := s.device))
  }

  function StoodBy(s: State): State {
    var t := s.(standby := true);
    if s.stream.None? then t
    else if s.streamGeneration != s.deviceGeneration then TakenOver(Released(t.(stream := None), s.stream.value))
    else t.(stream := None)
  }

  function Restarted(s: State): State {
    TakenOver(s.(standby := false, stream := s.device))
  }

  function Step(s: State, e: Event): State {
    match e
    case Get(succeeds) => Gotten(s, succeeds)
    case Put(reference) => Putted(s, reference)
    case Write => Written(s)
    case Standby => StoodBy(s)
    case Restart => Restarted(s)
  }

  /** A running stream writes and stands by; a stream in standby restarts. */
  predicate Enabled(s: State, e: Event) {
    match e
    case Write => !s.standby
    case Standby => !s.standby
    case Restart => s.standby
    case _ => true
  }

  predicate Holds(s: State, r: nat) {
    s.device == Some(r) || s.stream == Some(r)
  }

  /** A reference is released exactly when nobody holds it any more, and only once. */
  ghost predicate Safe(s: State) {
    && (forall i, j | 0 <= i < j < |s.released| :: s.released[i] != s.released[j])
    && (forall r | r in s.released :: r < s.created)
    && (forall r | 0 <= r < s.created :: r in s.released <==> !Holds(s, r))
  }

  /** The generations tell whether the stream has what the device has. */
  ghost predicate Consistent(s: State) {
    && (s.device.Some? ==> s.device.value < s.created) && (s.stream.Some? ==> s.stream.value < s.created)
    && (s.standby ==> s.stream == None)
    && (!s.standby ==> if s.lag == 0 then s.stream == s.device else s.stream.None? || s.stream != s.device)
    && (s.deviceGeneration - s.streamGeneration - s.lag) % GENERATIONS == 0
  }

  /** The generation counter has not come round to the running stream's generation again. */
  predicate InTime(s: State) {
    s.standby || s.lag == 0 || s.lag % GENERATIONS != 0
  }

  lemma SameGeneration(s: State)
    requires Consistent(s)
    ensures s.deviceGeneration == s.streamGeneration <==> s.lag % GENERATIONS == 0
  {
  }

  lemma BumpedConsistent(d: int, o: int, lag: int)
    requires (d - o - lag) % GENERATIONS == 0
    ensures ((d + 1) % GENERATIONS - o - (lag + 1)) % GENERATIONS == 0
  {
  }

  lemma ReleasedSafe(s: State, t: State, r: nat)
    requires Safe(s) && r < s.created && Holds(s, r) && t.created == s.created && t.released == s.released + [r]
    requires forall q | 0 <= q < s.created :: Holds(t, q) <==> Holds(s, q) && q != r
    ensures Safe(t)
  {
    assert t.released[|s.released|] == r;
    forall q | 0 <= q < s.created
      ensures q in t.released <==> !Holds(t, q)
    {
    }
  }

  lemma PuttedSafe(s: State, reference: Option<nat>)
    requires Safe(s) && Consistent(s) && InTime(s)
    ensures Safe(Putted(s, reference)) && Consistent(Putted(s, reference))
  {
    if s.device.Some? && reference == s.device {
      BumpedConsistent(s.deviceGeneration, s.streamGeneration, s.lag);
      SameGeneration(s);
      var t := Putted(s, reference);
      if s.streamGeneration != s.deviceGeneration || s.standby {
        ReleasedSafe(s, t, s.device.value);
      }
    }
  }

  lemma CreatedSafe(s: State)
    requires Safe(s) && Consistent(s) && !s.standby && s.device.None?
    ensures var t := Bumped(s.(device := Some(s.created), created := s.created + 1)); Safe(t) && Consistent(t)
  {
    BumpedConsistent(s.deviceGeneration, s.streamGeneration, s.lag);
  }

  /** Every event keeps the references safe, as long as the counter has not come round. */
  lemma StepSafe(s: State, e: Event)
    requires Safe(s) && Consistent(s) && InTime(s) && Enabled(s, e)
    ensures Safe(Step(s, e)) && Consistent(Step(s, e))
  {
    hide Safe, Consistent;
    ConsistentFacts(s);
    SameGeneration(s);
    match e
    case Get(succeeds) =>
      var t := Putted(s, s.device);
      PuttedSafe(s, s.device);
      if !t.standby && succeeds {
        CreatedSafe(t);
      }
    case Put(reference) => PuttedSafe(s, reference);
    case Write => WrittenSafe(s);
    case Standby => StoodBySafe(s);
    case Restart => RestartedSafe(s);
  }

  lemma ConsistentFacts(s: State)
    requires Consistent(s)
    ensures (s.device.Some? ==> s.device.value < s.created) && (s.stream.Some? ==> s.stream.value < s.created)
  {
  }

  /** What is held is not released yet. */
  lemma HeldFacts(s: State, r: nat)
    requires Safe(s) && Consistent(s) && Holds(s, r)
    ensures r < s.created && r !in s.released
  {
  }

  lemma WrittenSafe(s: State)
    requires Safe(s) && Consistent(s) && !s.standby
    ensures Safe(Written(s)) && Consistent(Written(s))
  {
    SameGeneration(s);
    if s.deviceGeneration != s.streamGeneration && s.stream.Some? {
      ReleasedSafe(s, Written(s), s.stream.value);
    }
  }

  lemma StoodBySafe(s: State)
    requires Safe(s) && Consistent(s) && !s.standby && InTime(s)
    ensures Safe(StoodBy(s)) && Consistent(StoodBy(s))
  {
    SameGeneration(s);
    if s.stream.Some? && s.deviceGeneration != s.streamGeneration {
      ReleasedSafe(s, StoodBy(s), s.stream.value);
    }
  }

  lemma RestartedSafe(s: State)
    requires Safe(s) && Consistent(s) && s.standby
    ensures Safe(Restarted(s)) && Consistent(Restarted(s))
  {
  }

  lemma PuttedConsistent(s: State, reference: Option<nat>)
    requires Consistent(s)
    ensures Consistent(Putted(s, reference))
  {
    BumpedConsistent(s.deviceGeneration, s.streamGeneration, s.lag);
  }

  lemma CreatedConsistent(s: State)
    requires Consistent(s) && !s.standby && s.device.None?
    ensures Consistent(Bumped(s.(device := Some(s.created), created := s.created + 1)))
  {
    BumpedConsistent(s.deviceGeneration, s.streamGeneration, s.lag);
  }

  lemma StreamConsistent(s: State)
    requires Consistent(s)
    ensures !s.standby ==> Consistent(Written(s)) && Consistent(StoodBy(s))
    ensures s.standby ==> Consistent(Restarted(s))
  {
    SameGeneration(s);
  }

  /** Whatever has been lost, the generations go on telling what they tell. */
  lemma StepConsistent(s: State, e: Event)
    requires Consistent(s) && Enabled(s, e)
    ensures Consistent(Step(s, e))
  {
    hide Consistent;
    match e {
      case Get(succeeds) =>
        PuttedConsistent(s, s.device);
        var t := Putted(s, s.device);
        if !t.standby && succeeds {
          CreatedConsistent(t);
        }
      case Put(reference) => PuttedConsistent(s, reference);
      case _ => StreamConsistent(s);
    }
  }

  // ----- When the counter has come round -----------------------------------------------------------

  /** Events that make somebody let go of a reference. */
  predicate LetsGo(s: State, e: Event) {
    match e
    case Get(_) => s.device.Some?
    case Put(reference) => s.device.Some? && reference == s.device
    case Standby => s.stream.Some?
    case _ => false
  }

  /** Exactly then an event can lose a reference: it lets go of one nobody will release. */
  lemma {:induction false} StepSafeExactly(s: State, e: Event)
    requires Safe(s) && Consistent(s) && Enabled(s, e)
    ensures Safe(Step(s, e)) <==> InTime(s) || !LetsGo(s, e)
  {
    if InTime(s) {
      StepSafe(s, e);
    } else {
      SameGeneration(s);
      if LetsGo(s, e) {
        var r := if e.Standby? then s.stream.value else s.device.value;
        assert Holds(s, r) && r !in s.released;
        assert r < s.created && !Holds(Step(s, e), r) && r !in Step(s, e).released;
      } else if e.Get? {
        if e.succeeds {
          CreatedSafe(s);
        }
      } else if e.Write? {
        WrittenSafe(s);
      }
    }
  }

  /** Who has a reference after an event: a new one is made for a running stream only, a put takes away only the device's
      own, and a running stream has the device's as soon as it writes. */
  lemma {:induction false} EventGives(s: State, reference: Option<nat>, succeeds: bool)
    requires Consistent(s)
    ensures Step(s, Get(succeeds)).device == if !s.standby && succeeds then Some(s.created) else None
    ensures Step(s, Put(reference)).device == if reference == s.device then None else s.device
    ensures !s.standby && InTime(s) ==> Step(s, Write).stream == s.device
    ensures !s.standby ==> Step(s, Standby).stream == None
    ensures s.standby ==> Step(s, Restart).stream == s.device && !Step(s, Restart).standby
  {
    SameGeneration(s);
  }

  /** All runs of the device and its primary output stream. */
  ghost predicate Run(states: seq<State>, events: seq<Event>) {
    && |states| == |events| + 1 && states[0] == INITIAL
    && forall i | 0 <= i < |events| :: Enabled(states[i], events[i]) && states[i + 1] == Step(states[i], events[i])
  }

  lemma {:induction false} RunConsistent(states: seq<State>, events: seq<Event>, i: nat)
    requires Run(states, events) && i < |states|
    ensures Consistent(states[i])
  {
    if i == 0 {
      InitiallySafe();
    } else {
      hide Consistent, Step, Enabled;
      RunConsistent(states, events, i - 1);
      StepConsistent(states[i - 1], events[i - 1]);
    }
  }

  /** Every state of a run is safe, while nobody lets go after the counter has come round. */
  lemma {:induction false} RunSafe(states: seq<State>, events: seq<Event>, i: nat)
    requires Run(states, events) && i < |states|
    requires forall k | 0 <= k < i :: InTime(states[k]) || !LetsGo(states[k], events[k])
    ensures Safe(states[i])
  {
    if i == 0 {
      InitiallySafe();
    } else {
      hide Safe, Consistent, Step, Enabled, InTime, LetsGo;
      RunSafe(states, events, i - 1);
      RunConsistent(states, events, i - 1);
      StepSafeExactly(states[i - 1], events[i - 1]);
    }
  }

  /** And only then. */
  lemma {:induction false} RunSafeExactly(states: seq<State>, events: seq<Event>)
    requires Run(states, events)
    ensures (forall i | 0 <= i < |states| :: Safe(states[i]))
       <==> (forall k | 0 <= k < |events| :: InTime(states[k]) || !LetsGo(states[k], events[k]))
  {
    hide Safe, Consistent, Step, Enabled, InTime, LetsGo;
    if forall k | 0 <= k < |events| :: InTime(states[k]) || !LetsGo(states[k], events[k]) {
      forall i | 0 <= i < |states|
        ensures Safe(states[i])
      {
        RunSafe(states, events, i);
      }
    } else {
      var k :| 0 <= k < |events| && !(InTime(states[k]) || !LetsGo(states[k], events[k]));
      if Safe(states[k]) {
        RunConsistent(states, events, k);
        StepSafeExactly(states[k], events[k]);
        assert !Safe(states[k + 1]);
      }
    }
  }

  /** The state after `k` successful gets. */
  function Gets(s: State, k: nat): State {
    if k == 0 then s else Gotten(Gets(s, k - 1), true)
  }

  lemma {:induction false} GetsLag(s: State, k: nat)
    requires Safe(s) && Consistent(s) && !s.standby && s.lag == 0 && s.device.Some? && 2 * k <= GENERATIONS
    ensures var t := Gets(s, k);
      Safe(t) && Consistent(t) && !t.standby && t.lag == 2 * k && t.device.Some?
  {
    if k > 0 {
      hide Safe, Consistent, InTime, Gotten;
      GetsLag(s, k - 1);
      SmallLag(Gets(s, k - 1));
      OneMore(Gets(s, k - 1));
      StepSafe(Gets(s, k - 1), Get(true));
    }
  }

  lemma SmallLag(s: State)
    requires s.lag < GENERATIONS
    ensures InTime(s)
  {
  }

  lemma OneMore(s: State)
    requires !s.standby && s.device.Some?
    ensures Gotten(s, true).lag == s.lag + 2 && Gotten(s, true).device.Some? && !Gotten(s, true).standby
  {
  }

  /** A run that does come round: the stream picks a reference, and does not write while the
      input side gets 2^31 others. The last one is lost when it is put. */
  lemma {:induction false} CounterComesRound()
    ensures var s := Step(Step(Step(INITIAL, Restart), Get(true)), Write);
      var t := Gets(s, GENERATIONS / 2);
      Safe(t) && !Safe(Step(t, Put(t.device)))
  {
    var s := Step(Step(Step(INITIAL, Restart), Get(true)), Write);
    hide Gets, Safe;
    assert Safe(INITIAL) by { InitiallySafe(); }
    StepSafe(INITIAL, Restart);
    StepSafe(Step(INITIAL, Restart), Get(true));
    StepSafe(Step(Step(INITIAL, Restart), Get(true)), Write);
    GetsLag(s, GENERATIONS / 2);
    var t := Gets(s, GENERATIONS / 2);
    StepSafeExactly(t, Put(t.device));
  }

  lemma InitiallySafe()
    ensures Safe(INITIAL) && Consistent(INITIAL)
  {
  }

  // ----- The device and its primary output stream --------------------------------------------------

  class AudioDevice {
    var echoReference: Option<nat>      // adev->echo_reference
    var generation: Generation          // adev->echo_reference_generation
    var outReference: Option<nat>       // primary_output->echo_reference
    var outGeneration: Generation       // primary_output->echo_reference_generation
    var outStandby: bool                // primary_output->standby
    var created: nat                    // the references create_echo_reference has made
    ghost var released: seq<nat>        // those release_echo_reference has freed
    ghost var lag: nat

    ghost function Now(): State
      reads this
    {
      State(echoReference, generation, outReference, outGeneration, outStandby, created, released, lag)
    }

    ghost predicate Valid()
      reads this
    {
      Safe(Now()) && Consistent(Now())
    }

    constructor ()
      ensures Valid() && Now() == INITIAL
    {
      echoReference, generation, outReference, outGeneration := None, 0, None, 0;
      outStandby, created, released, lag := true, 0, [], 0;
      new;
      InitiallySafe();
    }

    /** release_echo_reference: only a reference that is not released yet. */
    method Release(reference: nat)
      requires reference !in released
      modifies `released
      ensures released == old(released) + [reference]
    {
      released := released + [reference];
    }

    /** android_atomic_inc of the generation; int32_t wraps. */
    method IncrementGeneration()
      modifies `generation, `lag
      ensures generation == (old(generation) + 1) % GENERATIONS && lag == old(lag) + 1
    {
      generation := (generation + 1) % GENERATIONS;
      lag := lag + 1;
    }

    method PutEchoReference(reference: Option<nat>)
      requires Valid()
      modifies this
      ensures Now() == Step(old(Now()), Put(reference))
      ensures Valid() <==> old(InTime(Now()) || !LetsGo(Now(), Put(reference)))
    {
      hide Safe, Consistent, InTime;
      StepConsistent(Now(), Put(reference));
      StepSafeExactly(Now(), Put(reference));
      var prevGeneration := generation;
      if echoReference.Some? && reference == echoReference {
        HeldFacts(Now(), reference.value);
        echoReference := None;
        IncrementGeneration();
        if outGeneration != prevGeneration || outStandby {
          Release(reference.value);
        }
      }
    }

    method GetEchoReference(succeeds: bool) returns (reference: Option<nat>)
      requires Valid()
      modifies this
      ensures Now() == Step(old(Now()), Get(succeeds)) && reference == echoReference
      ensures Valid() <==> old(InTime(Now()) || !LetsGo(Now(), Get(succeeds)))
    {
      hide Safe, Consistent, InTime;
      StepConsistent(Now(), Get(succeeds));
      StepSafeExactly(Now(), Get(succeeds));
      PutEchoReference(echoReference);
      if !outStandby && succeeds {
        echoReference := Some(created);
        created := created + 1;
        IncrementGeneration();
      }
      return echoReference;
    }

    /** What out_write does about the reference. */
    method SyncEchoReference()
      requires Valid() && !outStandby
      modifies this
      ensures Valid() && Now() == Step(old(Now()), Write)
    {
      WrittenSafe(Now());
      if generation != outGeneration {
        SameGeneration(Now());
        if outReference.Some? {
          assert Holds(Now(), outReference.value);
          Release(outReference.value);
        }
        outGeneration := generation;
        lag := 0;
        outReference := echoReference;
      }
    }

    method DoOutStandby()
      requires Valid() && !outStandby
      modifies this
      ensures Now() == Step(old(Now()), Standby)
      ensures Valid() <==> old(InTime(Now()) || !LetsGo(Now(), Standby))
    {
      StepConsistent(Now(), Standby);
      StepSafeExactly(Now(), Standby);
      outStandby := true;
      if outReference.Some? {
        if outGeneration != generation {
          assert Holds(old(Now()), outReference.value);
          Release(outReference.value);
          outGeneration := generation;
          lag := 0;
        }
        outReference := None;
      }
    }

    method StartOutputStream()
      requires Valid() && outStandby
      modifies this
      ensures Valid() && Now() == Step(old(Now()), Restart)
    {
      RestartedSafe(Now());
      outReference := None;
      outGeneration := generation;
      lag := 0;
      if echoReference.Some? {
        outReference := echoReference;
      }
      outStandby := false;
    }
  }
}
