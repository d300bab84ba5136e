/**
  Capture (audio_hw.c): the driver delivers whole periods, and the clients read
  any number of frames. Without a resampler, and without channels to discard.
*/
module Capture {
  import opened Wrappers

  const EINVAL := -22

  /** The frames [lo, lo + n) of the PCM stream. */
  function Frames<Frame>(pcm: nat -> Frame, lo: nat, n: nat): (s: seq<Frame>)
    ensures |s| == n && forall i | 0 <= i < n :: s[i] == pcm(lo + i)
  {
    seq(n, i requires 0 <= i < n => pcm(lo + i))
  }

  lemma FramesConcat<Frame>(pcm: nat -> Frame, lo: nat, m: nat, n: nat)
    ensures Frames(pcm, lo, m) + Frames(pcm, lo + m, n) == Frames(pcm, lo, m + n)
  {
  }

  /** struct resampler_buffer: where the frames are in the read buffer, and how many. */
  datatype ProviderBuffer = ProviderBuffer(at: int, frameCount: nat)

  /** One more piece in the client's buffer. */
  lemma CopyGrows<Frame>(pcm: nat -> Frame, lo: nat, start: seq<Frame>, before: seq<Frame>, after: seq<Frame>,
                         written: nat, n: nat)
    requires |start| == |before| == |after| && written + n <= |start|
    requires before[..written] == Frames(pcm, lo, written) && before[written..] == start[written..]
    requires after[..written] == before[..written]
    requires after[written..written + n] == Frames(pcm, lo + written, n)
    requires after[written + n..] == before[written + n..]
    ensures after[..written + n] == Frames(pcm, lo, written + n)
    ensures after[written + n..] == start[written + n..]
  {
    FramesConcat(pcm, lo, written, n);
    assert after[..written + n] == after[..written] + after[written..written + n];
    assert before[written + n..] == before[written..][n..];
    assert start[written + n..] == start[written..][n..];
  }

  /** A copy, element by element and as a whole. */
  lemma Copied<Frame>(before: seq<Frame>, after: seq<Frame>, from: seq<Frame>, to: nat, at: nat, n: nat)
    requires |before| == |after| && to + n <= |before| && at + n <= |from|
    requires forall i | 0 <= i < |before| :: after[i] == if to <= i < to + n then from[at + (i - to)] else before[i]
    ensures after[..to] == before[..to] && after[to..to + n] == from[at..at + n] && after[to + n..] == before[to + n..]
  {
  }

  // ----- How far a read gets ----------------------------------------------------------------

  /** The frames copied, the calls of pcm_read made until then, and the frames left in the read buffer. */
  datatype Progress = Progress(copied: nat, calls: nat, have: nat)

  /** A read of `want` frames, by what the calls of pcm_read return. */
  function Progressed(status: nat -> int, calls: nat, have: nat, period: nat, want: nat): (r: Progress)
    requires period > 0
    ensures r.copied <= want
    decreases want, if have == 0 then 1 else 0
  {
    if want == 0 then Progress(0, calls, have)
    else if have > 0 then
      var n := if want > have then have else want;
      var r := Progressed(status, calls, have - n, period, want - n);
      Progress(n + r.copied, r.calls, r.have)
    else if status(calls) != 0 then Progress(0, calls + 1, 0)
    else Progressed(status, calls + 1, period, period, want)
  }

  lemma ProgressedSteps(status: nat -> int, calls: nat, have: nat, period: nat, want: nat)
    requires period > 0
    ensures want == 0 ==> Progressed(status, calls, have, period, want) == Progress(0, calls, have)
    ensures want > 0 && have > 0 ==>
      var n := if want > have then have else want;
      var r := Progressed(status, calls, have - n, period, want - n);
      Progressed(status, calls, have, period, want) == Progress(n + r.copied, r.calls, r.have)
    ensures want > 0 && have == 0 ==>
      Progressed(status, calls, have, period, want)
      == if status(calls) != 0 then Progress(0, calls + 1, 0) else Progressed(status, calls + 1, period, period, want)
  {
  }

  /** A read that comes to `all` has copied `written` frames so far, and `want` are still wanted. */
  ghost predicate Continues(all: Progress, written: nat, status: nat -> int, calls: nat, have: nat, period: nat, want: nat)
    requires period > 0
  {
    var rest := Progressed(status, calls, have, period, want);
    all == Progress(written + rest.copied, rest.calls, rest.have)
  }

  /** One more buffer, after a call of pcm_read when there is nothing left. */
  lemma OneRound(all: Progress, written: nat, status: nat -> int, calls: nat, have: nat, period: nat, want: nat)
    requires period > 0 && want > 0 && Continues(all, written, status, calls, have, period, want)
    ensures have == 0 && status(calls) != 0 ==> all == Progress(written, calls + 1, 0)
    ensures have > 0 || status(calls) == 0 ==>
      var c, h := if have == 0 then calls + 1 else calls, if have == 0 then period else have;
      var n := if want > h then h else want;
      Continues(all, written + n, status, c, h - n, period, want - n)
  {
    hide Progressed;
    ProgressedSteps(status, calls, have, period, want);
    if have == 0 && status(calls) == 0 {
      ProgressedSteps(status, calls + 1, period, period, want);
    }
  }

  lemma Begins(status: nat -> int, calls: nat, have: nat, period: nat, want: nat)
    requires period > 0
    ensures Continues(Progressed(status, calls, have, period, want), 0, status, calls, have, period, want)
  {
    hide Progressed;
  }

  lemma Ends(all: Progress, written: nat, status: nat -> int, calls: nat, have: nat, period: nat)
    requires period > 0 && Continues(all, written, status, calls, have, period, 0)
    ensures all == Progress(written, calls, have)
  {
  }

  /** The frames a read can take before call `c` of pcm_read. */
  function Before(calls: nat, have: nat, period: nat, c: nat): nat
    requires calls <= c
  {
    have + (c - calls) * period
  }

  /** Call `c` is the first that fails of those a read of `want` frames needs. */
  ghost predicate FailsAt(status: nat -> int, calls: nat, have: nat, period: nat, want: nat, c: nat) {
    && calls <= c && Before(calls, have, period, c) < want && status(c) != 0
    && forall j | calls <= j < c :: status(j) == 0
  }

  lemma OnePeriodMore(calls: nat, have: nat, period: nat, c: nat)
    requires calls <= c
    ensures Before(calls, have, period, c) == have + Before(calls, 0, period, c)
    ensures c == calls ==> Before(calls, have, period, c) == have
    ensures calls < c ==> Before(calls, 0, period, c) == Before(calls + 1, period, period, c) >= period
  {
    if calls < c {
      var k: nat := c - calls - 1;
      assert c - calls == k + 1 && c - (calls + 1) == k;
      OneMore(k, period);
    }
  }

  lemma OneMore(k: nat, period: nat)
    ensures (k + 1) * period == period + k * period >= period
  {
  }

  /** A read that fails has taken, and lost, what was in the buffer and every period before the failing call. */
  lemma {:induction false} FailedRead(status: nat -> int, calls: nat, have: nat, period: nat, want: nat, c: nat)
    requires period > 0 && FailsAt(status, calls, have, period, want, c)
    ensures Progressed(status, calls, have, period, want) == Progress(Before(calls, have, period, c), c + 1, 0)
    decreases want, if have == 0 then 1 else 0
  {
    hide Progressed, Before;
    ProgressedSteps(status, calls, have, period, want);
    OnePeriodMore(calls, have, period, c);
    if have > 0 {
      FailedRead(status, calls, 0, period, want - have, c);
    } else if c > calls {
      FailedRead(status, calls + 1, period, period, want, c);
    }
  }

  /** A read that does not get all has such a call. */
  lemma {:induction false} FailingCall(status: nat -> int, calls: nat, have: nat, period: nat, want: nat) returns (c: nat)
    requires period > 0 && Progressed(status, calls, have, period, want).copied < want
    ensures FailsAt(status, calls, have, period, want, c)
    decreases want, if have == 0 then 1 else 0
  {
    ProgressedSteps(status, calls, have, period, want);
    if have > 0 {
      c := FailingCall(status, calls, 0, period, want - have);
    } else if status(calls) != 0 {
      c := calls;
    } else {
      c := FailingCall(status, calls + 1, period, period, want);
      OnePeriodMore(calls, 0, period, c);
    }
  }

  /** A read fails exactly when one of the calls it needs does. */
  lemma {:induction false} FailsExactly(status: nat -> int, calls: nat, have: nat, period: nat, want: nat)
    requires period > 0
    ensures Progressed(status, calls, have, period, want).copied < want
       <==> exists c: nat :: FailsAt(status, calls, have, period, want, c)
  {
    hide Progressed, FailsAt;
    if Progressed(status, calls, have, period, want).copied < want {
      var _ := FailingCall(status, calls, have, period, want);
    }
    forall c: nat | FailsAt(status, calls, have, period, want, c)
      ensures Progressed(status, calls, have, period, want).copied < want
    {
      FailedRead(status, calls, have, period, want, c);
      FailsEarly(status, calls, have, period, want, c);
    }
  }

  lemma FailsEarly(status: nat -> int, calls: nat, have: nat, period: nat, want: nat, c: nat)
    requires FailsAt(status, calls, have, period, want, c)
    ensures calls <= c && Before(calls, have, period, c) < want
  {
  }

  // ----- Reads that go on after failures -----------------------------------------------------

  /** One of several reads: the place of its first frame in the capture, the frames wanted, the frames copied. */
  datatype Reading = Reading(from: nat, want: nat, copied: nat) {
    predicate Good() {
      copied == want
    }
  }

  function Readings(status: nat -> int, calls: nat, have: nat, taken: nat, period: nat, sizes: seq<nat>): (rs: seq<Reading>)
    requires period > 0
    ensures |rs| == |sizes|
    decreases |sizes|
  {
    if sizes == [] then []
    else
      var p := Progressed(status, calls, have, period, sizes[0]);
      [Reading(taken, sizes[0], p.copied)] + Readings(status, p.calls, p.have, taken + p.copied, period, sizes[1..])
  }

  /** The frames copied by good reads, and by failing ones. */
  function Given(rs: seq<Reading>): nat {
    if rs == [] then 0 else (if rs[0].Good() then rs[0].copied else 0) + Given(rs[1..])
  }

  function Lost(rs: seq<Reading>): nat {
    if rs == [] then 0 else (if rs[0].Good() then 0 else rs[0].copied) + Lost(rs[1..])
  }

  /** What the good reads give is contiguous: each goes on where those before it have ended. */
  ghost predicate Contiguous(rs: seq<Reading>, start: nat) {
    forall k | 0 <= k < |rs| && rs[k].Good() && rs[k].want > 0 :: rs[k].from == start + Given(rs[..k])
  }

  /** Where a read starts, whatever happened before. */
  lemma {:induction false} PlaceOfReading(status: nat -> int, calls: nat, have: nat, taken: nat, period: nat, sizes: seq<nat>,
                                          k: nat)
    requires period > 0 && k < |sizes|
    ensures var rs := Readings(status, calls, have, taken, period, sizes);
      rs[k].from == taken + Given(rs[..k]) + Lost(rs[..k])
    decreases k
  {
    hide Progressed;
    var rs := Readings(status, calls, have, taken, period, sizes);
    if k > 0 {
      var p := Progressed(status, calls, have, period, sizes[0]);
      PlaceOfReading(status, p.calls, p.have, taken + p.copied, period, sizes[1..], k - 1);
      assert rs[..k][1..] == rs[1..][..k - 1];
    }
  }

  lemma {:induction false} NothingLost(rs: seq<Reading>)
    ensures Lost(rs) == 0 <==> forall j | 0 <= j < |rs| && !rs[j].Good() :: rs[j].copied == 0
  {
    if rs != [] {
      NothingLost(rs[1..]);
      assert forall j | 0 < j < |rs| :: rs[j] == rs[1..][j - 1];
    }
  }

  /** Exactly then the output is contiguous: no failing read in front of a good one has taken anything. */
  lemma {:induction false} ContiguousExactly(status: nat -> int, calls: nat, have: nat, taken: nat, period: nat, sizes: seq<nat>)
    requires period > 0
    ensures var rs := Readings(status, calls, have, taken, period, sizes);
      Contiguous(rs, taken)
      <==> forall j, k | 0 <= j < k < |rs| && !rs[j].Good() && rs[k].Good() && rs[k].want > 0 :: rs[j].copied == 0
  {
    hide Progressed, Readings, Given, Lost;
    var rs := Readings(status, calls, have, taken, period, sizes);
    forall k | 0 <= k < |rs|
      ensures rs[k].from == taken + Given(rs[..k])
         <==> forall j | 0 <= j < k && !rs[j].Good() :: rs[j].copied == 0
    {
      PlaceOfReading(status, calls, have, taken, period, sizes, k);
      NothingLost(rs[..k]);
      assert forall j | 0 <= j < k :: rs[..k][j] == rs[j];
    }
  }

  const SECOND_CALL_FAILS: nat -> int := k => if k == 1 then -5 else 0

  /** A read of six frames whose second period fails, and one of two frames: the first four frames are never given. */
  lemma {:induction false} GapWitness()
    ensures Readings(SECOND_CALL_FAILS, 0, 0, 0, 4, [6, 2]) == [Reading(0, 6, 4), Reading(4, 2, 2)]
    ensures !Contiguous(Readings(SECOND_CALL_FAILS, 0, 0, 0, 4, [6, 2]), 0)
  {
    var f := SECOND_CALL_FAILS;
    assert f(0) == 0 && f(1) != 0 && f(2) == 0;
    FailedRead(f, 0, 0, 4, 6, 1);
    ProgressedSteps(f, 2, 0, 4, 2);
    ProgressedSteps(f, 3, 4, 4, 2);
    ProgressedSteps(f, 3, 2, 4, 0);
    var rs := Readings(f, 0, 0, 0, 4, [6, 2]);
    assert [6, 2][1..] == [2] && [2][1..] == [];
    assert rs == [Reading(0, 6, 4), Reading(4, 2, 2)];
    assert rs[..1] == [Reading(0, 6, 4)] && Given(rs[..1]) == 0;
  }

  class StreamIn<Frame(0)> {
    const period: nat                // config.period_size
    const readBuf: array<Frame>      // read_buf
    var readBufFrames: nat           // read_buf_frames
    var readStatus: int              // read_status
    var devices: bool                // !list_empty(&pcm_dev_list)
    const pcm: nat -> Frame          // what the driver captures
    const status: nat -> int         // the outcome of each pcm_read
    var captured: nat                // the frames read from the driver
    var calls: nat                   // the number of calls of pcm_read

    ghost predicate Valid()
      reads this, readBuf
    {
      && (forall k :: status(k) <= 0) && 0 < period == readBuf.Length && readBufFrames <= period && readBufFrames <= captured
      && readBuf[period - readBufFrames..] == Frames(pcm, captured - readBufFrames, readBufFrames)
      && readStatus <= 0 && (readStatus != 0 ==> readBufFrames == 0)
    }

    /** The frames that have left the read buffer. */
    ghost function Taken(): int
      reads this
    {
      captured - readBufFrames
    }

    constructor (period: nat, pcm: nat -> Frame, status: nat -> int)
      requires period > 0 && forall k :: status(k) <= 0
      ensures Valid() && fresh(readBuf) && Taken() == 0 && devices && this.pcm == pcm
    {
      this.period, this.pcm, this.status := period, pcm, status;
      readBuf := new Frame[period];
      readBufFrames, readStatus, devices, captured, calls := 0, 0, true, 0, 0;
    }

    /** pcm_read of one period; a failing one leaves the buffer alone. */
    method PcmRead() returns (r: int)
      requires readBuf.Length == period
      modifies readBuf, `captured, `calls
      ensures r == status(old(calls)) && calls == old(calls) + 1
      ensures if r == 0 then captured == old(captured) + period && readBuf[..] == Frames(pcm, old(captured), period)
              else captured == old(captured) && readBuf[..] == old(readBuf[..])
    {
      r := status(calls);
      calls := calls + 1;
      if r == 0 {
        forall i | 0 <= i < period {
          readBuf[i] := pcm(captured + i);
        }
        captured := captured + period;
      }
    }

    method GetNextBuffer(wanted: nat) returns (r: int, b: ProviderBuffer)
      requires Valid() && devices
      modifies readBuf, `captured, `calls, `readBufFrames, `readStatus
      ensures Valid() && Taken() == old(Taken()) && r == readStatus
      ensures if old(readBufFrames) > 0 then r == 0 && calls == old(calls) && readBufFrames == old(readBufFrames)
              else && r == status(old(calls)) && calls == old(calls) + 1
                   && readBufFrames == if r == 0 then period else 0
      ensures if r != 0 then b == ProviderBuffer(-1, 0)
              else && 0 <= b.at && b.at == period - readBufFrames
                   && b.frameCount == if wanted > readBufFrames then readBufFrames else wanted
    {
      if readBufFrames == 0 {
        readStatus := PcmRead();
        if readStatus != 0 {
          return readStatus, ProviderBuffer(-1, 0);
        }
        readBufFrames := period;
      }
      b := ProviderBuffer(period - readBufFrames, if wanted > readBufFrames then readBufFrames else wanted);
      return readStatus, b;
    }

    method ReleaseBuffer(b: ProviderBuffer)
      requires Valid() && b.frameCount <= readBufFrames
      modifies `readBufFrames
      ensures Valid() && readBufFrames == old(readBufFrames) - b.frameCount
    {
      readBufFrames := readBufFrames - b.frameCount;
    }

    /**
      read_frames: on success `frames` frames that follow those taken before; on a failure
      of the driver the frames already copied in this call are gone.
      */
    method ReadFrames(buffer: array<Frame>, frames: nat) returns (r: int, ghost copied: nat)
      requires Valid() && frames <= buffer.Length && buffer != readBuf
      modifies readBuf, buffer, `captured, `calls, `readBufFrames, `readStatus
      ensures Valid() && copied <= frames && Taken() == old(Taken()) + copied
      ensures buffer[..copied] == Frames(pcm, old(Taken()), copied) && buffer[copied..] == old(buffer[copied..])
      ensures Progress(copied, calls, readBufFrames)
           == if devices then Progressed(status, old(calls), old(readBufFrames), period, frames)
              else Progress(0, old(calls), old(readBufFrames))
      ensures if !devices then r == EINVAL && copied == 0
              else if copied == frames then r == frames else r == readStatus < 0
    {
      hide Progressed, Continues;
      if !devices {
        return EINVAL, 0;
      }
      var written: nat := 0;
      ghost var all := Progressed(status, calls, readBufFrames, period, frames);
      Begins(status, calls, readBufFrames, period, frames);
      while written < frames
        invariant written <= frames && Continues(all, written, status, calls, readBufFrames, period, frames - written)
        invariant Valid() && Taken() == old(Taken()) + written
        invariant buffer[..written] == Frames(pcm, old(Taken()), written)
        invariant buffer[written..] == old(buffer[written..])
      {
        OneRound(all, written, status, calls, readBufFrames, period, frames - written);
        ghost var before := buffer[..];
        var rd := CopySome(buffer, written, frames - written);
        if readStatus != 0 {
          return readStatus, written;
        }
        CopyGrows(pcm, old(Taken()), old(buffer[..]), before, buffer[..], written, rd);
        written := written + rd;
      }
      Ends(all, written, status, calls, readBufFrames, period);
      return written, written;
    }

    /** One round of read_frames: what is left in the read buffer, or in a new one, as far as it is wanted. */
    method CopySome(buffer: array<Frame>, written: nat, wanted: nat) returns (n: nat)
      requires Valid() && devices && wanted > 0 && written + wanted <= buffer.Length && buffer != readBuf
      modifies readBuf, buffer, `captured, `calls, `readBufFrames, `readStatus
      ensures Valid() && readStatus == if old(readBufFrames) > 0 then 0 else status(old(calls))
      ensures calls == if old(readBufFrames) > 0 then old(calls) else old(calls) + 1
      ensures readStatus != 0 ==> Taken() == old(Taken()) && buffer[..] == old(buffer[..]) && readBufFrames == 0
      ensures readStatus == 0 ==>
        var have := if old(readBufFrames) > 0 then old(readBufFrames) else period;
        && n == (if wanted > have then have else wanted) && readBufFrames == have - n && Taken() == old(Taken()) + n
        && buffer[..written] == old(buffer[..written]) && buffer[written..written + n] == Frames(pcm, old(Taken()), n)
        && buffer[written + n..] == old(buffer[written + n..])
    {
      n := wanted;
      var _, b := GetNextBuffer(wanted);
      if b.at >= 0 {
        CopyOut(buffer, written, b);
        n := b.frameCount;
      }
      ReleaseBuffer(b);
    }

    /** memcpy from the read buffer behind what was copied before. */
    method CopyOut(buffer: array<Frame>, written: nat, b: ProviderBuffer)
      requires Valid() && buffer != readBuf && written + b.frameCount <= buffer.Length
      requires b.at == period - readBufFrames && b.frameCount <= readBufFrames
      modifies buffer
      ensures buffer[..written] == old(buffer[..written])
      ensures buffer[written..written + b.frameCount] == Frames(pcm, Taken(), b.frameCount)
      ensures buffer[written + b.frameCount..] == old(buffer[written + b.frameCount..])
    {
      ghost var before := buffer[..];
      forall i | 0 <= i < b.frameCount {
        buffer[written + i] := readBuf[b.at + i];
      }
      Copied(before, buffer[..], readBuf[..], written, b.at, b.frameCount);
      assert readBuf[b.at..b.at + b.frameCount] == readBuf[b.at..][..b.frameCount];
    }

    /** What several reads come to from here on. */
    ghost function Next(sizes: seq<nat>): seq<Reading>
      requires Valid()
      reads this, readBuf
    {
      Readings(status, calls, readBufFrames, Taken(), period, sizes)
    }

    /** Reads of any sizes, one after the other, until one fails. */
    method ReadAll(sizes: seq<nat>) returns (out: seq<Frame>, ok: bool)
      requires Valid() && devices
      modifies readBuf, `captured, `calls, `readBufFrames, `readStatus
      ensures Valid()
      ensures out == Frames(pcm, old(Taken()), |out|)
      ensures ok ==> |out| == Sum(sizes) && Taken() == old(Taken()) + |out|
      ensures !ok ==> |out| < Sum(sizes)
      ensures ok <==> forall k | 0 <= k < |sizes| :: old(Next(sizes))[k].Good()
    {
      hide Readings, Progressed;
      out, ok := [], true;
      ghost var all := Next(sizes);
      assert sizes[0..] == sizes;
      for k := 0 to |sizes|
        invariant Valid() && out == Frames(pcm, old(Taken()), |out|) && Taken() == old(Taken()) + |out|
        invariant |out| == Sum(sizes[..k])
        invariant |all| == |sizes| && all[k..] == Next(sizes[k..]) && forall j | 0 <= j < k :: all[j].Good()
      {
        var buffer := new Frame[sizes[k]];
        NextStep(sizes, k);
        ghost var rest := Next(sizes[k..]);
        var r, copied := ReadFrames(buffer, sizes[k]);
        SumPrefix(sizes, k);
        assert all[k] == rest[0] && all[k + 1..] == rest[1..];
        if r < 0 {
          return out, false;
        }
        FramesConcat(pcm, old(Taken()), |out|, sizes[k]);
        out := out + buffer[..sizes[k]];
      }
      assert sizes[..|sizes|] == sizes;
    }

    lemma NextStep(sizes: seq<nat>, k: nat)
      requires Valid() && k < |sizes|
      ensures var p := Progressed(status, calls, readBufFrames, period, sizes[k]);
        Next(sizes[k..]) == [Reading(Taken(), sizes[k], p.copied)]
                            + Readings(status, p.calls, p.have, Taken() + p.copied, period, sizes[k + 1..])
    {
      hide Progressed;
      assert sizes[k..][0] == sizes[k] && sizes[k..][1..] == sizes[k + 1..];
    }

    /** Reads of any sizes that go on after failures, with what each of them gives. */
    method ReadOn(sizes: seq<nat>) returns (outs: seq<Option<seq<Frame>>>)
      requires Valid() && devices
      modifies readBuf, `captured, `calls, `readBufFrames, `readStatus
      ensures Valid() && |outs| == |sizes|
      ensures forall k | 0 <= k < |sizes| ::
        var r := old(Next(sizes))[k]; outs[k] == if r.Good() then Some(Frames(pcm, r.from, r.want)) else None
    {
      hide Readings, Progressed;
      outs := [];
      ghost var all := Next(sizes);
      assert sizes[0..] == sizes;
      for k := 0 to |sizes|
        invariant Valid() && |outs| == k && |all| == |sizes| && all[k..] == Next(sizes[k..])
        invariant forall j | 0 <= j < k :: outs[j] == if all[j].Good() then Some(Frames(pcm, all[j].from, all[j].want)) else None
      {
        var buffer := new Frame[sizes[k]];
        NextStep(sizes, k);
        ghost var rest := Next(sizes[k..]);
        var r, copied := ReadFrames(buffer, sizes[k]);
        assert all[k] == rest[0] && all[k + 1..] == rest[1..];
        outs := outs + [if r < 0 then None else Some(buffer[..sizes[k]])];
      }
    }
  }

  function Sum(sizes: seq<nat>): nat {
    if sizes == [] then 0 else Sum(sizes[..|sizes| - 1]) + sizes[|sizes| - 1]
  }

  lemma {:induction false} SumPrefix(sizes: seq<nat>, k: nat)
    requires k < |sizes|
    ensures Sum(sizes[..k + 1]) == Sum(sizes[..k]) + sizes[k] <= Sum(sizes)
    decreases |sizes|
  {
    assert sizes[..k + 1][..k] == sizes[..k];
    if k + 1 == |sizes| {
      assert sizes[..k + 1] == sizes;
    } else {
      var n := |sizes| - 1;
      SumPrefix(sizes[..n], k);
      assert sizes[..n][..k + 1] == sizes[..k + 1] && sizes[..n][..k] == sizes[..k];
    }
  }
}
