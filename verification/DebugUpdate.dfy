/** UpdateDebugData: the debug segments of a finished stream filled in place. */
module DebugUpdate {
  import opened AppMarker
  import opened Bytes
  import opened Exif
  import opened JpegStream
  import opened Wrappers

  /** How an update ends: with success, also after a look at the byte behind the stream; with a failure; or with an
      access behind the stream that the further run depends on. */
  datatype Outcome = Updated | LooksBehind | Failed | OutOfBounds
  datatype Result = Result(outcome: Outcome, mem: seq<byte>)

  /** GetExtraAPPSize: 0 as soon as one segment is not acceptable. */
  function ExtraSize(d: Debug): nat {
    if forall k | 0 <= k < |d.ids| :: d.AcceptedId(d.ids[k]) then AppxSize(d, |d.ids|) else 0
  }

  /** size_t arithmetic. */
  function Less(x: nat, y: nat): nat {
    (x - y) % 0x1_0000_0000_0000_0000
  }

  /** Where one round of the loop leads: to an end, or to the next marker. */
  datatype Round = Round(stop: Option<Outcome>, mem: seq<byte>, p: nat, valid: nat)

  /** One round, at a marker: it fills one segment, or skips it, or stops. */
  function RoundAt(mem: seq<byte>, d: Debug, p: nat, valid: nat): (r: Round)
    requires p + 1 < |mem|
    ensures |r.mem| == |mem| && p < r.p <= |mem|
  {
    var left := |mem| - p;
    var marker := mem[p + 1];
    var id := marker % 0x10;
    if marker == 0xDA || marker == 0xD9 then Round(Some(Failed), mem, |mem|, valid)
    else if left < 4 then Round(Some(OutOfBounds), mem, |mem|, valid)
    else
      var seglen := SegLen(mem, p + 2);
      if marker / 0x10 == 0xE && id in d.ids then
        var data := d.Data(id);
        if seglen < |data| + 2 then Round(Some(Failed), mem, |mem|, valid)
        else if left < |data| + 4 then Round(Some(OutOfBounds), mem, |mem|, valid)
        else
          var filled := Splice(mem, p + 4, data);
          if left < seglen + 2 then Round(Some(OutOfBounds), filled, |mem|, valid)
          else Round(None, filled, p + 2 + seglen, Less(valid, |data| + 4))
      else
        var skip: nat := if seglen == 0 then 1 else seglen;
        Round(None, mem, if left < skip + 2 then |mem| else p + 2 + skip, valid)
  }

  /** The loop. Its condition looks at the next byte before it looks at the lengths: at the end of the stream
      it ends with success, whatever that byte is. */
  function UpdateFrom(mem: seq<byte>, d: Debug, p: nat, valid: nat): Result
    requires p <= |mem|
    decreases |mem| - p
  {
    if p == |mem| then Result(LooksBehind, mem)
    else if mem[p] != 0xFF || valid == 0 || |mem| - p <= valid then Result(Updated, mem)
    else
      var r := RoundAt(mem, d, p, valid);
      if r.stop.Some? then Result(r.stop.value, r.mem) else UpdateFrom(r.mem, d, r.p, r.valid)
  }

  function Update(mem: seq<byte>, debug: Option<Debug>): Result {
    if debug.None? then Result(Updated, mem)
    else
      var d := debug.value;
      if |d.ids| > EXTRA_APPMARKER_LIMIT - EXTRA_APPMARKER_MIN then Result(Failed, mem)
      else if |mem| < ExtraSize(d) + JPEG_MARKER_SIZE then Result(Failed, mem)
      else if mem[0] != 0xFF || mem[1] != 0xD8 then Result(Failed, mem)
      else UpdateFrom(mem, d, 2, ExtraSize(d))
  }

  method GetExtraAPPSize(d: Debug) returns (len: nat)
    ensures len == ExtraSize(d)
  {
    len := 0;
    for k := 0 to |d.ids|
      invariant len == AppxSize(d, k)
      invariant forall i | 0 <= i < k :: d.AcceptedId(d.ids[i])
    {
      var id := d.ids[k];
      var applen := |d.Data(id)|;
      if id < EXTRA_APPMARKER_MIN || id >= EXTRA_APPMARKER_LIMIT {
        return 0;
      }
      if applen == 0 || applen > JPEG_MAX_SEGMENT_SIZE - JPEG_SEGMENT_LENFIELD_SIZE {
        return 0;
      }
      len := len + applen + JPEG_MARKER_SIZE + JPEG_SEGMENT_LENFIELD_SIZE;
    }
  }

  method UpdateDebugData(jpeg: array<byte>, debug: Option<Debug>) returns (r: Outcome)
    modifies jpeg
    ensures Update(old(jpeg[..]), debug) == Result(r, jpeg[..])
  {
    hide UpdateFrom, RoundAt, Debug.AcceptedId;
    if debug.None? {
      return Updated;
    }
    var d := debug.value;
    if |d.ids| > EXTRA_APPMARKER_LIMIT - EXTRA_APPMARKER_MIN {
      return Failed;
    }
    var valid: nat := GetExtraAPPSize(d);
    if jpeg.Length < valid + JPEG_MARKER_SIZE || jpeg[0] != 0xFF || jpeg[1] != 0xD8 {
      return Failed;
    }
    ghost var was := jpeg[..];
    var p: nat := 2;
    while p < jpeg.Length && jpeg[p] == 0xFF && valid > 0 && jpeg.Length - p > valid
      invariant 2 <= p <= jpeg.Length == |was|
      invariant UpdateFrom(jpeg[..], d, p, valid) == UpdateFrom(was, d, 2, ExtraSize(d))
      decreases jpeg.Length - p
    {
      UpdateGoes(jpeg[..], d, p, valid);
      var stop;
      stop, p, valid := UpdateSegment(jpeg, d, p, valid);
      if stop.Some? {
        return stop.value;
      }
    }
    UpdateEnds(jpeg[..], d, p, valid);
    return if p == jpeg.Length then LooksBehind else Updated;
  }

  lemma UpdateGoes(mem: seq<byte>, d: Debug, p: nat, valid: nat)
    requires p < |mem| && mem[p] == 0xFF && 0 < valid < |mem| - p
    ensures var r := RoundAt(mem, d, p, valid);
      UpdateFrom(mem, d, p, valid)
      == if r.stop.Some? then Result(r.stop.value, r.mem) else UpdateFrom(r.mem, d, r.p, r.valid)
  {
  }

  lemma UpdateEnds(mem: seq<byte>, d: Debug, p: nat, valid: nat)
    requires p <= |mem| && (p == |mem| || mem[p] != 0xFF || valid == 0 || |mem| - p <= valid)
    ensures UpdateFrom(mem, d, p, valid) == Result(if p == |mem| then LooksBehind else Updated, mem)
  {
  }

  method UpdateSegment(jpeg: array<byte>, d: Debug, p: nat, valid: nat)
    returns (stop: Option<Outcome>, p': nat, valid': nat)
    requires p < jpeg.Length && jpeg[p] == 0xFF && 0 < valid < jpeg.Length - p
    modifies jpeg
    ensures RoundAt(old(jpeg[..]), d, p, valid) == Round(stop, jpeg[..], p', valid')
  {
    hide Splice, Debug.AcceptedId, SegLen, Less;
    stop, p', valid' := None, jpeg.Length, valid;
    var marker := jpeg[p + 1];
    var left := jpeg.Length - p - 2;
    if marker == 0xDA || marker == 0xD9 {
      return Some(Failed), p', valid';
    }
    if left < 2 {
      return Some(OutOfBounds), p', valid';
    }
    var seglen := GetSegLen(jpeg, p + 2);
    if marker / 0x10 == 0xE && marker % 0x10 in d.ids {
      var data := d.Data(marker % 0x10);
      if seglen < |data| + JPEG_SEGMENT_LENFIELD_SIZE {
        return Some(Failed), p', valid';
      }
      if left < JPEG_SEGMENT_LENFIELD_SIZE + |data| {
        return Some(OutOfBounds), p', valid';
      }
      Store(jpeg, p + 2 + JPEG_SEGMENT_LENFIELD_SIZE, data);
      if left < seglen {
        return Some(OutOfBounds), p', valid';
      }
      valid' := Less(valid, |data| + JPEG_MARKER_SIZE + JPEG_SEGMENT_LENFIELD_SIZE);
      p' := p + 2 + seglen;
    } else {
      var skip: nat := seglen;
      if skip == 0 {
        skip := skip + 1;
      }
      if left < skip {
        skip := left;
      }
      p' := p + 2 + skip;
    }
  }

  // ----- Filling reserved segments -----------------------------------------------------------

  /** The payloads of the first `n` debug segments stored. */
  function Filled(mem: seq<byte>, at: nat, d: Debug, n: nat): seq<byte>
    requires n <= |d.ids|
  {
    if n == 0 then mem else Splice(Filled(mem, at, d, n - 1), at + AppxSize(d, n - 1) + 4, d.Data(d.ids[n - 1]))
  }

  /** Index `i` is in the payload of one of the first `n` segments. */
  ghost predicate InPayload(at: nat, d: Debug, n: nat, i: int)
    requires n <= |d.ids|
  {
    n > 0 && (InPayload(at, d, n - 1, i) || at + AppxSize(d, n - 1) + 4 <= i < at + AppxSize(d, n))
  }

  /** Nothing else is touched. */
  lemma {:induction false} FilledElsewhere(mem: seq<byte>, at: nat, d: Debug, n: nat, i: nat)
    requires n <= |d.ids| && i < |mem|
    ensures |Filled(mem, at, d, n)| == |mem|
    ensures !InPayload(at, d, n, i) ==> Filled(mem, at, d, n)[i] == mem[i]
  {
    if n > 0 {
      FilledElsewhere(mem, at, d, n - 1, i);
    }
  }

  lemma {:induction false} FilledInside(mem: seq<byte>, at: nat, d: Debug, n: nat)
    requires n <= |d.ids|
    ensures var r := Filled(mem, at, d, n);
      |r| == |mem| && Agree(mem, r, 0, at) && Agree(mem, r, at + AppxSize(d, n), |mem|)
  {
    if n > 0 {
      FilledInside(mem, at, d, n - 1);
    }
  }

  lemma SpliceCommutes(mem: seq<byte>, p: nat, a: seq<byte>, q: nat, b: seq<byte>)
    requires p + |a| <= q || q + |b| <= p
    ensures Splice(Splice(mem, p, a), q, b) == Splice(Splice(mem, q, b), p, a)
  {
  }

  lemma {:induction false} FilledCommutes(mem: seq<byte>, at: nat, d: Debug, n: nat, p: nat, a: seq<byte>)
    requires n <= |d.ids| && at + AppxSize(d, n) <= p
    ensures Filled(Splice(mem, p, a), at, d, n) == Splice(Filled(mem, at, d, n), p, a)
  {
    hide Splice;
    if n > 0 {
      FilledCommutes(mem, at, d, n - 1, p, a);
      SpliceCommutes(Filled(mem, at, d, n - 1), p, a, at + AppxSize(d, n - 1) + 4, d.Data(d.ids[n - 1]));
    }
  }

  /** Reserving the segments and filling them is writing them. */
  lemma {:induction false} ReservedThenFilled(mem: seq<byte>, at: nat, d: Debug, n: nat)
    requires n <= |d.ids|
    ensures Filled(AppxWritten(mem, at, d, n, true), at, d, n) == AppxWritten(mem, at, d, n, false)
  {
    hide Splice, BE16, U16, AppxMarker;
    if n > 0 {
      var p, id := at + AppxSize(d, n - 1), d.ids[n - 1];
      var w := AppxWritten(mem, at, d, n - 1, true);
      var m1 := Splice(w, p, [0xFF, AppxMarker(id)]);
      ReservedThenFilled(mem, at, d, n - 1);
      FilledCommutes(w, at, d, n - 1, p, [0xFF, AppxMarker(id)]);
      FilledCommutes(m1, at, d, n - 1, p + 2, BE16(U16(|d.Data(id)| + 2)));
    }
  }

  /** With one segment that cannot be stored, success is reported and nothing at all is stored; behind a lone SOI
      the loop looks nevertheless. */
  lemma {:induction false} UnacceptableIgnored(mem: seq<byte>, d: Debug)
    requires |d.ids| <= EXTRA_APPMARKER_LIMIT - EXTRA_APPMARKER_MIN && !d.Accepted()
    requires |mem| >= 2 && mem[0] == 0xFF && mem[1] == 0xD8
    ensures Update(mem, Some(d)) == Result(if |mem| == 2 then LooksBehind else Updated, mem)
  {
  }

  // ----- Updating an assembled stream ----------------------------------------------------------

  /** The same segments with the same sizes. */
  ghost predicate SameShape(d: Debug, new_: Debug) {
    d.ids == new_.ids && forall id | id in d.ids :: |d.Data(id)| == |new_.Data(id)|
  }

  lemma {:induction false} SameSizes(d: Debug, new_: Debug, n: nat)
    requires SameShape(d, new_) && n <= |d.ids|
    ensures AppxSize(d, n) == AppxSize(new_, n)
  {
    if n > 0 {
      SameSizes(d, new_, n - 1);
    }
  }

  lemma {:induction false} SizesMonotone(d: Debug, k: nat, n: nat)
    requires k <= n <= |d.ids|
    ensures AppxSize(d, k) + 4 * (n - k) <= AppxSize(d, n)
    decreases n - k
  {
    if k < n {
      SizesMonotone(d, k, n - 1);
    }
  }

  /** What is in front of one segment's payload. */
  lemma {:induction false} HeadAt(mem: seq<byte>, at: nat, d: Debug, n: nat, k: nat)
    requires k < n <= |d.ids| && AppxAt(mem, at, d, n, true)
    ensures var p, id := at + AppxSize(d, k), d.ids[k];
      p + 4 + |d.Data(id)| <= |mem| && At(mem, p, [0xFF, AppxMarker(id)]) && At(mem, p + 2, BE16(U16(|d.Data(id)| + 2)))
  {
    hide At, BE16, U16, AppxMarker, Debug.AcceptedId;
    if k < n - 1 {
      HeadAt(mem, at, d, n - 1, k);
    }
  }

  lemma MarkerFacts(d: Debug, id: int)
    requires d.AcceptedId(id)
    ensures AppxMarker(id) / 0x10 == 0xE && AppxMarker(id) % 0x10 == id
    ensures |d.Data(id)| + 2 < 0x1_0000 && U16(|d.Data(id)| + 2) == |d.Data(id)| + 2
  {
  }

  lemma HeadBytes(mem: seq<byte>, p: nat, marker: byte, len: u16)
    requires At(mem, p, [0xFF, marker]) && At(mem, p + 2, BE16(len))
    ensures p + 4 <= |mem| && mem[p] == 0xFF && mem[p + 1] == marker && SegLen(mem, p + 2) == len
  {
    BE16RoundTrip(len);
    assert mem[p] == mem[p..p + 2][0] && mem[p + 1] == mem[p..p + 2][1];
  }

  lemma OneFilled(mem: seq<byte>, d: Debug, p: nat, id: int, size: nat, valid: nat)
    requires d.AcceptedId(id) && id in d.ids && size == |d.Data(id)|
    requires At(mem, p, [0xFF, AppxMarker(id)]) && At(mem, p + 2, BE16(U16(size + 2))) && p + size + 4 <= |mem|
    requires size + 4 <= valid < 0x1_0000_0000_0000_0000 && p + valid < |mem|
    ensures UpdateFrom(mem, d, p, valid) == UpdateFrom(Splice(mem, p + 4, d.Data(id)), d, p + 4 + size, valid - (size + 4))
  {
    hide At, BE16, AppxMarker, SegLen, Splice, U16, UpdateFrom, Debug.AcceptedId, Debug.Data;
    MarkerFacts(d, id);
    HeadBytes(mem, p, AppxMarker(id), U16(size + 2));
    UpdateGoes(mem, d, p, valid);
  }

  lemma FilledStep(mem: seq<byte>, at: nat, d: Debug, k: nat)
    requires k < |d.ids|
    ensures Filled(mem, at, d, k + 1) == Splice(Filled(mem, at, d, k), at + AppxSize(d, k) + 4, d.Data(d.ids[k]))
    ensures AppxSize(d, k + 1) == AppxSize(d, k) + 4 + |d.Data(d.ids[k])|
  {
  }

  /** The loop fills the segments one after the other. */
  lemma {:induction false} AllFilled(mem: seq<byte>, at: nat, d: Debug, new_: Debug, k: nat)
    requires new_.Accepted() && SameShape(d, new_) && k <= |d.ids|
    requires AppxAt(mem, at, d, |d.ids|, true) && at + AppxSize(d, |d.ids|) < |mem| < 0x1_0000_0000_0000_0000
    ensures AppxSize(new_, k) <= AppxSize(new_, |d.ids|) == AppxSize(d, |d.ids|)
    ensures |Filled(mem, at, new_, k)| == |mem|
    ensures UpdateFrom(Filled(mem, at, new_, k), new_, at + AppxSize(new_, k),
                       AppxSize(new_, |d.ids|) - AppxSize(new_, k))
         == Result(Updated, Filled(mem, at, new_, |d.ids|))
    decreases |d.ids| - k
  {
    hide At, Agree, BE16, U16, AppxAt, AppxMarker, AppxSize, Filled, UpdateFrom, Splice, Debug.AcceptedId;
    var n := |d.ids|;
    SameSizes(d, new_, n);
    SizesMonotone(new_, k, n);
    FilledInside(mem, at, new_, k);
    var m, p := Filled(mem, at, new_, k), at + AppxSize(new_, k);
    if k == n {
      NothingValid(m, new_, p);
    } else {
      var id := d.ids[k];
      SameSizes(d, new_, k);
      FilledStep(mem, at, new_, k);
      SizesMonotone(new_, k + 1, n);
      HeadAt(mem, at, d, n, k);
      AgreeSub(mem, m, p, |mem|, p, p + 2);
      AgreeSub(mem, m, p, |mem|, p + 2, p + 4);
      AtStable(mem, m, p, [0xFF, AppxMarker(id)]);
      AtStable(mem, m, p + 2, BE16(U16(|d.Data(id)| + 2)));
      OneFilled(m, new_, p, id, |d.Data(id)|, AppxSize(new_, n) - AppxSize(new_, k));
      AllFilled(mem, at, d, new_, k + 1);
    }
  }

  lemma NothingValid(mem: seq<byte>, d: Debug, p: nat)
    requires p < |mem|
    ensures UpdateFrom(mem, d, p, 0) == Result(Updated, mem)
  {
  }

  /** Filled segments are written segments. */
  lemma {:induction false} FilledAt(mem: seq<byte>, at: nat, d: Debug, new_: Debug, n: nat)
    requires SameShape(d, new_) && n <= |d.ids| && AppxAt(mem, at, d, n, true) && at + AppxSize(d, n) <= |mem|
    ensures |Filled(mem, at, new_, n)| == |mem| && AppxAt(Filled(mem, at, new_, n), at, new_, n, false)
  {
    hide At, BE16, U16, AppxMarker, Splice, Debug.Data;
    if n > 0 {
      var id, p := d.ids[n - 1], at + AppxSize(new_, n - 1);
      SameSizes(d, new_, n - 1);
      FilledAt(mem, at, d, new_, n - 1);
      FilledInside(mem, at, new_, n - 1);
      var m1, m2 := Filled(mem, at, new_, n - 1), Filled(mem, at, new_, n);
      HeadAt(mem, at, d, n, n - 1);
      HeadKept(mem, m1, p, [0xFF, AppxMarker(id)], BE16(U16(|d.Data(id)| + 2)), new_.Data(id));
      AppxMoved(m1, m2, 0, p, 0, at, new_, n - 1, false);
    }
  }

  lemma HeadKept(mem: seq<byte>, m1: seq<byte>, p: nat, head: seq<byte>, len: seq<byte>, data: seq<byte>)
    requires At(mem, p, head) && |head| == 2 == |len| && At(mem, p + 2, len) && Agree(mem, m1, p, |mem|)
    requires p + 4 + |data| <= |mem|
    ensures var m2 := Splice(m1, p + 4, data); At(m2, p, head) && At(m2, p + 2, len) && At(m2, p + 4, data)
  {
    var m2 := Splice(m1, p + 4, data);
    AtStable(mem, m2, p, head);
    AtStable(mem, m2, p + 2, len);
    SpliceAt(m1, p + 4, data);
  }

  /** The loop passes over APP1. */
  lemma App1Skipped(mem: seq<byte>, d: Debug, len: u16, valid: nat)
    requires d.Accepted() && At(mem, 2, [0xFF, 0xE1]) && At(mem, 4, BE16(len)) && len > 0
    requires 4 + len + valid < |mem|
    ensures UpdateFrom(mem, d, 2, valid) == UpdateFrom(mem, d, 4 + len, valid)
  {
    hide At, BE16, SegLen;
    HeadBytes(mem, 2, 0xE1, len);
    if valid == 0 {
      NothingValid(mem, d, 2);
      NothingValid(mem, d, 4 + len);
    }
  }

  /** The segments of a stream, when the debug segments' payloads are filled. */
  lemma SegmentsFilled(mem: seq<byte>, e: Option<Attributes>, d: Debug, new_: Debug, len: u16, offset: u32,
                       thumbLen: u32, gap: nat, pad: nat, at: nat)
    requires (e.Some? ==> Exif.Valid(e.value)) && at == AppxBase(2, e, gap) && SameShape(d, new_)
    requires SegmentsAt(mem, 2, e, Some(d), len, offset, thumbLen, gap, true, pad)
    ensures SegmentsAt(Filled(mem, at, new_, |d.ids|), 2, e, Some(new_), len, offset, thumbLen, gap, false, pad)
  {
    hide At, Agree, App1At, AppxAt, AppxSize, Filled, App1Size, Exif.Valid, BE16;
    var n := |d.ids|;
    var r := Filled(mem, at, new_, n);
    var x := at + AppxSize(d, n);
    SameSizes(d, new_, n);
    FilledInside(mem, at, new_, n);
    AtInside(mem, x, [0xFF, 0xEB] + BE16(U16(pad + 4)));
    FilledAt(mem, at, d, new_, n);
    if e.Some? {
      AgreeSub(mem, r, 0, at, 2, 2 + 2 + App1Size(e.value));
      App1Stable(mem, r, 2, e.value, len, offset, thumbLen);
    }
    AgreeSub(mem, r, x, |mem|, x, x + 4);
    AtStable(mem, r, x, [0xFF, 0xEB] + BE16(U16(pad + 4)));
  }

  lemma AssembledFilled(mem: seq<byte>, e: Option<Attributes>, d: Debug, new_: Debug, thumb: seq<byte>,
                        rest: nat, pad: nat, main: seq<byte>, at: nat, m: nat)
    requires (e.Some? ==> Exif.Valid(e.value)) && at == AppxBase(2, e, |thumb| + rest) && SameShape(d, new_)
    requires Assembled(mem, e, Some(d), true, thumb, rest, pad, main) && m == MainBase(2, e, Some(d), |thumb| + rest, pad)
    ensures Assembled(Filled(mem, at, new_, |d.ids|), e, Some(new_), false, thumb, rest, pad, main)
  {
    hide At, Agree, SegmentsAt, AppxSize, Filled, App1Size, Exif.Valid, BE16, U16, ThumbPlace, Zeros;
    var n, len := |d.ids|, if e.Some? then U16(App1Size(e.value) + (|thumb| + rest)) else 0;
    var r := Filled(mem, at, new_, n);
    SameSizes(d, new_, n);
    FilledInside(mem, at, new_, n);
    SegmentsFilled(mem, e, d, new_, len, ThumbPlace(e), |thumb|, |thumb| + rest, pad, at);
    AgreeSub(mem, r, 0, at, 0, 2);
    AtStable(mem, r, 0, [0xFF, 0xD8]);
    if e.Some? {
      var t := 2 + App1Bytes(e);
      AgreeSub(mem, r, 0, at, t, t + |thumb|);
      AtStable(mem, r, t, thumb);
      AgreeSub(mem, r, 0, at, t + |thumb|, t + |thumb| + rest);
      AtStable(mem, r, t + |thumb|, Zeros(rest));
    }
    AgreeSub(mem, r, at + AppxSize(d, n), |mem|, m, m + 2);
    AtStable(mem, r, m, [0, 0]);
    AgreeSub(mem, r, at + AppxSize(d, n), |mem|, m + 2, m + 2 + |main[2..]|);
    AtStable(mem, r, m + 2, main[2..]);
  }

  /** The run of UpdateDebugData: past the SOI and APP1, then through the debug segments. */
  lemma StreamUpdated(mem: seq<byte>, e: Option<Attributes>, d: Debug, new_: Debug, thumb: seq<byte>,
                      rest: nat, pad: nat, main: seq<byte>, at: nat, m: nat)
    requires (e.Some? ==> Exif.Valid(e.value) && App1Size(e.value) + |thumb| + rest <= JPEG_MAX_SEGMENT_SIZE)
    requires new_.Accepted() && SameShape(d, new_) && |mem| < 0x1_0000_0000_0000_0000
    requires Assembled(mem, e, Some(d), true, thumb, rest, pad, main)
    requires at == AppxBase(2, e, |thumb| + rest) && m == MainBase(2, e, Some(d), |thumb| + rest, pad)
    ensures Update(mem, Some(new_)) == Result(Updated, Filled(mem, at, new_, |d.ids|))
  {
    hide At, App1At, AppxAt, AppxSize, App1Size, Exif.Valid, BE16, ThumbPlace, Zeros, UpdateFrom, Debug.AcceptedId;
    var n := |d.ids|;
    SameSizes(d, new_, n);
    AtInside(mem, m + 2, main[2..]);
    TwoBytes(mem, 0, 0xFF, 0xD8);
    if e.Some? {
      var len := App1Size(e.value) + |thumb| + rest;
      App1Front(mem, 2, e.value, len, ThumbPlace(e), |thumb|);
      App1Sized(e.value);
      App1Skipped(mem, new_, len, AppxSize(new_, n));
    }
    AllFilled(mem, at, d, new_, 0);
    NothingFilled(mem, at, new_);
  }

  lemma NothingFilled(mem: seq<byte>, at: nat, d: Debug)
    ensures Filled(mem, at, d, 0) == mem && AppxSize(d, 0) == 0
  {
  }

  lemma TwoBytes(mem: seq<byte>, at: nat, a: byte, b: byte)
    requires At(mem, at, [a, b])
    ensures at + 2 <= |mem| && mem[at] == a && mem[at + 1] == b
  {
    assert mem[at] == mem[at..at + 2][0] && mem[at + 1] == mem[at..at + 2][1];
  }

  /**
    UpdateDebugData on a finished stream with reserved debug segments, with bytes of
    the same sizes: it succeeds, the stream is the one that would have been assembled
    with these bytes, and nothing but the payloads has changed.
    */
  lemma {:induction false} AssembledUpdated(mem: seq<byte>, e: Option<Attributes>, d: Debug, new_: Debug,
                                            thumb: seq<byte>, rest: nat, pad: nat, main: seq<byte>)
    requires (e.Some? ==> Exif.Valid(e.value) && App1Size(e.value) + |thumb| + rest <= JPEG_MAX_SEGMENT_SIZE)
    requires new_.Accepted() && SameShape(d, new_) && |mem| < 0x1_0000_0000_0000_0000
    requires Assembled(mem, e, Some(d), true, thumb, rest, pad, main)
    ensures var r := Update(mem, Some(new_));
      && r.outcome == Updated && |r.mem| == |mem|
      && Assembled(r.mem, e, Some(new_), false, thumb, rest, pad, main)
      && forall i | 0 <= i < |mem| && !InPayload(AppxBase(2, e, |thumb| + rest), new_, |new_.ids|, i) :: r.mem[i] == mem[i]
  {
    hide At, Agree, SegmentsAt, AppxSize, Filled, InPayload, App1Size, Exif.Valid, BE16, U16, ThumbPlace, Zeros, UpdateFrom;
    var gap, n := |thumb| + rest, |d.ids|;
    var at, m := AppxBase(2, e, gap), MainBase(2, e, Some(d), gap, pad);
    AssembledFilled(mem, e, d, new_, thumb, rest, pad, main, at, m);
    FilledInside(mem, at, new_, n);
    forall i | 0 <= i < |mem| && !InPayload(at, new_, n, i)
      ensures Filled(mem, at, new_, n)[i] == mem[i]
    {
      FilledElsewhere(mem, at, new_, n, i);
    }
    StreamUpdated(mem, e, d, new_, thumb, rest, pad, main, at, m);
  }

  // ----- Reserved and direct streams -----------------------------------------------------------------

  /** Two streams with the same debug segments written have the same payloads. */
  lemma {:induction false} SamePayload(m: seq<byte>, m': seq<byte>, at: nat, d: Debug, n: nat, i: nat)
    requires n <= |d.ids| && AppxAt(m, at, d, n, false) && AppxAt(m', at, d, n, false)
    requires InPayload(at, d, n, i)
    ensures i < |m| && i < |m'| && m[i] == m'[i]
  {
    hide BE16, AppxMarker;
    var p, data := at + AppxSize(d, n - 1), d.Data(d.ids[n - 1]);
    if p + 4 <= i < p + 4 + |data| {
      assert m[i] == m[p + 4..p + 4 + |data|][i - (p + 4)];
      assert m'[i] == m'[p + 4..p + 4 + |data|][i - (p + 4)];
    } else {
      SamePayload(m, m', at, d, n - 1, i);
    }
  }

  /**
    A stream with reserved debug segments, and one with the segments written, that agree outside the payloads:
    updating the first gives the second, byte for byte.
    */
  lemma {:induction false} UpdatedIsDirect(mem: seq<byte>, direct: seq<byte>, e: Option<Attributes>, d: Debug,
                                           new_: Debug, thumb: seq<byte>, rest: nat, pad: nat, main: seq<byte>)
    requires (e.Some? ==> Exif.Valid(e.value) && App1Size(e.value) + |thumb| + rest <= JPEG_MAX_SEGMENT_SIZE)
    requires new_.Accepted() && SameShape(d, new_) && |direct| == |mem| < 0x1_0000_0000_0000_0000
    requires Assembled(mem, e, Some(d), true, thumb, rest, pad, main)
    requires Assembled(direct, e, Some(new_), false, thumb, rest, pad, main)
    requires forall i | 0 <= i < |mem| && !InPayload(AppxBase(2, e, |thumb| + rest), new_, |new_.ids|, i) ::
      mem[i] == direct[i]
    ensures Update(mem, Some(new_)) == Result(Updated, direct)
  {
    hide App1At, AppxAt, App11At, AppxSize, InPayload, App1Size, App1Bytes, Exif.Valid, BE16, U16, ThumbPlace, Zeros, Update;
    var at, n := AppxBase(2, e, |thumb| + rest), |new_.ids|;
    AssembledUpdated(mem, e, d, new_, thumb, rest, pad, main);
    var r := Update(mem, Some(new_)).mem;
    forall i | 0 <= i < |mem|
      ensures r[i] == direct[i]
    {
      if InPayload(at, new_, n, i) {
        SamePayload(r, direct, at, new_, n, i);
      }
    }
  }
}
