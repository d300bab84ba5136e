/** Encoding with the debug segments only reserved and filling them afterwards, against encoding with their bytes. */
module DebugRuns {
  import opened AppMarker
  import opened Bytes
  import opened DebugUpdate
  import opened Exif
  import opened JpegEncoder
  import opened JpegStream
  import opened Tiff
  import opened Wrappers

  /** Equal but for the payloads of the debug segments at `at`. */
  ghost predicate SameBut(s: seq<byte>, t: seq<byte>, at: nat, d: Debug) {
    |s| == |t| && forall i | 0 <= i < |s| && !InPayload(at, d, |d.ids|, i) :: s[i] == t[i]
  }

  lemma SpliceSameBut(s: seq<byte>, t: seq<byte>, at: nat, d: Debug, p: nat, x: seq<byte>)
    requires SameBut(s, t, at, d)
    ensures SameBut(Splice(s, p, x), Splice(t, p, x), at, d)
  {
    hide InPayload;
  }

  lemma {:induction false} PayloadRange(at: nat, d: Debug, n: nat, i: int)
    requires n <= |d.ids| && InPayload(at, d, n, i)
    ensures at <= i < at + AppxSize(d, n)
  {
    if InPayload(at, d, n - 1, i) {
      PayloadRange(at, d, n - 1, i);
    }
  }

  lemma {:induction false} PayloadMoved(at: nat, d: Debug, n: nat, shift: nat, i: int)
    requires n <= |d.ids|
    ensures InPayload(at + shift, d, n, i + shift) <==> InPayload(at, d, n, i)
  {
    if n > 0 {
      PayloadMoved(at, d, n - 1, shift, i);
    }
  }

  // ----- The segments -----------------------------------------------------------------

  lemma {:induction false} ReservedAlike(mem: seq<byte>, at: nat, d: Debug, new_: Debug, n: nat)
    requires SameShape(d, new_) && n <= |d.ids|
    ensures AppxWritten(mem, at, d, n, true) == AppxWritten(mem, at, new_, n, true)
  {
    hide Splice, BE16, U16, AppxMarker, Debug.Data;
    if n > 0 {
      SameSizes(d, new_, n - 1);
      ReservedAlike(mem, at, d, new_, n - 1);
    }
  }

  lemma AppxSameBut(mem: seq<byte>, at: nat, d: Debug, new_: Debug)
    requires SameShape(d, new_)
    ensures SameBut(AppxWritten(mem, at, d, |d.ids|, true), AppxWritten(mem, at, new_, |d.ids|, false), at, new_)
  {
    hide AppxWritten, Filled, InPayload, AppxSize;
    var n := |d.ids|;
    ReservedAlike(mem, at, d, new_, n);
    ReservedThenFilled(mem, at, new_, n);
    var reserved := AppxWritten(mem, at, new_, n, true);
    FilledInside(reserved, at, new_, n);
    forall i | 0 <= i < |reserved| && !InPayload(at, new_, n, i)
      ensures reserved[i] == Filled(reserved, at, new_, n)[i]
    {
      FilledElsewhere(reserved, at, new_, n, i);
    }
  }

  lemma SegmentsSameBut(mem: seq<byte>, e: Option<Attributes>, d: Debug, new_: Debug, len: u16, offset: u32, gap: nat,
                        pad: nat, at: nat)
    requires (e.Some? ==> Exif.Valid(e.value)) && SameShape(d, new_) && at == AppxBase(2, e, gap)
    ensures SameBut(SegmentsWritten(mem, 2, e, Some(d), len, offset, gap, true, pad),
                    SegmentsWritten(mem, 2, e, Some(new_), len, offset, gap, false, pad), at, new_)
  {
    hide AppxWritten, App1Memory, App1Bytes, AppxSize, SameBut, Splice, Exif.Valid, BE16;
    var m1 := App1Memory(mem, 2, e, len, offset);
    var n := |d.ids|;
    SameSizes(d, new_, n);
    AppxSameBut(m1, at, d, new_);
    SpliceSameBut(AppxWritten(m1, at, d, n, true), AppxWritten(m1, at, new_, n, false), at, new_,
                  at + AppxSize(d, n), [0xFF, 0xEB] + BE16(U16(pad + 4)));
  }

  // ----- Finishing ---------------------------------------------------------------------

  /** The segments move up behind the thumbnail stream, and their payloads with them. */
  lemma ShiftedSameBut(s: seq<byte>, t: seq<byte>, at: nat, d: Debug, hi: nat, thumb: seq<byte>, len: u16)
    requires SameBut(s, t, at, d) && 8 <= at && at + AppxSize(d, |d.ids|) <= hi
    ensures SameBut(Splice(Splice(MovedUp(s, at, hi, |thumb|), 4, BE16(len)), at, thumb),
                    Splice(Splice(MovedUp(t, at, hi, |thumb|), 4, BE16(len)), at, thumb), at + |thumb|, d)
  {
    hide InPayload, AppxSize, BE16;
    var n, k := |d.ids|, |thumb|;
    var s1, t1 := MovedUp(s, at, hi, k), MovedUp(t, at, hi, k);
    forall i | 0 <= i < |s| && !InPayload(at + k, d, n, i) && !(at <= i < at + k)
      ensures s1[i] == t1[i]
    {
      if at + k <= i < hi + k {
        PayloadMoved(at, d, n, k, i - k);
      } else if InPayload(at, d, n, i) {
        PayloadRange(at, d, n, i);
      }
    }
  }

  lemma PlacedSameBut(s: seq<byte>, t: seq<byte>, at: nat, d: Debug, hi: nat, thumb: seq<byte>, len: u16)
    requires SameBut(s, t, at, d) && 8 <= at && at + AppxSize(d, |d.ids|) <= hi
    ensures SameBut(ThumbPlaced(s, at, hi, thumb, true, len, 0), ThumbPlaced(t, at, hi, thumb, true, len, 0), at + |thumb|, d)
  {
    hide SameBut, Splice, MovedUp, AppxSize, BE16, LE32;
    var s1, t1 := Splice(MovedUp(s, at, hi, |thumb|), 4, BE16(len)), Splice(MovedUp(t, at, hi, |thumb|), 4, BE16(len));
    ShiftedSameBut(s, t, at, d, hi, thumb, len);
    if |thumb| > 0 {
      SpliceSameBut(Splice(s1, at, thumb), Splice(t1, at, thumb), at + |thumb|, d, SizePlace(at), LE32(U32(|thumb|)));
    } else {
      NothingSpliced(s1, at, thumb);
      NothingSpliced(t1, at, thumb);
    }
  }

  lemma NothingSpliced(s: seq<byte>, at: nat, x: seq<byte>)
    requires x == []
    ensures Splice(s, at, x) == s
  {
  }

  /** A place that was kept free: nothing moves. */
  lemma KeptSameBut(s: seq<byte>, t: seq<byte>, at: nat, d: Debug, base: nat, hi: nat, thumb: seq<byte>, len: u16, rest: nat)
    requires SameBut(s, t, at, d)
    ensures SameBut(ThumbPlaced(s, base, hi, thumb, false, len, rest), ThumbPlaced(t, base, hi, thumb, false, len, rest), at, d)
  {
    hide SameBut, Splice, MovedUp, LE32, Zeros;
    var s2, t2 := s, t;
    if |thumb| > 0 {
      SpliceSameBut(s, t, at, d, base, thumb);
      s2, t2 := Splice(s, base, thumb), Splice(t, base, thumb);
      SpliceSameBut(s2, t2, at, d, SizePlace(base), LE32(U32(|thumb|)));
      s2, t2 := Splice(s2, SizePlace(base), LE32(U32(|thumb|))), Splice(t2, SizePlace(base), LE32(U32(|thumb|)));
    }
    SpliceSameBut(s2, t2, at, d, base + |thumb|, Zeros(rest));
  }

  lemma FinishedSameBut(s: seq<byte>, t: seq<byte>, at: nat, d: Debug, m: nat, n: nat, base: nat, thumb: Option<seq<byte>>,
                        shifts: bool, len: u16, rest: nat, at': nat)
    requires SameBut(s, t, at, d)
    requires if thumb.Some? && shifts
      then at == base >= 8 && rest == 0 && at + AppxSize(d, |d.ids|) <= m + n && at' == at + |thumb.value|
      else at' == at
    ensures SameBut(FinishedMemory(s, m, n, base, thumb, shifts, len, rest),
                    FinishedMemory(t, m, n, base, thumb, shifts, len, rest), at', d)
  {
    hide SameBut, Splice, ThumbPlaced, AppxSize;
    SpliceSameBut(s, t, at, d, m, [0, 0]);
    var s1, t1 := Splice(s, m, [0, 0]), Splice(t, m, [0, 0]);
    if thumb.Some? {
      if shifts {
        PlacedSameBut(s1, t1, at, d, m + n, thumb.value, len);
      } else {
        KeptSameBut(s1, t1, at, d, base, m + n, thumb.value, len, rest);
      }
      s1, t1 := ThumbPlaced(s1, base, m + n, thumb.value, shifts, len, rest),
                ThumbPlaced(t1, base, m + n, thumb.value, shifts, len, rest);
    }
    SpliceSameBut(s1, t1, at', d, 0, [0xFF, 0xD8]);
  }

  // ----- Whole runs ----------------------------------------------------------------------

  /** What every run of the encoder keeps to: the thumbnail stream's place is kept free for its whole size, or not at all. */
  ghost predicate Fits(e: Option<Attributes>, thumb: seq<byte>, gap: nat, rest: nat) {
    && (e.Some? ==> Exif.Valid(e.value) && App1Size(e.value) + |thumb| + rest <= JPEG_MAX_SEGMENT_SIZE)
    && (gap == 0 || gap == MaxThumb(e)) && (gap > 0 ==> |thumb| <= gap) && rest == (if gap == 0 then 0 else gap - |thumb|)
    && (e.None? || !e.value.enableThumb ==> thumb == [])
  }

  lemma RunSameBut(mem: seq<byte>, e: Option<Attributes>, d: Debug, new_: Debug, stream: seq<byte>, m: nat, n: nat,
                   thumb: seq<byte>, gap: nat, rest: nat, pad: nat, at: nat)
    requires Fits(e, thumb, gap, rest) && SameShape(d, new_) && m == MainBase(2, e, Some(d), gap, pad)
    requires at == AppxBase(2, e, |thumb| + rest)
    ensures SameBut(RunMemory(mem, e, Some(d), true, stream, m, n, thumb, gap, rest, pad),
                    RunMemory(mem, e, Some(new_), false, stream, m, n, thumb, gap, rest, pad), at, new_)
  {
    hide SameBut, SegmentsWritten, FinishedMemory, Splice, App1Size, AppxSize, Exif.Valid, ThumbPlace, U16;
    var at0 := AppxBase(2, e, gap);
    SameSizes(d, new_, |d.ids|);
    SegmentsSameBut(mem, e, d, new_, App1Length(e, gap), ThumbPlace(e), gap, pad, at0);
    var s := SegmentsWritten(mem, 2, e, Some(d), App1Length(e, gap), ThumbPlace(e), gap, true, pad);
    var t := SegmentsWritten(mem, 2, e, Some(new_), App1Length(e, gap), ThumbPlace(e), gap, false, pad);
    SpliceSameBut(s, t, at0, new_, m, stream);
    if e.Some? {
      App1Sized(e.value);
    }
    FinishedSameBut(Splice(s, m, stream), Splice(t, m, stream), at0, new_, m, n, 2 + App1Bytes(e),
                    if e.Some? && e.value.enableThumb then Some(thumb) else None, gap != MaxThumb(e),
                    App1Length(e, |thumb|), rest, at);
  }

  /**
    Two runs of the encoder on the same memory with the same streams: one with its debug segments reserved for
    the record `d`, one with the bytes of a record of the same shape. UpdateDebugData with these bytes turns the
    first run's memory into the second's, byte for byte, wherever the thumbnail stream went.
    */
  lemma {:induction false} ReservedRunUpdated(mem: seq<byte>, e: Option<Attributes>, d: Debug, new_: Debug,
                                              stream: seq<byte>, m: nat, main: seq<byte>, thumb: seq<byte>, gap: nat,
                                              rest: nat, pad: nat)
    requires Fits(e, thumb, gap, rest) && new_.Accepted() && SameShape(d, new_)
    requires m == MainBase(2, e, Some(d), gap, pad) && |mem| < 0x1_0000_0000_0000_0000
    requires var reserved := RunMemory(mem, e, Some(d), true, stream, m, |main|, thumb, gap, rest, pad);
      Assembled(reserved, e, Some(d), true, thumb, rest, pad, main)
    requires var direct := RunMemory(mem, e, Some(new_), false, stream, m, |main|, thumb, gap, rest, pad);
      Assembled(direct, e, Some(new_), false, thumb, rest, pad, main)
    ensures Update(RunMemory(mem, e, Some(d), true, stream, m, |main|, thumb, gap, rest, pad), Some(new_))
         == Result(Updated, RunMemory(mem, e, Some(new_), false, stream, m, |main|, thumb, gap, rest, pad))
  {
    hide Assembled, RunMemory, MainBase, Update, InPayload, Exif.Valid, App1Size, App1Bytes;
    RunSameBut(mem, e, d, new_, stream, m, |main|, thumb, gap, rest, pad, AppxBase(2, e, |thumb| + rest));
    var reserved := RunMemory(mem, e, Some(d), true, stream, m, |main|, thumb, gap, rest, pad);
    var direct := RunMemory(mem, e, Some(new_), false, stream, m, |main|, thumb, gap, rest, pad);
    assert |reserved| == |mem| by {
      RunLength(mem, e, Some(d), true, stream, m, |main|, thumb, gap, rest, pad);
    }
    UpdatedIsDirect(reserved, direct, e, d, new_, thumb, rest, pad, main);
  }

  lemma RunLength(mem: seq<byte>, e: Option<Attributes>, d: Option<Debug>, reserved: bool, stream: seq<byte>, m: nat,
                  n: nat, thumb: seq<byte>, gap: nat, rest: nat, pad: nat)
    requires e.Some? ==> Exif.Valid(e.value)
    ensures |RunMemory(mem, e, d, reserved, stream, m, n, thumb, gap, rest, pad)| == |mem|
  {
    hide Exif.Valid, App1Size, IfdWritten, Zeroth, ThumbFields, IfdSize, BE16, ThumbPlace, App1Length;
    var m1 := App1Memory(mem, 2, e, App1Length(e, gap), ThumbPlace(e));
    assert |m1| == |mem|;
  }

  // ----- Two encoders ----------------------------------------------------------------------

  /** Two encoders that differ in nothing but how they treat debug segments, with the same memory to write to. */
  ghost predicate Alike(a: ExynosJpegEncoderForCamera, b: ExynosJpegEncoderForCamera)
    reads a, a.app, a.buf, a.phwjpeg4thumb, b, b.app, b.buf, b.phwjpeg4thumb
  {
    && a.bufAddr == b.bufAddr && a.noStreamBaseAlign == b.noStreamBaseAlign && a.buf[..] == b.buf[..]
    && a.width == b.width && a.height == b.height && a.thumbWidth == b.thumbWidth && a.thumbHeight == b.thumbHeight
    && a.ThumbSource(true) == b.ThumbSource(true) && a.thumbQuality == b.thumbQuality
    && a.phwjpeg4thumb.outputs == b.phwjpeg4thumb.outputs && a.app.szApp11 == b.app.szApp11
    && a.thumbJpeg.Length == b.thumbJpeg.Length && a.hwfc && !b.hwfc
  }

  /** Both make the same of the same streams. */
  lemma EmbedsAlike(a: ExynosJpegEncoderForCamera, b: ExynosJpegEncoderForCamera, size: nat, e: Option<Attributes>,
                    d: Debug, new_: Debug, szApp11: nat, stream: seq<byte>, outputs: seq<Option<seq<byte>>>,
                    given: seq<byte>, scaled: bool)
    requires Alike(a, b) && Supported(e) && SameShape(d, new_)
    ensures a.Embeds(size, e, Some(d), szApp11, stream, outputs, given, scaled)
         == b.Embeds(size, e, Some(new_), szApp11, stream, outputs, given, scaled)
    ensures AppxBytes(Some(d)) == AppxBytes(Some(new_))
  {
    hide Exif.Valid, App1Size, AppxSize, Obtained, Cut, App11Pad, App1Bytes, ThumbTooSmall;
    SameSizes(d, new_, |d.ids|);
  }

  /** What is embedded leaves room in APP1. */
  lemma EmbedsFits(a: ExynosJpegEncoderForCamera, size: nat, e: Option<Attributes>, d: Option<Debug>, szApp11: nat,
                   stream: seq<byte>, outputs: seq<Option<seq<byte>>>, given: seq<byte>, scaled: bool, thumb: seq<byte>,
                   gap: nat, rest: nat)
    requires Supported(e) && a.Embeds(size, e, d, szApp11, stream, outputs, given, scaled) == Some(thumb)
    requires gap == a.Reserve(size, e) && rest == if gap == 0 then 0 else gap - |thumb|
    ensures Fits(e, thumb, gap, rest)
  {
    hide Exif.Valid, App1Size, Obtained, Cut, ThumbTooSmall;
    hide ExynosJpegEncoderForCamera.Compresses, ExynosJpegEncoderForCamera.MainPlace;
  }

  lemma PlacesAlike(e: Option<Attributes>, d: Debug, new_: Debug, gap: nat, pad: nat)
    requires (e.Some? ==> Exif.Valid(e.value)) && SameShape(d, new_)
    ensures App11Base(2, e, Some(d), gap) == App11Base(2, e, Some(new_), gap)
    ensures MainBase(2, e, Some(d), gap, pad) == MainBase(2, e, Some(new_), gap, pad)
  {
    hide Exif.Valid, App1Bytes, AppxSize;
    SameSizes(d, new_, |d.ids|);
  }

  /**
    A stream encoded with reserved debug segments, and another one with their bytes: with the same streams from the
    hardware both calls succeed or both fail, and UpdateDebugData makes the first stream the second, byte for byte.
    */
  method EncodeBothWays(a: ExynosJpegEncoderForCamera, b: ExynosJpegEncoderForCamera, size: nat, e: Option<Attributes>,
                        d: Debug, new_: Debug, stream: seq<byte>, given: seq<byte>, scaled: bool)
    returns (done: bool, r: Outcome)
    requires a.Valid() && b.Valid() && Alike(a, b) && Supported(e)
    requires a.buf.Length < 0x1_0000_0000_0000_0000 && size <= a.buf.Length
    requires {a, a.app, a.buf, a.thumbJpeg, a.phwjpeg4thumb} !! {b, b.app, b.buf, b.thumbJpeg, b.phwjpeg4thumb}
    requires d.Accepted() && new_.Accepted() && SameShape(d, new_)
    requires 4 < |stream| && |given| <= a.thumbJpeg.Length
    requires a.phwjpeg4thumb.Fits(a.thumbJpeg.Length) && b.phwjpeg4thumb.Fits(b.thumbJpeg.Length)
    modifies a`streamSize, a.app, a.buf, a.phwjpeg4thumb, a.thumbJpeg
    modifies b`streamSize, b.app, b.buf, b.phwjpeg4thumb, b.thumbJpeg
    ensures done
       <==> Cut(stream) != []
            && old(a.Embeds(size, e, Some(d), a.app.szApp11, stream, a.phwjpeg4thumb.outputs, given, scaled)).Some?
    ensures done ==> r == Updated && a.buf[..] == b.buf[..]
  {
    hide Exif.Valid, ExynosJpegEncoderForCamera.Embeds, ThumbnailCompressor.Fits, Cut, RunMemory, Assembled, CutAtEoi;
    hide App1Size, App1Bytes, AppxSize, MainBase, App11Base, App11Pad, Debug.Accepted, ThumbnailFrom, StreamLength;
    ghost var mem, szApp11, outputs := a.buf[..], a.app.szApp11, a.phwjpeg4thumb.outputs;
    EmbedsAlike(a, b, size, e, d, new_, szApp11, stream, outputs, given, scaled);
    r := Failed;
    var sizeA, sizeB;
    ghost var main, thumb, gap, rest, pad;
    ghost var main', thumb', gap', rest', pad';
    sizeA, main, thumb, gap, rest, pad := a.Encode(size, e, Some(d), stream, given, scaled);
    sizeB, main', thumb', gap', rest', pad' := b.Encode(size, e, Some(new_), stream, given, scaled);
    done := sizeA >= 0 && |Cut(stream)| > 0;
    if done {
      PlacesAlike(e, d, new_, gap, pad);
      EmbedsFits(a, size, e, Some(d), szApp11, stream, outputs, given, scaled, thumb, gap, rest);
      ReservedRunUpdated(mem, e, d, new_, stream, a.app.mainBase, main, thumb, gap, rest, pad);
      r := UpdateDebugData(a.buf, Some(new_));
    }
  }
}
