/** What a finished camera stream looks like in memory, and how it gets there. */
module JpegStream {
  import opened Bytes
  import opened Exif
  import opened Tiff
  import opened TiffReader
  import opened AppMarker
  import IfdWriter
  import opened Wrappers

  // ----- The segments in memory -------------------------------------------------------

  /** APP1 at `at`: marker, length, Exif header, and its directories. */
  ghost predicate App1At(mem: seq<byte>, at: nat, e: Attributes, len: u16, offset: u32, thumbLen: u32)
    requires Exif.Valid(e)
  {
    && At(mem, at, [0xFF, 0xE1]) && At(mem, at + 2, BE16(len))
    && At(mem, at + 4, EXIF_IDENTIFIER) && At(mem, at + 10, TIFF_HEADER)
    && LaidIfd(mem, at + 10, at + 18, Zeroth(e), if e.enableThumb then U32(8 + IfdSize(Zeroth(e))) else 0)
    && (e.enableThumb ==>
          LaidIfd(mem, at + 10, at + 18 + IfdSize(Zeroth(e)), ThumbFields(e, offset, thumbLen), 0))
  }

  lemma App1Front(mem: seq<byte>, at: nat, e: Attributes, len: u16, offset: u32, thumbLen: u32)
    requires Exif.Valid(e) && App1At(mem, at, e, len, offset, thumbLen)
    ensures At(mem, at, [0xFF, 0xE1]) && At(mem, at + 2, BE16(len))
  {
    hide At, BE16, Exif.Valid, U32;
  }

  /** The first `n` debug segments at `at`; their bytes too, unless only reserved. */
  ghost predicate AppxAt(mem: seq<byte>, at: nat, d: Debug, n: nat, reserved: bool)
    requires n <= |d.ids|
  {
    n == 0 ||
    var id, p := d.ids[n - 1], at + AppxSize(d, n - 1);
    && AppxAt(mem, at, d, n - 1, reserved)
    && At(mem, p, [0xFF, AppxMarker(id)]) && At(mem, p + 2, BE16(U16(|d.Data(id)| + 2)))
    && p + 4 + |d.Data(id)| <= |mem|
    && (!reserved ==> At(mem, p + 4, d.Data(id)))
  }

  ghost predicate DebugAt(mem: seq<byte>, at: nat, d: Option<Debug>, reserved: bool) {
    d.Some? ==> AppxAt(mem, at, d.value, |d.value.ids|, reserved)
  }

  ghost predicate App11At(mem: seq<byte>, at: nat, pad: nat) {
    At(mem, at, [0xFF, 0xEB] + BE16(U16(pad + 4))) && at + 6 + pad <= |mem|
  }

  // ----- Stores elsewhere do not disturb them --------------------------------------------

  lemma App1Stable(mem: seq<byte>, new_: seq<byte>, at: nat, e: Attributes, len: u16, offset: u32, thumbLen: u32)
    requires Exif.Valid(e) && App1At(mem, at, e, len, offset, thumbLen)
    requires Agree(mem, new_, at, at + 2 + App1Size(e))
    ensures App1At(new_, at, e, len, offset, thumbLen)
  {
    hide LaidIfd, IfdSize, Zeroth, ThumbFields, Exif.Valid, BE16, At;
    AtStable(mem, new_, at, [0xFF, 0xE1]);
    AtStable(mem, new_, at + 2, BE16(len));
    AtStable(mem, new_, at + 4, EXIF_IDENTIFIER);
    AtStable(mem, new_, at + 10, TIFF_HEADER);
    LaidIfdStable(mem, new_, at + 10, at + 18, Zeroth(e), if e.enableThumb then U32(8 + IfdSize(Zeroth(e))) else 0);
    if e.enableThumb {
      ThumbSize(e, offset, thumbLen);
      LaidIfdStable(mem, new_, at + 10, at + 18 + IfdSize(Zeroth(e)), ThumbFields(e, offset, thumbLen), 0);
    }
  }

  /** Bytes [lo, hi) of `mem` are found `shift` further on in `new_`. */
  ghost predicate Moved(mem: seq<byte>, new_: seq<byte>, lo: nat, hi: nat, shift: nat) {
    |new_| == |mem| && hi + shift <= |mem| && forall i | lo <= i < hi :: new_[i + shift] == mem[i]
  }

  lemma AtMoved(mem: seq<byte>, new_: seq<byte>, lo: nat, hi: nat, shift: nat, at: nat, d: seq<byte>)
    requires Moved(mem, new_, lo, hi, shift) && At(mem, at, d) && lo <= at && at + |d| <= hi
    ensures At(new_, at + shift, d)
  {
    assert forall k | 0 <= k < |d| :: d[k] == mem[at + k] == new_[at + k + shift];
  }

  lemma {:induction false} AppxMoved(mem: seq<byte>, new_: seq<byte>, lo: nat, hi: nat, shift: nat, at: nat, d: Debug,
                                     n: nat, reserved: bool)
    requires n <= |d.ids| && AppxAt(mem, at, d, n, reserved)
    requires Moved(mem, new_, lo, hi, shift) && lo <= at && at + AppxSize(d, n) <= hi
    ensures AppxAt(new_, at + shift, d, n, reserved)
  {
    hide At, BE16, AppxMarker;
    if n > 0 {
      var id, p := d.ids[n - 1], at + AppxSize(d, n - 1);
      AppxMoved(mem, new_, lo, hi, shift, at, d, n - 1, reserved);
      AtMoved(mem, new_, lo, hi, shift, p, [0xFF, AppxMarker(id)]);
      AtMoved(mem, new_, lo, hi, shift, p + 2, BE16(U16(|d.Data(id)| + 2)));
      if !reserved {
        AtMoved(mem, new_, lo, hi, shift, p + 4, d.Data(id));
      }
    }
  }

  lemma DebugMoved(mem: seq<byte>, new_: seq<byte>, lo: nat, hi: nat, shift: nat,
                   at: nat, d: Option<Debug>, reserved: bool)
    requires DebugAt(mem, at, d, reserved)
    requires Moved(mem, new_, lo, hi, shift) && lo <= at && at + AppxBytes(d) <= hi
    ensures DebugAt(new_, at + shift, d, reserved)
  {
    hide AppxAt;
    if d.Some? {
      AppxMoved(mem, new_, lo, hi, shift, at, d.value, |d.value.ids|, reserved);
    }
  }

  // ----- What the segment writer leaves in memory ------------------------------------------

  lemma App1HeadAt(mem: seq<byte>, at: nat, len: u16)
    requires at + 18 <= |mem|
    ensures var r := App1Head(mem, at, Some(len));
      && |r| == |mem| && Agree(mem, r, 0, at) && Agree(mem, r, at + 18, |mem|)
      && At(r, at, [0xFF, 0xE1]) && At(r, at + 2, BE16(len))
      && At(r, at + 4, EXIF_IDENTIFIER) && At(r, at + 10, TIFF_HEADER)
  {
    hide BE16;
    var m1 := Splice(mem, at, [0xFF, 0xE1]);
    var m2 := Splice(m1, at + 2, BE16(len));
    var m3 := Splice(m2, at + 4, EXIF_IDENTIFIER);
    var m4 := Splice(m3, at + 10, TIFF_HEADER);
    SpliceAt(mem, at, [0xFF, 0xE1]);
    SpliceAt(m1, at + 2, BE16(len));
    SpliceAt(m2, at + 4, EXIF_IDENTIFIER);
    SpliceAt(m3, at + 10, TIFF_HEADER);
    AtStable(m1, m4, at, [0xFF, 0xE1]);
    AtStable(m2, m4, at + 2, BE16(len));
    AtStable(m3, m4, at + 4, EXIF_IDENTIFIER);
  }

  /** The four pieces in front of the directories survive writes behind them. */
  lemma HeadStable(mem: seq<byte>, new_: seq<byte>, at: nat, len: u16)
    requires At(mem, at, [0xFF, 0xE1]) && At(mem, at + 2, BE16(len))
    requires At(mem, at + 4, EXIF_IDENTIFIER) && At(mem, at + 10, TIFF_HEADER)
    requires Agree(mem, new_, at, at + 18)
    ensures At(new_, at, [0xFF, 0xE1]) && At(new_, at + 2, BE16(len))
    ensures At(new_, at + 4, EXIF_IDENTIFIER) && At(new_, at + 10, TIFF_HEADER)
  {
    hide BE16;
    AtStable(mem, new_, at, [0xFF, 0xE1]);
    AtStable(mem, new_, at + 2, BE16(len));
    AtStable(mem, new_, at + 4, EXIF_IDENTIFIER);
    AtStable(mem, new_, at + 10, TIFF_HEADER);
  }

  lemma DirectoriesEncodable(e: Attributes, offset: u32, thumbLen: u32)
    requires Exif.Valid(e)
    ensures Encodable(Zeroth(e)) && |Zeroth(e)| < 0x1_0000
    ensures Encodable(ThumbFields(e, offset, thumbLen)) && |ThumbFields(e, offset, thumbLen)| < 0x1_0000
    ensures IfdSize(ThumbFields(e, offset, thumbLen)) == 78
  {
    hide Encodable, Readable, ThumbFields, Zeroth, Exif.Valid, IfdSize;
    ZerothReadable(e);
    ReadableEncodable(Zeroth(e), 2);
    ThumbReadable(e, offset, thumbLen);
    ReadableEncodable(ThumbFields(e, offset, thumbLen), 0);
    ThumbSize(e, offset, thumbLen);
    Bounds(e);
  }

  lemma App1WrittenAt(mem: seq<byte>, at: nat, e: Attributes, len: u16, offset: u32)
    requires Exif.Valid(e) && at + 2 + App1Size(e) <= |mem|
    ensures var r := App1Written(mem, at, e, len, offset);
      && |r| == |mem| && App1At(r, at, e, len, offset, 0)
      && Agree(mem, r, 0, at) && Agree(mem, r, at + 2 + App1Size(e), |mem|)
  {
    hide At, LaidIfd, IfdSize, IfdWritten, Zeroth, ThumbFields, App1Head, Encodable, Exif.Valid, BE16, U32;
    var m1 := App1Head(mem, at, Some(len));
    App1HeadAt(mem, at, len);
    DirectoriesEncodable(e, offset, 0);
    IfdWrittenLaid(m1, at + 10, at + 18, Zeroth(e), e.enableThumb);
    var m2 := IfdWritten(m1, at + 10, at + 18, Zeroth(e), e.enableThumb);
    HeadStable(m1, m2, at, len);
    if e.enableThumb {
      var first := at + 18 + IfdSize(Zeroth(e));
      IfdWrittenLaid(m2, at + 10, first, ThumbFields(e, offset, 0), false);
      var m3 := IfdWritten(m2, at + 10, first, ThumbFields(e, offset, 0), false);
      HeadStable(m2, m3, at, len);
      LaidIfdStable(m2, m3, at + 10, at + 18, Zeroth(e), U32(first - (at + 10)));
    }
  }

  lemma {:induction false} AppxWrittenAt(mem: seq<byte>, at: nat, d: Debug, n: nat, reserved: bool)
    requires n <= |d.ids| && at + AppxSize(d, n) <= |mem|
    ensures var r := AppxWritten(mem, at, d, n, reserved);
      |r| == |mem| && AppxAt(r, at, d, n, reserved)
      && Agree(mem, r, 0, at) && Agree(mem, r, at + AppxSize(d, n), |mem|)
  {
    hide At, BE16, AppxMarker, AppxStep;
    if n > 0 {
      var id, p := d.ids[n - 1], at + AppxSize(d, n - 1);
      var q := AppxWritten(mem, at, d, n - 1, reserved);
      AppxWrittenAt(mem, at, d, n - 1, reserved);
      AppxStepAt(q, p, id, d.Data(id), reserved);
      AppxMoved(q, AppxStep(q, p, id, d.Data(id), reserved), 0, p, 0, at, d, n - 1, reserved);
    }
  }

  lemma AppxStepAt(mem: seq<byte>, p: nat, id: int, data: seq<byte>, reserved: bool)
    requires p + 4 + |data| <= |mem|
    ensures var r := AppxStep(mem, p, id, data, reserved);
      && |r| == |mem| && At(r, p, [0xFF, AppxMarker(id)]) && At(r, p + 2, BE16(U16(|data| + 2)))
      && (!reserved ==> At(r, p + 4, data))
      && Agree(mem, r, 0, p) && Agree(mem, r, p + 4 + |data|, |mem|)
  {
    hide BE16, AppxMarker;
    var head, len := [0xFF, AppxMarker(id)], BE16(U16(|data| + 2));
    var m1 := Splice(mem, p, head);
    var m2 := Splice(m1, p + 2, len);
    var r := AppxStep(mem, p, id, data, reserved);
    SpliceAt(mem, p, head);
    SpliceAt(m1, p + 2, len);
    AtStable(m1, r, p, head);
    AtStable(m2, r, p + 2, len);
    if !reserved {
      SpliceAt(m2, p + 4, data);
    }
  }

  // ----- All segments together -----------------------------------------------------------------

  /** APP1 at `at`, a gap for the thumbnail stream, the debug segments, APP11. */
  ghost predicate SegmentsAt(mem: seq<byte>, at: nat, e: Option<Attributes>, d: Option<Debug>, len: u16, offset: u32,
                             thumbLen: u32, gap: nat, reserved: bool, pad: nat)
    requires e.Some? ==> Exif.Valid(e.value)
  {
    && (e.Some? ==> App1At(mem, at, e.value, len, offset, thumbLen))
    && DebugAt(mem, AppxBase(at, e, gap), d, reserved)
    && (e.Some? || d.Some? ==> App11At(mem, App11Base(at, e, d, gap), pad))
  }

  function AppxBase(at: nat, e: Option<Attributes>, gap: nat): nat
    requires e.Some? ==> Exif.Valid(e.value)
  {
    at + App1Bytes(e) + gap
  }

  function App11Base(at: nat, e: Option<Attributes>, d: Option<Debug>, gap: nat): nat
    requires e.Some? ==> Exif.Valid(e.value)
  {
    AppxBase(at, e, gap) + AppxBytes(d)
  }

  /** Where the main stream starts: its first two bytes end APP11, or they are the SOI itself. */
  function MainBase(at: nat, e: Option<Attributes>, d: Option<Debug>, gap: nat, pad: nat): int
    requires e.Some? ==> Exif.Valid(e.value)
  {
    App11Base(at, e, d, gap) + if e.Some? || d.Some? then pad + 4 else -2
  }

  /** What the writer stores: APP1, the debug segments, APP11. */
  function SegmentsWritten(mem: seq<byte>, at: nat, e: Option<Attributes>, d: Option<Debug>, len: u16, offset: u32,
                           gap: nat, reserved: bool, pad: nat): seq<byte>
    requires e.Some? ==> Exif.Valid(e.value)
  {
    App11Memory(AppxMemory(App1Memory(mem, at, e, len, offset), AppxBase(at, e, gap), d, reserved),
                App11Base(at, e, d, gap), e.Some? || d.Some?, pad)
  }

  lemma {:induction false} WrittenSegments(mem: seq<byte>, at: nat, e: Option<Attributes>, d: Option<Debug>, len: u16,
                                           offset: u32, gap: nat, reserved: bool, pad: nat)
    requires e.Some? ==> Exif.Valid(e.value)
    requires App11Base(at, e, d, gap) + 6 + pad <= |mem|
    ensures var r := SegmentsWritten(mem, at, e, d, len, offset, gap, reserved, pad);
      && |r| == |mem| && SegmentsAt(r, at, e, d, len, offset, 0, gap, reserved, pad)
  {
    hide At, App1At, App1Written, AppxAt, AppxWritten, AppxSize, App1Size, Exif.Valid, BE16;
    var m1 := App1Memory(mem, at, e, len, offset);
    var p := AppxBase(at, e, gap);
    var m2 := AppxMemory(m1, p, d, reserved);
    var x := App11Base(at, e, d, gap);
    var any := e.Some? || d.Some?;
    var m3 := App11Memory(m2, x, any, pad);
    if e.Some? {
      App1WrittenAt(mem, at, e.value, len, offset);
    }
    if d.Some? {
      AppxWrittenAt(m1, p, d.value, |d.value.ids|, reserved);
    }
    if any {
      SpliceAt(m2, x, [0xFF, 0xEB] + BE16(U16(pad + 4)));
    }
    if e.Some? {
      App1Stable(m1, m3, at, e.value, len, offset, 0);
    }
    if d.Some? {
      AppxMoved(m2, m3, p, x, 0, p, d.value, |d.value.ids|, reserved);
    }
  }

  /** Stores into the gap or behind APP11's length field leave the segments alone. */
  lemma SegmentsStable(mem: seq<byte>, new_: seq<byte>, at: nat, e: Option<Attributes>, d: Option<Debug>, len: u16,
                       offset: u32, thumbLen: u32, gap: nat, reserved: bool, pad: nat)
    requires e.Some? ==> Exif.Valid(e.value)
    requires SegmentsAt(mem, at, e, d, len, offset, thumbLen, gap, reserved, pad)
    requires Agree(mem, new_, at, at + App1Bytes(e))
    requires var x := App11Base(at, e, d, gap);
      Agree(mem, new_, AppxBase(at, e, gap), if e.Some? || d.Some? then x + 4 else x)
    ensures SegmentsAt(new_, at, e, d, len, offset, thumbLen, gap, reserved, pad)
  {
    hide At, App1At, AppxAt, AppxSize, App1Size, Exif.Valid, BE16;
    var p, x := AppxBase(at, e, gap), App11Base(at, e, d, gap);
    if e.Some? {
      App1Stable(mem, new_, at, e.value, len, offset, thumbLen);
    }
    if d.Some? {
      AppxInside(mem, p, d.value, |d.value.ids|, reserved);
      AppxMoved(mem, new_, p, x, 0, p, d.value, |d.value.ids|, reserved);
    }
    if e.Some? || d.Some? {
      AtStable(mem, new_, x, [0xFF, 0xEB] + BE16(U16(pad + 4)));
    }
  }

  lemma {:induction false} AppxInside(mem: seq<byte>, at: nat, d: Debug, n: nat, reserved: bool)
    requires n <= |d.ids| && AppxAt(mem, at, d, n, reserved)
    ensures n > 0 ==> at + AppxSize(d, n) <= |mem|
  {
  }

  /** APPx and APP11 moved to make room for a thumbnail stream behind APP1. */
  lemma SegmentsMoved(mem: seq<byte>, new_: seq<byte>, at: nat, e: Option<Attributes>, d: Option<Debug>, len: u16,
                      offset: u32, hi: nat, gap: nat, shift: nat, reserved: bool, pad: nat)
    requires e.Some? && Exif.Valid(e.value)
    requires SegmentsAt(mem, at, e, d, len, offset, 0, gap, reserved, pad)
    requires Agree(mem, new_, 0, AppxBase(at, e, gap)) && Moved(mem, new_, AppxBase(at, e, gap), hi, shift)
    requires App11Base(at, e, d, gap) + 4 + pad + 2 <= hi
    ensures SegmentsAt(new_, at, e, d, len, offset, 0, gap + shift, reserved, pad)
  {
    hide At, App1At, AppxAt, AppxSize, App1Size, Exif.Valid, BE16;
    var p, x := AppxBase(at, e, gap), App11Base(at, e, d, gap);
    App1Stable(mem, new_, at, e.value, len, offset, 0);
    DebugMoved(mem, new_, p, hi, shift, p, d, reserved);
    AtMoved(mem, new_, p, hi, shift, x, [0xFF, 0xEB] + BE16(U16(pad + 4)));
  }

  /** UpdateApp1Size: another length in front of the same directories. */
  lemma LengthPatched(mem: seq<byte>, at: nat, e: Attributes, len: u16, newLen: u16, offset: u32, thumbLen: u32)
    requires Exif.Valid(e) && App1At(mem, at, e, len, offset, thumbLen)
    ensures App1At(Splice(mem, at + 2, BE16(newLen)), at, e, newLen, offset, thumbLen)
  {
    hide LaidIfd, IfdSize, Zeroth, ThumbFields, Exif.Valid, BE16;
    var r := Splice(mem, at + 2, BE16(newLen));
    AtStable(mem, r, at, [0xFF, 0xE1]);
    SpliceAt(mem, at + 2, BE16(newLen));
    AtStable(mem, r, at + 4, EXIF_IDENTIFIER);
    AtStable(mem, r, at + 10, TIFF_HEADER);
    LaidInside(mem, at + 10, at + 18, Zeroth(e), if e.enableThumb then U32(8 + IfdSize(Zeroth(e))) else 0);
    LaidIfdStable(mem, r, at + 10, at + 18, Zeroth(e), if e.enableThumb then U32(8 + IfdSize(Zeroth(e))) else 0);
    if e.enableThumb {
      var first := at + 18 + IfdSize(Zeroth(e));
      LaidIfdStable(mem, r, at + 10, first, ThumbFields(e, offset, thumbLen), 0);
    }
  }

  lemma LaidInside(mem: seq<byte>, base: nat, at: nat, fs: seq<Field>, next: u32)
    requires LaidIfd(mem, base, at, fs, next)
    ensures at + IfdSize(fs) <= |mem|
  {
  }

  /** Finalize: the length of the thumbnail stream stored into the 1st directory's last entry. */
  lemma ThumbLengthPatched(mem: seq<byte>, base: nat, at: nat, e: Attributes, offset: u32, thumbLen: u32)
    requires LaidIfd(mem, base, at, ThumbFields(e, offset, 0), 0)
    ensures LaidIfd(Splice(mem, at + 70, LE32(thumbLen)), base, at, ThumbFields(e, offset, thumbLen), 0)
  {
    hide BE16, LaidField;
    var r := Splice(mem, at + 70, LE32(thumbLen));
    var before, after := ThumbFields(e, offset, 0), ThumbFields(e, offset, thumbLen);
    ThumbSize(e, offset, 0);
    ThumbSize(e, offset, thumbLen);
    assert before[..5] == after[..5];
    ThumbValues(e, offset, 0);
    ThumbValues(e, offset, thumbLen);
    LaidStable(mem, r, base, at + 2, at + 78, before[..5]);
    LongPatched(mem, base, at + 62, at + 78, 0x0202, thumbLen);
    AtStable(mem, r, at, LE16(6));
    AtStable(mem, r, at + 74, LE32(0));
  }

  lemma ThumbValues(e: Attributes, offset: u32, thumbLen: u32)
    ensures ValSize(ThumbFields(e, offset, thumbLen)[..5]) == 0 && ValSize(ThumbFields(e, offset, thumbLen)) == 0
  {
    hide ValSize, LE32;
    ValSizeFew(ThumbFields(e, offset, thumbLen)[..5]);
    ValSizeFew(ThumbFields(e, offset, thumbLen));
  }

  lemma LongPatched(mem: seq<byte>, base: nat, at: nat, v: nat, tag: u16, value: u32)
    requires LaidField(mem, base, at, v, IfdWriter.LongField(tag, 0))
    ensures LaidField(Splice(mem, at + 8, LE32(value)), base, at, v, IfdWriter.LongField(tag, value))
  {
    hide EntryHead, LE32;
    AtStable(mem, Splice(mem, at + 8, LE32(value)), at, EntryHead(tag, TYPE_LONG, 1));
    SpliceAt(mem, at + 8, LE32(value));
  }

  lemma App1Finalized(mem: seq<byte>, at: nat, e: Attributes, len: u16, offset: u32, thumbLen: u32)
    requires Exif.Valid(e) && e.enableThumb && App1At(mem, at, e, len, offset, 0)
    ensures App1At(Splice(mem, at + 2 + App1Size(e) - 8, LE32(thumbLen)), at, e, len, offset, thumbLen)
  {
    hide LaidIfd, IfdSize, Zeroth, ThumbFields, Exif.Valid, BE16, LE32;
    var first := at + 18 + IfdSize(Zeroth(e));
    var r := Splice(mem, first + 70, LE32(thumbLen));
    HeadStable(mem, r, at, len);
    LaidIfdStable(mem, r, at + 10, at + 18, Zeroth(e), U32(8 + IfdSize(Zeroth(e))));
    ThumbLengthPatched(mem, at + 10, first, e, offset, thumbLen);
  }

  // ----- The finished stream ------------------------------------------------------------------

  /** `n` bytes of `s` end with the last EOI marker in `s`. */
  ghost predicate IsEoiEnd(s: seq<byte>, n: nat) {
    && 3 <= n <= |s| && EoiBefore(s, n)
    && forall k | n < k <= |s| :: !EoiBefore(s, k)
  }

  ghost predicate HasNoEoi(s: seq<byte>) {
    forall k | 3 <= k <= |s| :: !EoiBefore(s, k)
  }

  predicate EoiBefore(s: seq<byte>, n: nat)
    requires 2 <= n <= |s|
  {
    s[n - 2] == 0xFF && s[n - 1] == 0xD9
  }

  /** The end of the last EOI among the first `n` bytes, but not of one at their start; 0 if there is none. */
  function EoiEndWithin(s: seq<byte>, n: nat): (e: nat)
    requires n <= |s|
    ensures e == 0 || (3 <= e <= n && EoiBefore(s, e))
    ensures forall k | 3 <= k <= n && e < k :: !EoiBefore(s, k)
  {
    if n < 3 then 0 else if EoiBefore(s, n) then n else EoiEndWithin(s, n - 1)
  }

  function EoiEnd(s: seq<byte>): (e: nat)
    ensures if e == 0 then HasNoEoi(s) else IsEoiEnd(s, e)
  {
    EoiEndWithin(s, |s|)
  }

  /** The bytes up to the end of the last EOI. */
  function Cut(s: seq<byte>): (r: seq<byte>)
    ensures |r| <= |s|
  {
    s[..EoiEnd(s)]
  }

  lemma EoiEndOnly(s: seq<byte>, n: nat)
    requires if n == 0 then HasNoEoi(s) else IsEoiEnd(s, n)
    ensures n == EoiEnd(s)
  {
  }

  function Zeros(n: nat): (s: seq<byte>)
    ensures |s| == n
  {
    seq(n, _ => 0)
  }

  /** The place of the thumbnail stream, counted from the TIFF header. */
  function ThumbPlace(e: Option<Attributes>): u32
    requires e.Some? ==> Exif.Valid(e.value)
  {
    if e.Some? && e.value.enableThumb then U32(App1Size(e.value) + JPEG_MARKER_SIZE - 10) else 0
  }

  /**
    From index 0 on: SOI, APP1 with the thumbnail stream and `fill` zeros in it,
    the debug segments, APP11, and the main stream without its SOI. The SOI's
    two bytes are zeros at the end of APP11.
    */
  ghost predicate Assembled(mem: seq<byte>, e: Option<Attributes>, d: Option<Debug>, reserved: bool,
                            thumb: seq<byte>, fill: nat, pad: nat, main: seq<byte>)
    requires e.Some? ==> Exif.Valid(e.value)
  {
    && |thumb| + fill < 0x1_0000_0000
    && (e.None? || !e.value.enableThumb ==> thumb == [] && fill == 0)
    && var gap := |thumb| + fill;
    && At(mem, 0, [0xFF, 0xD8])
    && SegmentsAt(mem, 2, e, d, if e.Some? then U16(App1Size(e.value) + gap) else 0,
                  ThumbPlace(e), |thumb|, gap, reserved, pad)
    && (e.Some? ==> At(mem, 2 + App1Bytes(e), thumb) && At(mem, 2 + App1Bytes(e) + |thumb|, Zeros(fill)))
    && var m := MainBase(2, e, d, gap, pad);
    && (e.Some? || d.Some? ==> At(mem, m, [0, 0]))
    && |main| >= 2 && At(mem, m + 2, main[2..])
  }

  /** The length of a finished stream. */
  function StreamLength(e: Option<Attributes>, d: Option<Debug>, gap: nat, pad: nat, main: seq<byte>): int
    requires e.Some? ==> Exif.Valid(e.value)
  {
    MainBase(2, e, d, gap, pad) + |main|
  }

  /** The segments, and behind them the main stream with its SOI cleared. */
  ghost predicate Core(mem: seq<byte>, e: Option<Attributes>, d: Option<Debug>, reserved: bool, len: u16, thumbLen: u32,
                       gap: nat, pad: nat, main: seq<byte>)
    requires e.Some? ==> Exif.Valid(e.value)
  {
    && SegmentsAt(mem, 2, e, d, len, ThumbPlace(e), thumbLen, gap, reserved, pad)
    && var m := MainBase(2, e, d, gap, pad);
    && (e.Some? || d.Some? ==> At(mem, m, [0, 0]))
    && |main| >= 2 && At(mem, m + 2, main[2..])
  }

  /** Stores in front of APP1 or into the gap leave all of it alone. */
  lemma CoreStable(mem: seq<byte>, new_: seq<byte>, e: Option<Attributes>, d: Option<Debug>, reserved: bool, len: u16,
                   thumbLen: u32, gap: nat, pad: nat, main: seq<byte>)
    requires e.Some? ==> Exif.Valid(e.value)
    requires Core(mem, e, d, reserved, len, thumbLen, gap, pad, main)
    requires Agree(mem, new_, 2, 2 + App1Bytes(e)) && Agree(mem, new_, AppxBase(2, e, gap), |mem|)
    requires e.None? ==> gap == 0
    ensures Core(new_, e, d, reserved, len, thumbLen, gap, pad, main)
  {
    hide At, SegmentsAt, App1Bytes, Exif.Valid, AppxBytes, ThumbPlace;
    SegmentsStable(mem, new_, 2, e, d, len, ThumbPlace(e), thumbLen, gap, reserved, pad);
    if e.None? && d.None? {
      NothingInFront(e, d);
    }
    MainStable(mem, new_, AppxBase(2, e, gap), MainBase(2, e, d, gap, pad), e.Some? || d.Some?, main);
  }

  lemma MainStable(mem: seq<byte>, new_: seq<byte>, p: nat, m: nat, any: bool, main: seq<byte>)
    requires p <= m + 2 && (any ==> p <= m) && Agree(mem, new_, p, |mem|) && |main| >= 2
    requires (any ==> At(mem, m, [0, 0])) && At(mem, m + 2, main[2..])
    ensures (any ==> At(new_, m, [0, 0])) && At(new_, m + 2, main[2..])
  {
    hide At;
    if any {
      AtStable(mem, new_, m, [0, 0]);
    }
    AtStable(mem, new_, m + 2, main[2..]);
  }

  lemma NothingInFront(e: Option<Attributes>, d: Option<Debug>)
    requires e.None? && d.None?
    ensures App1Bytes(e) == 0 && AppxBytes(d) == 0
  {
  }

  lemma CoreMoved(mem: seq<byte>, new_: seq<byte>, e: Option<Attributes>, d: Option<Debug>, reserved: bool, len: u16,
                  shift: nat, pad: nat, main: seq<byte>)
    requires e.Some? && Exif.Valid(e.value)
    requires Core(mem, e, d, reserved, len, 0, 0, pad, main)
    requires Agree(mem, new_, 0, AppxBase(2, e, 0))
    requires Moved(mem, new_, AppxBase(2, e, 0), MainBase(2, e, d, 0, pad) + |main|, shift)
    ensures Core(new_, e, d, reserved, len, 0, shift, pad, main)
  {
    hide At, SegmentsAt, App1Bytes, Exif.Valid, AppxBytes, ThumbPlace;
    var p, m := AppxBase(2, e, 0), MainBase(2, e, d, 0, pad);
    SegmentsMoved(mem, new_, 2, e, d, len, ThumbPlace(e), m + |main|, 0, shift, reserved, pad);
    AtMoved(mem, new_, p, m + |main|, shift, m, [0, 0]);
    AtMoved(mem, new_, p, m + |main|, shift, m + 2, main[2..]);
  }

  lemma CoreLength(mem: seq<byte>, e: Option<Attributes>, d: Option<Debug>, reserved: bool, len: u16, newLen: u16,
                   thumbLen: u32, gap: nat, pad: nat, main: seq<byte>)
    requires e.Some? && Exif.Valid(e.value)
    requires Core(mem, e, d, reserved, len, thumbLen, gap, pad, main)
    ensures Core(Splice(mem, 4, BE16(newLen)), e, d, reserved, newLen, thumbLen, gap, pad, main)
  {
    hide App1At, DebugAt, At, AppxBytes, Exif.Valid, App1Size, BE16;
    var r := Splice(mem, 4, BE16(newLen));
    var x, m := App11Base(2, e, d, gap), MainBase(2, e, d, gap, pad);
    App1Sized(e.value);
    LengthPatched(mem, 2, e.value, len, newLen, ThumbPlace(e), thumbLen);
    BehindStable(mem, r, e, d, reserved, gap, pad, main);
  }

  lemma App1Sized(e: Attributes)
    requires Exif.Valid(e)
    ensures 22 + (if e.enableThumb then 78 else 0) <= App1Size(e)
  {
  }

  /** Stores into APP1 leave everything behind it alone. */
  lemma BehindStable(mem: seq<byte>, new_: seq<byte>, e: Option<Attributes>, d: Option<Debug>, reserved: bool,
                     gap: nat, pad: nat, main: seq<byte>)
    requires e.Some? && Exif.Valid(e.value) && |main| >= 2
    requires DebugAt(mem, AppxBase(2, e, gap), d, reserved) && App11At(mem, App11Base(2, e, d, gap), pad)
    requires var m := MainBase(2, e, d, gap, pad); At(mem, m, [0, 0]) && At(mem, m + 2, main[2..])
    requires Agree(mem, new_, 2 + App1Bytes(e), |mem|)
    ensures DebugAt(new_, AppxBase(2, e, gap), d, reserved) && App11At(new_, App11Base(2, e, d, gap), pad)
    ensures var m := MainBase(2, e, d, gap, pad); At(new_, m, [0, 0]) && At(new_, m + 2, main[2..])
  {
    hide At, AppxAt, App1Bytes, AppxSize, Exif.Valid, BE16;
    var p, x, m := AppxBase(2, e, gap), App11Base(2, e, d, gap), MainBase(2, e, d, gap, pad);
    AtInside(mem, x, [0xFF, 0xEB] + BE16(U16(pad + 4)));
    DebugMoved(mem, new_, p, x, 0, p, d, reserved);
    AtStable(mem, new_, x, [0xFF, 0xEB] + BE16(U16(pad + 4)));
    AtStable(mem, new_, m, [0, 0]);
    AtStable(mem, new_, m + 2, main[2..]);
  }

  lemma AtInside(mem: seq<byte>, at: nat, d: seq<byte>)
    requires At(mem, at, d)
    ensures at + |d| <= |mem|
  {
  }

  lemma CoreFinalized(mem: seq<byte>, e: Option<Attributes>, d: Option<Debug>, reserved: bool, len: u16,
                      thumbLen: u32, gap: nat, pad: nat, main: seq<byte>)
    requires e.Some? && Exif.Valid(e.value) && e.value.enableThumb
    requires Core(mem, e, d, reserved, len, 0, gap, pad, main)
    ensures Core(Splice(mem, 2 + App1Bytes(e) - 8, LE32(thumbLen)), e, d, reserved, len, thumbLen, gap, pad, main)
  {
    hide App1At, DebugAt, At, AppxBytes, Exif.Valid, App1Size, BE16, LE32;
    App1Sized(e.value);
    App1Finalized(mem, 2, e.value, len, ThumbPlace(e), thumbLen);
    BehindStable(mem, Splice(mem, 2 + App1Bytes(e) - 8, LE32(thumbLen)), e, d, reserved, gap, pad, main);
  }

  /** The main stream's SOI, overwritten with zeros. */
  lemma SoiCleared(mem: seq<byte>, e: Option<Attributes>, d: Option<Debug>, reserved: bool, len: u16,
                   gap: nat, pad: nat, m: nat, main: seq<byte>)
    requires (e.Some? ==> Exif.Valid(e.value)) && (e.None? ==> gap == 0) && |main| >= 2
    requires SegmentsAt(mem, 2, e, d, len, ThumbPlace(e), 0, gap, reserved, pad)
    requires m == MainBase(2, e, d, gap, pad) && At(mem, m, main)
    ensures Core(Splice(mem, m, [0, 0]), e, d, reserved, len, 0, gap, pad, main)
  {
    hide At, Agree, SegmentsAt, App1Bytes, Exif.Valid, AppxBytes, ThumbPlace;
    AtInside(mem, m, main);
    MainStored(mem, e, d, len, gap, reserved, pad, m, [0, 0]);
    AtTail(mem, m, main, 2);
    SpliceAgree(mem, m, [0, 0], m + 2, m + 2 + |main[2..]|);
    AtStable(mem, Splice(mem, m, [0, 0]), m + 2, main[2..]);
  }

  lemma AtNothing(mem: seq<byte>, at: nat, d: seq<byte>)
    requires at <= |mem| && d == []
    ensures At(mem, at, d)
  {
  }

  lemma AtTail(mem: seq<byte>, at: nat, d: seq<byte>, k: nat)
    requires At(mem, at, d) && k <= |d|
    ensures At(mem, at + k, d[k..])
  {
  }

  /** Bytes stored into the gap between APP1 and what follows it. */
  lemma GapStored(mem: seq<byte>, e: Option<Attributes>, d: Option<Debug>, reserved: bool, len: u16, thumbLen: u32,
                  gap: nat, pad: nat, main: seq<byte>, off: nat, data: seq<byte>)
    requires (e.Some? ==> Exif.Valid(e.value)) && off + |data| <= gap && (e.None? ==> gap == 0)
    requires Core(mem, e, d, reserved, len, thumbLen, gap, pad, main)
    ensures Core(Splice(mem, 2 + App1Bytes(e) + off, data), e, d, reserved, len, thumbLen, gap, pad, main)
  {
    hide Core, App1Bytes, Exif.Valid;
    var r := Splice(mem, 2 + App1Bytes(e) + off, data);
    CoreStable(mem, r, e, d, reserved, len, thumbLen, gap, pad, main);
  }

  lemma StoredStays(mem: seq<byte>, at: nat, d: seq<byte>, at': nat, d': seq<byte>)
    requires at + |d| <= |mem| && at' + |d'| <= at
    ensures At(Splice(Splice(mem, at, d), at', d'), at, d)
  {
    SpliceAt(mem, at, d);
    AtStable(Splice(mem, at, d), Splice(Splice(mem, at, d), at', d'), at, d);
  }

  /** The SOI in front makes the stream complete. */
  lemma Finished(mem: seq<byte>, e: Option<Attributes>, d: Option<Debug>, reserved: bool, len: u16, thumbLen: u32,
                 thumb: seq<byte>, rest: nat, pad: nat, main: seq<byte>)
    requires (e.Some? ==> Exif.Valid(e.value)) && thumbLen == |thumb| && |thumb| + rest < 0x1_0000_0000
    requires e.None? || !e.value.enableThumb ==> thumb == [] && rest == 0
    requires len == if e.Some? then U16(App1Size(e.value) + |thumb| + rest) else 0
    requires Core(mem, e, d, reserved, len, thumbLen, |thumb| + rest, pad, main)
    requires e.Some? ==> At(mem, 2 + App1Bytes(e), thumb) && At(mem, 2 + App1Bytes(e) + |thumb|, Zeros(rest))
    ensures Assembled(Splice(mem, 0, [0xFF, 0xD8]), e, d, reserved, thumb, rest, pad, main)
  {
    hide At, SegmentsAt, App1Bytes, App1Size, Exif.Valid, AppxBytes, ThumbPlace;
    var r := Splice(mem, 0, [0xFF, 0xD8]);
    CoreStable(mem, r, e, d, reserved, len, thumbLen, |thumb| + rest, pad, main);
    if e.Some? {
      AtStable(mem, r, 2 + App1Bytes(e), thumb);
      AtStable(mem, r, 2 + App1Bytes(e) + |thumb|, Zeros(rest));
    }
    AtInside(mem, MainBase(2, e, d, |thumb| + rest, pad) + 2, main[2..]);
    if e.None? && d.None? {
      NothingInFront(e, d);
    }
    SpliceAt(mem, 0, [0xFF, 0xD8]);
  }

  /** The hardware's stream, stored behind the segments. */
  lemma MainStored(mem: seq<byte>, e: Option<Attributes>, d: Option<Debug>, len: u16, gap: nat, reserved: bool, pad: nat,
                   m: nat, stream: seq<byte>)
    requires (e.Some? ==> Exif.Valid(e.value)) && (e.None? ==> gap == 0)
    requires SegmentsAt(mem, 2, e, d, len, ThumbPlace(e), 0, gap, reserved, pad)
    requires m == MainBase(2, e, d, gap, pad) && m + |stream| <= |mem|
    ensures SegmentsAt(Splice(mem, m, stream), 2, e, d, len, ThumbPlace(e), 0, gap, reserved, pad)
    ensures At(Splice(mem, m, stream), m, stream)
  {
    hide At, Agree, SegmentsAt, App1Bytes, Exif.Valid, AppxBytes, ThumbPlace;
    if e.None? && d.None? {
      NothingInFront(e, d);
    }
    var r, p := Splice(mem, m, stream), AppxBase(2, e, gap);
    SpliceAt(mem, m, stream);
    SpliceAgree(mem, m, stream, 2, 2 + App1Bytes(e));
    SpliceAgree(mem, m, stream, p, if e.Some? || d.Some? then m else p);
    if e.Some? || d.Some? {
      AgreeSub(mem, r, p, m, p, App11Base(2, e, d, gap) + 4);
    }
    SegmentsStable(mem, r, 2, e, d, len, ThumbPlace(e), 0, gap, reserved, pad);
  }

  // ----- What finishing a stream stores -----------------------------------------------------------------

  /** memmove of [lo, hi) to a higher place. */
  function MovedUp(s: seq<byte>, lo: nat, hi: nat, shift: nat): (r: seq<byte>)
    ensures |r| == |s|
    ensures forall i | 0 <= i < |s| :: r[i] == if lo + shift <= i < hi + shift then s[i - shift] else s[i]
  {
    seq(|s|, i requires 0 <= i < |s| => if lo + shift <= i < hi + shift then s[i - shift] else s[i])
  }

  /** The last entry's value of the 1st directory, in front of the thumbnail stream. */
  function SizePlace(base: nat): nat {
    if base < 8 then 0 else base - 8
  }

  /** The thumbnail stream put at `base`: everything up to `hi` moved up behind it, and APP1's length with it,
      unless its place was reserved. */
  function ThumbInserted(s: seq<byte>, base: nat, hi: nat, thumb: seq<byte>, shifts: bool, len: u16): seq<byte> {
    var m1 := if shifts then Splice(MovedUp(s, base, hi, |thumb|), 4, BE16(len)) else s;
    if |thumb| > 0 then Splice(Splice(m1, base, thumb), SizePlace(base), LE32(U32(|thumb|))) else m1
  }

  /** ... and zeros behind it in a reserved place. */
  function ThumbPlaced(s: seq<byte>, base: nat, hi: nat, thumb: seq<byte>, shifts: bool, len: u16, rest: nat): seq<byte> {
    var m := ThumbInserted(s, base, hi, thumb, shifts, len);
    if shifts then m else Splice(m, base + |thumb|, Zeros(rest))
  }

  /** A finished stream: the main stream's SOI cleared, the thumbnail stream in its place, the SOI in front. */
  function FinishedMemory(s: seq<byte>, m: nat, n: nat, base: nat, thumb: Option<seq<byte>>, shifts: bool, len: u16,
                          rest: nat): seq<byte>
  {
    var cleared := Splice(s, m, [0, 0]);
    Splice(if thumb.Some? then ThumbPlaced(cleared, base, m + n, thumb.value, shifts, len, rest) else cleared,
           0, [0xFF, 0xD8])
  }

  /** What APP1 says its length is, with `gap` bytes for the thumbnail stream. */
  function App1Length(e: Option<Attributes>, gap: nat): u16
    requires e.Some? ==> Exif.Valid(e.value)
  {
    if e.None? then 0 else U16(App1Size(e.value) + gap)
  }

  /** What the thumbnail stream may take. */
  function MaxThumb(e: Option<Attributes>): int
    requires e.Some? ==> Exif.Valid(e.value)
  {
    if e.Some? && e.value.enableThumb then JPEG_MAX_SEGMENT_SIZE - App1Size(e.value) else 0
  }

  /** A whole run: the segments written, the hardware's stream stored at `m`, and the stream finished
      behind the first `n` bytes of it. */
  function RunMemory(mem: seq<byte>, e: Option<Attributes>, d: Option<Debug>, reserved: bool, stream: seq<byte>, m: nat,
                     n: nat, thumb: seq<byte>, gap: nat, rest: nat, pad: nat): seq<byte>
    requires e.Some? ==> Exif.Valid(e.value)
  {
    var s := SegmentsWritten(mem, 2, e, d, App1Length(e, gap), ThumbPlace(e), gap, reserved, pad);
    FinishedMemory(Splice(s, m, stream), m, n, 2 + App1Bytes(e),
                   if e.Some? && e.value.enableThumb then Some(thumb) else None, gap != MaxThumb(e),
                   App1Length(e, |thumb|), rest)
  }
}
