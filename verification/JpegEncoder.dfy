/** The camera encoder (ExynosJpegEncoderForCamera): it has the segments written,
    lets the hardware compress, and assembles the stream in the caller's buffer. */
module JpegEncoder {
  import opened Bytes
  import opened Exif
  import opened Tiff
  import opened AppMarker
  import opened JpegStream
  import opened Wrappers

  const NECESSARY_JPEG_LENGTH := 0x24B + 2 * JPEG_MARKER_SIZE

  // ----- Moves of memory ------------------------------------------------------------------

  /** memmove of [lo, hi) to a higher place. */
  method MoveUp(buf: array<byte>, lo: nat, hi: nat, shift: nat)
    requires lo <= hi && hi + shift <= buf.Length
    modifies buf
    ensures buf[..] == MovedUp(old(buf[..]), lo, hi, shift)
  {
    ghost var was := buf[..];
    ghost var moved := MovedUp(was, lo, hi, shift);
    var k := hi;
    while k > lo
      invariant lo <= k <= hi
      invariant forall i | 0 <= i < buf.Length :: buf[i] == if k + shift <= i then moved[i] else was[i]
    {
      k := k - 1;
      buf[k + shift] := buf[k];
    }
  }

  lemma MovedUpMoves(s: seq<byte>, lo: nat, hi: nat, shift: nat)
    requires hi + shift <= |s|
    ensures var r := MovedUp(s, lo, hi, shift); Moved(s, r, lo, hi, shift) && Agree(s, r, 0, lo)
  {
  }

  /** Finds the last EOI in `len` bytes at `at`, from their end on; 0 if there is none. */
  method RemoveTrailingDummies(buf: array<byte>, at: nat, len: nat) returns (n: nat)
    requires 2 <= len && at + len <= buf.Length
    ensures (n == 0 || 3 <= n <= len) && (n > 0 ==> IsEoiEnd(buf[at..at + len], n))
    ensures n == 0 ==> HasNoEoi(buf[at..at + len])
    ensures n == EoiEnd(buf[at..at + len])
  {
    ghost var s := buf[at..at + len];
    var riter := len - 2;
    while riter > 0
      invariant riter <= len - 2
      invariant forall k | riter + 2 < k <= len :: !EoiBefore(s, k)
    {
      if buf[at + riter] == 0xFF && buf[at + riter + 1] == 0xD9 {
        assert EoiBefore(s, riter + 2);
        EoiEndOnly(s, riter + 2);
        return riter + 2;
      }
      assert !EoiBefore(s, riter + 2);
      riter := riter - 1;
    }
    EoiEndOnly(s, 0);
    return 0;
  }

  // ----- The thumbnail's compressor --------------------------------------------------------

  /** What a search over qualities comes to: a stream, empty if none was found, and what the hardware is still to yield. */
  datatype Search = Search(thumb: seq<byte>, left: seq<Option<seq<byte>>>)

  /** The next quality: always below the last one, and at most 50. */
  function Lowered(quality: int): int {
    if quality - 10 < 50 then quality - 10 else 50
  }

  /** CompressThumbnailOnly, on what the hardware yields; nothing more is a failure. */
  function Searched(outputs: seq<Option<seq<byte>>>, limit: nat, quality: int): (r: Search)
    ensures |r.thumb| <= limit
    decreases |outputs|
  {
    if outputs == [] then Search([], [])
    else
      var left := outputs[1..];
      if outputs[0].None? then Search([], left)
      else if |Cut(outputs[0].value)| <= limit then Search(Cut(outputs[0].value), left)
      else if Lowered(quality) < 20 then Search([], left)
      else Searched(left, limit, Lowered(quality))
  }

  lemma SearchedSteps(outputs: seq<Option<seq<byte>>>, limit: nat, quality: int)
    requires outputs != [] && outputs[0].Some? && |Cut(outputs[0].value)| > limit
    ensures Searched(outputs, limit, quality)
         == if Lowered(quality) < 20 then Search([], outputs[1..]) else Searched(outputs[1..], limit, Lowered(quality))
  {
  }

  /** The quality of attempt `k`. */
  function QualityAt(quality: int, k: nat): int {
    if k == 0 then quality else (if quality < 60 then quality - 10 else 50) - 10 * (k - 1)
  }

  /** The first `k` attempts give streams that are too long. */
  ghost predicate TooLong(outputs: seq<Option<seq<byte>>>, limit: nat, k: nat) {
    k <= |outputs| && forall j | 0 <= j < k :: outputs[j].Some? && |Cut(outputs[j].value)| > limit
  }

  /** Attempt `k` is made, and gives a stream with an EOI that is short enough. */
  ghost predicate Succeeds(outputs: seq<Option<seq<byte>>>, limit: nat, quality: int, k: nat) {
    && k < |outputs| && TooLong(outputs, limit, k) && (k == 0 || QualityAt(quality, k) >= 20)
    && outputs[k].Some? && 0 < |Cut(outputs[k].value)| <= limit
  }

  lemma SucceedsLater(outputs: seq<Option<seq<byte>>>, limit: nat, quality: int, k: nat)
    requires outputs != [] && outputs[0].Some? && |Cut(outputs[0].value)| > limit
    ensures Succeeds(outputs, limit, quality, k + 1)
       <==> Lowered(quality) >= 20 && Succeeds(outputs[1..], limit, Lowered(quality), k)
    ensures !Succeeds(outputs, limit, quality, 0)
  {
    hide Cut;
    var left := outputs[1..];
    assert forall j | 0 <= j < |left| :: left[j] == outputs[j + 1];
    if TooLong(left, limit, k) {
      forall j | 0 <= j < k + 1
        ensures outputs[j].Some? && |Cut(outputs[j].value)| > limit
      {
        assert j > 0 ==> outputs[j] == left[j - 1];
      }
    }
  }

  /** An attempt that succeeds gives the result. */
  lemma {:induction false} SearchedIs(outputs: seq<Option<seq<byte>>>, limit: nat, quality: int, k: nat)
    requires Succeeds(outputs, limit, quality, k)
    ensures Searched(outputs, limit, quality).thumb == Cut(outputs[k].value) != []
    decreases k
  {
    hide Cut;
    if k > 0 {
      SucceedsLater(outputs, limit, quality, k - 1);
      SearchedIs(outputs[1..], limit, Lowered(quality), k - 1);
    }
  }

  /** A result comes from an attempt that succeeds. */
  lemma {:induction false} SearchedAt(outputs: seq<Option<seq<byte>>>, limit: nat, quality: int) returns (k: nat)
    requires Searched(outputs, limit, quality).thumb != []
    ensures Succeeds(outputs, limit, quality, k)
    decreases |outputs|
  {
    hide Cut;
    if |Cut(outputs[0].value)| <= limit {
      k := 0;
    } else {
      k := SearchedAt(outputs[1..], limit, Lowered(quality));
      SucceedsLater(outputs, limit, quality, k);
      k := k + 1;
    }
  }

  /** The search finds a stream exactly when an attempt succeeds, and then it is that attempt's. */
  lemma {:induction false} SearchedExactly(outputs: seq<Option<seq<byte>>>, limit: nat, quality: int)
    ensures Searched(outputs, limit, quality).thumb != [] <==> exists k: nat :: Succeeds(outputs, limit, quality, k)
    ensures forall k: nat | Succeeds(outputs, limit, quality, k) ::
      Searched(outputs, limit, quality).thumb == Cut(outputs[k].value)
  {
    hide Cut, Searched;
    if Searched(outputs, limit, quality).thumb != [] {
      var _ := SearchedAt(outputs, limit, quality);
    }
    forall k: nat | Succeeds(outputs, limit, quality, k)
      ensures Searched(outputs, limit, quality).thumb == Cut(outputs[k].value) != []
    {
      SearchedIs(outputs, limit, quality, k);
    }
  }

  /** What comes out is one of the hardware's streams, cut behind its last EOI. */
  lemma {:induction false} SearchedFrom(outputs: seq<Option<seq<byte>>>, limit: nat, quality: int)
    ensures var r := Searched(outputs, limit, quality);
      && (r.thumb != [] ==> exists o :: o in outputs && o.Some? && IsEoiEnd(o.value, |r.thumb|) && r.thumb == Cut(o.value))
      && forall o | o in r.left :: o in outputs
    decreases |outputs|
  {
    if outputs != [] && outputs[0].Some? {
      SearchedFrom(outputs[1..], limit, Lowered(quality));
    }
  }

  /** The hardware, as an oracle of what the next compressions yield; none left is a failure. */
  class ThumbnailCompressor {
    var outputs: seq<Option<seq<byte>>>

    ghost predicate Fits(capacity: nat)
      reads this
    {
      forall o | o in outputs && o.Some? :: 4 < |o.value| <= capacity
    }

    constructor (outputs: seq<Option<seq<byte>>>)
      ensures this.outputs == outputs
    {
      this.outputs := outputs;
    }

    method Compress(jpeg: array<byte>) returns (len: int)
      requires Fits(jpeg.Length)
      modifies this, jpeg
      ensures outputs == if old(outputs) == [] then [] else old(outputs[1..])
      ensures Fits(jpeg.Length) && (len < 0 || 4 < len <= jpeg.Length)
      ensures len >= 0 <==> old(outputs) != [] && old(outputs)[0].Some?
      ensures len >= 0 ==> old(outputs)[0] == Some(jpeg[..len])
    {
      if outputs == [] {
        return -1;
      }
      var next := outputs[0];
      outputs := outputs[1..];
      if next.None? {
        return -1;
      }
      Store(jpeg, 0, next.value);
      assert jpeg[..|next.value|] == next.value;
      return |next.value|;
    }

    /** Compresses with lower and lower quality until the stream is at most `limit` long. */
    method CompressThumbnailOnly(jpeg: array<byte>, limit: nat, quality: int) returns (n: nat)
      requires Fits(jpeg.Length)
      modifies this, jpeg
      ensures Fits(jpeg.Length) && n <= limit && n <= jpeg.Length
      ensures Searched(old(outputs), limit, quality) == Search(jpeg[..n], outputs)
    {
      hide Cut, Searched;
      var q := quality;
      while true
        invariant Fits(jpeg.Length)
        invariant Searched(outputs, limit, q) == Searched(old(outputs), limit, quality)
        decreases q
      {
        ghost var next := outputs;
        var len := Compress(jpeg);
        if len < 0 {
          NothingFound(next, limit, q);
          return 0;
        }
        n := RemoveTrailingDummies(jpeg, 0, len);
        CutIs(next[0].value, n);
        assert jpeg[..n] == jpeg[..len][..n];
        if n > limit {
          SearchedSteps(next, limit, q);
          q := if q - 10 < 50 then q - 10 else 50;
        } else {
          OneFound(next, limit, q);
          return n;
        }
        if q < 20 {
          return 0;
        }
      }
    }
  }

  lemma CutIs(s: seq<byte>, n: nat)
    requires n == EoiEnd(s)
    ensures n <= |s| && Cut(s) == s[..n] && |Cut(s)| == n
  {
  }

  lemma NothingFound(outputs: seq<Option<seq<byte>>>, limit: nat, quality: int)
    requires outputs == [] || outputs[0].None?
    ensures Searched(outputs, limit, quality) == Search([], if outputs == [] then [] else outputs[1..])
  {
  }

  lemma OneFound(outputs: seq<Option<seq<byte>>>, limit: nat, quality: int)
    requires outputs != [] && outputs[0].Some? && |Cut(outputs[0].value)| <= limit
    ensures Searched(outputs, limit, quality) == Search(Cut(outputs[0].value), outputs[1..])
  {
  }

  // ----- Which thumbnail stream is embedded -----------------------------------------------------

  /** Where the thumbnail stream comes from: an image scaled from the main one, if the scaling succeeds;
      the given image, compressed on its own; or the stream compressed together with the main one. */
  datatype Source = Generated(scaled: bool) | Separate | BackToBack

  /** The stream tried first, with `given` from the back-to-back compression. */
  function FirstTry(src: Source, outputs: seq<Option<seq<byte>>>, given: seq<byte>, max: nat, quality: int): Search {
    match src
    case Generated(scaled) => if scaled then Searched(outputs, max, quality) else Search([], outputs)
    case Separate => Searched(outputs, max, quality)
    case BackToBack => Search(given, outputs)
  }

  function Least(a: nat, b: nat): nat {
    if a < b then a else b
  }

  /** The stream to embed, empty if there is none; nothing if the first is too long and no other is found. */
  function Obtained(src: Source, outputs: seq<Option<seq<byte>>>, given: seq<byte>, max: nat, quality: int,
                    room: nat): (r: Option<seq<byte>>)
    ensures r.Some? ==> |r.value| <= max && |r.value| <= room
  {
    var first := FirstTry(src, outputs, given, max, quality);
    if |first.thumb| <= Least(max, room) then Some(first.thumb)
    else
      var again := Searched(first.left, Least(max, room), 50);
      if again.thumb == [] then None else Some(again.thumb)
  }

  /** The thumbnail stream for a record, empty if the record has none; nothing if the encoder fails. */
  function ThumbFor(e: Option<Attributes>, src: Source, outputs: seq<Option<seq<byte>>>, given: seq<byte>, max: nat,
                    quality: int, room: int): Option<seq<byte>>
  {
    if e.None? || !e.value.enableThumb then Some([])
    else if room < 0 then None
    else Obtained(src, outputs, given, max, quality, room)
  }

  /** A stream that fits is embedded as it is; one that does not is replaced by the first of a second search, and
      without one the encoder fails. */
  lemma {:induction false} ObtainedExactly(src: Source, outputs: seq<Option<seq<byte>>>, given: seq<byte>, max: nat,
                                           quality: int, room: nat)
    ensures var first, most := FirstTry(src, outputs, given, max, quality), Least(max, room);
      var r := Obtained(src, outputs, given, max, quality, room);
      && (|first.thumb| <= most ==> r == Some(first.thumb))
      && (r.None? <==> |first.thumb| > most && forall k: nat :: !Succeeds(first.left, most, 50, k))
      && (|first.thumb| > most ==> forall k: nat | Succeeds(first.left, most, 50, k) :: r == Some(Cut(first.left[k].value)))
  {
    hide Searched, Cut, Succeeds;
    SearchedExactly(FirstTry(src, outputs, given, max, quality).left, Least(max, room), 50);
  }

  /** Whatever is embedded was compressed from an image. */
  lemma {:induction false} ObtainedFrom(src: Source, outputs: seq<Option<seq<byte>>>, given: seq<byte>, max: nat, quality: int, room: nat)
    ensures var r := Obtained(src, outputs, given, max, quality, room);
      r.Some? && r.value != [] ==> ThumbnailFrom(outputs, given, r.value)
  {
    hide Searched, Cut, IsEoiEnd;
    SearchedFrom(outputs, max, quality);
    var first := FirstTry(src, outputs, given, max, quality);
    SearchedFrom(first.left, Least(max, room), 50);
    CutsPrefix(outputs);
  }

  lemma CutsPrefix(outputs: seq<Option<seq<byte>>>)
    ensures forall o | o in outputs && o.Some? :: |Cut(o.value)| <= |o.value| && Cut(o.value) == o.value[..|Cut(o.value)|]
  {
  }

  // ----- The encoder ---------------------------------------------------------------------------

  /** Records the encoder is used with: the segment's size fits, and a thumbnail is 16x16 or more. */
  ghost predicate Supported(e: Option<Attributes>) {
    e.Some? ==> Exif.Valid(e.value) && App1Size(e.value) <= JPEG_MAX_SEGMENT_SIZE && !ThumbTooSmall(e.value)
  }

  class ExynosJpegEncoderForCamera {
    const app: CAppMarkerWriter               // m_pAppWriter
    const phwjpeg4thumb: ThumbnailCompressor  // m_phwjpeg4thumb
    const thumbJpeg: array<byte>              // m_pIONThumbJpegBuffer
    const buf: array<byte>                    // m_pStreamBase; index 0 is its first byte
    const bufAddr: nat                        // the address of that byte
    var streamSize: nat                       // m_nStreamSize
    var width: u32
    var height: u32
    var thumbWidth: u32                       // m_nThumbWidth
    var thumbHeight: u32                      // m_nThumbHeight
    var thumbQuality: int                     // m_nThumbQuality
    var hwfc: bool                            // STATE_HWFC_ENABLED
    var noStreamBaseAlign: bool               // V4L2_CAP_EXYNOS_JPEG_NO_STREAMBASE_ALIGN
    var thumbGenerated: bool                  // IsThumbGenerationNeeded()
    var noBtbComp: bool                       // STATE_NO_BTBCOMP
    var btbSupported: bool                    // IsBTBCompressionSupported()

    constructor (buf: array<byte>, bufAddr: nat, thumbJpeg: array<byte>, hw: ThumbnailCompressor)
      requires buf != thumbJpeg
      ensures this.buf == buf && this.thumbJpeg == thumbJpeg && Valid()
    {
      this.buf, this.bufAddr, this.thumbJpeg, phwjpeg4thumb := buf, bufAddr, thumbJpeg, hw;
      app := new CAppMarkerWriter();
    }

    /** Where this encoder takes the thumbnail stream from. */
    function ThumbSource(scaled: bool): Source
      reads `thumbGenerated, `noBtbComp, `btbSupported
    {
      if thumbGenerated then Generated(scaled) else if noBtbComp || !btbSupported then Separate else BackToBack
    }

    ghost predicate Valid()
      reads app
    {
      buf != thumbJpeg && (app.debug.Some? ==> app.debug.value.Accepted())
    }

    /** PrepareAppWriter has counted the record. */
    ghost predicate Planned()
      reads app
    {
      && app.buf == buf && app.appBase == 2 && Supported(app.exif) && app.Prepared()
      && (app.debug.Some? ==> app.debug.value.Accepted())
      && app.szApp1 == (if app.exif.None? then 0 else App1Size(app.exif.value))
      && app.thumbBase == (if app.HasThumb() then Some(2 + App1Bytes(app.exif)) else None)
      && app.szMaxThumb == (if app.HasThumb() then JPEG_MAX_SEGMENT_SIZE - App1Size(app.exif.value) else 0)
    }

    /** Where Write has put everything, with a gap of `gap` bytes for the thumbnail stream. */
    ghost predicate Placed(gap: nat, pad: nat)
      reads app
    {
      && Planned() && pad < 16
      && (gap == 0 || (app.HasThumb() && gap == app.szMaxThumb))
      && app.app1End == AppxBase(2, app.exif, gap)
      && app.szApp11 == (if app.exif.Some? || app.debug.Some? then pad + 6 else 0)
      && app.mainBase == MainBase(2, app.exif, app.debug, gap, pad)
      && (app.HasThumb() ==> app.thumbSizePlaceholder == Some(2 + App1Bytes(app.exif) - 8))
    }

    /** The segments are written. */
    ghost predicate Marked(gap: nat, pad: nat)
      reads `hwfc, app, buf
    {
      && buf != thumbJpeg && Placed(gap, pad)
      && SegmentsAt(buf[..], 2, app.exif, app.debug, App1Length(app.exif, gap), ThumbPlace(app.exif), 0, gap, hwfc, pad)
    }

    /** The segments are written, and the main stream may follow. */
    ghost predicate Ready(gap: nat, pad: nat)
      reads this, app, buf
    {
      Marked(gap, pad) && app.mainBase < streamSize <= buf.Length
    }

    /** The segments with the main stream behind them, if there is one. */
    ghost predicate Holds(len: u16, thumbLen: u32, gap: nat, pad: nat, main: seq<byte>)
      requires app.exif.Some? ==> Exif.Valid(app.exif.value)
      reads `hwfc, app, buf
    {
      |main| >= 2 ==> Core(buf[..], app.exif, app.debug, hwfc, len, thumbLen, gap, pad, main)
    }

    lemma App1BytesOf(e: Option<Attributes>)
      requires e.Some? ==> Exif.Valid(e.value)
      ensures App1Bytes(e) == if e.None? then 0 else 2 + App1Size(e.value)
    {
    }

    lemma AppxBounded(d: Option<Debug>)
      requires d.Some? ==> d.value.Accepted()
      ensures AppxBytes(d) <= 6 * 65437
    {
      if d.Some? {
        AppxSizeBounded(d.value, |d.value.ids|);
      }
    }

    method WriteMarkers(reserve: bool, align: nat, ghost gap: nat, ghost pad: nat)
      requires Planned() && (align == 1 || align == 16) && gap == app.Space(reserve)
      requires pad == App11Pad(bufAddr + App11Base(2, app.exif, app.debug, gap), align)
      requires App11Base(2, app.exif, app.debug, gap) + 22 <= buf.Length
      modifies app, buf
      ensures app.exif == old(app.exif) && app.debug == old(app.debug) && app.szMaxThumb == old(app.szMaxThumb)
      ensures Planned() && app.app1End == AppxBase(2, app.exif, gap)
      ensures app.szApp11 == (if app.exif.Some? || app.debug.Some? then pad + 6 else 0)
      ensures app.mainBase == MainBase(2, app.exif, app.debug, gap, pad)
      ensures app.HasThumb() ==> app.thumbSizePlaceholder == Some(2 + App1Bytes(app.exif) - 8)
      ensures buf[..] == SegmentsWritten(old(buf[..]), 2, app.exif, app.debug, App1Length(app.exif, gap),
                                         ThumbPlace(app.exif), gap, hwfc, pad)
      ensures app.exif.Some? || app.debug.Some? ==> (bufAddr + app.mainBase) % align == 0
    {
      hide Exif.Valid, Counted, App1Size, App1Bytes, AppxBytes, App1Memory, AppxMemory, App11Memory;
      hide ThumbTooSmall, Debug.Accepted, App11Pad, U32;
      App1BytesOf(app.exif);
      assert app.ThumbOffset(2) == ThumbPlace(app.exif);
      app.Write(bufAddr, reserve, JPEG_MARKER_SIZE, align, hwfc);
    }

    method WriteSegments(reserve: bool, align: nat) returns (ghost gap: nat, ghost pad: nat)
      requires Planned() && buf != thumbJpeg && (align == 1 || align == 16)
      requires reserve ==> app.HasThumb() && streamSize >= JPEG_MAX_SEGMENT_SIZE * 10
      requires App1Bytes(app.exif) + AppxBytes(app.debug) + NECESSARY_JPEG_LENGTH < streamSize <= buf.Length
      modifies app, buf
      ensures Ready(gap, pad) && app.exif == old(app.exif) && app.debug == old(app.debug)
      ensures app.szMaxThumb == old(app.szMaxThumb) && gap == app.Space(reserve)
      ensures pad == App11Pad(bufAddr + App11Base(2, app.exif, app.debug, gap), align)
      ensures app.exif.Some? || app.debug.Some? ==> (bufAddr + app.mainBase) % align == 0
      ensures buf[..] == SegmentsWritten(old(buf[..]), 2, app.exif, app.debug, App1Length(app.exif, gap),
                                         ThumbPlace(app.exif), gap, hwfc, pad)
    {
      hide Planned, App1Length, ThumbPlace, Exif.Valid, App1Size, App1Bytes, AppxBytes;
      hide SegmentsAt, SegmentsWritten, App11Pad;
      PlannedFacts();
      gap := app.Space(reserve);
      pad := App11Pad(bufAddr + App11Base(2, app.exif, app.debug, gap), align);
      WrittenSegments(buf[..], 2, app.exif, app.debug, App1Length(app.exif, gap), ThumbPlace(app.exif), gap, hwfc, pad);
      WriteMarkers(reserve, align, gap, pad);
    }

    lemma PlannedFacts()
      requires Planned()
      ensures app.exif.Some? ==> Exif.Valid(app.exif.value)
      ensures app.HasThumb() ==> app.szMaxThumb + App1Bytes(app.exif) == JPEG_MAX_SEGMENT_SIZE + 2
      ensures AppxBytes(app.debug) <= 6 * 65437
    {
      hide Exif.Valid, Counted, App1Size, AppxBytes;
      AppxBounded(app.debug);
    }

    /** The record is about images of the sizes that were set. */
    ghost predicate SameSizes(e: Option<Attributes>)
      reads `width, `height, `thumbWidth, `thumbHeight
    {
      e.Some? ==>
        && e.value.width == width && e.value.height == height
        && (e.value.enableThumb ==> e.value.widthThumb == thumbWidth && e.value.heightThumb == thumbHeight)
    }

    /** What the segments take at least, by the size of APP11 the previous call has left. */
    ghost function SizeInAdvance(e: Option<Attributes>, d: Option<Debug>, szApp11: nat): nat
      requires e.Some? ==> Exif.Valid(e.value)
    {
      App1Bytes(e) + AppxBytes(d) + szApp11
    }

    /** What the hardware wants the main stream aligned to. */
    function Alignment(): nat
      reads `noStreamBaseAlign
    {
      if noStreamBaseAlign then 1 else 16
    }

    lemma InAdvance(e: Option<Attributes>, szApp11: u16)
      requires Supported(e) && app.exif == e && app.szApp11 == szApp11 && app.appBase == 2 && app.app1End == 0
      requires app.szApp1 == if e.None? then 0 else App1Size(e.value)
      ensures app.AppSize(0) == SizeInAdvance(e, app.debug, szApp11)
    {
      hide Exif.Valid, App1Size, AppxSize, ThumbTooSmall;
      App1BytesOf(e);
      if e.Some? {
        App1Sized(e.value);
      }
    }

    method ProcessExif(e: Option<Attributes>, d: Option<Debug>) returns (ok: bool, ghost gap: nat, ghost pad: nat)
      requires Valid() && Supported(e) && streamSize <= buf.Length
      modifies app, buf
      ensures Valid()
      ensures ok <==>
        && SameSizes(e)
        && streamSize > SizeInAdvance(e, InForce(old(app.debug), d), old(app.szApp11)) + NECESSARY_JPEG_LENGTH
      ensures ok && e.Some? ==> e.value.width == width && e.value.height == height
      ensures ok && e.Some? && e.value.enableThumb ==> e.value.widthThumb == thumbWidth && e.value.heightThumb == thumbHeight
      ensures ok ==> Ready(gap, pad) && app.exif == e
      ensures ok ==> app.debug == InForce(old(app.debug), d)
      ensures ok ==> gap == if app.HasThumb() && streamSize >= JPEG_MAX_SEGMENT_SIZE * 10 then app.szMaxThumb else 0
      ensures ok ==>
        && pad == App11Pad(bufAddr + App11Base(2, e, app.debug, gap), Alignment())
        && (!noStreamBaseAlign && (e.Some? || app.debug.Some?) ==> (bufAddr + app.mainBase) % 16 == 0)
        && (noStreamBaseAlign ==> pad == 0)
        && buf[..] == SegmentsWritten(old(buf[..]), 2, e, app.debug, App1Length(e, gap), ThumbPlace(e), gap, hwfc, pad)
    {
      hide Counted, App1Size, AppxBytes, SegmentsAt, Exif.Valid, SegmentsWritten, ThumbPlace, App1Length;
      gap, pad := 0, 0;
      if e.Some? {
        if e.value.width != width || e.value.height != height {
          return false, gap, pad;
        }
        if e.value.enableThumb && (e.value.widthThumb != thumbWidth || e.value.heightThumb != thumbHeight) {
          return false, gap, pad;
        }
      }
      var align := Alignment();
      app.PrepareAppWriter(buf, JPEG_MARKER_SIZE, e, d);
      if e.Some? {
        App1Sized(e.value);
      }
      var appsize := app.CalculateAPPSize(0);
      InAdvance(e, old(app.szApp11));
      if streamSize <= appsize + NECESSARY_JPEG_LENGTH {
        return false, gap, pad;
      }
      var reserve := true;
      if e.None? || !e.value.enableThumb || streamSize < JPEG_MAX_SEGMENT_SIZE * 10 {
        reserve := false;
      }
      gap, pad := WriteSegments(reserve, align);
      return true, gap, pad;
    }

    // ----- Behind the compression ------------------------------------------------------------

    lemma PlacedFacts(gap: nat, pad: nat)
      requires Placed(gap, pad)
      ensures Supported(app.exif) && (app.exif.Some? ==> Exif.Valid(app.exif.value))
      ensures app.app1End == AppxBase(2, app.exif, gap)
      ensures app.mainBase == MainBase(2, app.exif, app.debug, gap, pad)
    {
      hide Exif.Valid, Counted, App1Size, AppxBytes, ThumbTooSmall;
    }

    /** Clears the SOI the hardware wrote: its two bytes end APP11. */
    method ClearSoi(ghost gap: nat, ghost pad: nat, ghost main: seq<byte>)
      requires Marked(gap, pad) && app.mainBase + 2 <= buf.Length
      requires |main| >= 2 ==> At(buf[..], app.mainBase, main)
      modifies buf
      ensures Placed(gap, pad) && Holds(App1Length(app.exif, gap), 0, gap, pad, main)
      ensures buf[..] == Splice(old(buf[..]), app.mainBase, [0, 0])
    {
      hide Exif.Valid, Counted, Planned, App1Length, ThumbPlace, SegmentsAt, App1Bytes, AppxBytes;
      PlacedFacts(gap, pad);
      Store(buf, app.mainBase, [0, 0]);
      if |main| >= 2 {
        SoiCleared(old(buf[..]), app.exif, app.debug, hwfc, App1Length(app.exif, gap), gap, pad, app.mainBase, main);
      }
    }

    /** memmove and UpdateApp1Size: APPx, APP11 and the main stream move up behind the thumbnail's place. */
    method MakeRoom(thumbLen: nat, mainLen: nat, ghost pad: nat, ghost main: seq<byte>)
      requires Placed(0, pad) && app.HasThumb() && |main| == mainLen && Holds(App1Length(app.exif, 0), 0, 0, pad, main)
      requires app.mainBase + mainLen + thumbLen <= buf.Length
      modifies buf
      ensures Holds(App1Length(app.exif, thumbLen), 0, thumbLen, pad, main)
      ensures buf[..] == Splice(MovedUp(old(buf[..]), app.app1End, app.mainBase + mainLen, thumbLen), 4,
                                BE16(App1Length(app.exif, thumbLen)))
    {
      hide Exif.Valid, Counted, Core, Moved, MovedUp, Agree, ThumbTooSmall, BE16, U16, App1Size, AppxBytes;
      ghost var was := buf[..];
      App1BytesOf(app.exif);
      MoveUp(buf, app.app1End, app.mainBase + mainLen, thumbLen);
      ghost var moved := buf[..];
      MovedUpMoves(was, app.app1End, app.mainBase + mainLen, thumbLen);
      if |main| >= 2 {
        CoreMoved(was, moved, app.exif, app.debug, hwfc, App1Length(app.exif, 0), thumbLen, pad, main);
      }
      app.UpdateApp1Size(thumbLen);
      if |main| >= 2 {
        CoreLength(moved, app.exif, app.debug, hwfc, App1Length(app.exif, 0), App1Length(app.exif, thumbLen), 0,
                   thumbLen, pad, main);
      }
    }

    /** The thumbnail stream, into the place kept for it. */
    method EmbedThumb(thumbLen: nat, ghost len: u16, ghost gap: nat, ghost pad: nat, ghost main: seq<byte>)
      requires app.buf == buf != thumbJpeg && 0 < thumbLen <= gap && thumbLen <= thumbJpeg.Length
      requires Supported(app.exif) && app.HasThumb() && app.thumbBase == Some(2 + App1Bytes(app.exif))
      requires app.thumbSizePlaceholder == Some(2 + App1Bytes(app.exif) - 8)
      requires 2 + App1Bytes(app.exif) + gap <= buf.Length && Holds(len, 0, gap, pad, main)
      modifies buf, app`thumbSizePlaceholder
      ensures Holds(len, U32(thumbLen), gap, pad, main)
      ensures At(buf[..], 2 + App1Bytes(app.exif), thumbJpeg[..thumbLen])
      ensures buf[..] == Splice(Splice(old(buf[..]), 2 + App1Bytes(app.exif), thumbJpeg[..thumbLen]),
                                2 + App1Bytes(app.exif) - 8, LE32(U32(thumbLen)))
    {
      hide Exif.Valid, Counted, Core, At, Agree, ThumbTooSmall, LE32, U32, App1Size, Splice;
      App1BytesOf(app.exif);
      ghost var was := buf[..];
      Store(buf, app.thumbBase.value, thumbJpeg[..thumbLen]);
      ghost var stored := buf[..];
      if |main| >= 2 {
        GapStored(was, app.exif, app.debug, hwfc, len, 0, gap, pad, main, 0, thumbJpeg[..thumbLen]);
      }
      app.Finalize(thumbLen);
      if |main| >= 2 {
        CoreFinalized(stored, app.exif, app.debug, hwfc, len, U32(thumbLen), gap, pad, main);
      }
      StoredStays(was, 2 + App1Bytes(app.exif), thumbJpeg[..thumbLen], 2 + App1Bytes(app.exif) - 8, LE32(U32(thumbLen)));
    }

    /** memset of what the thumbnail stream leaves free. */
    method ClearRest(thumbLen: nat, ghost thumb: seq<byte>, ghost len: u16, ghost tl: u32, ghost gap: nat, ghost pad: nat,
                     ghost main: seq<byte>)
      requires Supported(app.exif) && app.HasThumb() && app.thumbBase == Some(2 + App1Bytes(app.exif))
      requires |thumb| == thumbLen <= app.szMaxThumb == gap && At(buf[..], 2 + App1Bytes(app.exif), thumb)
      requires 2 + App1Bytes(app.exif) + gap <= buf.Length && Holds(len, tl, gap, pad, main)
      modifies buf
      ensures Holds(len, tl, gap, pad, main)
      ensures At(buf[..], 2 + App1Bytes(app.exif), thumb)
      ensures At(buf[..], 2 + App1Bytes(app.exif) + |thumb|, Zeros(gap - |thumb|))
      ensures buf[..] == Splice(old(buf[..]), 2 + App1Bytes(app.exif) + thumbLen, Zeros(gap - thumbLen))
    {
      hide Exif.Valid, Counted, Core, At, ThumbTooSmall, App1Size, App1Bytes;
      Store(buf, app.thumbBase.value + thumbLen, Zeros(app.szMaxThumb - thumbLen));
      SpliceAt(old(buf[..]), 2 + App1Bytes(app.exif) + |thumb|, Zeros(gap - |thumb|));
      AtStable(old(buf[..]), buf[..], 2 + App1Bytes(app.exif), thumb);
      if |main| >= 2 {
        GapStored(old(buf[..]), app.exif, app.debug, hwfc, len, tl, gap, pad, main, |thumb|, Zeros(gap - |thumb|));
      }
    }

    /** The thumbnail stream tried first. */
    method TryThumbnail(given: nat, scaled: bool, ghost offered: seq<byte>) returns (n: nat)
      requires phwjpeg4thumb.Fits(thumbJpeg.Length) && given <= thumbJpeg.Length && offered == thumbJpeg[..given]
      modifies phwjpeg4thumb, thumbJpeg
      ensures phwjpeg4thumb.Fits(thumbJpeg.Length) && n <= thumbJpeg.Length
      ensures Search(thumbJpeg[..n], phwjpeg4thumb.outputs)
           == FirstTry(ThumbSource(scaled), old(phwjpeg4thumb.outputs), offered, app.szMaxThumb, thumbQuality)
    {
      hide Searched;
      if thumbGenerated {
        n := 0;
        if scaled {
          n := phwjpeg4thumb.CompressThumbnailOnly(thumbJpeg, app.szMaxThumb, thumbQuality);
        }
      } else if noBtbComp || !btbSupported {
        n := phwjpeg4thumb.CompressThumbnailOnly(thumbJpeg, app.szMaxThumb, thumbQuality);
      } else {
        n := given;
      }
    }

    /** The length of the thumbnail stream to embed, -1 when none fits. */
    method ObtainThumbnail(given: nat, mainLen: nat, maxStream: nat, scaled: bool, ghost gap: nat, ghost pad: nat,
                           ghost offered: seq<byte>)
      returns (n: int)
      requires phwjpeg4thumb.Fits(thumbJpeg.Length) && buf != thumbJpeg
      requires given <= thumbJpeg.Length && offered == thumbJpeg[..given]
      requires Placed(gap, pad) && app.HasThumb() && app.mainBase + mainLen <= maxStream
      modifies phwjpeg4thumb, thumbJpeg
      ensures n == -1 || 0 <= n <= thumbJpeg.Length
      ensures n <= app.szMaxThumb && n <= maxStream - app.mainBase - mainLen
      ensures Obtained(ThumbSource(scaled), old(phwjpeg4thumb.outputs), offered, app.szMaxThumb,
                       thumbQuality, maxStream - app.mainBase - mainLen)
           == if n == -1 then None else Some(thumbJpeg[..n])
      ensures n > 0 ==> ThumbnailFrom(old(phwjpeg4thumb.outputs), offered, thumbJpeg[..n])
    {
      hide Placed, Planned, Searched, FirstTry, ThumbnailFrom, ThumbSource, ThumbnailCompressor.Fits;
      ghost var src, before := ThumbSource(scaled), phwjpeg4thumb.outputs;
      ObtainedFrom(src, before, offered, app.szMaxThumb, thumbQuality, maxStream - app.mainBase - mainLen);
      n := TryThumbnail(given, scaled, offered);
      var appsize := app.CalculateAPPSize(0);
      PlacedSize(gap, pad);
      var room := maxStream - appsize - mainLen;
      var maxThumb := if app.szMaxThumb < room then app.szMaxThumb else room;
      if n > maxThumb {
        n := phwjpeg4thumb.CompressThumbnailOnly(thumbJpeg, maxThumb, 50);
        if n == 0 {
          return -1;
        }
      }
    }

    lemma PlacedSize(gap: nat, pad: nat)
      requires Placed(gap, pad)
      ensures app.AppSize(0) == app.mainBase
    {
      hide Exif.Valid, Counted, App1Size, ThumbTooSmall, AppxSize;
      App1BytesOf(app.exif);
      if app.exif.Some? {
        App1Sized(app.exif.value);
      } else if app.debug.None? {
        NothingInFront(app.exif, app.debug);
      }
    }

    /** Everything is in its place but the SOI. */
    ghost predicate Embedded(thumb: seq<byte>, rest: nat, pad: nat, main: seq<byte>)
      requires app.exif.Some? ==> Exif.Valid(app.exif.value)
      reads `hwfc, app, buf
    {
      && |thumb| + rest < 0x1_0000_0000 && (!app.HasThumb() ==> thumb == [] && rest == 0)
      && Holds(App1Length(app.exif, |thumb| + rest), |thumb|, |thumb| + rest, pad, main)
      && (app.exif.Some? ==>
            At(buf[..], 2 + App1Bytes(app.exif), thumb) && At(buf[..], 2 + App1Bytes(app.exif) + |thumb|, Zeros(rest)))
    }

    /** The thumbnail stream, if it is not empty, behind what makes room for it. */
    method InsertThumbnail(n: nat, mainLen: nat, reserved: bool, ghost gap: nat, ghost pad: nat, ghost main: seq<byte>)
      requires app.buf == buf != thumbJpeg && Placed(if reserved then gap else 0, pad) && app.HasThumb() && |main| == mainLen
      requires Holds(App1Length(app.exif, if reserved then gap else 0), 0, if reserved then gap else 0, pad, main)
      requires n <= thumbJpeg.Length && n <= gap <= app.szMaxThumb && app.mainBase + mainLen + n <= buf.Length
      requires !reserved ==> gap == n
      modifies buf, app`thumbSizePlaceholder
      ensures Holds(App1Length(app.exif, gap), U32(n), gap, pad, main)
      ensures At(buf[..], 2 + App1Bytes(app.exif), thumbJpeg[..n])
      ensures buf[..] == ThumbInserted(old(buf[..]), 2 + App1Bytes(app.exif), app.mainBase + mainLen, thumbJpeg[..n],
                                       !reserved, App1Length(app.exif, n))
    {
      hide Exif.Valid, Counted, ThumbTooSmall, App1Length, App1Size, App1Bytes, AppxBytes;
      hide Embedded, Holds, At, Planned, Placed, MainBase, MovedUp, Splice, BE16, LE32;
      PlacedRoom(if reserved then gap else 0, pad);
      if !reserved {
        MakeRoom(n, mainLen, pad, main);
      }
      if n > 0 {
        EmbedThumb(n, App1Length(app.exif, gap), gap, pad, main);
      } else {
        AtNothing(buf[..], 2 + App1Bytes(app.exif), thumbJpeg[..n]);
      }
    }

    /** The thumbnail stream put into APP1; `rest` zeros follow it there. */
    method PlaceThumbnail(n: nat, mainLen: nat, ghost gap: nat, ghost pad: nat, ghost main: seq<byte>)
      returns (ghost rest: nat)
      requires app.buf == buf != thumbJpeg && Placed(gap, pad) && app.HasThumb() && |main| == mainLen
      requires Holds(App1Length(app.exif, gap), 0, gap, pad, main)
      requires n <= thumbJpeg.Length && n <= app.szMaxThumb && app.mainBase + mainLen + n <= buf.Length
      modifies buf, app`thumbSizePlaceholder
      ensures rest == (if gap == 0 then 0 else gap - n) && n + rest <= app.szMaxThumb
      ensures Embedded(thumbJpeg[..n], rest, pad, main)
      ensures buf[..] == ThumbPlaced(old(buf[..]), 2 + App1Bytes(app.exif), app.mainBase + mainLen, thumbJpeg[..n],
                                     gap != app.szMaxThumb, App1Length(app.exif, n), rest)
    {
      hide Exif.Valid, Counted, ThumbTooSmall, App1Length, App1Size, App1Bytes, AppxBytes;
      hide Embedded, Holds, At, Planned, Placed, Zeros, MainBase, Splice, ThumbInserted;
      PlacedRoom(gap, pad);
      var reserved := app.IsThumbSpaceReserved();
      rest := if gap == 0 then 0 else gap - n;
      InsertThumbnail(n, mainLen, reserved, n + rest, pad, main);
      if reserved {
        ClearRest(n, thumbJpeg[..n], App1Length(app.exif, n + rest), U32(n), n + rest, pad, main);
      } else {
        AtNothing(buf[..], 2 + App1Bytes(app.exif) + n, Zeros(rest));
      }
      IsEmbedded(thumbJpeg[..n], rest, pad, main);
    }

    lemma IsEmbedded(thumb: seq<byte>, rest: nat, pad: nat, main: seq<byte>)
      requires Supported(app.exif) && app.HasThumb() && |thumb| + rest < 0x1_0000_0000
      requires Holds(App1Length(app.exif, |thumb| + rest), U32(|thumb|), |thumb| + rest, pad, main)
      requires At(buf[..], 2 + App1Bytes(app.exif), thumb) && At(buf[..], 2 + App1Bytes(app.exif) + |thumb|, Zeros(rest))
      ensures Embedded(thumb, rest, pad, main)
    {
      hide Exif.Valid, Core, ThumbTooSmall, App1Length, App1Size, App1Bytes, At, Zeros;
    }

    lemma PlacedRoom(gap: nat, pad: nat)
      requires Placed(gap, pad) && app.HasThumb()
      ensures Supported(app.exif) && app.thumbBase == Some(2 + App1Bytes(app.exif))
      ensures app.thumbSizePlaceholder == Some(2 + App1Bytes(app.exif) - 8)
      ensures app.IsThumbSpaceReserved() <==> gap == app.szMaxThumb
      ensures gap == 0 || gap == app.szMaxThumb
      ensures app.app1End == 2 + App1Bytes(app.exif) + gap && 8 <= app.app1End - gap
      ensures 2 + App1Bytes(app.exif) + gap + 4 <= app.mainBase && app.szMaxThumb <= JPEG_MAX_SEGMENT_SIZE
      ensures App1Size(app.exif.value) + app.szMaxThumb == JPEG_MAX_SEGMENT_SIZE
    {
      hide Exif.Valid, Counted, App1Size, ThumbTooSmall, AppxBytes;
      App1BytesOf(app.exif);
    }

    /** Memory with the thumbnail stream in its place, if the record has one. */
    ghost function WithThumbnail(was: seq<byte>, mainLen: nat, thumb: seq<byte>, gap: nat, rest: nat): seq<byte>
      requires Supported(app.exif)
      reads app
    {
      if app.HasThumb() then
        ThumbPlaced(was, 2 + App1Bytes(app.exif), app.mainBase + mainLen, thumb, gap != app.szMaxThumb,
                    App1Length(app.exif, |thumb|), rest)
      else was
    }

    /** The thumbnail stream, if the record has one: compressed, and put into APP1. */
    method EmbedThumbnail(given: nat, mainLen: nat, maxStream: nat, scaled: bool, ghost gap: nat, ghost pad: nat,
                          ghost main: seq<byte>, ghost offered: seq<byte>)
      returns (thumbLen: int, ghost thumb: seq<byte>, ghost rest: nat)
      requires app.buf == buf != thumbJpeg && Placed(gap, pad) && |main| == mainLen
      requires Holds(App1Length(app.exif, gap), 0, gap, pad, main)
      requires phwjpeg4thumb.Fits(thumbJpeg.Length) && given <= thumbJpeg.Length && offered == thumbJpeg[..given]
      requires app.mainBase + mainLen <= maxStream <= buf.Length
      modifies app`thumbSizePlaceholder, buf, phwjpeg4thumb, thumbJpeg
      ensures thumbLen == -1 || thumbLen == |thumb|
      ensures ThumbFor(app.exif, ThumbSource(scaled), old(phwjpeg4thumb.outputs), offered, app.szMaxThumb, thumbQuality,
                       maxStream - app.mainBase - mainLen)
           == if thumbLen == -1 then None else Some(thumb)
      ensures !app.HasThumb() ==> thumbLen >= 0
      ensures Supported(app.exif)
      ensures thumbLen >= 0 ==>
        && |thumb| + rest <= app.szMaxThumb && Embedded(thumb, rest, pad, main)
        && app.AppSize(thumbLen) == MainBase(2, app.exif, app.debug, |thumb| + rest, pad)
        && app.AppSize(thumbLen) + mainLen <= maxStream
        && (app.exif.Some? ==> App1Size(app.exif.value) + |thumb| + rest <= JPEG_MAX_SEGMENT_SIZE)
        && (thumb != [] ==> ThumbnailFrom(old(phwjpeg4thumb.outputs), offered, thumb))
        && rest == (if gap == 0 then 0 else gap - |thumb|)
        && buf[..] == WithThumbnail(old(buf[..]), mainLen, thumb, gap, rest)
    {
      hide Exif.Valid, Counted, Planned, Core, ThumbTooSmall, App1Size, App1Bytes, AppxBytes, SegmentsAt;
      hide IsEoiEnd, HasNoEoi, ThumbnailFrom, ThumbPlace, U16, App1Length, Embedded, Holds, At, Placed, ThumbPlaced;
      hide Obtained, ThumbSource, ThumbnailCompressor.Fits;
      PlacedFacts(gap, pad);
      thumb, rest := [], 0;
      if app.thumbBase.None? {
        PlacedWithThumb(gap, pad);
        PlacedTotal(gap, pad, 0);
        EmbeddedNothing(pad, main);
        return 0, [], 0;
      }
      PlacedWithThumb(gap, pad);
      thumbLen := ObtainThumbnail(given, mainLen, maxStream, scaled, gap, pad, offered);
      if thumbLen >= 0 {
        PlacedRoom(gap, pad);
        PlacedTotal(gap, pad, thumbLen);
        rest := PlaceThumbnail(thumbLen, mainLen, gap, pad, main);
        thumb := thumbJpeg[..thumbLen];
      }
    }

    /** The main stream cut behind its last EOI. */
    method CutMain(mainLen: nat, ghost stream: seq<byte>) returns (n: nat, ghost main: seq<byte>)
      requires 2 <= mainLen == |stream| && At(buf[..], app.mainBase, stream)
      ensures n == |main| <= mainLen && |main| != 1 && At(buf[..], app.mainBase, main)
      ensures CutAtEoi(stream, main)
    {
      hide IsEoiEnd, HasNoEoi;
      assert buf[app.mainBase..app.mainBase + mainLen] == stream;
      n := RemoveTrailingDummies(buf, app.mainBase, mainLen);
      main := stream[..n];
      assert buf[..][app.mainBase..app.mainBase + n] == main;
    }

    /** The buffer holds an assembled stream of `size` bytes, if there is a main stream. */
    ghost predicate Delivered(size: int, thumb: seq<byte>, rest: nat, pad: nat, main: seq<byte>)
      requires Supported(app.exif)
      reads `hwfc, app, buf
    {
      && size == StreamLength(app.exif, app.debug, |thumb| + rest, pad, main)
      && (app.exif.Some? ==> App1Size(app.exif.value) + |thumb| + rest <= JPEG_MAX_SEGMENT_SIZE)
      && (main != [] ==> Assembled(buf[..], app.exif, app.debug, hwfc, thumb, rest, pad, main))
    }

    /** Memory when the stream is finished behind the first `n` bytes of the main stream. */
    ghost function Completed(was: seq<byte>, n: nat, thumb: seq<byte>, gap: nat, rest: nat): seq<byte>
      requires Supported(app.exif)
      reads app
    {
      Splice(WithThumbnail(Splice(was, app.mainBase, [0, 0]), n, thumb, gap, rest), 0, [0xFF, 0xD8])
    }

    lemma CompletedIs(was: seq<byte>, n: nat, thumb: seq<byte>, gap: nat, rest: nat)
      requires Supported(app.exif)
      ensures Completed(was, n, thumb, gap, rest)
           == FinishedMemory(was, app.mainBase, n, 2 + App1Bytes(app.exif), if app.HasThumb() then Some(thumb) else None,
                             gap != app.szMaxThumb, App1Length(app.exif, |thumb|), rest)
    {
      hide Exif.Valid, App1Size, Splice, ThumbPlaced, ThumbTooSmall;
    }

    /**
      FinishCompression, behind a main stream of `mainLen` bytes and a given
      thumbnail stream of `given` bytes. The source's check for room behind
      the move can never fail: ObtainThumbnail keeps within the room.
      */
    method FinishCompression(mainLen: nat, given: nat, scaled: bool, ghost gap: nat, ghost pad: nat,
                             ghost stream: seq<byte>, ghost offered: seq<byte>)
      returns (size: int, ghost main: seq<byte>, ghost thumb: seq<byte>, ghost rest: nat)
      requires app.buf == buf && Ready(gap, pad) && 3 <= mainLen && app.mainBase + mainLen <= streamSize
      requires |stream| == mainLen && At(buf[..], app.mainBase, stream)
      requires phwjpeg4thumb.Fits(thumbJpeg.Length) && given <= thumbJpeg.Length && offered == thumbJpeg[..given]
      modifies `streamSize, app`thumbSizePlaceholder, buf, phwjpeg4thumb, thumbJpeg
      ensures CutAtEoi(stream, main)
      ensures size == -1 || size == streamSize <= old(streamSize)
      ensures ThumbFor(app.exif, ThumbSource(scaled), old(phwjpeg4thumb.outputs), offered, app.szMaxThumb, thumbQuality,
                       old(streamSize) - app.mainBase - |main|)
           == if size == -1 then None else Some(thumb)
      ensures size >= 0 ==>
        && Supported(app.exif) && Delivered(size, thumb, rest, pad, main)
        && (thumb != [] ==> ThumbnailFrom(old(phwjpeg4thumb.outputs), offered, thumb))
        && rest == (if gap == 0 then 0 else gap - |thumb|)
        && buf[..] == Completed(old(buf[..]), |main|, thumb, gap, rest)
      ensures !app.HasThumb() ==> size >= 0
    {
      hide Exif.Valid, Planned, Core, ThumbTooSmall, App1Size, App1Bytes, AppxBytes, SegmentsAt;
      hide IsEoiEnd, HasNoEoi, ThumbnailFrom, ThumbPlace, App1Length, Placed, Embedded, Assembled;
      hide Splice, ThumbPlaced, CutAtEoi, At, ThumbFor, ThumbSource, WithThumbnail, ThumbnailCompressor.Fits;
      PlacedFacts(gap, pad);
      var maxStream := streamSize;
      streamSize := 0;
      var n;
      n, main := CutMain(mainLen, stream);
      ClearSoi(gap, pad, main);
      var thumbLen;
      thumbLen, thumb, rest := EmbedThumbnail(given, n, maxStream, scaled, gap, pad, main, offered);
      if thumbLen < 0 {
        return -1, main, thumb, rest;
      }
      var appsize := app.CalculateAPPSize(thumbLen);
      streamSize := appsize + n;
      StampSoi(thumb, rest, pad, main);
      size := streamSize;
    }

    /** The SOI in front of everything. */
    method StampSoi(ghost thumb: seq<byte>, ghost rest: nat, ghost pad: nat, ghost main: seq<byte>)
      requires 2 <= buf.Length && Supported(app.exif) && Embedded(thumb, rest, pad, main) && |main| != 1
      modifies buf
      ensures main != [] ==> Assembled(buf[..], app.exif, app.debug, hwfc, thumb, rest, pad, main)
      ensures buf[..] == Splice(old(buf[..]), 0, [0xFF, 0xD8])
    {
      hide Exif.Valid, ThumbTooSmall, Core, App1Size, App1Bytes, At, Assembled, Zeros, ThumbPlace, U16, Splice;
      ghost var was := buf[..];
      Store(buf, 0, [0xFF, 0xD8]);
      if main != [] {
        Finished(was, app.exif, app.debug, hwfc, App1Length(app.exif, |thumb| + rest), |thumb|, thumb, rest, pad, main);
      }
    }

    /** What CalculateAPPSize says, once the thumbnail stream is `n` long. */
    lemma PlacedTotal(gap: nat, pad: nat, n: nat)
      requires Placed(gap, pad) && (if app.HasThumb() then n <= app.szMaxThumb else n == 0)
      ensures app.AppSize(n) == MainBase(2, app.exif, app.debug, if gap == 0 then n else gap, pad)
    {
      hide Exif.Valid, Counted, App1Size, ThumbTooSmall, AppxSize;
      App1BytesOf(app.exif);
      if app.exif.Some? {
        App1Sized(app.exif.value);
      } else if app.debug.None? {
        NothingInFront(app.exif, app.debug);
      }
    }

    lemma EmbeddedNothing(pad: nat, main: seq<byte>)
      requires Supported(app.exif) && !app.HasThumb() && Holds(App1Length(app.exif, 0), 0, 0, pad, main)
      requires app.exif.Some? ==> 2 + App1Bytes(app.exif) <= buf.Length
      ensures Embedded([], 0, pad, main)
    {
      hide Exif.Valid, ThumbTooSmall, Core, App1Length, App1Size, App1Bytes;
    }

    lemma PlacedWithThumb(gap: nat, pad: nat)
      requires Placed(gap, pad)
      ensures app.thumbBase.Some? <==> app.HasThumb()
      ensures !app.HasThumb() ==> gap == 0 && app.szMaxThumb == 0
      ensures app.exif.Some? ==> App1Size(app.exif.value) <= JPEG_MAX_SEGMENT_SIZE
      ensures app.exif.Some? ==> 2 + App1Bytes(app.exif) <= app.mainBase
    {
      hide Exif.Valid, Counted, App1Size, ThumbTooSmall, AppxSize, App1Bytes;
    }

    lemma ReadyFacts(gap: nat, pad: nat)
      requires Ready(gap, pad)
      ensures app.buf == buf && Supported(app.exif) && (app.exif.Some? ==> Exif.Valid(app.exif.value))
      ensures app.mainBase == MainBase(2, app.exif, app.debug, gap, pad) && (app.exif.None? ==> gap == 0) && pad < 16
      ensures app.szMaxThumb == MaxThumb(app.exif) && buf != thumbJpeg && app.mainBase < streamSize <= buf.Length
    {
      hide Exif.Valid, Counted, App1Size, AppxBytes, ThumbTooSmall, SegmentsAt;
    }

    /** The bytes kept free for the thumbnail stream, in large buffers only. */
    ghost function Reserve(size: nat, e: Option<Attributes>): int
      requires Supported(e)
    {
      if size >= JPEG_MAX_SEGMENT_SIZE * 10 then MaxThumb(e) else 0
    }

    /** Where the hardware is to store the main stream. */
    ghost function MainPlace(size: nat, e: Option<Attributes>, d: Option<Debug>): int
      requires Supported(e)
      reads `noStreamBaseAlign
    {
      var gap := Reserve(size, e);
      MainBase(2, e, d, gap, App11Pad(bufAddr + App11Base(2, e, d, gap), Alignment()))
    }

    /** The call gets as far as the compression, and a main stream of `n` bytes has room. */
    ghost predicate Compresses(size: nat, e: Option<Attributes>, d: Option<Debug>, szApp11: nat, n: nat)
      requires Supported(e)
      reads `width, `height, `thumbWidth, `thumbHeight, `noStreamBaseAlign
    {
      && SameSizes(e) && size > SizeInAdvance(e, d, szApp11) + NECESSARY_JPEG_LENGTH
      && MainPlace(size, e, d) + n <= size
    }

    /** The thumbnail stream a call embeds, empty if it embeds none; nothing if it fails. */
    ghost function Embeds(size: nat, e: Option<Attributes>, d: Option<Debug>, szApp11: nat, stream: seq<byte>,
                          outputs: seq<Option<seq<byte>>>, given: seq<byte>, scaled: bool): Option<seq<byte>>
      requires Supported(e)
      reads `width, `height, `thumbWidth, `thumbHeight, `noStreamBaseAlign
      reads `thumbGenerated, `noBtbComp, `btbSupported, `thumbQuality
    {
      if !Compresses(size, e, d, szApp11, |stream|) then None
      else ThumbFor(e, ThumbSource(scaled), outputs, given, MaxThumb(e), thumbQuality, size - MainPlace(size, e, d) - |Cut(stream)|)
    }

    /** Which stream is embedded in which mode: without scaling none, back to back the one given, and otherwise the
        one the search finds, when it fits. */
    lemma {:induction false} EmbedsBySource(size: nat, e: Option<Attributes>, d: Option<Debug>, szApp11: nat,
                                            stream: seq<byte>, outputs: seq<Option<seq<byte>>>, given: seq<byte>, scaled: bool)
      requires Supported(e) && e.Some? && e.value.enableThumb && Compresses(size, e, d, szApp11, |stream|)
      ensures var room := size - MainPlace(size, e, d) - |Cut(stream)|;
        var r := Embeds(size, e, d, szApp11, stream, outputs, given, scaled);
        && (thumbGenerated && !scaled ==> r == Some([]))
        && (!thumbGenerated && !noBtbComp && btbSupported && |given| <= MaxThumb(e) && |given| <= room ==> r == Some(given))
        && ((thumbGenerated && scaled) || (!thumbGenerated && (noBtbComp || !btbSupported)) ==>
              forall k: nat | Succeeds(outputs, MaxThumb(e), thumbQuality, k) && |Cut(outputs[k].value)| <= room ::
                r == Some(Cut(outputs[k].value)))
    {
      hide Exif.Valid, Searched, Succeeds, App1Size, ThumbTooSmall, Compresses, MainPlace;
      var max, room := MaxThumb(e), size - MainPlace(size, e, d) - |Cut(stream)|;
      assert room >= 0 && max >= 0 by {
        CutsPrefix([Some(stream)]);
        assert MainPlace(size, e, d) + |stream| <= size by { RoomLeft(size, e, d, szApp11, |stream|); }
      }
      hide Cut;
      SearchedExactly(outputs, max, thumbQuality);
    }

    lemma RoomLeft(size: nat, e: Option<Attributes>, d: Option<Debug>, szApp11: nat, n: nat)
      requires Supported(e) && Compresses(size, e, d, szApp11, n)
      ensures MainPlace(size, e, d) + n <= size
    {
      hide MainPlace, SizeInAdvance, SameSizes, Supported;
    }

    /** What the hardware stores behind the segments; its SOI overwrites APP11's last bytes. */
    method StoreMain(stream: seq<byte>, ghost gap: nat, ghost pad: nat)
      requires Ready(gap, pad) && app.mainBase + |stream| <= buf.Length
      modifies buf
      ensures Ready(gap, pad) && At(buf[..], app.mainBase, stream)
      ensures buf[..] == Splice(old(buf[..]), app.mainBase, stream)
    {
      hide Exif.Valid, Placed, SegmentsAt, App1Bytes, AppxBytes, ThumbPlace, App1Length, ThumbTooSmall, App1Size, At;
      hide Supported;
      ReadyFacts(gap, pad);
      ghost var was := buf[..];
      Store(buf, app.mainBase, stream);
      MainStored(was, app.exif, app.debug, App1Length(app.exif, gap), gap, hwfc, pad, app.mainBase, stream);
    }

    /**
      encode, with what the hardware makes of the main image (`stream`) and, back to
      back, of the thumbnail image (`given`). The result is the stream's length, or -1.
      A debug record that is not accepted leaves the previous call's in its place.
      */
    method Encode(size: nat, e: Option<Attributes>, d: Option<Debug>, stream: seq<byte>, given: seq<byte>, scaled: bool)
      returns (r: int, ghost main: seq<byte>, ghost thumb: seq<byte>, ghost gap: nat, ghost rest: nat, ghost pad: nat)
      requires Valid() && Supported(e) && size <= buf.Length
      requires 4 < |stream| && |given| <= thumbJpeg.Length && phwjpeg4thumb.Fits(thumbJpeg.Length)
      modifies `streamSize, app, buf, phwjpeg4thumb, thumbJpeg
      ensures Valid() && (r == -1 || r == streamSize <= size)
      ensures r >= 0 && noStreamBaseAlign ==> pad == 0
      ensures r >= 0 && !noStreamBaseAlign && (e.Some? || app.debug.Some?) ==> (bufAddr + app.mainBase) % 16 == 0
      ensures Embeds(size, e, InForce(old(app.debug), d), old(app.szApp11), stream, old(phwjpeg4thumb.outputs), given, scaled)
           == if r == -1 then None else Some(thumb)
      ensures r >= 0 ==>
        && app.debug == InForce(old(app.debug), d)
        && CutAtEoi(stream, main) && main == Cut(stream) && pad < 16 && r == StreamLength(e, app.debug, |thumb| + rest, pad, main)
        && (e.Some? ==> App1Size(e.value) + |thumb| + rest <= JPEG_MAX_SEGMENT_SIZE)
        && (thumb != [] ==> ThumbnailFrom(old(phwjpeg4thumb.outputs), given, thumb))
        && (main != [] ==> Assembled(buf[..], e, app.debug, hwfc, thumb, rest, pad, main))
      ensures r >= 0 ==>
        && gap == Reserve(size, e)
        && rest == (if gap == 0 then 0 else gap - |thumb|)
        && pad == App11Pad(bufAddr + App11Base(2, e, app.debug, gap), Alignment())
        && app.mainBase == MainBase(2, e, app.debug, gap, pad)
        && buf[..] == RunMemory(old(buf[..]), e, app.debug, hwfc, stream, app.mainBase, |main|, thumb, gap, rest, pad)
    {
      hide Exif.Valid, Ready, App1Size, App1Bytes, AppxBytes, SegmentsAt, CutAtEoi, ThumbnailFrom, Assembled;
      hide ThumbTooSmall, IsEoiEnd, HasNoEoi, SegmentsWritten, FinishedMemory, Splice, App1Length, App11Pad;
      hide ThumbFor, ThumbSource, ThumbnailCompressor.Fits, Cut, InForce, Completed, MainBase, SizeInAdvance, SameSizes;
      hide StreamLength, App11Base, Alignment, ThumbPlace, Debug.Accepted;
      main, thumb, gap, rest, pad := [], [], 0, 0, 0;
      if size == 0 {
        return -1, main, thumb, gap, rest, pad;
      }
      streamSize := size;
      var ok;
      ok, gap, pad := ProcessExif(e, d);
      if !ok {
        return -1, main, thumb, gap, rest, pad;
      }
      ReadyFacts(gap, pad);
      if app.mainBase + |stream| > streamSize {
        return -1, main, thumb, gap, rest, pad;
      }
      ghost var before := buf[..];
      r, main, thumb, rest := CompressAndFinish(stream, given, scaled, gap, pad);
      CutIsOnly(stream, main);
      if r >= 0 {
        CompletedIs(Splice(before, app.mainBase, stream), |main|, thumb, gap, rest);
      }
    }

    /** What the hardware stores beside the main stream. */
    method StoreGiven(given: seq<byte>)
      requires |given| <= thumbJpeg.Length
      modifies thumbJpeg
      ensures thumbJpeg[..|given|] == given
    {
      hide Splice;
      ghost var was := thumbJpeg[..];
      Store(thumbJpeg, 0, given);
      StoredFront(was, given);
      assert thumbJpeg[..|given|] == thumbJpeg[..][..|given|];
    }

    /** The streams of the hardware, and the end. */
    method CompressAndFinish(stream: seq<byte>, given: seq<byte>, scaled: bool, ghost gap: nat, ghost pad: nat)
      returns (r: int, ghost main: seq<byte>, ghost thumb: seq<byte>, ghost rest: nat)
      requires Ready(gap, pad) && 4 < |stream| && app.mainBase + |stream| <= streamSize
      requires |given| <= thumbJpeg.Length && phwjpeg4thumb.Fits(thumbJpeg.Length)
      modifies `streamSize, app`thumbSizePlaceholder, buf, phwjpeg4thumb, thumbJpeg
      ensures (r == -1 || r == streamSize <= old(streamSize)) && CutAtEoi(stream, main)
      ensures ThumbFor(app.exif, ThumbSource(scaled), old(phwjpeg4thumb.outputs), given, app.szMaxThumb, thumbQuality,
                       old(streamSize) - app.mainBase - |main|)
           == if r == -1 then None else Some(thumb)
      ensures r >= 0 ==>
        && Supported(app.exif) && Delivered(r, thumb, rest, pad, main)
        && (thumb != [] ==> ThumbnailFrom(old(phwjpeg4thumb.outputs), given, thumb))
        && rest == (if gap == 0 then 0 else gap - |thumb|)
        && buf[..] == Completed(Splice(old(buf[..]), app.mainBase, stream), |main|, thumb, gap, rest)
    {
      hide Exif.Valid, Ready, Supported, Delivered, CutAtEoi, ThumbnailFrom, Cut, ThumbFor, ThumbSource, Completed, Splice, MainBase, At;
      hide ThumbnailCompressor.Fits, App1Size, AppxSize;
      ReadyFacts(gap, pad);
      StoreMain(stream, gap, pad);
      StoreGiven(given);
      r, main, thumb, rest := FinishCompression(|stream|, |given|, scaled, gap, pad, stream, given);
    }
  }

  /** The debug record in force: one that is refused leaves the previous call's. */
  function InForce(previous: Option<Debug>, d: Option<Debug>): Option<Debug> {
    if d.Some? && !d.value.Accepted() then previous else d
  }

  /** The bytes up to the last EOI; none if there is no EOI. */
  ghost predicate CutAtEoi(stream: seq<byte>, main: seq<byte>) {
    && |main| <= |stream| && main == stream[..|main|]
    && (main == [] ==> HasNoEoi(stream)) && (main != [] ==> IsEoiEnd(stream, |main|))
  }

  lemma StoredFront(s: seq<byte>, d: seq<byte>)
    requires |d| <= |s|
    ensures Splice(s, 0, d)[..|d|] == d
  {
  }

  lemma CutIsOnly(stream: seq<byte>, main: seq<byte>)
    requires CutAtEoi(stream, main)
    ensures main == Cut(stream)
  {
    hide IsEoiEnd, HasNoEoi;
    EoiEndOnly(stream, |main|);
  }

  /** A thumbnail stream comes from the back-to-back compression, or from one of the
      compressor's outputs, cut behind its last EOI. */
  ghost predicate ThumbnailFrom(outputs: seq<Option<seq<byte>>>, given: seq<byte>, thumb: seq<byte>) {
    || thumb == given
    || exists o :: o in outputs && o.Some? && IsEoiEnd(o.value, |thumb|) && thumb == o.value[..|thumb|]
  }
}
