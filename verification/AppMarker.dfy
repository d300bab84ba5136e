/**
  The writer of application segments (AppMarkerWriter): APP1 with the Exif
  directories, the debug segments APP4..APP9, and the aligning segment APP11.
*/
module AppMarker {
  import opened Bytes
  import opened Exif
  import opened IfdWriter
  import opened Tiff
  import opened Wrappers

  const JPEG_MAX_SEGMENT_SIZE := 65435
  const JPEG_MARKER_SIZE := 2
  const JPEG_SEGMENT_LENFIELD_SIZE := 2
  const EXTRA_APPMARKER_MIN := 4
  const EXTRA_APPMARKER_LIMIT := 10

  const EXIF_IDENTIFIER: seq<byte> := [0x45, 0x78, 0x69, 0x66, 0, 0]
  const TIFF_HEADER: seq<byte> := [0x49, 0x49, 0x2A, 0, 8, 0, 0, 0]

  /** debug_attribute_t: the segment numbers to write, and the bytes of each number. */
  datatype Debug = Debug(ids: seq<int>, data: seq<seq<byte>>) {
    function Data(id: int): seq<byte> {
      if 0 <= id < |data| then data[id] else []
    }

    /** What PrepareAppWriter accepts. */
    predicate Accepted() {
      && |ids| <= EXTRA_APPMARKER_LIMIT - EXTRA_APPMARKER_MIN
      && forall k | 0 <= k < |ids| :: AcceptedId(ids[k])
    }

    predicate AcceptedId(id: int) {
      && EXTRA_APPMARKER_MIN <= id < EXTRA_APPMARKER_LIMIT
      && 0 < |Data(id)| <= JPEG_MAX_SEGMENT_SIZE - JPEG_SEGMENT_LENFIELD_SIZE
    }
  }

  /** At most six segments, APP4 to APP9, each with bytes that a length of two bytes leaves room for. */
  lemma {:induction false} AcceptedExactly(d: Debug)
    ensures d.Accepted() <==>
      && |d.ids| <= 6
      && forall k | 0 <= k < |d.ids| :: 4 <= d.ids[k] <= 9 && d.ids[k] < |d.data| && 1 <= |d.data[d.ids[k]]| <= 65433
  {
    forall k | 0 <= k < |d.ids|
      ensures d.AcceptedId(d.ids[k])
         <==> 4 <= d.ids[k] <= 9 && d.ids[k] < |d.data| && 1 <= |d.data[d.ids[k]]| <= 65433
    {
    }
  }

  /** The bytes of APP1 behind its marker, without the thumbnail stream. */
  function App1Size(e: Attributes): nat
    requires Exif.Valid(e)
  {
    16 + IfdSize(Zeroth(e)) + if e.enableThumb then 78 else 0
  }

  // ----- What the methods store -------------------------------------------------

  function App1Head(mem: seq<byte>, at: nat, len: Option<u16>): seq<byte> {
    var m1 := Splice(mem, at, [0xFF, 0xE1]);
    var m2 := if len.Some? then Splice(m1, at + 2, BE16(len.value)) else m1;
    Splice(Splice(m2, at + 4, EXIF_IDENTIFIER), at + 10, TIFF_HEADER)
  }

  /** APP1 written with its length, its directories and their chain. */
  function App1Written(mem: seq<byte>, at: nat, e: Attributes, len: u16, thumbOffset: u32): seq<byte>
    requires Exif.Valid(e)
  {
    var z := IfdWritten(App1Head(mem, at, Some(len)), at + 10, at + 18, Zeroth(e), e.enableThumb);
    if e.enableThumb then
      IfdWritten(z, at + 10, at + 18 + IfdSize(Zeroth(e)), ThumbFields(e, thumbOffset, 0), false)
    else z
  }

  /** APP1 overwritten without length, chain and 1st IFD. */
  function App1Updated(mem: seq<byte>, at: nat, e: Attributes): seq<byte>
    requires Exif.Valid(e)
  {
    PutFields(OpenIfd(App1Head(mem, at, None), at + 18, |Zeroth(e)|), at + 10, Zeroth(e)).mem
  }

  /** One debug segment: its marker and its length, and its bytes unless they are only reserved. */
  function AppxStep(mem: seq<byte>, at: nat, id: int, data: seq<byte>, reserve: bool): seq<byte> {
    var m1 := Splice(Splice(mem, at, [0xFF, AppxMarker(id)]), at + 2, BE16(U16(|data| + 2)));
    if reserve then m1 else Splice(m1, at + 4, data)
  }

  function AppxWritten(mem: seq<byte>, at: nat, d: Debug, n: nat, reserve: bool): (r: seq<byte>)
    requires n <= |d.ids|
    ensures |r| == |mem|
  {
    if n == 0 then mem
    else
      var id := d.ids[n - 1];
      AppxStep(AppxWritten(mem, at, d, n - 1, reserve), at + AppxSize(d, n - 1), id, d.Data(id), reserve)
  }

  function AppxMarker(id: int): byte {
    0xE0 + id % 0x10
  }

  function AppxSize(d: Debug, n: nat): nat
    requires n <= |d.ids|
  {
    if n == 0 then 0 else AppxSize(d, n - 1) + 4 + |d.Data(d.ids[n - 1])|
  }

  /** The bytes APP11 needs so that what follows its length field is aligned. */
  function App11Pad(addr: nat, align: nat): (pad: nat)
    requires align == 1 || align == 16
    ensures pad < 16
  {
    if align == 1 then 0
    else
      var r := (addr + 4) % 16;
      if r == 0 then 0 else 16 - r
  }

  lemma App11PadAligns(addr: nat, align: nat)
    requires align == 1 || align == 16
    ensures (addr + 4 + App11Pad(addr, align)) % align == 0 && App11Pad(addr, align) < align
  {
  }

  lemma {:induction false} AppxSizeBounded(d: Debug, n: nat)
    requires d.Accepted() && n <= |d.ids|
    ensures AppxSize(d, n) <= n * 65437
  {
    if n > 0 {
      AppxSizeBounded(d, n - 1);
      assert d.AcceptedId(d.ids[n - 1]);
    }
  }

  function App1Bytes(e: Option<Attributes>): nat
    requires e.Some? ==> Exif.Valid(e.value)
  {
    if e.None? then 0 else JPEG_MARKER_SIZE + App1Size(e.value)
  }

  function AppxBytes(d: Option<Debug>): nat {
    if d.None? then 0 else AppxSize(d.value, |d.value.ids|)
  }

  function App1Memory(mem: seq<byte>, at: nat, e: Option<Attributes>, len: u16, thumbOffset: u32): seq<byte>
    requires e.Some? ==> Exif.Valid(e.value)
  {
    if e.None? then mem else App1Written(mem, at, e.value, len, thumbOffset)
  }

  function AppxMemory(mem: seq<byte>, at: nat, d: Option<Debug>, reserve: bool): seq<byte> {
    if d.None? then mem else AppxWritten(mem, at, d.value, |d.value.ids|, reserve)
  }

  function App11Memory(mem: seq<byte>, at: nat, any: bool, pad: nat): seq<byte> {
    if any then Splice(mem, at, [0xFF, 0xEB] + BE16(U16(pad + 4))) else mem
  }

  // ----- Writing one directory after the other ------------------------------------

  method WriteOptAscii(w: CIFDWriter, tag: u16, s: seq<byte>, len: u32)
    requires 0 in s && |s| <= 32 && len == StrLen(s)
    requires w.Valid() && w.ifdBase + 12 * |OptAscii(tag, s)| <= w.buf.Length && w.value + AsciiSize(s) <= w.buf.Length
    modifies w, w.buf
    ensures w.Valid() && w.done == old(w.done) + OptAscii(tag, s)
    ensures w.ifdBase == old(w.ifdBase) + 12 * |OptAscii(tag, s)| && w.value == old(w.value) + AsciiSize(s)
  {
    hide CIFDWriter.Valid;
    if len > 0 {
      w.WriteASCII(tag, len + 1, s);
    }
  }

  method WriteOptUndef(w: CIFDWriter, tag: u16, s: seq<byte>)
    requires |s| < 0x1_0000_0000
    requires w.Valid() && w.ifdBase + 12 * |OptUndef(tag, s)| <= w.buf.Length && w.value + UndefSize(s) <= w.buf.Length
    modifies w, w.buf
    ensures w.Valid() && w.done == old(w.done) + OptUndef(tag, s)
    ensures w.ifdBase == old(w.ifdBase) + 12 * |OptUndef(tag, s)| && w.value == old(w.value) + UndefSize(s)
  {
    hide CIFDWriter.Valid;
    if |s| > 0 {
      w.WriteUndef(tag, s);
    }
  }

  method WriteZerothHead(w: CIFDWriter, e: Attributes)
    requires w.Valid() && w.ifdBase + 60 <= w.buf.Length && w.value + 16 <= w.buf.Length
    modifies w, w.buf
    ensures w.Valid() && w.done == old(w.done) + ZerothHead(e)
    ensures w.ifdBase == old(w.ifdBase) + 60 && w.value == old(w.value) + 16
  {
    hide CIFDWriter.Valid, CIFDWriter.State, PutFields, PutField, IfdWritten, OutSize, Exif.Valid;
    hide ByteField, ShortField, LongField, RationalField, UndefField, AsciiField, CStringField;
    w.WriteShort(0x0112, [e.orientation]);
    w.WriteShort(0x0213, [e.ycbcrPositioning]);
    w.WriteRational(0x011A, TYPE_RATIONAL, [e.xResolution]);
    w.WriteRational(0x011B, TYPE_RATIONAL, [e.yResolution]);
    w.WriteShort(0x0128, [e.resolutionUnit]);
  }

  method WriteExposure(w: CIFDWriter, e: Attributes)
    requires |e.exifVersion| == 4 && w.Valid() && w.ifdBase + 60 <= w.buf.Length && w.value + 16 <= w.buf.Length
    modifies w, w.buf
    ensures w.Valid() && w.done == old(w.done) + ExifExposure(e)
    ensures w.ifdBase == old(w.ifdBase) + 60 && w.value == old(w.value) + 16
  {
    hide CIFDWriter.Valid, CIFDWriter.State, PutFields, PutField, IfdWritten, OutSize, Exif.Valid;
    hide ByteField, ShortField, LongField, RationalField, UndefField, AsciiField, CStringField;
    w.WriteRational(0x829A, TYPE_RATIONAL, [e.exposureTime]);
    w.WriteRational(0x829D, TYPE_RATIONAL, [e.fnumber]);
    w.WriteShort(0x8822, [e.exposureProgram]);
    w.WriteShort(0x8827, [e.isoSpeedRating]);
    w.WriteUndef(0x9000, e.exifVersion);
  }

  method WriteDates(w: CIFDWriter, e: Attributes)
    requires w.Valid() && w.ifdBase + 60 <= w.buf.Length && w.value + 64 <= w.buf.Length
    modifies w, w.buf
    ensures w.Valid() && w.done == old(w.done) + ExifDates(e)
    ensures w.ifdBase == old(w.ifdBase) + 60 && w.value == old(w.value) + 64
  {
    hide CIFDWriter.Valid, CIFDWriter.State, PutFields, PutField, IfdWritten, OutSize, Exif.Valid;
    hide ByteField, ShortField, LongField, RationalField, UndefField, AsciiField, CStringField;
    w.WriteCString(0x9003, EXIF_DATETIME_LENGTH, e.dateTime);
    w.WriteCString(0x9004, EXIF_DATETIME_LENGTH, e.dateTime);
    w.WriteRational(0x9201, TYPE_SRATIONAL, [e.shutterSpeed]);
    w.WriteRational(0x9202, TYPE_RATIONAL, [e.aperture]);
    w.WriteRational(0x9203, TYPE_SRATIONAL, [e.brightness]);
  }

  method WriteLens(w: CIFDWriter, e: Attributes)
    requires w.Valid() && w.ifdBase + 60 <= w.buf.Length && w.value + 24 <= w.buf.Length
    modifies w, w.buf
    ensures w.Valid() && w.done == old(w.done) + ExifLens(e)
    ensures w.ifdBase == old(w.ifdBase) + 60 && w.value == old(w.value) + 24
  {
    hide CIFDWriter.Valid, CIFDWriter.State, PutFields, PutField, IfdWritten, OutSize, Exif.Valid;
    hide ByteField, ShortField, LongField, RationalField, UndefField, AsciiField, CStringField;
    w.WriteRational(0x9204, TYPE_SRATIONAL, [e.exposureBias]);
    w.WriteRational(0x9205, TYPE_RATIONAL, [e.maxAperture]);
    w.WriteShort(0x9207, [e.meteringMode]);
    w.WriteShort(0x9209, [e.flash]);
    w.WriteRational(0x920A, TYPE_RATIONAL, [e.focalLength]);
  }

  method WriteSubsec(w: CIFDWriter, e: Attributes)
    requires w.Valid() && w.ifdBase + 36 <= w.buf.Length && w.value + 15 <= w.buf.Length
    modifies w, w.buf
    ensures w.Valid() && w.done == old(w.done) + ExifSubsec(e)
    ensures w.ifdBase == old(w.ifdBase) + 36 && w.value == old(w.value) + 15
  {
    hide CIFDWriter.Valid, CIFDWriter.State, PutFields, PutField, IfdWritten, OutSize, Exif.Valid;
    hide ByteField, ShortField, LongField, RationalField, UndefField, AsciiField, CStringField;
    w.WriteCString(0x9290, EXIF_SUBSECTIME_LENGTH, e.secTime);
    w.WriteCString(0x9291, EXIF_SUBSECTIME_LENGTH, e.secTime);
    w.WriteCString(0x9292, EXIF_SUBSECTIME_LENGTH, e.secTime);
  }

  method WritePicture(w: CIFDWriter, e: Attributes)
    requires w.Valid() && w.ifdBase + 72 <= w.buf.Length && w.value <= w.buf.Length
    modifies w, w.buf
    ensures w.Valid() && w.done == old(w.done) + ExifPicture(e)
    ensures w.ifdBase == old(w.ifdBase) + 72 && w.value == old(w.value)
  {
    hide CIFDWriter.Valid, CIFDWriter.State, PutFields, PutField, IfdWritten, OutSize, Exif.Valid;
    hide ByteField, ShortField, LongField, RationalField, UndefField, AsciiField, CStringField;
    w.WriteShort(0xA001, [e.colorSpace]);
    w.WriteLong(0xA002, e.width);
    w.WriteLong(0xA003, e.height);
    w.WriteShort(0xA402, [e.exposureMode]);
    w.WriteShort(0xA403, [e.whiteBalance]);
    w.WriteShort(0xA405, [e.focalLength35mm]);
  }

  method WriteGpsPosition(w: CIFDWriter, e: Attributes)
    requires Exif.Valid(e) && w.Valid() && w.ifdBase + 60 <= w.buf.Length && w.value + 48 <= w.buf.Length
    modifies w, w.buf
    ensures w.Valid() && w.done == old(w.done) + GpsPosition(e)
    ensures w.ifdBase == old(w.ifdBase) + 60 && w.value == old(w.value) + 48
  {
    hide CIFDWriter.Valid, CIFDWriter.State, PutFields, PutField, IfdWritten, OutSize;
    hide ByteField, ShortField, LongField, RationalField, UndefField, AsciiField, CStringField;
    w.WriteByte(0x0000, e.gpsVersionId);
    w.WriteASCII(0x0001, 2, e.gpsLatitudeRef);
    w.WriteRational(0x0002, TYPE_RATIONAL, e.gpsLatitude);
    w.WriteASCII(0x0003, 2, e.gpsLongitudeRef);
    w.WriteRational(0x0004, TYPE_RATIONAL, e.gpsLongitude);
  }

  method WriteGpsTime(w: CIFDWriter, e: Attributes)
    requires |e.gpsTimestamp| == 3 && w.Valid() && w.ifdBase + 48 <= w.buf.Length && w.value + 43 <= w.buf.Length
    modifies w, w.buf
    ensures w.Valid() && w.done == old(w.done) + GpsTime(e)
    ensures w.ifdBase == old(w.ifdBase) + 48 && w.value == old(w.value) + 43
  {
    hide CIFDWriter.Valid, CIFDWriter.State, PutFields, PutField, IfdWritten, OutSize, Exif.Valid;
    hide ByteField, ShortField, LongField, RationalField, UndefField, AsciiField, CStringField;
    w.WriteByte(0x0005, [e.gpsAltitudeRef]);
    w.WriteRational(0x0006, TYPE_RATIONAL, [e.gpsAltitude]);
    w.WriteCString(0x001D, EXIF_GPSDATESTAMP_LENGTH, e.gpsDatestamp);
    w.WriteRational(0x0007, TYPE_RATIONAL, e.gpsTimestamp);
  }

  method WriteExifCapture(w: CIFDWriter, e: Attributes)
    requires Exif.Valid(e) && w.Valid() && w.ifdBase + 12 * 18 <= w.buf.Length && w.value + 119 <= w.buf.Length
    modifies w, w.buf
    ensures w.Valid() && w.done == old(w.done) + ExifCapture(e)
    ensures w.ifdBase == old(w.ifdBase) + 12 * 18 && w.value == old(w.value) + 119
  {
    hide CIFDWriter.Valid, CIFDWriter.State, Exif.Valid, ExifExposure, ExifDates, ExifLens, ExifSubsec;
    ArraySizes(e);
    ghost var was := w.done;
    WriteExposure(w, e);
    WriteDates(w, e);
    AppendAssoc(was, ExifExposure(e), ExifDates(e));
    WriteLens(w, e);
    AppendAssoc(was, ExifExposure(e) + ExifDates(e), ExifLens(e));
    WriteSubsec(w, e);
    AppendAssoc(was, ExifExposure(e) + ExifDates(e) + ExifLens(e), ExifSubsec(e));
  }

  method WriteExifRest(w: CIFDWriter, e: Attributes, szUniqueId: u32)
    requires Exif.Valid(e) && szUniqueId == StrLen(e.uniqueId)
    requires w.Valid() && w.ifdBase + 12 * |ExifRest(e)| <= w.buf.Length && w.value + ValSize(ExifRest(e)) <= w.buf.Length
    modifies w, w.buf
    ensures w.Valid() && w.done == old(w.done) + ExifRest(e)
    ensures w.ifdBase == old(w.ifdBase) + 12 * |ExifRest(e)| && w.value == old(w.value) + ValSize(ExifRest(e))
  {
    hide PutFields, PutField, IfdWritten, OutSize, ShortField, StrLen;
    hide CIFDWriter.Valid, CIFDWriter.State, ValSize, OptAscii, OptUndef, AsciiSize, UndefSize, ExifPicture;
    ExifRestSize(e);
    PictureCount(e);
    ghost var was := w.done;
    ghost var notes := OptUndef(0x927C, e.makerNote) + OptUndef(0x9286, e.userComment);
    ghost var scene := [ShortField(0xA406, [e.sceneCaptureType])];
    WriteOptUndef(w, 0x927C, e.makerNote);
    WriteOptUndef(w, 0x9286, e.userComment);
    AppendAssoc(was, OptUndef(0x927C, e.makerNote), OptUndef(0x9286, e.userComment));
    WritePicture(w, e);
    AppendAssoc(was, notes, ExifPicture(e));
    w.WriteShort(0xA406, [e.sceneCaptureType]);
    AppendAssoc(was, notes + ExifPicture(e), scene);
    WriteOptAscii(w, 0xA420, e.uniqueId, szUniqueId);
    AppendAssoc(was, notes + ExifPicture(e) + scene, OptAscii(0xA420, e.uniqueId));
  }

  // ----- The directories below the 0th ---------------------------------------------

  method WriteInterop(buf: array<byte>, tiff: nat, at: nat, e: Attributes) returns (end: nat, ghost left: u32)
    requires at + 30 <= buf.Length
    modifies buf
    ensures buf[..] == IfdWritten(old(buf[..]), tiff, at, InteropFields(e), false)
    ensures end == at + IfdSize(InteropFields(e)) == at + 30 && left == 0
  {
    hide PutFields, PutField, IfdWritten, OutSize, IfdSize, ValSize;
    InteropSize(e);
    IfdWrittenSteps(buf[..], tiff, at, InteropFields(e), false);
    var w := new CIFDWriter(buf, tiff, at, 2);
    w.WriteASCII(0x0001, 4, InteropIndex(e));
    w.WriteUndef(0x0002, [0x30, 0x31, 0x30, 0x30]);
    assert w.done == InteropFields(e);
    left := w.Finish(true);
    end := w.value;
  }

  method WriteExifIfd(buf: array<byte>, tiff: nat, at: nat, e: Attributes, nFields: u16, szUniqueId: u32)
    returns (end: nat, ghost left: u32)
    requires Exif.Valid(e) && nFields == |ExifFields(e)| && szUniqueId == StrLen(e.uniqueId)
    requires at + IfdSize(ExifFields(e)) <= buf.Length
    modifies buf
    ensures buf[..] == IfdWritten(old(buf[..]), tiff, at, ExifFields(e), false)
    ensures end == at + IfdSize(ExifFields(e)) && left == 0
  {
    hide PutFields, PutField, IfdWritten, OutSize, IfdSize, ValSize, ExifCapture, ExifRest, InteropFields, Exif.Valid;
    ExifSize(e);
    ExifCaptureSize(e);
    InteropSize(e);
    IfdWrittenSteps(buf[..], tiff, at, ExifFields(e), false);
    var w := new CIFDWriter(buf, tiff, at, nFields);
    WriteExifCapture(w, e);
    assert w.done == ExifCapture(e);
    WriteExifRest(w, e, szUniqueId);
    ghost var c := w.State();
    var sub := w.BeginSubIFD(TAG_INTEROP_IFD);
    var next;
    next, left := WriteInterop(buf, tiff, sub, e);
    w.EndSubIFD(next, c, TAG_INTEROP_IFD, InteropFields(e));
    left := w.Finish(true);
    end := w.value;
  }

  method WriteGpsMethod(w: CIFDWriter, e: Attributes)
    requires Exif.Valid(e) && w.Valid()
    requires w.ifdBase + 12 * |GpsMethod(e)| <= w.buf.Length && w.value + ValSize(GpsMethod(e)) <= w.buf.Length
    modifies w, w.buf
    ensures w.Valid() && w.done == old(w.done) + GpsMethod(e)
    ensures w.ifdBase == old(w.ifdBase) + 12 * |GpsMethod(e)| && w.value == old(w.value) + ValSize(GpsMethod(e))
  {
    hide CIFDWriter.Valid, ValSize;
    ValSizeFew(GpsMethod(e));
    var len := StrLen(e.gpsProcessingMethod);
    if len > 0 {
      len := if len > 99 then 99 else len;
      w.WriteUndef(0x001B, EXIF_ASCII_PREFIX + e.gpsProcessingMethod[..len] + [0]);
    }
  }

  method WriteGpsIfd(buf: array<byte>, tiff: nat, at: nat, e: Attributes, nFields: u16)
    returns (end: nat, ghost left: u32)
    requires Exif.Valid(e) && nFields == |GpsFields(e)| && at + IfdSize(GpsFields(e)) <= buf.Length
    modifies buf
    ensures buf[..] == IfdWritten(old(buf[..]), tiff, at, GpsFields(e), false)
    ensures end == at + IfdSize(GpsFields(e)) && left == 0
  {
    hide PutFields, PutField, IfdWritten, OutSize, IfdSize, ValSize, GpsPosition, GpsTime, GpsMethod, Exif.Valid;
    GpsSize(e);
    IfdWrittenSteps(buf[..], tiff, at, GpsFields(e), false);
    ArraySizes(e);
    var w := new CIFDWriter(buf, tiff, at, nFields);
    WriteGpsPosition(w, e);
    assert w.done == GpsPosition(e);
    WriteGpsTime(w, e);
    WriteGpsMethod(w, e);
    left := w.Finish(true);
    end := w.value;
  }

  // ----- The 0th directory, the 1st, and what is in front of them ----------------------

  /** The numbers of fields and the lengths of strings PrepareAppWriter keeps. */
  datatype Counts = Counts(
    n0th: u16,         // m_n0thIFDFields
    n1st: u16,         // m_n1stIFDFields
    nExif: u16,        // m_nExifIFDFields
    nGps: u16,         // m_nGPSIFDFields
    szMake: u32,
    szSoftware: u32,
    szModel: u32,
    szUniqueId: u32)

  /** The numbers are those of the record. */
  ghost predicate Counted(c: Counts, e: Attributes) {
    && Exif.Valid(e)
    && c.n0th == |Zeroth(e)| && c.nExif == |ExifFields(e)|
    && (e.enableGps ==> c.nGps == |GpsFields(e)|)
    && c.szMake == StrLen(e.maker) && c.szSoftware == StrLen(e.software)
    && c.szModel == StrLen(e.model) && c.szUniqueId == StrLen(e.uniqueId)
  }

  lemma CountedFacts(c: Counts, e: Attributes)
    requires Counted(c, e)
    ensures Exif.Valid(e) && c.n0th == |Zeroth(e)|
  {
  }

  method WriteZerothStrings(w: CIFDWriter, e: Attributes, c: Counts)
    requires Counted(c, e) && w.Valid()
    requires w.ifdBase + 12 * |ZerothStrings(e)| <= w.buf.Length && w.value + ValSize(ZerothStrings(e)) <= w.buf.Length
    modifies w, w.buf
    ensures w.Valid() && w.done == old(w.done) + ZerothStrings(e)
    ensures w.ifdBase == old(w.ifdBase) + 12 * |ZerothStrings(e)|
    ensures w.value == old(w.value) + ValSize(ZerothStrings(e))
  {
    hide CIFDWriter.Valid, CIFDWriter.State, ValSize, OptAscii, AsciiSize, Zeroth, ExifFields, GpsFields, StrLen;
    ZerothStringsSize(e);
    ghost var was := w.done;
    WriteOptAscii(w, 0x010F, e.maker, c.szMake);
    WriteOptAscii(w, 0x0110, e.model, c.szModel);
    AppendAssoc(was, OptAscii(0x010F, e.maker), OptAscii(0x0110, e.model));
    WriteOptAscii(w, 0x0131, e.software, c.szSoftware);
    AppendAssoc(was, OptAscii(0x010F, e.maker) + OptAscii(0x0110, e.model), OptAscii(0x0131, e.software));
  }

  method WriteExifPointer(w: CIFDWriter, e: Attributes, c: Counts)
    requires Counted(c, e) && w.Valid()
    requires w.ifdBase + 12 <= w.buf.Length && w.value + IfdSize(ExifFields(e)) <= w.buf.Length
    modifies w, w.buf
    ensures w.Valid() && w.done == old(w.done) + [SubIfd(TAG_EXIF_IFD, ExifFields(e))]
    ensures w.ifdBase == old(w.ifdBase) + 12 && w.value == old(w.value) + IfdSize(ExifFields(e))
  {
    hide PutFields, PutField, IfdWritten, OutSize, IfdSize, ValSize, ExifFields, GpsFields, Zeroth, Exif.Valid, StrLen;
    ghost var was := w.State();
    var sub := w.BeginSubIFD(TAG_EXIF_IFD);
    var end, left := WriteExifIfd(w.buf, w.base, sub, e, c.nExif, c.szUniqueId);
    w.EndSubIFD(end, was, TAG_EXIF_IFD, ExifFields(e));
  }

  method WriteGpsPointer(w: CIFDWriter, e: Attributes, c: Counts)
    requires Counted(c, e) && e.enableGps && w.Valid()
    requires w.ifdBase + 12 <= w.buf.Length && w.value + IfdSize(GpsFields(e)) <= w.buf.Length
    modifies w, w.buf
    ensures w.Valid() && w.done == old(w.done) + [SubIfd(TAG_GPS_IFD, GpsFields(e))]
    ensures w.ifdBase == old(w.ifdBase) + 12 && w.value == old(w.value) + IfdSize(GpsFields(e))
  {
    hide PutFields, PutField, IfdWritten, OutSize, IfdSize, ValSize, ExifFields, GpsFields, Zeroth, Exif.Valid, StrLen;
    ghost var was := w.State();
    var sub := w.BeginSubIFD(TAG_GPS_IFD);
    var end, left := WriteGpsIfd(w.buf, w.base, sub, e, c.nGps);
    w.EndSubIFD(end, was, TAG_GPS_IFD, GpsFields(e));
  }

  method WriteZerothPointers(w: CIFDWriter, e: Attributes, c: Counts)
    requires Counted(c, e) && w.Valid()
    requires w.ifdBase + 12 * |ZerothPointers(e)| <= w.buf.Length && w.value + ValSize(ZerothPointers(e)) <= w.buf.Length
    modifies w, w.buf
    ensures w.Valid() && w.done == old(w.done) + ZerothPointers(e)
    ensures w.ifdBase == old(w.ifdBase) + 12 * |ZerothPointers(e)|
    ensures w.value == old(w.value) + ValSize(ZerothPointers(e))
  {
    hide CStringField, PutFields, Zeroth;
    hide CIFDWriter.Valid, CIFDWriter.State, IfdSize, ValSize, ExifFields, GpsFields, Exif.Valid, StrLen, Counted;
    CountedFacts(c, e);
    ZerothGroupSizes(e);
    ghost var was := w.done;
    ghost var date := CStringField(0x0132, e.dateTime, EXIF_DATETIME_LENGTH);
    ghost var two := [date, SubIfd(TAG_EXIF_IFD, ExifFields(e))];
    w.WriteCString(0x0132, EXIF_DATETIME_LENGTH, e.dateTime);
    WriteExifPointer(w, e, c);
    assert w.done == was + two;
    if e.enableGps {
      WriteGpsPointer(w, e, c);
      AppendAssoc(was, two, [SubIfd(TAG_GPS_IFD, GpsFields(e))]);
    } else {
      assert two + [] == two;
    }
  }

  /** All entries of the 0th directory with their values and directories. */
  method WriteZeroth(w: CIFDWriter, e: Attributes, c: Counts)
    requires Counted(c, e) && w.Valid() && w.done == []
    requires w.ifdBase + 12 * |Zeroth(e)| <= w.buf.Length && w.value + ValSize(Zeroth(e)) <= w.buf.Length
    modifies w, w.buf
    ensures w.Valid() && w.done == Zeroth(e)
    ensures w.ifdBase == old(w.ifdBase) + 12 * |Zeroth(e)| && w.value == old(w.value) + ValSize(Zeroth(e))
  {
    hide ZerothHead, ZerothStrings, ZerothPointers, PutFields;
    hide CIFDWriter.Valid, CIFDWriter.State, IfdSize, ValSize, ExifFields, GpsFields, Exif.Valid, StrLen, Counted;
    CountedFacts(c, e);
    ZerothGroupSizes(e);
    ZerothSize(e);
    WriteZerothHead(w, e);
    assert w.done == ZerothHead(e);
    WriteZerothStrings(w, e, c);
    WriteZerothPointers(w, e, c);
  }

  method WriteApp1Head(buf: array<byte>, current: nat, len: Option<u16>) returns (tiff: nat)
    requires current + 18 <= buf.Length
    modifies buf
    ensures buf[..] == App1Head(old(buf[..]), current, len) && tiff == current + 10
  {
    Store(buf, current, [0xFF, 0xE1]);
    if len.Some? {
      Store(buf, current + 2, BE16(len.value));
    }
    Store(buf, current + 4, EXIF_IDENTIFIER);
    tiff := current + 10;
    Store(buf, tiff, TIFF_HEADER);
  }

  method WriteThumbFields(w: CIFDWriter, e: Attributes, thumbBase: nat)
    requires w.Valid() && w.ifdBase + 72 <= w.buf.Length && w.value <= w.buf.Length
    modifies w, w.buf
    ensures w.Valid() && w.done == old(w.done) + ThumbFields(e, U32(thumbBase - w.base), 0)
    ensures w.ifdBase == old(w.ifdBase) + 72 && w.value == old(w.value)
  {
    hide CIFDWriter.Valid, CIFDWriter.State, PutFields, PutField, IfdWritten, OutSize, Exif.Valid, ShortField, LongField;
    w.WriteLong(0x0100, e.widthThumb);
    w.WriteLong(0x0101, e.heightThumb);
    w.WriteShort(0x0103, [e.compressionScheme]);
    w.WriteShort(0x0112, [e.orientation]);
    w.WriteLong(0x0201, w.Offset(thumbBase));
    w.WriteLong(0x0202, 0);
  }

  /** The 1st directory; its last value, the stream's length, stays to be filled in. */
  method WriteThumbIfd(buf: array<byte>, tiff: nat, at: nat, e: Attributes, n1st: u16, thumbBase: nat)
    returns (end: nat, sizeAddr: nat, ghost left: u32)
    requires n1st == 6 && at + 78 <= buf.Length
    modifies buf
    ensures buf[..] == IfdWritten(old(buf[..]), tiff, at, ThumbFields(e, U32(thumbBase - tiff), 0), false)
    ensures end == at + 78 && sizeAddr == at + 70 && left == 0
  {
    hide CIFDWriter.Valid, PutFields, IfdWritten, OpenIfd, ThumbFields, IfdSize, U32;
    ghost var fs := ThumbFields(e, U32(thumbBase - tiff), 0);
    IfdWrittenSteps(buf[..], tiff, at, fs, false);
    ThumbSize(e, U32(thumbBase - tiff), 0);
    var w := new CIFDWriter(buf, tiff, at, n1st);
    WriteThumbFields(w, e, thumbBase);
    assert w.done == fs;
    sizeAddr := w.ifdBase - 4;
    left := w.Finish(true);
    end := w.value;
  }

  /** The part of APP1 that is written in every case. */
  method WriteApp1Zeroth(buf: array<byte>, current: nat, len: Option<u16>, e: Attributes, c: Counts) returns (w: CIFDWriter)
    requires Counted(c, e) && current + 18 + IfdSize(Zeroth(e)) <= buf.Length
    modifies buf
    ensures fresh(w) && w.buf == buf && w.base == current + 10 && w.Valid()
    ensures w.start == OpenIfd(App1Head(old(buf[..]), current, len), current + 18, |Zeroth(e)|) && w.done == Zeroth(e)
    ensures w.start.tags == |Zeroth(e)|
    ensures w.ifdBase == current + 20 + 12 * |Zeroth(e)| && w.value == current + 18 + IfdSize(Zeroth(e))
  {
    hide CIFDWriter.Valid, CIFDWriter.State, PutFields, ValSize, OpenIfd, Zeroth, Counted, App1Head;
    CountedFacts(c, e);
    var tiff := WriteApp1Head(buf, current, len);
    w := new CIFDWriter(buf, tiff, tiff + 8, c.n0th);
    WriteZeroth(w, e, c);
  }

  /** The 0th directory closed with its chain to the 1st. */
  method WriteZerothIfd(buf: array<byte>, current: nat, len: u16, e: Attributes, c: Counts)
    returns (end: nat, ghost left: u32)
    requires Counted(c, e) && current + 18 + IfdSize(Zeroth(e)) <= buf.Length
    modifies buf
    ensures buf[..] == IfdWritten(App1Head(old(buf[..]), current, Some(len)), current + 10, current + 18,
                              Zeroth(e), e.enableThumb)
    ensures end == current + 18 + IfdSize(Zeroth(e)) && left == 0
  {
    hide CIFDWriter.Valid, PutFields, IfdWritten, Zeroth, Counted, App1Head, OpenIfd, ValSize;
    CountedFacts(c, e);
    IfdWrittenSteps(App1Head(buf[..], current, Some(len)), current + 10, current + 18, Zeroth(e), e.enableThumb);
    var w := WriteApp1Zeroth(buf, current, Some(len), e, c);
    left := w.Finish(!e.enableThumb);
    end := w.value;
  }

  /** APP1 overwritten in place. */
  method UpdateApp1Zeroth(buf: array<byte>, current: nat, e: Attributes, c: Counts)
    requires Counted(c, e) && current + 18 + IfdSize(Zeroth(e)) <= buf.Length
    modifies buf
    ensures buf[..] == App1Updated(old(buf[..]), current, e)
  {
    hide PutFields, Zeroth, Counted, App1Head, OpenIfd, ValSize;
    CountedFacts(c, e);
    var w := WriteApp1Zeroth(buf, current, None, e, c);
    assert w.State() == PutFields(w.start, w.base, w.done);
  }

  /** APP1 from its marker on, up to the place of the thumbnail stream. */
  method WriteApp1Dirs(buf: array<byte>, current: nat, len: u16, e: Attributes, c: Counts, thumbBase: Option<nat>)
    returns (end: nat, sizeAddr: Option<nat>)
    requires Counted(c, e) && current + 2 + App1Size(e) <= buf.Length
    requires e.enableThumb ==> thumbBase.Some? && c.n1st == 6
    modifies buf
    ensures buf[..] == App1Written(old(buf[..]), current, e, len,
                                   if e.enableThumb then U32(thumbBase.value - (current + 10)) else 0)
    ensures end == current + 2 + App1Size(e)
    ensures sizeAddr == if e.enableThumb then Some(end - 8) else None
  {
    hide IfdWritten, Zeroth, Counted, App1Head, ThumbFields, Exif.Valid, IfdSize;
    CountedFacts(c, e);
    ghost var left;
    end, left := WriteZerothIfd(buf, current, len, e, c);
    sizeAddr := None;
    if e.enableThumb {
      var addr;
      end, addr, left := WriteThumbIfd(buf, current + 10, end, e, c.n1st, thumbBase.value);
      sizeAddr := Some(addr);
    }
  }

  // ----- The debug segments and the aligning segment ----------------------------------

  method WriteOneAppx(buf: array<byte>, at: nat, id: int, data: seq<byte>, justReserve: bool) returns (end: nat)
    requires at + 4 + |data| <= buf.Length
    modifies buf
    ensures buf[..] == AppxStep(old(buf[..]), at, id, data, justReserve) && end == at + 4 + |data|
  {
    hide Splice, BE16;
    Store(buf, at, [0xFF, AppxMarker(id)]);
    Store(buf, at + 2, BE16(U16(|data| + 2)));
    if !justReserve {
      Store(buf, at + 4, data);
    }
    end := at + 4 + |data|;
  }

  method WriteAppx(buf: array<byte>, at: nat, d: Debug, justReserve: bool) returns (end: nat)
    requires at + AppxSize(d, |d.ids|) <= buf.Length
    modifies buf
    ensures buf[..] == AppxWritten(old(buf[..]), at, d, |d.ids|, justReserve) && end == at + AppxSize(d, |d.ids|)
  {
    hide AppxStep;
    end := at;
    for k := 0 to |d.ids|
      invariant end == at + AppxSize(d, k)
      invariant buf[..] == AppxWritten(old(buf[..]), at, d, k, justReserve)
    {
      AppxSizeMonotone(d, k + 1, |d.ids|);
      end := WriteOneAppx(buf, end, d.ids[k], d.Data(d.ids[k]), justReserve);
    }
  }

  lemma {:induction false} AppxSizeMonotone(d: Debug, n: nat, m: nat)
    requires n <= m <= |d.ids|
    ensures AppxSize(d, n) <= AppxSize(d, m)
    decreases m - n
  {
    if n < m {
      AppxSizeMonotone(d, n, m - 1);
    }
  }

  // ----- Sizes counted before anything is written ---------------------------------------

  /** One optional string: an entry, and its bytes when they do not fit in it. */
  method CountAscii(s: seq<byte>, applen: nat, n: nat, ghost tag: u16) returns (size: u32, applen': nat, n': nat)
    requires 0 in s && |s| <= 32
    ensures size == StrLen(s) && n' == n + |OptAscii(tag, s)|
    ensures applen' == applen + 12 * |OptAscii(tag, s)| + AsciiSize(s)
  {
    size, applen', n' := StrLen(s), applen, n;
    if size > 0 {
      n' := n' + 1;
      applen' := applen' + FIELD_SIZE;
      if size > 3 {
        applen' := applen' + size + 1;
      }
    }
  }

  method CountUndef(s: seq<byte>, applen: nat, n: nat, ghost tag: u16) returns (applen': nat, n': nat)
    ensures n' == n + |OptUndef(tag, s)| && applen' == applen + 12 * |OptUndef(tag, s)| + UndefSize(s)
  {
    applen', n' := applen, n;
    if |s| > 0 {
      n' := n' + 1;
      applen' := applen' + FIELD_SIZE;
      if |s| > 4 {
        applen' := applen' + |s|;
      }
    }
  }

  method CountZeroth(e: Attributes, applen: nat) returns (applen': nat, n: nat, szMake: u32, szModel: u32, szSoftware: u32)
    requires Exif.Valid(e)
    ensures n == |Zeroth(e)| && szMake == StrLen(e.maker) && szModel == StrLen(e.model) && szSoftware == StrLen(e.software)
    ensures applen' == applen + IfdSize(Zeroth(e))
      - IfdSize(ExifFields(e)) - if e.enableGps then IfdSize(GpsFields(e)) else 0
  {
    hide IfdSize, ValSize, ExifFields, GpsFields, Zeroth, OptAscii, AsciiSize, StrLen;
    ZerothSize(e);
    applen' := applen + 2 + 4;
    n := 7;
    applen' := applen' + FIELD_SIZE * n;
    applen' := applen' + 8 * 2;
    applen' := applen' + EXIF_DATETIME_LENGTH;
    szMake, applen', n := CountAscii(e.maker, applen', n, 0x010F);
    szSoftware, applen', n := CountAscii(e.software, applen', n, 0x0131);
    szModel, applen', n := CountAscii(e.model, applen', n, 0x0110);
    if e.enableGps {
      n := n + 1;
      applen' := applen' + FIELD_SIZE;
    }
  }

  method CountExifIfd(e: Attributes, applen: nat) returns (applen': nat, n: nat, szUniqueId: u32)
    requires Exif.Valid(e)
    ensures n == |ExifFields(e)| && szUniqueId == StrLen(e.uniqueId) && applen' == applen + IfdSize(ExifFields(e))
  {
    hide IfdSize, ValSize, ExifFields, ExifPicture, OptAscii, OptUndef, AsciiSize, UndefSize, StrLen;
    ExifSize(e);
    ExifRestSize(e);
    PictureCount(e);
    n := 20;
    applen' := applen + 2 + 4;
    applen' := applen' + FIELD_SIZE * n;
    applen' := applen' + 8 * 8;
    n := n + 2;
    applen' := applen' + (FIELD_SIZE + EXIF_DATETIME_LENGTH) * 2;
    n := n + 3;
    applen' := applen' + (FIELD_SIZE + EXIF_SUBSECTIME_LENGTH) * 3;
    szUniqueId, applen', n := CountAscii(e.uniqueId, applen', n, 0xA420);
    applen', n := CountUndef(e.makerNote, applen', n, 0x927C);
    applen', n := CountUndef(e.userComment, applen', n, 0x9286);
    n := n + 1;
    applen' := applen' + FIELD_SIZE + 2 + 4 + FIELD_SIZE * 2;
  }

  method CountGps(e: Attributes, applen: nat) returns (applen': nat, n: nat)
    requires Exif.Valid(e)
    ensures n == |GpsFields(e)| && applen' == applen + IfdSize(GpsFields(e))
  {
    hide IfdSize, ValSize, GpsFields, StrLen;
    GpsSize(e);
    n := 8;
    applen' := applen + 2 + 4;
    applen' := applen' + FIELD_SIZE * n;
    applen' := applen' + 8 * 10;
    n := n + 1;
    applen' := applen' + FIELD_SIZE + EXIF_GPSDATESTAMP_LENGTH;
    var len := StrLen(e.gpsProcessingMethod);
    if len > MAX_GPS_PROCESSINGMETHOD_SIZE - |EXIF_ASCII_PREFIX| - 1 {
      len := MAX_GPS_PROCESSINGMETHOD_SIZE - |EXIF_ASCII_PREFIX| - 1;
    }
    if len > 0 {
      n := n + 1;
      applen' := applen' + FIELD_SIZE + len + |EXIF_ASCII_PREFIX| + 1;
    }
  }

  lemma Bounds(e: Attributes)
    requires Exif.Valid(e)
    ensures |Zeroth(e)| <= 11 && |ExifFields(e)| <= 29 && |GpsFields(e)| <= 10
  {
    hide IfdSize, ValSize, ExifFields, GpsFields, Zeroth;
    ZerothSize(e);
    ExifSize(e);
    GpsSize(e);
  }

  predicate ThumbTooSmall(e: Attributes) {
    e.enableThumb && (e.widthThumb < 16 || e.heightThumb < 16)
  }

  /** The checks PrepareAppWriter makes on the debug record. */
  method CheckDebug(d: Debug) returns (accepted: bool)
    ensures accepted == d.Accepted()
  {
    if |d.ids| > EXTRA_APPMARKER_LIMIT - EXTRA_APPMARKER_MIN {
      return false;
    }
    for k := 0 to |d.ids|
      invariant forall i | 0 <= i < k :: d.AcceptedId(d.ids[i])
    {
      if !d.AcceptedId(d.ids[k]) {
        return false;
      }
    }
    return true;
  }

  // ----- The writer of segments ------------------------------------------------------

  class CAppMarkerWriter {
    var buf: array<byte>                 // the stream buffer; addresses are indices into it
    var appBase: nat                     // m_pAppBase
    var app1End: nat                     // m_pApp1End, 0 for NULL
    var szMaxThumb: nat                  // m_szMaxThumbSize
    var szApp1: u16                      // m_szApp1
    var szApp11: u16                     // m_szApp11
    var counts: Counts
    var exif: Option<Attributes>
    var debug: Option<Debug>
    var mainBase: nat                    // m_pMainBase
    var thumbBase: Option<nat>           // m_pThumbBase
    var thumbSizePlaceholder: Option<nat>

    constructor ()
      ensures fresh(buf) && exif == None && debug == None && thumbBase == None && thumbSizePlaceholder == None
    {
      buf := new byte[0];
      exif, debug := None, None;
      thumbBase, thumbSizePlaceholder := None, None;
    }

    /** Init: everything PrepareAppWriter starts from. */
    method Init()
      modifies this
      ensures app1End == 0 && szApp1 == 0 && szMaxThumb == 0 && thumbBase == None && thumbSizePlaceholder == None
      ensures counts == Counts(0, 0, 0, 0, 0, 0, 0, 0)
      ensures buf == old(buf) && appBase == old(appBase) && exif == old(exif) && debug == old(debug)
      ensures szApp11 == old(szApp11) && mainBase == old(mainBase)
    {
      app1End := 0;
      szApp1 := 0;
      counts := Counts(0, 0, 0, 0, 0, 0, 0, 0);
      thumbBase, szMaxThumb, thumbSizePlaceholder := None, 0, None;
    }

    /** PrepareAppWriter, for a record: `complete` is false when it returns early. */
    method PrepareExif(e: Attributes) returns (complete: bool)
      requires Exif.Valid(e) && counts.n1st == 0 && szApp1 == 0 && szMaxThumb == 0 && thumbBase == None
      modifies `counts, `szApp1, `szMaxThumb, `thumbBase
      ensures complete <==> !ThumbTooSmall(e)
      ensures Counted(counts, e) && (complete ==> szApp1 == U16(App1Size(e)))
      ensures counts.n1st == if complete && e.enableThumb then 6 else 0
      ensures !complete ==> szApp1 == 0
      ensures if complete && e.enableThumb
        then thumbBase == Some(appBase + JPEG_MARKER_SIZE + App1Size(e))
             && szMaxThumb == (JPEG_MAX_SEGMENT_SIZE - App1Size(e)) % 0x1_0000_0000_0000_0000
        else thumbBase == None && szMaxThumb == 0
    {
      hide IfdSize, ValSize, ExifFields, GpsFields, Zeroth, OptAscii, AsciiSize, StrLen;
      Bounds(e);
      var applen := JPEG_SEGMENT_LENFIELD_SIZE + |EXIF_IDENTIFIER| + |TIFF_HEADER|;
      var n0th, nExif, nGps, szMake, szModel, szSoftware, szUniqueId;
      applen, n0th, szMake, szModel, szSoftware := CountZeroth(e, applen);
      applen, nExif, szUniqueId := CountExifIfd(e, applen);
      nGps := 0;
      if e.enableGps {
        applen, nGps := CountGps(e, applen);
      }
      counts := Counts(n0th, 0, nExif, nGps, szMake, szSoftware, szModel, szUniqueId);
      if e.enableThumb {
        if e.widthThumb < 16 || e.heightThumb < 16 {
          return false;
        }
        counts := counts.(n1st := 6);
        applen := applen + 2 + 4;
        applen := applen + FIELD_SIZE * 6;
        thumbBase := Some(appBase + JPEG_MARKER_SIZE + applen);
        szMaxThumb := (JPEG_MAX_SEGMENT_SIZE - applen) % 0x1_0000_0000_0000_0000;
      }
      szApp1 := U16(applen);
      return true;
    }

    method PrepareAppWriter(buf: array<byte>, base: nat, e: Option<Attributes>, d: Option<Debug>)
      requires e.Some? ==> Exif.Valid(e.value)
      modifies this
      ensures this.buf == buf && appBase == base && exif == e
      ensures app1End == 0 && thumbSizePlaceholder == None && szApp11 == old(szApp11) && mainBase == old(mainBase)
      ensures e.None? ==> szApp1 == 0
      ensures e.Some? ==> Counted(counts, e.value)
      ensures e.Some? && !ThumbTooSmall(e.value) ==>
        szApp1 == U16(App1Size(e.value)) && counts.n1st == if e.value.enableThumb then 6 else 0
      ensures e.Some? && e.value.enableThumb && (e.value.widthThumb < 16 || e.value.heightThumb < 16) ==>
        szApp1 == 0 && thumbBase == None && debug == old(debug)
      ensures if e.Some? && e.value.enableThumb && !ThumbTooSmall(e.value)
        then thumbBase == Some(base + JPEG_MARKER_SIZE + App1Size(e.value))
             && szMaxThumb == (JPEG_MAX_SEGMENT_SIZE - App1Size(e.value)) % 0x1_0000_0000_0000_0000
        else thumbBase == None && szMaxThumb == 0
      ensures e.None? || !e.value.enableThumb || (e.value.widthThumb >= 16 && e.value.heightThumb >= 16) ==>
        debug == if d.Some? && !d.value.Accepted() then old(debug) else d
    {
      hide App1Size, IfdSize, Exif.Valid, Counted, Debug.Accepted;
      this.buf := buf;
      appBase := base;
      exif := e;
      Init();
      if e.Some? {
        var complete := PrepareExif(e.value);
        if !complete {
          return;
        }
      }
      if d.Some? {
        var accepted := CheckDebug(d.value);
        if !accepted {
          return;
        }
      }
      debug := d;
    }

    ghost predicate HasThumb()
      reads this
    {
      exif.Some? && exif.value.enableThumb
    }

    /** The bytes kept free for the thumbnail stream. */
    ghost function Space(reserve: bool): nat
      reads this
    {
      if reserve && HasThumb() then szMaxThumb else 0
    }

    /** What the 1st directory says about the place of the thumbnail stream. */
    ghost function ThumbOffset(at: nat): u32
      reads this
    {
      if HasThumb() && thumbBase.Some? then U32(thumbBase.value - (at + 10)) else 0
    }

    /** What PrepareAppWriter leaves behind for a record it accepts. */
    ghost predicate Prepared()
      reads this
    {
      exif.Some? ==>
        && Exif.Valid(exif.value) && Counted(counts, exif.value)
        && (exif.value.enableThumb ==> thumbBase.Some? && counts.n1st == 6)
    }

    method WriteAPP1(current: nat, reserve: bool) returns (end: nat)
      requires Prepared() && current + App1Bytes(exif) <= buf.Length
      modifies buf, `thumbSizePlaceholder
      ensures buf[..] == App1Memory(old(buf[..]), current, exif, U16(szApp1 + if reserve then szMaxThumb else 0),
                                    ThumbOffset(current))
      ensures end == current + App1Bytes(exif) + Space(reserve)
      ensures thumbSizePlaceholder ==
        if HasThumb() then Some(current + App1Bytes(exif) - 8) else old(thumbSizePlaceholder)
    {
      hide Zeroth, Counted, ValSize, Exif.Valid, IfdSize, App1Written;
      if exif.None? {
        return current;
      }
      var len := U16(szApp1 + if reserve then szMaxThumb else 0);
      var sizeAddr;
      end, sizeAddr := WriteApp1Dirs(buf, current, len, exif.value, counts, thumbBase);
      if exif.value.enableThumb {
        thumbSizePlaceholder := sizeAddr;
        end := end + if reserve then szMaxThumb else 0;
      }
    }

    /** WriteAPP1 when it updates a finished stream: no length, no chain, no 1st directory. */
    method UpdateAPP1(current: nat)
      requires exif.Some? ==>
        && Exif.Valid(exif.value) && Counted(counts, exif.value)
        && current + 18 + IfdSize(Zeroth(exif.value)) <= buf.Length
      modifies buf
      ensures buf[..] == if exif.None? then old(buf[..]) else App1Updated(old(buf[..]), current, exif.value)
    {
      hide Zeroth, Counted, ValSize, Exif.Valid, IfdSize, App1Updated;
      if exif.Some? {
        UpdateApp1Zeroth(buf, current, exif.value, counts);
      }
    }

    method WriteAPPX(current: nat, justReserve: bool) returns (end: nat)
      requires current + AppxBytes(debug) <= buf.Length
      modifies buf
      ensures buf[..] == AppxMemory(old(buf[..]), current, debug, justReserve) && end == current + AppxBytes(debug)
    {
      hide AppxWritten, AppxSize;
      if debug.None? {
        return current;
      }
      end := WriteAppx(buf, current, debug.value, justReserve);
    }

    /** The segment whose last `dummy` bytes the main stream overwrites, so that
        the main stream starts at a multiple of `align`. */
    method WriteAPP11(bufAddr: nat, current: nat, dummy: nat, align: nat) returns (end: nat)
      requires align == 1 || align == 16
      requires dummy == JPEG_MARKER_SIZE && current + 22 <= buf.Length
      modifies buf
      ensures var any := exif.Some? || debug.Some?;
        var pad := App11Pad(bufAddr + current, align);
        && buf[..] == App11Memory(old(buf[..]), current, any, pad)
        && end == current + (if any then 4 + pad + dummy else 0)
        && (any ==> (bufAddr + end - dummy) % align == 0)
    {
      hide Splice, BE16;
      if dummy == 0 && align == 1 {
        return current;
      }
      if exif.None? && debug.None? {
        return current;
      }
      var len := (bufAddr + current + 4) % align;
      if len != 0 {
        len := align - len;
      }
      assert len == App11Pad(bufAddr + current, align);
      App11PadAligns(bufAddr + current, align);
      len := U16(len + dummy + JPEG_SEGMENT_LENFIELD_SIZE);
      Store(buf, current, [0xFF, 0xEB]);
      Store(buf, current + 2, BE16(len));
      SpliceSplice(old(buf[..]), current, [0xFF, 0xEB], BE16(len));
      return current + 2 + len;
    }

    method Write(bufAddr: nat, reserve: bool, dummy: nat, align: nat, reserveDebug: bool)
      requires dummy == JPEG_MARKER_SIZE && (align == 1 || align == 16)
      requires Prepared() && 2 <= appBase
      requires appBase + App1Bytes(exif) + Space(reserve) + AppxBytes(debug) + 22 <= buf.Length
      modifies buf, `app1End, `szApp11, `mainBase, `thumbSizePlaceholder
      ensures app1End == appBase + App1Bytes(exif) + Space(reserve)
      ensures var appxEnd := app1End + AppxBytes(debug);
        var any := exif.Some? || debug.Some?;
        var pad := App11Pad(bufAddr + appxEnd, align);
        var m1 := App1Memory(old(buf[..]), appBase, exif, U16(szApp1 + if reserve then szMaxThumb else 0),
                             ThumbOffset(appBase));
        && szApp11 == (if any then 6 + pad else 0) && mainBase == appxEnd + szApp11 - 2
        && buf[..] == App11Memory(AppxMemory(m1, app1End, debug, reserveDebug), appxEnd, any, pad)
      ensures exif.Some? || debug.Some? ==> (bufAddr + mainBase) % align == 0
      ensures thumbSizePlaceholder ==
        if HasThumb() then Some(appBase + App1Bytes(exif) - 8) else old(thumbSizePlaceholder)
    {
      hide App1Bytes, AppxBytes, App1Memory, AppxMemory, App11Memory, Counted, Exif.Valid;
      app1End := WriteAPP1(appBase, reserve);
      var appXend := WriteAPPX(app1End, reserveDebug);
      var app11end := WriteAPP11(bufAddr, appXend, dummy, align);
      szApp11 := U16(app11end - appXend);
      mainBase := app11end - dummy;
    }

    predicate IsThumbSpaceReserved()
      reads this
    {
      app1End - appBase == szApp1 + szMaxThumb + JPEG_MARKER_SIZE
    }

    /** The size of all segments, with at most `thumbLen` bytes for the thumbnail stream. */
    ghost function AppSize(thumbLen: nat): nat
      reads this
    {
      (if szApp1 > 0 then szApp1 + JPEG_MARKER_SIZE else 0) + AppxBytes(debug)
      + (if IsThumbSpaceReserved() || szMaxThumb < thumbLen then szMaxThumb else thumbLen) + szApp11
    }

    method CalculateAPPSize(thumbLen: nat) returns (appsize: nat)
      ensures appsize == AppSize(thumbLen)
    {
      appsize := 0;
      if szApp1 > 0 {
        appsize := appsize + szApp1 + JPEG_MARKER_SIZE;
      }
      if debug.Some? {
        ghost var front := appsize;
        for k := 0 to |debug.value.ids|
          invariant appsize == front + AppxSize(debug.value, k)
        {
          appsize := appsize + |debug.value.Data(debug.value.ids[k])| + JPEG_MARKER_SIZE + JPEG_SEGMENT_LENFIELD_SIZE;
        }
      }
      if IsThumbSpaceReserved() {
        appsize := appsize + szMaxThumb;
      } else {
        appsize := appsize + if szMaxThumb > thumbLen then thumbLen else szMaxThumb;
      }
      return appsize + szApp11;
    }

    method Finalize(thumbSize: nat)
      requires thumbSizePlaceholder.Some? ==> thumbSizePlaceholder.value + 4 <= buf.Length
      modifies buf, `thumbSizePlaceholder
      ensures thumbSizePlaceholder == None
      ensures buf[..] == if old(thumbSizePlaceholder).Some?
        then Splice(old(buf[..]), old(thumbSizePlaceholder).value, LE32(U32(thumbSize))) else old(buf[..])
    {
      if thumbSizePlaceholder.Some? {
        Store(buf, thumbSizePlaceholder.value, LE32(U32(thumbSize)));
        thumbSizePlaceholder := None;
      }
    }

    method UpdateApp1Size(amount: nat)
      requires appBase + 4 <= buf.Length
      modifies buf
      ensures buf[..] == Splice(old(buf[..]), appBase + JPEG_MARKER_SIZE, BE16(U16(szApp1 + amount)))
    {
      Store(buf, appBase + JPEG_MARKER_SIZE, BE16(U16(szApp1 + amount)));
    }
  }
}
