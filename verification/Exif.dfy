/** The attribute record of ExynosExif.h, and the directories it stands for. */
module Exif {
  import opened Bytes
  import opened Tiff
  import opened TiffReader
  import opened IfdWriter

  /** exif_attribute_t. Character arrays are given with all their bytes; the
      maker note and the user comment with as many bytes as their size says. */
  datatype Attributes = Attributes(
    enableGps: bool,
    enableThumb: bool,
    maker: seq<byte>,
    model: seq<byte>,
    software: seq<byte>,
    exifVersion: seq<byte>,
    dateTime: seq<byte>,
    secTime: seq<byte>,
    makerNote: seq<byte>,
    userComment: seq<byte>,
    width: u32,
    height: u32,
    widthThumb: u32,
    heightThumb: u32,
    orientation: u16,
    ycbcrPositioning: u16,
    exposureProgram: u16,
    isoSpeedRating: u16,
    meteringMode: u16,
    flash: u16,
    colorSpace: u16,
    interoperabilityIndex: u16,
    exposureMode: u16,
    whiteBalance: u16,
    focalLength35mm: u16,
    sceneCaptureType: u16,
    uniqueId: seq<byte>,
    exposureTime: Rational,
    fnumber: Rational,
    aperture: Rational,
    maxAperture: Rational,
    focalLength: Rational,
    shutterSpeed: Rational,
    brightness: Rational,
    exposureBias: Rational,
    gpsLatitudeRef: seq<byte>,
    gpsLongitudeRef: seq<byte>,
    gpsVersionId: seq<byte>,
    gpsAltitudeRef: byte,
    gpsLatitude: seq<Rational>,
    gpsLongitude: seq<Rational>,
    gpsAltitude: Rational,
    gpsTimestamp: seq<Rational>,
    gpsDatestamp: seq<byte>,
    gpsProcessingMethod: seq<byte>,
    xResolution: Rational,
    yResolution: Rational,
    resolutionUnit: u16,
    compressionScheme: u16)

  /** Arrays have their declared sizes, and the strings are terminated. */
  ghost predicate Valid(e: Attributes) {
    && |e.maker| == |e.model| == |e.software| == 32 && |e.uniqueId| == 30
    && 0 in e.maker && 0 in e.model && 0 in e.software && 0 in e.uniqueId
    && |e.exifVersion| == 4 && |e.gpsVersionId| == 4
    && |e.gpsLatitudeRef| == |e.gpsLongitudeRef| == 2
    && |e.gpsLatitude| == |e.gpsLongitude| == |e.gpsTimestamp| == 3
    && |e.gpsProcessingMethod| == 100 && 0 in e.gpsProcessingMethod
    && |e.makerNote| < 0x1_0000_0000 && |e.userComment| < 0x1_0000_0000
  }

  lemma ArraySizes(e: Attributes)
    requires Valid(e)
    ensures |e.exifVersion| == 4 && |e.gpsTimestamp| == 3
  {
  }

  /** The number of characters in front of the terminator. */
  function StrLen(s: seq<byte>): (n: nat)
    requires 0 in s
    ensures n < |s| && s[n] == 0 && 0 !in s[..n]
  {
    if s[0] == 0 then 0 else 1 + StrLen(s[1..])
  }

  const EXIF_DATETIME_LENGTH: u32 := 20
  const EXIF_SUBSECTIME_LENGTH: u32 := 5
  const EXIF_GPSDATESTAMP_LENGTH: u32 := 11
  const MAX_GPS_PROCESSINGMETHOD_SIZE := 108
  const EXIF_ASCII_PREFIX: seq<byte> := [0x41, 0x53, 0x43, 0x49, 0x49, 0, 0, 0]

  /** An entry for a string, left out when the string is empty. */
  function OptAscii(tag: u16, s: seq<byte>): seq<Field>
    requires 0 in s && |s| <= 32
  {
    if StrLen(s) > 0 then [AsciiField(tag, s, StrLen(s) + 1)] else []
  }

  /** An entry for a block of bytes, left out when it is empty. */
  function OptUndef(tag: u16, s: seq<byte>): seq<Field> {
    if |s| > 0 then [UndefField(tag, s)] else []
  }

  // ----- 0th IFD ----------------------------------------------------------------

  function ZerothHead(e: Attributes): seq<Field> {
    [ ShortField(0x0112, [e.orientation]),
      ShortField(0x0213, [e.ycbcrPositioning]),
      RationalField(0x011A, TYPE_RATIONAL, [e.xResolution]),
      RationalField(0x011B, TYPE_RATIONAL, [e.yResolution]),
      ShortField(0x0128, [e.resolutionUnit]) ]
  }

  function ZerothStrings(e: Attributes): seq<Field>
    requires Valid(e)
  {
    OptAscii(0x010F, e.maker) + OptAscii(0x0110, e.model) + OptAscii(0x0131, e.software)
  }

  function ZerothPointers(e: Attributes): seq<Field>
    requires Valid(e)
  {
    [ CStringField(0x0132, e.dateTime, EXIF_DATETIME_LENGTH), SubIfd(TAG_EXIF_IFD, ExifFields(e)) ]
    + if e.enableGps then [SubIfd(TAG_GPS_IFD, GpsFields(e))] else []
  }

  function Zeroth(e: Attributes): seq<Field>
    requires Valid(e)
  {
    ZerothHead(e) + ZerothStrings(e) + ZerothPointers(e)
  }

  // ----- Exif IFD ---------------------------------------------------------------

  function ExifExposure(e: Attributes): seq<Field> {
    [ RationalField(0x829A, TYPE_RATIONAL, [e.exposureTime]),
      RationalField(0x829D, TYPE_RATIONAL, [e.fnumber]),
      ShortField(0x8822, [e.exposureProgram]),
      ShortField(0x8827, [e.isoSpeedRating]),
      UndefField(0x9000, e.exifVersion) ]
  }

  function ExifDates(e: Attributes): seq<Field> {
    [ CStringField(0x9003, e.dateTime, EXIF_DATETIME_LENGTH),
      CStringField(0x9004, e.dateTime, EXIF_DATETIME_LENGTH),
      RationalField(0x9201, TYPE_SRATIONAL, [e.shutterSpeed]),
      RationalField(0x9202, TYPE_RATIONAL, [e.aperture]),
      RationalField(0x9203, TYPE_SRATIONAL, [e.brightness]) ]
  }

  function ExifLens(e: Attributes): seq<Field> {
    [ RationalField(0x9204, TYPE_SRATIONAL, [e.exposureBias]),
      RationalField(0x9205, TYPE_RATIONAL, [e.maxAperture]),
      ShortField(0x9207, [e.meteringMode]),
      ShortField(0x9209, [e.flash]),
      RationalField(0x920A, TYPE_RATIONAL, [e.focalLength]) ]
  }

  function ExifSubsec(e: Attributes): seq<Field> {
    [ CStringField(0x9290, e.secTime, EXIF_SUBSECTIME_LENGTH),
      CStringField(0x9291, e.secTime, EXIF_SUBSECTIME_LENGTH),
      CStringField(0x9292, e.secTime, EXIF_SUBSECTIME_LENGTH) ]
  }

  function ExifPicture(e: Attributes): seq<Field> {
    [ ShortField(0xA001, [e.colorSpace]),
      LongField(0xA002, e.width),
      LongField(0xA003, e.height),
      ShortField(0xA402, [e.exposureMode]),
      ShortField(0xA403, [e.whiteBalance]),
      ShortField(0xA405, [e.focalLength35mm]) ]
  }

  function InteropFields(e: Attributes): seq<Field> {
    [ AsciiField(0x0001, InteropIndex(e), 4), UndefField(0x0002, [0x30, 0x31, 0x30, 0x30]) ]
  }

  /** "THM" or "R98", with its terminator. */
  function InteropIndex(e: Attributes): (s: seq<byte>)
    ensures |s| == 4
  {
    if e.interoperabilityIndex != 0 then [0x54, 0x48, 0x4D, 0] else [0x52, 0x39, 0x38, 0]
  }

  function ExifCapture(e: Attributes): seq<Field> {
    ExifExposure(e) + ExifDates(e) + ExifLens(e) + ExifSubsec(e)
  }

  function ExifRest(e: Attributes): seq<Field>
    requires Valid(e)
  {
    OptUndef(0x927C, e.makerNote) + OptUndef(0x9286, e.userComment) + ExifPicture(e)
    + [ShortField(0xA406, [e.sceneCaptureType])] + OptAscii(0xA420, e.uniqueId)
  }

  function ExifFields(e: Attributes): seq<Field>
    requires Valid(e)
  {
    ExifCapture(e) + ExifRest(e) + [SubIfd(TAG_INTEROP_IFD, InteropFields(e))]
  }

  // ----- GPS IFD ----------------------------------------------------------------

  function GpsPosition(e: Attributes): seq<Field>
    requires Valid(e)
  {
    [ ByteField(0x0000, e.gpsVersionId),
      AsciiField(0x0001, e.gpsLatitudeRef, 2),
      RationalField(0x0002, TYPE_RATIONAL, e.gpsLatitude),
      AsciiField(0x0003, e.gpsLongitudeRef, 2),
      RationalField(0x0004, TYPE_RATIONAL, e.gpsLongitude) ]
  }

  function GpsTime(e: Attributes): seq<Field> {
    [ ByteField(0x0005, [e.gpsAltitudeRef]),
      RationalField(0x0006, TYPE_RATIONAL, [e.gpsAltitude]),
      CStringField(0x001D, e.gpsDatestamp, EXIF_GPSDATESTAMP_LENGTH),
      RationalField(0x0007, TYPE_RATIONAL, e.gpsTimestamp) ]
  }

  /** The processing method behind its character code, cut to 99 characters. */
  function GpsMethodBytes(e: Attributes): seq<byte>
    requires Valid(e)
  {
    EXIF_ASCII_PREFIX + e.gpsProcessingMethod[..StrLen(e.gpsProcessingMethod)] + [0]
  }

  function GpsMethod(e: Attributes): seq<Field>
    requires Valid(e)
  {
    if StrLen(e.gpsProcessingMethod) > 0 then [UndefField(0x001B, GpsMethodBytes(e))] else []
  }

  function GpsFields(e: Attributes): seq<Field>
    requires Valid(e)
  {
    GpsPosition(e) + GpsTime(e) + GpsMethod(e)
  }

  // ----- 1st IFD ----------------------------------------------------------------

  /** The thumbnail's directory, with the place and the length of its stream. */
  function ThumbFields(e: Attributes, offset: u32, length: u32): seq<Field> {
    [ LongField(0x0100, e.widthThumb),
      LongField(0x0101, e.heightThumb),
      ShortField(0x0103, [e.compressionScheme]),
      ShortField(0x0112, [e.orientation]),
      LongField(0x0201, offset),
      LongField(0x0202, length) ]
  }

  // ----- Sizes ------------------------------------------------------------------

  lemma ValSizeFew(fs: seq<Field>)
    requires |fs| <= 6
    ensures ValSize(fs) ==
      (if |fs| > 0 then OutSize(fs[0]) else 0) + (if |fs| > 1 then OutSize(fs[1]) else 0)
      + (if |fs| > 2 then OutSize(fs[2]) else 0) + (if |fs| > 3 then OutSize(fs[3]) else 0)
      + (if |fs| > 4 then OutSize(fs[4]) else 0) + (if |fs| > 5 then OutSize(fs[5]) else 0)
  {
    hide OutSize;
    if |fs| > 0 {
      ValSizeFew(fs[..|fs| - 1]);
    }
  }

  function AsciiSize(s: seq<byte>): nat
    requires 0 in s
  {
    if StrLen(s) > 3 then StrLen(s) + 1 else 0
  }

  function UndefSize(s: seq<byte>): nat {
    if |s| > 4 then |s| else 0
  }

  lemma OptSizes(tag: u16, s: seq<byte>)
    ensures 0 in s && |s| <= 32 ==> ValSize(OptAscii(tag, s)) == AsciiSize(s)
    ensures ValSize(OptUndef(tag, s)) == UndefSize(s)
  {
    ValSizeFew(OptUndef(tag, s));
    if 0 in s && |s| <= 32 {
      ValSizeFew(OptAscii(tag, s));
    }
  }

  lemma ExifGroupSizes(e: Attributes)
    requires Valid(e)
    ensures ValSize(ExifExposure(e)) == 16 && ValSize(ExifDates(e)) == 64 && ValSize(ExifLens(e)) == 24
    ensures ValSize(ExifSubsec(e)) == 15 && ValSize(ExifPicture(e)) == 0
  {
    hide ValSize, Padded, Text, ShortBytes, RationalBytes, LE32;
    ValSizeFew(ExifExposure(e));
    ValSizeFew(ExifDates(e));
    ValSizeFew(ExifLens(e));
    ValSizeFew(ExifSubsec(e));
    ValSizeFew(ExifPicture(e));
  }

  lemma InteropSize(e: Attributes)
    ensures IfdSize(InteropFields(e)) == 30
  {
    hide ValSize;
    ValSizeFew(InteropFields(e));
  }

  lemma PictureCount(e: Attributes)
    ensures |ExifPicture(e)| == 6
  {
  }

  lemma ExifCaptureSize(e: Attributes)
    requires Valid(e)
    ensures |ExifCapture(e)| == 18 && ValSize(ExifCapture(e)) == 119
  {
    ExifGroupSizes(e);
    hide ValSize, OutSize, Valid;
    ValSizeConcat(ExifExposure(e), ExifDates(e));
    ValSizeConcat(ExifExposure(e) + ExifDates(e), ExifLens(e));
    ValSizeConcat(ExifExposure(e) + ExifDates(e) + ExifLens(e), ExifSubsec(e));
  }

  lemma ExifRestSize(e: Attributes)
    requires Valid(e)
    ensures 7 <= |ExifRest(e)| <= 10
    ensures ValSize(ExifRest(e)) == UndefSize(e.makerNote) + UndefSize(e.userComment) + AsciiSize(e.uniqueId)
  {
    ExifGroupSizes(e);
    OptSizes(0x927C, e.makerNote);
    OptSizes(0x9286, e.userComment);
    OptSizes(0xA420, e.uniqueId);
    var scene := ShortField(0xA406, [e.sceneCaptureType]);
    ValSizeFew([scene]);
    hide ValSize, OutSize, StrLen, UndefSize, AsciiSize;
    var notes := OptUndef(0x927C, e.makerNote) + OptUndef(0x9286, e.userComment);
    ValSizeConcat(OptUndef(0x927C, e.makerNote), OptUndef(0x9286, e.userComment));
    ValSizeConcat(notes, ExifPicture(e));
    ValSizeConcat(notes + ExifPicture(e), [scene]);
    ValSizeConcat(notes + ExifPicture(e) + [scene], OptAscii(0xA420, e.uniqueId));
  }

  lemma ExifSize(e: Attributes)
    requires Valid(e)
    ensures |ExifFields(e)| == 19 + |ExifRest(e)| <= 29
    ensures IfdSize(ExifFields(e)) == 6 + 12 * |ExifFields(e)| + 119 + ValSize(ExifRest(e)) + 30
  {
    ExifCaptureSize(e);
    ExifRestSize(e);
    InteropSize(e);
    var interop := [SubIfd(TAG_INTEROP_IFD, InteropFields(e))];
    ValSizeFew(interop);
    SubSize(TAG_INTEROP_IFD, InteropFields(e));
    hide ValSize, ExifCapture, ExifRest, InteropFields, Valid;
    ValSizeConcat(ExifCapture(e), ExifRest(e));
    ValSizeConcat(ExifCapture(e) + ExifRest(e), interop);
  }

  lemma SubSize(tag: u16, fields: seq<Field>)
    ensures OutSize(SubIfd(tag, fields)) == IfdSize(fields)
  {
  }

  lemma GpsSize(e: Attributes)
    requires Valid(e)
    ensures |GpsFields(e)| == 9 + |GpsMethod(e)| <= 10
    ensures IfdSize(GpsFields(e)) == 6 + 12 * |GpsFields(e)| + 91 + ValSize(GpsMethod(e))
    ensures ValSize(GpsMethod(e)) ==
      if StrLen(e.gpsProcessingMethod) > 0 then StrLen(e.gpsProcessingMethod) + 9 else 0
  {
    hide ValSize, Padded, Text, ShortBytes, RationalBytes, StrLen;
    ValSizeFew(GpsPosition(e));
    ValSizeFew(GpsTime(e));
    ValSizeFew(GpsMethod(e));
    ValSizeConcat(GpsPosition(e), GpsTime(e));
    ValSizeConcat(GpsPosition(e) + GpsTime(e), GpsMethod(e));
  }

  lemma ZerothGroupSizes(e: Attributes)
    requires Valid(e)
    ensures |ZerothHead(e)| == 5 && ValSize(ZerothHead(e)) == 16
    ensures |ZerothPointers(e)| == if e.enableGps then 3 else 2
    ensures ValSize(ZerothPointers(e)) ==
      20 + IfdSize(ExifFields(e)) + if e.enableGps then IfdSize(GpsFields(e)) else 0
  {
    hide ValSize, Padded, Text, ShortBytes, RationalBytes, ExifFields, GpsFields, Valid;
    ValSizeFew(ZerothHead(e));
    ValSizeFew(ZerothPointers(e));
  }

  lemma ZerothStringsSize(e: Attributes)
    requires Valid(e)
    ensures |ZerothStrings(e)| <= 3
    ensures ValSize(ZerothStrings(e)) == AsciiSize(e.maker) + AsciiSize(e.model) + AsciiSize(e.software)
  {
    hide ValSize, StrLen;
    OptSizes(0x010F, e.maker);
    OptSizes(0x0110, e.model);
    OptSizes(0x0131, e.software);
    ValSizeConcat(OptAscii(0x010F, e.maker), OptAscii(0x0110, e.model));
    ValSizeConcat(OptAscii(0x010F, e.maker) + OptAscii(0x0110, e.model), OptAscii(0x0131, e.software));
  }

  lemma ZerothSize(e: Attributes)
    requires Valid(e)
    ensures |Zeroth(e)| == 7 + |ZerothStrings(e)| + (if e.enableGps then 1 else 0) <= 11
    ensures ValSize(Zeroth(e)) == 16 + ValSize(ZerothStrings(e)) + ValSize(ZerothPointers(e))
    ensures IfdSize(Zeroth(e)) == 6 + 12 * |Zeroth(e)| + 36
      + AsciiSize(e.maker) + AsciiSize(e.model) + AsciiSize(e.software)
      + IfdSize(ExifFields(e)) + if e.enableGps then IfdSize(GpsFields(e)) else 0
  {
    ZerothGroupSizes(e);
    ZerothStringsSize(e);
    hide ValSize, ZerothHead, ZerothStrings, ZerothPointers, AsciiSize, ExifFields, GpsFields, Valid;
    ValSizeConcat(ZerothHead(e), ZerothStrings(e));
    ValSizeConcat(ZerothHead(e) + ZerothStrings(e), ZerothPointers(e));
  }

  lemma ThumbSize(e: Attributes, offset: u32, length: u32)
    ensures |ThumbFields(e, offset, length)| == 6 && IfdSize(ThumbFields(e, offset, length)) == 78
  {
    hide ValSize, ShortBytes, LE32;
    ValSizeFew(ThumbFields(e, offset, length));
  }

  // ----- A reader recognises every field ------------------------------------------

  lemma OptReadable(tag: u16, s: seq<byte>, depth: nat)
    requires !IsPointerTag(tag)
    ensures 0 in s && |s| <= 32 ==> Readable(OptAscii(tag, s), depth)
    ensures |s| < 0x1_0000_0000 ==> Readable(OptUndef(tag, s), depth)
  {
    hide StrLen, Readable;
    if |s| < 0x1_0000_0000 {
      ReadableAll(OptUndef(tag, s), depth);
    }
    if 0 in s && |s| <= 32 {
      ReadableAll(OptAscii(tag, s), depth);
    }
  }

  lemma ExifCaptureReadable(e: Attributes)
    requires Valid(e)
    ensures Readable(ExifCapture(e), 1)
  {
    hide Readable, Padded, Text, ShortBytes, RationalBytes, LE32;
    ReadableAll(ExifExposure(e), 1);
    ReadableAll(ExifDates(e), 1);
    ReadableAll(ExifLens(e), 1);
    ReadableAll(ExifSubsec(e), 1);
    hide ReadableField, ExifExposure, ExifDates, ExifLens, ExifSubsec;
    ReadableConcat(ExifExposure(e), ExifDates(e), 1);
    ReadableConcat(ExifExposure(e) + ExifDates(e), ExifLens(e), 1);
    ReadableConcat(ExifExposure(e) + ExifDates(e) + ExifLens(e), ExifSubsec(e), 1);
  }

  lemma ExifRestReadable(e: Attributes)
    requires Valid(e)
    ensures Readable(ExifRest(e), 1)
  {
    hide Readable, ShortBytes, LE32, OptAscii, OptUndef;
    var scene := ShortField(0xA406, [e.sceneCaptureType]);
    ReadableAll(ExifPicture(e), 1);
    ReadableAll([scene], 1);
    OptReadable(0x927C, e.makerNote, 1);
    OptReadable(0x9286, e.userComment, 1);
    OptReadable(0xA420, e.uniqueId, 1);
    hide ReadableField, ExifPicture;
    var notes := OptUndef(0x927C, e.makerNote) + OptUndef(0x9286, e.userComment);
    ReadableConcat(OptUndef(0x927C, e.makerNote), OptUndef(0x9286, e.userComment), 1);
    ReadableConcat(notes, ExifPicture(e), 1);
    ReadableConcat(notes + ExifPicture(e), [scene], 1);
    ReadableConcat(notes + ExifPicture(e) + [scene], OptAscii(0xA420, e.uniqueId), 1);
  }

  lemma ExifReadable(e: Attributes)
    requires Valid(e)
    ensures Readable(ExifFields(e), 1)
  {
    hide Readable;
    ExifCaptureReadable(e);
    ExifRestReadable(e);
    ReadableAll(InteropFields(e), 0);
    ReadableAll([SubIfd(TAG_INTEROP_IFD, InteropFields(e))], 1);
    hide ExifCapture, ExifRest, InteropFields;
    ReadableConcat(ExifCapture(e), ExifRest(e), 1);
    ReadableConcat(ExifCapture(e) + ExifRest(e), [SubIfd(TAG_INTEROP_IFD, InteropFields(e))], 1);
  }

  lemma GpsReadable(e: Attributes)
    requires Valid(e)
    ensures Readable(GpsFields(e), 1)
  {
    hide Readable, Padded, Text, ShortBytes, RationalBytes, LE32, StrLen;
    ReadableAll(GpsPosition(e), 1);
    ReadableAll(GpsTime(e), 1);
    ReadableAll(GpsMethod(e), 1);
    ReadableConcat(GpsPosition(e), GpsTime(e), 1);
    ReadableConcat(GpsPosition(e) + GpsTime(e), GpsMethod(e), 1);
  }

  lemma ZerothHeadReadable(e: Attributes)
    ensures Readable(ZerothHead(e), 2)
  {
    hide Readable, ShortBytes, RationalBytes;
    ReadableAll(ZerothHead(e), 2);
  }

  lemma ZerothStringsReadable(e: Attributes)
    requires Valid(e)
    ensures Readable(ZerothStrings(e), 2)
  {
    hide Readable, ReadableField, OptAscii;
    OptReadable(0x010F, e.maker, 2);
    OptReadable(0x0110, e.model, 2);
    OptReadable(0x0131, e.software, 2);
    ReadableConcat(OptAscii(0x010F, e.maker), OptAscii(0x0110, e.model), 2);
    ReadableConcat(OptAscii(0x010F, e.maker) + OptAscii(0x0110, e.model), OptAscii(0x0131, e.software), 2);
  }

  lemma ZerothPointersReadable(e: Attributes)
    requires Valid(e)
    ensures Readable(ZerothPointers(e), 2)
  {
    hide Readable, Padded, Text, ShortBytes, RationalBytes, LE32, ExifFields, GpsFields;
    ExifReadable(e);
    GpsReadable(e);
    ExifSize(e);
    GpsSize(e);
    ReadableAll(ZerothPointers(e), 2);
  }

  lemma ZerothReadable(e: Attributes)
    requires Valid(e)
    ensures Readable(Zeroth(e), 2)
  {
    hide Readable, ZerothHead, ZerothStrings, ZerothPointers, Valid;
    ZerothHeadReadable(e);
    ZerothStringsReadable(e);
    ZerothPointersReadable(e);
    ReadableConcat(ZerothHead(e), ZerothStrings(e), 2);
    ReadableConcat(ZerothHead(e) + ZerothStrings(e), ZerothPointers(e), 2);
  }

  lemma ThumbReadable(e: Attributes, offset: u32, length: u32)
    ensures Readable(ThumbFields(e, offset, length), 0)
  {
    hide Readable, ShortBytes, LE32;
    ReadableAll(ThumbFields(e, offset, length), 0);
  }
}
