/**
  What an Exif reader finds under each tag (Exif 2.2 section 4.6, TIFF 6.0): every value read from a finished stream,
  tag by tag and byte by byte, against the attributes of the record.
*/
module ExifValues {
  import opened AppMarker
  import opened Bytes
  import opened Exif
  import ExifUpdate
  import opened IfdWriter
  import opened JpegStream
  import opened ReadBack
  import opened Tiff
  import opened TiffReader
  import opened Wrappers

  // ----- Values ----------------------------------------------------------------------------

  /** The first entry with this tag. */
  function Entry(fs: seq<Field>, tag: u16): Option<Field> {
    if fs == [] then None else if fs[0].tag == tag then Some(fs[0]) else Entry(fs[1..], tag)
  }

  /** A number of four bytes, the lowest first. */
  function Number(s: seq<byte>, at: nat): int
    requires at + 4 <= |s|
  {
    s[at] as int + 256 * (s[at + 1] as int + 256 * (s[at + 2] as int + 256 * s[at + 3] as int))
  }

  predicate IsValue(f: Option<Field>, typ: u16, count: nat, size: nat) {
    f.Some? && f.value.Plain? && f.value.typ == typ && f.value.count == count && |f.value.data| == size
  }

  predicate IsShort(f: Option<Field>, v: u16) {
    IsValue(f, 3, 1, 2) && f.value.data[0] as int + 256 * f.value.data[1] as int == v
  }

  predicate IsLong(f: Option<Field>, v: u32) {
    IsValue(f, 4, 1, 4) && Number(f.value.data, 0) == v
  }

  /** Bytes (type 1), or undefined ones (7). */
  predicate IsBytes(f: Option<Field>, typ: u16, s: seq<byte>) {
    IsValue(f, typ, |s|, |s|) && f.value.data == s
  }

  /** Rationals (type 5), or signed ones (10): each a numerator and then a denominator. */
  predicate IsRationals(f: Option<Field>, typ: u16, vs: seq<Rational>) {
    && IsValue(f, typ, |vs|, 8 * |vs|)
    && forall k | 0 <= k < |vs| ::
         Number(f.value.data, 8 * k) == vs[k].num && Number(f.value.data, 8 * k + 4) == vs[k].den
  }

  /** The characters up to the first zero, and the zero. */
  predicate IsText(f: Option<Field>, s: seq<byte>) {
    && f.Some? && f.value.Plain? && f.value.typ == 2 && f.value.count == |f.value.data| > 0 && f.value.data <= s
    && var n := |f.value.data| - 1;
       f.value.data[n] == 0 && 0 !in f.value.data[..n]
  }

  /** The characters up to the first zero, cut to `count - 1`, and zeros up to `count`. */
  predicate IsPadded(f: Option<Field>, s: seq<byte>, count: nat) {
    && IsValue(f, 2, count, count)
    && exists n: nat :: n < count && n <= |s| && f.value.data[..n] == s[..n] && 0 !in s[..n]
         && (n == count - 1 || n == |s| || s[n] == 0) && forall k | n <= k < count :: f.value.data[k] == 0
  }

  // ----- The tags of each directory -------------------------------------------------------------

  ghost predicate ImageTags(fs: seq<Field>, e: Attributes) {
    && IsShort(Entry(fs, 0x0112), e.orientation)
    && IsShort(Entry(fs, 0x0213), e.ycbcrPositioning)
    && IsRationals(Entry(fs, 0x011A), 5, [e.xResolution])
    && IsRationals(Entry(fs, 0x011B), 5, [e.yResolution])
    && IsShort(Entry(fs, 0x0128), e.resolutionUnit)
  }

  /** An entry for a string, and none for an empty one. */
  predicate IsOptionalText(f: Option<Field>, s: seq<byte>) {
    if s != [] && s[0] == 0 then f.None? else IsText(f, s)
  }

  ghost predicate NameTags(fs: seq<Field>, e: Attributes) {
    && IsOptionalText(Entry(fs, 0x010F), e.maker)
    && IsOptionalText(Entry(fs, 0x0110), e.model)
    && IsOptionalText(Entry(fs, 0x0131), e.software)
  }

  ghost predicate ExposureTags(fs: seq<Field>, e: Attributes) {
    && IsRationals(Entry(fs, 0x829A), 5, [e.exposureTime])
    && IsRationals(Entry(fs, 0x829D), 5, [e.fnumber])
    && IsShort(Entry(fs, 0x8822), e.exposureProgram)
    && IsShort(Entry(fs, 0x8827), e.isoSpeedRating)
    && IsBytes(Entry(fs, 0x9000), 7, e.exifVersion)
  }

  ghost predicate DateTags(fs: seq<Field>, e: Attributes) {
    && IsPadded(Entry(fs, 0x9003), e.dateTime, 20)
    && IsPadded(Entry(fs, 0x9004), e.dateTime, 20)
    && IsRationals(Entry(fs, 0x9201), 10, [e.shutterSpeed])
    && IsRationals(Entry(fs, 0x9202), 5, [e.aperture])
    && IsRationals(Entry(fs, 0x9203), 10, [e.brightness])
  }

  ghost predicate LensTags(fs: seq<Field>, e: Attributes) {
    && IsRationals(Entry(fs, 0x9204), 10, [e.exposureBias])
    && IsRationals(Entry(fs, 0x9205), 5, [e.maxAperture])
    && IsShort(Entry(fs, 0x9207), e.meteringMode)
    && IsShort(Entry(fs, 0x9209), e.flash)
    && IsRationals(Entry(fs, 0x920A), 5, [e.focalLength])
  }

  ghost predicate SubsecTags(fs: seq<Field>, e: Attributes) {
    && IsPadded(Entry(fs, 0x9290), e.secTime, 5)
    && IsPadded(Entry(fs, 0x9291), e.secTime, 5)
    && IsPadded(Entry(fs, 0x9292), e.secTime, 5)
  }

  predicate IsOptionalBytes(f: Option<Field>, s: seq<byte>) {
    if s == [] then f.None? else IsBytes(f, 7, s)
  }

  ghost predicate NoteTags(fs: seq<Field>, e: Attributes) {
    && IsOptionalBytes(Entry(fs, 0x927C), e.makerNote)
    && IsOptionalBytes(Entry(fs, 0x9286), e.userComment)
  }

  ghost predicate PictureTags(fs: seq<Field>, e: Attributes) {
    && IsShort(Entry(fs, 0xA001), e.colorSpace)
    && IsLong(Entry(fs, 0xA002), e.width)
    && IsLong(Entry(fs, 0xA003), e.height)
    && IsShort(Entry(fs, 0xA402), e.exposureMode)
    && IsShort(Entry(fs, 0xA403), e.whiteBalance)
    && IsShort(Entry(fs, 0xA405), e.focalLength35mm)
  }

  ghost predicate SceneTags(fs: seq<Field>, e: Attributes) {
    && IsShort(Entry(fs, 0xA406), e.sceneCaptureType)
    && IsOptionalText(Entry(fs, 0xA420), e.uniqueId)
  }

  /** "THM" or "R98", and version "0100". */
  ghost predicate InteropTags(fs: seq<Field>, e: Attributes) {
    && IsBytes(Entry(fs, 0x0001), 2, if e.interoperabilityIndex != 0 then [0x54, 0x48, 0x4D, 0] else [0x52, 0x39, 0x38, 0])
    && IsBytes(Entry(fs, 0x0002), 7, [0x30, 0x31, 0x30, 0x30])
  }

  ghost predicate PositionTags(fs: seq<Field>, e: Attributes)
    requires |e.gpsLatitudeRef| == |e.gpsLongitudeRef| == 2
  {
    && IsBytes(Entry(fs, 0x0000), 1, e.gpsVersionId)
    && IsBytes(Entry(fs, 0x0001), 2, [e.gpsLatitudeRef[0], 0])
    && IsRationals(Entry(fs, 0x0002), 5, e.gpsLatitude)
    && IsBytes(Entry(fs, 0x0003), 2, [e.gpsLongitudeRef[0], 0])
    && IsRationals(Entry(fs, 0x0004), 5, e.gpsLongitude)
  }

  ghost predicate TimeTags(fs: seq<Field>, e: Attributes) {
    && IsBytes(Entry(fs, 0x0005), 1, [e.gpsAltitudeRef])
    && IsRationals(Entry(fs, 0x0006), 5, [e.gpsAltitude])
    && IsPadded(Entry(fs, 0x001D), e.gpsDatestamp, 11)
    && IsRationals(Entry(fs, 0x0007), 5, e.gpsTimestamp)
  }

  /** The code "ASCII" in eight bytes, the method's characters, and a zero. */
  ghost predicate MethodTags(fs: seq<Field>, e: Attributes) {
    var f, s := Entry(fs, 0x001B), e.gpsProcessingMethod;
    if s != [] && s[0] == 0 then f.None?
    else
      && f.Some? && f.value.Plain? && f.value.typ == 7 && f.value.count == |f.value.data| > 9
      && f.value.data[..8] == [0x41, 0x53, 0x43, 0x49, 0x49, 0, 0, 0] && f.value.data[8..] <= s
      && var n := |f.value.data| - 1;
         f.value.data[n] == 0 && 0 !in f.value.data[8..n]
  }

  /** The 1st directory: the thumbnail's attributes, and where its stream is and how long. */
  ghost predicate ThumbTags(fs: seq<Field>, e: Attributes, place: u32, length: u32) {
    && IsLong(Entry(fs, 0x0100), e.widthThumb)
    && IsLong(Entry(fs, 0x0101), e.heightThumb)
    && IsShort(Entry(fs, 0x0103), e.compressionScheme)
    && IsShort(Entry(fs, 0x0112), e.orientation)
    && IsLong(Entry(fs, 0x0201), place)
    && IsLong(Entry(fs, 0x0202), length)
  }

  const EXIF_TAGS: set<u16> :=
    {0x829A, 0x829D, 0x8822, 0x8827, 0x9000, 0x9003, 0x9004, 0x9201, 0x9202, 0x9203, 0x9204, 0x9205, 0x9207, 0x9209,
     0x920A, 0x9290, 0x9291, 0x9292, 0x927C, 0x9286, 0xA001, 0xA002, 0xA003, 0xA402, 0xA403, 0xA405, 0xA406, 0xA420, 0xA005}

  const GPS_TAGS: set<u16> := {0, 1, 2, 3, 4, 5, 6, 7, 0x1B, 0x1D}

  const ZEROTH_TAGS: set<u16> := {0x0112, 0x0213, 0x011A, 0x011B, 0x0128, 0x010F, 0x0110, 0x0131, 0x0132, 0x8769, 0x8825}

  /** Tags of a set, each at most once. */
  ghost predicate Tagged(fs: seq<Field>, tags: set<u16>) {
    && (forall k | 0 <= k < |fs| :: fs[k].tag in tags)
    && forall j, k | 0 <= j < k < |fs| :: fs[j].tag != fs[k].tag
  }

  predicate IsDirectory(f: Option<Field>) {
    f.Some? && f.value.SubIfd?
  }

  /** The Exif directory, with the interoperability directory in it. */
  ghost predicate ExifShows(fs: seq<Field>, e: Attributes) {
    && Tagged(fs, EXIF_TAGS)
    && ExposureTags(fs, e) && DateTags(fs, e) && LensTags(fs, e) && SubsecTags(fs, e) && NoteTags(fs, e)
    && PictureTags(fs, e) && SceneTags(fs, e)
    && IsDirectory(Entry(fs, 0xA005))
    && InteropTags(Entry(fs, 0xA005).value.fields, e) && Tagged(Entry(fs, 0xA005).value.fields, {1, 2})
  }

  ghost predicate GpsShows(fs: seq<Field>, e: Attributes)
    requires |e.gpsLatitudeRef| == |e.gpsLongitudeRef| == 2
  {
    Tagged(fs, GPS_TAGS) && PositionTags(fs, e) && TimeTags(fs, e) && MethodTags(fs, e)
  }

  /** The 0th directory and all below it. */
  ghost predicate ZerothShows(fs: seq<Field>, e: Attributes)
    requires |e.gpsLatitudeRef| == |e.gpsLongitudeRef| == 2
  {
    && Tagged(fs, ZEROTH_TAGS)
    && ImageTags(fs, e) && NameTags(fs, e) && IsPadded(Entry(fs, 0x0132), e.dateTime, 20)
    && IsDirectory(Entry(fs, 0x8769)) && ExifShows(Entry(fs, 0x8769).value.fields, e)
    && if e.enableGps then IsDirectory(Entry(fs, 0x8825)) && GpsShows(Entry(fs, 0x8825).value.fields, e)
       else Entry(fs, 0x8825).None?
  }

  // ----- Looking entries up ------------------------------------------------------------------------

  /** In a short list, one after the other. */
  lemma EntryFew(fs: seq<Field>, tag: u16)
    requires |fs| <= 6
    ensures Entry(fs, tag) ==
      if |fs| > 0 && fs[0].tag == tag then Some(fs[0]) else if |fs| > 1 && fs[1].tag == tag then Some(fs[1])
      else if |fs| > 2 && fs[2].tag == tag then Some(fs[2]) else if |fs| > 3 && fs[3].tag == tag then Some(fs[3])
      else if |fs| > 4 && fs[4].tag == tag then Some(fs[4]) else if |fs| > 5 && fs[5].tag == tag then Some(fs[5])
      else None
  {
    if |fs| > 0 {
      EntryFew(fs[1..], tag);
    }
  }

  lemma {:induction false} EntryConcat(a: seq<Field>, b: seq<Field>, tag: u16)
    ensures Entry(a + b, tag) == if Entry(a, tag).Some? then Entry(a, tag) else Entry(b, tag)
  {
    if a == [] {
      assert a + b == b;
    } else {
      assert (a + b)[1..] == a[1..] + b;
      EntryConcat(a[1..], b, tag);
    }
  }

  lemma {:induction false} EntryNone(fs: seq<Field>, tags: set<u16>, tag: u16)
    requires Tagged(fs, tags) && tag !in tags
    ensures Entry(fs, tag).None?
  {
    if fs != [] {
      assert forall k | 0 <= k < |fs[1..]| :: fs[1..][k] == fs[k + 1];
      EntryNone(fs[1..], tags, tag);
    }
  }

  /** Two lists with tags of their own, one behind the other. */
  lemma Joined(a: seq<Field>, s: set<u16>, b: seq<Field>, t: set<u16>)
    requires Tagged(a, s) && Tagged(b, t) && s !! t
    ensures Tagged(a + b, s + t)
    ensures forall tag: u16 | tag in s :: Entry(a + b, tag) == Entry(a, tag)
    ensures forall tag: u16 | tag !in s :: Entry(a + b, tag) == Entry(b, tag)
  {
    hide Entry;
    forall tag: u16
      ensures Entry(a + b, tag) == if tag in s then Entry(a, tag) else Entry(b, tag)
    {
      EntryConcat(a, b, tag);
      if tag in s {
        EntryNone(b, t, tag);
      } else {
        EntryNone(a, s, tag);
      }
    }
  }

  /** The same entries under these tags. */
  ghost predicate SameUnder(fs: seq<Field>, gs: seq<Field>, tags: set<u16>) {
    forall tag: u16 | tag in tags :: Entry(fs, tag) == Entry(gs, tag)
  }

  /** Three lists with tags of their own, one behind the other. */
  lemma Joined3(a: seq<Field>, s: set<u16>, b: seq<Field>, t: set<u16>, c: seq<Field>, u: set<u16>)
    requires Tagged(a, s) && Tagged(b, t) && Tagged(c, u) && s !! t !! u
    ensures var all := a + b + c;
      Tagged(all, s + t + u) && SameUnder(all, a, s) && SameUnder(all, b, t) && SameUnder(all, c, u)
  {
    hide Entry, Tagged;
    Joined(a, s, b, t);
    Joined(a + b, s + t, c, u);
  }

  lemma SameTwice(fs: seq<Field>, gs: seq<Field>, hs: seq<Field>, tags: set<u16>, more: set<u16>)
    requires SameUnder(fs, gs, more) && SameUnder(gs, hs, tags) && tags <= more
    ensures SameUnder(fs, hs, tags)
  {
    hide Entry;
  }

  // ----- What the writer's fields hold ------------------------------------------------------------------

  lemma ShortShown(tag: u16, v: u16)
    ensures IsShort(Some(ShortField(tag, [v])), v)
  {
    assert ShortBytes([v]) == ShortBytes([]) + LE16(v);
  }

  lemma LongShown(tag: u16, v: u32)
    ensures IsLong(Some(LongField(tag, v)), v)
  {
    var a, b := v / 0x100, v / 0x1_0000;
    assert b == a / 0x100 && v / 0x100_0000 == b / 0x100;
  }

  lemma NumberOf(v: u32, before: seq<byte>, after: seq<byte>)
    ensures Number(before + LE32(v) + after, |before|) == v
  {
    LongShown(0, v);
    var s := before + LE32(v) + after;
    assert forall k | 0 <= k < 4 :: s[|before| + k] == LE32(v)[k];
  }

  lemma {:induction false} RationalAt(vs: seq<Rational>, k: nat)
    requires k < |vs|
    ensures Number(RationalBytes(vs), 8 * k) == vs[k].num && Number(RationalBytes(vs), 8 * k + 4) == vs[k].den
    decreases |vs|
  {
    hide LE32;
    var n := |vs| - 1;
    var v, front := vs[n], RationalBytes(vs[..n]);
    if k < n {
      RationalAt(vs[..n], k);
      assert RationalBytes(vs)[..8 * n] == front;
      NumberInside(RationalBytes(vs), front, 8 * k);
      NumberInside(RationalBytes(vs), front, 8 * k + 4);
    } else {
      NumberOf(v.num, front, LE32(v.den));
      assert front + LE32(v.num) + LE32(v.den) == RationalBytes(vs);
      NumberOf(v.den, front + LE32(v.num), []);
      assert front + LE32(v.num) + LE32(v.den) + [] == RationalBytes(vs);
    }
  }

  lemma NumberInside(s: seq<byte>, front: seq<byte>, at: nat)
    requires at + 4 <= |front| <= |s| && s[..|front|] == front
    ensures Number(s, at) == Number(front, at)
  {
    assert forall k | 0 <= k < |front| :: s[k] == s[..|front|][k];
  }

  lemma RationalsShown(tag: u16, typ: u16, vs: seq<Rational>)
    requires |vs| < 0x1_0000_0000
    ensures IsRationals(Some(RationalField(tag, typ, vs)), typ, vs)
  {
    hide Number, RationalBytes;
    forall k | 0 <= k < |vs|
      ensures Number(RationalBytes(vs), 8 * k) == vs[k].num && Number(RationalBytes(vs), 8 * k + 4) == vs[k].den
    {
      RationalAt(vs, k);
    }
  }

  lemma TextShown(tag: u16, s: seq<byte>)
    requires 0 in s && |s| <= 32
    ensures IsOptionalText(Entry(OptAscii(tag, s), tag), s)
    ensures Tagged(OptAscii(tag, s), {tag})
  {
    hide StrLen;
    var n := StrLen(s);
    EntryFew(OptAscii(tag, s), tag);
    if n > 0 {
      assert s[..n] + [0] == s[..n + 1];
      assert s[0] in s[..n];
    }
  }

  lemma BytesShown(tag: u16, s: seq<byte>)
    requires |s| < 0x1_0000_0000
    ensures IsOptionalBytes(Entry(OptUndef(tag, s), tag), s)
    ensures Tagged(OptUndef(tag, s), {tag})
  {
    EntryFew(OptUndef(tag, s), tag);
  }

  lemma PaddedShown(tag: u16, s: seq<byte>, count: u32)
    requires count > 0
    ensures IsPadded(Some(CStringField(tag, s, count)), s, count)
  {
    hide Text;
    var t := Text(s, count - 1);
    assert t == s[..|t|];
    assert Padded(t, count)[..|t|] == t;
  }

  // ----- Group by group -----------------------------------------------------------------------------------

  const IMAGE_TAGS: set<u16> := {0x0112, 0x0213, 0x011A, 0x011B, 0x0128}

  lemma ImageShown(e: Attributes)
    ensures ImageTags(ZerothHead(e), e) && Tagged(ZerothHead(e), IMAGE_TAGS)
  {
    var fs := ZerothHead(e);
    ShortShown(0x0112, e.orientation);
    ShortShown(0x0213, e.ycbcrPositioning);
    RationalsShown(0x011A, 5, [e.xResolution]);
    RationalsShown(0x011B, 5, [e.yResolution]);
    ShortShown(0x0128, e.resolutionUnit);
    hide Entry, IsShort, IsRationals, ShortBytes, RationalBytes;
    EntryFew(fs, 0x0112);
    EntryFew(fs, 0x0213);
    EntryFew(fs, 0x011A);
    EntryFew(fs, 0x011B);
    EntryFew(fs, 0x0128);
  }

  lemma NamesShown(e: Attributes)
    requires Exif.Valid(e)
    ensures NameTags(ZerothStrings(e), e) && Tagged(ZerothStrings(e), {0x010F, 0x0110, 0x0131})
  {
    TextShown(0x010F, e.maker);
    TextShown(0x0110, e.model);
    TextShown(0x0131, e.software);
    hide OptAscii, Entry, IsOptionalText, Tagged;
    Joined(OptAscii(0x010F, e.maker), {0x010F}, OptAscii(0x0110, e.model), {0x0110});
    var two := OptAscii(0x010F, e.maker) + OptAscii(0x0110, e.model);
    Joined(two, {0x010F, 0x0110}, OptAscii(0x0131, e.software), {0x0131});
    assert {0x010F, 0x0110} + {0x0131} == {0x010F, 0x0110, 0x0131};
  }

  lemma ExposureShown(e: Attributes)
    requires Exif.Valid(e)
    ensures ExposureTags(ExifExposure(e), e) && Tagged(ExifExposure(e), {0x829A, 0x829D, 0x8822, 0x8827, 0x9000})
  {
    var fs := ExifExposure(e);
    RationalsShown(0x829A, 5, [e.exposureTime]);
    RationalsShown(0x829D, 5, [e.fnumber]);
    ShortShown(0x8822, e.exposureProgram);
    ShortShown(0x8827, e.isoSpeedRating);
    assert IsBytes(Some(UndefField(0x9000, e.exifVersion)), 7, e.exifVersion);
    hide Entry, IsShort, IsRationals, IsBytes, ShortBytes, RationalBytes, Exif.Valid;
    EntryFew(fs, 0x829A);
    EntryFew(fs, 0x829D);
    EntryFew(fs, 0x8822);
    EntryFew(fs, 0x8827);
    EntryFew(fs, 0x9000);
  }

  lemma DatesShown(e: Attributes)
    ensures DateTags(ExifDates(e), e) && Tagged(ExifDates(e), {0x9003, 0x9004, 0x9201, 0x9202, 0x9203})
  {
    var fs := ExifDates(e);
    PaddedShown(0x9003, e.dateTime, 20);
    PaddedShown(0x9004, e.dateTime, 20);
    RationalsShown(0x9201, 10, [e.shutterSpeed]);
    RationalsShown(0x9202, 5, [e.aperture]);
    RationalsShown(0x9203, 10, [e.brightness]);
    hide Entry, IsPadded, IsRationals, RationalBytes, Text, Padded;
    EntryFew(fs, 0x9003);
    EntryFew(fs, 0x9004);
    EntryFew(fs, 0x9201);
    EntryFew(fs, 0x9202);
    EntryFew(fs, 0x9203);
  }

  lemma LensShown(e: Attributes)
    ensures LensTags(ExifLens(e), e) && Tagged(ExifLens(e), {0x9204, 0x9205, 0x9207, 0x9209, 0x920A})
  {
    var fs := ExifLens(e);
    RationalsShown(0x9204, 10, [e.exposureBias]);
    RationalsShown(0x9205, 5, [e.maxAperture]);
    ShortShown(0x9207, e.meteringMode);
    ShortShown(0x9209, e.flash);
    RationalsShown(0x920A, 5, [e.focalLength]);
    hide Entry, IsShort, IsRationals, ShortBytes, RationalBytes;
    EntryFew(fs, 0x9204);
    EntryFew(fs, 0x9205);
    EntryFew(fs, 0x9207);
    EntryFew(fs, 0x9209);
    EntryFew(fs, 0x920A);
  }

  lemma SubsecShown(e: Attributes)
    ensures SubsecTags(ExifSubsec(e), e) && Tagged(ExifSubsec(e), {0x9290, 0x9291, 0x9292})
  {
    var fs := ExifSubsec(e);
    PaddedShown(0x9290, e.secTime, 5);
    PaddedShown(0x9291, e.secTime, 5);
    PaddedShown(0x9292, e.secTime, 5);
    hide Entry, IsPadded, Text, Padded;
    EntryFew(fs, 0x9290);
    EntryFew(fs, 0x9291);
    EntryFew(fs, 0x9292);
  }

  lemma PictureShown(e: Attributes)
    ensures PictureTags(ExifPicture(e), e) && Tagged(ExifPicture(e), {0xA001, 0xA002, 0xA003, 0xA402, 0xA403, 0xA405})
  {
    var fs := ExifPicture(e);
    ShortShown(0xA001, e.colorSpace);
    LongShown(0xA002, e.width);
    LongShown(0xA003, e.height);
    ShortShown(0xA402, e.exposureMode);
    ShortShown(0xA403, e.whiteBalance);
    ShortShown(0xA405, e.focalLength35mm);
    hide Entry, IsShort, IsLong, ShortBytes, LE32;
    EntryFew(fs, 0xA001);
    EntryFew(fs, 0xA002);
    EntryFew(fs, 0xA003);
    EntryFew(fs, 0xA402);
    EntryFew(fs, 0xA403);
    EntryFew(fs, 0xA405);
  }

  lemma InteropShown(e: Attributes)
    ensures InteropTags(InteropFields(e), e) && Tagged(InteropFields(e), {1, 2})
  {
    var fs := InteropFields(e);
    hide Entry;
    EntryFew(fs, 0x0001);
    EntryFew(fs, 0x0002);
  }

  lemma PositionShown(e: Attributes)
    requires Exif.Valid(e)
    ensures PositionTags(GpsPosition(e), e) && Tagged(GpsPosition(e), {0, 1, 2, 3, 4})
  {
    var fs := GpsPosition(e);
    assert e.gpsLatitudeRef[..1] + [0] == [e.gpsLatitudeRef[0], 0];
    assert e.gpsLongitudeRef[..1] + [0] == [e.gpsLongitudeRef[0], 0];
    RationalsShown(0x0002, 5, e.gpsLatitude);
    RationalsShown(0x0004, 5, e.gpsLongitude);
    hide Entry, IsRationals, RationalBytes;
    EntryFew(fs, 0x0000);
    EntryFew(fs, 0x0001);
    EntryFew(fs, 0x0002);
    EntryFew(fs, 0x0003);
    EntryFew(fs, 0x0004);
  }

  lemma TimeShown(e: Attributes)
    requires Exif.Valid(e)
    ensures TimeTags(GpsTime(e), e) && Tagged(GpsTime(e), {5, 6, 7, 0x1D})
  {
    var fs := GpsTime(e);
    RationalsShown(0x0006, 5, [e.gpsAltitude]);
    RationalsShown(0x0007, 5, e.gpsTimestamp);
    PaddedShown(0x001D, e.gpsDatestamp, 11);
    hide Entry, IsRationals, RationalBytes, IsPadded, Text, Padded, Exif.Valid;
    EntryFew(fs, 0x0005);
    EntryFew(fs, 0x0006);
    EntryFew(fs, 0x001D);
    EntryFew(fs, 0x0007);
  }

  lemma MethodShown(e: Attributes)
    requires Exif.Valid(e)
    ensures MethodTags(GpsMethod(e), e) && Tagged(GpsMethod(e), {0x1B})
  {
    hide StrLen;
    var s := e.gpsProcessingMethod;
    var n := StrLen(s);
    EntryFew(GpsMethod(e), 0x001B);
    if n > 0 {
      assert s[0] in s[..n];
      assert GpsMethodBytes(e)[..8] == EXIF_ASCII_PREFIX;
      assert GpsMethodBytes(e)[8..] == s[..n + 1];
      assert GpsMethodBytes(e)[8..|GpsMethodBytes(e)| - 1] == s[..n];
    }
  }

  lemma ThumbShown(e: Attributes, place: u32, length: u32)
    ensures ThumbTags(ThumbFields(e, place, length), e, place, length)
    ensures Tagged(ThumbFields(e, place, length), {0x0100, 0x0101, 0x0103, 0x0112, 0x0201, 0x0202})
  {
    var fs := ThumbFields(e, place, length);
    LongShown(0x0100, e.widthThumb);
    LongShown(0x0101, e.heightThumb);
    ShortShown(0x0103, e.compressionScheme);
    ShortShown(0x0112, e.orientation);
    LongShown(0x0201, place);
    LongShown(0x0202, length);
    hide Entry, IsShort, IsLong, ShortBytes, LE32;
    EntryFew(fs, 0x0100);
    EntryFew(fs, 0x0101);
    EntryFew(fs, 0x0103);
    EntryFew(fs, 0x0112);
    EntryFew(fs, 0x0201);
    EntryFew(fs, 0x0202);
  }

  // ----- Directory by directory -----------------------------------------------------------------------------

  const CAPTURE_TAGS: set<u16> :=
    {0x829A, 0x829D, 0x8822, 0x8827, 0x9000, 0x9003, 0x9004, 0x9201, 0x9202, 0x9203, 0x9204, 0x9205, 0x9207, 0x9209,
     0x920A, 0x9290, 0x9291, 0x9292}

  const REST_TAGS: set<u16> := {0x927C, 0x9286, 0xA001, 0xA002, 0xA003, 0xA402, 0xA403, 0xA405, 0xA406, 0xA420}

  const EXPOSURE_TAGS: set<u16> := {0x829A, 0x829D, 0x8822, 0x8827, 0x9000}
  const DATE_TAGS: set<u16> := {0x9003, 0x9004, 0x9201, 0x9202, 0x9203}
  const LENS_TAGS: set<u16> := {0x9204, 0x9205, 0x9207, 0x9209, 0x920A}
  const SUBSEC_TAGS: set<u16> := {0x9290, 0x9291, 0x9292}
  const PICTURE_TAGS: set<u16> := {0xA001, 0xA002, 0xA003, 0xA402, 0xA403, 0xA405}

  ghost predicate CaptureTags(fs: seq<Field>, e: Attributes) {
    ExposureTags(fs, e) && DateTags(fs, e) && LensTags(fs, e) && SubsecTags(fs, e)
  }

  ghost predicate RestTags(fs: seq<Field>, e: Attributes) {
    NoteTags(fs, e) && PictureTags(fs, e) && SceneTags(fs, e)
  }

  lemma ExposureCarried(fs: seq<Field>, gs: seq<Field>, e: Attributes)
    requires ExposureTags(gs, e) && SameUnder(fs, gs, EXPOSURE_TAGS)
    ensures ExposureTags(fs, e)
  {
    hide Entry, IsShort, IsRationals, IsBytes;
  }

  lemma DatesCarried(fs: seq<Field>, gs: seq<Field>, e: Attributes)
    requires DateTags(gs, e) && SameUnder(fs, gs, DATE_TAGS)
    ensures DateTags(fs, e)
  {
    hide Entry, IsRationals, IsPadded;
  }

  lemma LensCarried(fs: seq<Field>, gs: seq<Field>, e: Attributes)
    requires LensTags(gs, e) && SameUnder(fs, gs, LENS_TAGS)
    ensures LensTags(fs, e)
  {
    hide Entry, IsShort, IsRationals;
  }

  lemma SubsecCarried(fs: seq<Field>, gs: seq<Field>, e: Attributes)
    requires SubsecTags(gs, e) && SameUnder(fs, gs, SUBSEC_TAGS)
    ensures SubsecTags(fs, e)
  {
    hide Entry, IsPadded;
  }

  lemma SameWithin(fs: seq<Field>, gs: seq<Field>, tags: set<u16>, more: set<u16>)
    requires SameUnder(fs, gs, more) && tags <= more
    ensures SameUnder(fs, gs, tags)
  {
    hide Entry;
  }

  lemma CaptureCarried(fs: seq<Field>, gs: seq<Field>, e: Attributes)
    requires CaptureTags(gs, e) && SameUnder(fs, gs, CAPTURE_TAGS)
    ensures CaptureTags(fs, e)
  {
    CaptureSets();
    hide Entry, SameUnder, ExposureTags, DateTags, LensTags, SubsecTags;
    hide EXPOSURE_TAGS, DATE_TAGS, LENS_TAGS, SUBSEC_TAGS, CAPTURE_TAGS;
    SameWithin(fs, gs, EXPOSURE_TAGS, CAPTURE_TAGS);
    SameWithin(fs, gs, DATE_TAGS, CAPTURE_TAGS);
    SameWithin(fs, gs, LENS_TAGS, CAPTURE_TAGS);
    SameWithin(fs, gs, SUBSEC_TAGS, CAPTURE_TAGS);
    ExposureCarried(fs, gs, e);
    DatesCarried(fs, gs, e);
    LensCarried(fs, gs, e);
    SubsecCarried(fs, gs, e);
  }

  lemma RestCarried(fs: seq<Field>, gs: seq<Field>, e: Attributes)
    requires RestTags(gs, e) && SameUnder(fs, gs, REST_TAGS)
    ensures RestTags(fs, e)
  {
    RestSets();
    hide Entry, SameUnder, NoteTags, PictureTags, SceneTags, NOTE_TAGS, PICTURE_TAGS, SCENE_TAGS, REST_TAGS;
    SameWithin(fs, gs, NOTE_TAGS, REST_TAGS);
    SameWithin(fs, gs, PICTURE_TAGS, REST_TAGS);
    SameWithin(fs, gs, SCENE_TAGS, REST_TAGS);
    NotesCarried(fs, gs, e);
    PictureCarried(fs, gs, e);
    SceneCarried(fs, gs, e);
  }

  const NOTE_TAGS: set<u16> := {0x927C, 0x9286}
  const SCENE_TAGS: set<u16> := {0xA406, 0xA420}
  const INTEROP_TAGS: set<u16> := {0xA005}

  lemma CaptureSets()
    ensures EXPOSURE_TAGS !! DATE_TAGS !! LENS_TAGS !! SUBSEC_TAGS
    ensures EXPOSURE_TAGS + DATE_TAGS + LENS_TAGS + SUBSEC_TAGS == CAPTURE_TAGS
  {
  }

  lemma RestSets()
    ensures NOTE_TAGS !! PICTURE_TAGS !! SCENE_TAGS && NOTE_TAGS + PICTURE_TAGS + SCENE_TAGS == REST_TAGS
  {
  }

  lemma ExifSets()
    ensures CAPTURE_TAGS !! REST_TAGS !! INTEROP_TAGS && CAPTURE_TAGS + REST_TAGS + INTEROP_TAGS == EXIF_TAGS
  {
  }

  lemma ZerothSets()
    ensures IMAGE_TAGS !! NAME_TAGS !! POINTER_TAGS && IMAGE_TAGS + NAME_TAGS + POINTER_TAGS == ZEROTH_TAGS
  {
  }

  lemma CaptureShown(e: Attributes)
    requires Exif.Valid(e)
    ensures Tagged(ExifCapture(e), CAPTURE_TAGS) && CaptureTags(ExifCapture(e), e)
  {
    var a, b, c, d := ExifExposure(e), ExifDates(e), ExifLens(e), ExifSubsec(e);
    var three, all := a + b + c, ExifCapture(e);
    ExposureShown(e);
    DatesShown(e);
    LensShown(e);
    SubsecShown(e);
    CaptureSets();
    hide Entry, Tagged, SameUnder, ExposureTags, DateTags, LensTags, SubsecTags, Exif.Valid;
    hide ExifExposure, ExifDates, ExifLens, ExifSubsec, EXPOSURE_TAGS, DATE_TAGS, LENS_TAGS, SUBSEC_TAGS, CAPTURE_TAGS;
    Joined3(a, EXPOSURE_TAGS, b, DATE_TAGS, c, LENS_TAGS);
    var front := EXPOSURE_TAGS + DATE_TAGS + LENS_TAGS;
    Joined2(three, front, d, SUBSEC_TAGS);
    SameTwice(all, three, a, EXPOSURE_TAGS, front);
    SameTwice(all, three, b, DATE_TAGS, front);
    SameTwice(all, three, c, LENS_TAGS, front);
    ExposureCarried(all, a, e);
    DatesCarried(all, b, e);
    LensCarried(all, c, e);
    SubsecCarried(all, d, e);
  }

  lemma Joined2(a: seq<Field>, s: set<u16>, b: seq<Field>, t: set<u16>)
    requires Tagged(a, s) && Tagged(b, t) && s !! t
    ensures Tagged(a + b, s + t) && SameUnder(a + b, a, s) && SameUnder(a + b, b, t)
  {
    hide Entry, Tagged;
    Joined(a, s, b, t);
  }

  lemma NotesShown(e: Attributes)
    requires Exif.Valid(e)
    ensures var fs := OptUndef(0x927C, e.makerNote) + OptUndef(0x9286, e.userComment);
      Tagged(fs, NOTE_TAGS) && NoteTags(fs, e)
  {
    BytesShown(0x927C, e.makerNote);
    BytesShown(0x9286, e.userComment);
    hide Entry, Tagged, IsOptionalBytes, OptUndef, Exif.Valid;
    Joined(OptUndef(0x927C, e.makerNote), {0x927C}, OptUndef(0x9286, e.userComment), {0x9286});
    assert {0x927C} + {0x9286} == NOTE_TAGS;
  }

  lemma SceneShown(e: Attributes)
    requires Exif.Valid(e)
    ensures var fs := [ShortField(0xA406, [e.sceneCaptureType])] + OptAscii(0xA420, e.uniqueId);
      Tagged(fs, SCENE_TAGS) && SceneTags(fs, e)
  {
    var scene := [ShortField(0xA406, [e.sceneCaptureType])];
    ShortShown(0xA406, e.sceneCaptureType);
    EntryFew(scene, 0xA406);
    assert Tagged(scene, {0xA406});
    TextShown(0xA420, e.uniqueId);
    hide Entry, Tagged, IsShort, IsOptionalText, OptAscii, ShortField, Exif.Valid;
    Joined(scene, {0xA406}, OptAscii(0xA420, e.uniqueId), {0xA420});
    assert {0xA406} + {0xA420} == SCENE_TAGS;
  }

  lemma NotesCarried(fs: seq<Field>, gs: seq<Field>, e: Attributes)
    requires NoteTags(gs, e) && SameUnder(fs, gs, NOTE_TAGS)
    ensures NoteTags(fs, e)
  {
    hide Entry, IsOptionalBytes;
  }

  lemma PictureCarried(fs: seq<Field>, gs: seq<Field>, e: Attributes)
    requires PictureTags(gs, e) && SameUnder(fs, gs, PICTURE_TAGS)
    ensures PictureTags(fs, e)
  {
    hide Entry, IsShort, IsLong;
  }

  lemma SceneCarried(fs: seq<Field>, gs: seq<Field>, e: Attributes)
    requires SceneTags(gs, e) && SameUnder(fs, gs, SCENE_TAGS)
    ensures SceneTags(fs, e)
  {
    hide Entry, IsShort, IsOptionalText;
  }

  lemma RestShown(e: Attributes)
    requires Exif.Valid(e)
    ensures Tagged(ExifRest(e), REST_TAGS) && RestTags(ExifRest(e), e)
  {
    var notes := OptUndef(0x927C, e.makerNote) + OptUndef(0x9286, e.userComment);
    var scene := [ShortField(0xA406, [e.sceneCaptureType])] + OptAscii(0xA420, e.uniqueId);
    NotesShown(e);
    PictureShown(e);
    SceneShown(e);
    RestSets();
    hide Entry, Tagged, SameUnder, NoteTags, PictureTags, SceneTags, OptUndef, OptAscii, ExifPicture, ShortField;
    hide NOTE_TAGS, PICTURE_TAGS, SCENE_TAGS, REST_TAGS, Exif.Valid;
    Joined3(notes, NOTE_TAGS, ExifPicture(e), PICTURE_TAGS, scene, SCENE_TAGS);
    assert ExifRest(e) == notes + ExifPicture(e) + scene;
    NotesCarried(ExifRest(e), notes, e);
    PictureCarried(ExifRest(e), ExifPicture(e), e);
    SceneCarried(ExifRest(e), scene, e);
  }

  lemma InteropEntry(e: Attributes)
    ensures var fs := [SubIfd(TAG_INTEROP_IFD, InteropFields(e))];
      Tagged(fs, INTEROP_TAGS) && Entry(fs, 0xA005) == Some(SubIfd(0xA005, InteropFields(e)))
  {
    hide InteropFields;
    EntryFew([SubIfd(TAG_INTEROP_IFD, InteropFields(e))], 0xA005);
  }

  lemma ExifShown(e: Attributes)
    requires Exif.Valid(e)
    ensures ExifShows(ExifFields(e), e)
  {
    var sub, all := [SubIfd(TAG_INTEROP_IFD, InteropFields(e))], ExifFields(e);
    CaptureShown(e);
    RestShown(e);
    InteropShown(e);
    InteropEntry(e);
    ExifSets();
    hide Entry, Tagged, InteropTags, ExifCapture, ExifRest, InteropFields, Exif.Valid, SameUnder, ExifShows;
    hide CaptureTags, RestTags, CAPTURE_TAGS, REST_TAGS, EXIF_TAGS, INTEROP_TAGS;
    Joined3(ExifCapture(e), CAPTURE_TAGS, ExifRest(e), REST_TAGS, sub, INTEROP_TAGS);
    CaptureCarried(all, ExifCapture(e), e);
    RestCarried(all, ExifRest(e), e);
    InteropCarried(all, sub);
    ExifGathered(all, e);
  }

  lemma InteropCarried(fs: seq<Field>, gs: seq<Field>)
    requires SameUnder(fs, gs, INTEROP_TAGS)
    ensures Entry(fs, 0xA005) == Entry(gs, 0xA005)
  {
    hide Entry;
  }

  lemma ExifGathered(fs: seq<Field>, e: Attributes)
    requires Tagged(fs, EXIF_TAGS) && CaptureTags(fs, e) && RestTags(fs, e) && IsDirectory(Entry(fs, 0xA005))
    requires InteropTags(Entry(fs, 0xA005).value.fields, e) && Tagged(Entry(fs, 0xA005).value.fields, {1, 2})
    ensures ExifShows(fs, e)
  {
    hide Entry, Tagged, InteropTags, ExposureTags, DateTags, LensTags, SubsecTags, NoteTags, PictureTags, SceneTags;
  }

  lemma GpsShown(e: Attributes)
    requires Exif.Valid(e)
    ensures GpsShows(GpsFields(e), e)
  {
    PositionShown(e);
    TimeShown(e);
    MethodShown(e);
    hide Entry, Tagged, IsRationals, IsBytes, IsPadded, GpsPosition, GpsTime, GpsMethod;
    Joined(GpsPosition(e), {0, 1, 2, 3, 4}, GpsTime(e), {5, 6, 7, 0x1D});
    Joined(GpsPosition(e) + GpsTime(e), {0, 1, 2, 3, 4} + {5, 6, 7, 0x1D}, GpsMethod(e), {0x1B});
    assert {0, 1, 2, 3, 4} + {5, 6, 7, 0x1D} + {0x1B} == GPS_TAGS;
  }

  lemma PointersShown(e: Attributes)
    requires Exif.Valid(e)
    ensures var fs := ZerothPointers(e);
      && Tagged(fs, POINTER_TAGS)
      && IsPadded(Entry(fs, 0x0132), e.dateTime, 20) && Entry(fs, 0x8769) == Some(SubIfd(0x8769, ExifFields(e)))
      && Entry(fs, 0x8825) == if e.enableGps then Some(SubIfd(0x8825, GpsFields(e))) else None
  {
    var fs := ZerothPointers(e);
    PaddedShown(0x0132, e.dateTime, 20);
    hide Entry, IsPadded, Text, Padded, ExifFields, GpsFields, Exif.Valid;
    EntryFew(fs, 0x0132);
    EntryFew(fs, 0x8769);
    EntryFew(fs, 0x8825);
  }

  const NAME_TAGS: set<u16> := {0x010F, 0x0110, 0x0131}
  const POINTER_TAGS: set<u16> := {0x0132, 0x8769, 0x8825}

  lemma ImageCarried(fs: seq<Field>, gs: seq<Field>, e: Attributes)
    requires ImageTags(gs, e) && SameUnder(fs, gs, IMAGE_TAGS)
    ensures ImageTags(fs, e)
  {
    hide Entry, IsShort, IsRationals;
  }

  lemma NamesCarried(fs: seq<Field>, gs: seq<Field>, e: Attributes)
    requires NameTags(gs, e) && SameUnder(fs, gs, NAME_TAGS)
    ensures NameTags(fs, e)
  {
    hide Entry, IsOptionalText;
  }

  lemma PointersCarried(fs: seq<Field>, gs: seq<Field>)
    requires SameUnder(fs, gs, POINTER_TAGS)
    ensures Entry(fs, 0x0132) == Entry(gs, 0x0132) && Entry(fs, 0x8769) == Entry(gs, 0x8769)
    ensures Entry(fs, 0x8825) == Entry(gs, 0x8825)
  {
    hide Entry;
  }

  lemma ZerothShown(e: Attributes)
    requires Exif.Valid(e)
    ensures ZerothShows(Zeroth(e), e)
  {
    ImageShown(e);
    NamesShown(e);
    PointersShown(e);
    ExifShown(e);
    GpsShown(e);
    ZerothSets();
    hide Entry, Tagged, SameUnder, ImageTags, NameTags, IsPadded, ExifShows, GpsShows;
    hide ZerothHead, ZerothStrings, ZerothPointers, ExifFields, GpsFields, IMAGE_TAGS, NAME_TAGS, POINTER_TAGS, ZEROTH_TAGS;
    Joined3(ZerothHead(e), IMAGE_TAGS, ZerothStrings(e), NAME_TAGS, ZerothPointers(e), POINTER_TAGS);
    ImageCarried(Zeroth(e), ZerothHead(e), e);
    NamesCarried(Zeroth(e), ZerothStrings(e), e);
    PointersCarried(Zeroth(e), ZerothPointers(e));
  }

  /**
    An Exif reader that follows a finished stream finds each attribute of the record under its tag, in its type and its
    bytes, and no other tags; and the thumbnail stream, where the 1st directory says it is.
    */
  lemma {:induction false} AttributesReadBack(mem: seq<byte>, e: Attributes, d: Option<Debug>, reserved: bool,
                                              thumb: seq<byte>, rest: nat, pad: nat, main: seq<byte>)
    requires Exif.Valid(e) && Assembled(mem, Some(e), d, reserved, thumb, rest, pad, main) && |mem| < 0x1_0000_0000
    requires App1Size(e) + |thumb| + rest <= JPEG_MAX_SEGMENT_SIZE
    ensures At(mem, 0, [0xFF, 0xD8, 0xFF, 0xE1]) && At(mem, 6, [0x45, 0x78, 0x69, 0x66, 0, 0])
    ensures ReadExif(mem, TIFF_BASE).Some?
    ensures var r := ReadExif(mem, TIFF_BASE).value;
      && ZerothShows(r.zeroth.fields, e) && (r.first.Some? <==> e.enableThumb)
      && (e.enableThumb ==>
            exists place: u32 ::
              && TIFF_BASE + place + |thumb| <= |mem| && mem[TIFF_BASE + place..TIFF_BASE + place + |thumb|] == thumb
              && ThumbTags(r.first.value.fields, e, place, |thumb|))
  {
    hide ReadExif, Assembled, Zeroth, ZerothShows, ThumbFields, ThumbTags, Tiles, App1Size, ThumbPlace;
    StreamReadBack(mem, e, d, reserved, thumb, rest, pad, main);
    StreamHead(mem, e, d, reserved, thumb, rest, pad, main);
    ZerothShown(e);
    if e.enableThumb {
      ThumbShown(e, ThumbPlace(Some(e)), |thumb|);
      ThumbWhere(mem, e, d, reserved, thumb, rest, pad, main);
    }
  }

  lemma StreamHead(mem: seq<byte>, e: Attributes, d: Option<Debug>, reserved: bool, thumb: seq<byte>, rest: nat, pad: nat,
                   main: seq<byte>)
    requires Exif.Valid(e) && Assembled(mem, Some(e), d, reserved, thumb, rest, pad, main)
    ensures At(mem, 0, [0xFF, 0xD8, 0xFF, 0xE1]) && At(mem, 6, [0x45, 0x78, 0x69, 0x66, 0, 0])
  {
    hide Exif.Valid, DebugAt, App11At, AppxBytes, Zeros, IfdSize, Zeroth, U16, App1Size, ThumbFields, LaidIfd, ThumbPlace;
    assert mem[..4] == mem[0..2] + mem[2..4];
  }

  lemma ThumbWhere(mem: seq<byte>, e: Attributes, d: Option<Debug>, reserved: bool, thumb: seq<byte>, rest: nat, pad: nat,
                   main: seq<byte>)
    requires Exif.Valid(e) && Assembled(mem, Some(e), d, reserved, thumb, rest, pad, main) && e.enableThumb
    requires App1Size(e) + |thumb| + rest <= JPEG_MAX_SEGMENT_SIZE
    ensures var place := ThumbPlace(Some(e));
      TIFF_BASE + place + |thumb| <= |mem| && mem[TIFF_BASE + place..TIFF_BASE + place + |thumb|] == thumb
  {
    hide Exif.Valid, App1At, DebugAt, App11At, AppxBytes, Zeros, IfdSize, Zeroth, U16;
    ThumbReadBack(mem, TIFF_BASE, 4 + App1Size(e), thumb);
  }

  /** After an update in place with a record that fits: the new record's attributes, and in the 1st directory the old one's. */
  lemma {:induction false} UpdatedAttributes(mem: seq<byte>, was: Attributes, e: Attributes, d: Option<Debug>,
                                             reserved: bool, thumb: seq<byte>, rest: nat, pad: nat, main: seq<byte>)
    requires ExifUpdate.FitsOver(was, e) && Assembled(mem, Some(was), d, reserved, thumb, rest, pad, main)
    requires |mem| < 0x1_0000_0000
    ensures var r := ReadExif(App1Updated(mem, 2, e), TIFF_BASE);
      && r.Some? && ZerothShows(r.value.zeroth.fields, e) && r.value.thumb == thumb
      && (r.value.first.Some? <==> was.enableThumb)
      && (was.enableThumb ==>
            exists place: u32 :: ThumbTags(r.value.first.value.fields, was, place, |thumb|))
  {
    assert |thumb| < 0x1_0000_0000;
    hide ReadExif, Assembled, Zeroth, ZerothShows, ThumbFields, ThumbTags, App1Size, ThumbPlace, App1Updated;
    ExifUpdate.PatchedReadBack(mem, was, e, d, reserved, thumb, rest, pad, main);
    ZerothShown(e);
    if was.enableThumb {
      ThumbShown(was, ThumbPlace(Some(was)), |thumb|);
    }
  }

  // ----- The order of entries ------------------------------------------------------------------------------

  /** Entries in ascending order of their tags, as TIFF 6.0 section 2 asks for. */
  ghost predicate Sorted(fs: seq<Field>) {
    forall j, k | 0 <= j < k < |fs| :: fs[j].tag < fs[k].tag
  }

  lemma ZerothUnsorted(e: Attributes)
    requires Exif.Valid(e)
    ensures !Sorted(Zeroth(e))
  {
    assert Zeroth(e)[1].tag == 0x0213 && Zeroth(e)[2].tag == 0x011A;
  }

  lemma ExifUnsorted(e: Attributes)
    requires Exif.Valid(e)
    ensures !Sorted(ExifFields(e))
  {
    var notes := OptUndef(0x927C, e.makerNote) + OptUndef(0x9286, e.userComment);
    var fs, k := ExifFields(e), |ExifCapture(e)| + |notes| + 6;
    hide ExifCapture, OptUndef, OptAscii, InteropFields, Exif.Valid;
    assert fs[k].tag == 0xA406 && fs[|fs| - 1].tag == 0xA005;
  }

  lemma GpsUnsorted(e: Attributes)
    requires Exif.Valid(e)
    ensures !Sorted(GpsFields(e))
  {
    hide GpsMethod;
    assert GpsFields(e)[7].tag == 0x1D && GpsFields(e)[8].tag == 7;
  }

  /** Of no record are the directories in order, but for the interoperability directory and the 1st one. */
  lemma {:induction false} NeverSorted(mem: seq<byte>, e: Attributes, d: Option<Debug>, reserved: bool,
                                       thumb: seq<byte>, rest: nat, pad: nat, main: seq<byte>)
    requires Exif.Valid(e) && Assembled(mem, Some(e), d, reserved, thumb, rest, pad, main) && |mem| < 0x1_0000_0000
    requires App1Size(e) + |thumb| + rest <= JPEG_MAX_SEGMENT_SIZE
    ensures ReadExif(mem, TIFF_BASE).Some?
    ensures var r := ReadExif(mem, TIFF_BASE).value;
      var exif, gps := Entry(r.zeroth.fields, 0x8769), Entry(r.zeroth.fields, 0x8825);
      && IsDirectory(exif) && !Sorted(r.zeroth.fields) && !Sorted(exif.value.fields)
      && (gps.Some? ==> IsDirectory(gps) && !Sorted(gps.value.fields))
      && (r.first.Some? ==> Sorted(r.first.value.fields))
  {
    StreamReadBack(mem, e, d, reserved, thumb, rest, pad, main);
    SubdirectoriesAt(e);
    ZerothUnsorted(e);
    ExifUnsorted(e);
    GpsUnsorted(e);
    FirstSorted(e, ThumbPlace(Some(e)), if e.enableThumb then |thumb| else 0);
    hide ReadExif, Assembled, Zeroth, ThumbFields, Tiles, App1Size, ThumbPlace, Sorted, Entry, ExifFields, GpsFields;
  }

  lemma FirstSorted(e: Attributes, place: u32, length: u32)
    ensures Sorted(ThumbFields(e, place, length))
  {
    hide ShortBytes, LE32;
  }

  lemma SubdirectoriesAt(e: Attributes)
    requires Exif.Valid(e)
    ensures Entry(Zeroth(e), 0x8769) == Some(SubIfd(0x8769, ExifFields(e)))
    ensures Entry(Zeroth(e), 0x8825) == if e.enableGps then Some(SubIfd(0x8825, GpsFields(e))) else None
  {
    ImageShown(e);
    NamesShown(e);
    PointersShown(e);
    ZerothSets();
    hide Entry, Tagged, SameUnder, ImageTags, NameTags, IsPadded;
    hide ZerothHead, ZerothStrings, ZerothPointers, ExifFields, GpsFields, IMAGE_TAGS, NAME_TAGS, POINTER_TAGS, ZEROTH_TAGS;
    Joined3(ZerothHead(e), IMAGE_TAGS, ZerothStrings(e), NAME_TAGS, ZerothPointers(e), POINTER_TAGS);
    PointersCarried(Zeroth(e), ZerothPointers(e));
  }
}
