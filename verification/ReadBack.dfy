/** A finished stream read back with the directory reader. */
module ReadBack {
  import opened AppMarker
  import opened Bytes
  import opened Exif
  import opened JpegStream
  import opened Tiff
  import opened TiffReader
  import opened Wrappers

  /** Where the TIFF header of the stream's APP1 is. */
  const TIFF_BASE := 12

  /** What an Exif reader finds in a stream: the 0th directory, and the 1st with the thumbnail stream. */
  datatype Found = Found(zeroth: Ifd, first: Option<Ifd>, thumb: seq<byte>)

  /** The last value of the field with this tag, as a number. */
  function LongOf(fs: seq<Field>, tag: u16): Option<u32> {
    if fs == [] then None
    else
      var f := fs[|fs| - 1];
      if f.Plain? && f.tag == tag && |f.data| == 4 then Some(FromLE32(f.data)) else LongOf(fs[..|fs| - 1], tag)
  }

  /** Follows all pointers from the TIFF header on, and the interchange format's offset and length. */
  function ReadExif(mem: seq<byte>, base: nat): Option<Found> {
    if base + 8 > |mem| || mem[base..base + 4] != [0x49, 0x49, 0x2A, 0] then None else
    var zeroth :- ReadIfd(mem, base, base + FromLE32(mem[base + 4..base + 8]), 2);
    if zeroth.next == 0 then Some(Found(zeroth, None, [])) else
    var first :- ReadIfd(mem, base, base + zeroth.next, 0);
    var offset :- LongOf(first.fields, 0x0201);
    var length :- LongOf(first.fields, 0x0202);
    if base + offset + length > |mem| then None else
    Some(Found(zeroth, Some(first), mem[base + offset..base + offset + length]))
  }

  lemma ThumbLongs(e: Attributes, offset: u32, length: u32)
    ensures LongOf(ThumbFields(e, offset, length), 0x0201) == Some(offset)
    ensures LongOf(ThumbFields(e, offset, length), 0x0202) == Some(length)
  {
    LE32RoundTrip(offset);
    LE32RoundTrip(length);
    var fs := ThumbFields(e, offset, length);
    assert fs[..5][..4] == fs[..4] && fs[..5][4] == fs[4];
  }

  lemma HeaderAt(mem: seq<byte>, base: nat)
    requires At(mem, base, TIFF_HEADER)
    ensures base + 8 <= |mem| && mem[base..base + 4] == [0x49, 0x49, 0x2A, 0] && FromLE32(mem[base + 4..base + 8]) == 8
  {
    var header := mem[base..base + 8];
    assert mem[base..base + 4] == header[..4];
    assert mem[base + 4..base + 8] == header[4..];
  }

  /** APP1's directories: what is read is what was to be written, from disjoint stretches that fill APP1. */
  lemma {:induction false} DirectoriesReadBack(mem: seq<byte>, at: nat, e: Attributes, len: u16, offset: u32, thumbLen: u32)
    requires Exif.Valid(e) && App1At(mem, at, e, len, offset, thumbLen) && |mem| < 0x1_0000_0000
    ensures var r := ReadIfd(mem, at + 10, at + 18, 2);
      && r.Some? && r.value.fields == Zeroth(e)
      && r.value.next == (if e.enableThumb then U32(8 + IfdSize(Zeroth(e))) else 0)
      && Tiles(r.value.spans, at + 18, at + 18 + IfdSize(Zeroth(e)))
    ensures e.enableThumb ==>
      var first := at + 18 + IfdSize(Zeroth(e));
      var r := ReadIfd(mem, at + 10, first, 0);
      && r.Some? && r.value.fields == ThumbFields(e, offset, thumbLen) && r.value.next == 0
      && Tiles(r.value.spans, first, first + 78) && first + 78 <= |mem|
  {
    hide LaidIfd, ReadIfd, Zeroth, ThumbFields, IfdSize, Readable, Tiles, At, Exif.Valid, BE16, U32;
    ZerothReadable(e);
    ReadIfdLaid(mem, at + 10, at + 18, Zeroth(e), if e.enableThumb then U32(8 + IfdSize(Zeroth(e))) else 0, 2);
    if e.enableThumb {
      var first := at + 18 + IfdSize(Zeroth(e));
      ThumbReadable(e, offset, thumbLen);
      ThumbSize(e, offset, thumbLen);
      ReadIfdLaid(mem, at + 10, first, ThumbFields(e, offset, thumbLen), 0, 0);
      LaidInside(mem, at + 10, first, ThumbFields(e, offset, thumbLen), 0);
    }
  }

  lemma ThumbReadBack(mem: seq<byte>, base: nat, at: nat, thumb: seq<byte>)
    requires base <= at && at - base < 0x1_0000_0000 && At(mem, at, thumb) && |thumb| < 0x1_0000_0000
    ensures base + U32(at - base) + |thumb| <= |mem|
    ensures mem[base + U32(at - base)..base + U32(at - base) + |thumb|] == thumb
  {
  }

  /**
    Reading a finished stream from its TIFF header on gives the fields of the
    record's directories, with the interchange format's offset at the thumbnail
    stream; and APP1's length leads from its marker to the next segment.
    */
  lemma {:induction false} StreamReadBack(mem: seq<byte>, e: Attributes, d: Option<Debug>, reserved: bool,
                                          thumb: seq<byte>, rest: nat, pad: nat, main: seq<byte>)
    requires Exif.Valid(e) && Assembled(mem, Some(e), d, reserved, thumb, rest, pad, main) && |mem| < 0x1_0000_0000
    requires App1Size(e) + |thumb| + rest <= JPEG_MAX_SEGMENT_SIZE
    ensures ReadExif(mem, TIFF_BASE).Some?
    ensures var r := ReadExif(mem, TIFF_BASE).value;
      && r.zeroth.fields == Zeroth(e) && r.thumb == thumb && (r.first.Some? <==> e.enableThumb)
      && (e.enableThumb ==> r.first.value.fields == ThumbFields(e, ThumbPlace(Some(e)), |thumb|))
      && Tiles(r.zeroth.spans + (if e.enableThumb then r.first.value.spans else []), 20, 4 + App1Size(e))
    ensures 6 <= |mem| && 4 + FromBE16(mem[4..6]) == AppxBase(2, Some(e), |thumb| + rest)
  {
    hide ReadIfd, Zeroth, ThumbFields, IfdSize, Readable, Tiles, At, Exif.Valid, BE16, LaidIfd, LongOf;
    hide FromLE32, FromBE16, DebugAt, App11At, AppxBytes, Zeros;
    var len, place := U16(App1Size(e) + (|thumb| + rest)), ThumbPlace(Some(e));
    var first := 20 + IfdSize(Zeroth(e));
    HeaderAt(mem, TIFF_BASE);
    LengthAt(mem, 4, len);
    DirectoriesReadBack(mem, 2, e, len, place, |thumb|);
    var zeroth := ReadIfd(mem, TIFF_BASE, 20, 2).value;
    if e.enableThumb {
      ThumbLongs(e, place, |thumb|);
      ThumbReadBack(mem, TIFF_BASE, 4 + App1Size(e), thumb);
      TilesConcat(zeroth.spans, ReadIfd(mem, TIFF_BASE, first, 0).value.spans, 20, first, first + 78);
    } else {
      assert zeroth.spans + [] == zeroth.spans;
    }
  }

  lemma LengthAt(mem: seq<byte>, at: nat, len: u16)
    requires At(mem, at, BE16(len))
    ensures at + 2 <= |mem| && FromBE16(mem[at..at + 2]) == len
  {
    BE16RoundTrip(len);
  }
}
