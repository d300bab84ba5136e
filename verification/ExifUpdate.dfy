/** UpdateExif: APP1's 0th directory overwritten in a finished stream. */
module ExifUpdate {
  import opened AppMarker
  import opened Bytes
  import opened Exif
  import IfdWriter
  import opened JpegStream
  import opened ReadBack
  import opened Tiff
  import opened TiffReader
  import opened Wrappers

  /** The checks made before anything is written. */
  predicate Patchable(s: seq<byte>) {
    && |s| >= 2 * JPEG_MARKER_SIZE + JPEG_SEGMENT_LENFIELD_SIZE
    && s[0] == 0xFF && s[1] == 0xD8 && s[2] == 0xFF && s[3] == 0xE1
    && FromBE16(s[4..6]) <= |s|
  }

  /** How an update ends. The room for the new directory is never checked: without it, bytes behind the
      stream are overwritten. */
  datatype Outcome = Updated | Refused | OutOfBounds

  method UpdateExif(jpeg: array<byte>, exif: Option<Attributes>) returns (r: Outcome)
    requires exif.Some? ==> Exif.Valid(exif.value)
    modifies jpeg
    ensures r == Refused <==> exif.Some? && !Patchable(old(jpeg[..]))
    ensures r == OutOfBounds <==>
      exif.Some? && Patchable(old(jpeg[..])) && jpeg.Length < 20 + IfdSize(Zeroth(exif.value))
    ensures r == Updated ==> jpeg[..] == if exif.None? then old(jpeg[..]) else App1Updated(old(jpeg[..]), 2, exif.value)
    ensures r == Refused ==> jpeg[..] == old(jpeg[..])
  {
    hide Exif.Valid, Zeroth, IfdSize, Counted, App1Updated, App1Size;
    if exif.None? {
      return Updated;
    }
    if jpeg.Length < 2 * JPEG_MARKER_SIZE + JPEG_SEGMENT_LENFIELD_SIZE {
      return Refused;
    }
    if jpeg[0] != 0xFF || jpeg[1] != 0xD8 || jpeg[2] != 0xFF || jpeg[3] != 0xE1 {
      return Refused;
    }
    assert jpeg[..][4..6] == [jpeg[4], jpeg[5]];
    if jpeg.Length < jpeg[4] as int * 0x100 + jpeg[5] as int {
      return Refused;
    }
    var writer := new CAppMarkerWriter();
    writer.PrepareAppWriter(jpeg, 2, exif, None);
    if jpeg.Length < 20 + IfdSize(Zeroth(exif.value)) {
      return OutOfBounds;
    }
    writer.UpdateAPP1(2);
    return Updated;
  }

  // ----- What is left alone ----------------------------------------------------------------

  lemma UpdatedHead(mem: seq<byte>, at: nat)
    requires at + 18 <= |mem|
    ensures var r := App1Head(mem, at, None);
      && |r| == |mem| && Agree(mem, r, 0, at) && Agree(mem, r, at + 2, at + 4) && Agree(mem, r, at + 18, |mem|)
      && At(r, at, [0xFF, 0xE1]) && At(r, at + 4, EXIF_IDENTIFIER) && At(r, at + 10, TIFF_HEADER)
  {
    var m1 := Splice(mem, at, [0xFF, 0xE1]);
    var m2 := Splice(m1, at + 4, EXIF_IDENTIFIER);
    var m3 := Splice(m2, at + 10, TIFF_HEADER);
    SpliceAt(mem, at, [0xFF, 0xE1]);
    SpliceAt(m1, at + 4, EXIF_IDENTIFIER);
    SpliceAt(m2, at + 10, TIFF_HEADER);
    AtStable(m1, m3, at, [0xFF, 0xE1]);
    AtStable(m2, m3, at + 4, EXIF_IDENTIFIER);
  }

  /** The bytes the update touches: header, count, entries and values, but not APP1's length
      and not the 0th directory's pointer to the next one. */
  ghost predicate Touched(at: nat, e: Attributes, i: int)
    requires Exif.Valid(e)
  {
    var next := at + 20 + 12 * |Zeroth(e)|;
    && at <= i < at + 18 + IfdSize(Zeroth(e))
    && !(at + 2 <= i < at + 4) && !(next <= i < next + 4)
  }

  lemma {:induction false} UpdatedElsewhere(mem: seq<byte>, at: nat, e: Attributes)
    requires Exif.Valid(e) && at + 18 + IfdSize(Zeroth(e)) <= |mem|
    ensures var r := App1Updated(mem, at, e);
      && |r| == |mem| && Agree(mem, r, 0, at) && Agree(mem, r, at + 2, at + 4)
      && Agree(mem, r, at + 20 + 12 * |Zeroth(e)|, at + 24 + 12 * |Zeroth(e)|)
      && Agree(mem, r, at + 18 + IfdSize(Zeroth(e)), |mem|)
    ensures var r := App1Updated(mem, at, e);
      && At(r, at, [0xFF, 0xE1]) && At(r, at + 4, EXIF_IDENTIFIER) && At(r, at + 10, TIFF_HEADER)
      && At(r, at + 18, LE16(U16(|Zeroth(e)|))) && Laid(r, at + 10, at + 20, at + 24 + 12 * |Zeroth(e)|, Zeroth(e))
  {
    hide Exif.Valid, Zeroth, ValSize, PutFields, Laid, Encodable, App1Head, LE16, U16;
    var fs := Zeroth(e);
    var h := App1Head(mem, at, None);
    var c := OpenIfd(h, at + 18, |fs|);
    var r := PutFields(c, at + 10, fs).mem;
    DirectoriesEncodable(e, 0, 0);
    UpdatedHead(mem, at);
    PutFieldsLaid(c, at + 10, fs);
    SpliceAt(h, at + 18, LE16(U16(|fs|)));
    AtStable(c.mem, r, at + 18, LE16(U16(|fs|)));
    AtStable(h, r, at, [0xFF, 0xE1]);
    AtStable(h, r, at + 4, EXIF_IDENTIFIER);
    AtStable(h, r, at + 10, TIFF_HEADER);
  }

  // ----- What is written is what a fresh write gives --------------------------------------------

  /** Two cursors at the same places, in memories that agree at `i`. */
  ghost predicate SameAt(c: Cursor, d: Cursor, i: nat) {
    && i < |c.mem| == |d.mem| && c.mem[i] == d.mem[i] && c.ifd == d.ifd && c.val == d.val && c.tags == d.tags
  }

  lemma SpliceSame(s: seq<byte>, t: seq<byte>, at: nat, d: seq<byte>, i: nat)
    requires i < |s| == |t| && s[i] == t[i]
    ensures i < |Splice(s, at, d)| == |Splice(t, at, d)| && Splice(s, at, d)[i] == Splice(t, at, d)[i]
  {
  }

  lemma PutPointerSame(c: Cursor, d: Cursor, base: nat, tag: u16, typ: u16, count: u32, i: nat)
    requires SameAt(c, d, i)
    ensures SameAt(PutPointer(c, base, tag, typ, count), PutPointer(d, base, tag, typ, count), i)
  {
    hide Splice, EntryHead, LE32;
    SpliceSame(c.mem, d.mem, c.ifd, EntryHead(tag, typ, count), i);
    SpliceSame(Splice(c.mem, c.ifd, EntryHead(tag, typ, count)), Splice(d.mem, c.ifd, EntryHead(tag, typ, count)),
               c.ifd + 8, LE32(U32(c.val - base)), i);
  }

  lemma {:induction false} PutFieldSame(c: Cursor, d: Cursor, base: nat, f: Field, i: nat)
    requires SameAt(c, d, i)
    ensures SameAt(PutField(c, base, f), PutField(d, base, f), i)
    decreases f, 3
  {
    hide Splice, EntryHead, PutPointer, PutIfd;
    match f
    case Plain(tag, typ, count, data) =>
      if |data| > 4 {
        PutPointerSame(c, d, base, tag, typ, count, i);
        var p, q := PutPointer(c, base, tag, typ, count), PutPointer(d, base, tag, typ, count);
        SpliceSame(p.mem, q.mem, p.val, data, i);
      } else {
        var head := EntryHead(tag, typ, count);
        SpliceSame(c.mem, d.mem, c.ifd, head, i);
        SpliceSame(Splice(c.mem, c.ifd, head), Splice(d.mem, c.ifd, head), c.ifd + 8, data, i);
      }
    case SubIfd(tag, fields) =>
      PutPointerSame(c, d, base, tag, TYPE_LONG, 1, i);
      var p, q := PutPointer(c, base, tag, TYPE_LONG, 1), PutPointer(d, base, tag, TYPE_LONG, 1);
      PutIfdSame(p.mem, q.mem, base, p.val, fields, false, i);
  }

  lemma {:induction false} PutFieldsSame(c: Cursor, d: Cursor, base: nat, fs: seq<Field>, i: nat)
    requires SameAt(c, d, i)
    ensures SameAt(PutFields(c, base, fs), PutFields(d, base, fs), i)
    decreases fs, 0
  {
    hide PutField;
    if fs != [] {
      var n := |fs| - 1;
      PutFieldsSame(c, d, base, fs[..n], i);
      PutFieldSame(PutFields(c, base, fs[..n]), PutFields(d, base, fs[..n]), base, fs[n], i);
    }
  }

  lemma {:induction false} PutIfdSame(s: seq<byte>, t: seq<byte>, base: nat, at: nat, fs: seq<Field>, chained: bool, i: nat)
    requires i < |s| == |t| && s[i] == t[i]
    ensures SameAt(PutIfd(s, base, at, fs, chained), PutIfd(t, base, at, fs, chained), i)
    decreases fs, 1
  {
    hide Splice, PutFields, LE16, LE32;
    SpliceSame(s, t, at, LE16(U16(|fs|)), i);
    var c, d := OpenIfd(s, at, |fs|), OpenIfd(t, at, |fs|);
    PutFieldsSame(c, d, base, fs, i);
    var p, q := PutFields(c, base, fs), PutFields(d, base, fs);
    SpliceSame(p.mem, q.mem, p.ifd, LE32(if chained then U32(p.val - base) else 0), i);
  }

  lemma HeadSame(mem: seq<byte>, other: seq<byte>, at: nat, len: u16, i: nat)
    requires i < |mem| == |other| && mem[i] == other[i] && !(at + 2 <= i < at + 4)
    ensures i < |App1Head(mem, at, None)| == |App1Head(other, at, Some(len))| == |mem|
    ensures App1Head(mem, at, None)[i] == App1Head(other, at, Some(len))[i]
  {
  }

  // ----- What is stored does not depend on what was there ------------------------------------------

  /** Index `i` is one of the bytes an entry has left over when it holds a short value itself. */
  ghost predicate PadOfField(ifd: nat, val: nat, f: Field, i: int)
    decreases f, 3
  {
    match f
    case Plain(_, _, _, data) => |data| <= 4 && ifd + 8 + |data| <= i < ifd + 12
    case SubIfd(_, fields) => PadOfIfd(val, fields, i)
  }

  ghost predicate PadOfFields(ifd: nat, val: nat, fs: seq<Field>, i: int)
    decreases fs, 0
  {
    fs != []
    && var n := |fs| - 1;
       PadOfFields(ifd, val, fs[..n], i) || PadOfField(ifd + 12 * n, val + ValSize(fs[..n]), fs[n], i)
  }

  ghost predicate PadOfIfd(at: nat, fs: seq<Field>, i: int)
    decreases fs, 1
  {
    PadOfFields(at + 2, at + 6 + FIELD_SIZE * |fs|, fs, i)
  }

  /** Two cursors at the same places, in memories of one size. */
  ghost predicate SamePlace(c: Cursor, d: Cursor) {
    |c.mem| == |d.mem| && c.ifd == d.ifd && c.val == d.val && c.tags == d.tags
  }

  lemma SpliceStores(s: seq<byte>, t: seq<byte>, at: nat, d: seq<byte>, i: nat)
    requires |s| == |t| && at <= i < at + |d| && i < |s|
    ensures i < |Splice(s, at, d)| == |Splice(t, at, d)| && Splice(s, at, d)[i] == Splice(t, at, d)[i]
  {
  }

  lemma PutPointerStores(c: Cursor, d: Cursor, base: nat, tag: u16, typ: u16, count: u32, i: nat)
    requires SamePlace(c, d) && c.ifd <= i < c.ifd + 12 && i < |c.mem|
    ensures SameAt(PutPointer(c, base, tag, typ, count), PutPointer(d, base, tag, typ, count), i)
  {
    hide Splice, EntryHead, LE32;
    var head := EntryHead(tag, typ, count);
    var s, t := Splice(c.mem, c.ifd, head), Splice(d.mem, c.ifd, head);
    if i < c.ifd + 8 {
      SpliceStores(c.mem, d.mem, c.ifd, head, i);
      SpliceSame(s, t, c.ifd + 8, LE32(U32(c.val - base)), i);
    } else {
      SpliceStores(s, t, c.ifd + 8, LE32(U32(c.val - base)), i);
    }
  }

  lemma PlainStores(c: Cursor, d: Cursor, base: nat, f: Field, i: nat)
    requires f.Plain? && SamePlace(c, d) && i < |c.mem|
    requires c.ifd <= i < c.ifd + 12 || c.val <= i < c.val + OutSize(f)
    requires !PadOfField(c.ifd, c.val, f, i)
    ensures SameAt(PutField(c, base, f), PutField(d, base, f), i)
  {
    hide Splice, EntryHead, PutPointer;
    if |f.data| > 4 {
      var p, q := PutPointer(c, base, f.tag, f.typ, f.count), PutPointer(d, base, f.tag, f.typ, f.count);
      PointerPlaces(c, d, base, f.tag, f.typ, f.count);
      if c.ifd <= i < c.ifd + 12 {
        PutPointerStores(c, d, base, f.tag, f.typ, f.count, i);
        SpliceSame(p.mem, q.mem, p.val, f.data, i);
      } else {
        SpliceStores(p.mem, q.mem, p.val, f.data, i);
      }
    } else {
      var head := EntryHead(f.tag, f.typ, f.count);
      var s, t := Splice(c.mem, c.ifd, head), Splice(d.mem, c.ifd, head);
      if i < c.ifd + 8 {
        SpliceStores(c.mem, d.mem, c.ifd, head, i);
        SpliceSame(s, t, c.ifd + 8, f.data, i);
      } else {
        SpliceStores(s, t, c.ifd + 8, f.data, i);
      }
    }
  }

  lemma PointerPlaces(c: Cursor, d: Cursor, base: nat, tag: u16, typ: u16, count: u32)
    requires SamePlace(c, d)
    ensures var p := PutPointer(c, base, tag, typ, count);
      SamePlace(p, PutPointer(d, base, tag, typ, count)) && |p.mem| == |c.mem| && p.ifd == c.ifd + 12 && p.val == c.val
  {
  }

  lemma {:induction false} PutFieldStores(c: Cursor, d: Cursor, base: nat, f: Field, i: nat)
    requires SamePlace(c, d) && i < |c.mem|
    requires c.ifd <= i < c.ifd + 12 || c.val <= i < c.val + OutSize(f)
    requires !PadOfField(c.ifd, c.val, f, i)
    ensures SameAt(PutField(c, base, f), PutField(d, base, f), i)
    decreases f, 3
  {
    hide Splice, EntryHead, PutPointer, PutIfd;
    match f {
      case Plain(_, _, _, _) =>
        PlainStores(c, d, base, f, i);
      case SubIfd(tag, fields) =>
        var p, q := PutPointer(c, base, tag, TYPE_LONG, 1), PutPointer(d, base, tag, TYPE_LONG, 1);
        PointerPlaces(c, d, base, tag, TYPE_LONG, 1);
        if c.ifd <= i < c.ifd + 12 {
          PutPointerStores(c, d, base, tag, TYPE_LONG, 1, i);
          PutIfdSame(p.mem, q.mem, base, p.val, fields, false, i);
        } else {
          PutIfdStores(p.mem, q.mem, base, p.val, fields, false, i);
        }
    }
  }

  lemma {:induction false} PutFieldsStores(c: Cursor, d: Cursor, base: nat, fs: seq<Field>, i: nat)
    requires SamePlace(c, d) && i < |c.mem|
    requires c.ifd <= i < c.ifd + 12 * |fs| || c.val <= i < c.val + ValSize(fs)
    requires !PadOfFields(c.ifd, c.val, fs, i)
    ensures SameAt(PutFields(c, base, fs), PutFields(d, base, fs), i)
    decreases fs, 0
  {
    hide PutField, PadOfField;
    var n := |fs| - 1;
    var front, p, q := fs[..n], PutFields(c, base, fs[..n]), PutFields(d, base, fs[..n]);
    if c.ifd <= i < c.ifd + 12 * n || c.val <= i < c.val + ValSize(front) {
      PutFieldsStores(c, d, base, front, i);
      PutFieldSame(p, q, base, fs[n], i);
    } else {
      PlacesAfter(c, d, base, front);
      PutFieldStores(p, q, base, fs[n], i);
    }
  }

  lemma {:induction false} PlacesAfter(c: Cursor, d: Cursor, base: nat, fs: seq<Field>)
    requires SamePlace(c, d)
    ensures SamePlace(PutFields(c, base, fs), PutFields(d, base, fs))
    decreases fs, 0
  {
    hide PutPointer, PutIfd, Splice;
    if fs != [] {
      var n := |fs| - 1;
      PlacesAfter(c, d, base, fs[..n]);
      FieldPlaces(PutFields(c, base, fs[..n]), PutFields(d, base, fs[..n]), base, fs[n]);
    }
  }

  lemma FieldPlaces(c: Cursor, d: Cursor, base: nat, f: Field)
    requires SamePlace(c, d)
    ensures SamePlace(PutField(c, base, f), PutField(d, base, f))
  {
    hide PutIfd, Splice;
  }

  lemma {:induction false} PutIfdStores(s: seq<byte>, t: seq<byte>, base: nat, at: nat, fs: seq<Field>, chained: bool, i: nat)
    requires |s| == |t| && i < |s| && at <= i < at + IfdSize(fs) && !PadOfIfd(at, fs, i)
    ensures SameAt(PutIfd(s, base, at, fs, chained), PutIfd(t, base, at, fs, chained), i)
    decreases fs, 1
  {
    hide Splice, PutFields, LE16, LE32, PadOfFields;
    var c, d := OpenIfd(s, at, |fs|), OpenIfd(t, at, |fs|);
    var p, q := PutFields(c, base, fs), PutFields(d, base, fs);
    var next := LE32(if chained then U32(p.val - base) else 0);
    PlacesAfter(c, d, base, fs);
    if p.ifd <= i < p.ifd + 4 {
      SpliceStores(p.mem, q.mem, p.ifd, next, i);
    } else {
      if i < at + 2 {
        SpliceStores(s, t, at, LE16(U16(|fs|)), i);
        PutFieldsSame(c, d, base, fs, i);
      } else {
        PutFieldsStores(c, d, base, fs, i);
      }
      SpliceSame(p.mem, q.mem, p.ifd, next, i);
    }
  }

  /** The header's bytes do not depend on what was there either. */
  lemma HeadStores(mem: seq<byte>, other: seq<byte>, at: nat, len: u16, i: nat)
    requires i < |mem| == |other| && at <= i < at + 18 && !(at + 2 <= i < at + 4)
    ensures i < |App1Head(mem, at, None)| == |App1Head(other, at, Some(len))| == |mem|
    ensures App1Head(mem, at, None)[i] == App1Head(other, at, Some(len))[i]
  {
    hide BE16;
  }

  /**
    Every byte the update touches is the one a fresh write of the record gives, over whatever
    memory: but for the bytes entries leave over, which no write stores.
    */
  lemma {:induction false} UpdatedAsFresh(mem: seq<byte>, other: seq<byte>, at: nat, e: Attributes, len: u16, offset: u32, i: nat)
    requires Exif.Valid(e) && at + 2 + App1Size(e) <= |mem| == |other|
    requires i < |mem| && Touched(at, e, i) && (PadOfIfd(at + 18, Zeroth(e), i) ==> mem[i] == other[i])
    ensures i < |App1Updated(mem, at, e)| && i < |App1Written(other, at, e, len, offset)|
    ensures App1Updated(mem, at, e)[i] == App1Written(other, at, e, len, offset)[i]
  {
    hide Exif.Valid, Zeroth, IfdSize, ValSize, PutFields, IfdWritten, App1Head, LE16, LE32, ThumbFields, Encodable, PadOfIfd, Splice;
    var fs := Zeroth(e);
    var h, k := App1Head(mem, at, None), App1Head(other, at, Some(len));
    HeadLength(other, at, Some(len));
    IfdSizeOf(fs);
    EntriesAsFresh(mem, other, at, fs, len, i, at + 20 + 12 * |fs|, ValSize(fs));
    IfdWrittenSteps(k, at + 10, at + 18, fs, e.enableThumb);
    var p := PutFields(OpenIfd(k, at + 18, |fs|), at + 10, fs);
    SpliceElsewhere(p.mem, p.ifd, LE32(if e.enableThumb then U32(p.val - (at + 10)) else 0), i);
    if e.enableThumb {
      DirectoriesEncodable(e, offset, 0);
      IfdWrittenLaid(IfdWritten(k, at + 10, at + 18, fs, true), at + 10, at + 18 + IfdSize(fs), ThumbFields(e, offset, 0), false);
    }
  }

  lemma SpliceElsewhere(s: seq<byte>, at: nat, d: seq<byte>, i: nat)
    requires i < |s| && !(at <= i < at + |d|)
    ensures Splice(s, at, d)[i] == s[i]
  {
  }

  lemma IfdSizeOf(fs: seq<Field>)
    ensures IfdSize(fs) == 6 + 12 * |fs| + ValSize(fs)
  {
  }

  /** Header, count, entries and values. */
  lemma EntriesAsFresh(mem: seq<byte>, other: seq<byte>, at: nat, fs: seq<Field>, len: u16, i: nat, next: nat, vals: nat)
    requires |mem| == |other| && i < |mem| && next == at + 20 + 12 * |fs| && vals == ValSize(fs)
    requires at <= i < next + 4 + vals && !(at + 2 <= i < at + 4) && !(next <= i < next + 4)
    requires PadOfIfd(at + 18, fs, i) ==> mem[i] == other[i]
    ensures var h, k := App1Head(mem, at, None), App1Head(other, at, Some(len));
      SameAt(PutFields(OpenIfd(h, at + 18, |fs|), at + 10, fs), PutFields(OpenIfd(k, at + 18, |fs|), at + 10, fs), i)
  {
    hide PutFields, App1Head, LE16, PadOfFields, Splice, ValSize, IfdSize, U16, U32;
    var h, k := App1Head(mem, at, None), App1Head(other, at, Some(len));
    HeadLength(mem, at, None);
    HeadLength(other, at, Some(len));
    var c, d := OpenIfd(h, at + 18, |fs|), OpenIfd(k, at + 18, |fs|);
    if at + 20 <= i && !PadOfIfd(at + 18, fs, i) {
      PutFieldsStores(c, d, at + 10, fs, i);
    } else {
      FrontAsFresh(mem, other, at, |fs|, len, i);
      PutFieldsSame(c, d, at + 10, fs, i);
    }
  }

  /** Header and count, and bytes that were the same before. */
  lemma FrontAsFresh(mem: seq<byte>, other: seq<byte>, at: nat, n: nat, len: u16, i: nat)
    requires |mem| == |other| && i < |mem| && at <= i && !(at + 2 <= i < at + 4)
    requires i < at + 20 || mem[i] == other[i]
    ensures SameAt(OpenIfd(App1Head(mem, at, None), at + 18, n), OpenIfd(App1Head(other, at, Some(len)), at + 18, n), i)
  {
    hide App1Head, LE16, Splice, U16, U32;
    var h, k := App1Head(mem, at, None), App1Head(other, at, Some(len));
    HeadLength(mem, at, None);
    HeadLength(other, at, Some(len));
    if at + 18 <= i < at + 20 {
      SpliceStores(h, k, at + 18, LE16(U16(n)), i);
    } else {
      if i < at + 18 {
        HeadStores(mem, other, at, len, i);
      } else {
        HeadSame(mem, other, at, len, i);
      }
      SpliceSame(h, k, at + 18, LE16(U16(n)), i);
    }
  }

  lemma HeadLength(mem: seq<byte>, at: nat, len: Option<u16>)
    ensures |App1Head(mem, at, len)| == |mem|
  {
  }

  // ----- The updated stream ---------------------------------------------------------------------

  /** The directories of both records take the same places. */
  ghost predicate SameLayout(was: Attributes, e: Attributes) {
    && Exif.Valid(was) && Exif.Valid(e) && was.enableThumb == e.enableThumb
    && |Zeroth(was)| == |Zeroth(e)| && IfdSize(Zeroth(was)) == IfdSize(Zeroth(e))
  }

  /** The new record's 0th directory has as many entries, and fits over the old one's. */
  ghost predicate FitsOver(was: Attributes, e: Attributes) {
    && Exif.Valid(was) && Exif.Valid(e)
    && |Zeroth(was)| == |Zeroth(e)| && IfdSize(Zeroth(e)) <= IfdSize(Zeroth(was))
  }

  /** The attributes kept in the 1st directory, which is never updated. */
  predicate SameFirst(was: Attributes, e: Attributes) {
    && was.widthThumb == e.widthThumb && was.heightThumb == e.heightThumb
    && was.compressionScheme == e.compressionScheme && was.orientation == e.orientation
  }

  lemma SameFirstFields(was: Attributes, e: Attributes, offset: u32, thumbLen: u32)
    ensures SameFirst(was, e) <==> ThumbFields(was, offset, thumbLen) == ThumbFields(e, offset, thumbLen)
  {
    var a, b := ThumbFields(was, offset, thumbLen), ThumbFields(e, offset, thumbLen);
    if a == b {
      assert a[0] == b[0] && a[1] == b[1] && a[2] == b[2] && a[3] == b[3];
      LE32RoundTrip(was.widthThumb);
      LE32RoundTrip(e.widthThumb);
      LE32RoundTrip(was.heightThumb);
      LE32RoundTrip(e.heightThumb);
      ShortValue(was.compressionScheme);
      ShortValue(e.compressionScheme);
      ShortValue(was.orientation);
      ShortValue(e.orientation);
    }
  }

  lemma ShortValue(v: u16)
    ensures |IfdWriter.ShortBytes([v])| == 2 && FromLE16(IfdWriter.ShortBytes([v])) == v
  {
    assert IfdWriter.ShortBytes([v]) == IfdWriter.ShortBytes([]) + LE16(v);
    LE16RoundTrip(v);
  }

  /** The two directories in APP1 after the update: the new 0th one with the old chain, and the 1st one as it was,
      like everything behind it. */
  lemma App1Patched(mem: seq<byte>, at: nat, was: Attributes, e: Attributes, len: u16, offset: u32, thumbLen: u32)
    requires FitsOver(was, e) && App1At(mem, at, was, len, offset, thumbLen)
    ensures at + 18 + IfdSize(Zeroth(was)) <= |mem| && IfdSize(Zeroth(e)) >= 6 + 12 * |Zeroth(e)|
    ensures var r := App1Updated(mem, at, e);
      && |r| == |mem| && Agree(mem, r, 0, at) && Agree(mem, r, at + 18 + IfdSize(Zeroth(was)), |mem|)
      && At(r, at, [0xFF, 0xE1]) && At(r, at + 2, BE16(len))
      && At(r, at + 4, EXIF_IDENTIFIER) && At(r, at + 10, TIFF_HEADER)
      && LaidIfd(r, at + 10, at + 18, Zeroth(e), if was.enableThumb then U32(8 + IfdSize(Zeroth(was))) else 0)
      && (was.enableThumb ==>
            LaidIfd(r, at + 10, at + 18 + IfdSize(Zeroth(was)), ThumbFields(was, offset, thumbLen), 0))
  {
    hide Exif.Valid, Zeroth, ValSize, PutFields, Laid, BE16, App1Updated, LE16, LE32, ThumbFields;
    var fs := Zeroth(e);
    var next := if was.enableThumb then U32(8 + IfdSize(Zeroth(was))) else 0;
    LaidInside(mem, at + 10, at + 18, Zeroth(was), next);
    UpdatedElsewhere(mem, at, e);
    var r := App1Updated(mem, at, e);
    AtStable(mem, r, at + 2, BE16(len));
    AtStable(mem, r, at + 20 + 12 * |fs|, LE32(next));
    if was.enableThumb {
      var first := at + 18 + IfdSize(Zeroth(was));
      LaidInside(mem, at + 10, first, ThumbFields(was, offset, thumbLen), 0);
      LaidIfdStable(mem, r, at + 10, first, ThumbFields(was, offset, thumbLen), 0);
    }
  }

  lemma SameBytes(was: Attributes, e: Attributes, d: Option<Debug>, gap: nat, pad: nat)
    requires SameLayout(was, e)
    ensures App1Size(was) == App1Size(e) && App1Bytes(Some(was)) == App1Bytes(Some(e))
    ensures AppxBase(2, Some(was), gap) == AppxBase(2, Some(e), gap) && ThumbPlace(Some(was)) == ThumbPlace(Some(e))
    ensures App11Base(2, Some(was), d, gap) == App11Base(2, Some(e), d, gap)
    ensures MainBase(2, Some(was), d, gap, pad) == MainBase(2, Some(e), d, gap, pad)
  {
    hide Exif.Valid, Zeroth, IfdSize, AppxBytes;
  }

  /** One place in memory holds one directory. */
  lemma OneDirectory(mem: seq<byte>, base: nat, at: nat, was: Attributes, e: Attributes, offset: u32, thumbLen: u32)
    requires base <= at && |mem| < 0x1_0000_0000
    requires LaidIfd(mem, base, at, ThumbFields(was, offset, thumbLen), 0)
    requires LaidIfd(mem, base, at, ThumbFields(e, offset, thumbLen), 0)
    ensures SameFirst(was, e)
  {
    hide LaidIfd, ThumbFields, SameFirst, ReadIfd;
    ThumbReadable(was, offset, thumbLen);
    ThumbReadable(e, offset, thumbLen);
    ReadIfdLaid(mem, base, at, ThumbFields(was, offset, thumbLen), 0, 0);
    ReadIfdLaid(mem, base, at, ThumbFields(e, offset, thumbLen), 0, 0);
    SameFirstFields(was, e, offset, thumbLen);
  }

  /** What is behind APP1's directories in the updated stream. */
  lemma BehindPatched(mem: seq<byte>, r: seq<byte>, was: Attributes, e: Attributes, d: Option<Debug>, reserved: bool,
                      thumb: seq<byte>, rest: nat, pad: nat, main: seq<byte>, t: nat, m: nat)
    requires SameLayout(was, e) && Assembled(mem, Some(was), d, reserved, thumb, rest, pad, main)
    requires t == 2 + App1Bytes(Some(was)) && m == MainBase(2, Some(was), d, |thumb| + rest, pad)
    requires Agree(mem, r, 0, 2) && Agree(mem, r, t, |mem|)
    ensures At(r, 0, [0xFF, 0xD8]) && At(r, t, thumb) && At(r, t + |thumb|, Zeros(rest))
    ensures DebugAt(r, AppxBase(2, Some(was), |thumb| + rest), d, reserved)
    ensures App11At(r, App11Base(2, Some(was), d, |thumb| + rest), pad)
    ensures At(r, m, [0, 0]) && At(r, m + 2, main[2..])
  {
    hide Exif.Valid, App1At, DebugAt, App11At, At, Agree, AppxBytes, App1Bytes, BE16, U16, Zeros, ThumbPlace, Zeroth, IfdSize;
    BehindStable(mem, r, Some(was), d, reserved, |thumb| + rest, pad, main);
    AtStable(mem, r, 0, [0xFF, 0xD8]);
    AgreeSub(mem, r, t, |mem|, t, t + |thumb|);
    AtStable(mem, r, t, thumb);
    AgreeSub(mem, r, t, |mem|, t + |thumb|, t + |thumb| + rest);
    AtStable(mem, r, t + |thumb|, Zeros(rest));
  }

  /** Everything but APP1's directories, carried over to the updated stream. */
  lemma RestPatched(mem: seq<byte>, r: seq<byte>, was: Attributes, e: Attributes, d: Option<Debug>, reserved: bool,
                    thumb: seq<byte>, rest: nat, pad: nat, main: seq<byte>)
    requires SameLayout(was, e) && Assembled(mem, Some(was), d, reserved, thumb, rest, pad, main)
    requires r == App1Updated(mem, 2, e)
    requires App1At(r, 2, e, U16(App1Size(e) + (|thumb| + rest)), ThumbPlace(Some(e)), |thumb|)
    ensures Assembled(r, Some(e), d, reserved, thumb, rest, pad, main)
  {
    hide Exif.Valid, App1At, DebugAt, App11At, At, Agree, App1Updated, App1Size, App1Bytes, AppxBytes, AppxBase, App11Base;
    hide U16, Zeros, ThumbPlace, Zeroth, IfdSize;
    SameBytes(was, e, d, |thumb| + rest, pad);
    Untouched(mem, was, e, d, reserved, thumb, rest, pad, main);
    BehindPatched(mem, r, was, e, d, reserved, thumb, rest, pad, main, 2 + App1Bytes(Some(was)),
                  MainBase(2, Some(was), d, |thumb| + rest, pad));
  }

  lemma Untouched(mem: seq<byte>, was: Attributes, e: Attributes, d: Option<Debug>, reserved: bool,
                  thumb: seq<byte>, rest: nat, pad: nat, main: seq<byte>)
    requires SameLayout(was, e) && Assembled(mem, Some(was), d, reserved, thumb, rest, pad, main)
    ensures var r := App1Updated(mem, 2, e);
      Agree(mem, r, 0, 2) && Agree(mem, r, 2 + App1Bytes(Some(was)), |mem|)
  {
    hide Exif.Valid, App1At, DebugAt, App11At, At, Agree, App1Updated, AppxBytes, U16, Zeros, ThumbPlace, Zeroth, IfdSize;
    SameBytes(was, e, d, |thumb| + rest, pad);
    var r := App1Updated(mem, 2, e);
    App1Patched(mem, 2, was, e, U16(App1Size(was) + (|thumb| + rest)), ThumbPlace(Some(was)), |thumb|);
    AgreeSub(mem, r, 20 + IfdSize(Zeroth(e)), |mem|, 2 + App1Bytes(Some(was)), |mem|);
  }

  /**
    Updating the Exif data of a finished stream gives the finished stream of the new record
    exactly when the record agrees with the old one on what the 1st directory holds: that
    directory keeps the old attributes.
    */
  lemma {:induction false} StreamPatched(mem: seq<byte>, was: Attributes, e: Attributes, d: Option<Debug>,
                                         reserved: bool, thumb: seq<byte>, rest: nat, pad: nat, main: seq<byte>)
    requires SameLayout(was, e) && Assembled(mem, Some(was), d, reserved, thumb, rest, pad, main)
    requires |mem| < 0x1_0000_0000
    ensures Assembled(App1Updated(mem, 2, e), Some(e), d, reserved, thumb, rest, pad, main)
       <==> (e.enableThumb ==> SameFirst(was, e))
  {
    hide Exif.Valid, DebugAt, At, Agree, App1Updated, AppxBytes, BE16, U16, Zeros, ThumbPlace, Zeroth, IfdSize;
    hide LaidIfd, SameFirst, ThumbFields, App11At;
    var r, gap := App1Updated(mem, 2, e), |thumb| + rest;
    var len, place := U16(App1Size(e) + gap), ThumbPlace(Some(e));
    SameBytes(was, e, d, gap, pad);
    App1Patched(mem, 2, was, e, len, place, |thumb|);
    SameFirstFields(was, e, place, |thumb|);
    if e.enableThumb ==> SameFirst(was, e) {
      RestPatched(mem, r, was, e, d, reserved, thumb, rest, pad, main);
    }
    if e.enableThumb && Assembled(r, Some(e), d, reserved, thumb, rest, pad, main) {
      OneDirectory(r, 12, 20 + IfdSize(Zeroth(e)), was, e, place, |thumb|);
    }
  }

  // ----- Records of other sizes -------------------------------------------------------------------

  /** With a 0th directory that is not longer than the old one, nothing behind the old one changes. */
  lemma {:induction false} BehindUntouched(mem: seq<byte>, was: Attributes, e: Attributes, d: Option<Debug>,
                                           reserved: bool, thumb: seq<byte>, rest: nat, pad: nat, main: seq<byte>)
    requires Exif.Valid(was) && Exif.Valid(e) && IfdSize(Zeroth(e)) <= IfdSize(Zeroth(was))
    requires Assembled(mem, Some(was), d, reserved, thumb, rest, pad, main)
    ensures Agree(mem, App1Updated(mem, 2, e), 20 + IfdSize(Zeroth(was)), |mem|)
  {
    hide Exif.Valid, DebugAt, App11At, At, App1Updated, App1Size, AppxBytes, U16, Zeros, ThumbPlace;
    hide Zeroth, IfdSize, ThumbFields, Laid;
    LaidInside(mem, 12, 20, Zeroth(was), if was.enableThumb then U32(8 + IfdSize(Zeroth(was))) else 0);
    UpdatedElsewhere(mem, 2, e);
  }

  /** With as many entries too, a reader finds the new record's 0th directory, the old 1st one, and the thumbnail
      stream. */
  lemma {:induction false} PatchedReadBack(mem: seq<byte>, was: Attributes, e: Attributes, d: Option<Debug>,
                                           reserved: bool, thumb: seq<byte>, rest: nat, pad: nat, main: seq<byte>)
    requires FitsOver(was, e) && Assembled(mem, Some(was), d, reserved, thumb, rest, pad, main)
    requires |mem| < 0x1_0000_0000
    ensures var r := ReadExif(App1Updated(mem, 2, e), TIFF_BASE);
      && r.Some? && r.value.zeroth.fields == Zeroth(e) && r.value.thumb == thumb
      && (r.value.first.Some? <==> was.enableThumb)
      && (was.enableThumb ==> r.value.first.value.fields == ThumbFields(was, ThumbPlace(Some(was)), |thumb|))
  {
    hide ReadIfd, Zeroth, ThumbFields, IfdSize, Readable, At, Exif.Valid, BE16, LaidIfd, LongOf, App1Updated;
    hide FromLE32, DebugAt, App11At, AppxBytes, Zeros;
    var r, place := App1Updated(mem, 2, e), ThumbPlace(Some(was));
    var first := 20 + IfdSize(Zeroth(was));
    App1Patched(mem, 2, was, e, U16(App1Size(was) + (|thumb| + rest)), place, |thumb|);
    HeaderAt(r, TIFF_BASE);
    ZerothReadable(e);
    ReadIfdLaid(r, TIFF_BASE, 20, Zeroth(e), if was.enableThumb then U32(8 + IfdSize(Zeroth(was))) else 0, 2);
    if was.enableThumb {
      ThumbReadable(was, place, |thumb|);
      ReadIfdLaid(r, TIFF_BASE, first, ThumbFields(was, place, |thumb|), 0, 0);
      ThumbLongs(was, place, |thumb|);
      AtStable(mem, r, 4 + App1Size(was), thumb);
      ThumbReadBack(r, TIFF_BASE, 4 + App1Size(was), thumb);
    }
  }

  /** Without GPS data the 0th directory ends with the interoperability directory's chain, four zeros. */
  lemma InteropEnds(mem: seq<byte>, base: nat, ifd: nat, v: nat, e: Attributes)
    requires Exif.Valid(e) && !e.enableGps && Laid(mem, base, ifd, v, Zeroth(e))
    ensures ValSize(Zeroth(e)) >= 4 && At(mem, v + ValSize(Zeroth(e)) - 4, LE32(0))
  {
    hide Exif.Valid, At, LE32, ExifCapture, ExifRest, ZerothHead, ZerothStrings, InteropFields, IfdWriter.CStringField;
    var fs := Zeroth(e);
    var n := |fs| - 1;
    assert fs[n] == SubIfd(TAG_EXIF_IFD, ExifFields(e));
    var xs, x := ExifFields(e), v + ValSize(fs[..n]);
    ExifEnds(mem, base, x, e);
    assert LaidField(mem, base, ifd + 12 * n, x, fs[n]);
  }

  lemma ExifEnds(mem: seq<byte>, base: nat, at: nat, e: Attributes)
    requires Exif.Valid(e)
    ensures LaidIfd(mem, base, at, ExifFields(e), 0) ==> At(mem, at + IfdSize(ExifFields(e)) - 4, LE32(0))
  {
    hide Exif.Valid, At, LE32, ExifCapture, ExifRest, InteropFields, Laid, IfdSize, LaidIfd;
    var xs := ExifFields(e);
    assert xs[|xs| - 1] == SubIfd(TAG_INTEROP_IFD, InteropFields(e));
    if LaidIfd(mem, base, at, xs, 0) {
      LastDirectory(mem, base, at, xs, 0);
      InteropSize(e);
      InteropChain(mem, base, at + IfdSize(xs) - 30, e);
    }
  }

  /** A directory whose last entry points to another one ends with that one. */
  lemma LastDirectory(mem: seq<byte>, base: nat, at: nat, fs: seq<Field>, next: u32)
    requires LaidIfd(mem, base, at, fs, next) && fs != [] && fs[|fs| - 1].SubIfd?
    ensures var last := fs[|fs| - 1].fields;
      IfdSize(fs) >= IfdSize(last) && LaidIfd(mem, base, at + IfdSize(fs) - IfdSize(last), last, 0)
  {
    hide At, LE32;
    var n := |fs| - 1;
    assert OutSize(fs[n]) == IfdSize(fs[n].fields);
    assert ValSize(fs) == ValSize(fs[..n]) + OutSize(fs[n]);
    assert LaidField(mem, base, at + 2 + 12 * n, at + 6 + 12 * |fs| + ValSize(fs[..n]), fs[n]);
  }

  lemma InteropChain(mem: seq<byte>, base: nat, at: nat, e: Attributes)
    requires LaidIfd(mem, base, at, InteropFields(e), 0)
    ensures At(mem, at + 26, LE32(0))
  {
    hide At, LE32, Laid;
  }

  lemma UpdatedEnds(mem: seq<byte>, at: nat, e: Attributes)
    requires Exif.Valid(e) && !e.enableGps && at + 18 + IfdSize(Zeroth(e)) <= |mem|
    ensures At(App1Updated(mem, at, e), at + 14 + IfdSize(Zeroth(e)), LE32(0))
    ensures Agree(mem, App1Updated(mem, at, e), at + 18 + IfdSize(Zeroth(e)), |mem|)
  {
    hide Exif.Valid, App1Updated, Zeroth, Laid, At, Agree, ValSize, LE32, LE16;
    UpdatedElsewhere(mem, at, e);
    InteropEnds(App1Updated(mem, at, e), at + 10, at + 20, at + 24 + 12 * |Zeroth(e)|, e);
  }

  /**
    A new 0th directory that is longer by up to four bytes clears the number of entries of the 1st one, which was
    six, with the zeros of its own last chain.
    */
  lemma {:induction false} LongerOverwrites(mem: seq<byte>, was: Attributes, e: Attributes, d: Option<Debug>,
                                            reserved: bool, thumb: seq<byte>, rest: nat, pad: nat, main: seq<byte>)
    requires Exif.Valid(was) && Exif.Valid(e) && was.enableThumb && !e.enableGps
    requires 0 < IfdSize(Zeroth(e)) - IfdSize(Zeroth(was)) <= 4 && 20 + IfdSize(Zeroth(e)) <= |mem|
    requires Assembled(mem, Some(was), d, reserved, thumb, rest, pad, main)
    ensures At(mem, 20 + IfdSize(Zeroth(was)), LE16(6))
    ensures At(App1Updated(mem, 2, e), 20 + IfdSize(Zeroth(was)), LE16(0))
  {
    hide Exif.Valid, DebugAt, App11At, App1Updated, App1Size, AppxBytes, U16, Zeros, ThumbPlace, Zeroth, Laid, IfdSize;
    var end, first := 20 + IfdSize(Zeroth(e)), 20 + IfdSize(Zeroth(was));
    SixEntries(mem, 12, first, was, ThumbPlace(Some(was)), |thumb|);
    UpdatedEnds(mem, 2, e);
    CountCleared(mem, App1Updated(mem, 2, e), first, end);
  }

  lemma CountCleared(mem: seq<byte>, r: seq<byte>, first: nat, end: nat)
    requires 0 < end - first <= 4 && end >= 4 && At(mem, first, LE16(6)) && At(r, end - 4, LE32(0))
    requires Agree(mem, r, end, |mem|)
    ensures At(r, first, LE16(0))
  {
    assert mem[first..first + 2] == [6, 0] && r[end - 4..end] == [0, 0, 0, 0];
    assert mem[first + 1] == mem[first..first + 2][1];
    forall i | end - 4 <= i < end ensures r[i] == 0 {
      assert r[i] == r[end - 4..end][i - (end - 4)];
    }
  }

  lemma SixEntries(mem: seq<byte>, base: nat, at: nat, e: Attributes, offset: u32, thumbLen: u32)
    requires LaidIfd(mem, base, at, ThumbFields(e, offset, thumbLen), 0)
    ensures At(mem, at, LE16(6))
  {
    hide Laid;
  }

  /** Nothing but the 0th directory's strings depends on the maker's name. */
  lemma MakerElsewhere(was: Attributes, maker: seq<byte>)
    requires Exif.Valid(was) && |maker| == 32 && 0 in maker
    ensures var e := was.(maker := maker);
      Exif.Valid(e) && ExifFields(e) == ExifFields(was) && GpsFields(e) == GpsFields(was)
  {
    hide StrLen;
    var e := was.(maker := maker);
    assert ExifCapture(e) == ExifCapture(was) && ExifRest(e) == ExifRest(was) && InteropFields(e) == InteropFields(was);
    assert GpsPosition(e) == GpsPosition(was) && GpsTime(e) == GpsTime(was) && GpsMethod(e) == GpsMethod(was);
  }

  /** The same record with another maker's name. */
  lemma {:induction false} MakerSize(was: Attributes, maker: seq<byte>)
    requires Exif.Valid(was) && |maker| == 32 && 0 in maker && StrLen(was.maker) > 3 && StrLen(maker) > 3
    ensures var e := was.(maker := maker);
      Exif.Valid(e) && IfdSize(Zeroth(e)) == IfdSize(Zeroth(was)) + StrLen(maker) - StrLen(was.maker)
  {
    hide StrLen, ValSize, ExifFields, GpsFields, Exif.Valid;
    var e := was.(maker := maker);
    MakerElsewhere(was, maker);
    ZerothSize(was);
    ZerothSize(e);
  }

  const NO_NAME: seq<byte> := Zeros(32)
  const ZERO := IfdWriter.Rational(0, 1)

  /** A record with a thumbnail, and with the maker's name as its only string. */
  function Named(maker: seq<byte>): (e: Attributes)
    requires |maker| <= 31
    ensures Exif.Valid(e) && e.maker == IfdWriter.Padded(maker, 32) && e.enableThumb && !e.enableGps
  {
    assert NO_NAME[0] == Zeros(30)[0] == Zeros(100)[0] == IfdWriter.Padded(maker, 32)[31] == 0;
    Attributes(false, true, IfdWriter.Padded(maker, 32), NO_NAME, NO_NAME, Zeros(4), [], [], [], [], 640, 480, 160, 120,
               1, 1, 0, 0, 0, 0, 1, 0, 0, 0, 0, 0, Zeros(30), ZERO, ZERO, ZERO, ZERO, ZERO, ZERO, ZERO, ZERO, Zeros(2),
               Zeros(2), Zeros(4), 0, [ZERO, ZERO, ZERO], [ZERO, ZERO, ZERO], ZERO, [ZERO, ZERO, ZERO], [], Zeros(100),
               ZERO, ZERO, 2, 6)
  }

  const OLD_NAME: seq<byte> := [0x41, 0x42, 0x43, 0x44]
  const NEW_NAME: seq<byte> := [0x41, 0x42, 0x43, 0x44, 0x45]

  lemma NameLengths()
    ensures StrLen(Named(OLD_NAME).maker) == 4 && StrLen(Named(NEW_NAME).maker) == 5
    ensures Named(OLD_NAME).(maker := Named(NEW_NAME).maker) == Named(NEW_NAME)
  {
    hide StrLen;
    var s, t := Named(OLD_NAME).maker, Named(NEW_NAME).maker;
    StrLenOf(s, 4);
    StrLenOf(t, 5);
  }

  lemma StrLenOf(s: seq<byte>, n: nat)
    requires n < |s| && s[n] == 0 && forall i | 0 <= i < n :: s[i] != 0
    ensures 0 in s && StrLen(s) == n
  {
    assert 0 !in s[..StrLen(s)] && s[StrLen(s)] == 0;
  }

  /** A finished stream with nothing but APP1 and APP11 in front of the main stream. */
  lemma SmallStream(e: Attributes, main: seq<byte>) returns (mem: seq<byte>)
    requires Exif.Valid(e) && |main| >= 2
    ensures Assembled(mem, Some(e), None, false, [], 0, 0, main)
    ensures |mem| == StreamLength(Some(e), None, 0, 0, main) + 64
  {
    hide At, SegmentsAt, SegmentsWritten, App1Size, App1Bytes, Exif.Valid, ThumbPlace, Core, Assembled;
    var len, m := U16(App1Size(e)), MainBase(2, Some(e), None, 0, 0);
    var s := SegmentsWritten(Zeros(m + |main| + 64), 2, Some(e), None, len, ThumbPlace(Some(e)), 0, false, 0);
    WrittenSegments(Zeros(m + |main| + 64), 2, Some(e), None, len, ThumbPlace(Some(e)), 0, false, 0);
    MainStored(s, Some(e), None, len, 0, false, 0, m, main);
    SoiCleared(Splice(s, m, main), Some(e), None, false, len, 0, 0, m, main);
    var r := Splice(Splice(s, m, main), m, [0, 0]);
    AtNothing(r, 2 + App1Bytes(Some(e)), []);
    Finished(r, Some(e), None, false, len, 0, [], 0, 0, main);
    mem := Splice(r, 0, [0xFF, 0xD8]);
  }

  /** One more letter in the maker's name makes the 1st directory of this stream lose its entries. */
  lemma {:induction false} OverwriteWitness() returns (mem: seq<byte>, first: nat)
    ensures Assembled(mem, Some(Named(OLD_NAME)), None, false, [], 0, 0, [0xFF, 0xD8, 0xFF, 0xD9])
    ensures first == 20 + IfdSize(Zeroth(Named(OLD_NAME))) && At(mem, first, LE16(6))
    ensures Patchable(mem) && 20 + IfdSize(Zeroth(Named(NEW_NAME))) <= |mem|
    ensures At(App1Updated(mem, 2, Named(NEW_NAME)), first, LE16(0))
  {
    hide Named, StrLen, IfdSize, Zeroth, Assembled, App1Updated, Exif.Valid, At, Patchable;
    var was, main := Named(OLD_NAME), [0xFF, 0xD8, 0xFF, 0xD9];
    first := 20 + IfdSize(Zeroth(was));
    mem := SmallStream(was, main);
    NameLengths();
    MakerSize(was, Named(NEW_NAME).maker);
    SmallPatchable(mem, was, main);
    LongerOverwrites(mem, was, Named(NEW_NAME), None, false, [], 0, 0, main);
  }

  lemma SmallPatchable(mem: seq<byte>, e: Attributes, main: seq<byte>)
    requires Exif.Valid(e) && Assembled(mem, Some(e), None, false, [], 0, 0, main)
    ensures Patchable(mem)
  {
    hide App1Size, ThumbPlace, Zeroth, Exif.Valid, LaidIfd, App11At, BE16;
    BE16RoundTrip(U16(App1Size(e)));
    assert mem[0..2] == [0xFF, 0xD8] && mem[2..4] == [0xFF, 0xE1];
  }

  /** A stream that passes the checks, and is too short for any record's directory. */
  lemma {:induction false} OutOfBoundsWitness(e: Attributes)
    requires Exif.Valid(e)
    ensures Patchable([0xFF, 0xD8, 0xFF, 0xE1, 0, 0]) && 6 < 20 + IfdSize(Zeroth(e))
  {
  }
}
