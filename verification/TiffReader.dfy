/**
  A reader for image file directories (TIFF 6.0 section 2). It knows nothing of
  the writer: it follows the counts and the offsets it finds in memory, and it
  reports the stretches of memory it took fields from.
*/
module TiffReader {
  import opened Bytes
  import opened Tiff
  import opened Wrappers

  /** The bytes in [lo, hi). */
  datatype Span = Span(lo: nat, hi: nat)

  datatype Ifd = Ifd(fields: seq<Field>, spans: seq<Span>, next: u32)
  datatype Entries = Entries(fields: seq<Field>, spans: seq<Span>)

  /** `depth` bounds how many directory pointers are followed one after the other. */
  function ReadIfd(mem: seq<byte>, base: nat, at: nat, depth: nat): Option<Ifd>
    decreases depth, 2, 0
  {
    if at + 2 > |mem| then None else
    var n: nat := FromLE16(mem[at..at + 2]);
    if at + 6 + 12 * n > |mem| then None else
    var es :- ReadEntries(mem, base, at + 2, n, depth);
    Some(Ifd(es.fields, [Span(at, at + 6 + 12 * n)] + es.spans,
             FromLE32(mem[at + 2 + 12 * n..at + 6 + 12 * n])))
  }

  function ReadEntries(mem: seq<byte>, base: nat, e: nat, n: nat, depth: nat): Option<Entries>
    requires e + 12 * n <= |mem|
    decreases depth, 1, n
  {
    if n == 0 then Some(Entries([], [])) else
    var init :- ReadEntries(mem, base, e, n - 1, depth);
    var last :- ReadEntry(mem, base, e + 12 * (n - 1), depth);
    Some(Entries(init.fields + last.fields, init.spans + last.spans))
  }

  function ReadEntry(mem: seq<byte>, base: nat, e: nat, depth: nat): Option<Entries>
    requires e + 12 <= |mem|
    decreases depth, 0, 0
  {
    var tag, typ := FromLE16(mem[e..e + 2]), FromLE16(mem[e + 2..e + 4]);
    var count, offset := FromLE32(mem[e + 4..e + 8]), FromLE32(mem[e + 8..e + 12]);
    var size := count * TypeSize(typ);
    if IsPointerTag(tag) then
      if typ != TYPE_LONG || count != 1 || depth == 0 then None else
      var sub :- ReadIfd(mem, base, base + offset, depth - 1);
      if sub.next != 0 then None else
      Some(Entries([SubIfd(tag, sub.fields)], sub.spans))
    else if size == 0 then None
    else if size <= 4 then Some(Entries([Plain(tag, typ, count, mem[e + 8..e + 8 + size])], []))
    else if base + offset + size > |mem| then None
    else Some(Entries([Plain(tag, typ, count, mem[base + offset..base + offset + size])],
                      [Span(base + offset, base + offset + size)]))
  }

  /** Spans that follow each other without gap or overlap from `lo` to `hi`. */
  ghost predicate Tiles(spans: seq<Span>, lo: nat, hi: nat)
    decreases |spans|
  {
    if spans == [] then lo == hi
    else
      var last := spans[|spans| - 1];
      last.lo < last.hi == hi && Tiles(spans[..|spans| - 1], lo, last.lo)
  }

  lemma {:induction false} TilesConcat(a: seq<Span>, b: seq<Span>, lo: nat, mid: nat, hi: nat)
    requires Tiles(a, lo, mid) && Tiles(b, mid, hi)
    ensures Tiles(a + b, lo, hi)
    decreases |b|
  {
    if b == [] {
      assert a + b == a;
    } else {
      var n := |b| - 1;
      TilesConcat(a, b[..n], lo, mid, b[n].lo);
      assert (a + b)[..|a + b| - 1] == a + b[..n];
    }
  }

  /** Tiling spans are inside the tiled range and pairwise disjoint. */
  lemma {:induction false} TilesDisjoint(spans: seq<Span>, lo: nat, hi: nat)
    requires Tiles(spans, lo, hi)
    ensures lo <= hi
    ensures forall i | 0 <= i < |spans| :: lo <= spans[i].lo < spans[i].hi <= hi
    ensures forall i, j | 0 <= i < j < |spans| :: spans[i].hi <= spans[j].lo
    decreases |spans|
  {
    if spans != [] {
      TilesDisjoint(spans[..|spans| - 1], lo, spans[|spans| - 1].lo);
    }
  }

  // ----- Fields a reader can recognise ----------------------------------------

  ghost predicate ReadableField(f: Field, depth: nat)
    decreases f, 1
  {
    match f
    case Plain(tag, typ, count, data) =>
      !IsPointerTag(tag) && |data| == count * TypeSize(typ) && |data| > 0
    case SubIfd(tag, fields) =>
      IsPointerTag(tag) && |fields| < 0x1_0000 && depth > 0 && Readable(fields, depth - 1)
  }

  ghost predicate Readable(fs: seq<Field>, depth: nat)
    decreases fs, 0
  {
    fs == [] || (Readable(fs[..|fs| - 1], depth) && ReadableField(fs[|fs| - 1], depth))
  }

  lemma {:induction false} ReadableEncodable(fs: seq<Field>, depth: nat)
    requires Readable(fs, depth)
    ensures Encodable(fs)
    decreases fs
  {
    if fs != [] {
      var f := fs[|fs| - 1];
      ReadableEncodable(fs[..|fs| - 1], depth);
      if f.SubIfd? {
        ReadableEncodable(f.fields, depth - 1);
      }
    }
  }

  lemma {:induction false} ReadableConcat(a: seq<Field>, b: seq<Field>, depth: nat)
    requires Readable(a, depth) && Readable(b, depth)
    ensures Readable(a + b, depth)
  {
    hide ReadableField;
    if b == [] {
      assert a + b == a;
    } else {
      var n := |b| - 1;
      ReadableConcat(a, b[..n], depth);
      assert (a + b)[..|a + b| - 1] == a + b[..n];
    }
  }

  lemma {:induction false} ReadableAll(fs: seq<Field>, depth: nat)
    requires forall k | 0 <= k < |fs| :: ReadableField(fs[k], depth)
    ensures Readable(fs, depth)
  {
    hide ReadableField;
    if fs != [] {
      ReadableAll(fs[..|fs| - 1], depth);
    }
  }

  // ----- The reader inverts the layout ----------------------------------------

  lemma HeadRead(mem: seq<byte>, e: nat, tag: u16, typ: u16, count: u32)
    requires At(mem, e, EntryHead(tag, typ, count))
    ensures FromLE16(mem[e..e + 2]) == tag && FromLE16(mem[e + 2..e + 4]) == typ
    ensures FromLE32(mem[e + 4..e + 8]) == count
  {
    hide LE16, LE32, FromLE16, FromLE32;
    var head := mem[e..e + 8];
    assert head == LE16(tag) + LE16(typ) + LE32(count);
    assert head[..2] == LE16(tag);
    assert head[2..4] == LE16(typ);
    assert head[4..8] == LE32(count);
    assert mem[e..e + 2] == head[..2];
    assert mem[e + 2..e + 4] == head[2..4];
    assert mem[e + 4..e + 8] == head[4..8];
    LE16RoundTrip(tag);
    LE16RoundTrip(typ);
    LE32RoundTrip(count);
  }

  lemma OffsetRead(mem: seq<byte>, e: nat, base: nat, v: nat)
    requires At(mem, e, LE32(U32(v - base))) && base <= v <= |mem| < 0x1_0000_0000
    ensures base + FromLE32(mem[e..e + 4]) == v
  {
    LE32RoundTrip(U32(v - base));
  }

  lemma TilesOne(span: Span)
    requires span.lo < span.hi
    ensures Tiles([span], span.lo, span.hi)
  {
    assert [span][..0] == [];
  }

  lemma ReadPlainLaid(mem: seq<byte>, base: nat, e: nat, v: nat, f: Field, depth: nat)
    requires e + 12 <= |mem| && base <= v && v + OutSize(f) <= |mem| < 0x1_0000_0000
    requires f.Plain? && LaidField(mem, base, e, v, f) && ReadableField(f, depth)
    ensures ReadEntry(mem, base, e, depth).Some?
    ensures var r := ReadEntry(mem, base, e, depth).value;
      r.fields == [f] && Tiles(r.spans, v, v + OutSize(f))
  {
    hide EntryHead, FromLE32, FromLE16, LE32;
    HeadRead(mem, e, f.tag, f.typ, f.count);
    if |f.data| > 4 {
      OffsetRead(mem, e + 8, base, v);
      TilesOne(Span(v, v + |f.data|));
    }
  }

  lemma ReadSubLaid(mem: seq<byte>, base: nat, e: nat, v: nat, f: Field, depth: nat)
    requires e + 12 <= |mem| && base <= v <= |mem| < 0x1_0000_0000
    requires f.SubIfd? && LaidField(mem, base, e, v, f) && ReadableField(f, depth)
    requires var sub := ReadIfd(mem, base, v, depth - 1); sub.Some? && sub.value.fields == f.fields && sub.value.next == 0
    ensures var sub := ReadIfd(mem, base, v, depth - 1);
      ReadEntry(mem, base, e, depth) == Some(Entries([f], sub.value.spans))
  {
    hide EntryHead, FromLE32, FromLE16, LE32, ReadIfd, LaidIfd;
    HeadRead(mem, e, f.tag, TYPE_LONG, 1);
    OffsetRead(mem, e + 8, base, v);
  }

  lemma {:induction false} ReadEntryLaid(mem: seq<byte>, base: nat, e: nat, v: nat, f: Field, depth: nat)
    requires e + 12 <= |mem| && base <= v && v + OutSize(f) <= |mem| < 0x1_0000_0000
    requires LaidField(mem, base, e, v, f) && ReadableField(f, depth)
    ensures ReadEntry(mem, base, e, depth).Some?
    ensures var r := ReadEntry(mem, base, e, depth).value;
      r.fields == [f] && Tiles(r.spans, v, v + OutSize(f))
    decreases f, 1
  {
    hide ReadEntry, ReadIfd, LaidIfd, EntryHead;
    match f
    case Plain(tag, typ, count, data) =>
      ReadPlainLaid(mem, base, e, v, f, depth);
    case SubIfd(tag, fields) =>
      ReadIfdLaid(mem, base, v, fields, 0, depth - 1);
      ReadSubLaid(mem, base, e, v, f, depth);
  }

  lemma ReadNoEntries(mem: seq<byte>, base: nat, e: nat, v: nat, depth: nat)
    requires e <= |mem|
    ensures ReadEntries(mem, base, e, 0, depth) == Some(Entries([], [])) && Tiles([], v, v)
  {
  }

  /** One more entry read after those read so far. */
  lemma ReadEntriesSnoc(mem: seq<byte>, base: nat, e: nat, n: nat, depth: nat)
    requires n > 0 && e + 12 * n <= |mem|
    requires ReadEntries(mem, base, e, n - 1, depth).Some? && ReadEntry(mem, base, e + 12 * (n - 1), depth).Some?
    ensures var init := ReadEntries(mem, base, e, n - 1, depth).value;
      var last := ReadEntry(mem, base, e + 12 * (n - 1), depth).value;
      ReadEntries(mem, base, e, n, depth) == Some(Entries(init.fields + last.fields, init.spans + last.spans))
  {
    hide ReadEntry;
  }

  lemma {:induction false} ReadEntriesLaid(mem: seq<byte>, base: nat, e: nat, v: nat, fs: seq<Field>, depth: nat)
    requires e + 12 * |fs| <= |mem| && base <= v && v + ValSize(fs) <= |mem| < 0x1_0000_0000
    requires Laid(mem, base, e, v, fs) && Readable(fs, depth)
    ensures ReadEntries(mem, base, e, |fs|, depth).Some?
    ensures var r := ReadEntries(mem, base, e, |fs|, depth).value;
      r.fields == fs && Tiles(r.spans, v, v + ValSize(fs))
    decreases fs, 0
  {
    hide ReadEntry, ReadEntries, LaidField, ReadableField, OutSize, Tiles;
    if fs == [] {
      ReadNoEntries(mem, base, e, v, depth);
    } else {
      var n := |fs| - 1;
      ReadEntriesLaid(mem, base, e, v, fs[..n], depth);
      ReadEntryLaid(mem, base, e + 12 * n, v + ValSize(fs[..n]), fs[n], depth);
      ReadEntriesSnoc(mem, base, e, n + 1, depth);
      TilesConcat(ReadEntries(mem, base, e, n, depth).value.spans, ReadEntry(mem, base, e + 12 * n, depth).value.spans,
                  v, v + ValSize(fs[..n]), v + ValSize(fs));
      assert fs == fs[..n] + [fs[n]];
    }
  }

  /** Wherever a directory is laid, the reader finds exactly its fields, and the
      stretches it read tile the directory's part of memory. */
  lemma {:induction false} ReadIfdLaid(mem: seq<byte>, base: nat, at: nat, fs: seq<Field>, next: u32, depth: nat)
    requires base <= at && |mem| < 0x1_0000_0000
    requires LaidIfd(mem, base, at, fs, next) && Readable(fs, depth)
    ensures ReadIfd(mem, base, at, depth).Some?
    ensures var r := ReadIfd(mem, base, at, depth).value;
      r.fields == fs && r.next == next && Tiles(r.spans, at, at + IfdSize(fs))
    decreases fs, 1
  {
    hide ReadEntries, Laid, Readable, Tiles, ValSize, LE16, LE32, FromLE16, FromLE32;
    LE16RoundTrip(|fs|);
    LE32RoundTrip(next);
    ReadEntriesLaid(mem, base, at + 2, at + 6 + 12 * |fs|, fs, depth);
    var table := Span(at, at + 6 + 12 * |fs|);
    TilesOne(table);
    TilesConcat([table], ReadEntries(mem, base, at + 2, |fs|, depth).value.spans,
                at, at + 6 + 12 * |fs|, at + IfdSize(fs));
  }
}
