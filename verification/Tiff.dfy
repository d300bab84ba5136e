/**
  Image file directories as TIFF 6.0 section 2 defines them: what a writer
  stores (Put*), and where that lies in memory (Laid*).
*/
module Tiff {
  import opened Bytes
  import opened Wrappers

  const FIELD_SIZE := 12
  const TYPE_BYTE: u16 := 1
  const TYPE_ASCII: u16 := 2
  const TYPE_SHORT: u16 := 3
  const TYPE_LONG: u16 := 4
  const TYPE_RATIONAL: u16 := 5
  const TYPE_UNDEFINED: u16 := 7
  const TYPE_SRATIONAL: u16 := 10

  const TAG_EXIF_IFD: u16 := 0x8769
  const TAG_GPS_IFD: u16 := 0x8825
  const TAG_INTEROP_IFD: u16 := 0xA005

  /** A directory entry: a value with its bytes, or a pointer to a directory. */
  datatype Field =
    | Plain(tag: u16, typ: u16, count: u32, data: seq<byte>)
    | SubIfd(tag: u16, fields: seq<Field>)

  predicate IsPointerTag(tag: u16) {
    tag == TAG_EXIF_IFD || tag == TAG_GPS_IFD || tag == TAG_INTEROP_IFD
  }

  function TypeSize(typ: u16): nat {
    match typ
    case 1 => 1
    case 2 => 1
    case 7 => 1
    case 3 => 2
    case 4 => 4
    case 9 => 4
    case 5 => 8
    case 10 => 8
    case _ => 0
  }

  /** The number of bytes a field, or a directory, takes in the value area. */
  function OutSize(f: Field): nat
    decreases f, 2
  {
    match f
    case Plain(_, _, _, data) => if |data| > 4 then |data| else 0
    case SubIfd(_, fields) => IfdSize(fields)
  }

  function ValSize(fs: seq<Field>): nat
    decreases fs, 0
  {
    if fs == [] then 0 else ValSize(fs[..|fs| - 1]) + OutSize(fs[|fs| - 1])
  }

  function IfdSize(fs: seq<Field>): nat
    decreases fs, 1
  {
    6 + FIELD_SIZE * |fs| + ValSize(fs)
  }

  // ----- Writing -----------------------------------------------------------

  /** The writer: memory, the entry cursor, the value cursor, the tags left. */
  datatype Cursor = Cursor(mem: seq<byte>, ifd: nat, val: nat, tags: u32)

  function EntryHead(tag: u16, typ: u16, count: u32): (s: seq<byte>)
    ensures |s| == 8
  {
    LE16(tag) + LE16(typ) + LE32(count)
  }

  /** An entry whose last four bytes are the offset of the value cursor. */
  function PutPointer(c: Cursor, base: nat, tag: u16, typ: u16, count: u32): Cursor {
    Cursor(Splice(Splice(c.mem, c.ifd, EntryHead(tag, typ, count)), c.ifd + 8, LE32(U32(c.val - base))),
           c.ifd + 12, c.val, U32(c.tags - 1))
  }

  function PutField(c: Cursor, base: nat, f: Field): (r: Cursor)
    ensures |r.mem| == |c.mem| && r.ifd == c.ifd + 12 && r.val == c.val + OutSize(f)
    ensures c.tags > 0 ==> r.tags == c.tags - 1
    decreases f, 3
  {
    match f
    case Plain(tag, typ, count, data) =>
      if |data| > 4 then
        var p := PutPointer(c, base, tag, typ, count);
        p.(mem := Splice(p.mem, p.val, data), val := p.val + |data|)
      else
        Cursor(Splice(Splice(c.mem, c.ifd, EntryHead(tag, typ, count)), c.ifd + 8, data),
               c.ifd + 12, c.val, U32(c.tags - 1))
    case SubIfd(tag, fields) =>
      var p := PutPointer(c, base, tag, TYPE_LONG, 1);
      var sub := PutIfd(p.mem, base, p.val, fields, false);
      p.(mem := sub.mem, val := sub.val)
  }

  function PutFields(c: Cursor, base: nat, fs: seq<Field>): (r: Cursor)
    ensures |r.mem| == |c.mem| && r.ifd == c.ifd + 12 * |fs| && r.val == c.val + ValSize(fs)
    ensures c.tags >= |fs| ==> r.tags == c.tags - |fs|
    decreases fs, 0
  {
    if fs == [] then c
    else PutField(PutFields(c, base, fs[..|fs| - 1]), base, fs[|fs| - 1])
  }

  function OpenIfd(mem: seq<byte>, at: nat, n: nat): Cursor {
    Cursor(Splice(mem, at, LE16(U16(n))), at + 2, at + 6 + FIELD_SIZE * n, U32(n))
  }

  function CloseIfd(c: Cursor, base: nat, chained: bool): Cursor {
    c.(mem := Splice(c.mem, c.ifd, LE32(if chained then U32(c.val - base) else 0)), ifd := c.ifd + 4)
  }

  function PutIfd(mem: seq<byte>, base: nat, at: nat, fs: seq<Field>, chained: bool): (r: Cursor)
    ensures |r.mem| == |mem| && r.val == at + IfdSize(fs) && (|fs| < 0x1_0000 ==> r.tags == 0)
    decreases fs, 1
  {
    CloseIfd(PutFields(OpenIfd(mem, at, |fs|), base, fs), base, chained)
  }

  /** Memory after a whole directory was written. */
  function IfdWritten(mem: seq<byte>, base: nat, at: nat, fs: seq<Field>, chained: bool): (r: seq<byte>)
    ensures |r| == |mem|
  {
    PutIfd(mem, base, at, fs, chained).mem
  }

  lemma IfdWrittenSteps(mem: seq<byte>, base: nat, at: nat, fs: seq<Field>, chained: bool)
    ensures IfdWritten(mem, base, at, fs, chained) ==
      CloseIfd(PutFields(OpenIfd(mem, at, |fs|), base, fs), base, chained).mem
  {
  }

  lemma PutFieldsSnoc(c: Cursor, base: nat, fs: seq<Field>, f: Field)
    ensures PutFields(c, base, fs + [f]) == PutField(PutFields(c, base, fs), base, f)
  {
    assert (fs + [f])[..|fs|] == fs;
  }

  lemma ValSizeSnoc(fs: seq<Field>, f: Field)
    ensures ValSize(fs + [f]) == ValSize(fs) + OutSize(f)
  {
    assert (fs + [f])[..|fs|] == fs;
  }

  lemma {:induction false} ValSizeConcat(a: seq<Field>, b: seq<Field>)
    ensures ValSize(a + b) == ValSize(a) + ValSize(b)
  {
    if b == [] {
      assert a + b == a;
    } else {
      var n := |b| - 1;
      ValSizeConcat(a, b[..n]);
      assert a + b == a + b[..n] + [b[n]];
      ValSizeSnoc(a + b[..n], b[n]);
    }
  }

  /** Every directory of the tree has a count that fits its 2-byte field. */
  ghost predicate EncodableField(f: Field)
    decreases f, 2
  {
    f.SubIfd? ==> |f.fields| < 0x1_0000 && Encodable(f.fields)
  }

  ghost predicate Encodable(fs: seq<Field>)
    decreases fs, 0
  {
    fs == [] || (Encodable(fs[..|fs| - 1]) && EncodableField(fs[|fs| - 1]))
  }

  // ----- What memory holds ---------------------------------------------------

  ghost predicate LaidField(mem: seq<byte>, base: nat, e: nat, v: nat, f: Field)
    decreases f, 3
  {
    match f
    case Plain(tag, typ, count, data) =>
      && At(mem, e, EntryHead(tag, typ, count))
      && if |data| > 4 then At(mem, e + 8, LE32(U32(v - base))) && At(mem, v, data) else At(mem, e + 8, data)
    case SubIfd(tag, fields) =>
      && At(mem, e, EntryHead(tag, TYPE_LONG, 1))
      && At(mem, e + 8, LE32(U32(v - base)))
      && LaidIfd(mem, base, v, fields, 0)
  }

  /** Fields with their entries from `e` on and their values from `v` on. */
  ghost predicate Laid(mem: seq<byte>, base: nat, e: nat, v: nat, fs: seq<Field>)
    decreases fs, 0
  {
    fs == [] ||
    var n := |fs| - 1;
    && Laid(mem, base, e, v, fs[..n])
    && LaidField(mem, base, e + 12 * n, v + ValSize(fs[..n]), fs[n])
  }

  ghost predicate LaidIfd(mem: seq<byte>, base: nat, at: nat, fs: seq<Field>, next: u32)
    decreases fs, 1
  {
    && |fs| < 0x1_0000
    && At(mem, at, LE16(|fs|))
    && Laid(mem, base, at + 2, at + 6 + 12 * |fs|, fs)
    && At(mem, at + 2 + 12 * |fs|, LE32(next))
    && at + IfdSize(fs) <= |mem|
  }

  lemma {:induction false} LaidFieldStable(mem: seq<byte>, new_: seq<byte>, base: nat, e: nat, v: nat, f: Field)
    requires LaidField(mem, base, e, v, f)
    requires Agree(mem, new_, e, e + 12) && Agree(mem, new_, v, v + OutSize(f))
    ensures LaidField(new_, base, e, v, f)
    decreases f, 3
  {
    match f
    case Plain(tag, typ, count, data) =>
      AtStable(mem, new_, e, EntryHead(tag, typ, count));
      if |data| > 4 {
        AtStable(mem, new_, e + 8, LE32(U32(v - base)));
        AtStable(mem, new_, v, data);
      } else {
        AtStable(mem, new_, e + 8, data);
      }
    case SubIfd(tag, fields) =>
      AtStable(mem, new_, e, EntryHead(tag, TYPE_LONG, 1));
      AtStable(mem, new_, e + 8, LE32(U32(v - base)));
      LaidIfdStable(mem, new_, base, v, fields, 0);
  }

  lemma {:induction false} LaidStable(mem: seq<byte>, new_: seq<byte>, base: nat, e: nat, v: nat, fs: seq<Field>)
    requires Laid(mem, base, e, v, fs)
    requires Agree(mem, new_, e, e + 12 * |fs|) && Agree(mem, new_, v, v + ValSize(fs))
    ensures Laid(new_, base, e, v, fs)
    decreases fs, 0
  {
    hide LaidField, OutSize;
    if fs != [] {
      var n := |fs| - 1;
      LaidStable(mem, new_, base, e, v, fs[..n]);
      LaidFieldStable(mem, new_, base, e + 12 * n, v + ValSize(fs[..n]), fs[n]);
    }
  }

  lemma {:induction false} LaidIfdStable(mem: seq<byte>, new_: seq<byte>, base: nat, at: nat, fs: seq<Field>, next: u32)
    requires LaidIfd(mem, base, at, fs, next)
    requires Agree(mem, new_, at, at + IfdSize(fs))
    ensures LaidIfd(new_, base, at, fs, next)
    decreases fs, 1
  {
    AtStable(mem, new_, at, LE16(|fs|));
    LaidStable(mem, new_, base, at + 2, at + 6 + 12 * |fs|, fs);
    AtStable(mem, new_, at + 2 + 12 * |fs|, LE32(next));
  }

  // ----- The writer stores what it should, and nothing else ------------------

  /** Only the bytes of the entries and of the values differ. */
  ghost predicate OnlyWrote(mem: seq<byte>, new_: seq<byte>, e: nat, k: nat, v: nat, size: nat) {
    && Agree(mem, new_, 0, e)
    && Agree(mem, new_, e + k, v)
    && Agree(mem, new_, v + size, |mem|)
  }

  /** An entry head and what follows it in the same entry. */
  lemma EntryLaid(mem: seq<byte>, e: nat, head: seq<byte>, tail: seq<byte>)
    requires |head| == 8 && |tail| <= 4 && e + 12 <= |mem|
    ensures var r := Splice(Splice(mem, e, head), e + 8, tail);
      At(r, e, head) && At(r, e + 8, tail) && Agree(mem, r, 0, e) && Agree(mem, r, e + 12, |mem|)
  {
    var m1 := Splice(mem, e, head);
    SpliceAt(mem, e, head);
    AtStable(m1, Splice(m1, e + 8, tail), e, head);
    SpliceAt(m1, e + 8, tail);
  }

  lemma PointerStable(mem: seq<byte>, new_: seq<byte>, e: nat, head: seq<byte>, tail: seq<byte>)
    requires |head| == 8 && |tail| <= 4 && At(mem, e, head) && At(mem, e + 8, tail)
    requires Agree(mem, new_, e, e + 12)
    ensures At(new_, e, head) && At(new_, e + 8, tail)
  {
    AtStable(mem, new_, e, head);
    AtStable(mem, new_, e + 8, tail);
  }

  lemma PutInlineLaid(c: Cursor, base: nat, f: Field)
    requires c.ifd + 12 <= c.val <= |c.mem|
    requires f.Plain? && |f.data| <= 4
    ensures var r := PutField(c, base, f);
      && LaidField(r.mem, base, c.ifd, c.val, f)
      && OnlyWrote(c.mem, r.mem, c.ifd, 12, c.val, 0)
  {
    hide EntryHead, Splice;
    EntryLaid(c.mem, c.ifd, EntryHead(f.tag, f.typ, f.count), f.data);
  }

  lemma PutOutOfLineLaid(c: Cursor, base: nat, f: Field)
    requires f.Plain? && |f.data| > 4
    requires c.ifd + 12 <= c.val && c.val + |f.data| <= |c.mem|
    ensures var r := PutField(c, base, f);
      && LaidField(r.mem, base, c.ifd, c.val, f)
      && OnlyWrote(c.mem, r.mem, c.ifd, 12, c.val, |f.data|)
  {
    hide EntryHead, LE32, U32, Splice;
    var head, off := EntryHead(f.tag, f.typ, f.count), LE32(U32(c.val - base));
    var p := PutPointer(c, base, f.tag, f.typ, f.count);
    EntryLaid(c.mem, c.ifd, head, off);
    PointerStable(p.mem, Splice(p.mem, c.val, f.data), c.ifd, head, off);
    SpliceAt(p.mem, c.val, f.data);
  }

  lemma PutPointerVal(c: Cursor, base: nat, tag: u16)
    ensures var p := PutPointer(c, base, tag, TYPE_LONG, 1); p.val == c.val && |p.mem| == |c.mem|
  {
  }

  lemma PutSubLaid(c: Cursor, base: nat, f: Field)
    requires c.ifd + 12 <= c.val && c.val + OutSize(f) <= |c.mem|
    requires f.SubIfd?
    requires var p := PutPointer(c, base, f.tag, TYPE_LONG, 1);
      var sub := PutIfd(p.mem, base, c.val, f.fields, false);
      && LaidIfd(sub.mem, base, c.val, f.fields, 0)
      && Agree(p.mem, sub.mem, 0, c.val) && Agree(p.mem, sub.mem, c.val + OutSize(f), |p.mem|)
    ensures var r := PutField(c, base, f);
      && LaidField(r.mem, base, c.ifd, c.val, f)
      && OnlyWrote(c.mem, r.mem, c.ifd, 12, c.val, OutSize(f))
  {
    hide EntryHead, LE32, U32, PutIfd, LaidIfd, Splice, IfdSize;
    var head, off := EntryHead(f.tag, TYPE_LONG, 1), LE32(U32(c.val - base));
    var p := PutPointer(c, base, f.tag, TYPE_LONG, 1);
    EntryLaid(c.mem, c.ifd, head, off);
    PointerStable(p.mem, PutIfd(p.mem, base, p.val, f.fields, false).mem, c.ifd, head, off);
  }

  lemma {:induction false} PutFieldLaid(c: Cursor, base: nat, f: Field)
    requires c.ifd + 12 <= c.val && c.val + OutSize(f) <= |c.mem|
    requires EncodableField(f)
    ensures var r := PutField(c, base, f);
      && LaidField(r.mem, base, c.ifd, c.val, f)
      && OnlyWrote(c.mem, r.mem, c.ifd, 12, c.val, OutSize(f))
    decreases f, 3
  {
    if f.Plain? {
      if |f.data| > 4 {
        PutOutOfLineLaid(c, base, f);
      } else {
        PutInlineLaid(c, base, f);
      }
    } else {
      hide PutIfd, LaidIfd, LaidField, PutField, PutPointer;
      var p := PutPointer(c, base, f.tag, TYPE_LONG, 1);
      assert p.val == c.val && |p.mem| == |c.mem| by { PutPointerVal(c, base, f.tag); }
      PutIfdLaid(p.mem, base, c.val, f.fields, false);
      PutSubLaid(c, base, f);
    }
  }

  /** One more entry and its value, after those already there. */
  lemma LaidSnoc(m0: seq<byte>, m1: seq<byte>, m2: seq<byte>, base: nat, e: nat, v: nat, fs: seq<Field>)
    requires fs != [] && e + 12 * |fs| <= v
    requires var n := |fs| - 1;
      && Laid(m1, base, e, v, fs[..n])
      && LaidField(m2, base, e + 12 * n, v + ValSize(fs[..n]), fs[n])
      && OnlyWrote(m0, m1, e, 12 * n, v, ValSize(fs[..n]))
      && OnlyWrote(m1, m2, e + 12 * n, 12, v + ValSize(fs[..n]), OutSize(fs[n]))
    ensures Laid(m2, base, e, v, fs)
    ensures OnlyWrote(m0, m2, e, 12 * |fs|, v, ValSize(fs))
  {
    hide LaidField, OutSize;
    LaidStable(m1, m2, base, e, v, fs[..|fs| - 1]);
  }

  lemma {:induction false} PutFieldsLaid(c: Cursor, base: nat, fs: seq<Field>)
    requires c.ifd + 12 * |fs| <= c.val && c.val + ValSize(fs) <= |c.mem|
    requires Encodable(fs)
    ensures var r := PutFields(c, base, fs);
      && Laid(r.mem, base, c.ifd, c.val, fs)
      && OnlyWrote(c.mem, r.mem, c.ifd, 12 * |fs|, c.val, ValSize(fs))
    decreases fs, 0
  {
    hide PutField, LaidField, OutSize;
    if fs != [] {
      var n := |fs| - 1;
      var q := PutFields(c, base, fs[..n]);
      PutFieldsLaid(c, base, fs[..n]);
      PutFieldLaid(q, base, fs[n]);
      LaidSnoc(c.mem, q.mem, PutFields(c, base, fs).mem, base, c.ifd, c.val, fs);
    }
  }

  lemma {:induction false} PutIfdLaid(mem: seq<byte>, base: nat, at: nat, fs: seq<Field>, chained: bool)
    requires at + IfdSize(fs) <= |mem|
    requires |fs| < 0x1_0000 && Encodable(fs)
    ensures var r := PutIfd(mem, base, at, fs, chained);
      && LaidIfd(r.mem, base, at, fs, if chained then U32(at + IfdSize(fs) - base) else 0)
      && Agree(mem, r.mem, 0, at) && Agree(mem, r.mem, at + IfdSize(fs), |mem|)
    decreases fs, 1
  {
    hide PutFields, Laid, CloseIfd, LaidIfd;
    var c := OpenIfd(mem, at, |fs|);
    PutFieldsLaid(c, base, fs);
    CloseIfdLaid(mem, c.mem, PutFields(c, base, fs), base, at, fs, chained);
  }

  lemma CloseIfdLaid(mem: seq<byte>, m0: seq<byte>, q: Cursor, base: nat, at: nat, fs: seq<Field>, chained: bool)
    requires |fs| < 0x1_0000 && q.ifd == at + 2 + 12 * |fs| && q.val == at + IfdSize(fs) <= |mem|
    requires m0 == Splice(mem, at, LE16(|fs|))
    requires Laid(q.mem, base, at + 2, at + 6 + 12 * |fs|, fs)
    requires OnlyWrote(m0, q.mem, at + 2, 12 * |fs|, at + 6 + 12 * |fs|, ValSize(fs))
    ensures var r := CloseIfd(q, base, chained);
      && LaidIfd(r.mem, base, at, fs, if chained then U32(q.val - base) else 0)
      && Agree(mem, r.mem, 0, at) && Agree(mem, r.mem, at + IfdSize(fs), |mem|)
  {
    var r := CloseIfd(q, base, chained);
    hide Laid, ValSize, LE16, LE32;
    SpliceAt(mem, at, LE16(|fs|));
    AtStable(m0, r.mem, at, LE16(|fs|));
    LaidStable(q.mem, r.mem, base, at + 2, at + 6 + 12 * |fs|, fs);
    SpliceAt(q.mem, q.ifd, LE32(if chained then U32(q.val - base) else 0));
  }

  lemma IfdWrittenLaid(mem: seq<byte>, base: nat, at: nat, fs: seq<Field>, chained: bool)
    requires at + IfdSize(fs) <= |mem| && |fs| < 0x1_0000 && Encodable(fs)
    ensures var r := IfdWritten(mem, base, at, fs, chained);
      && LaidIfd(r, base, at, fs, if chained then U32(at + IfdSize(fs) - base) else 0)
      && Agree(mem, r, 0, at) && Agree(mem, r, at + IfdSize(fs), |mem|)
  {
    hide LaidIfd;
    PutIfdLaid(mem, base, at, fs, chained);
  }
}
