/** The directory writer of IFDWriter.h, storing through two cursors in place. */
module IfdWriter {
  import opened Bytes
  import opened Tiff

  datatype Rational = Rational(num: u32, den: u32)

  // ----- The bytes of a value, and the entries the writer makes ----------------

  function ShortBytes(vs: seq<u16>): (s: seq<byte>)
    ensures |s| == 2 * |vs|
  {
    if vs == [] then [] else ShortBytes(vs[..|vs| - 1]) + LE16(vs[|vs| - 1])
  }

  function RationalBytes(vs: seq<Rational>): (s: seq<byte>)
    ensures |s| == 8 * |vs|
  {
    if vs == [] then []
    else
      var v := vs[|vs| - 1];
      RationalBytes(vs[..|vs| - 1]) + (LE32(v.num) + LE32(v.den))
  }

  function ByteField(tag: u16, vs: seq<byte>): Field {
    Plain(tag, TYPE_BYTE, U32(|vs|), vs)
  }

  function ShortField(tag: u16, vs: seq<u16>): Field {
    Plain(tag, TYPE_SHORT, U32(|vs|), ShortBytes(vs))
  }

  function LongField(tag: u16, v: u32): Field {
    Plain(tag, TYPE_LONG, 1, LE32(v))
  }

  function RationalField(tag: u16, typ: u16, vs: seq<Rational>): Field {
    Plain(tag, typ, U32(|vs|), RationalBytes(vs))
  }

  function UndefField(tag: u16, vs: seq<byte>): Field {
    Plain(tag, TYPE_UNDEFINED, U32(|vs|), vs)
  }

  /** The first `count` characters, the last of them made a terminator. */
  function AsciiField(tag: u16, vs: seq<byte>, count: u32): Field
    requires 0 < count <= |vs|
  {
    Plain(tag, TYPE_ASCII, count, vs[..count - 1] + [0])
  }

  /** The characters in front of the first zero, at most `limit` of them. */
  function Text(s: seq<byte>, limit: nat): (t: seq<byte>)
    ensures |t| <= limit && t <= s && 0 !in t
    ensures |t| < limit ==> |t| == |s| || s[|t|] == 0
  {
    if s == [] || limit == 0 || s[0] == 0 then [] else [s[0]] + Text(s[1..], limit - 1)
  }

  /** A C string cut to `count - 1` characters and padded with zeros to `count` bytes. */
  function CStringField(tag: u16, s: seq<byte>, count: u32): Field
    requires count > 0
  {
    Plain(tag, TYPE_ASCII, count, Padded(Text(s, count - 1), count))
  }

  function Padded(t: seq<byte>, count: nat): (r: seq<byte>)
    ensures |t| <= count ==> |r| == count
  {
    t + seq(if |t| <= count then count - |t| else 0, _ => 0)
  }

  lemma PaddedTail(t: seq<byte>, count: nat)
    requires |t| <= count
    ensures t + Padded([], count - |t|) == Padded(t, count)
  {
  }

  /** Bytes stored by strncpy: up to the first zero, then zeros up to `count`. */
  lemma StrncpyTerminated(s: seq<byte>, count: nat)
    requires count > 0
    ensures Padded(Text(s, count), count)[count - 1 := 0] == Padded(Text(s, count - 1), count)
  {
    TextPrefix(s, count);
  }

  lemma {:induction false} TextPrefix(s: seq<byte>, limit: nat)
    requires limit > 0
    ensures Text(s, limit - 1) == Text(s, limit)[..if |Text(s, limit)| == limit then limit - 1 else |Text(s, limit)|]
    decreases |s|
  {
    if s != [] && limit > 1 && s[0] != 0 {
      TextPrefix(s[1..], limit - 1);
    }
  }

  // ----- The writer -------------------------------------------------------------

  class CIFDWriter {
    const buf: array<byte>   // the stream buffer; addresses are indices into it
    const base: nat          // m_pBase
    var ifdBase: nat         // m_pIFDBase
    var value: nat           // m_pValue
    var nTags: u32           // m_nTags

    ghost const start: Cursor     // the state after the constructor
    ghost var done: seq<Field>    // the entries written since

    ghost function State(): Cursor
      reads this, buf
    {
      Cursor(buf[..], ifdBase, value, nTags)
    }

    ghost predicate Valid()
      reads this, buf
    {
      State() == PutFields(start, base, done)
    }

    constructor (buf: array<byte>, base: nat, ifdBase: nat, tagCount: u16)
      requires ifdBase + 2 <= buf.Length
      modifies buf
      ensures this.buf == buf && this.base == base && done == []
      ensures Valid() && start == OpenIfd(old(buf[..]), ifdBase, tagCount) && start.tags == tagCount
      ensures this.ifdBase == ifdBase + 2 && value == ifdBase + 6 + FIELD_SIZE * tagCount
    {
      this.buf := buf;
      this.base := base;
      nTags := tagCount;
      value := ifdBase + 2 + FIELD_SIZE * tagCount + 4;
      this.ifdBase := ifdBase + 2;
      start := OpenIfd(buf[..], ifdBase, tagCount);
      done := [];
      new;
      Store(buf, ifdBase, LE16(tagCount));
    }

    function Offset(p: nat): u32 {
      U32(p - base)
    }

    /** Bytes stored through the entry cursor, which moves past them. */
    method StoreEntry(d: seq<byte>)
      requires ifdBase + |d| <= buf.Length
      modifies `ifdBase, buf
      ensures buf[..] == Splice(old(buf[..]), old(ifdBase), d) && ifdBase == old(ifdBase) + |d|
    {
      Store(buf, ifdBase, d);
      ifdBase := ifdBase + |d|;
    }

    /** Bytes stored through the value cursor, which moves past them. */
    method StoreValue(d: seq<byte>)
      requires value + |d| <= buf.Length
      modifies `value, buf
      ensures buf[..] == Splice(old(buf[..]), old(value), d) && value == old(value) + |d|
    {
      Store(buf, value, d);
      value := value + |d|;
    }

    method StoreShorts(vs: seq<u16>)
      requires value + 2 * |vs| <= buf.Length
      modifies `value, buf
      ensures buf[..] == Splice(old(buf[..]), old(value), ShortBytes(vs)) && value == old(value) + 2 * |vs|
    {
      assert buf[..] == Splice(buf[..], value, []);
      for i := 0 to |vs|
        invariant value == old(value) + 2 * i
        invariant buf[..] == Splice(old(buf[..]), old(value), ShortBytes(vs[..i]))
      {
        StoreValue(LE16(vs[i]));
        SpliceSplice(old(buf[..]), old(value), ShortBytes(vs[..i]), LE16(vs[i]));
        assert vs[..i + 1][..i] == vs[..i];
      }
      assert vs[..|vs|] == vs;
    }

    method StoreRationals(vs: seq<Rational>)
      requires value + 8 * |vs| <= buf.Length
      modifies `value, buf
      ensures buf[..] == Splice(old(buf[..]), old(value), RationalBytes(vs)) && value == old(value) + 8 * |vs|
    {
      hide LE32;
      assert buf[..] == Splice(buf[..], value, []);
      for i := 0 to |vs|
        invariant value == old(value) + 8 * i
        invariant buf[..] == Splice(old(buf[..]), old(value), RationalBytes(vs[..i]))
      {
        ghost var m := buf[..];
        StoreValue(LE32(vs[i].num));
        StoreValue(LE32(vs[i].den));
        SpliceSplice(m, old(value) + 8 * i, LE32(vs[i].num), LE32(vs[i].den));
        SpliceSplice(old(buf[..]), old(value), RationalBytes(vs[..i]), LE32(vs[i].num) + LE32(vs[i].den));
        assert vs[..i + 1][..i] == vs[..i];
      }
      assert vs[..|vs|] == vs;
    }

    method WriteTagTypeCount(tag: u16, typ: u16, count: u32)
      requires ifdBase + 8 <= buf.Length
      modifies `ifdBase, `nTags, buf
      ensures buf[..] == Splice(old(buf[..]), old(ifdBase), EntryHead(tag, typ, count))
      ensures ifdBase == old(ifdBase) + 8 && nTags == U32(old(nTags) - 1)
    {
      StoreEntry(LE16(tag));
      StoreEntry(LE16(typ));
      SpliceSplice(old(buf[..]), old(ifdBase), LE16(tag), LE16(typ));
      StoreEntry(LE32(count));
      SpliceSplice(old(buf[..]), old(ifdBase), LE16(tag) + LE16(typ), LE32(count));
      nTags := U32(nTags - 1);
    }

    method WriteOffset(addr: nat)
      requires ifdBase + 4 <= buf.Length
      modifies `ifdBase, buf
      ensures buf[..] == Splice(old(buf[..]), old(ifdBase), LE32(U32(addr - base)))
      ensures ifdBase == old(ifdBase) + 4
    {
      StoreEntry(LE32(Offset(addr)));
    }

    /** An entry that holds its value was just written. */
    ghost method RecordInline(f: Field, c: Cursor)
      requires f.Plain? && |f.data| <= 4
      requires c == PutFields(start, base, done)
      requires buf[..] == Splice(Splice(c.mem, c.ifd, EntryHead(f.tag, f.typ, f.count)), c.ifd + 8, f.data)
      requires ifdBase == c.ifd + 12 && value == c.val && nTags == U32(c.tags - 1)
      modifies `done
      ensures Valid() && done == old(done) + [f]
    {
      hide PutFields, EntryHead, Splice;
      PutFieldsSnoc(start, base, done, f);
      done := done + [f];
    }

    /** An entry that points to its value was just written, and the value too. */
    ghost method RecordOutOfLine(f: Field, c: Cursor)
      requires f.Plain? && |f.data| > 4
      requires c == PutFields(start, base, done)
      requires buf[..] == Splice(Splice(Splice(c.mem, c.ifd, EntryHead(f.tag, f.typ, f.count)),
                                        c.ifd + 8, LE32(U32(c.val - base))), c.val, f.data)
      requires ifdBase == c.ifd + 12 && value == c.val + |f.data| && nTags == U32(c.tags - 1)
      modifies `done
      ensures Valid() && done == old(done) + [f]
    {
      hide PutFields, EntryHead, Splice, LE32;
      PutFieldsSnoc(start, base, done, f);
      done := done + [f];
    }

    method WriteByte(tag: u16, vs: seq<byte>)
      requires Valid() && |vs| < 0x1_0000_0000
      requires ifdBase + 12 <= buf.Length && value + (if |vs| > 4 then |vs| else 0) <= buf.Length
      modifies this, buf
      ensures Valid() && done == old(done) + [ByteField(tag, vs)]
      ensures ifdBase == old(ifdBase) + 12 && value == old(value) + (if |vs| > 4 then |vs| else 0)
    {
      hide PutFields, EntryHead, Splice, LE32;
      ghost var before := State();
      WriteTagTypeCount(tag, TYPE_BYTE, |vs|);
      if |vs| > 4 {
        WriteOffset(value);
        StoreValue(vs);
        RecordOutOfLine(ByteField(tag, vs), before);
      } else {
        StoreEntry(vs);
        ifdBase := ifdBase + (4 - |vs|);
        RecordInline(ByteField(tag, vs), before);
      }
    }

    method WriteShort(tag: u16, vs: seq<u16>)
      requires Valid() && |vs| < 0x1_0000_0000
      requires ifdBase + 12 <= buf.Length && value + (if |vs| > 2 then 2 * |vs| else 0) <= buf.Length
      modifies this, buf
      ensures Valid() && done == old(done) + [ShortField(tag, vs)]
      ensures ifdBase == old(ifdBase) + 12 && value == old(value) + (if |vs| > 2 then 2 * |vs| else 0)
    {
      hide PutFields, EntryHead, Splice, LE32;
      ghost var before := State();
      WriteTagTypeCount(tag, TYPE_SHORT, |vs|);
      if |vs| > 2 {
        WriteOffset(value);
        StoreShorts(vs);
        RecordOutOfLine(ShortField(tag, vs), before);
      } else {
        StoreEntry(ShortBytes(vs));
        ifdBase := ifdBase + (4 - 2 * |vs|);
        RecordInline(ShortField(tag, vs), before);
      }
    }

    method WriteLong(tag: u16, v: u32)
      requires Valid() && ifdBase + 12 <= buf.Length
      modifies this, buf
      ensures Valid() && done == old(done) + [LongField(tag, v)]
      ensures ifdBase == old(ifdBase) + 12 && value == old(value)
    {
      hide PutFields, EntryHead, Splice, LE32;
      ghost var before := State();
      WriteTagTypeCount(tag, TYPE_LONG, 1);
      StoreEntry(LE32(v));
      RecordInline(LongField(tag, v), before);
    }

    method WriteASCII(tag: u16, count: u32, vs: seq<byte>)
      requires Valid() && 0 < count <= |vs|
      requires ifdBase + 12 <= buf.Length && value + (if count > 4 then count else 0) <= buf.Length
      modifies this, buf
      ensures Valid() && done == old(done) + [AsciiField(tag, vs, count)]
      ensures ifdBase == old(ifdBase) + 12 && value == old(value) + (if count > 4 then count else 0)
    {
      hide PutFields, EntryHead, Splice, LE32;
      ghost var before := State();
      WriteTagTypeCount(tag, TYPE_ASCII, count);
      if count > 4 {
        WriteOffset(value);
        ghost var m := buf[..];
        Store(buf, value, vs[..count]);
        Store(buf, value + (count - 1), [0]);
        SpliceLast(m, value, vs[..count]);
        assert vs[..count][..count - 1] == vs[..count - 1];
        value := value + count;
        RecordOutOfLine(AsciiField(tag, vs, count), before);
      } else {
        ghost var m := buf[..];
        StoreEntry(vs[..count]);
        Store(buf, ifdBase - 1, [0]);
        SpliceLast(m, before.ifd + 8, vs[..count]);
        assert vs[..count][..count - 1] == vs[..count - 1];
        ifdBase := ifdBase + (4 - count);
        RecordInline(AsciiField(tag, vs, count), before);
      }
    }

    method WriteCString(tag: u16, count: u32, vs: seq<byte>)
      requires Valid() && count > 0
      requires ifdBase + 12 <= buf.Length && value + (if count > 4 then count else 0) <= buf.Length
      modifies this, buf
      ensures Valid() && done == old(done) + [CStringField(tag, vs, count)]
      ensures ifdBase == old(ifdBase) + 12 && value == old(value) + (if count > 4 then count else 0)
    {
      hide PutFields, EntryHead, Splice, LE32, Text, Padded;
      ghost var before := State();
      WriteTagTypeCount(tag, TYPE_ASCII, count);
      if count > 4 {
        WriteOffset(value);
        ghost var m := buf[..];
        Store(buf, value, Padded(Text(vs, count), count));
        Store(buf, value + (count - 1), [0]);
        SpliceLast(m, value, Padded(Text(vs, count), count));
        StrncpyTerminated(vs, count);
        value := value + count;
        RecordOutOfLine(CStringField(tag, vs, count), before);
      } else {
        ghost var m := buf[..];
        StoreEntry(Text(vs, count - 1));
        StoreEntry(Padded([], count - |Text(vs, count - 1)|));
        SpliceSplice(m, before.ifd + 8, Text(vs, count - 1), Padded([], count - |Text(vs, count - 1)|));
        PaddedTail(Text(vs, count - 1), count);
        ifdBase := ifdBase + (4 - count);
        RecordInline(CStringField(tag, vs, count), before);
      }
    }

    method WriteUndef(tag: u16, vs: seq<byte>)
      requires Valid() && |vs| < 0x1_0000_0000
      requires ifdBase + 12 <= buf.Length && value + (if |vs| > 4 then |vs| else 0) <= buf.Length
      modifies this, buf
      ensures Valid() && done == old(done) + [UndefField(tag, vs)]
      ensures ifdBase == old(ifdBase) + 12 && value == old(value) + (if |vs| > 4 then |vs| else 0)
    {
      hide PutFields, EntryHead, Splice, LE32;
      ghost var before := State();
      WriteTagTypeCount(tag, TYPE_UNDEFINED, |vs|);
      if |vs| > 4 {
        WriteOffset(value);
        StoreValue(vs);
        RecordOutOfLine(UndefField(tag, vs), before);
      } else {
        StoreEntry(vs);
        ifdBase := ifdBase + (4 - |vs|);
        RecordInline(UndefField(tag, vs), before);
      }
    }

    /** WriteRational and WriteSRational store the same bytes under their own types. Without values, the entry
        holds the offset at which they would be. */
    method WriteRational(tag: u16, typ: u16, vs: seq<Rational>)
      requires Valid() && |vs| < 0x1_0000_0000
      requires ifdBase + 12 <= buf.Length && value + 8 * |vs| <= buf.Length
      modifies this, buf
      ensures Valid() && done == old(done) + [if vs == [] then Plain(tag, typ, 0, LE32(Offset(old(value))))
                                              else RationalField(tag, typ, vs)]
      ensures ifdBase == old(ifdBase) + 12 && value == old(value) + 8 * |vs|
    {
      hide PutFields, EntryHead, Splice, LE32, RationalBytes;
      ghost var before := State();
      WriteTagTypeCount(tag, typ, |vs|);
      WriteOffset(value);
      ghost var m := buf[..];
      StoreRationals(vs);
      if vs == [] {
        assert buf[..] == m;
        RecordInline(Plain(tag, typ, 0, LE32(Offset(value))), before);
      } else {
        RecordOutOfLine(RationalField(tag, typ, vs), before);
      }
    }

    // ----- Directories inside directories, and the end of a directory ----------

    method BeginSubIFD(tag: u16) returns (sub: nat)
      requires ifdBase + 12 <= buf.Length
      modifies this, buf
      ensures State() == PutPointer(old(State()), base, tag, TYPE_LONG, 1)
      ensures sub == value && done == old(done)
    {
      hide EntryHead, Splice, LE32;
      WriteTagTypeCount(tag, TYPE_LONG, 1);
      WriteOffset(value);
      return value;
    }

    /** The directory `fields` was written where the pointer of `tag` says. */
    method EndSubIFD(end: nat, ghost c: Cursor, ghost tag: u16, ghost fields: seq<Field>)
      requires c == PutFields(start, base, done)
      requires var p := PutPointer(c, base, tag, TYPE_LONG, 1);
        && buf[..] == IfdWritten(p.mem, base, p.val, fields, false) && end == p.val + IfdSize(fields)
        && ifdBase == p.ifd && nTags == p.tags
      modifies this
      ensures Valid() && done == old(done) + [SubIfd(tag, fields)]
      ensures ifdBase == old(ifdBase) && value == end
    {
      hide PutFields, EntryHead, Splice, LE32;
      value := end;
      PutFieldsSnoc(start, base, done, SubIfd(tag, fields));
      done := done + [SubIfd(tag, fields)];
    }

    /** `left`: the tag counter, of which the source asserts that it is not zero here. */
    method Finish(last: bool) returns (ghost left: u32)
      requires Valid() && ifdBase + 4 <= buf.Length
      modifies this, buf
      ensures State() == CloseIfd(PutFields(start, base, done), base, !last)
      ensures done == old(done) && value == old(value)
      ensures left == old(nTags) && (|done| <= start.tags ==> left == start.tags - |done|)
    {
      hide PutFields;
      left := nTags;
      StoreEntry(LE32(if last then 0 else Offset(value)));
    }
  }
}
