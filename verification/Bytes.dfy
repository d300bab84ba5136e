/** Bytes, fixed-width integers and in-place stores, on a little-endian machine. */
module Bytes {

  type byte = x: int | 0 <= x < 0x100
  type u16 = x: int | 0 <= x < 0x1_0000
  type u32 = x: int | 0 <= x < 0x1_0000_0000

  /** Conversion to an unsigned 16-bit or 32-bit integer keeps the low bits. */
  function U16(x: int): u16 {
    x % 0x1_0000
  }

  function U32(x: int): u32 {
    x % 0x1_0000_0000
  }

  function LE16(v: u16): (s: seq<byte>)
    ensures |s| == 2
  {
    [v % 0x100, v / 0x100]
  }

  function LE32(v: u32): (s: seq<byte>)
    ensures |s| == 4
  {
    [v % 0x100, v / 0x100 % 0x100, v / 0x1_0000 % 0x100, v / 0x100_0000]
  }

  function BE16(v: u16): (s: seq<byte>)
    ensures |s| == 2
  {
    [v / 0x100, v % 0x100]
  }

  function FromLE16(s: seq<byte>): u16
    requires |s| == 2
  {
    s[0] as int + 0x100 * s[1] as int
  }

  function FromLE32(s: seq<byte>): u32
    requires |s| == 4
  {
    s[0] as int + 0x100 * s[1] as int + 0x1_0000 * s[2] as int + 0x100_0000 * s[3] as int
  }

  function FromBE16(s: seq<byte>): u16
    requires |s| == 2
  {
    0x100 * s[0] as int + s[1] as int
  }

  /** The big-endian word at `at`, as in a segment's length field. */
  function SegLen(s: seq<byte>, at: nat): u16
    requires at + 2 <= |s|
  {
    FromBE16(s[at..at + 2])
  }

  /** GetSegLen of the writer, GetLength of the parser. */
  method GetSegLen(jpeg: array<byte>, at: nat) returns (len: u16)
    requires at + 2 <= jpeg.Length
    ensures len == SegLen(jpeg[..], at)
  {
    len := jpeg[at] as int * 0x100;
    len := len + jpeg[at + 1] as int;
    assert jpeg[..][at..at + 2] == [jpeg[at], jpeg[at + 1]];
  }

  lemma LE16RoundTrip(v: u16)
    ensures FromLE16(LE16(v)) == v
  {
  }

  lemma LE32RoundTrip(v: u32)
    ensures FromLE32(LE32(v)) == v
  {
    var a, b := v / 0x100, v / 0x1_0000;
    assert b == a / 0x100;
    assert v / 0x100_0000 == b / 0x100;
  }

  lemma BE16RoundTrip(v: u16)
    ensures FromBE16(BE16(v)) == v
  {
  }

  /** Memory after the bytes `d` were stored from index `at` on. */
  function Splice(s: seq<byte>, at: nat, d: seq<byte>): (r: seq<byte>)
    ensures |r| == |s|
    ensures forall i | 0 <= i < |s| :: r[i] == if at <= i < at + |d| then d[i - at] else s[i]
  {
    seq(|s|, i requires 0 <= i < |s| => if at <= i < at + |d| then d[i - at] else s[i])
  }

  /** The bytes `d` lie in memory at index `at`. */
  ghost predicate At(s: seq<byte>, at: nat, d: seq<byte>) {
    at + |d| <= |s| && s[at..at + |d|] == d
  }

  /** Two memories agree on [lo, hi). */
  ghost predicate Agree(s: seq<byte>, t: seq<byte>, lo: int, hi: int) {
    |s| == |t| && forall i | 0 <= i < |s| && lo <= i < hi :: s[i] == t[i]
  }

  lemma AgreeSub(s: seq<byte>, t: seq<byte>, lo: int, hi: int, lo': int, hi': int)
    requires Agree(s, t, lo, hi) && lo <= lo' && (hi' <= hi || |s| <= hi)
    ensures Agree(s, t, lo', hi')
  {
  }

  lemma SpliceAt(s: seq<byte>, at: nat, d: seq<byte>)
    requires at + |d| <= |s|
    ensures At(Splice(s, at, d), at, d)
  {
  }

  /** A store leaves everything in front of it and behind it alone. */
  lemma SpliceAgree(s: seq<byte>, at: nat, d: seq<byte>, lo: int, hi: int)
    requires hi <= at || at + |d| <= lo || hi <= lo
    ensures Agree(s, Splice(s, at, d), lo, hi)
  {
  }

  lemma AtStable(s: seq<byte>, t: seq<byte>, at: nat, d: seq<byte>)
    requires At(s, at, d)
    requires Agree(s, t, at, at + |d|)
    ensures At(t, at, d)
  {
    assert t[at..at + |d|] == s[at..at + |d|];
  }

  /** Two stores that follow each other in memory are one store. */
  lemma SpliceSplice(s: seq<byte>, at: nat, d: seq<byte>, e: seq<byte>)
    ensures Splice(Splice(s, at, d), at + |d|, e) == Splice(s, at, d + e)
  {
  }

  /** The last byte of a store overwritten with a zero. */
  lemma SpliceLast(s: seq<byte>, at: nat, d: seq<byte>)
    requires |d| > 0
    ensures Splice(Splice(s, at, d), at + (|d| - 1), [0]) == Splice(s, at, d[..|d| - 1] + [0])
    ensures d[|d| - 1 := 0] == d[..|d| - 1] + [0]
  {
  }

  /** Stores `d` into `buf` from index `at` on, one byte after the other. */
  method Store(buf: array<byte>, at: nat, d: seq<byte>)
    requires at + |d| <= buf.Length
    modifies buf
    ensures buf[..] == Splice(old(buf[..]), at, d)
  {
    var p := at;
    for k := 0 to |d|
      invariant p == at + k
      invariant forall i | 0 <= i < buf.Length :: buf[i] == if at <= i < p then d[i - at] else old(buf[i])
    {
      buf[p] := d[k];
      p := p + 1;
    }
  }
}
