/** Modified UTF-8 to UTF-16 (strdup8to16.cpp). */
module Utf8to16 {
  import opened Bytes
  import opened Wrappers

  const REPLACEMENT: u16 := 0xFFFD
  const UNICODE_UPPER_LIMIT := 0x10FFFD
  const SIZE_MAX := 0xFFFF_FFFF_FFFF_FFFF

  /** Bytes of the form 10xxxxxx. */
  predicate IsExtension(b: byte) {
    b / 0x40 == 2
  }

  /** UTF8_SEQ_LENGTH: two bits of 0xe5000000 for each upper half of the lead byte. */
  function SequenceLength(lead: byte): (n: nat)
    ensures 1 <= n <= 4
  {
    0xE500_0000 / Power4(lead / 0x10) % 4 + 1
  }

  function Power4(n: nat): (p: nat)
    ensures p > 0
  {
    if n == 0 then 1 else 4 * Power4(n - 1)
  }

  lemma SequenceLengths(lead: byte)
    ensures SequenceLength(lead)
         == if lead < 0xC0 then 1 else if lead < 0xE0 then 2 else if lead < 0xF0 then 3 else 4
  {
    var n := lead / 0x10;
    Powers(n);
  }

  lemma Powers(n: nat)
    requires n < 0x10
    ensures 0xE500_0000 / Power4(n) % 4 == if n < 12 then 0 else if n < 14 then 1 else if n < 15 then 2 else 3
  {
    assert Power4(1) == 4 && Power4(2) == 16 && Power4(3) == 64;
    assert Power4(4) == 256 && Power4(5) == 1024 && Power4(6) == 4096;
    assert Power4(7) == 0x4000 && Power4(8) == 0x1_0000 && Power4(9) == 0x4_0000;
    assert Power4(10) == 0x10_0000 && Power4(11) == 0x40_0000 && Power4(12) == 0x100_0000;
    assert Power4(13) == 0x400_0000 && Power4(14) == 0x1000_0000 && Power4(15) == 0x4000_0000;
  }

  /** A C string's bytes in front of its terminator. */
  function Content(s: seq<byte>): (c: seq<byte>)
    requires 0 in s
    ensures |c| < |s| && c == s[..|c|] && 0 !in c && s[|c|] == 0
  {
    if s[0] == 0 then []
    else
      assert 0 in s[1..];
      var c := [s[0]] + Content(s[1..]);
      assert c == s[..|c|];
      c
  }

  // ----- The length in advance --------------------------------------------------------------

  /** strlen8to16 from one byte on; `expected` is how many extension bytes are still to come. */
  function Length(c: seq<byte>, expected: int): nat {
    if c == [] then 0
    else if IsExtension(c[0]) then (if expected - 1 < 0 then 1 else 0) + Length(c[1..], expected - 1)
    else (if SequenceLength(c[0]) == 4 then 2 else 1) + Length(c[1..], SequenceLength(c[0]) - 1)
  }

  method Strlen8to16(s: seq<byte>) returns (len: nat)
    requires 0 in s
    ensures len == Length(Content(s), 0)
  {
    ghost var c := Content(s);
    len := 0;
    var p, expected := 0, 0;
    while s[p] != 0
      invariant 0 <= p <= |c| && len + Length(c[p..], expected) == Length(c, 0)
      decreases |c| - p
    {
      assert c[p..][1..] == c[p + 1..];
      var ic := s[p];
      p := p + 1;
      if IsExtension(ic) {
        expected := expected - 1;
        if expected < 0 {
          len := len + 1;
        }
      } else {
        len := len + 1;
        expected := SequenceLength(ic) - 1;
        if expected == 3 {
          len := len + 1;
        }
      }
    }
  }

  // ----- Decoding --------------------------------------------------------------------------------

  /** A code point and the number of bytes it was read from. */
  datatype Decoded = Decoded(point: nat, size: nat)

  /** The bits of a lead byte of a sequence of `n` bytes. */
  function LeadBits(lead: byte, n: nat): nat {
    if n == 1 then lead else if n == 2 then lead % 0x20 else if n == 3 then lead % 0x10 else lead % 8
  }

  /** The extension bytes from `i` on, up to a sequence of `n` bytes. */
  function Extended(c: seq<byte>, i: nat, n: nat, point: nat): (d: Decoded)
    requires i <= |c| && i <= n
    ensures i <= d.size <= n && d.size <= |c|
    decreases n - i
  {
    if i == n then Decoded(point, i)
    else if i == |c| || !IsExtension(c[i]) then Decoded(REPLACEMENT, i)
    else Extended(c, i + 1, n, point * 0x40 + c[i] % 0x40)
  }

  /** getUtf32FromUtf8 */
  function Next(c: seq<byte>): (d: Decoded)
    requires c != []
    ensures 1 <= d.size <= |c|
  {
    if IsExtension(c[0]) then Decoded(REPLACEMENT, 1)
    else Extended(c, 1, SequenceLength(c[0]), LeadBits(c[0], SequenceLength(c[0])))
  }

  /** One code point in UTF-16. */
  function Units(point: nat): (u: seq<u16>)
    ensures 1 <= |u| <= 2 && (|u| == 2 <==> 0x1_0000 <= point <= UNICODE_UPPER_LIMIT)
  {
    if point <= 0xFFFF then [point]
    else if point <= UNICODE_UPPER_LIMIT then
      [0xD800 + (point - 0x1_0000) / 0x400, 0xDC00 + (point - 0x1_0000) % 0x400]
    else [REPLACEMENT]
  }

  /** What strcpy8to16 writes. */
  function Decode(c: seq<byte>): seq<u16> {
    if c == [] then [] else Units(Next(c).point) + Decode(c[Next(c).size..])
  }

  method GetUtf32FromUtf8(s: seq<byte>, at: nat) returns (point: nat, next: nat)
    requires 0 in s && at < |Content(s)|
    ensures at < next <= |Content(s)| && Next(Content(s)[at..]) == Decoded(point, next - at)
  {
    hide SequenceLength, LeadBits, Content, Extended, Next;
    ghost var c := Content(s);
    ghost var rest := c[at..];
    assert forall k | 0 <= k < |rest| :: rest[k] == s[at + k];
    NextSteps(rest);
    if IsExtension(s[at]) {
      return REPLACEMENT, at + 1;
    }
    var n := SequenceLength(s[at]);
    point := LeadBits(s[at], n);
    next := at + 1;
    var i := 1;
    while i < n
      invariant 1 <= i <= n && next == at + i <= |c|
      invariant Next(rest) == Extended(rest, i, n, point)
    {
      ExtendedSteps(rest, i, n, point);
      if s[next] == 0 {
        return REPLACEMENT, next;
      }
      if !IsExtension(s[next]) {
        return REPLACEMENT, next;
      }
      point := point * 0x40 + s[next] % 0x40;
      i := i + 1;
      next := next + 1;
    }
    ExtendedSteps(rest, i, n, point);
  }

  lemma NextSteps(c: seq<byte>)
    requires c != []
    ensures Next(c)
         == if IsExtension(c[0]) then Decoded(REPLACEMENT, 1)
            else Extended(c, 1, SequenceLength(c[0]), LeadBits(c[0], SequenceLength(c[0])))
  {
  }

  lemma ExtendedSteps(c: seq<byte>, i: nat, n: nat, point: nat)
    requires i <= |c| && i <= n
    ensures Extended(c, i, n, point)
         == if i == n then Decoded(point, i)
            else if i == |c| || !IsExtension(c[i]) then Decoded(REPLACEMENT, i)
            else Extended(c, i + 1, n, point * 0x40 + c[i] % 0x40)
  {
  }

  /** strcpy8to16, into a buffer of the size that strlen8to16 says. */
  method Strcpy8to16(dest: array<u16>, s: seq<byte>) returns (len: nat)
    requires 0 in s && Length(Content(s), 0) <= dest.Length
    modifies dest
    ensures len == |Decode(Content(s))| <= dest.Length
    ensures dest[..len] == Decode(Content(s)) && dest[len..] == old(dest[len..])
  {
    hide Next, Units, Content, Length, Decode;
    ghost var c := Content(s);
    DecodedFits(c);
    DecodeEnds();
    len := 0;
    var p: nat := 0;
    while s[p] != 0
      invariant p <= |c| && len <= |Decode(c)| && |Decode(c)| <= dest.Length
      invariant dest[..len] + Decode(c[p..]) == Decode(c) && dest[len..] == old(dest[len..])
      decreases |c| - p
    {
      var point, next := GetUtf32FromUtf8(s, p);
      assert c[p..][next - p..] == c[next..];
      ghost var before := dest[..len];
      var units := Units(point);
      DecodeSteps(c[p..]);
      assert Decode(c[p..]) == units + Decode(c[next..]);
      StoreUnits(dest, len, units);
      assert dest[..len + |units|] == before + units;
      assert before + (units + Decode(c[next..])) == (before + units) + Decode(c[next..]);
      len := len + |units|;
      p := next;
    }
    assert c[p..] == [];
  }

  lemma DecodeSteps(c: seq<byte>)
    requires c != []
    ensures Decode(c) == Units(Next(c).point) + Decode(c[Next(c).size..])
  {
  }

  lemma DecodeEnds()
    ensures Decode([]) == []
  {
  }

  method StoreUnits(dest: array<u16>, at: nat, units: seq<u16>)
    requires at + |units| <= dest.Length
    modifies dest
    ensures dest[..at] == old(dest[..at]) && dest[at..at + |units|] == units
    ensures dest[at + |units|..] == old(dest[at + |units|..])
  {
    forall i | 0 <= i < |units| {
      dest[at + i] := units[i];
    }
  }

  // ----- How many units ------------------------------------------------------------------------------

  /** Extension bytes that are expected are not counted. */
  lemma {:induction false} LengthSkips(c: seq<byte>, expected: int, m: nat)
    requires m <= |c| && m <= expected && forall k | 0 <= k < m :: IsExtension(c[k])
    ensures Length(c, expected) == Length(c[m..], expected - m)
    decreases m
  {
    if m == 0 {
      assert c[0..] == c;
    } else {
      LengthSkips(c[1..], expected - 1, m - 1);
      assert c[1..][m - 1..] == c[m..];
    }
  }

  /** What a sequence consists of. */
  lemma {:induction false} ExtendedBytes(c: seq<byte>, i: nat, n: nat, point: nat)
    requires i <= |c| && i <= n
    ensures var d := Extended(c, i, n, point);
      && (forall k | i <= k < d.size :: IsExtension(c[k]))
      && (d.size < n ==> d.point == REPLACEMENT && (d.size == |c| || !IsExtension(c[d.size])))
    decreases n - i
  {
    if i < n && i < |c| && IsExtension(c[i]) {
      ExtendedBytes(c, i + 1, n, point * 0x40 + c[i] % 0x40);
    }
  }

  lemma LengthLead(c: seq<byte>)
    requires c != [] && !IsExtension(c[0])
    ensures Length(c, 0) == (if SequenceLength(c[0]) == 4 then 2 else 1) + Length(c[1..], SequenceLength(c[0]) - 1)
  {
  }

  /** The length counts a sequence with its lead, and then starts afresh. */
  lemma LengthOfSequence(c: seq<byte>)
    requires c != [] && !IsExtension(c[0])
    ensures var n, d := SequenceLength(c[0]), Next(c);
      Length(c, 0) == (if n == 4 then 2 else 1) + Length(c[d.size..], n - d.size)
      && (d.size < n ==> d.size == |c| || !IsExtension(c[d.size]))
  {
    hide SequenceLength, LeadBits, Extended, Length;
    var n, d := SequenceLength(c[0]), Next(c);
    LengthLead(c);
    ExtendedBytes(c, 1, n, LeadBits(c[0], n));
    assert forall k | 0 <= k < d.size - 1 :: c[1..][k] == c[k + 1];
    LengthSkips(c[1..], n - 1, d.size - 1);
    assert c[1..][d.size - 1..] == c[d.size..];
  }

  /** Where a new character starts, what was expected before makes no difference. */
  lemma LengthAfresh(c: seq<byte>, expected: int)
    requires expected > 0 ==> c == [] || !IsExtension(c[0])
    ensures expected <= 0 || Length(c, expected) == Length(c, 0)
  {
  }

  lemma {:induction false} LengthOverdue(c: seq<byte>, expected: int)
    requires expected <= 0
    ensures Length(c, expected) == Length(c, 0)
    decreases |c|
  {
    if c != [] && IsExtension(c[0]) {
      LengthOverdue(c[1..], expected - 1);
      LengthOverdue(c[1..], -1);
    }
  }

  lemma LengthExtension(c: seq<byte>)
    requires c != [] && IsExtension(c[0])
    ensures Length(c, 0) == 1 + Length(c[1..], -1)
  {
  }

  /** The length is that of the sequences one after the other. */
  lemma LengthSteps(c: seq<byte>)
    requires c != []
    ensures Length(c, 0) == (if SequenceLength(c[0]) == 4 then 2 else 1) + Length(c[Next(c).size..], 0)
  {
    hide SequenceLength, Extended, Length;
    if IsExtension(c[0]) {
      LengthExtension(c);
      SequenceLengths(c[0]);
      LengthOverdue(c[1..], -1);
    } else {
      LengthOfSequence(c);
      var n, d := SequenceLength(c[0]), Next(c);
      if d.size < n {
        LengthAfresh(c[d.size..], n - d.size);
      }
    }
  }

  /** Three bytes or fewer make at most 16 bits. */
  lemma ShortPoint(c: seq<byte>)
    requires c != [] && SequenceLength(c[0]) < 4
    ensures Next(c).point <= 0xFFFF
  {
    SequenceLengths(c[0]);
    var n := SequenceLength(c[0]);
    if !IsExtension(c[0]) && n > 1 {
      ExtendedBound(c, 1, n, LeadBits(c[0], n), if n == 2 then 0x20 else 0x10);
    }
  }

  lemma {:induction false} ExtendedBound(c: seq<byte>, i: nat, n: nat, point: nat, bound: nat)
    requires i <= |c| && i <= n && n - i <= 2 && point < bound
    ensures Extended(c, i, n, point).point < (if n - i == 2 then bound * 0x1000 else if n - i == 1 then bound * 0x40 else bound)
         || Extended(c, i, n, point).point == REPLACEMENT
    decreases n - i
  {
    if i < n && i < |c| && IsExtension(c[i]) {
      ExtendedBound(c, i + 1, n, point * 0x40 + c[i] % 0x40, bound * 0x40);
    }
  }

  /** Every four-byte sequence is complete and decodes to a code point with two units. */
  predicate FourBytesGood(c: seq<byte>) {
    c == []
    || ((SequenceLength(c[0]) == 4 ==> Next(c).size == 4 && 0x1_0000 <= Next(c).point <= UNICODE_UPPER_LIMIT)
        && FourBytesGood(c[Next(c).size..]))
  }

  /** strcpy8to16 never writes more units than strlen8to16 says, and exactly so many when
      and only when the four-byte sequences are in order. */
  lemma {:induction false} DecodedLength(c: seq<byte>)
    ensures |Decode(c)| <= Length(c, 0)
    ensures |Decode(c)| == Length(c, 0) <==> FourBytesGood(c)
    decreases |c|
  {
    hide Length, SequenceLength, Extended;
    if c == [] {
      LengthEmpty();
    } else {
      var d := Next(c);
      LengthSteps(c);
      DecodedLength(c[d.size..]);
      if SequenceLength(c[0]) < 4 {
        ShortPoint(c);
      } else {
        SequenceLengths(c[0]);
        IncompletePoint(c);
      }
    }
  }

  lemma LengthEmpty()
    ensures Length([], 0) == 0
  {
  }

  lemma IncompletePoint(c: seq<byte>)
    requires c != [] && !IsExtension(c[0]) && SequenceLength(c[0]) == 4
    ensures Next(c).size < 4 ==> Next(c).point == REPLACEMENT
  {
    hide SequenceLength;
    ExtendedBytes(c, 1, 4, LeadBits(c[0], 4));
  }

  // ----- What is decoded, by RFC 3629 and RFC 2781 ------------------------------------------------

  /** A high and a low surrogate for a code point behind the basic plane (RFC 2781 section 2.1). */
  predicate IsPair(u: seq<u16>, point: nat) {
    && |u| == 2 && 0xD800 <= u[0] <= 0xDBFF && 0xDC00 <= u[1] <= 0xDFFF
    && 0x1_0000 + (u[0] as int - 0xD800) * 0x400 + (u[1] as int - 0xDC00) == point
  }

  /** Units for a code point, the replacement character for one behind the last. */
  predicate StandsFor(u: seq<u16>, point: nat) {
    if point <= 0xFFFF then u == [point] else if point <= 0x10_FFFD then IsPair(u, point) else u == [0xFFFD]
  }

  lemma {:induction false} UnitsStand(point: nat)
    ensures StandsFor(Units(point), point)
  {
    if 0x1_0000 <= point <= 0x10_FFFD {
      var v := point - 0x1_0000;
      assert v == v / 0x400 * 0x400 + v % 0x400;
    }
  }

  predicate IsTail(b: byte) {
    0x80 <= b <= 0xBF
  }

  /** The bytes whose bits make up a code point (RFC 3629 section 3); lead bytes from 0xF8 on count
      like those eight below. */
  predicate Spells(c: seq<byte>, point: nat) {
    || (|c| == 1 && c[0] <= 0x7F && point == c[0])
    || (|c| == 2 && 0xC0 <= c[0] <= 0xDF && IsTail(c[1]) && point == (c[0] as int - 0xC0) * 0x40 + (c[1] as int - 0x80))
    || (|c| == 3 && 0xE0 <= c[0] <= 0xEF && IsTail(c[1]) && IsTail(c[2])
        && point == (c[0] as int - 0xE0) * 0x1000 + (c[1] as int - 0x80) * 0x40 + (c[2] as int - 0x80))
    || (|c| == 4 && 0xF0 <= c[0] && IsTail(c[1]) && IsTail(c[2]) && IsTail(c[3])
        && point == (if c[0] <= 0xF7 then c[0] as int - 0xF0 else c[0] as int - 0xF8) * 0x4_0000
                    + (c[1] as int - 0x80) * 0x1000 + (c[2] as int - 0x80) * 0x40 + (c[3] as int - 0x80))
  }

  /** A tail byte without a lead, or a lead with fewer tail bytes than it asks for and none behind them. */
  predicate Malformed(c: seq<byte>, rest: seq<byte>) {
    || (|c| == 1 && IsTail(c[0]))
    || (c != [] && 0xC0 <= c[0] && |c| < (if c[0] <= 0xDF then 2 else if c[0] <= 0xEF then 3 else 4)
        && (forall k | 0 < k < |c| :: IsTail(c[k])) && (rest == [] || !IsTail(rest[0])))
  }

  lemma TailBits(b: byte)
    ensures IsTail(b) <==> IsExtension(b)
    ensures IsTail(b) ==> b % 0x40 == b - 0x80
  {
  }

  lemma LeadValue(b: byte)
    ensures LeadBits(b, SequenceLength(b))
         == if b <= 0xBF then b else if b <= 0xDF then b - 0xC0 else if b <= 0xEF then b - 0xE0
            else if b <= 0xF7 then b - 0xF0 else b - 0xF8
  {
    hide SequenceLength;
    SequenceLengths(b);
  }

  /** The tail bytes one after the other. */
  lemma NextTails(c: seq<byte>)
    requires c != [] && !IsTail(c[0])
    ensures var n, v := SequenceLength(c[0]), LeadBits(c[0], SequenceLength(c[0]));
      && (n == 1 ==> Next(c) == Decoded(v, 1))
      && (n > 1 && (|c| == 1 || !IsTail(c[1])) ==> Next(c) == Decoded(0xFFFD, 1))
      && (n > 1 && |c| > 1 && IsTail(c[1]) ==>
            var v1 := v * 0x40 + (c[1] - 0x80);
            && (n == 2 ==> Next(c) == Decoded(v1, 2))
            && (n > 2 && (|c| == 2 || !IsTail(c[2])) ==> Next(c) == Decoded(0xFFFD, 2))
            && (n > 2 && |c| > 2 && IsTail(c[2]) ==>
                  var v2 := v1 * 0x40 + (c[2] - 0x80);
                  && (n == 3 ==> Next(c) == Decoded(v2, 3))
                  && (n > 3 && (|c| == 3 || !IsTail(c[3])) ==> Next(c) == Decoded(0xFFFD, 3))
                  && (n > 3 && |c| > 3 && IsTail(c[3]) ==> Next(c) == Decoded(v2 * 0x40 + (c[3] - 0x80), 4))))
  {
    hide SequenceLength, LeadBits, IsExtension, IsTail, Extended, Next;
    var n, v := SequenceLength(c[0]), LeadBits(c[0], SequenceLength(c[0]));
    TailBits(c[0]);
    NextSteps(c);
    ExtendedSteps(c, 1, n, v);
    if n > 1 && |c| > 1 {
      TailBits(c[1]);
      if IsTail(c[1]) {
        var v1 := v * 0x40 + (c[1] - 0x80);
        ExtendedSteps(c, 2, n, v1);
        if n > 2 && |c| > 2 {
          TailBits(c[2]);
          if IsTail(c[2]) {
            var v2 := v1 * 0x40 + (c[2] - 0x80);
            ExtendedSteps(c, 3, n, v2);
            if n > 3 && |c| > 3 {
              TailBits(c[3]);
              if IsTail(c[3]) {
                ExtendedSteps(c, 4, n, v2 * 0x40 + (c[3] - 0x80));
              }
            }
          }
        }
      }
    }
  }

  /** Bytes that spell a code point decode to units that stand for it, whatever follows. */
  lemma {:induction false} SpellingDecoded(c: seq<byte>, rest: seq<byte>, point: nat)
    requires Spells(c, point)
    ensures var r := Decode(c + rest);
      var k := if 0x1_0000 <= point <= 0x10_FFFD then 2 else 1;
      k <= |r| && StandsFor(r[..k], point) && r[k..] == Decode(rest)
  {
    hide Next, SequenceLength, LeadBits, Units;
    var all := c + rest;
    NextTails(all);
    LeadValue(c[0]);
    SequenceLengths(c[0]);
    assert Next(all) == Decoded(point, |c|);
    assert all[|c|..] == rest;
    DecodeSteps(all);
    UnitsStand(point);
  }

  /** Whatever is malformed decodes to one replacement character, and the next character starts behind it. */
  lemma {:induction false} MalformedDecoded(c: seq<byte>, rest: seq<byte>)
    requires Malformed(c, rest)
    ensures Decode(c + rest) == [0xFFFD] + Decode(rest)
  {
    hide Next, SequenceLength, LeadBits, Units;
    var all := c + rest;
    NextSteps(all);
    TailBits(c[0]);
    if !IsTail(c[0]) {
      NextTails(all);
      SequenceLengths(c[0]);
    }
    assert Next(all) == Decoded(0xFFFD, |c|);
    assert all[|c|..] == rest;
    DecodeSteps(all);
    UnitsStand(0xFFFD);
  }

  /** Every string that is not empty starts with the one or with the other. */
  lemma {:induction false} SpelledOrMalformed(c: seq<byte>) returns (k: nat, point: nat)
    requires c != []
    ensures 0 < k <= |c| && (Spells(c[..k], point) || Malformed(c[..k], c[k..]))
  {
    k, point := Next(c).size, Next(c).point;
    hide Next, SequenceLength, LeadBits;
    if IsTail(c[0]) {
      k := 1;
    } else {
      NextTails(c);
      LeadValue(c[0]);
      SequenceLengths(c[0]);
    }
  }

  lemma DecodedFits(c: seq<byte>)
    ensures |Decode(c)| <= Length(c, 0)
  {
    DecodedLength(c);
  }

  /**
    strdup8to16: the buffer from malloc, if there is one, and how much of it is written. malloc's
    result is not looked at: when it fails, a string that is not empty is written through NULL.
    */
  method Strdup8to16(s: seq<byte>, mallocFails: bool) returns (ret: array?<u16>, outLen: nat, writesNull: bool)
    requires 0 in s
    ensures ret == null <==> mallocFails || 2 * Length(Content(s), 0) > SIZE_MAX
    ensures writesNull <==> mallocFails && 2 * Length(Content(s), 0) <= SIZE_MAX && s[0] != 0
    ensures ret != null ==>
      && fresh(ret) && ret.Length == Length(Content(s), 0)
      && outLen <= ret.Length && ret[..outLen] == Decode(Content(s))
  {
    hide Length, Decode, Content;
    outLen, writesNull := 0, false;
    var len := Strlen8to16(s);
    if len > 0 && SIZE_MAX / len < 2 {
      return null, 0, false;
    }
    if mallocFails {
      return null, 0, s[0] != 0;
    }
    var buffer := new u16[len];
    outLen := Strcpy8to16(buffer, s);
    return buffer, outLen, false;
  }
}
