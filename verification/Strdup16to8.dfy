/** UTF-16 to modified UTF-8 (strdup16to8.cpp), and back. */
module Utf16to8 {
  import opened Bytes
  import opened Utf8to16
  import opened Wrappers

  /** One unit in modified UTF-8: zero takes two bytes. */
  function EncodeUnit(u: u16): (b: seq<byte>)
    ensures |b| == UnitSize(u) && 0 !in b
  {
    if u > 0x7FF then [0xE0 + u / 0x1000, 0x80 + u / 0x40 % 0x40, 0x80 + u % 0x40]
    else if u > 0x7F || u == 0 then [0xC0 + u / 0x40, 0x80 + u % 0x40]
    else [u]
  }

  function UnitSize(u: u16): nat {
    if u > 0x7FF then 3 else if u > 0x7F || u == 0 then 2 else 1
  }

  /** What strncpy16to8 writes in front of its terminator. */
  function Encode(us: seq<u16>): (b: seq<byte>)
    ensures |b| == Size(us) && 0 !in b
  {
    if us == [] then [] else Encode(us[..|us| - 1]) + EncodeUnit(us[|us| - 1])
  }

  /** The exact number of bytes. */
  function Size(us: seq<u16>): nat {
    if us == [] then 0 else Size(us[..|us| - 1]) + UnitSize(us[|us| - 1])
  }

  /** The bytes spell the unit, in the fewest bytes, but for zero, which takes two. */
  lemma {:induction false} UnitSpelled(u: u16)
    ensures Spells(EncodeUnit(u), u)
    ensures |EncodeUnit(u)| == if 0 < u <= 0x7F then 1 else if u <= 0x7FF then 2 else 3
  {
    assert u == u / 0x1000 * 0x1000 + u / 0x40 % 0x40 * 0x40 + u % 0x40 by {
      var v := u / 0x40;
      assert u == v * 0x40 + u % 0x40 && v == v / 0x40 * 0x40 + v % 0x40;
    }
  }

  lemma {:induction false} SizeBound(us: seq<u16>)
    ensures Size(us) <= 3 * |us|
  {
    if us != [] {
      SizeBound(us[..|us| - 1]);
    }
  }

  lemma {:induction false} SizePrefix(us: seq<u16>, k: nat)
    requires k <= |us|
    ensures Size(us[..k]) <= Size(us)
    decreases |us|
  {
    if k == |us| {
      assert us[..k] == us;
    } else {
      SizePrefix(us[..|us| - 1], k);
      assert us[..|us| - 1][..k] == us[..k];
    }
  }

  // ----- The length in advance ----------------------------------------------------------------

  /** strnlen16to8: the exact size, or SIZE_MAX - 1 when that is not less. */
  method Strnlen16to8(us: seq<u16>) returns (len: nat)
    requires |us| <= SIZE_MAX
    ensures len == if Size(us) < SIZE_MAX - 1 then Size(us) else SIZE_MAX - 1
  {
    hide UnitSize;
    assert us[..|us|] == us;
    if |us| < (SIZE_MAX - 1) / 3 {
      SizeBound(us);
      len := 0;
      for k := 0 to |us|
        invariant len == Size(us[..k])
      {
        assert us[..k + 1][..k] == us[..k];
        len := AddSize(len, us[k]);
      }
      return len;
    }
    len := 0;
    for k := 0 to |us|
      invariant len == Size(us[..k]) <= SIZE_MAX
    {
      assert us[..k + 1][..k] == us[..k];
      SizePrefix(us, k + 1);
      var before := len;
      len := AddSize(len, us[k]);
      len := len % (SIZE_MAX + 1);
      SizeStep(before, us[k]);
      if len < before {
        return SIZE_MAX - 1;
      }
    }
    if len == SIZE_MAX {
      len := SIZE_MAX - 1;
    }
  }

  /** The size_t addition wraps exactly when the sum is too big. */
  lemma SizeStep(len: nat, u: u16)
    requires len <= SIZE_MAX
    ensures var sum := len + UnitSize(u);
      if sum <= SIZE_MAX then sum % (SIZE_MAX + 1) == sum >= len else sum % (SIZE_MAX + 1) < len
  {
  }

  method AddSize(len: nat, u: u16) returns (sum: nat)
    ensures sum == len + UnitSize(u)
  {
    if u > 0x7FF {
      sum := len + 3;
    } else if u > 0x7F || u == 0 {
      sum := len + 2;
    } else {
      sum := len + 1;
    }
  }

  // ----- The copy ---------------------------------------------------------------------------------

  method Strncpy16to8(dest: array<byte>, us: seq<u16>) returns (end: nat)
    requires Size(us) < dest.Length
    modifies dest
    ensures end == Size(us) && dest[..end + 1] == Encode(us) + [0] && dest[end + 1..] == old(dest[end + 1..])
  {
    hide UnitSize, EncodeUnit, Size, Encode;
    EncodeEmpty();
    end := 0;
    for k := 0 to |us|
      invariant end == Size(us[..k]) <= Size(us) && dest[..end] == Encode(us[..k])
      invariant dest[end..] == old(dest[end..])
    {
      EncodeStep(us, k);
      SizePrefix(us, k + 1);
      SizePrefix(us, k);
      end := StoreUnit(dest, end, us[k]);
    }
    assert us[..|us|] == us;
    ghost var before := dest[..];
    dest[end] := 0;
    Terminated(before, dest[..], end);
    assert before[end + 1..] == old(dest[end + 1..]) by { assert before[end..][1..] == old(dest[end..])[1..]; }
  }

  lemma Terminated(before: seq<byte>, after: seq<byte>, end: nat)
    requires end < |before| && after == before[end := 0]
    ensures after[..end + 1] == before[..end] + [0] && after[end + 1..] == before[end + 1..]
  {
  }

  lemma EncodeEmpty()
    ensures Encode([]) == [] && Size([]) == 0
  {
  }

  lemma EncodeStep(us: seq<u16>, k: nat)
    requires k < |us|
    ensures Encode(us[..k + 1]) == Encode(us[..k]) + EncodeUnit(us[k])
    ensures Size(us[..k + 1]) == Size(us[..k]) + UnitSize(us[k])
  {
    assert us[..k + 1][..k] == us[..k];
  }

  /** One unit; the source's test for a zero in the last branch never succeeds. */
  method StoreUnit(dest: array<byte>, at: nat, u: u16) returns (end: nat)
    requires at + UnitSize(u) <= dest.Length
    modifies dest
    ensures end == at + UnitSize(u) && dest[..end] == old(dest[..at]) + EncodeUnit(u)
    ensures dest[end..] == old(dest[end..])
  {
    end := at;
    if u > 0x7FF {
      dest[end] := 0xE0 + u / 0x1000;
      dest[end + 1] := 0x80 + u / 0x40 % 0x40;
      dest[end + 2] := 0x80 + u % 0x40;
      end := end + 3;
    } else if u > 0x7F || u == 0 {
      dest[end] := 0xC0 + u / 0x40;
      dest[end + 1] := 0x80 + u % 0x40;
      end := end + 2;
    } else {
      dest[end] := u;
      end := end + 1;
    }
  }

  /** strndup16to8: a terminated string, or null when it would be too big. */
  method Strndup16to8(us: seq<u16>, mallocFails: bool) returns (ret: array?<byte>)
    requires |us| <= SIZE_MAX
    ensures ret == null <==> mallocFails || Size(us) >= SIZE_MAX - 1
    ensures ret != null ==> fresh(ret) && ret[..] == Encode(us) + [0]
  {
    hide Size, Encode;
    var len := Strnlen16to8(us);
    if len >= SIZE_MAX - 1 {
      return null;
    }
    if mallocFails {
      return null;
    }
    var buffer := new byte[len + 1];
    var end := Strncpy16to8(buffer, us);
    assert buffer[..] == buffer[..end + 1];
    return buffer;
  }

  // ----- There and back ---------------------------------------------------------------------------------

  lemma ReadOne(c: seq<byte>)
    requires c != [] && c[0] < 0x80
    ensures Next(c) == Decoded(c[0], 1)
  {
    hide SequenceLength;
    SequenceLengths(c[0]);
  }

  lemma ReadTwo(c: seq<byte>, x: nat, y: nat)
    requires |c| >= 2 && x < 0x20 && y < 0x40 && c[0] == 0xC0 + x && c[1] == 0x80 + y
    ensures Next(c) == Decoded(x * 0x40 + y, 2)
  {
    hide SequenceLength;
    SequenceLengths(c[0]);
    assert Extended(c, 1, 2, x) == Extended(c, 2, 2, x * 0x40 + y);
  }

  lemma ReadThree(c: seq<byte>, x: nat, y: nat, z: nat)
    requires |c| >= 3 && x < 0x10 && y < 0x40 && z < 0x40
    requires c[0] == 0xE0 + x && c[1] == 0x80 + y && c[2] == 0x80 + z
    ensures Next(c) == Decoded((x * 0x40 + y) * 0x40 + z, 3)
  {
    hide SequenceLength;
    SequenceLengths(c[0]);
    assert Extended(c, 1, 3, x) == Extended(c, 2, 3, x * 0x40 + y);
    assert Extended(c, 2, 3, x * 0x40 + y) == Extended(c, 3, 3, (x * 0x40 + y) * 0x40 + z);
  }

  /** One unit read back from its bytes, whatever follows. */
  lemma UnitRoundTrip(u: u16, rest: seq<byte>)
    ensures Next(EncodeUnit(u) + rest) == Decoded(u, UnitSize(u))
  {
    hide Next;
    var c := EncodeUnit(u) + rest;
    if u > 0x7FF {
      UnitParts(u);
      ReadThree(c, u / 0x1000, u / 0x40 % 0x40, u % 0x40);
    } else if u > 0x7F || u == 0 {
      ReadTwo(c, u / 0x40, u % 0x40);
    } else {
      ReadOne(c);
    }
  }

  lemma UnitParts(u: u16)
    ensures (u / 0x1000 * 0x40 + u / 0x40 % 0x40) * 0x40 + u % 0x40 == u
  {
    assert u / 0x1000 == u / 0x40 / 0x40;
  }

  /** Encoding starts with the first unit as well as it ends with the last. */
  lemma {:induction false} EncodeFirst(us: seq<u16>)
    requires us != []
    ensures Encode(us) == EncodeUnit(us[0]) + Encode(us[1..])
    decreases |us|
  {
    hide EncodeUnit, Encode;
    var n := |us| - 1;
    EncodeEmpty();
    EncodeStep(us, n);
    assert us[..n + 1] == us;
    if n == 0 {
      assert us[..0] == [] && us[1..] == [];
    } else {
      EncodeFirst(us[..n]);
      EncodeStep(us[1..], n - 1);
      assert us[..n][1..] == us[1..][..n - 1] && us[1..][..n] == us[1..];
    }
  }

  /** Decoding the encoded units gives them back: zeros and lone surrogates included. */
  lemma {:induction false} RoundTrip(us: seq<u16>)
    ensures Decode(Encode(us)) == us
    decreases |us|
  {
    hide EncodeUnit, Next, Encode, Decode;
    if us == [] {
      EncodeEmpty();
      DecodeEnds();
    } else {
      var b, rest := EncodeUnit(us[0]), Encode(us[1..]);
      EncodeFirst(us);
      UnitRoundTrip(us[0], rest);
      DecodeSteps(b + rest);
      assert (b + rest)[UnitSize(us[0])..] == rest;
      RoundTrip(us[1..]);
      assert us == [us[0]] + us[1..];
    }
  }

  /** Through both functions: the string strndup16to8 makes, given to strdup8to16. */
  method ThereAndBack(us: seq<u16>) returns (back: array?<u16>, len: nat)
    requires Size(us) < SIZE_MAX - 1 && |us| <= SIZE_MAX / 2
    ensures back != null && len == |us| == back.Length && back[..] == us
  {
    hide Size, Encode, Decode, Length;
    var text := Strndup16to8(us, false);
    var s := text[..];
    TextContent(us, s);
    RoundTrip(us);
    EncodedLength(us);
    var writesNull;
    back, len, writesNull := Strdup8to16(s, false);
    assert back[..] == back[..len];
  }

  lemma TextContent(us: seq<u16>, s: seq<byte>)
    requires s == Encode(us) + [0]
    ensures 0 in s && Content(s) == Encode(us)
  {
    hide Encode, Size;
    assert s[Size(us)] == 0 && s[..Size(us)] == Encode(us);
    var c := Content(s);
    assert forall k | 0 <= k < Size(us) :: s[k] == Encode(us)[k];
    assert |c| == Size(us);
  }

  /** What is encoded has no four-byte sequences: its length in units is exact. */
  lemma {:induction false} EncodedGood(us: seq<u16>)
    ensures FourBytesGood(Encode(us))
    decreases |us|
  {
    if us != [] {
      hide Next, Encode;
      var b, rest := EncodeUnit(us[0]), Encode(us[1..]);
      EncodeFirst(us);
      UnitRoundTrip(us[0], rest);
      SequenceLengths(b[0]);
      assert (b + rest)[UnitSize(us[0])..] == rest;
      EncodedGood(us[1..]);
    } else {
      EncodeEmpty();
    }
  }

  lemma EncodedLength(us: seq<u16>)
    ensures Length(Encode(us), 0) == |us|
  {
    hide Encode, Decode, FourBytesGood, Length;
    EncodedGood(us);
    DecodedLength(Encode(us));
    RoundTrip(us);
  }
}
