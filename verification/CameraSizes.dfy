/** Sizes in camera parameters: `640x480`, and lists of them (CameraParameters.cpp). */
module CameraSizes {
  import opened Wrappers

  const LONG_MAX := 0x7FFF_FFFF_FFFF_FFFF
  type Int32 = x: int | -0x8000_0000 <= x < 0x8000_0000

  datatype Size = Size(width: Int32, height: Int32)

  // ----- Numbers in text -------------------------------------------------------------------------

  predicate IsDigit(c: char) {
    '0' <= c <= '9'
  }

  predicate IsSpace(c: char) {
    c == ' ' || '\t' <= c <= '\r'
  }

  /** The decimal digits of a number, without leading zeros. */
  function Decimal(n: nat): (s: string)
    ensures s != [] && forall c | c in s :: IsDigit(c)
  {
    if n < 10 then ['0' + n as char] else Decimal(n / 10) + ['0' + (n % 10) as char]
  }

  /** sprintf's %d */
  function Printed(n: int): (s: string)
    ensures s != []
  {
    if n < 0 then "-" + Decimal(-n) else Decimal(n)
  }

  /** How many characters at the front are digits. */
  function DigitCount(s: string): (n: nat)
    ensures n <= |s| && forall k | 0 <= k < n :: IsDigit(s[k])
  {
    if s == [] || !IsDigit(s[0]) then 0 else 1 + DigitCount(s[1..])
  }

  function SpaceCount(s: string): (n: nat)
    ensures n <= |s|
  {
    if s == [] || !IsSpace(s[0]) then 0 else 1 + SpaceCount(s[1..])
  }

  function Value(s: string): nat
    requires forall k | 0 <= k < |s| :: IsDigit(s[k])
  {
    if s == [] then 0
    else
      assert IsDigit(s[|s| - 1]);
      Value(s[..|s| - 1]) * 10 + (s[|s| - 1] as int - '0' as int)
  }

  /** A number read, and where reading ended. */
  datatype Number = Number(value: int, end: nat)

  /** strtol in base 10: white space, a sign, digits; out of range it saturates, and without
      digits nothing is read. */
  function Strtol(s: string): (n: Number)
    ensures n.end <= |s|
  {
    var sp := SpaceCount(s);
    var signed := sp < |s| && (s[sp] == '-' || s[sp] == '+');
    var start := if signed then sp + 1 else sp;
    var n := DigitCount(s[start..]);
    if n == 0 then Number(0, 0)
    else
      var v: int := Value(s[start..][..n]);
      var w: int := if signed && s[sp] == '-' then -v else v;
      Number(if w > LONG_MAX then LONG_MAX else if w < -LONG_MAX - 1 then -LONG_MAX - 1 else w, start + n)
  }

  /** The cast from long to int. */
  function ToInt(x: int): Int32 {
    (x + 0x8000_0000) % 0x1_0000_0000 - 0x8000_0000
  }

  lemma {:induction false} DecimalValue(n: nat)
    ensures Value(Decimal(n)) == n
  {
    if n >= 10 {
      DecimalValue(n / 10);
      var s := Decimal(n);
      assert s[..|s| - 1] == Decimal(n / 10);
    } else {
      assert Decimal(n)[..0] == [];
    }
  }

  function Power10(k: nat): (p: nat)
    ensures p > 0
  {
    if k == 0 then 1 else 10 * Power10(k - 1)
  }

  lemma DivideTwice(n: nat, p: nat)
    requires p > 0
    ensures n / 10 / p == n / (10 * p)
  {
    var q := n / 10;
    Quotient(q, p);
    var t := q / p;
    assert t * (10 * p) == 10 * (t * p) && (t + 1) * (10 * p) == 10 * (t * p) + 10 * p;
    QuotientIs(n, 10 * p, t);
  }

  lemma Quotient(n: nat, d: nat)
    requires d > 0
    ensures n / d * d <= n < n / d * d + d
  {
  }

  lemma QuotientIs(n: nat, d: nat, q: nat)
    requires d > 0 && q * d <= n < (q + 1) * d
    ensures n / d == q
  {
    var m := n / d;
    Quotient(n, d);
    assert (m - q) * d == m * d - q * d;
    SmallMultiple(m - q, d);
  }

  lemma SmallMultiple(k: int, d: int)
    requires -d < k * d < d
    ensures k == 0
  {
  }

  /** The `k`-th digit from the right is that of the power of ten, and the first is zero for zero only. */
  lemma {:induction false} DecimalDigits(n: nat, k: nat)
    requires k < |Decimal(n)|
    ensures Decimal(n)[|Decimal(n)| - 1 - k] as int == '0' as int + n / Power10(k) % 10
    ensures Decimal(n)[0] == '0' ==> n == 0
    decreases n
  {
    if n >= 10 {
      DecimalDigits(n / 10, if k == 0 then 0 else k - 1);
      if k > 0 {
        DivideTwice(n, Power10(k - 1));
      }
    }
  }

  lemma {:induction false} DigitsEnd(d: string, rest: string)
    requires (forall k | 0 <= k < |d| :: IsDigit(d[k])) && (rest != [] ==> !IsDigit(rest[0]))
    ensures DigitCount(d + rest) == |d|
  {
    if d == [] {
      assert d + rest == rest;
    } else {
      assert (d + rest)[1..] == d[1..] + rest;
      DigitsEnd(d[1..], rest);
    }
  }

  lemma NoSpaces(s: string)
    requires s != [] && !IsSpace(s[0])
    ensures SpaceCount(s) == 0
  {
  }

  /** What strtol reads from `start` on, behind a sign or at the very front. */
  lemma StrtolAt(s: string, start: nat, n: nat)
    requires start <= 1 && start < |s| && !IsSpace(s[0])
    requires if start == 1 then s[0] == '-' else s[0] != '-' && s[0] != '+'
    requires DigitCount(s[start..]) == n > 0 && Value(s[start..][..n]) <= 0x8000_0000
    ensures Strtol(s) == Number(if start == 1 then -(Value(s[start..][..n]) as int) else Value(s[start..][..n]), start + n)
  {
    hide Value, DigitCount, SpaceCount;
    NoSpaces(s);
  }

  /** Digits read behind nothing or a minus sign. */
  lemma DigitsRead(sign: string, d: string, rest: string)
    requires d != [] && (forall k | 0 <= k < |d| :: IsDigit(d[k])) && (rest != [] ==> !IsDigit(rest[0]))
    requires (sign == [] || sign == ['-']) && Value(d) <= 0x8000_0000
    ensures Strtol(sign + (d + rest))
         == Number(if sign != [] then -(Value(d) as int) else Value(d), |sign| + |d|)
  {
    hide Value, DigitCount, Strtol;
    var s := sign + (d + rest);
    DigitsEnd(d, rest);
    assert s[|sign|..] == d + rest;
    assert (d + rest)[..|d|] == d;
    assert s[0] == if sign != [] then sign[0] else d[0];
    StrtolAt(s, |sign|, |d|);
  }

  /** What was printed is read back, up to the next character that is no digit. */
  lemma {:induction false} PrintedRead(n: Int32, rest: string)
    requires rest != [] ==> !IsDigit(rest[0])
    ensures Strtol(Printed(n) + rest) == Number(n, |Printed(n)|)
    ensures ToInt(n) == n
  {
    hide Decimal, Value, Strtol;
    var m: nat := if n < 0 then -(n as int) else n;
    var d := Decimal(m);
    assert forall k | 0 <= k < |d| :: d[k] in d;
    DecimalValue(m);
    var sign: string := if n < 0 then ['-'] else [];
    DigitsRead(sign, d, rest);
    AppendAssoc(sign, d, rest);
    assert [] + d == d;
  }

  // ----- Pairs and lists --------------------------------------------------------------------------------

  datatype ParsedPair = ParsedPair(first: Int32, second: Int32, end: nat)

  /** parse_pair: None where the source returns -1. */
  function ParsePair(s: string, delim: char): (p: Option<ParsedPair>)
    ensures p.Some? ==> 0 < p.value.end <= |s|
  {
    var w := Strtol(s);
    if w.end == |s| || s[w.end] != delim then None
    else
      var h := Strtol(s[w.end + 1..]);
      Some(ParsedPair(ToInt(w.value), ToInt(h.value), w.end + 1 + h.end))
  }

  /** parseSizesList: it stops at what it cannot read, and keeps what it has. */
  function SizesFrom(s: string, sizes: seq<Size>): seq<Size>
    decreases |s|
  {
    var p := ParsePair(s, 'x');
    if p.None? || (p.value.end < |s| && s[p.value.end] != ',') then sizes
    else
      var more := sizes + [Size(p.value.first, p.value.second)];
      if p.value.end == |s| then more else SizesFrom(s[p.value.end + 1..], more)
  }

  lemma SizesSteps(s: string, sizes: seq<Size>)
    ensures var p := ParsePair(s, 'x');
      SizesFrom(s, sizes)
      == if p.None? || (p.value.end < |s| && s[p.value.end] != ',') then sizes
         else
           var more := sizes + [Size(p.value.first, p.value.second)];
           if p.value.end == |s| then more else SizesFrom(s[p.value.end + 1..], more)
  {
  }

  method ParseSizesList(text: Option<string>) returns (sizes: seq<Size>)
    ensures sizes == if text.None? then [] else SizesFrom(text.value, [])
  {
    hide ParsePair, SizesFrom;
    sizes := [];
    if text.None? {
      return;
    }
    var s, at := text.value, 0;
    assert s[0..] == s;
    while true
      invariant at <= |s| && SizesFrom(s[at..], sizes) == SizesFrom(s, [])
      decreases |s| - at
    {
      var p := ParsePair(s[at..], 'x');
      SizesSteps(s[at..], sizes);
      if p.None? || (at + p.value.end < |s| && s[at + p.value.end] != ',') {
        return;
      }
      sizes := sizes + [Size(p.value.first, p.value.second)];
      if at + p.value.end == |s| {
        return;
      }
      assert s[at..][p.value.end + 1..] == s[at + p.value.end + 1..];
      at := at + p.value.end + 1;
    }
  }

  /** sprintf's %dx%d */
  function SizeText(z: Size): string {
    Printed(z.width) + "x" + Printed(z.height)
  }

  function SizesText(zs: seq<Size>): string {
    if zs == [] then [] else if |zs| == 1 then SizeText(zs[0]) else SizeText(zs[0]) + "," + SizesText(zs[1..])
  }

  /** Width, an "x", height; sizes with commas between them. */
  lemma {:induction false} TextOfSizes()
    ensures SizeText(Size(640, -480)) == "640x-480"
    ensures SizesText([Size(640, 480), Size(32, 16)]) == "640x480,32x16"
    ensures SizesFrom("640x480,32x16", []) == [Size(640, 480), Size(32, 16)]
  {
    hide SizesFrom;
    SomeDecimals();
    SizesRead([Size(640, 480), Size(32, 16)], []);
  }

  lemma SomeDecimals()
    ensures Decimal(640) == "640" && Decimal(480) == "480" && Decimal(32) == "32" && Decimal(16) == "16"
  {
    assert Decimal(6) == "6" && Decimal(64) == "64";
    assert Decimal(4) == "4" && Decimal(48) == "48";
  }

  /** A printed size is read back, at the end of the text or in front of what is no digit. */
  lemma SizeRead(z: Size, rest: string)
    requires rest != [] ==> !IsDigit(rest[0])
    ensures ParsePair(SizeText(z) + rest, 'x') == Some(ParsedPair(z.width, z.height, |SizeText(z)|))
  {
    hide Strtol, Printed, ToInt;
    var s := SizeText(z) + rest;
    var w, h := Printed(z.width), Printed(z.height);
    assert s == w + ("x" + h + rest);
    PrintedRead(z.width, "x" + h + rest);
    assert s[|w| + 1..] == h + rest;
    PrintedRead(z.height, rest);
  }

  /** A printed list is read back, behind what was read before. */
  lemma {:induction false} SizesRead(zs: seq<Size>, done: seq<Size>)
    requires zs != []
    ensures SizesFrom(SizesText(zs), done) == done + zs
    decreases |zs|
  {
    hide ParsePair, SizeText;
    var s := SizesText(zs);
    if |zs| == 1 {
      assert s == SizeText(zs[0]) + [];
      SizeRead(zs[0], []);
      assert zs == [zs[0]];
    } else {
      var rest := "," + SizesText(zs[1..]);
      assert s == SizeText(zs[0]) + rest;
      SizeRead(zs[0], rest);
      assert s[|SizeText(zs[0])| + 1..] == SizesText(zs[1..]);
      SizesRead(zs[1..], done + [zs[0]]);
      assert done + [zs[0]] + zs[1..] == done + zs;
    }
  }

  /** One size and a comma are read, and then the rest. */
  lemma OneSizeRead(z: Size, tail: string, done: seq<Size>)
    ensures SizesFrom(SizeText(z) + ("," + tail), done) == SizesFrom(tail, done + [z])
  {
    hide ParsePair, SizeText, SizesFrom;
    var s := SizeText(z) + ("," + tail);
    SizeRead(z, "," + tail);
    SizesSteps(s, done);
    assert s[|SizeText(z)| + 1..] == tail;
  }

  /** A list that goes on with something that is no size: what came before is kept. */
  lemma {:induction false} SizesBeforeGarbage(zs: seq<Size>, garbage: string, done: seq<Size>)
    requires ParsePair(garbage, 'x').None?
    ensures SizesFrom(if zs == [] then garbage else SizesText(zs) + "," + garbage, done) == done + zs
    decreases |zs|
  {
    hide ParsePair, SizeText, SizesText, SizesFrom;
    if zs == [] {
      SizesSteps(garbage, done);
      assert done + zs == done;
    } else {
      var tail := if |zs| == 1 then garbage else SizesText(zs[1..]) + "," + garbage;
      TextSteps(zs);
      if |zs| > 1 {
        CommaAssoc(SizeText(zs[0]), SizesText(zs[1..]), garbage);
      } else {
        AppendAssoc(SizeText(zs[0]), ",", garbage);
      }
      OneSizeRead(zs[0], tail, done);
      SizesBeforeGarbage(zs[1..], garbage, done + [zs[0]]);
      AppendAssoc(done, [zs[0]], zs[1..]);
      assert [zs[0]] + zs[1..] == zs;
    }
  }

  lemma TextSteps(zs: seq<Size>)
    requires zs != []
    ensures SizesText(zs) == if |zs| == 1 then SizeText(zs[0]) else SizeText(zs[0]) + "," + SizesText(zs[1..])
  {
  }

  lemma CommaAssoc(a: string, b: string, c: string)
    ensures (a + "," + b) + "," + c == a + ("," + (b + "," + c))
  {
  }

  /** A printed size has nothing that separates keys and values. */
  lemma SizeTextPlain(z: Size)
    ensures '=' !in SizeText(z) && ';' !in SizeText(z)
  {
    hide Decimal;
    PrintedPlain(z.width);
    PrintedPlain(z.height);
  }

  lemma PrintedPlain(n: int)
    ensures '=' !in Printed(n) && ';' !in Printed(n)
  {
    hide Decimal;
    var d := Decimal(if n < 0 then -n else n);
    assert '=' !in d && ';' !in d;
  }
}
