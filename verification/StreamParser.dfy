/**
  The parser that looks for the frame header of a JPEG stream (CJpegStreamParser).
  It counts the bytes left without the two bytes of each marker, so it can look
  behind the stream's end: that outcome is modelled, as `OverRead`.
*/
module StreamParser {
  import opened AppMarker
  import opened Bytes
  import opened Exif
  import opened JpegStream
  import opened Wrappers

  datatype Outcome =
    | Frame(width: u16, height: u16, horizontalFactor: byte, verticalFactor: byte)
    | Rejected
    | OverRead

  predicate IsSof(marker: byte) {
    marker != 0xC4 && marker / 0x10 == 0xC
  }

  /** Markers in front of which the parser gives up. */
  predicate IsUnsupported(marker: byte) {
    (IsSof(marker) && marker != 0xC0) || marker == 0xD9 || marker == 0xCC || marker == 0xDC
  }

  /** The parser at a marker, with what it believes to be left of the stream. */
  function ParseFrom(s: seq<byte>, addr: nat, filelen: nat): Outcome
    decreases filelen
  {
    if filelen < 2 then Rejected
    else if addr >= |s| then OverRead
    else if s[addr] != 0xFF then Rejected
    else if addr + 1 >= |s| then OverRead
    else
      var marker := s[addr + 1];
      if IsUnsupported(marker) then Rejected
      else if addr + 4 > |s| then OverRead
      else
        var len := SegLen(s, addr + 2);
        if filelen < len then Rejected
        else if marker == 0xC0 then FrameAt(s, addr + 2)
        else if len == 0 then Rejected
        else ParseFrom(s, addr + 2 + len, filelen - len)
  }

  /** The frame header at its length field. */
  function FrameAt(s: seq<byte>, a: nat): Outcome
    requires a + 2 <= |s|
  {
    if SegLen(s, a) < 17 then Rejected
    else if a + 2 >= |s| then OverRead
    else if s[a + 2] != 8 then Rejected
    else if a + 5 > |s| then OverRead
    else if !(8 <= SegLen(s, a + 3) <= 16383) then Rejected
    else if a + 7 > |s| then OverRead
    else if !(8 <= SegLen(s, a + 5) <= 16383) then Rejected
    else if a + 8 > |s| then OverRead
    else if s[a + 7] != 3 then Rejected
    else if a + 10 > |s| then OverRead
    else if s[a + 9] !in {0x11, 0x21, 0x12, 0x22} then Rejected
    else Frame(SegLen(s, a + 5), SegLen(s, a + 3), s[a + 9] / 0x10, s[a + 9] % 0x10)
  }

  /** The message about a stream without SOI shows its first two bytes, also of a shorter stream. */
  function ParseStream(s: seq<byte>): Outcome {
    if |s| < 2 then OverRead
    else if s[0] != 0xFF || s[1] != 0xD8 then Rejected
    else ParseFrom(s, 2, |s| - 2)
  }

  class CJpegStreamParser {
    var streamSize: nat        // m_nStreamSize
    var components: byte       // m_nComponents
    var width: u16             // m_nWidth
    var height: u16            // m_nHeight
    var horizontalFactor: byte // m_iHorizontalFactor
    var verticalFactor: byte   // m_iVerticalFactor

    constructor ()
      ensures streamSize == 0
    {
      streamSize := 0;
    }

    method Initialize()
      modifies this
      ensures components == 0 && width == 0 && height == 0 && horizontalFactor == 1 && verticalFactor == 1
      ensures streamSize == old(streamSize)
    {
      components, width, height := 0, 0, 0;
      horizontalFactor, verticalFactor := 1, 1;
    }

    /** The fields are those of the frame header that was found. */
    ghost predicate Shows(r: Outcome)
      reads this
    {
      r.Frame? ==> components == 3 && r == Frame(width, height, horizontalFactor, verticalFactor)
    }

    method Parse(s: array<byte>) returns (r: Outcome)
      modifies this
      ensures r == ParseStream(s[..]) && Shows(r)
    {
      Initialize();
      streamSize := s.Length;
      var addr: nat, filelen: nat := 0, streamSize;
      if filelen < 2 {
        return OverRead;
      }
      if s[addr] != 0xFF || s[addr + 1] != 0xD8 {
        return Rejected;
      }
      addr := addr + 2;
      filelen := filelen - 2;
      while true
        invariant addr >= 2 && |s[..]| == s.Length
        invariant ParseStream(s[..]) == ParseFrom(s[..], addr, filelen)
        decreases filelen
      {
        if filelen < 2 {
          return Rejected;
        }
        if addr >= s.Length {
          return OverRead;
        }
        if s[addr] != 0xFF {
          return Rejected;
        }
        addr := addr + 1;
        if addr >= s.Length {
          return OverRead;
        }
        var marker := s[addr];
        addr := addr + 1;
        if marker != 0xC4 && marker / 0x10 == 0xC && marker != 0xC0 {
          return Rejected;
        }
        if marker == 0xD9 || marker == 0xCC || marker == 0xDC {
          return Rejected;
        }
        if addr + 2 > s.Length {
          return OverRead;
        }
        var len := GetSegLen(s, addr);
        if filelen < len {
          return Rejected;
        }
        if marker == 0xC0 {
          r := ParseFrame(s, addr);
          return;
        }
        if len == 0 {
          return Rejected;
        }
        filelen := filelen - len;
        addr := addr + len;
      }
      assert false;
    }

    method ParseFrame(s: array<byte>, a: nat) returns (r: Outcome)
      requires a + 2 <= s.Length
      modifies this
      ensures r == FrameAt(s[..], a) && Shows(r)
    {
      var len := GetSegLen(s, a);
      if len < 17 {
        return Rejected;
      }
      var addr := a + 2;
      if addr >= s.Length {
        return OverRead;
      }
      if s[addr] != 8 {
        return Rejected;
      }
      addr := addr + 1;
      if addr + 2 > s.Length {
        return OverRead;
      }
      height := GetSegLen(s, addr);
      if height < 8 || height > 16383 {
        return Rejected;
      }
      addr := addr + 2;
      if addr + 2 > s.Length {
        return OverRead;
      }
      width := GetSegLen(s, addr);
      if width < 8 || width > 16383 {
        return Rejected;
      }
      addr := addr + 2;
      if addr >= s.Length {
        return OverRead;
      }
      components := s[addr];
      if components != 3 {
        return Rejected;
      }
      addr := addr + 2;
      if addr >= s.Length {
        return OverRead;
      }
      if s[addr] != 0x11 && s[addr] != 0x21 && s[addr] != 0x12 && s[addr] != 0x22 {
        return Rejected;
      }
      horizontalFactor := s[addr] / 0x10;
      verticalFactor := s[addr] % 0x10;
      return Frame(width, height, horizontalFactor, verticalFactor);
    }
  }

  // ----- Where the parser stops -------------------------------------------------------------

  /** What is left of a stream behind its complete segments, and how many they are. */
  datatype Rest = Rest(tail: seq<byte>, skipped: nat)

  /** A complete segment that the parser passes over. */
  predicate SkipsFirst(t: seq<byte>) {
    && |t| >= 4 && t[0] == 0xFF && !IsUnsupported(t[1]) && t[1] != 0xC0
    && 0 < SegLen(t, 2) && 2 + SegLen(t, 2) as nat <= |t|
  }

  function Remainder(t: seq<byte>): (r: Rest)
    ensures !SkipsFirst(r.tail)
    decreases |t|
  {
    if SkipsFirst(t) then
      var r := Remainder(t[2 + SegLen(t, 2) as nat..]);
      Rest(r.tail, r.skipped + 1)
    else Rest(t, 0)
  }

  /** The parser's verdict where it stops, when it believes `slack` bytes more to be left than there are. */
  function AtStop(t: seq<byte>, slack: nat): Outcome {
    if |t| + slack < 2 then Rejected
    else if |t| == 0 then OverRead
    else if t[0] != 0xFF then Rejected
    else if |t| == 1 then OverRead
    else if IsUnsupported(t[1]) then Rejected
    else if |t| < 4 then OverRead
    else if |t| + slack < SegLen(t, 2) then Rejected
    else if t[1] == 0xC0 then FrameAt(t, 2)
    else if SegLen(t, 2) == 0 || |t| + slack < SegLen(t, 2) + 2 then Rejected
    else OverRead
  }

  lemma StopsHere(s: seq<byte>, addr: nat, slack: nat)
    requires addr <= |s| && !SkipsFirst(s[addr..])
    ensures ParseFrom(s, addr, |s| - addr + slack) == AtStop(s[addr..], slack)
  {
    hide FrameAt, SegLen;
    var t := s[addr..];
    if |t| >= 4 {
      LengthShift(s, addr, t, 2);
      FrameShift(s, addr, t);
    }
  }

  lemma SkipsHere(s: seq<byte>, addr: nat, slack: nat)
    requires addr <= |s| && SkipsFirst(s[addr..])
    ensures var len := SegLen(s[addr..], 2) as nat;
      && addr + 2 + len <= |s| && s[addr..][2 + len..] == s[addr + 2 + len..]
      && ParseFrom(s, addr, |s| - addr + slack) == ParseFrom(s, addr + 2 + len, |s| - (addr + 2 + len) + (slack + 2))
  {
    hide FrameAt, SegLen;
    LengthShift(s, addr, s[addr..], 2);
  }

  /** Every skipped segment adds its marker's two bytes to what the parser believes to be left. */
  lemma {:induction false} ParseRemainder(s: seq<byte>, addr: nat, slack: nat)
    requires addr <= |s|
    ensures var r := Remainder(s[addr..]);
      ParseFrom(s, addr, |s| - addr + slack) == AtStop(r.tail, slack + 2 * r.skipped)
    decreases |s| - addr
  {
    hide ParseFrom, AtStop, SegLen;
    var t := s[addr..];
    if SkipsFirst(t) {
      SkipsHere(s, addr, slack);
      ParseRemainder(s, addr + 2 + SegLen(t, 2) as nat, slack + 2);
    } else {
      StopsHere(s, addr, slack);
    }
  }

  lemma LengthShift(s: seq<byte>, addr: nat, t: seq<byte>, k: nat)
    requires addr <= |s| && t == s[addr..] && k + 2 <= |t|
    ensures SegLen(s, addr + k) == SegLen(t, k)
  {
    assert s[addr + k..addr + k + 2] == t[k..k + 2];
  }

  /** A frame header reads the same wherever it is, and wherever it ends. */
  lemma FrameShift(s: seq<byte>, addr: nat, t: seq<byte>)
    requires addr <= |s| && t == s[addr..] && |t| >= 4
    ensures FrameAt(s, addr + 2) == FrameAt(t, 2)
  {
    hide SegLen;
    LengthShift(s, addr, t, 2);
    if |t| >= 7 {
      LengthShift(s, addr, t, 5);
    }
    if |t| >= 9 {
      LengthShift(s, addr, t, 7);
    }
  }

  lemma ParseStreamStops(s: seq<byte>)
    requires |s| >= 2 && s[0] == 0xFF && s[1] == 0xD8
    ensures var r := Remainder(s[2..]); ParseStream(s) == AtStop(r.tail, 2 * r.skipped)
  {
    ParseRemainder(s, 2, 0);
  }

  // ----- When it looks behind the stream's end, and when it finds a frame -----------------------

  /** The remainder is cut off where the parser still reads: in a marker it believes to be there, in a length,
      in a frame header whose bytes are acceptable so far, or behind a segment that is longer than what is left. */
  predicate CutOff(t: seq<byte>, slack: nat) {
    if |t| == 0 then slack >= 2
    else if t[0] != 0xFF then false
    else if |t| == 1 then slack >= 1
    else if IsUnsupported(t[1]) then false
    else if |t| < 4 then true
    else if t[1] == 0xC0 then
      && 17 <= SegLen(t, 2) <= |t| + slack && |t| < 12
      && (|t| > 4 ==> t[4] == 8) && (|t| > 6 ==> 8 <= SegLen(t, 5) <= 16383)
      && (|t| > 8 ==> 8 <= SegLen(t, 7) <= 16383) && (|t| > 9 ==> t[9] == 3)
    else |t| < SegLen(t, 2) + 2 <= |t| + slack && SegLen(t, 2) > 0
  }

  /** Exactly then the parser reads behind the end of the stream. */
  lemma {:induction false} OverReadExactly(s: seq<byte>)
    ensures ParseStream(s) == OverRead
       <==> |s| < 2
            || (s[0] == 0xFF && s[1] == 0xD8
                && CutOff(Remainder(s[2..]).tail, 2 * Remainder(s[2..]).skipped))
  {
    hide ParseFrom, Remainder;
    if |s| >= 2 && s[0] == 0xFF && s[1] == 0xD8 {
      var r := Remainder(s[2..]);
      ParseStreamStops(s);
      StopsCutOff(r.tail, 2 * r.skipped);
    }
  }

  lemma StopsCutOff(t: seq<byte>, slack: nat)
    requires !SkipsFirst(t)
    ensures AtStop(t, slack) == OverRead <==> CutOff(t, slack)
  {
    hide SegLen;
  }

  /** One empty segment and nothing behind it is enough. */
  lemma {:induction false} OverReadWitness()
    ensures ParseStream([0xFF, 0xD8, 0xFF, 0xE0, 0, 2]) == OverRead
  {
    var s: seq<byte> := [0xFF, 0xD8, 0xFF, 0xE0, 0, 2];
    assert s[2..] == [0xFF, 0xE0, 0, 2] && s[2..][2..4] == [0, 2] && s[2..][4..] == [];
    OverReadExactly(s);
  }

  /** A frame header with acceptable bytes, whose length the parser believes to be there. */
  predicate FrameFits(t: seq<byte>, slack: nat) {
    |t| >= 4 && t[0] == 0xFF && t[1] == 0xC0 && SegLen(t, 2) <= |t| + slack && FrameAt(t, 2).Frame?
  }

  lemma StopsFrame(t: seq<byte>, slack: nat)
    ensures AtStop(t, slack).Frame? <==> FrameFits(t, slack)
    ensures FrameFits(t, slack) ==> AtStop(t, slack) == FrameAt(t, 2)
  {
    hide SegLen;
  }

  /** The remainder starts with a complete SOF0, or with something that ends parsing at once. */
  predicate Decided(t: seq<byte>) {
    && |t| >= 2
    && (t[0] != 0xFF || IsUnsupported(t[1])
        || (|t| >= 4 && (SegLen(t, 2) == 0 || (t[1] == 0xC0 && 2 + SegLen(t, 2) as nat <= |t|))))
  }

  /** Complete segments, up to a complete SOF0 or to something not supported. */
  predicate Complete(s: seq<byte>)
    requires |s| >= 2
  {
    Decided(Remainder(s[2..]).tail)
  }

  /** Then the parser's count of bytes does not matter. */
  lemma DecidedStops(t: seq<byte>, slack: nat)
    requires Decided(t)
    ensures AtStop(t, slack) == AtStop(t, 0) != OverRead
  {
    hide SegLen;
  }

  // ----- Assembled streams ------------------------------------------------------------------

  predicate Skipped(marker: byte) {
    !IsSof(marker) && !IsUnsupported(marker)
  }

  /** The parser passes over one segment of the first `n` bytes of memory. */
  lemma SegmentSkipped(mem: seq<byte>, n: nat, p: nat, marker: byte, len: u16, filelen: nat)
    requires At(mem, p, [0xFF, marker]) && At(mem, p + 2, BE16(len)) && Skipped(marker) && 2 <= len
    requires p + 2 + len <= n <= |mem| && n - p <= filelen
    ensures ParseFrom(mem[..n], p, filelen) == ParseFrom(mem[..n], p + 2 + len, filelen - len)
  {
    BE16RoundTrip(len);
    var s := mem[..n];
    assert s[p] == mem[p..p + 2][0] && s[p + 1] == mem[p..p + 2][1];
    assert s[p + 2..p + 4] == mem[p + 2..p + 4];
  }

  lemma AppxLength(d: Debug, id: int)
    requires d.AcceptedId(id)
    ensures |d.Data(id)| + 2 < 0x1_0000 && U16(|d.Data(id)| + 2) == |d.Data(id)| + 2 && Skipped(AppxMarker(id))
  {
  }

  /** It passes over the debug segments. */
  lemma {:induction false} AppxSkipped(mem: seq<byte>, n: nat, at: nat, d: Debug, k: nat, reserved: bool, filelen: nat)
    returns (left: nat)
    requires d.Accepted() && k <= |d.ids| && AppxAt(mem, at, d, k, reserved)
    requires at + AppxSize(d, k) <= n <= |mem| && n - at <= filelen
    ensures ParseFrom(mem[..n], at, filelen) == ParseFrom(mem[..n], at + AppxSize(d, k), left)
    ensures left - (n - (at + AppxSize(d, k))) == filelen - (n - at) + 2 * k
  {
    hide At, BE16, ParseFrom, Debug.Data, Skipped, AppxMarker, U16;
    left := filelen;
    if k > 0 {
      var id := d.ids[k - 1];
      AppxLength(d, id);
      left := AppxSkipped(mem, n, at, d, k - 1, reserved, filelen);
      SegmentSkipped(mem, n, at + AppxSize(d, k - 1), AppxMarker(id), |d.Data(id)| + 2, left);
      left := left - (|d.Data(id)| + 2);
    }
  }

  lemma App11Skipped(mem: seq<byte>, n: nat, p: nat, pad: nat, filelen: nat)
    requires App11At(mem, p, pad) && pad < 16 && p + 6 + pad <= n <= |mem| && n - p <= filelen
    ensures ParseFrom(mem[..n], p, filelen) == ParseFrom(mem[..n], p + 6 + pad, filelen - (pad + 4))
  {
    hide ParseFrom, BE16;
    var d := [0xFF, 0xEB] + BE16(pad + 4);
    assert d[..2] == [0xFF, 0xEB] && d[2..] == BE16(pad + 4);
    AtHead(mem, p, d, 2);
    AtTail(mem, p, d, 2);
    SegmentSkipped(mem, n, p, 0xEB, pad + 4, filelen);
  }

  lemma AtHead(mem: seq<byte>, at: nat, d: seq<byte>, k: nat)
    requires At(mem, at, d) && k <= |d|
    ensures At(mem, at, d[..k])
  {
  }

  /** The number of segments in front of the main stream. */
  function SegmentCount(e: Option<Attributes>, d: Option<Debug>): nat {
    (if e.Some? then 1 else 0) + (if d.Some? then |d.value.ids| else 0) + (if e.Some? || d.Some? then 1 else 0)
  }

  /** All segments in front of the main stream. */
  lemma FrontSkipped(mem: seq<byte>, n: nat, e: Option<Attributes>, d: Option<Debug>, len: u16, reserved: bool, pad: nat,
                     p: nat, x: nat, m: nat)
    returns (left: nat)
    requires if e.Some? then At(mem, 2, [0xFF, 0xE1]) && At(mem, 4, BE16(len)) && 2 <= len && p == 4 + len else p == 2
    requires d.Some? ==> d.value.Accepted() && AppxAt(mem, p, d.value, |d.value.ids|, reserved)
    requires x == p + AppxBytes(d) && pad < 16 && m + 2 <= n <= |mem|
    requires if e.Some? || d.Some? then App11At(mem, x, pad) && m == x + pad + 4 else m + 2 == x
    ensures ParseFrom(mem[..n], 2, n - 2) == ParseFrom(mem[..n], m + 2, left)
    ensures left == n - (m + 2) + 2 * SegmentCount(e, d)
  {
    hide ParseFrom, At, BE16, AppxAt, AppxSize, App11At, Debug.Accepted;
    left := n - 2;
    if e.Some? {
      SegmentSkipped(mem, n, 2, 0xE1, len, left);
      left := left - len;
    }
    if d.Some? {
      left := AppxSkipped(mem, n, p, d.value, |d.value.ids|, reserved, left);
    }
    if e.Some? || d.Some? {
      App11Skipped(mem, n, x, pad, left);
      left := left - (pad + 4);
    }
  }

  /** The parser reaches the main stream behind the segments of an assembled stream, with two bytes of
      slack for each of them. */
  lemma AssembledStops(mem: seq<byte>, n: nat, e: Option<Attributes>, d: Option<Debug>, reserved: bool,
                       thumb: seq<byte>, rest: nat, pad: nat, main: seq<byte>)
    requires (e.Some? ==> Exif.Valid(e.value) && App1Size(e.value) + |thumb| + rest <= JPEG_MAX_SEGMENT_SIZE)
    requires d.Some? ==> d.value.Accepted()
    requires Assembled(mem, e, d, reserved, thumb, rest, pad, main) && pad < 16
    requires n == StreamLength(e, d, |thumb| + rest, pad, main) && n <= |mem|
    ensures |main| >= 2
    ensures var r := Remainder(main[2..]);
      ParseStream(mem[..n]) == AtStop(r.tail, 2 * SegmentCount(e, d) + 2 * r.skipped)
  {
    hide ParseFrom, App1Size, App1Bytes, AppxBytes, Exif.Valid, Debug.Accepted, SegmentsAt, U16, Zeros, ThumbPlace;
    hide Remainder, AtStop, At, BE16, App11At, App1At, AppxAt, DebugAt, SegmentCount;
    var gap := |thumb| + rest;
    var m := MainBase(2, e, d, gap, pad);
    var len := if e.Some? then U16(App1Size(e.value) + gap) else 0;
    SmallLength(e, gap);
    SegmentsFront(mem, e, d, len, ThumbPlace(e), |thumb|, gap, reserved, pad);
    var left := FrontSkipped(mem, n, e, d, len, reserved, pad, AppxBase(2, e, gap), App11Base(2, e, d, gap), m);
    StreamEnds(mem, n, m, main);
    ParseRemainder(mem[..n], m + 2, 2 * SegmentCount(e, d));
  }

  lemma StreamEnds(mem: seq<byte>, n: nat, m: nat, main: seq<byte>)
    requires At(mem, 0, [0xFF, 0xD8]) && |main| >= 2 && At(mem, m + 2, main[2..]) && n == m + |main| <= |mem|
    ensures mem[..n][0] == 0xFF && mem[..n][1] == 0xD8 && mem[..n][m + 2..] == main[2..]
  {
    assert mem[..n][0] == mem[0..2][0] && mem[..n][1] == mem[0..2][1];
    assert mem[..n][m + 2..] == mem[m + 2..m + |main|];
  }

  /** Where the segments are, and how long the first one is. */
  lemma SegmentsFront(mem: seq<byte>, e: Option<Attributes>, d: Option<Debug>, len: u16, offset: u32, thumbLen: u32,
                      gap: nat, reserved: bool, pad: nat)
    requires (e.Some? ==> Exif.Valid(e.value) && len == App1Size(e.value) + gap)
    requires SegmentsAt(mem, 2, e, d, len, offset, thumbLen, gap, reserved, pad)
    ensures e.Some? ==>
      At(mem, 2, [0xFF, 0xE1]) && At(mem, 4, BE16(len)) && 2 <= len && AppxBase(2, e, gap) == 4 + len
    ensures e.None? ==> AppxBase(2, e, gap) == 2 + gap
    ensures d.Some? ==> AppxAt(mem, AppxBase(2, e, gap), d.value, |d.value.ids|, reserved)
    ensures e.Some? || d.Some? ==> App11At(mem, App11Base(2, e, d, gap), pad)
  {
    hide At, BE16, App1At, App1Size, AppxAt, App11At, Exif.Valid;
    if e.Some? {
      App1Sized(e.value);
      App1Front(mem, 2, e.value, len, offset, thumbLen);
    }
  }

  lemma SmallLength(e: Option<Attributes>, gap: nat)
    requires e.Some? ==> Exif.Valid(e.value) && App1Size(e.value) + gap <= JPEG_MAX_SEGMENT_SIZE
    ensures e.Some? ==> U16(App1Size(e.value) + gap) == App1Size(e.value) + gap
  {
  }

  /** A stream that is complete up to its frame header is never read behind its end. */
  lemma {:induction false} CompleteParses(s: seq<byte>)
    requires |s| >= 2 && s[..2] == [0xFF, 0xD8] && Complete(s)
    ensures ParseStream(s) != OverRead
  {
    hide ParseStream, Remainder, AtStop, Decided;
    var r := Remainder(s[2..]);
    assert s[0] == s[..2][0] && s[1] == s[..2][1];
    ParseStreamStops(s);
    DecidedStops(r.tail, 2 * r.skipped);
  }

  /** An assembled stream parses as its main stream alone does, when that is complete up to its frame header. */
  lemma {:induction false} AssembledParses(mem: seq<byte>, n: nat, e: Option<Attributes>, d: Option<Debug>,
                                           reserved: bool, thumb: seq<byte>, rest: nat, pad: nat, main: seq<byte>)
    requires (e.Some? ==> Exif.Valid(e.value) && App1Size(e.value) + |thumb| + rest <= JPEG_MAX_SEGMENT_SIZE)
    requires d.Some? ==> d.value.Accepted()
    requires Assembled(mem, e, d, reserved, thumb, rest, pad, main) && pad < 16
    requires n == StreamLength(e, d, |thumb| + rest, pad, main) && n <= |mem|
    requires main[..2] == [0xFF, 0xD8] && Complete(main)
    ensures ParseStream(mem[..n]) == ParseStream(main)
  {
    hide ParseStream, App1Size, Exif.Valid, Debug.Accepted, Assembled, StreamLength, AtStop, Remainder, Decided;
    AssembledStops(mem, n, e, d, reserved, thumb, rest, pad, main);
    var r := Remainder(main[2..]);
    assert main[0] == main[..2][0] && main[1] == main[..2][1];
    ParseStreamStops(main);
    DecidedStops(r.tail, 2 * r.skipped);
    DecidedStops(r.tail, 2 * SegmentCount(e, d) + 2 * r.skipped);
  }

  /**
    For every main stream: a frame found in it alone is found in the assembled stream too, and both are
    accepted or both are not, except exactly when the main stream ends inside its frame header and the
    segments in front hide as many bytes as are missing.
    */
  lemma {:induction false} AssembledExactly(mem: seq<byte>, n: nat, e: Option<Attributes>, d: Option<Debug>,
                                            reserved: bool, thumb: seq<byte>, rest: nat, pad: nat, main: seq<byte>)
    requires (e.Some? ==> Exif.Valid(e.value) && App1Size(e.value) + |thumb| + rest <= JPEG_MAX_SEGMENT_SIZE)
    requires d.Some? ==> d.value.Accepted()
    requires Assembled(mem, e, d, reserved, thumb, rest, pad, main) && pad < 16
    requires n == StreamLength(e, d, |thumb| + rest, pad, main) && n <= |mem|
    requires main[..2] == [0xFF, 0xD8]
    ensures ParseStream(main).Frame? ==> ParseStream(mem[..n]) == ParseStream(main)
    ensures var r := Remainder(main[2..]);
      ParseStream(mem[..n]).Frame? && !ParseStream(main).Frame?
      <==> FrameFits(r.tail, 2 * SegmentCount(e, d) + 2 * r.skipped) && SegLen(r.tail, 2) > |r.tail| + 2 * r.skipped
  {
    hide ParseStream, App1Size, Exif.Valid, Debug.Accepted, Assembled, StreamLength, AtStop, Remainder, SegLen, FrameAt;
    AssembledStops(mem, n, e, d, reserved, thumb, rest, pad, main);
    var r := Remainder(main[2..]);
    assert main[0] == main[..2][0] && main[1] == main[..2][1];
    ParseStreamStops(main);
    StopsFrame(r.tail, 2 * r.skipped);
    StopsFrame(r.tail, 2 * SegmentCount(e, d) + 2 * r.skipped);
  }

  /** Such a main stream: a frame header whose last four bytes are missing, ended by an EOI, so that the encoder
      takes all of it. It is rejected alone, and accepted behind any segments. */
  lemma {:induction false} TruncationHidden(mem: seq<byte>, n: nat, e: Option<Attributes>, d: Option<Debug>,
                                            reserved: bool, thumb: seq<byte>, rest: nat, pad: nat)
    requires (e.Some? ==> Exif.Valid(e.value) && App1Size(e.value) + |thumb| + rest <= JPEG_MAX_SEGMENT_SIZE)
    requires (d.Some? ==> d.value.Accepted()) && (e.Some? || d.Some?)
    requires Assembled(mem, e, d, reserved, thumb, rest, pad, TRUNCATED) && pad < 16
    requires n == StreamLength(e, d, |thumb| + rest, pad, TRUNCATED) && n <= |mem|
    ensures ParseStream(mem[..n]).Frame? && !ParseStream(TRUNCATED).Frame?
    ensures IsEoiEnd(TRUNCATED, |TRUNCATED|)
  {
    hide ParseStream, App1Size, Exif.Valid, Debug.Accepted, Assembled, StreamLength, FrameFits, SegLen, Remainder;
    TruncatedStops();
    AssembledExactly(mem, n, e, d, reserved, thumb, rest, pad, TRUNCATED);
  }

  const TRUNCATED: seq<byte> := [0xFF, 0xD8] + CUT_HEADER
  const CUT_HEADER: seq<byte> := [0xFF, 0xC0, 0, 17, 8, 0, 16, 0, 32, 3, 1, 0x22, 0, 0xFF, 0xD9]

  lemma TruncatedStops()
    ensures TRUNCATED[..2] == [0xFF, 0xD8] && Remainder(TRUNCATED[2..]) == Rest(CUT_HEADER, 0)
    ensures |CUT_HEADER| < SegLen(CUT_HEADER, 2)
    ensures forall slack: nat | slack >= 2 :: FrameFits(CUT_HEADER, slack)
  {
    assert TRUNCATED[2..] == CUT_HEADER;
    CutHeader();
  }

  lemma CutHeader()
    ensures SegLen(CUT_HEADER, 2) == 17 && FrameAt(CUT_HEADER, 2) == Frame(32, 16, 2, 2)
  {
    var t := CUT_HEADER;
    assert t[2..4] == [0, 17];
    assert t[5..7] == [0, 16];
    assert t[7..9] == [0, 32];
  }

  const ONE_SEGMENT := Debug([4], [[], [], [], [], [7]])
  const HIDDEN: seq<byte> := [0xFF, 0xD8, 0xFF, 0xE4, 0, 3, 7, 0xFF, 0xEB, 0, 4, 0, 0] + CUT_HEADER

  /** One debug segment is enough: this stream is assembled from such a main stream, and accepted. */
  lemma {:induction false} TruncationWitness()
    ensures Assembled(HIDDEN, None, Some(ONE_SEGMENT), false, [], 0, 0, TRUNCATED)
    ensures ParseStream(HIDDEN).Frame? && !ParseStream(TRUNCATED).Frame?
  {
    hide ParseStream, AppxSize, AppxAt, SegmentsAt, Assembled;
    HiddenAssembled();
    HiddenSizes();
    assert HIDDEN[..|HIDDEN|] == HIDDEN;
    assert ONE_SEGMENT.AcceptedId(4);
    TruncationHidden(HIDDEN, |HIDDEN|, None, Some(ONE_SEGMENT), false, [], 0, 0);
  }

  lemma HiddenSizes()
    ensures AppxSize(ONE_SEGMENT, 0) == 0 && AppxSize(ONE_SEGMENT, 1) == 5
  {
  }

  lemma HiddenSegments()
    ensures SegmentsAt(HIDDEN, 2, None, Some(ONE_SEGMENT), 0, 0, 0, 0, false, 0)
  {
    hide AppxSize;
    HiddenSizes();
    var m, d := HIDDEN, ONE_SEGMENT;
    assert m[2..4] == [0xFF, 0xE4] && m[4..6] == [0, 3] && m[6..7] == [7];
    assert AppxAt(m, 2, d, 0, false);
    assert m[7..11] == [0xFF, 0xEB] + [0, 4];
  }

  lemma HiddenAssembled()
    ensures Assembled(HIDDEN, None, Some(ONE_SEGMENT), false, [], 0, 0, TRUNCATED)
  {
    hide AppxSize, AppxAt, SegmentsAt;
    HiddenSizes();
    HiddenSegments();
    assert HIDDEN[0..2] == [0xFF, 0xD8] && HIDDEN[11..13] == [0, 0];
    assert HIDDEN[13..] == CUT_HEADER == TRUNCATED[2..];
  }
}
