/** What the parser of StreamParser makes of streams written as ITU-T T.81 describes them. */
module HeaderParse {
  import opened AppMarker
  import opened Bytes
  import opened Exif
  import opened JpegStream
  import opened StreamParser
  import opened Wrappers

  /** A marker segment (section B.1.1.4): the marker, the length with its own two bytes, the parameters. */
  datatype Segment = Segment(marker: byte, parameters: seq<byte>) {
    predicate Valid() {
      |parameters| <= 65533
    }

    function Bytes(): seq<byte>
      requires Valid()
    {
      var len := |parameters| + 2;
      [0xFF, marker, len / 256, len % 256] + parameters
    }
  }

  function SegmentsBytes(segs: seq<Segment>): seq<byte>
    requires forall k | 0 <= k < |segs| :: segs[k].Valid()
  {
    if segs == [] then [] else segs[0].Bytes() + SegmentsBytes(segs[1..])
  }

  /** DHT is passed over, with DQT, DRI, COM, APPn and what else is neither a frame header, DAC, DNL nor EOI. */
  predicate Passed(marker: byte) {
    marker !in {0xC0, 0xC1, 0xC2, 0xC3, 0xC5, 0xC6, 0xC7, 0xC8, 0xC9, 0xCA, 0xCB, 0xCC, 0xCD, 0xCE, 0xCF, 0xD9, 0xDC}
  }

  /** A component's specification in a frame header (section B.2.2). */
  datatype Component = Component(id: byte, horizontal: nat, vertical: nat, table: byte) {
    predicate Valid() {
      horizontal <= 15 && vertical <= 15
    }

    function Bytes(): seq<byte>
      requires Valid()
    {
      [id, 16 * horizontal + vertical, table]
    }
  }

  /** A baseline frame header of three components (section B.2.2): lines before samples per line. */
  datatype FrameHeader = FrameHeader(lines: u16, samples: u16, y: Component, cb: Component, cr: Component) {
    predicate Valid() {
      y.Valid() && cb.Valid() && cr.Valid()
    }

    function Bytes(): seq<byte>
      requires Valid()
    {
      [0xFF, 0xC0, 0, 17, 8, lines / 256, lines % 256, samples / 256, samples % 256, 3] + y.Bytes() + cb.Bytes() + cr.Bytes()
    }

    /** What the hardware decodes. */
    predicate Supported() {
      && 8 <= lines <= 16383 && 8 <= samples <= 16383 && 1 <= y.horizontal <= 2 && 1 <= y.vertical <= 2
    }
  }

  lemma PassedMarkers(marker: byte)
    ensures Passed(marker) <==> !IsUnsupported(marker) && marker != 0xC0
    ensures Passed(0xC4) && Passed(0xDB) && Passed(0xDD) && Passed(0xFE) && Passed(0xE0) && Passed(0xEF)
  {
  }

  /** A length as it is written and read. */
  lemma LengthRead(s: seq<byte>, at: nat, v: u16)
    requires at + 2 <= |s| && s[at] == v / 256 && s[at + 1] == v % 256
    ensures SegLen(s, at) == v
  {
    assert s[at..at + 2] == [v / 256, v % 256];
  }

  /** The parser passes over segments, whatever is in them. */
  lemma {:induction false} SegmentsPassed(s: seq<byte>, addr: nat, segs: seq<Segment>, filelen: nat)
    requires forall k | 0 <= k < |segs| :: segs[k].Valid() && Passed(segs[k].marker)
    requires addr + |SegmentsBytes(segs)| <= |s| && s[addr..addr + |SegmentsBytes(segs)|] == SegmentsBytes(segs)
    requires filelen >= |s| - addr
    ensures var end := addr + |SegmentsBytes(segs)|;
      ParseFrom(s, addr, filelen) == ParseFrom(s, end, filelen - |SegmentsBytes(segs)| + 2 * |segs|)
    decreases |segs|
  {
    hide ParseFrom, SegLen, IsUnsupported, FrameAt;
    if segs != [] {
      var first, tail := segs[0], SegmentsBytes(segs[1..]);
      var len := |first.parameters| + 2;
      assert SegmentsBytes(segs) == first.Bytes() + tail;
      var here := s[addr..addr + |SegmentsBytes(segs)|];
      assert here[0] == 0xFF && here[1] == first.marker && here[2] == len / 256 && here[3] == len % 256;
      assert s[addr] == here[0] && s[addr + 1] == here[1] && s[addr + 2] == here[2] && s[addr + 3] == here[3];
      LengthRead(s, addr + 2, len);
      PassedMarkers(first.marker);
      OnePassed(s, addr, filelen);
      assert s[addr + 2 + len..addr + 2 + len + |tail|] == here[2 + len..] == tail;
      SegmentsPassed(s, addr + 2 + len, segs[1..], filelen - len);
    }
  }

  lemma OnePassed(s: seq<byte>, addr: nat, filelen: nat)
    requires addr + 4 <= |s| && s[addr] == 0xFF && !IsUnsupported(s[addr + 1]) && s[addr + 1] != 0xC0
    requires SegLen(s, addr + 2) > 0 && addr + 2 + SegLen(s, addr + 2) <= |s| <= addr + filelen
    ensures ParseFrom(s, addr, filelen) == ParseFrom(s, addr + 2 + SegLen(s, addr + 2), filelen - SegLen(s, addr + 2))
  {
    hide SegLen, FrameAt;
  }

  /** A frame header's fields are those it was written from. */
  lemma FrameRead(s: seq<byte>, at: nat, h: FrameHeader)
    requires h.Valid() && at + |h.Bytes()| <= |s| && s[at..at + |h.Bytes()|] == h.Bytes()
    ensures at + 4 <= |s| && s[at] == 0xFF && s[at + 1] == 0xC0 && SegLen(s, at + 2) == 17
    ensures FrameAt(s, at + 2)
         == if h.Supported() then Frame(h.samples, h.lines, h.y.horizontal, h.y.vertical) else Rejected
  {
    hide SegLen;
    var b := h.Bytes();
    assert forall i | at <= i < at + |b| :: s[i] == b[i - at] by {
      assert forall i | at <= i < at + |b| :: s[i] == s[at..at + |b|][i - at];
    }
    assert b[11] == h.y.Bytes()[1] == 16 * h.y.horizontal + h.y.vertical;
    LengthRead(s, at + 2, 17);
    LengthRead(s, at + 5, h.lines);
    LengthRead(s, at + 7, h.samples);
  }

  /**
    Every stream that starts with SOI, segments to pass over and a frame header of three components is parsed as its header
    says, whatever follows: samples per line as width, lines as height, and the first component's factors, when the
    hardware supports them.
    */
  lemma {:induction false} HeaderParsed(segs: seq<Segment>, h: FrameHeader, rest: seq<byte>)
    requires h.Valid() && forall k | 0 <= k < |segs| :: segs[k].Valid() && Passed(segs[k].marker)
    ensures ParseStream([0xFF, 0xD8] + SegmentsBytes(segs) + h.Bytes() + rest)
         == if h.Supported() then Frame(h.samples, h.lines, h.y.horizontal, h.y.vertical) else Rejected
  {
    hide ParseFrom, FrameAt, SegLen;
    var front, b := SegmentsBytes(segs), h.Bytes();
    var s := [0xFF, 0xD8] + front + b + rest;
    var at := 2 + |front|;
    assert s[2..at] == front && s[at..at + |b|] == b;
    SegmentsPassed(s, 2, segs, |s| - 2);
    FrameRead(s, at, h);
    FrameReached(s, at, |s| - 2 - |front| + 2 * |segs|);
  }

  /** And so is a finished stream with it as main stream, behind all its segments. */
  lemma {:induction false} AssembledHeaderParsed(mem: seq<byte>, n: nat, e: Option<Attributes>, d: Option<Debug>,
                                                 reserved: bool, thumb: seq<byte>, gap: nat, pad: nat, main: seq<byte>,
                                                 segs: seq<Segment>, h: FrameHeader, rest: seq<byte>)
    requires (e.Some? ==> Exif.Valid(e.value) && App1Size(e.value) + |thumb| + gap <= JPEG_MAX_SEGMENT_SIZE)
    requires d.Some? ==> d.value.Accepted()
    requires Assembled(mem, e, d, reserved, thumb, gap, pad, main) && pad < 16
    requires n == StreamLength(e, d, |thumb| + gap, pad, main) && n <= |mem|
    requires h.Valid() && h.Supported() && forall k | 0 <= k < |segs| :: segs[k].Valid() && Passed(segs[k].marker)
    requires main == [0xFF, 0xD8] + SegmentsBytes(segs) + h.Bytes() + rest
    ensures ParseStream(mem[..n]) == Frame(h.samples, h.lines, h.y.horizontal, h.y.vertical)
  {
    hide ParseStream, SegmentsBytes, Assembled, Exif.Valid, App1Size, StreamLength, Debug.Accepted, FrameFits, Remainder;
    hide FrameHeader.Bytes, FrameHeader.Supported;
    HeaderParsed(segs, h, rest);
    assert main[..2] == [0xFF, 0xD8];
    AssembledExactly(mem, n, e, d, reserved, thumb, gap, pad, main);
  }

  lemma FrameReached(s: seq<byte>, at: nat, filelen: nat)
    requires at + 19 <= |s| <= at + filelen && s[at] == 0xFF && s[at + 1] == 0xC0 && SegLen(s, at + 2) == 17
    ensures ParseFrom(s, at, filelen) == FrameAt(s, at + 2)
  {
    hide SegLen, FrameAt;
  }

  /** Behind such segments a frame of another kind, DAC, DNL or EOI ends the search. */
  lemma {:induction false} OtherRejected(segs: seq<Segment>, marker: byte, rest: seq<byte>)
    requires forall k | 0 <= k < |segs| :: segs[k].Valid() && Passed(segs[k].marker)
    requires !Passed(marker) && marker != 0xC0
    ensures ParseStream([0xFF, 0xD8] + SegmentsBytes(segs) + [0xFF, marker] + rest) == Rejected
  {
    hide FrameAt, SegLen, SegmentsBytes, IsUnsupported;
    var front := SegmentsBytes(segs);
    var s := [0xFF, 0xD8] + front + [0xFF, marker] + rest;
    assert s[2..2 + |front|] == front && s[2 + |front|] == 0xFF && s[2 + |front| + 1] == marker;
    SegmentsPassed(s, 2, segs, |s| - 2);
    PassedMarkers(marker);
  }

  /** An ordinary 4:2:2 header: two luminance samples to one of each colour along a line, one down a column. */
  lemma {:induction false} HalfWidthColour()
    ensures ParseStream(HALF_WIDTH) == Frame(32, 16, 2, 1)
  {
    hide ParseStream;
    var h := FrameHeader(16, 32, Component(1, 2, 1, 0), Component(2, 1, 1, 1), Component(3, 1, 1, 1));
    HeaderParsed([], h, []);
    assert HALF_WIDTH == [0xFF, 0xD8] + h.Bytes();
    assert [0xFF, 0xD8] + SegmentsBytes([]) + h.Bytes() + [] == [0xFF, 0xD8] + h.Bytes();
  }

  const HALF_WIDTH: seq<byte> :=
    [0xFF, 0xD8, 0xFF, 0xC0, 0, 17, 8, 0, 16, 0, 32, 3, 1, 0x21, 0, 2, 0x11, 1, 3, 0x11, 1]
}
