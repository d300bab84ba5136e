/** When UpdateDebugData stores everything, and when it writes or reads behind the stream. */
module DebugOutcome {
  import opened AppMarker
  import opened Bytes
  import opened DebugUpdate
  import opened Wrappers

  /** A complete segment of a stream: where its marker is, its number if it is an APPn, its length field. */
  datatype Segment = Segment(at: nat, id: int, len: u16)

  predicate IsEnd(marker: byte) {
    marker == 0xDA || marker == 0xD9
  }

  function AppId(marker: byte): int {
    if marker / 0x10 == 0xE then marker % 0x10 else -1
  }

  /** The bytes the loop passes over for a segment: a length of zero counts as one. */
  function Step(len: u16): nat {
    2 + if len == 0 then 1 else len as nat
  }

  /** A complete segment starts here, and neither SOS nor EOI. */
  predicate HasSegment(mem: seq<byte>, p: nat) {
    && p + 4 <= |mem| && mem[p] == 0xFF && !IsEnd(mem[p + 1]) && p + Step(SegLen(mem, p + 2)) <= |mem|
  }

  function SegmentOf(mem: seq<byte>, p: nat): Segment
    requires HasSegment(mem, p)
  {
    Segment(p, AppId(mem[p + 1]), SegLen(mem, p + 2))
  }

  /** The complete segments from `p` on, and where they end. */
  function Walk(mem: seq<byte>, p: nat): seq<Segment>
    decreases |mem| - p
  {
    if HasSegment(mem, p) then [SegmentOf(mem, p)] + Walk(mem, p + Step(SegLen(mem, p + 2))) else []
  }

  function WalkEnd(mem: seq<byte>, p: nat): (q: nat)
    requires p <= |mem|
    ensures p <= q <= |mem| && !HasSegment(mem, q)
    decreases |mem| - p
  {
    if HasSegment(mem, p) then WalkEnd(mem, p + Step(SegLen(mem, p + 2))) else p
  }

  predicate Matches(d: Debug, s: Segment) {
    s.id in d.ids
  }

  /** What a segment takes from the bytes still to be stored. */
  function Cost(d: Debug, s: Segment): nat {
    if Matches(d, s) then |d.Data(s.id)| + 4 else 0
  }

  function Spent(d: Debug, segs: seq<Segment>): nat {
    if segs == [] then 0 else Cost(d, segs[0]) + Spent(d, segs[1..])
  }

  /** Every matching segment has room for its bytes. */
  predicate Fits(d: Debug, segs: seq<Segment>) {
    segs == [] || ((Matches(d, segs[0]) ==> |d.Data(segs[0].id)| + 2 <= segs[0].len as nat) && Fits(d, segs[1..]))
  }

  /** Behind the complete segments the stream breaks off inside a length field or inside a matching segment
      that is long enough. */
  predicate BreaksOff(mem: seq<byte>, q: nat, d: Debug) {
    && q + 1 < |mem| && mem[q] == 0xFF && !IsEnd(mem[q + 1])
    && (|mem| < q + 4
        || (AppId(mem[q + 1]) in d.ids && |d.Data(AppId(mem[q + 1]))| + 2 <= SegLen(mem, q + 2) as nat))
  }

  /** Behind the complete segments the stream ends inside another segment, which does not match. */
  predicate RunsOut(mem: seq<byte>, q: nat, d: Debug) {
    && q + 4 <= |mem| && mem[q] == 0xFF && !IsEnd(mem[q + 1]) && AppId(mem[q + 1]) !in d.ids
    && |mem| < q + Step(SegLen(mem, q + 2))
  }

  /** The loop's count of bytes still to be stored, in size_t. */
  function Word(v: int): nat {
    v % 0x1_0000_0000_0000_0000
  }

  // ----- One round ------------------------------------------------------------------------------

  /** Two memories with the same bytes from `p` on look the same from there. */
  lemma SameView(mem: seq<byte>, m: seq<byte>, p: nat)
    requires |m| == |mem| && Agree(mem, m, p, |mem|)
    ensures p < |mem| ==> m[p] == mem[p]
    ensures p + 1 < |mem| ==> m[p + 1] == mem[p + 1]
    ensures p + 4 <= |mem| ==> SegLen(m, p + 2) == SegLen(mem, p + 2)
  {
    if p + 4 <= |mem| {
      assert m[p + 2..p + 4] == mem[p + 2..p + 4];
    }
  }

  lemma AcceptedData(d: Debug, id: int)
    requires d.Accepted() && id in d.ids
    ensures EXTRA_APPMARKER_MIN <= id < EXTRA_APPMARKER_LIMIT && 0 < |d.Data(id)| <= 65433
  {
    var k :| 0 <= k < |d.ids| && d.ids[k] == id;
    assert d.AcceptedId(d.ids[k]);
  }

  lemma MatchedId(d: Debug, marker: byte)
    requires d.Accepted()
    ensures AppId(marker) in d.ids <==> marker / 0x10 == 0xE && marker % 0x10 in d.ids
  {
    if -1 in d.ids {
      AcceptedData(d, -1);
    }
  }

  /** The loop at a complete segment that fits. */
  lemma Passes(m: seq<byte>, d: Debug, p: nat, v: int)
    requires d.Accepted() && HasSegment(m, p) && 0 < v < |m| - p < 0x1_0000_0000_0000_0000
    requires Fits(d, [SegmentOf(m, p)])
    ensures var s := SegmentOf(m, p);
      var m' := if Matches(d, s) then Splice(m, p + 4, d.Data(s.id)) else m;
      UpdateFrom(m, d, p, v) == UpdateFrom(m', d, p + Step(s.len), Word(v - Cost(d, s)))
  {
    hide UpdateFrom, Splice, SegLen, Debug.Accepted, Debug.Data;
    MatchedId(d, m[p + 1]);
    UpdateGoes(m, d, p, v);
  }

  /** The loop at a complete segment that is too short for its bytes. */
  lemma Refuses(m: seq<byte>, d: Debug, p: nat, v: int)
    requires d.Accepted() && HasSegment(m, p) && 0 < v < |m| - p && !Fits(d, [SegmentOf(m, p)])
    ensures UpdateFrom(m, d, p, v) == Result(Failed, m)
  {
    hide UpdateFrom, Splice, SegLen, Debug.Accepted, Debug.Data;
    MatchedId(d, m[p + 1]);
    UpdateGoes(m, d, p, v);
  }

  /** The loop behind the complete segments. */
  lemma EndsThere(m: seq<byte>, d: Debug, q: nat, v: int)
    requires d.Accepted() && q <= |m| && !HasSegment(m, q) && 0 < v < |m| - q
    ensures UpdateFrom(m, d, q, v).outcome
         == if BreaksOff(m, q, d) then OutOfBounds
            else if m[q] == 0xFF && IsEnd(m[q + 1]) then Failed
            else if m[q] == 0xFF && AppId(m[q + 1]) in d.ids then Failed
            else if m[q] == 0xFF then LooksBehind
            else Updated
  {
    hide UpdateFrom, Splice, SegLen, Debug.Accepted, Debug.Data;
    MatchedId(d, m[q + 1]);
    if m[q] == 0xFF {
      UpdateGoes(m, d, q, v);
      var r := RoundAt(m, d, q, v);
      if r.stop.None? {
        UpdateEnds(r.mem, d, r.p, r.valid);
      }
    } else {
      UpdateEnds(m, d, q, v);
    }
  }

  /** The loop when nothing is left to store, or no more room than that. */
  lemma StopsThere(m: seq<byte>, d: Debug, p: nat, v: int)
    requires p <= |m| < 0x1000_0000_0000_0000 && -0x2_0000 <= v <= 0x10_0000 && !(0 < v < |m| - p)
    ensures UpdateFrom(m, d, p, Word(v)) == Result(if p == |m| then LooksBehind else Updated, m)
  {
    hide UpdateFrom;
    UpdateEnds(m, d, p, Word(v));
  }

  // ----- All rounds -----------------------------------------------------------------------------------

  /** The matching segments' bytes stored. */
  function Stored(m: seq<byte>, d: Debug, segs: seq<Segment>): (r: seq<byte>)
    ensures |r| == |m|
    decreases |segs|
  {
    if segs == [] then m
    else
      var s := segs[0];
      Stored(if Matches(d, s) then Splice(m, s.at + 4, d.Data(s.id)) else m, d, segs[1..])
  }

  /** How many segments the loop gets through: up to one that is too short, or until nothing is left to store,
      or no more room than that. */
  function Done(d: Debug, segs: seq<Segment>, n: nat, v: int): (k: nat)
    ensures k <= |segs|
  {
    if segs == [] || !(0 < v < n - segs[0].at) || !Fits(d, [segs[0]]) then 0
    else 1 + Done(d, segs[1..], n, v - Cost(d, segs[0]))
  }

  function PlaceOf(segs: seq<Segment>, q: nat, k: nat): nat
    requires k <= |segs|
  {
    if k < |segs| then segs[k].at else q
  }

  lemma WalkSteps(mem: seq<byte>, p: nat)
    requires p <= |mem| && HasSegment(mem, p)
    ensures var next := p + Step(SegLen(mem, p + 2));
      next <= |mem| && Walk(mem, p) == [SegmentOf(mem, p)] + Walk(mem, next) && WalkEnd(mem, p) == WalkEnd(mem, next)
  {
  }

  lemma WalkStops(mem: seq<byte>, p: nat)
    requires p <= |mem| && !HasSegment(mem, p)
    ensures Walk(mem, p) == [] && WalkEnd(mem, p) == p
  {
  }

  lemma CostBound(d: Debug, s: Segment)
    requires d.Accepted()
    ensures Cost(d, s) <= 65437 && (Matches(d, s) ==> Cost(d, s) > 0)
  {
    if Matches(d, s) {
      AcceptedData(d, s.id);
    }
  }

  lemma SameSegment(mem: seq<byte>, m: seq<byte>, p: nat)
    requires |m| == |mem| && Agree(mem, m, p, |mem|)
    ensures HasSegment(m, p) <==> HasSegment(mem, p)
    ensures HasSegment(mem, p) ==> SegmentOf(m, p) == SegmentOf(mem, p)
  {
    hide SegLen;
    SameView(mem, m, p);
  }

  /** The segments gone through, when the first is among them. */
  lemma GoesOn(m: seq<byte>, d: Debug, s: Segment, rest: seq<Segment>, q: nat, n: nat, v: int)
    requires 0 < v < n - s.at && Fits(d, [s])
    ensures var segs, k := [s] + rest, Done(d, rest, n, v - Cost(d, s));
      && Done(d, segs, n, v) == k + 1
      && Spent(d, segs[..k + 1]) == Cost(d, s) + Spent(d, rest[..k])
      && Stored(m, d, segs[..k + 1]) == Stored(if Matches(d, s) then Splice(m, s.at + 4, d.Data(s.id)) else m, d, rest[..k])
      && PlaceOf(segs, q, k + 1) == PlaceOf(rest, q, k)
  {
    hide Splice, Cost, Matches;
    var segs, k := [s] + rest, Done(d, rest, n, v - Cost(d, s));
    assert segs[1..] == rest && segs[..k + 1][1..] == rest[..k];
  }

  /** And when it is not, or there is none. */
  lemma GoesNowhere(m: seq<byte>, d: Debug, segs: seq<Segment>, n: nat, v: int)
    requires segs == [] || !(0 < v < n - segs[0].at && Fits(d, [segs[0]]))
    ensures Done(d, segs, n, v) == 0 && Spent(d, segs[..0]) == 0 && Stored(m, d, segs[..0]) == m
  {
  }

  /** The loop gets through the first `Done` segments, stores the bytes of those that match, and stands at the next. */
  lemma {:induction false} Runs(mem: seq<byte>, m: seq<byte>, d: Debug, p: nat, v: int)
    requires d.Accepted() && p <= |mem| == |m| < 0x1000_0000_0000_0000 && Agree(mem, m, p, |mem|)
    requires -0x2_0000 <= v <= 0x10_0000
    ensures var segs := Walk(mem, p);
      var k := Done(d, segs, |mem|, v);
      var q := PlaceOf(segs, WalkEnd(mem, p), k);
      var r := Stored(m, d, segs[..k]);
      && q <= |mem| && Agree(mem, r, q, |mem|) && -0x2_0000 <= v - Spent(d, segs[..k]) <= 0x10_0000
      && UpdateFrom(m, d, p, Word(v)) == UpdateFrom(r, d, q, Word(v - Spent(d, segs[..k])))
    decreases |mem| - p
  {
    hide UpdateFrom, Debug.Accepted, Debug.Data, SegLen, Splice, Agree, Walk, WalkEnd, Word, HasSegment, SegmentOf;
    hide Done, Spent, Stored, Fits, Cost, Matches;
    var segs := Walk(mem, p);
    if HasSegment(mem, p) {
      WalkSteps(mem, p);
      SameSegment(mem, m, p);
      AtSegment(mem, p);
      var s, next := SegmentOf(mem, p), p + Step(SegLen(mem, p + 2));
      if 0 < v < |mem| - p && Fits(d, [s]) {
        var m' := if Matches(d, s) then Splice(m, p + 4, d.Data(s.id)) else m;
        CostBound(d, s);
        Passes(m, d, p, v);
        WordSmall(v);
        Carried(mem, m, d, p, s);
        Runs(mem, m', d, next, v - Cost(d, s));
        GoesOn(m, d, s, Walk(mem, next), WalkEnd(mem, p), |mem|, v);
      } else {
        GoesNowhere(m, d, segs, |mem|, v);
      }
    } else {
      WalkStops(mem, p);
      GoesNowhere(m, d, segs, |mem|, v);
    }
  }

  /** What is behind the segment stays as it was. */
  lemma Carried(mem: seq<byte>, m: seq<byte>, d: Debug, p: nat, s: Segment)
    requires |m| == |mem| && Agree(mem, m, p, |mem|) && Fits(d, [s])
    ensures Agree(mem, if Matches(d, s) then Splice(m, p + 4, d.Data(s.id)) else m, p + Step(s.len), |mem|)
  {
  }

  lemma AtSegment(mem: seq<byte>, p: nat)
    requires HasSegment(mem, p)
    ensures p + 4 <= |mem| && SegmentOf(mem, p).at == p && SegmentOf(mem, p).len == SegLen(mem, p + 2)
  {
  }

  lemma WordSmall(v: int)
    requires 0 <= v <= 0x10_0000
    ensures Word(v) == v
  {
  }

  // ----- How far it gets ---------------------------------------------------------------------------------

  /** The segments that fit take at least as many bytes as are stored into them. */
  lemma {:induction false} SpentInside(mem: seq<byte>, p: nat, d: Debug, j: nat)
    requires p <= |mem| && j <= |Walk(mem, p)| && Fits(d, Walk(mem, p)[..j])
    ensures p + Spent(d, Walk(mem, p)[..j]) <= PlaceOf(Walk(mem, p), WalkEnd(mem, p), j) <= |mem|
    decreases j
  {
    hide SegLen, HasSegment, Walk, WalkEnd, Cost;
    var segs := Walk(mem, p);
    if HasSegment(mem, p) {
      WalkSteps(mem, p);
      AtSegment(mem, p);
      var next := p + Step(SegLen(mem, p + 2));
      if j > 0 {
        assert segs[..j][1..] == Walk(mem, next)[..j - 1];
        SpentInside(mem, next, d, j - 1);
        CostInside(d, segs[0]);
      }
    } else {
      WalkStops(mem, p);
    }
  }

  lemma CostInside(d: Debug, s: Segment)
    requires Fits(d, [s])
    ensures Cost(d, s) <= Step(s.len)
  {
  }

  /** The loop is at segment `j` with bytes to store, and more room than that. */
  predicate Goes(d: Debug, segs: seq<Segment>, q: nat, n: nat, v: int, j: nat)
    requires j <= |segs|
  {
    Fits(d, segs[..j]) && 0 < v - Spent(d, segs[..j]) < n - PlaceOf(segs, q, j)
  }

  lemma {:induction false} FitsConcat(d: Debug, a: seq<Segment>, b: seq<Segment>)
    ensures Fits(d, a + b) <==> Fits(d, a) && Fits(d, b)
    ensures Spent(d, a + b) == Spent(d, a) + Spent(d, b)
  {
    hide Cost, Matches;
    if a == [] {
      assert a + b == b;
    } else {
      assert (a + b)[1..] == a[1..] + b;
      FitsConcat(d, a[1..], b);
    }
  }

  /** Segment `j` is gone through exactly when the loop gets there with bytes to store and more room, and
      it fits; the earlier segments need not be looked at one by one. */
  lemma {:induction false} DoneExactly(mem: seq<byte>, p: nat, d: Debug, v: int, j: nat)
    requires p <= |mem| && j < |Walk(mem, p)|
    ensures var segs := Walk(mem, p);
      j < Done(d, segs, |mem|, v) <==> Goes(d, segs, WalkEnd(mem, p), |mem|, v, j) && Fits(d, [segs[j]])
    decreases j
  {
    hide SegLen, HasSegment, Walk, WalkEnd, Cost, Fits, Spent;
    var segs, q := Walk(mem, p), WalkEnd(mem, p);
    if !HasSegment(mem, p) {
      WalkStops(mem, p);
    } else {
      WalkSteps(mem, p);
      AtSegment(mem, p);
      var s, next := segs[0], p + Step(SegLen(mem, p + 2));
      var rest := Walk(mem, next);
      NoneSpent(d);
      assert segs[..0] == [];
      if j > 0 {
        DoneExactly(mem, next, d, v - Cost(d, s), j - 1);
        assert segs[..j] == [s] + rest[..j - 1];
        FitsConcat(d, [s], rest[..j - 1]);
        OneSpent(d, s);
        if Fits(d, segs[..j]) {
          SpentInside(mem, p, d, j);
        }
        assert segs[1..] == rest;
      }
    }
  }

  lemma NoneSpent(d: Debug)
    ensures Spent(d, []) == 0 && Fits(d, [])
  {
  }

  lemma OneSpent(d: Debug, s: Segment)
    ensures Spent(d, [s]) == Cost(d, s)
  {
    assert [s][1..] == [];
  }

  /** Where the loop goes on, it has gone through all segments before. */
  lemma GoesDone(mem: seq<byte>, p: nat, d: Debug, v: int, j: nat)
    requires p <= |mem| && j <= |Walk(mem, p)| && Goes(d, Walk(mem, p), WalkEnd(mem, p), |mem|, v, j)
    ensures j <= Done(d, Walk(mem, p), |mem|, v)
  {
    hide SegLen, HasSegment, Walk, WalkEnd, Cost, Fits, Spent, Done;
    var segs := Walk(mem, p);
    if j > 0 {
      var last := segs[j - 1];
      assert segs[..j] == segs[..j - 1] + [last];
      FitsConcat(d, segs[..j - 1], [last]);
      OneSpent(d, last);
      LastStep(mem, p, j - 1);
      CostInside(d, last);
      DoneExactly(mem, p, d, v, j - 1);
    }
  }

  /** Where the next segment is. */
  lemma {:induction false} LastStep(mem: seq<byte>, p: nat, j: nat)
    requires p <= |mem| && j < |Walk(mem, p)|
    ensures var segs := Walk(mem, p);
      PlaceOf(segs, WalkEnd(mem, p), j + 1) == segs[j].at + Step(segs[j].len) <= |mem|
    decreases j
  {
    hide SegLen, HasSegment, Walk, WalkEnd;
    if HasSegment(mem, p) {
      WalkSteps(mem, p);
      AtSegment(mem, p);
      var next := p + Step(SegLen(mem, p + 2));
      if j > 0 {
        LastStep(mem, next, j - 1);
      } else {
        FirstPlace(mem, next);
      }
    } else {
      WalkStops(mem, p);
    }
  }

  lemma FirstPlace(mem: seq<byte>, p: nat)
    requires p <= |mem|
    ensures PlaceOf(Walk(mem, p), WalkEnd(mem, p), 0) == p
  {
  }

  // ----- The outcomes --------------------------------------------------------------------------------------

  /** The loop is run: the record is acceptable, and the stream has a SOI and enough bytes. */
  predicate Runnable(mem: seq<byte>, d: Debug) {
    d.Accepted() && |mem| >= AppxSize(d, |d.ids|) + 2 && mem[0] == 0xFF && mem[1] == 0xD8
  }

  lemma AcceptedSize(d: Debug)
    requires d.Accepted()
    ensures ExtraSize(d) == AppxSize(d, |d.ids|) <= 0x10_0000 && |d.ids| <= 6
  {
    AppxSizeBounded(d, |d.ids|);
  }

  /** What is behind the complete segments makes the update fail. */
  predicate Blocked(mem: seq<byte>, q: nat, d: Debug) {
    && q + 1 < |mem| && mem[q] == 0xFF
    && (IsEnd(mem[q + 1]) || (!BreaksOff(mem, q, d) && AppId(mem[q + 1]) in d.ids))
  }

  lemma SameEnd(mem: seq<byte>, m: seq<byte>, q: nat, d: Debug)
    requires q <= |m| == |mem| && Agree(mem, m, q, |mem|)
    ensures BreaksOff(m, q, d) <==> BreaksOff(mem, q, d)
    ensures Blocked(m, q, d) <==> Blocked(mem, q, d)
    ensures RunsOut(m, q, d) <==> RunsOut(mem, q, d)
  {
    hide SegLen;
    SameView(mem, m, q);
  }

  /** The outcome, by where the loop comes to a stop. */
  lemma OutcomeAtStop(mem: seq<byte>, d: Debug)
    requires Runnable(mem, d) && |mem| < 0x1000_0000_0000_0000
    ensures var segs, q, v := Walk(mem, 2), WalkEnd(mem, 2), AppxSize(d, |d.ids|);
      var k := Done(d, segs, |mem|, v);
      var left := v - Spent(d, segs[..k]);
      var r := Update(mem, Some(d));
      && (r.outcome in {Updated, LooksBehind} ==> r.mem == Stored(mem, d, segs[..k]))
      && r.outcome == if PlaceOf(segs, q, k) == |mem| then LooksBehind
                      else if !(0 < left < |mem| - PlaceOf(segs, q, k)) then Updated
                      else if k < |segs| then Failed
                      else if BreaksOff(mem, q, d) then OutOfBounds
                      else if Blocked(mem, q, d) then Failed
                      else if RunsOut(mem, q, d) then LooksBehind else Updated
  {
    hide UpdateFrom, SegLen, HasSegment, Walk, WalkEnd, Cost, Fits, Spent, Done, Stored, Debug.Accepted, Agree;
    hide BreaksOff, Blocked, RunsOut, Word, SegmentOf;
    var segs, q, v := Walk(mem, 2), WalkEnd(mem, 2), AppxSize(d, |d.ids|);
    AcceptedSize(d);
    AgreeSelf(mem);
    Runs(mem, mem, d, 2, v);
    WordSmall(v);
    var k := Done(d, segs, |mem|, v);
    var r := Stored(mem, d, segs[..k]);
    var p, left := PlaceOf(segs, q, k), v - Spent(d, segs[..k]);
    if !(0 < left < |mem| - p) {
      StopsThere(r, d, p, left);
    } else {
      WordSmall(left);
      if k < |segs| {
        DoneStops(d, segs, |mem|, v);
        SegmentThere(mem, 2, k);
        SameSegment(mem, r, p);
        Refuses(r, d, p, left);
      } else {
        SameSegment(mem, r, p);
        SameEnd(mem, r, p, d);
        EndsBehind(r, d, p, left, segs);
      }
    }
  }

  lemma AgreeSelf(mem: seq<byte>)
    ensures Agree(mem, mem, 2, |mem|)
  {
  }

  /** The loop behind the complete segments, and what it has stored when it goes on to the end. */
  lemma EndsBehind(m: seq<byte>, d: Debug, q: nat, v: int, segs: seq<Segment>)
    requires d.Accepted() && q <= |m| && !HasSegment(m, q) && 0 < v < |m| - q
    ensures UpdateFrom(m, d, q, v).outcome
         == if BreaksOff(m, q, d) then OutOfBounds else if Blocked(m, q, d) then Failed
            else if RunsOut(m, q, d) then LooksBehind else Updated
    ensures UpdateFrom(m, d, q, v).outcome in {Updated, LooksBehind} ==> UpdateFrom(m, d, q, v).mem == m
  {
    hide UpdateFrom, Splice, SegLen, Debug.Accepted, Debug.Data;
    EndsThere(m, d, q, v);
    MatchedId(d, m[q + 1]);
    if m[q] == 0xFF {
      UpdateGoes(m, d, q, v);
      var r := RoundAt(m, d, q, v);
      if r.stop.None? {
        UpdateEnds(r.mem, d, r.p, r.valid);
      }
    } else {
      UpdateEnds(m, d, q, v);
    }
  }

  /** Segment `k` is where it says. */
  lemma {:induction false} SegmentThere(mem: seq<byte>, p: nat, k: nat)
    requires p <= |mem| && k < |Walk(mem, p)|
    ensures var s := Walk(mem, p)[k]; HasSegment(mem, s.at) && SegmentOf(mem, s.at) == s
    decreases k
  {
    hide SegLen, Walk, WalkEnd;
    if HasSegment(mem, p) {
      WalkSteps(mem, p);
      if k > 0 {
        SegmentThere(mem, p + Step(SegLen(mem, p + 2)), k - 1);
      }
    } else {
      WalkStops(mem, p);
    }
  }

  /** Where the loop stops among the segments, it has nothing to do, or no room, or the segment does not fit. */
  lemma {:induction false} DoneStops(d: Debug, segs: seq<Segment>, n: nat, v: int)
    requires Done(d, segs, n, v) < |segs|
    ensures var k := Done(d, segs, n, v);
      !(0 < v - Spent(d, segs[..k]) < n - segs[k].at) || !Fits(d, [segs[k]])
    decreases |segs|
  {
    hide Cost, Fits;
    var k := Done(d, segs, n, v);
    if k > 0 {
      DoneStops(d, segs[1..], n, v - Cost(d, segs[0]));
      assert segs[..k][1..] == segs[1..][..k - 1];
    }
  }

  /** The loop runs through the segments to the end of the stream. */
  predicate ComesToEnd(mem: seq<byte>, d: Debug)
    requires 2 <= |mem|
  {
    var segs := Walk(mem, 2);
    WalkEnd(mem, 2) == |mem| && (segs == [] || Reached(mem, d, |segs| - 1))
  }

  /** A record that is not run has no effect. */
  lemma NotRun(mem: seq<byte>, d: Debug)
    requires !Runnable(mem, d)
    ensures Update(mem, Some(d)).outcome != OutOfBounds && Update(mem, Some(d)).mem == mem
    ensures Update(mem, Some(d)).outcome == LooksBehind
       <==> !d.Accepted() && |d.ids| <= EXTRA_APPMARKER_LIMIT - EXTRA_APPMARKER_MIN && mem == [0xFF, 0xD8]
  {
    if d.Accepted() {
      AcceptedSize(d);
    }
  }

  /**
    Exactly then UpdateDebugData accesses memory behind the stream and goes on from there: all complete segments have
    room for the bytes they match, bytes are left to be stored, fewer than there are behind those segments, and there
    the stream breaks off inside a length field or inside a matching segment.
    */
  lemma {:induction false} OverflowExactly(mem: seq<byte>, d: Debug)
    requires |mem| < 0x1000_0000_0000_0000
    ensures Update(mem, Some(d)).outcome == OutOfBounds
       <==> Runnable(mem, d) && BreaksOff(mem, WalkEnd(mem, 2), d)
            && Goes(d, Walk(mem, 2), WalkEnd(mem, 2), |mem|, AppxSize(d, |d.ids|), |Walk(mem, 2)|)
  {
    hide Update, Fits, Spent, Done, Walk, WalkEnd, BreaksOff, Blocked, RunsOut, Stored, Debug.Accepted;
    if !Runnable(mem, d) {
      NotRun(mem, d);
    } else {
      var segs, q, v := Walk(mem, 2), WalkEnd(mem, 2), AppxSize(d, |d.ids|);
      OutcomeAtStop(mem, d);
      if Goes(d, segs, q, |mem|, v, |segs|) {
        GoesDone(mem, 2, d, v, |segs|);
        assert segs[..|segs|] == segs;
      }
      if Done(d, segs, |mem|, v) == |segs| {
        DoneFits(d, segs, |mem|, v);
        assert segs[..|segs|] == segs;
      }
    }
  }

  /**
    And exactly then it only looks at the byte behind the stream: the loop comes to the end through complete segments;
    or, with bytes still to be stored, through one more that is cut off and does not match. For a record that is not
    accepted, only a lone SOI is that short.
    */
  lemma {:induction false} LooksBehindExactly(mem: seq<byte>, d: Debug)
    requires |mem| < 0x1000_0000_0000_0000
    ensures Update(mem, Some(d)).outcome == LooksBehind
       <==> if Runnable(mem, d)
            then ComesToEnd(mem, d)
                 || (RunsOut(mem, WalkEnd(mem, 2), d)
                     && Goes(d, Walk(mem, 2), WalkEnd(mem, 2), |mem|, AppxSize(d, |d.ids|), |Walk(mem, 2)|))
            else !d.Accepted() && |d.ids| <= EXTRA_APPMARKER_LIMIT - EXTRA_APPMARKER_MIN && mem == [0xFF, 0xD8]
  {
    hide Update, Fits, Spent, Done, Walk, WalkEnd, BreaksOff, Blocked, RunsOut, Stored, Debug.Accepted;
    if !Runnable(mem, d) {
      NotRun(mem, d);
    } else {
      var segs, q, v := Walk(mem, 2), WalkEnd(mem, 2), AppxSize(d, |d.ids|);
      var k := Done(d, segs, |mem|, v);
      OutcomeAtStop(mem, d);
      OneStop(mem, q, d);
      if Goes(d, segs, q, |mem|, v, |segs|) {
        GoesDone(mem, 2, d, v, |segs|);
        assert segs[..|segs|] == segs;
      }
      if k == |segs| {
        DoneFits(d, segs, |mem|, v);
        assert segs[..|segs|] == segs;
      } else {
        SegmentThere(mem, 2, k);
      }
      if segs != [] {
        DoneExactly(mem, 2, d, v, |segs| - 1);
      }
    }
  }

  /** Only one of the three can be behind the complete segments. */
  lemma OneStop(mem: seq<byte>, q: nat, d: Debug)
    ensures RunsOut(mem, q, d) ==> q < |mem| && !BreaksOff(mem, q, d) && !Blocked(mem, q, d)
  {
    hide SegLen;
  }

  lemma {:induction false} DoneFits(d: Debug, segs: seq<Segment>, n: nat, v: int)
    ensures Fits(d, segs[..Done(d, segs, n, v)])
    decreases |segs|
  {
    hide Cost;
    var k := Done(d, segs, n, v);
    if k > 0 {
      DoneFits(d, segs[1..], n, v - Cost(d, segs[0]));
      assert segs[..k][1..] == segs[1..][..k - 1];
    }
  }

  // ----- When everything is stored --------------------------------------------------------------------------

  /** The bytes of segment `j` are stored. */
  predicate Reached(mem: seq<byte>, d: Debug, j: nat)
    requires 2 <= |mem| && j < |Walk(mem, 2)|
  {
    var segs := Walk(mem, 2);
    Goes(d, segs, WalkEnd(mem, 2), |mem|, AppxSize(d, |d.ids|), j) && Fits(d, [segs[j]])
  }

  /**
    Success is reported, with or without a look behind the stream, exactly when the loop never comes, with bytes to store and room, to a segment too short for
    its bytes, to SOS or EOI, or to a segment that breaks off; and then the bytes stored are those of the segments
    reached. Success does not say that there are any: not of a record with an unacceptable segment, not when the
    stream has no segment for some bytes, and not when no more room is left than bytes.
    */
  lemma {:induction false} UpdatedExactly(mem: seq<byte>, d: Debug)
    requires |mem| < 0x1000_0000_0000_0000 && Runnable(mem, d)
    ensures var segs, q, v := Walk(mem, 2), WalkEnd(mem, 2), AppxSize(d, |d.ids|);
      Update(mem, Some(d)).outcome in {Updated, LooksBehind}
      <==> && (forall j | 0 <= j < |segs| :: Goes(d, segs, q, |mem|, v, j) ==> Fits(d, [segs[j]]))
           && (Goes(d, segs, q, |mem|, v, |segs|) ==> !BreaksOff(mem, q, d) && !Blocked(mem, q, d))
    ensures var segs := Walk(mem, 2);
      var k := Done(d, segs, |mem|, AppxSize(d, |d.ids|));
      && (Update(mem, Some(d)).outcome in {Updated, LooksBehind} ==> Update(mem, Some(d)).mem == Stored(mem, d, segs[..k]))
      && forall j | 0 <= j < |segs| :: j < k <==> Reached(mem, d, j)
  {
    hide Update, Fits, Spent, Done, Walk, WalkEnd, BreaksOff, Blocked, RunsOut, Stored, Debug.Accepted, Cost, Matches;
    var segs, q, v := Walk(mem, 2), WalkEnd(mem, 2), AppxSize(d, |d.ids|);
    var k := Done(d, segs, |mem|, v);
    OutcomeAtStop(mem, d);
    forall j | 0 <= j < |segs|
      ensures j < k <==> Reached(mem, d, j)
      ensures j < k ==> Fits(d, [segs[j]])
    {
      DoneExactly(mem, 2, d, v, j);
    }
    DoneFits(d, segs, |mem|, v);
    forall j | k < j <= |segs|
      ensures !Goes(d, segs, q, |mem|, v, j)
    {
      if Goes(d, segs, q, |mem|, v, j) {
        GoesDone(mem, 2, d, v, j);
      }
    }
    if k < |segs| {
      DoneStops(d, segs, |mem|, v);
      SegmentThere(mem, 2, k);
      assert Goes(d, segs, q, |mem|, v, k) ==> !Fits(d, [segs[k]]);
      assert forall j | 0 <= j < |segs| && j != k :: Goes(d, segs, q, |mem|, v, j) ==> Fits(d, [segs[j]]);
    } else {
      assert segs[..k] == segs;
    }
  }

  // ----- Instances -----------------------------------------------------------------------------------------------

  const RECORD := Debug([4, 5], [[], [], [], [], [1, 2, 3, 4, 5, 6, 7, 8], [9]])
  const APP4: seq<byte> := [0xFF, 0xE4, 0, 10]
  const REPEATED: seq<byte> := [0xFF, 0xD8] + APP4 + [0, 0, 0, 0, 0, 0, 0, 0] + APP4 + [0, 0]

  /** An accepted record, and a stream that repeats its first segment and ends inside the second copy: the copy
      is filled behind the end of the stream. */
  lemma {:induction false} OverflowWitness()
    ensures RECORD.Accepted() && Update(REPEATED, Some(RECORD)).outcome == OutOfBounds
  {
    hide UpdateFrom, Splice;
    var d, m := RECORD, REPEATED;
    assert d.AcceptedId(4) && d.AcceptedId(5);
    RecordSize();
    RepeatedBytes();
    UpdateGoes(m, d, 2, 17);
    var r := RoundAt(m, d, 2, 17);
    assert r.stop == None && r.p == 14 && r.valid == 5;
    SecondCopy(r.mem);
    UpdateGoes(r.mem, d, 14, 5);
  }

  lemma RecordSize()
    ensures RECORD.Accepted() && ExtraSize(RECORD) == 17
  {
    var d := RECORD;
    assert d.AcceptedId(4) && d.AcceptedId(5);
    assert AppxSize(d, 0) == 0 && AppxSize(d, 1) == 12 && AppxSize(d, 2) == 17;
  }

  lemma RepeatedBytes()
    ensures |REPEATED| == 20 && REPEATED[0] == 0xFF && REPEATED[1] == 0xD8 && REPEATED[2] == 0xFF && REPEATED[3] == 0xE4
    ensures SegLen(REPEATED, 4) == 10
    ensures REPEATED[14] == 0xFF && REPEATED[15] == 0xE4 && REPEATED[16] == 0 && REPEATED[17] == 10
  {
    assert REPEATED[4..6] == [0, 10];
  }

  lemma SecondCopy(m: seq<byte>)
    requires m == Splice(REPEATED, 6, RECORD.Data(4))
    ensures |m| == 20 && m[14] == 0xFF && m[15] == 0xE4 && SegLen(m, 16) == 10
  {
    RepeatedBytes();
    assert m[16..18] == [0, 10];
  }

  const SKIPPED: seq<byte> := [0xFF, 0xD8, 0xFF, 0xE0, 0, 6, 0, 0, 0, 0]

  /** A record of one byte, and a stream that is one complete segment of another kind: success, after a look
      behind the stream. */
  lemma {:induction false} LooksBehindWitness()
    ensures var d := Debug([4], [[], [], [], [], [1]]);
      d.Accepted() && Update(SKIPPED, Some(d)) == Result(LooksBehind, SKIPPED)
  {
    hide UpdateFrom;
    var d := Debug([4], [[], [], [], [], [1]]);
    assert d.AcceptedId(4);
    assert AppxSize(d, 0) == 0 && AppxSize(d, 1) == 5;
    assert SKIPPED[4..6] == [0, 6];
    UpdateGoes(SKIPPED, d, 2, 5);
    UpdateEnds(SKIPPED, d, 10, 5);
  }

  /** A stream without segments in front of its first other byte: nothing is stored, and success is reported. */
  lemma {:induction false} NothingToFill(mem: seq<byte>, d: Debug)
    requires |mem| < 0x1000_0000_0000_0000 && Runnable(mem, d) && Walk(mem, 2) == []
    requires !BreaksOff(mem, 2, d) && !Blocked(mem, 2, d)
    ensures Update(mem, Some(d)).outcome in {Updated, LooksBehind} && Update(mem, Some(d)).mem == mem
  {
    hide Update, BreaksOff, Blocked, Debug.Accepted;
    assert WalkEnd(mem, 2) == 2;
    UpdatedExactly(mem, d);
  }
}
