/**
  The camera's parameters (CameraParameters.cpp): a map from keys to values,
  printed as `key=value;key=value` and read back. Strings are sequences of bytes;
  `char` stands for one byte.
*/
module CameraParameters {
  import opened CameraSizes
  import opened Wrappers

  const KEY_PREVIEW_SIZE := "preview-size"

  datatype Pair = Pair(key: string, value: string)

  // ----- Sorted maps ---------------------------------------------------------------------------

  /** The order of keys: byte by byte. */
  predicate Less(a: string, b: string) {
    b != [] && (a == [] || a[0] < b[0] || (a[0] == b[0] && Less(a[1..], b[1..])))
  }

  lemma {:induction false} LessTransitive(a: string, b: string, c: string)
    requires Less(a, b) && Less(b, c)
    ensures Less(a, c)
  {
    if a != [] && a[0] == b[0] == c[0] {
      LessTransitive(a[1..], b[1..], c[1..]);
    }
  }

  lemma {:induction false} LessTotal(a: string, b: string)
    ensures Less(a, b) || a == b || Less(b, a)
    ensures !(Less(a, b) && Less(b, a)) && !Less(a, a)
  {
    if a != [] && b != [] {
      LessTotal(a[1..], b[1..]);
      LessTotal(a[1..], a[1..]);
    } else if a != [] {
      LessTotal(a[1..], a[1..]);
    }
  }

  /** KeyedVector keeps its pairs in the order of their keys. */
  ghost predicate Sorted(m: seq<Pair>) {
    forall i, j | 0 <= i < j < |m| :: Less(m[i].key, m[j].key)
  }

  /** KeyedVector::add and replaceValueFor: the key's value, in its place. */
  function Added(m: seq<Pair>, key: string, value: string): (r: seq<Pair>)
  {
    if m == [] then [Pair(key, value)]
    else if m[0].key == key then [Pair(key, value)] + m[1..]
    else if Less(key, m[0].key) then [Pair(key, value)] + m
    else [m[0]] + Added(m[1..], key, value)
  }

  function Removed(m: seq<Pair>, key: string): seq<Pair> {
    if m == [] then []
    else if m[0].key == key then m[1..]
    else [m[0]] + Removed(m[1..], key)
  }

  /** KeyedVector::valueFor: no value is the empty string. */
  function ValueFor(m: seq<Pair>, key: string): string {
    if m == [] then [] else if m[0].key == key then m[0].value else ValueFor(m[1..], key)
  }

  lemma {:induction false} AddedKeys(m: seq<Pair>, key: string, value: string)
    ensures forall p | p in Added(m, key, value) :: p == Pair(key, value) || p in m
    ensures Pair(key, value) in Added(m, key, value)
  {
    if m != [] && m[0].key != key && !Less(key, m[0].key) {
      AddedKeys(m[1..], key, value);
    }
  }

  lemma {:induction false} AddedSorted(m: seq<Pair>, key: string, value: string)
    requires Sorted(m)
    ensures Sorted(Added(m, key, value))
  {
    if m != [] && m[0].key != key {
      LessTotal(key, m[0].key);
      if Less(key, m[0].key) {
        forall j | 0 <= j < |m|
          ensures Less(key, m[j].key)
        {
          if j > 0 {
            LessTransitive(key, m[0].key, m[j].key);
          }
        }
      } else {
        var rest := Added(m[1..], key, value);
        AddedSorted(m[1..], key, value);
        AddedKeys(m[1..], key, value);
        forall j | 0 <= j < |rest|
          ensures Less(m[0].key, rest[j].key)
        {
          if rest[j] != Pair(key, value) {
            assert rest[j] in rest;
            var i :| 0 <= i < |m[1..]| && m[1..][i] == rest[j];
            assert m[i + 1] == rest[j];
          }
        }
      }
    }
  }

  lemma {:induction false} RemovedKeys(m: seq<Pair>, key: string)
    ensures forall p | p in Removed(m, key) :: p in m
  {
    if m != [] && m[0].key != key {
      RemovedKeys(m[1..], key);
    }
  }

  lemma {:induction false} RemovedSorted(m: seq<Pair>, key: string)
    requires Sorted(m)
    ensures Sorted(Removed(m, key))
  {
    if m != [] && m[0].key != key {
      var rest := Removed(m[1..], key);
      RemovedSorted(m[1..], key);
      RemovedKeys(m[1..], key);
      forall j | 0 <= j < |rest|
        ensures Less(m[0].key, rest[j].key)
      {
        assert rest[j] in rest;
        var i :| 0 <= i < |m[1..]| && m[1..][i] == rest[j];
        assert m[i + 1] == rest[j];
      }
    }
  }

  /** The pairs form a map: a change to one key shows at that key only. */
  lemma {:induction false} AddedValue(m: seq<Pair>, key: string, value: string, other: string)
    requires Sorted(m)
    ensures ValueFor(Added(m, key, value), other) == if other == key then value else ValueFor(m, other)
  {
    if m != [] && m[0].key != key {
      LessTotal(key, m[0].key);
      if !Less(key, m[0].key) {
        AddedValue(m[1..], key, value, other);
      }
    }
  }

  lemma {:induction false} AbsentValue(m: seq<Pair>, key: string)
    requires forall j | 0 <= j < |m| :: m[j].key != key
    ensures ValueFor(m, key) == []
  {
    if m != [] {
      AbsentValue(m[1..], key);
    }
  }

  lemma {:induction false} RemovedValue(m: seq<Pair>, key: string, other: string)
    requires Sorted(m)
    ensures ValueFor(Removed(m, key), other) == if other == key then [] else ValueFor(m, other)
  {
    if m != [] {
      if m[0].key == key {
        forall j | 0 <= j < |m[1..]|
          ensures m[1..][j].key != key
        {
          LessTotal(m[0].key, m[j + 1].key);
        }
        AbsentValue(m[1..], key);
      } else {
        RemovedValue(m[1..], key, other);
      }
    }
  }

  // ----- The text ---------------------------------------------------------------------------------

  /** strchr */
  function Index(s: string, c: char): (k: nat)
    ensures k <= |s| && (k < |s| ==> s[k] == c) && c !in s[..k]
  {
    if s == [] then 0
    else if s[0] == c then 0
    else
      var k := Index(s[1..], c);
      assert s[..k + 1] == [s[0]] + s[1..][..k];
      k + 1
  }

  /** flatten */
  function Flat(m: seq<Pair>): string {
    if m == [] then []
    else m[0].key + "=" + if |m| == 1 then m[0].value else m[0].value + ";" + Flat(m[1..])
  }

  /** unflatten, with the pairs read so far */
  function Unflat(s: string, m: seq<Pair>): seq<Pair>
    decreases |s|
  {
    var b := Index(s, '=');
    if b == |s| then m
    else
      var rest := s[b + 1..];
      var e := Index(rest, ';');
      if e == |rest| then Added(m, s[..b], rest) else Unflat(rest[e + 1..], Added(m, s[..b], rest[..e]))
  }

  /** What every map holds: no key with a '=', no value with a ';'. */
  ghost predicate Printable(m: seq<Pair>) {
    forall p | p in m :: '=' !in p.key && ';' !in p.value
  }

  lemma {:induction false} IndexOf(a: string, c: char, b: string)
    requires c !in a
    ensures Index(a + [c] + b, c) == |a|
  {
    if a != [] {
      assert (a + [c] + b)[1..] == a[1..] + [c] + b;
      IndexOf(a[1..], c, b);
    }
  }

  lemma {:induction false} IndexNone(a: string, c: char)
    requires c !in a
    ensures Index(a, c) == |a|
  {
    if a != [] {
      IndexNone(a[1..], c);
    }
  }

  /** A key behind all others goes to the end. */
  lemma {:induction false} AddedLast(m: seq<Pair>, key: string, value: string)
    requires forall j | 0 <= j < |m| :: Less(m[j].key, key)
    ensures Added(m, key, value) == m + [Pair(key, value)]
  {
    if m != [] {
      LessTotal(m[0].key, key);
      AddedLast(m[1..], key, value);
    }
  }

  lemma UnflatNone(s: string, m: seq<Pair>)
    requires Index(s, '=') == |s|
    ensures Unflat(s, m) == m
  {
  }

  /** The last item of a text. */
  lemma UnflatLast(s: string, m: seq<Pair>, key: string, value: string)
    requires s == key + "=" + value && '=' !in key && ';' !in value
    ensures Unflat(s, m) == Added(m, key, value)
  {
    hide Index, Added;
    IndexOf(key, '=', value);
    IndexNone(value, ';');
    assert s[..|key|] == key && s[|key| + 1..] == value;
  }

  /** An item with others behind it. */
  lemma UnflatMore(s: string, m: seq<Pair>, key: string, value: string, more: string)
    requires s == key + "=" + (value + ";" + more) && '=' !in key && ';' !in value
    ensures Unflat(s, m) == Unflat(more, Added(m, key, value))
  {
    hide Index, Added;
    var rest := value + ";" + more;
    IndexOf(key, '=', rest);
    IndexOf(value, ';', more);
    assert s[..|key|] == key && s[|key| + 1..] == rest;
    assert rest[..|value|] == value && rest[|value| + 1..] == more;
  }

  lemma FlatSteps(m: seq<Pair>)
    requires m != []
    ensures |m| == 1 ==> Flat(m) == m[0].key + "=" + m[0].value
    ensures |m| > 1 ==> Flat(m) == m[0].key + "=" + (m[0].value + ";" + Flat(m[1..]))
  {
  }

  /** Reading the text of the pairs behind those read already. */
  lemma {:induction false} UnflatFlat(done: seq<Pair>, m: seq<Pair>)
    requires Sorted(done + m) && Printable(m)
    ensures Unflat(Flat(m), done) == done + m
    decreases |m|
  {
    hide Index, Added, Less, Unflat, Flat;
    if m == [] {
      FlatNothing();
      IndexNone([], '=');
      UnflatNone([], done);
      assert done + m == done;
    } else {
      var p := m[0];
      assert p in m && (done + m)[|done|] == p;
      forall j | 0 <= j < |done|
        ensures Less(done[j].key, p.key)
      {
        assert (done + m)[j] == done[j];
      }
      AddedLast(done, p.key, p.value);
      FlatSteps(m);
      if |m| == 1 {
        assert m == [p];
        UnflatLast(Flat(m), done, p.key, p.value);
      } else {
        UnflatMore(Flat(m), done, p.key, p.value, Flat(m[1..]));
        assert done + [p] + m[1..] == done + m;
        UnflatFlat(done + [p], m[1..]);
      }
    }
  }

  lemma FlatNothing()
    ensures Flat([]) == []
  {
  }

  /** Reading a printed map gives it back. */
  lemma {:induction false} RoundTrip(m: seq<Pair>)
    requires Sorted(m) && Printable(m)
    ensures Unflat(Flat(m), []) == m
  {
    assert [] + m == m;
    UnflatFlat([], m);
  }

  /** Keys in order, "=" behind each, and ";" between the pairs. */
  lemma {:induction false} TextOfMap()
    ensures Flat(Added(Added([], "b", "2"), "a", "1")) == "a=1;b=2"
  {
    var m := [Pair("a", "1"), Pair("b", "2")];
    assert Added(Added([], "b", "2"), "a", "1") == m;
    assert m[1..] == [Pair("b", "2")];
    assert Flat([Pair("b", "2")]) == "b=2";
  }

  /** Maps are equal exactly when their texts are. */
  lemma {:induction false} SameText(m: seq<Pair>, n: seq<Pair>)
    requires Sorted(m) && Printable(m) && Sorted(n) && Printable(n)
    ensures m == n <==> Flat(m) == Flat(n)
  {
    RoundTrip(m);
    RoundTrip(n);
  }

  lemma AddedPrintable(m: seq<Pair>, key: string, value: string)
    requires Printable(m) && '=' !in key && ';' !in value
    ensures Printable(Added(m, key, value))
  {
    AddedKeys(m, key, value);
  }

  /** Whatever the text, what is read can be printed. */
  lemma {:induction false} UnflatKeeps(s: string, m: seq<Pair>)
    requires Sorted(m) && Printable(m)
    ensures Sorted(Unflat(s, m)) && Printable(Unflat(s, m))
    decreases |s|
  {
    hide Added, Less, Sorted, Printable, Index;
    var b := Index(s, '=');
    if b < |s| {
      var rest := s[b + 1..];
      var e := Index(rest, ';');
      AddedSorted(m, s[..b], rest[..e]);
      AddedPrintable(m, s[..b], rest[..e]);
      assert e == |rest| ==> rest[..e] == rest;
      if e < |rest| {
        UnflatKeeps(rest[e + 1..], Added(m, s[..b], rest[..e]));
      }
    }
  }

  lemma NothingRead()
    ensures Sorted([]) && Printable([])
  {
  }

  /** A size that was set is what is got, from the map and from its text. */
  lemma {:induction false} PreviewSizeKept(m: seq<Pair>, z: Size)
    requires Sorted(m) && Printable(m)
    ensures var r := Added(m, KEY_PREVIEW_SIZE, SizeText(z));
      && Unflat(Flat(r), []) == r
      && ParsePair(ValueFor(r, KEY_PREVIEW_SIZE), 'x') == Some(ParsedPair(z.width, z.height, |SizeText(z)|))
  {
    hide Added, Unflat, Flat, ParsePair, SizeText, Less;
    var text := SizeText(z);
    AddedSorted(m, KEY_PREVIEW_SIZE, text);
    SizeTextPlain(z);
    AddedPrintable(m, KEY_PREVIEW_SIZE, text);
    RoundTrip(Added(m, KEY_PREVIEW_SIZE, text));
    AddedValue(m, KEY_PREVIEW_SIZE, text, KEY_PREVIEW_SIZE);
    SizeRead(z, []);
    assert text + [] == text;
  }

  // ----- The class --------------------------------------------------------------------------------------

  class Parameters {
    var map_: seq<Pair>    // mMap

    ghost predicate Valid()
      reads this
    {
      Sorted(map_) && Printable(map_)
    }

    constructor ()
      ensures Valid() && map_ == []
    {
      map_ := [];
    }

    method Flatten() returns (s: string)
      ensures s == Flat(map_)
      ensures Valid() ==> Unflat(s, []) == map_
    {
      hide Flat, Sorted, Printable, Unflat;
      FlatNothing();
      s := "";
      assert s + Flat(map_) == Flat(map_) && map_[0..] == map_;
      for i := 0 to |map_|
        invariant s + Flat(map_[i..]) == Flat(map_)
      {
        FlatSteps(map_[i..]);
        assert map_[i..][1..] == map_[i + 1..];
        ghost var before, more := s, Flat(map_[i + 1..]);
        ghost var key, value := map_[i].key, map_[i].value;
        s := s + map_[i].key;
        s := s + "=";
        s := s + map_[i].value;
        TextAssoc(before, key, value, more);
        if i != |map_| - 1 {
          s := s + ";";
        } else {
          assert map_[i + 1..] == [] && s + more == s;
        }
      }
      assert map_[|map_|..] == [] && s + [] == s;
      if Valid() {
        RoundTrip(map_);
      }
    }

    lemma TextAssoc(s: string, key: string, value: string, more: string)
      ensures s + (key + "=" + (value + ";" + more)) == s + key + "=" + value + ";" + more
      ensures s + (key + "=" + value) == s + key + "=" + value
    {
    }

    method Unflatten(text: string)
      modifies this
      ensures Valid() && map_ == Unflat(text, [])
    {
      hide Added, Less, Unflat, Index, Sorted, Printable;
      map_ := [];
      var a := 0;
      NothingRead();
      UnflatKeeps(text, []);
      assert text[0..] == text;
      while true
        invariant a <= |text| && Unflat(text[a..], map_) == Unflat(text, [])
        decreases |text| - a
      {
        var rest := text[a..];
        var b := Index(rest, '=');
        if b == |rest| {
          UnflatNone(rest, map_);
          break;
        }
        var key := rest[..b];
        a := a + b + 1;
        assert rest == key + "=" + text[a..];
        var e := Index(text[a..], ';');
        if e == |text[a..]| {
          assert text[a..][..e] == text[a..];
          UnflatLast(rest, map_, key, text[a..]);
          map_ := Added(map_, key, text[a..]);
          break;
        }
        var value := text[a..a + e];
        assert text[a..][..e] == value && text[a..] == value + ";" + text[a + e + 1..];
        UnflatMore(rest, map_, key, value, text[a + e + 1..]);
        map_ := Added(map_, key, value);
        a := a + e + 1;
      }
    }

    method Set(key: string, value: string)
      requires Valid()
      modifies this
      ensures Valid()
      ensures map_ == if '=' in key || ';' in key || '=' in value || ';' in value then old(map_) else Added(old(map_), key, value)
    {
      if '=' in key || ';' in key {
        return;
      }
      if '=' in value || ';' in value {
        return;
      }
      AddedSorted(map_, key, value);
      AddedKeys(map_, key, value);
      map_ := Added(map_, key, value);
    }

    method Remove(key: string)
      requires Valid()
      modifies this
      ensures Valid() && map_ == Removed(old(map_), key)
    {
      RemovedSorted(map_, key);
      RemovedKeys(map_, key);
      map_ := Removed(map_, key);
    }

    /** No value, or an empty one, is a null pointer. */
    method Get(key: string) returns (value: Option<string>)
      ensures value == if ValueFor(map_, key) == [] then None else Some(ValueFor(map_, key))
    {
      var v := ValueFor(map_, key);
      if |v| == 0 {
        return None;
      }
      return Some(v);
    }

    method SetPreviewSize(width: Int32, height: Int32)
      requires Valid()
      modifies this
      ensures Valid() && map_ == Added(old(map_), KEY_PREVIEW_SIZE, SizeText(Size(width, height)))
    {
      hide Added, SizeText;
      SizeTextPlain(Size(width, height));
      Set(KEY_PREVIEW_SIZE, SizeText(Size(width, height)));
    }

    method GetPreviewSize() returns (width: Int32, height: Int32)
      ensures var p := ParsePair(ValueFor(map_, KEY_PREVIEW_SIZE), 'x');
        if p.Some? then width == p.value.first && height == p.value.second else width == height == -1
    {
      width, height := -1, -1;
      var v := Get(KEY_PREVIEW_SIZE);
      if v.None? {
        assert ParsePair([], 'x') == None;
        return;
      }
      var p := ParsePair(v.value, 'x');
      if p.Some? {
        width, height := p.value.first, p.value.second;
      }
    }
  }
}
