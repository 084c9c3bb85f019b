/** The query-string serialiser `qs`, with `encodeURIComponent` as ECMA-262
    defines it: unreserved characters are copied, every other character is
    UTF-8 encoded and each byte written as `%` and two upper-case hex
    digits (percent-encoding, section 2.1 of RFC 3986). */
module Url {
  import opened Builtins
  import opened Values

  /** The characters `encodeURIComponent` leaves alone: ASCII letters and
      digits and `- _ . ! ~ * ' ( )`. */
  predicate IsUnreserved(c: char) {
    ('A' <= c <= 'Z') || ('a' <= c <= 'z') || ('0' <= c <= '9') ||
    c in {'-', '_', '.', '!', '~', '*', '\'', '(', ')'}
  }

  /** The UTF-8 encoding of one code point. */
  function Utf8(c: char): (bytes: seq<nat>)
    ensures 1 <= |bytes| <= 4
    ensures forall i :: 0 <= i < |bytes| ==> bytes[i] < 256
    ensures |bytes| == 1 <==> (c as int) < 0x80
    ensures |bytes| == 1 ==> bytes[0] == c as int
    ensures forall i :: 1 <= i < |bytes| ==> 0x80 <= bytes[i] < 0xC0
  {
    var n := c as int;
    if n < 0x80 then [n]
    else if n < 0x800 then [0xC0 + n / 0x40, 0x80 + n % 0x40]
    else if n < 0x1_0000 then [0xE0 + n / 0x1000, 0x80 + (n / 0x40) % 0x40, 0x80 + n % 0x40]
    else [0xF0 + n / 0x4_0000, 0x80 + (n / 0x1000) % 0x40, 0x80 + (n / 0x40) % 0x40, 0x80 + n % 0x40]
  }

  const HexDigits: string := "0123456789ABCDEF"

  /** One byte as `%XX`. */
  function PercentByte(b: nat): (r: string)
    requires b < 256
    ensures |r| == 3 && r[0] == '%' && r[1] in HexDigits && r[2] in HexDigits
  {
    ['%', HexDigits[b / 16], HexDigits[b % 16]]
  }

  function PercentBytes(bytes: seq<nat>): (r: string)
    requires forall i :: 0 <= i < |bytes| ==> bytes[i] < 256
    ensures |r| == 3 * |bytes|
    ensures forall i :: 0 <= i < |r| ==> r[i] == '%' || r[i] in HexDigits
    decreases |bytes|
  {
    if |bytes| == 0 then ""
    else
      var head := PercentByte(bytes[0]);
      var tail := PercentBytes(bytes[1..]);
      assert forall i :: 0 <= i < |head + tail| ==> (head + tail)[i] == if i < 3 then head[i] else tail[i - 3];
      head + tail
  }

  /** Every character is unreserved or `%`. */
  predicate UriSafe(r: string) {
    forall i :: 0 <= i < |r| ==> IsUnreserved(r[i]) || r[i] == '%'
  }

  lemma UriSafeAppend(a: string, b: string)
    requires UriSafe(a) && UriSafe(b)
    ensures UriSafe(a + b)
  {
    forall i | 0 <= i < |a + b| ensures IsUnreserved((a + b)[i]) || (a + b)[i] == '%' {
      if i >= |a| {
        assert (a + b)[i] == b[i - |a|];
      }
    }
  }

  /** One character as `encodeURIComponent` writes it. */
  function EncodeChar(c: char): (r: string)
    ensures IsUnreserved(c) ==> r == [c]
    ensures !IsUnreserved(c) ==> |r| == 3 * |Utf8(c)| && r[0] == '%'
    ensures UriSafe(r)
  {
    if IsUnreserved(c) then [c] else PercentBytes(Utf8(c))
  }

  /** `encodeURIComponent(s)`. */
  function EncodeURIComponent(s: string): string {
    FlatMap(s, EncodeChar)
  }

  /** The encoding consists of unreserved characters and `%` only, and is at
      least as long as the input. */
  lemma {:induction false} EncodedUriSafe(s: string)
    ensures UriSafe(EncodeURIComponent(s))
    ensures |EncodeURIComponent(s)| >= |s|
    decreases |s|
  {
    if |s| > 0 {
      EncodedUriSafe(s[1..]);
      UriSafeAppend(EncodeChar(s[0]), EncodeURIComponent(s[1..]));
    }
  }

  /** The encoding never produces the delimiters `qs` relies on. */
  lemma EncodedHasNoDelimiters(s: string)
    ensures '&' !in EncodeURIComponent(s) && '=' !in EncodeURIComponent(s)
  {
    EncodedUriSafe(s);
  }

  /** Encoding distributes over concatenation. */
  lemma EncodeAppend(a: string, b: string)
    ensures EncodeURIComponent(a + b) == EncodeURIComponent(a) + EncodeURIComponent(b)
  {
    FlatMapAppend(a, b, EncodeChar);
  }

  /** A string of unreserved characters is its own encoding. */
  lemma {:induction false} EncodeUnreserved(a: string)
    requires forall i :: 0 <= i < |a| ==> IsUnreserved(a[i])
    ensures EncodeURIComponent(a) == a
    decreases |a|
  {
    if |a| > 0 {
      EncodeUnreserved(a[1..]);
      assert EncodeURIComponent(a) == [a[0]] + EncodeURIComponent(a[1..]);
      assert a == [a[0]] + a[1..];
    }
  }

  /** One `name=value` segment. */
  function Segment(name: string, val: string): string {
    name + "=" + val
  }

  /** The segments one entry contributes: none for null or undefined, one
      `key[]=element` per element of an array, otherwise one `key=value`;
      values are written as `String()` writes them. */
  function Contribution(key: string, value: Value): seq<string> {
    if value.Null? || value.Undefined? then []
    else if value.Arr? then
      seq(|value.items|, i requires 0 <= i < |value.items| =>
        Segment(EncodeURIComponent(key) + "[]", EncodeURIComponent(ToText(value.items[i]))))
    else [Segment(EncodeURIComponent(key), EncodeURIComponent(ToText(value)))]
  }

  /** Null and undefined contribute nothing; an array one `key[]=element`
      segment per element, in element order (none for an empty array); any
      other value exactly one `key=value` segment. */
  lemma ContributionCases(key: string, value: Value)
    ensures value.Null? || value.Undefined? ==> Contribution(key, value) == []
    ensures value.Arr? ==> |Contribution(key, value)| == |value.items|
    ensures value.Arr? ==> forall i :: 0 <= i < |value.items| ==>
      Contribution(key, value)[i] == Segment(EncodeURIComponent(key) + "[]", EncodeURIComponent(ToText(value.items[i])))
    ensures !(value.Null? || value.Undefined? || value.Arr?) ==>
      Contribution(key, value) == [Segment(EncodeURIComponent(key), EncodeURIComponent(ToText(value)))]
  {
  }

  /** The segments one entry contributes. */
  function EntrySegments(e: (string, Value)): seq<string> {
    Contribution(e.0, e.1)
  }

  /** The segments of all entries, in entry order (`flatMap`). */
  function Segments(entries: Entries): seq<string> {
    FlatMap(entries, EntrySegments)
  }

  /** `qs(values)`: the segments joined with `&`. */
  function Qs(entries: Entries): string {
    Join(Segments(entries), "&")
  }

  /** Segments of consecutive entry lists follow one another. */
  lemma SegmentsAppend(a: Entries, b: Entries)
    ensures Segments(a + b) == Segments(a) + Segments(b)
  {
    FlatMapAppend(a, b, EntrySegments);
  }

  /** `name=val` with neither part holding a delimiter contains no `&` and
      splits on `=` into exactly its two parts. */
  lemma NameValue(name: string, val: string)
    requires '=' !in name && '=' !in val && '&' !in name && '&' !in val
    ensures '&' !in Segment(name, val)
    ensures Split(Segment(name, val), '=') == [name, val]
  {
    assert Join([name, val], "=") == Segment(name, val);
    SplitJoin([name, val], '=');
  }

  /** Every segment an entry contributes is `Segment(name, val)` with no
      delimiter in either part. */
  lemma ContributionShape(key: string, value: Value, seg: string)
    requires seg in Contribution(key, value)
    ensures exists name, val ::
      '=' !in name && '=' !in val && '&' !in name && '&' !in val && seg == Segment(name, val)
  {
    ContributionCases(key, value);
    var segs := Contribution(key, value);
    var i :| 0 <= i < |segs| && segs[i] == seg;
    var k := EncodeURIComponent(key);
    EncodedHasNoDelimiters(key);
    if value.Arr? {
      var val := EncodeURIComponent(ToText(value.items[i]));
      EncodedHasNoDelimiters(ToText(value.items[i]));
      assert '=' !in k + "[]" && '&' !in k + "[]";
      assert seg == Segment(k + "[]", val);
    } else {
      var val := EncodeURIComponent(ToText(value));
      EncodedHasNoDelimiters(ToText(value));
      assert seg == Segment(k, val);
    }
  }

  /** Every segment is a name, `=` and a value, neither containing `&` or
      `=`: it contains no `&` and splits on `=` into those two parts. */
  lemma {:induction false} SegmentShape(entries: Entries, seg: string)
    requires seg in Segments(entries)
    ensures '&' !in seg
    ensures exists name, val ::
      '=' !in name && '=' !in val && seg == Segment(name, val) && Split(seg, '=') == [name, val]
    decreases |entries|
  {
    if seg in Contribution(entries[0].0, entries[0].1) {
      ContributionShape(entries[0].0, entries[0].1, seg);
      var name, val :| '=' !in name && '=' !in val && '&' !in name && '&' !in val && seg == Segment(name, val);
      NameValue(name, val);
    } else {
      SegmentShape(entries[1..], seg);
    }
  }

  /** A join with a separator that does not occur in a non-empty list of
      non-empty pieces is empty exactly when the list is. */
  lemma {:induction false} JoinNonEmpty(parts: seq<string>, sep: string)
    requires forall p :: p in parts ==> p != ""
    ensures Join(parts, sep) == "" <==> parts == []
    decreases |parts|
  {
    if |parts| > 0 {
      assert parts[0] in parts;
    }
  }

  /** The output is empty exactly when no entry contributes a segment, and
      otherwise splitting it on `&` gives back exactly the segments, in
      order. */
  lemma QsSplits(entries: Entries)
    ensures Qs(entries) == "" <==> Segments(entries) == []
    ensures Segments(entries) != [] ==> Split(Qs(entries), '&') == Segments(entries)
  {
    forall seg | seg in Segments(entries) ensures seg != "" && '&' !in seg {
      SegmentShape(entries, seg);
    }
    JoinNonEmpty(Segments(entries), "&");
    if Segments(entries) != [] {
      SplitJoin(Segments(entries), '&');
    }
  }

  /** Entries whose value is null or undefined leave the output as it
      would be without them. */
  lemma QsSkipsNullish(before: Entries, key: string, value: Value, after: Entries)
    requires value.Null? || value.Undefined?
    ensures Qs(before + [(key, value)] + after) == Qs(before + after)
  {
    SegmentsAppend(before + [(key, value)], after);
    SegmentsAppend(before, [(key, value)]);
    SegmentsAppend(before, after);
    assert Segments([(key, value)]) == [] by {
      assert [(key, value)][1..] == [];
      assert EntrySegments((key, value)) == [];
      assert FlatMap([(key, value)], EntrySegments) == EntrySegments((key, value)) + FlatMap([], EntrySegments);
    }
    assert Segments(before + [(key, value)]) == Segments(before);
    assert Segments(before + [(key, value)] + after) == Segments(before + after);
  }
}
