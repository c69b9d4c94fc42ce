/**
 * The byte-range request simulator's header logic: parsing the value of a
 * `Range: bytes=...` request header (the byte-ranges-specifier of section 2.1
 * of RFC 7233, simplified), validating the parsed ranges against the fixed
 * body length, and rendering a `Content-Range` value (section 4.2 of
 * RFC 7233).
 */
module RangeSim {
  import opened Wrappers
  import opened Decimal

  /** Length in bytes of the body the simulator serves. */
  const ContentLength: int := 1222
  const RequestRangePrefix: string := "bytes="
  const ResponseRangePrefix: string := "bytes "

  /** One requested range; -1 in either field means that side was left empty. */
  datatype ByteRange = ByteRange(start: int, end: int)

  // ---------------------------------------------------------------------------
  // The string operations the parser uses
  // ---------------------------------------------------------------------------

  predicate HasPrefix(s: string, prefix: string) {
    |prefix| <= |s| && s[..|prefix|] == prefix
  }

  /** `strings.Replace(s, " ", "", -1)`: every space removed, the rest in order. */
  function RemoveSpaces(s: string): (r: string)
    ensures ' ' !in r
    ensures ' ' !in s ==> r == s
    ensures |r| <= |s|
  {
    if s == [] then []
    else
      assert s == [s[0]] + s[1..];
      (if s[0] == ' ' then [] else [s[0]]) + RemoveSpaces(s[1..])
  }

  lemma {:induction false} RemoveSpacesAppend(a: string, b: string)
    ensures RemoveSpaces(a + b) == RemoveSpaces(a) + RemoveSpaces(b)
  {
    if a == [] {
      assert a + b == b;
    } else {
      var head := if a[0] == ' ' then [] else [a[0]];
      assert (a + b)[0] == a[0];
      assert (a + b)[1..] == a[1..] + b;
      RemoveSpacesAppend(a[1..], b);
      calc {
        RemoveSpaces(a + b);
        head + RemoveSpaces(a[1..] + b);
        head + (RemoveSpaces(a[1..]) + RemoveSpaces(b));
        (head + RemoveSpaces(a[1..])) + RemoveSpaces(b);
        RemoveSpaces(a) + RemoveSpaces(b);
      }
    }
  }

  /** Removing spaces keeps a space-free prefix in front. */
  lemma RemoveSpacesPrefix(input: string)
    requires HasPrefix(input, RequestRangePrefix)
    ensures RemoveSpaces(input) == RequestRangePrefix + RemoveSpaces(input[|RequestRangePrefix|..])
  {
    assert input == RequestRangePrefix + input[|RequestRangePrefix|..];
    RemoveSpacesAppend(RequestRangePrefix, input[|RequestRangePrefix|..]);
  }

  /** `strings.Index` for one character: the first position of `c` in `s`, or -1. */
  function IndexOf(s: string, c: char): (j: int)
    ensures -1 <= j < |s|
    ensures j == -1 <==> c !in s
    ensures 0 <= j ==> s[j] == c && c !in s[..j]
  {
    if s == [] then -1
    else if s[0] == c then 0
    else
      var j := IndexOf(s[1..], c);
      assert s == [s[0]] + s[1..];
      if j < 0 then -1
      else
        assert s[..j + 1] == [s[0]] + s[1..][..j];
        j + 1
  }

  /** The parts joined back with the separator between them. */
  function Join(parts: seq<string>, sep: char): string
    decreases |parts|
  {
    if parts == [] then ""
    else if |parts| == 1 then parts[0]
    else parts[0] + [sep] + Join(parts[1..], sep)
  }

  /**
   * `strings.Split(s, sep)` for a one-character separator: the pieces between
   * separators, at least one, none holding the separator, and they join
   * back to `s`.
   */
  function Split(s: string, sep: char): (parts: seq<string>)
    ensures |parts| >= 1
    ensures forall k :: 0 <= k < |parts| ==> sep !in parts[k]
    ensures Join(parts, sep) == s
    decreases |s|
  {
    var j := IndexOf(s, sep);
    if j < 0 then [s]
    else
      var rest := Split(s[j + 1..], sep);
      var parts := [s[..j]] + rest;
      assert parts[1..] == rest;
      assert s == s[..j] + [sep] + s[j + 1..];
      parts
  }

  /** Splitting what Join built gives back the parts. */
  lemma {:induction false} SplitJoin(parts: seq<string>, sep: char)
    requires |parts| >= 1
    requires forall k :: 0 <= k < |parts| ==> sep !in parts[k]
    ensures Split(Join(parts, sep), sep) == parts
    decreases |parts|
  {
    if |parts| > 1 {
      var s := Join(parts, sep);
      var j := IndexOf(s, sep);
      assert s == parts[0] + [sep] + Join(parts[1..], sep);
      assert s[|parts[0]|] == sep;
      assert j == |parts[0]|;
      assert s[..j] == parts[0];
      assert s[j + 1..] == Join(parts[1..], sep);
      SplitJoin(parts[1..], sep);
    }
  }

  /** A character absent from every part and other than the separator is absent from the join. */
  lemma {:induction false} JoinAvoids(parts: seq<string>, sep: char, c: char)
    requires c != sep
    requires forall k :: 0 <= k < |parts| ==> c !in parts[k]
    ensures c !in Join(parts, sep)
    decreases |parts|
  {
    if |parts| > 1 {
      JoinAvoids(parts[1..], sep, c);
    }
  }

  // ---------------------------------------------------------------------------
  // Parsing the Range request header
  // ---------------------------------------------------------------------------

  /** A character no side of a range can hold: neither a digit nor a sign. */
  predicate Stray(c: char) {
    !IsDigit(c) && c != '-' && c != '+'
  }

  /**
   * With the first `-` at `j`, a stray character makes one of the two sides
   * fail to parse, and so does a second `-` at the very end.
   */
  lemma SidesReject(p: string, j: nat)
    requires j < |p| && p[j] == '-'
    ensures (exists k :: 0 <= k < |p| && Stray(p[k])) ==>
      (j > 0 && ParseInt(p[..j]).None?) || (j < |p| - 1 && ParseInt(p[j + 1..]).None?)
    ensures j < |p| - 1 && p[|p| - 1] == '-' ==> ParseInt(p[j + 1..]).None?
  {
    ParseIntRejects("x", 0);
    if k :| 0 <= k < |p| && Stray(p[k]) {
      if k < j {
        ParseIntRejects(p[..j], k);
      } else {
        ParseIntRejects(p[j + 1..], k - j - 1);
      }
    }
    if j < |p| - 1 && p[|p| - 1] == '-' {
      var t := p[j + 1..];
      if |t| > 1 {
        ParseIntRejects(t, |t| - 1);
      } else {
        assert t == "-";
      }
    }
  }

  /**
   * One comma-separated part: the text before the first `-` is the start,
   * the text after it the end; an empty side leaves -1, and a missing `-` or
   * a side that is not a number rejects the part.
   */
  function ParseRangeSpec(p: string): (r: Option<ByteRange>)
    ensures '-' !in p ==> r.None?
    ensures (exists k :: 0 <= k < |p| && Stray(p[k])) ==> r.None?
    ensures r.Some? ==> r.value.start >= -1
    ensures r.Some? ==> (r.value.start == -1 <==> p[0] == '-')
    ensures r.Some? && p[|p| - 1] == '-' ==> r.value.end == -1
  {
    var j := IndexOf(p, '-');
    if j < 0 then None
    else
      SidesReject(p, j);
      var start := if j > 0 then ParseInt(p[..j]) else Some(-1);
      var end := if j < |p| - 1 then ParseInt(p[j + 1..]) else Some(-1);
      if start.None? || end.None? then None
      else Some(ByteRange(start.value, end.value))
  }

  /** All parts in input order, or None as soon as one part is rejected: never a partial list. */
  function ParseSpecs(parts: seq<string>): (r: Option<seq<ByteRange>>)
    ensures r.Some? <==> forall k :: 0 <= k < |parts| ==> ParseRangeSpec(parts[k]).Some?
    ensures r.Some? ==>
      |r.value| == |parts| && forall k :: 0 <= k < |parts| ==> ParseRangeSpec(parts[k]) == Some(r.value[k])
    decreases |parts|
  {
    if parts == [] then Some([])
    else
      var first := ParseRangeSpec(parts[0]);
      var rest := ParseSpecs(parts[1..]);
      if first.None? || rest.None? then None
      else
        var r := [first.value] + rest.value;
        assert forall k :: 1 <= k < |parts| ==> parts[k] == parts[1..][k - 1];
        Some(r)
  }

  /**
   * What the parser returns for a header value: None (Go's nil) for the empty
   * string, for a value that does not start with `bytes=`, for exactly
   * `bytes=`, and when any part is rejected; otherwise one range per
   * comma-separated part of the value with its spaces removed.
   */
  function RangeHeader(input: string): (r: Option<seq<ByteRange>>)
    ensures r.Some? ==> |r.value| >= 1
  {
    if input == "" || !HasPrefix(input, RequestRangePrefix) || input == RequestRangePrefix then None
    else
      RemoveSpacesPrefix(input);
      ParseSpecs(Split(RemoveSpaces(input)[|RequestRangePrefix|..], ','))
  }

  /**
   * The parser itself: rejects the empty value, a value without the
   * `bytes=` prefix and the bare prefix, then strips the spaces and the
   * prefix, splits on commas and parses the parts.
   */
  method ParseRangeHeader(input: string) returns (ranges: Option<seq<ByteRange>>)
    ensures ranges == RangeHeader(input)
  {
    if input == "" || !HasPrefix(input, RequestRangePrefix) || input == RequestRangePrefix {
      return None;
    }
    RemoveSpacesPrefix(input);
    var stripped := RemoveSpaces(input)[|RequestRangePrefix|..];
    var parts := Split(stripped, ',');
    ranges := ParseParts(parts);
  }

  /**
   * The parser's loop: a preallocated array filled part by part, abandoned
   * with None at the first part that is rejected.
   */
  method ParseParts(parts: seq<string>) returns (ranges: Option<seq<ByteRange>>)
    ensures ranges == ParseSpecs(parts)
  {
    var a := new ByteRange[|parts|];
    for i := 0 to |parts|
      invariant forall k :: 0 <= k < i ==> ParseRangeSpec(parts[k]) == Some(a[k])
    {
      var r := ParsePart(parts[i]);
      if r.None? {
        ParseSpecsRejected(parts, i);
        return None;
      }
      a[i] := a[i].(start := r.value.start, end := r.value.end);
    }
    ParseSpecsAccepted(parts, a[..]);
    ranges := Some(a[..]);
  }

  lemma ParseSpecsRejected(parts: seq<string>, i: nat)
    requires i < |parts| && ParseRangeSpec(parts[i]).None?
    ensures ParseSpecs(parts).None?
  {
  }

  lemma ParseSpecsAccepted(parts: seq<string>, v: seq<ByteRange>)
    requires |v| == |parts| && forall k :: 0 <= k < |parts| ==> ParseRangeSpec(parts[k]) == Some(v[k])
    ensures ParseSpecs(parts) == Some(v)
  {
    assert ParseSpecs(parts).value == v;
  }

  /** The body of the parser's loop for one part, with its early exits. */
  method ParsePart(p: string) returns (r: Option<ByteRange>)
    ensures r == ParseRangeSpec(p)
  {
    var j := IndexOf(p, '-');
    if j < 0 {
      return None;
    }
    var start, end := -1, -1;
    if j > 0 {
      var v := ParseInt(p[..j]);
      if v.None? {
        return None;
      }
      start := v.value;
    }
    if j < |p| - 1 {
      var v := ParseInt(p[j + 1..]);
      if v.None? {
        return None;
      }
      end := v.value;
    }
    return Some(ByteRange(start, end));
  }

  // ---------------------------------------------------------------------------
  // Validation and the Content-Range value
  // ---------------------------------------------------------------------------

  /** A range the body can serve: both sides given, in order, inside the body. */
  predicate Satisfiable(br: ByteRange) {
    0 <= br.start <= br.end < ContentLength
  }

  /** True iff every range can be served; an empty list is valid. */
  method Validate(brs: seq<ByteRange>) returns (ok: bool)
    ensures ok <==> forall k :: 0 <= k < |brs| ==> Satisfiable(brs[k])
  {
    for i := 0 to |brs|
      invariant forall k :: 0 <= k < i ==> Satisfiable(brs[k])
    {
      var r := brs[i];
      if r.start < 0 || r.end >= ContentLength || r.end < r.start {
        return false;
      }
    }
    return true;
  }

  lemma ContentLengthText()
    ensures IntToString(ContentLength) == "1222"
  {
    assert NatToString(12) == "12";
    assert NatToString(122) == NatToString(12) + "2";
  }

  /** `bytes <start>-<end>/1222`, the value of the Content-Range header of one part. */
  function ContentRangeHeader(br: ByteRange): (r: string)
    ensures HasPrefix(r, ResponseRangePrefix)
    ensures |r| > 5 && r[|r| - 5..] == "/1222"
  {
    ContentLengthText();
    ResponseRangePrefix + IntToString(br.start) + "-" + IntToString(br.end) + "/" + IntToString(ContentLength)
  }

  // ---------------------------------------------------------------------------
  // Properties
  // ---------------------------------------------------------------------------

  /** A side of a range the request syntax can state: -1 (left empty) or an int64 that is not negative. */
  predicate Expressible(v: int) {
    v == -1 || 0 <= v <= Int64Max
  }

  /** The request syntax of one range: `first-last`, with an empty side for -1. */
  function RangeSpecText(br: ByteRange): (p: string)
    ensures ' ' !in p && ',' !in p
  {
    var first, last := SideText(br.start), SideText(br.end);
    assert forall i :: 0 <= i < |first| ==> IsDigit(first[i]);
    assert forall i :: 0 <= i < |last| ==> IsDigit(last[i]);
    first + "-" + last
  }

  /** Parsing the text of a range gives the range back. */
  lemma ParseRangeSpecRoundTrip(br: ByteRange)
    requires Expressible(br.start) && Expressible(br.end)
    ensures ParseRangeSpec(RangeSpecText(br)) == Some(br)
  {
    var first := SideText(br.start);
    var last := SideText(br.end);
    var p := first + "-" + last;
    SideRoundTrip(br.start);
    SideRoundTrip(br.end);
    assert p == RangeSpecText(br);
    assert p[|first|] == '-';
    assert IndexOf(p, '-') == |first|;
    assert p[..|first|] == first;
    assert p[|first| + 1..] == last;
  }

  /** One side as the request syntax writes it: empty for -1. */
  function SideText(v: int): string {
    if v >= 0 then NatToString(v) else ""
  }

  /** A side's text holds no `-`, is empty exactly for -1, and otherwise parses back. */
  lemma SideRoundTrip(v: int)
    requires Expressible(v)
    ensures '-' !in SideText(v)
    ensures SideText(v) == [] <==> v == -1
    ensures v >= 0 ==> ParseInt(SideText(v)) == Some(v)
  {
    if v >= 0 {
      var t := NatToString(v);
      assert forall i :: 0 <= i < |t| ==> IsDigit(t[i]);
      ParseIntOfNatToString(v);
    }
  }

  /** The header value a client sends for a list of ranges. */
  function RangeHeaderText(brs: seq<ByteRange>): string {
    RequestRangePrefix + Join(seq(|brs|, k requires 0 <= k < |brs| => RangeSpecText(brs[k])), ',')
  }

  /**
   * Round trip: parsing the header value written for any non-empty list of
   * expressible ranges yields that list, in the same order.
   */
  lemma RangeHeaderRoundTrip(brs: seq<ByteRange>)
    requires |brs| >= 1
    requires forall k :: 0 <= k < |brs| ==> Expressible(brs[k].start) && Expressible(brs[k].end)
    ensures RangeHeader(RangeHeaderText(brs)) == Some(brs)
  {
    var specs := seq(|brs|, k requires 0 <= k < |brs| => RangeSpecText(brs[k]));
    var body := Join(specs, ',');
    var input := RequestRangePrefix + body;
    assert input == RangeHeaderText(brs);
    JoinAvoids(specs, ',', ' ');
    SplitJoin(specs, ',');
    assert '-' in specs[0];
    assert body != [] by {
      if body == [] {
        JoinAvoids(specs, ',', '-');
      }
    }
    assert HasPrefix(input, RequestRangePrefix);
    RemoveSpacesPrefix(input);
    assert input[|RequestRangePrefix|..] == body;
    assert RemoveSpaces(input)[|RequestRangePrefix|..] == body;
    forall k | 0 <= k < |brs|
      ensures ParseRangeSpec(specs[k]) == Some(brs[k])
    {
      ParseRangeSpecRoundTrip(brs[k]);
    }
    assert ParseSpecs(specs).value == brs;
  }

  /** Spaces after the prefix do not matter, wherever they stand. */
  lemma RangeHeaderIgnoresSpaces(s: string)
    ensures RangeHeader(RequestRangePrefix + s) == RangeHeader(RequestRangePrefix + RemoveSpaces(s))
  {
    var input := RequestRangePrefix + s;
    var clean := RequestRangePrefix + RemoveSpaces(s);
    assert HasPrefix(input, RequestRangePrefix) && HasPrefix(clean, RequestRangePrefix);
    assert input[|RequestRangePrefix|..] == s;
    assert clean[|RequestRangePrefix|..] == RemoveSpaces(s);
    RemoveSpacesPrefix(input);
    if s == [] {
      assert input == RequestRangePrefix;
    } else if RemoveSpaces(s) == [] {
      assert clean == RequestRangePrefix;
      assert Split(RemoveSpaces(input)[|RequestRangePrefix|..], ',') == [""];
      assert ParseRangeSpec("").None?;
    } else {
      RemoveSpacesPrefix(clean);
      assert clean != RequestRangePrefix;
    }
  }

  /** The empty value, a value in another unit and the bare prefix are rejected. */
  lemma RangeHeaderRejectsForm()
    ensures RangeHeader("") == None
    ensures RangeHeader("items=0-5") == None
    ensures RangeHeader(RequestRangePrefix) == None
  {
    assert !HasPrefix("items=0-5", RequestRangePrefix) by {
      assert "items=0-5"[0] != RequestRangePrefix[0];
    }
  }

  /** Any value that does not start with `bytes=` is rejected, whatever follows. */
  lemma RangeHeaderRejectsUnit(other: string)
    requires !HasPrefix(other, RequestRangePrefix)
    ensures RangeHeader(other) == None
  {
  }

  /** One rejected part rejects the whole list, even when the other parts are well formed. */
  lemma RangeHeaderRejects(parts: seq<string>, k: nat)
    requires k < |parts| && ParseRangeSpec(parts[k]).None?
    requires forall m :: 0 <= m < |parts| ==> ',' !in parts[m] && ' ' !in parts[m]
    ensures RangeHeader(RequestRangePrefix + Join(parts, ',')) == None
  {
    var body := Join(parts, ',');
    var input := RequestRangePrefix + body;
    if body != [] {
      JoinAvoids(parts, ',', ' ');
      SplitJoin(parts, ',');
      assert HasPrefix(input, RequestRangePrefix);
      RemoveSpacesPrefix(input);
      assert input[|RequestRangePrefix|..] == body;
    } else {
      assert input == RequestRangePrefix;
    }
  }

  /** Removing spaces keeps every other character. */
  lemma {:induction false} RemoveSpacesKeeps(s: string, i: nat)
    requires i < |s| && s[i] != ' '
    ensures s[i] in RemoveSpaces(s)
  {
    if i > 0 {
      assert s[1..][i - 1] == s[i];
      RemoveSpacesKeeps(s[1..], i - 1);
    }
  }

  /**
   * A stray character anywhere after the prefix, other than a space or a
   * comma, rejects the whole value, however well formed the other parts are.
   */
  lemma RangeHeaderRejectsStray(input: string, k: nat)
    requires HasPrefix(input, RequestRangePrefix)
    requires |RequestRangePrefix| <= k < |input| && Stray(input[k]) && input[k] != ' ' && input[k] != ','
    ensures RangeHeader(input) == None
  {
    var c := input[k];
    var rest := input[|RequestRangePrefix|..];
    assert rest[k - |RequestRangePrefix|] == c;
    RemoveSpacesKeeps(rest, k - |RequestRangePrefix|);
    RemoveSpacesPrefix(input);
    var body := RemoveSpaces(input)[|RequestRangePrefix|..];
    assert body == RemoveSpaces(rest);
    var parts := Split(body, ',');
    if forall m :: 0 <= m < |parts| ==> c !in parts[m] {
      JoinAvoids(parts, ',', c);
      assert false;
    }
    var m :| 0 <= m < |parts| && c in parts[m];
    var i :| 0 <= i < |parts[m]| && parts[m][i] == c;
    assert ParseRangeSpec(parts[m]).None?;
  }

  /** An explicit end of -1 is read as the empty-end sentinel: `5--1` parses as `5-` does. */
  lemma ExplicitMinusOneEnd()
    ensures ParseRangeSpec("5--1") == ParseRangeSpec("5-") == Some(ByteRange(5, -1))
  {
    assert IndexOf("5--1", '-') == 1;
    assert IndexOf("5-", '-') == 1;
    assert "5--1"[..1] == "5" && "5--1"[2..] == "-1" && "5-"[..1] == "5";
    assert ParseInt("5") == Some(5);
    assert ParseInt("-1") == Some(-1) by {
      assert "-1"[1..] == "1";
    }
  }

  lemma Text500()
    ensures NatToString(500) == "500"
  {
    assert NatToString(5) == "5";
    assert NatToString(50) == NatToString(5) + "0";
  }

  /** Open-ended `500-` parses, with -1 for the missing end, and does not validate. */
  lemma OpenEndedRange()
    ensures RangeHeader("bytes=500-") == Some([ByteRange(500, -1)])
    ensures !Satisfiable(ByteRange(500, -1))
  {
    Text500();
    var open := ByteRange(500, -1);
    assert RangeSpecText(open) == "500-";
    assert RangeHeaderText([open]) == "bytes=500-";
    RangeHeaderRoundTrip([open]);
  }

  /** A suffix range `-500` parses, with -1 for the missing start, and does not validate. */
  lemma SuffixRange()
    ensures RangeHeader("bytes=-500") == Some([ByteRange(-1, 500)])
    ensures !Satisfiable(ByteRange(-1, 500))
  {
    Text500();
    var suffix := ByteRange(-1, 500);
    assert RangeSpecText(suffix) == "-500";
    assert RangeHeaderText([suffix]) == "bytes=-500";
    RangeHeaderRoundTrip([suffix]);
  }

  /** Several parts come back one range per part, in input order. */
  lemma SeveralRanges()
    ensures RangeHeader("bytes=0-9,500-") == Some([ByteRange(0, 9), ByteRange(500, -1)])
  {
    Text500();
    var first, open := ByteRange(0, 9), ByteRange(500, -1);
    assert RangeSpecText(first) == "0-9";
    assert RangeSpecText(open) == "500-";
    assert seq(2, k requires 0 <= k < 2 => RangeSpecText([first, open][k])) == ["0-9", "500-"];
    assert Join(["0-9", "500-"], ',') == "0-9,500-";
    assert RangeHeaderText([first, open]) == "bytes=0-9,500-";
    RangeHeaderRoundTrip([first, open]);
  }

  /**
   * The Content-Range value of a servable range is the response prefix,
   * the range written in request syntax, and the body length; the middle
   * parses back to the range.
   */
  lemma ContentRangeOfSatisfiable(br: ByteRange)
    requires Satisfiable(br)
    ensures ContentRangeHeader(br) == ResponseRangePrefix + RangeSpecText(br) + "/1222"
    ensures ParseRangeSpec(RangeSpecText(br)) == Some(br)
  {
    ParseRangeSpecRoundTrip(br);
    ContentLengthText();
    var a, b := IntToString(br.start), IntToString(br.end);
    assert a + "-" + b == RangeSpecText(br);
    Regroup(ResponseRangePrefix, a, "-", b, "/", IntToString(ContentLength));
  }

  lemma Regroup(p: string, a: string, d: string, b: string, sl: string, c: string)
    ensures p + a + d + b + sl + c == p + (a + d + b) + (sl + c)
  {
  }

  /** The Content-Range value for the first hundred bytes. */
  lemma ContentRangeExample()
    ensures ContentRangeHeader(ByteRange(0, 99)) == "bytes 0-99/1222"
  {
    assert NatToString(99) == "99" by {
      assert NatToString(9) == "9";
    }
    assert IntToString(0) == "0";
  }

  /** A range that validates selects bytes inside the body: the slice [start, end + 1) is in bounds. */
  lemma SatisfiableWithinBody(brs: seq<ByteRange>, k: nat)
    requires k < |brs| && forall m :: 0 <= m < |brs| ==> Satisfiable(brs[m])
    ensures 0 <= brs[k].start < brs[k].end + 1 <= ContentLength
  {
  }
}
