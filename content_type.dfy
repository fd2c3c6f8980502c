/**
 * The Connecting arm's header negotiation: from the response status and the
 * raw `content-type` header to the full multipart delimiter `--<boundary>`,
 * following the splitting and trimming the client performs (section 5.1.1 of
 * RFC 2046 defines the delimiter, section 5.1 of RFC 2045 the parameter
 * syntax; quoted parameter values are not unquoted, as in the client).
 */
module ContentType {
  import opened Wrappers
  import opened ByteSearch

  /** ASCII whitespace: U+0009 through U+000D and the space. */
  predicate IsWhitespace(c: char)
  {
    c == ' ' || '\t' <= c <= '\r'
  }

  /** The bytes a header value may hold for `to_str` to succeed: tab or 0x20..0x7E. */
  predicate IsVisibleAscii(b: Byte)
  {
    b == 9 || 32 <= b < 127
  }

  /** The characters of a header value that `to_str` accepts. */
  predicate IsVisibleChar(c: char)
  {
    c as int < 256 && IsVisibleAscii(c as int)
  }

  /** `HeaderValue::to_str().ok()`: the header as text when it is visible ASCII. */
  function HeaderText(raw: seq<Byte>): (r: Option<string>)
    ensures r.Some? <==> forall i :: 0 <= i < |raw| ==> IsVisibleAscii(raw[i])
    ensures r.Some? ==> |r.value| == |raw|
    ensures r.Some? ==> forall i :: 0 <= i < |raw| ==> r.value[i] as int == raw[i]
    ensures r.Some? ==> forall c :: c in r.value ==> IsVisibleChar(c)
  {
    if forall i :: 0 <= i < |raw| ==> IsVisibleAscii(raw[i])
    then Some(seq(|raw|, i requires 0 <= i < |raw| => raw[i] as char))
    else None
  }

  /** A string whose characters are all ASCII, hence encoded one byte each. */
  ghost predicate IsAscii(s: string)
  {
    forall i :: 0 <= i < |s| ==> s[i] as int < 128
  }

  /** `bytes` is the one-byte-per-character encoding of `s`. */
  ghost predicate Spells(bytes: seq<Byte>, s: string)
  {
    |bytes| == |s| && forall i :: 0 <= i < |s| ==> bytes[i] == s[i] as int
  }

  /** UTF-8 encoding of an ASCII string (`String::into_bytes`). */
  function AsciiBytes(s: string): (r: seq<Byte>)
    requires IsAscii(s)
    ensures Spells(r, s)
  {
    seq(|s|, i requires 0 <= i < |s| => s[i] as int)
  }

  /** `str::trim_start`: drop leading whitespace. */
  function TrimStart(s: string): (r: string)
    ensures |r| <= |s| && r == s[|s| - |r|..]
    ensures forall k :: 0 <= k < |s| - |r| ==> IsWhitespace(s[k])
    ensures r != [] ==> !IsWhitespace(r[0])
  {
    if s != [] && IsWhitespace(s[0]) then
      var r := TrimStart(s[1..]);
      assert s[1..][|s| - 1 - |r|..] == s[|s| - |r|..];
      r
    else s
  }

  /** `str::trim_end`: drop trailing whitespace. */
  function TrimEnd(s: string): (r: string)
    ensures |r| <= |s| && r == s[..|r|]
    ensures forall k :: |r| <= k < |s| ==> IsWhitespace(s[k])
    ensures r != [] ==> !IsWhitespace(r[|r| - 1])
  {
    if s != [] && IsWhitespace(s[|s| - 1]) then TrimEnd(s[..|s| - 1]) else s
  }

  /** `str::trim`: drop whitespace at both ends, keeping the rest as it is. */
  function Trim(s: string): (r: string)
    ensures r != [] ==> !IsWhitespace(r[0]) && !IsWhitespace(r[|r| - 1])
    ensures r == [] <==> forall k :: 0 <= k < |s| ==> IsWhitespace(s[k])
    ensures forall c :: c in r ==> c in s
  {
    var front := TrimStart(s);
    var r := TrimEnd(front);
    assert r != [] ==> r[0] == front[0];
    r
  }

  /**
   * What `Trim` keeps is a slice of its input, with nothing but whitespace
   * removed on either side of it.
   */
  lemma TrimIsSlice(s: string)
    ensures var r := Trim(s);
            exists i :: 0 <= i <= |s| - |r| && r <= s[i..]
              && (forall k :: 0 <= k < i ==> IsWhitespace(s[k]))
              && (forall k :: i + |r| <= k < |s| ==> IsWhitespace(s[k]))
  {
    var front := TrimStart(s);
    var r := TrimEnd(front);
    assert r == Trim(s);
    var i := |s| - |front|;
    assert front == s[i..];
    assert r <= s[i..];
    assert forall k :: 0 <= k < i ==> IsWhitespace(s[k]);
    forall k | i + |r| <= k < |s|
      ensures IsWhitespace(s[k])
    {
      assert s[k] == front[k - i];
    }
  }

  /** The pieces of a `str::split(sep)`, glued back together with `sep`. */
  function Join(parts: seq<string>, sep: char): string
    requires |parts| >= 1
  {
    if |parts| == 1 then parts[0] else parts[0] + [sep] + Join(parts[1..], sep)
  }

  /**
   * `str::split(sep)`: the maximal `sep`-free pieces between separators, at
   * least one (the empty string splits into one empty piece).
   */
  function Split(s: string, sep: char): (parts: seq<string>)
    ensures |parts| >= 1
    ensures forall i :: 0 <= i < |parts| ==> sep !in parts[i]
    ensures Join(parts, sep) == s
  {
    if s == [] then [[]]
    else
      var rest := Split(s[1..], sep);
      if s[0] == sep then
        assert ([[]] + rest)[1..] == rest;
        [[]] + rest
      else
        var parts := [[s[0]] + rest[0]] + rest[1..];
        assert parts[1..] == rest[1..];
        parts
  }

  /**
   * `Split` is the inverse of `Join`: any separator-free decomposition of a
   * string is the one `Split` returns.
   */
  lemma {:induction false} SplitJoin(parts: seq<string>, sep: char)
    requires |parts| >= 1
    requires forall i :: 0 <= i < |parts| ==> sep !in parts[i]
    ensures Split(Join(parts, sep), sep) == parts
    decreases |Join(parts, sep)|
  {
    var s := Join(parts, sep);
    if parts[0] == [] {
      if |parts| > 1 {
        assert s == [sep] + Join(parts[1..], sep);
        assert s[1..] == Join(parts[1..], sep);
        SplitJoin(parts[1..], sep);
        assert parts == [[]] + parts[1..];
      }
    } else {
      var tail := [parts[0][1..]] + parts[1..];
      JoinAfterFirstChar(parts, sep);
      assert forall i :: 1 <= i < |tail| ==> tail[i] == parts[i];
      SplitJoin(tail, sep);
      assert parts[0] == [s[0]] + tail[0];
      assert parts == [[s[0]] + tail[0]] + tail[1..];
    }
  }

  /** Dropping the first character of a joined string drops it from the first part. */
  lemma JoinAfterFirstChar(parts: seq<string>, sep: char)
    requires |parts| >= 1 && parts[0] != []
    ensures var s := Join(parts, sep);
            s != [] && s[0] == parts[0][0] && s[1..] == Join([parts[0][1..]] + parts[1..], sep)
  {
    var tail := [parts[0][1..]] + parts[1..];
    assert tail[1..] == parts[1..];
    if |parts| > 1 {
      assert Join(parts, sep) == parts[0] + [sep] + Join(parts[1..], sep);
      assert Join(tail, sep) == parts[0][1..] + [sep] + Join(parts[1..], sep);
    }
  }

  /**
   * The first piece of a split is the longest separator-free prefix, and it
   * is the whole string when the separator does not occur.
   */
  lemma SplitFirstPiece(s: string, sep: char)
    ensures sep !in s ==> Split(s, sep) == [s]
    ensures var first := Split(s, sep)[0];
            first <= s && (|first| < |s| ==> s[|first|] == sep)
  {
    var parts := Split(s, sep);
    if |parts| > 1 {
      assert s == parts[0] + [sep] + Join(parts[1..], sep);
      assert s[|parts[0]|] == sep;
    }
  }

  /** Every character of every piece comes from the split string. */
  lemma {:induction false} JoinKeepsCharacters(parts: seq<string>, sep: char, i: nat, c: char)
    requires |parts| >= 1 && i < |parts|
    requires c in parts[i]
    ensures c in Join(parts, sep)
  {
    if i > 0 {
      JoinKeepsCharacters(parts[1..], sep, i - 1, c);
    }
  }

  /** The parameter name the client looks for, with its `=`. */
  const BOUNDARY_KEY: string := "boundary="

  /** A `;`-separated segment that, once trimmed, starts with `boundary=`. */
  predicate IsBoundarySegment(segment: string)
  {
    BOUNDARY_KEY <= Trim(segment)
  }

  /**
   * The same test without `trim`: after leading whitespace the segment starts
   * with `boundary=`. Trailing whitespace cannot matter, the key ending in `=`.
   */
  lemma BoundarySegmentShape(segment: string)
    ensures IsBoundarySegment(segment) <==>
              exists k :: 0 <= k <= |segment| && BOUNDARY_KEY <= segment[k..]
                          && forall j :: 0 <= j < k ==> IsWhitespace(segment[j])
  {
    if IsBoundarySegment(segment) {
      KeyOfBoundarySegment(segment);
    }
    forall k | 0 <= k <= |segment| && BOUNDARY_KEY <= segment[k..]
                 && (forall j :: 0 <= j < k ==> IsWhitespace(segment[j]))
      ensures IsBoundarySegment(segment)
    {
      BoundarySegmentOfKey(segment, k);
    }
  }

  /** A boundary segment starts with the key once its leading whitespace is skipped. */
  lemma KeyOfBoundarySegment(segment: string)
    requires IsBoundarySegment(segment)
    ensures var k := |segment| - |TrimStart(segment)|;
            && BOUNDARY_KEY <= segment[k..]
            && forall j :: 0 <= j < k ==> IsWhitespace(segment[j])
  {
    var front := TrimStart(segment);
    assert BOUNDARY_KEY <= front;
  }

  /** The key after leading whitespace makes a boundary segment. */
  lemma BoundarySegmentOfKey(segment: string, k: nat)
    requires k <= |segment| && BOUNDARY_KEY <= segment[k..]
    requires forall j :: 0 <= j < k ==> IsWhitespace(segment[j])
    ensures IsBoundarySegment(segment)
  {
    var padding, rest := segment[..k], segment[k..];
    assert segment == padding + rest;
    assert rest[0] == BOUNDARY_KEY[0] == 'b';
    TrimStartAfterPadding(padding, rest);
    TrimEndKeepsPrefix(BOUNDARY_KEY, rest);
  }

  /**
   * `Iterator::find` over the segments from position `i` on, answered by the
   * position of the first segment that `accepts` holds for.
   */
  function FindSegment(segments: seq<string>, accepts: string -> bool, i: nat): (r: Option<nat>)
    requires i <= |segments|
    decreases |segments| - i
    ensures r.Some? ==> i <= r.value < |segments| && accepts(segments[r.value])
    ensures r.Some? ==> forall j :: i <= j < r.value ==> !accepts(segments[j])
    ensures r.None? ==> forall j :: i <= j < |segments| ==> !accepts(segments[j])
  {
    if i == |segments| then None
    else if accepts(segments[i]) then Some(i)
    else FindSegment(segments, accepts, i + 1)
  }

  /** No segment is accepted. */
  ghost predicate NoneAccepted(segments: seq<string>, accepts: string -> bool)
  {
    forall j :: 0 <= j < |segments| ==> !accepts(segments[j])
  }

  /** Segment `i` is accepted and no segment before it is. */
  ghost predicate IsFirstAccepted(segments: seq<string>, accepts: string -> bool, i: nat)
  {
    i < |segments| && accepts(segments[i]) && forall j :: 0 <= j < i ==> !accepts(segments[j])
  }

  /** At most one segment is the first accepted one. */
  lemma FirstAcceptedUnique(segments: seq<string>, accepts: string -> bool, i: nat, j: nat)
    requires IsFirstAccepted(segments, accepts, i) && IsFirstAccepted(segments, accepts, j)
    ensures i == j
  {
  }

  /**
   * When `s[i]` is the first separator, the second piece of the split is the
   * first piece of what follows that separator.
   */
  lemma SecondPiece(s: string, sep: char, i: nat)
    requires i < |s| && s[i] == sep && sep !in s[..i]
    ensures |Split(s, sep)| > 1 && Split(s, sep)[1] == Split(s[i + 1..], sep)[0]
  {
    var parts := Split(s, sep);
    SplitFirstPiece(s, sep);
    assert |parts[0]| == i;
    assert |parts| > 1;
    assert s == parts[0] + [sep] + Join(parts[1..], sep);
    assert s[i + 1..] == Join(parts[1..], sep);
    SplitJoin(parts[1..], sep);
  }

  /**
   * `split('=').nth(1).unwrap_or("").trim()`: the text between the first and
   * the second `=` of a segment, trimmed; empty when there is no `=`. A value
   * that itself holds `=` is cut there.
   */
  function ParameterValue(segment: string): (value: string)
    ensures '=' !in segment ==> value == []
    ensures forall i :: 0 <= i < |segment| && segment[i] == '=' && '=' !in segment[..i] ==>
              value == Trim(Split(segment[i + 1..], '=')[0])
    ensures '=' !in value
    ensures value != [] ==> !IsWhitespace(value[0]) && !IsWhitespace(value[|value| - 1])
    ensures forall c :: c in value ==> c in segment
  {
    var pieces := Split(segment, '=');
    var second := if |pieces| > 1 then pieces[1] else "";
    ParameterTextAfterFirst(segment, second);
    Trim(second)
  }

  /**
   * What `nth(1).unwrap_or("")` yields: empty without an `=`, otherwise the
   * first piece of the text after the first `=`, drawn from the segment.
   */
  lemma ParameterTextAfterFirst(segment: string, second: string)
    requires second == (if |Split(segment, '=')| > 1 then Split(segment, '=')[1] else "")
    ensures '=' !in segment ==> second == []
    ensures forall i :: 0 <= i < |segment| && segment[i] == '=' && '=' !in segment[..i] ==>
              second == Split(segment[i + 1..], '=')[0]
    ensures forall c :: c in second ==> c in segment
  {
    var pieces := Split(segment, '=');
    SplitFirstPiece(segment, '=');
    forall i | 0 <= i < |segment| && segment[i] == '=' && '=' !in segment[..i]
      ensures second == Split(segment[i + 1..], '=')[0]
    {
      SecondPiece(segment, '=', i);
    }
    forall c | c in second
      ensures c in segment
    {
      JoinKeepsCharacters(pieces, '=', 1, c);
    }
  }

  /**
   * The (trimmed) boundary parameter of a Content-Type value: the value of
   * the first `;`-segment that names it, or none when no segment does.
   */
  function BoundaryParameter(contentType: string): (r: Option<string>)
    ensures r.None? <==> NoneAccepted(Split(contentType, ';'), IsBoundarySegment)
    ensures forall i: nat :: IsFirstAccepted(Split(contentType, ';'), IsBoundarySegment, i) ==>
              r == Some(ParameterValue(Split(contentType, ';')[i]))
    ensures r.Some? ==> '=' !in r.value && ';' !in r.value
    ensures r.Some? ==> forall c :: c in r.value ==> c in contentType
  {
    var segments := Split(contentType, ';');
    match FindSegment(segments, IsBoundarySegment, 0)
    case None => None
    case Some(i) =>
      var segment := segments[i];
      var value := ParameterValue(segment);
      forall c | c in segment
        ensures c in contentType
      {
        JoinKeepsCharacters(segments, ';', i, c);
      }
      assert IsFirstAccepted(segments, IsBoundarySegment, i);
      forall j: nat | IsFirstAccepted(segments, IsBoundarySegment, j)
        ensures j == i
      {
        FirstAcceptedUnique(segments, IsBoundarySegment, i, j);
      }
      Some(value)
  }

  /**
   * A non-empty parameter value taken from visible-ASCII header text and free
   * of `=` and `;` encodes to a full delimiter once `--` is prefixed.
   */
  lemma DelimiterOfValue(value: string, text: string)
    requires value != [] && '=' !in value && ';' !in value
    requires forall c :: c in value ==> c in text
    requires forall c :: c in text ==> IsVisibleChar(c)
    ensures IsAscii(value)
    ensures IsDelimiter(DASHES + AsciiBytes(value))
  {
    forall k | 0 <= k < |value|
      ensures IsVisibleChar(value[k]) && value[k] != '=' && value[k] != ';'
    {
      assert value[k] in value;
    }
    var boundary := DASHES + AsciiBytes(value);
    forall i | 2 <= i < |boundary|
      ensures IsVisibleAscii(boundary[i]) && boundary[i] != '=' as int && boundary[i] != ';' as int
    {
      assert boundary[i] == value[i - 2] as int;
    }
  }

  /** Leading whitespace is all that `TrimStart` removes. */
  lemma {:induction false} TrimStartAfterPadding(padding: string, s: string)
    requires forall k :: 0 <= k < |padding| ==> IsWhitespace(padding[k])
    requires s != [] && !IsWhitespace(s[0])
    ensures TrimStart(padding + s) == s
  {
    if padding == [] {
      assert padding + s == s;
    } else {
      assert (padding + s)[0] == padding[0];
      assert (padding + s)[1..] == padding[1..] + s;
      TrimStartAfterPadding(padding[1..], s);
    }
  }

  /** A prefix that ends in a non-whitespace character survives `TrimEnd`. */
  lemma TrimEndKeepsPrefix(prefix: string, s: string)
    requires prefix <= s && prefix != [] && !IsWhitespace(prefix[|prefix| - 1])
    ensures prefix <= TrimEnd(s)
  {
  }

  /** Whitespace holds neither separator the negotiation splits on. */
  lemma PaddingHasNoSeparator(padding: string)
    requires forall k :: 0 <= k < |padding| ==> IsWhitespace(padding[k])
    ensures ';' !in padding && '=' !in padding
  {
    forall k | 0 <= k < |padding|
      ensures padding[k] != ';' && padding[k] != '='
    {
      assert IsWhitespace(padding[k]);
    }
  }

  /** A keyed segment holds a `;` only where its value does. */
  lemma KeyedSegmentHasNoSemicolon(padding: string, value: string)
    requires forall k :: 0 <= k < |padding| ==> IsWhitespace(padding[k])
    requires ';' !in value
    ensures ';' !in padding + BOUNDARY_KEY + value
  {
    PaddingHasNoSeparator(padding);
    assert ';' !in BOUNDARY_KEY;
  }

  /** A `boundary=` key after whitespace makes a boundary segment. */
  lemma KeyedSegment(padding: string, value: string)
    requires forall k :: 0 <= k < |padding| ==> IsWhitespace(padding[k])
    ensures IsBoundarySegment(padding + BOUNDARY_KEY + value)
  {
    assert padding + BOUNDARY_KEY + value == padding + (BOUNDARY_KEY + value);
    TrimStartAfterPadding(padding, BOUNDARY_KEY + value);
    TrimEndKeepsPrefix(BOUNDARY_KEY, BOUNDARY_KEY + value);
  }

  /** The value of a keyed segment is its text up to the next `=`, trimmed. */
  lemma {:induction false} KeyedSegmentValue(padding: string, value: string)
    requires forall k :: 0 <= k < |padding| ==> IsWhitespace(padding[k])
    ensures ParameterValue(padding + BOUNDARY_KEY + value) == Trim(Split(value, '=')[0])
  {
    PaddingHasNoSeparator(padding);
    var key := padding + "boundary";
    var pieces := Split(value, '=');
    assert ([key] + pieces)[1..] == pieces;
    assert padding + BOUNDARY_KEY + value == Join([key] + pieces, '=');
    SplitJoin([key] + pieces, '=');
  }

  /**
   * Negotiating `<segments>;<whitespace>boundary=<value>;<segments>`, where
   * no earlier segment names the boundary: the parameter is the part of
   * `value` before its first `=`, trimmed, whatever whitespace precedes the
   * key and whatever follows (a later `boundary=` included).
   */
  lemma {:induction false} BoundaryOfParameter(before: seq<string>, padding: string, value: string, after: seq<string>)
    requires forall i :: 0 <= i < |before| ==> ';' !in before[i] && !IsBoundarySegment(before[i])
    requires forall k :: 0 <= k < |padding| ==> IsWhitespace(padding[k])
    requires ';' !in value
    requires forall i :: 0 <= i < |after| ==> ';' !in after[i]
    ensures var contentType := Join(before + [padding + BOUNDARY_KEY + value] + after, ';');
            && BoundaryParameter(contentType) == Some(Trim(Split(value, '=')[0]))
            && ('=' !in value ==> BoundaryParameter(contentType) == Some(Trim(value)))
  {
    var segment := padding + BOUNDARY_KEY + value;
    KeyedSegmentHasNoSemicolon(padding, value);
    KeyedSegment(padding, value);
    FirstBoundaryDecides(before, segment, after);
    KeyedSegmentValue(padding, value);
    SplitFirstPiece(value, '=');
  }

  /** With the parameter repeated, the first `boundary=` is the one used. */
  lemma RepeatedBoundaryTakesFirst()
    ensures BoundaryParameter("boundary=a;boundary=b") == Some("a")
  {
    assert Trim("a") == "a";
    RepeatedBoundarySegments();
    BoundaryOfParameter([], "", "a", ["boundary=b"]);
  }

  /** The segments of the header above. */
  lemma RepeatedBoundarySegments()
    ensures Join([] + ["" + BOUNDARY_KEY + "a"] + ["boundary=b"], ';') == "boundary=a;boundary=b"
  {
  }

  /** The first segment that names the boundary is the one negotiated. */
  lemma FirstBoundaryDecides(before: seq<string>, segment: string, after: seq<string>)
    requires forall i :: 0 <= i < |before| ==> ';' !in before[i] && !IsBoundarySegment(before[i])
    requires ';' !in segment && IsBoundarySegment(segment)
    requires forall i :: 0 <= i < |after| ==> ';' !in after[i]
    ensures BoundaryParameter(Join(before + [segment] + after, ';')) == Some(ParameterValue(segment))
  {
    var segments := before + [segment] + after;
    SeparatorFreeConcat(before, segment, after, ';');
    SplitJoin(segments, ';');
    FirstAcceptedAfter(before, segment, after, IsBoundarySegment);
  }

  /** Pieces free of the separator stay so once put in one sequence. */
  lemma SeparatorFreeConcat(before: seq<string>, segment: string, after: seq<string>, sep: char)
    requires forall i :: 0 <= i < |before| ==> sep !in before[i]
    requires sep !in segment
    requires forall i :: 0 <= i < |after| ==> sep !in after[i]
    ensures var segments := before + [segment] + after;
            forall i :: 0 <= i < |segments| ==> sep !in segments[i]
  {
    var segments := before + [segment] + after;
    forall i | 0 <= i < |segments|
      ensures sep !in segments[i]
    {
      if i > |before| {
        assert segments[i] == after[i - |before| - 1];
      }
    }
  }

  /** An accepted segment after rejected ones is the first accepted. */
  lemma FirstAcceptedAfter(before: seq<string>, segment: string, after: seq<string>, accepts: string -> bool)
    requires forall i :: 0 <= i < |before| ==> !accepts(before[i])
    requires accepts(segment)
    ensures IsFirstAccepted(before + [segment] + after, accepts, |before|)
  {
    var segments := before + [segment] + after;
    assert segments[|before|] == segment;
    forall j | 0 <= j < |before|
      ensures !accepts(segments[j])
    {
      assert segments[j] == before[j];
    }
  }

  /** Why a connection attempt does or does not move on to streaming. */
  datatype Negotiation =
    | Accepted(boundary: seq<Byte>)
    | BadStatus(status: nat)
    | MissingContentType
    | BoundaryNotFound
    | EmptyBoundary

  /** `StatusCode::is_success`: a 2xx status. */
  predicate IsSuccess(status: nat)
  {
    200 <= status <= 299
  }

  /** The two hyphens that open every multipart delimiter. */
  const DASHES: seq<Byte> := [45, 45]

  /**
   * A full delimiter as negotiated: `--` and a non-empty value of visible
   * ASCII holding neither `=` nor `;`.
   */
  ghost predicate IsDelimiter(boundary: seq<Byte>)
  {
    && |boundary| > 2
    && boundary[..2] == DASHES
    && forall i :: 2 <= i < |boundary| ==>
         IsVisibleAscii(boundary[i]) && boundary[i] != '=' as int && boundary[i] != ';' as int
  }

  /**
   * The Connecting arm's decision on a response: its status and its optional
   * `content-type` header (a header that is not visible ASCII reads as absent).
   */
  function Negotiate(status: nat, header: Option<seq<Byte>>): (r: Negotiation)
    ensures r.BadStatus? <==> !IsSuccess(status)
    ensures r.BadStatus? ==> r.status == status
    ensures r.MissingContentType? <==>
              IsSuccess(status) && (header.None? || HeaderText(header.value).None?)
    ensures r.BoundaryNotFound? <==>
              && IsSuccess(status) && header.Some? && HeaderText(header.value).Some?
              && BoundaryParameter(HeaderText(header.value).value).None?
    ensures r.EmptyBoundary? <==>
              && IsSuccess(status) && header.Some? && HeaderText(header.value).Some?
              && BoundaryParameter(HeaderText(header.value).value) == Some([])
    ensures r.Accepted? ==> IsDelimiter(r.boundary)
    ensures r.Accepted? ==>
              && header.Some? && HeaderText(header.value).Some?
              && BoundaryParameter(HeaderText(header.value).value).Some?
              && Spells(r.boundary[2..], BoundaryParameter(HeaderText(header.value).value).value)
  {
    if !IsSuccess(status) then BadStatus(status)
    else if header.None? then MissingContentType
    else match HeaderText(header.value)
      case None => MissingContentType
      case Some(text) =>
        match BoundaryParameter(text)
        case None => BoundaryNotFound
        case Some(value) =>
          if value == [] then EmptyBoundary
          else
            DelimiterOfValue(value, text);
            var boundary := DASHES + AsciiBytes(value);
            assert boundary[2..] == AsciiBytes(value);
            Accepted(boundary)
  }
}
