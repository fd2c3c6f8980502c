/**
 * The pure pieces of the Streaming arm: which token to scan for, how one
 * multipart part yields its payload, and what one look at the buffer finds.
 */
module Demux {
  import opened Wrappers
  import opened ByteSearch

  const CRLF: seq<Byte> := [13, 10]

  /** The blank line that ends a part's headers. */
  const HEADER_BODY_SEPARATOR: seq<Byte> := [13, 10, 13, 10]

  /**
   * The token scanned for: the bare delimiter until the first frame has been
   * emitted, the delimiter preceded by CRLF afterwards.
   */
  function SearchToken(boundary: seq<Byte>, isFirstFrame: bool): (token: seq<Byte>)
    ensures isFirstFrame ==> token == boundary
    ensures !isFirstFrame ==> |token| == |boundary| + 2 && token[..2] == CRLF && token[2..] == boundary
  {
    if isFirstFrame then boundary else CRLF + boundary
  }

  /**
   * The payload of one part: every byte after the first blank line, provided
   * there is at least one. A part without a blank line, or with nothing after
   * it, has none.
   */
  function DecodePart(part: seq<Byte>): (payload: Option<seq<Byte>>)
    ensures payload.Some? ==> 0 < |payload.value|
    ensures !Contains(part, HEADER_BODY_SEPARATOR) ==> payload.None?
    ensures forall q: nat :: IsFirstOccurrence(part, HEADER_BODY_SEPARATOR, q) ==>
              payload == if q + 4 < |part| then Some(part[q + 4..]) else None
  {
    if part == [] then None
    else match Find(part, HEADER_BODY_SEPARATOR)
      case None => None
      case Some(q) =>
        var image := part[q + |HEADER_BODY_SEPARATOR|..];
        forall q': nat | IsFirstOccurrence(part, HEADER_BODY_SEPARATOR, q')
          ensures q' == q
        {
          FirstOccurrenceUnique(part, HEADER_BODY_SEPARATOR, q, q');
        }
        if image == [] then None else Some(image)
  }

  /** In `bytes + token`, the first occurrence of `token` is the appended one. */
  ghost predicate TokenFirstAtEnd(bytes: seq<Byte>, token: seq<Byte>)
  {
    forall q: nat :: q < |bytes| ==> !OccursAt(bytes + token, token, q)
  }

  /** Headers that the blank line after them ends, and nothing earlier. */
  ghost predicate IsHeaderBlock(headers: seq<Byte>)
  {
    TokenFirstAtEnd(headers, HEADER_BODY_SEPARATOR)
  }

  /** Decoding undoes the framing of a part: headers, blank line, payload. */
  lemma DecodeFramedPart(headers: seq<Byte>, payload: seq<Byte>)
    requires IsHeaderBlock(headers) && payload != []
    ensures DecodePart(headers + HEADER_BODY_SEPARATOR + payload) == Some(payload)
  {
    var framed := headers + HEADER_BODY_SEPARATOR;
    var part := framed + payload;
    assert part[|headers|..|headers| + 4] == HEADER_BODY_SEPARATOR;
    forall q: nat | q < |headers|
      ensures !OccursAt(part, HEADER_BODY_SEPARATOR, q)
    {
      assert !OccursAt(framed, HEADER_BODY_SEPARATOR, q);
      assert part[q..q + 4] == framed[q..q + 4];
    }
    assert IsFirstOccurrence(part, HEADER_BODY_SEPARATOR, |headers|);
    assert part[|headers| + 4..] == payload;
  }

  /** What one look at the buffer finds (one pass of the loop's scan). */
  datatype Examination =
    | FrameAt(frame: seq<Byte>, rest: seq<Byte>)
    | Malformed(rest: seq<Byte>)
    | NoToken

  /**
   * The part before the first token and the buffer left once the part and the
   * token are drained: a frame when the part decodes, a part to drop when it
   * does not, nothing when the token is absent.
   */
  function Examine(buffer: seq<Byte>, token: seq<Byte>): (r: Examination)
    requires |token| > 0
    ensures r.NoToken? <==> !Contains(buffer, token)
    ensures forall p: nat :: IsFirstOccurrence(buffer, token, p) ==>
              && !r.NoToken?
              && r.rest == buffer[p + |token|..]
              && (r.FrameAt? <==> DecodePart(buffer[..p]).Some?)
              && (r.FrameAt? ==> DecodePart(buffer[..p]) == Some(r.frame))
    ensures r.FrameAt? ==> 0 < |r.frame| && !Contains(r.frame, token)
    ensures !r.NoToken? ==> |r.rest| < |buffer|
  {
    match Find(buffer, token)
    case None => NoToken
    case Some(p) =>
      forall p': nat | IsFirstOccurrence(buffer, token, p')
        ensures p' == p
      {
        FirstOccurrenceUnique(buffer, token, p, p');
      }
      var rest := buffer[p + |token|..];
      match DecodePart(buffer[..p])
      case None => Malformed(rest)
      case Some(frame) =>
        assert frame == buffer[..p][|buffer[..p]| - |frame|..];
        assert frame == buffer[p - |frame|..p];
        FreeBeforeFirst(buffer, token, p, p - |frame|);
        FrameAt(frame, rest)
  }

  /** Examining at the offset the scan reports: the part decides the outcome. */
  lemma ExamineAt(buffer: seq<Byte>, token: seq<Byte>, p: nat)
    requires |token| > 0 && Find(buffer, token) == Some(p)
    ensures Examine(buffer, token)
            == match DecodePart(buffer[..p])
               case Some(frame) => FrameAt(frame, buffer[p + |token|..])
               case None => Malformed(buffer[p + |token|..])
  {
  }

  /**
   * A part followed by the token, with no earlier occurrence of the token,
   * is examined as that part, and the bytes after the token stay buffered.
   */
  lemma ExamineDelimitedPart(part: seq<Byte>, token: seq<Byte>, more: seq<Byte>)
    requires |token| > 0 && TokenFirstAtEnd(part, token)
    ensures Examine(part + token + more, token)
            == match DecodePart(part)
               case Some(frame) => FrameAt(frame, more)
               case None => Malformed(more)
  {
    var delimited := part + token;
    var buffer := delimited + more;
    assert buffer[|part|..|part| + |token|] == token;
    forall q: nat | q < |part|
      ensures !OccursAt(buffer, token, q)
    {
      assert !OccursAt(delimited, token, q);
      assert buffer[q..q + |token|] == delimited[q..q + |token|];
    }
    assert IsFirstOccurrence(buffer, token, |part|);
    assert buffer[..|part|] == part;
    assert buffer[|part| + |token|..] == more;
  }
}
