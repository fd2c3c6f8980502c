/**
 * The subscription's three-state driver. Each activation consumes one state
 * and yields one message and the next state. The network is replaced by
 * inputs: the outcome of the connection attempt, and the items the response
 * body will deliver, carried inside the Streaming state as the rest of the
 * stream. The five-second sleep is a delay recorded in the Sleeping state.
 */
module Driver {
  import opened Wrappers
  import opened ByteSearch
  import opened ContentType
  import opened Demux

  /** What the subscription hands to the application. */
  datatype Message = ImageLoaded(frame: seq<Byte>) | Error(text: string)

  /** One `stream.next()` result that is not the end: a chunk or a transport error. */
  datatype StreamItem = Chunk(bytes: seq<Byte>) | Failed(reason: string)

  /** The driver state; in `Streaming`, `stream` is what the body has yet to deliver. */
  datatype State =
    | Connecting
    | Streaming(stream: seq<StreamItem>, buffer: seq<Byte>, boundary: seq<Byte>, isFirstFrame: bool)
    | Sleeping(seconds: nat)

  /** A response: its status, its raw `content-type` header and its body. */
  datatype Response = Response(status: nat, contentType: Option<seq<Byte>>, body: seq<StreamItem>)

  /** The outcome of the GET request. */
  datatype Attempt = TransportError(reason: string) | Responded(response: Response)

  /** Seconds slept before every reconnection. */
  const RECONNECT_DELAY: nat := 5

  const CONNECTED_TEXT := "Connected. Waiting for frame..."
  const EMPTY_BOUNDARY_TEXT := "Empty boundary in Content-Type header"
  const NO_BOUNDARY_TEXT := "Boundary not found in Content-Type header"
  const NO_CONTENT_TYPE_TEXT := "Missing Content-Type header"
  const STREAM_ENDED_TEXT := "Stream ended. Reconnecting..."
  const RECONNECTING_TEXT := "Reconnecting..."

  /** The number a string of decimal digits denotes, most significant first. */
  ghost function DigitsValue(s: string): int
  {
    if s == [] then 0 else DigitsValue(s[..|s| - 1]) * 10 + (s[|s| - 1] as int - '0' as int)
  }

  /** Decimal digits of a status code, without leading zeros. */
  function DecimalText(n: nat): (r: string)
    ensures r != [] && forall i :: 0 <= i < |r| ==> '0' <= r[i] <= '9'
    ensures DigitsValue(r) == n
    ensures |r| > 1 ==> r[0] != '0'
  {
    var digit := ['0' + (n % 10) as char];
    if n < 10 then digit
    else
      var prefix := DecimalText(n / 10);
      assert (prefix + digit)[..|prefix|] == prefix;
      prefix + digit
  }

  /** What holds of every state the driver reaches. */
  ghost predicate Inv(state: State)
  {
    && (state.Streaming? ==> IsDelimiter(state.boundary))
    && (state.Sleeping? ==> state.seconds == RECONNECT_DELAY)
  }

  /**
   * The Connecting arm: streaming with an empty buffer exactly when the
   * response is a success that negotiates a delimiter; otherwise an error
   * message and a sleep.
   */
  function Connect(attempt: Attempt): (r: (Message, State))
    ensures r.1.Streaming? <==>
              attempt.Responded? && Negotiate(attempt.response.status, attempt.response.contentType).Accepted?
    ensures r.1.Streaming? ==>
              && r.0 == Error(CONNECTED_TEXT)
              && r.1.stream == attempt.response.body
              && r.1.buffer == []
              && r.1.isFirstFrame
              && r.1.boundary == Negotiate(attempt.response.status, attempt.response.contentType).boundary
    ensures !r.1.Streaming? ==> r.0.Error? && r.1 == Sleeping(RECONNECT_DELAY)
    ensures Inv(r.1)
  {
    match attempt
    case TransportError(reason) =>
      (Error("Connection error: " + reason), Sleeping(RECONNECT_DELAY))
    case Responded(response) =>
      match Negotiate(response.status, response.contentType)
      case Accepted(boundary) =>
        (Error(CONNECTED_TEXT), Streaming(response.body, [], boundary, true))
      case BadStatus(status) =>
        (Error("Connection failed with status: " + DecimalText(status)), Sleeping(RECONNECT_DELAY))
      case MissingContentType => (Error(NO_CONTENT_TYPE_TEXT), Sleeping(RECONNECT_DELAY))
      case BoundaryNotFound => (Error(NO_BOUNDARY_TEXT), Sleeping(RECONNECT_DELAY))
      case EmptyBoundary => (Error(EMPTY_BOUNDARY_TEXT), Sleeping(RECONNECT_DELAY))
  }

  /** The outcome of one pass of the Streaming loop. */
  datatype Progress =
    | Emit(message: Message, next: State)
    | Rescan(stream: seq<StreamItem>, buffer: seq<Byte>)

  /**
   * One pass of the Streaming loop: emit the part before the first token when
   * it decodes, else drain it and scan again; read the stream only when the
   * token is absent, appending a chunk, sleeping on an error or on the end.
   */
  function Advance(stream: seq<StreamItem>, buffer: seq<Byte>, boundary: seq<Byte>, isFirstFrame: bool): (r: Progress)
    requires |boundary| > 0
    ensures var token := SearchToken(boundary, isFirstFrame);
            r.Emit? && r.message.ImageLoaded? ==>
              && r.next.Streaming?
              && r.next == Streaming(stream, r.next.buffer, boundary, false)
              && Contains(buffer, token)
              && 0 < |r.message.frame| && !Contains(r.message.frame, token)
              && forall p: nat :: IsFirstOccurrence(buffer, token, p) ==>
                   && DecodePart(buffer[..p]) == Some(r.message.frame)
                   && r.next.buffer == buffer[p + |token|..]
    ensures var token := SearchToken(boundary, isFirstFrame);
            r.Emit? && !r.message.ImageLoaded? ==>
              && r.next == Sleeping(RECONNECT_DELAY)
              && !Contains(buffer, token)
              && (stream == [] ==> r.message == Error(STREAM_ENDED_TEXT))
              && (stream != [] ==> stream[0].Failed? && r.message == Error("Stream error: " + stream[0].reason))
    ensures var token := SearchToken(boundary, isFirstFrame);
            r.Rescan? && r.stream == stream ==>
              && Contains(buffer, token)
              && forall p: nat :: IsFirstOccurrence(buffer, token, p) ==>
                   && DecodePart(buffer[..p]).None?
                   && r.buffer == buffer[p + |token|..]
    ensures var token := SearchToken(boundary, isFirstFrame);
            r.Rescan? && r.stream != stream ==>
              && !Contains(buffer, token)
              && stream != [] && stream[0].Chunk?
              && r.stream == stream[1..]
              && r.buffer == buffer + stream[0].bytes
    ensures r.Rescan? ==> |r.stream| < |stream| || (r.stream == stream && |r.buffer| < |buffer|)
  {
    match Examine(buffer, SearchToken(boundary, isFirstFrame))
    case FrameAt(frame, rest) => Emit(ImageLoaded(frame), Streaming(stream, rest, boundary, false))
    case Malformed(rest) => Rescan(stream, rest)
    case NoToken =>
      if stream == [] then Emit(Error(STREAM_ENDED_TEXT), Sleeping(RECONNECT_DELAY))
      else match stream[0]
        case Chunk(bytes) => Rescan(stream[1..], buffer + bytes)
        case Failed(reason) => Emit(Error("Stream error: " + reason), Sleeping(RECONNECT_DELAY))
  }

  /**
   * How an activation of the Streaming arm may end: with a non-empty frame
   * that does not hold the token, streaming on with the same delimiter,
   * `isFirstFrame` cleared and the rest of the same stream; or with an error
   * message and a sleep.
   */
  ghost predicate EndsActivation(stream: seq<StreamItem>, boundary: seq<Byte>, isFirstFrame: bool, r: (Message, State))
    requires |boundary| > 0
  {
    && (r.0.ImageLoaded? <==> r.1.Streaming?)
    && (r.1.Streaming? ==>
          && r.1.boundary == boundary
          && !r.1.isFirstFrame
          && |r.1.stream| <= |stream| && r.1.stream == stream[|stream| - |r.1.stream|..]
          && 0 < |r.0.frame| && !Contains(r.0.frame, SearchToken(boundary, isFirstFrame)))
    && (!r.1.Streaming? ==> r.0.Error? && r.1 == Sleeping(RECONNECT_DELAY))
  }

  /**
   * A whole activation of the Streaming arm: passes of the loop until one
   * emits.
   */
  function Activation(stream: seq<StreamItem>, buffer: seq<Byte>, boundary: seq<Byte>, isFirstFrame: bool): (r: (Message, State))
    requires |boundary| > 0
    decreases |stream|, |buffer|
    ensures EndsActivation(stream, boundary, isFirstFrame, r)
  {
    match Advance(stream, buffer, boundary, isFirstFrame)
    case Emit(message, next) =>
      EmitEndsActivation(stream, buffer, boundary, isFirstFrame);
      (message, next)
    case Rescan(stream', buffer') =>
      RescanMakesProgress(stream, buffer, boundary, isFirstFrame);
      var r := Activation(stream', buffer', boundary, isFirstFrame);
      EndsOnTail(stream, stream', boundary, isFirstFrame, r);
      r
  }

  /** A pass that emits ends the activation. */
  lemma EmitEndsActivation(stream: seq<StreamItem>, buffer: seq<Byte>, boundary: seq<Byte>, isFirstFrame: bool)
    requires |boundary| > 0 && Advance(stream, buffer, boundary, isFirstFrame).Emit?
    ensures var e := Advance(stream, buffer, boundary, isFirstFrame);
            EndsActivation(stream, boundary, isFirstFrame, (e.message, e.next))
  {
    assert stream[|stream| - |stream|..] == stream;
  }

  /** A pass that scans again leaves the stream or its tail, and consumes something. */
  lemma RescanMakesProgress(stream: seq<StreamItem>, buffer: seq<Byte>, boundary: seq<Byte>, isFirstFrame: bool)
    requires |boundary| > 0 && Advance(stream, buffer, boundary, isFirstFrame).Rescan?
    ensures var e := Advance(stream, buffer, boundary, isFirstFrame);
            && (e.stream == stream || (stream != [] && e.stream == stream[1..]))
            && (|e.stream| < |stream| || (e.stream == stream && |e.buffer| < |buffer|))
  {
  }

  /** An ending reached from the stream's tail is an ending of the whole stream. */
  lemma EndsOnTail(stream: seq<StreamItem>, tail: seq<StreamItem>, boundary: seq<Byte>, isFirstFrame: bool, r: (Message, State))
    requires |boundary| > 0 && (tail == stream || (stream != [] && tail == stream[1..]))
    requires EndsActivation(tail, boundary, isFirstFrame, r)
    ensures EndsActivation(stream, boundary, isFirstFrame, r)
  {
    if r.1.Streaming? {
      assert tail == stream[|stream| - |tail|..];
      assert r.1.stream == stream[|stream| - |r.1.stream|..];
    }
  }

  /**
   * The Streaming arm as the source runs it: a loop over a growable buffer
   * that drains scanned parts from its front and appends the chunks it reads.
   */
  method ReceiveFrame(stream: seq<StreamItem>, buffer: seq<Byte>, boundary: seq<Byte>, isFirstFrame: bool)
    returns (message: Message, next: State)
    requires |boundary| > 0
    ensures (message, next) == Activation(stream, buffer, boundary, isFirstFrame)
  {
    var pending, bytes := stream, buffer;
    while true
      invariant Activation(pending, bytes, boundary, isFirstFrame) == Activation(stream, buffer, boundary, isFirstFrame)
      decreases |pending|, |bytes|
    {
      var token := if isFirstFrame then boundary else CRLF + boundary;
      assert token == SearchToken(boundary, isFirstFrame);
      var found := Find(bytes, token);
      if found.Some? {
        var position := found.value;
        ExamineAt(bytes, token, position);
        var part := bytes[..position];
        if part != [] {
          var separator := Find(part, HEADER_BODY_SEPARATOR);
          if separator.Some? {
            var image := part[separator.value + |HEADER_BODY_SEPARATOR|..];
            if image != [] {
              assert DecodePart(part) == Some(image);
              bytes := bytes[position + |token|..];
              return ImageLoaded(image), Streaming(pending, bytes, boundary, false);
            }
          }
        }
        assert DecodePart(part).None?;
        bytes := bytes[position + |token|..];
      } else if pending == [] {
        return Error(STREAM_ENDED_TEXT), Sleeping(RECONNECT_DELAY);
      } else {
        match pending[0]
        case Chunk(chunk) =>
          assert Advance(pending, bytes, boundary, isFirstFrame) == Rescan(pending[1..], bytes + chunk);
          bytes := bytes + chunk;
          pending := pending[1..];
        case Failed(reason) =>
          return Error("Stream error: " + reason), Sleeping(RECONNECT_DELAY);
      }
    }
  }

  /** One activation of the driver, whatever its state. */
  function Transition(state: State, attempt: Attempt): (r: (Message, State))
    requires Inv(state)
    ensures Inv(r.1)
  {
    match state
    case Connecting => Connect(attempt)
    case Streaming(stream, buffer, boundary, isFirstFrame) => Activation(stream, buffer, boundary, isFirstFrame)
    case Sleeping(_) => (Error(RECONNECTING_TEXT), Connecting)
  }

  /**
   * There is no terminal failure: an activation of Connecting or Streaming
   * that does not stream on leads, one activation later, back to Connecting
   * with the reconnection notice, whatever the network then does.
   */
  lemma RecoversAfterFailure(state: State, attempt: Attempt, nextAttempt: Attempt)
    requires Inv(state) && !state.Sleeping?
    requires !Transition(state, attempt).1.Streaming?
    ensures Transition(state, attempt).0.Error?
    ensures Transition(state, attempt).1 == Sleeping(RECONNECT_DELAY)
    ensures Transition(Transition(state, attempt).1, nextAttempt) == (Error(RECONNECTING_TEXT), Connecting)
  {
  }

  /**
   * The subscription's step: the Connecting and Sleeping arms as values, the
   * Streaming arm through its loop.
   */
  method Step(state: State, attempt: Attempt) returns (message: Message, next: State)
    requires Inv(state)
    ensures (message, next) == Transition(state, attempt)
    ensures Inv(next)
  {
    match state {
      case Connecting =>
        message, next := Connect(attempt).0, Connect(attempt).1;
      case Streaming(stream, buffer, boundary, isFirstFrame) =>
        message, next := ReceiveFrame(stream, buffer, boundary, isFirstFrame);
      case Sleeping(_) =>
        message, next := Error(RECONNECTING_TEXT), Connecting;
    }
  }

  /**
   * A part as a later part of the body frames it: headers, blank line,
   * payload, then the CRLF and delimiter that close it. The activation emits
   * exactly the payload and keeps what follows.
   */
  lemma NextFrameRoundTrip(stream: seq<StreamItem>, headers: seq<Byte>, payload: seq<Byte>, more: seq<Byte>, boundary: seq<Byte>)
    requires |boundary| > 0 && IsHeaderBlock(headers) && payload != []
    requires TokenFirstAtEnd(headers + HEADER_BODY_SEPARATOR + payload, CRLF + boundary)
    ensures var part := headers + HEADER_BODY_SEPARATOR + payload;
            Activation(stream, part + (CRLF + boundary) + more, boundary, false)
            == (ImageLoaded(payload), Streaming(stream, more, boundary, false))
  {
    var part := headers + HEADER_BODY_SEPARATOR + payload;
    ExamineDelimitedPart(part, CRLF + boundary, more);
    DecodeFramedPart(headers, payload);
  }

  /**
   * The first part of a body: the opening delimiter, whose empty part is
   * dropped, then a part closed by the bare delimiter. The activation emits
   * the payload and clears `isFirstFrame`.
   */
  lemma FirstFrameRoundTrip(stream: seq<StreamItem>, headers: seq<Byte>, payload: seq<Byte>, more: seq<Byte>, boundary: seq<Byte>)
    requires |boundary| > 0 && IsHeaderBlock(headers) && payload != []
    requires TokenFirstAtEnd(headers + HEADER_BODY_SEPARATOR + payload, boundary)
    ensures var part := headers + HEADER_BODY_SEPARATOR + payload;
            Activation(stream, boundary + (part + boundary + more), boundary, true)
            == (ImageLoaded(payload), Streaming(stream, more, boundary, false))
  {
    var part := headers + HEADER_BODY_SEPARATOR + payload;
    var rest := part + boundary + more;
    assert boundary + rest == [] + boundary + rest;
    ExamineDelimitedPart([], boundary, rest);
    assert Advance(stream, boundary + rest, boundary, true) == Rescan(stream, rest);
    ExamineDelimitedPart(part, boundary, more);
    DecodeFramedPart(headers, payload);
  }

  /**
   * With the framing of section 5.1.1 of RFC 2046, where CRLF belongs to the
   * delimiter that follows a part, the first frame the engine emits keeps that
   * CRLF: the first part is closed by the bare delimiter.
   */
  lemma FirstFrameKeepsLineBreak(stream: seq<StreamItem>, headers: seq<Byte>, payload: seq<Byte>, more: seq<Byte>, boundary: seq<Byte>)
    requires |boundary| > 0 && IsHeaderBlock(CRLF + headers) && payload != []
    requires TokenFirstAtEnd(CRLF + headers + HEADER_BODY_SEPARATOR + payload + CRLF, boundary)
    ensures var body := boundary + (CRLF + headers + HEADER_BODY_SEPARATOR + payload + (CRLF + boundary) + more);
            Activation(stream, body, boundary, true)
            == (ImageLoaded(payload + CRLF), Streaming(stream, more, boundary, false))
  {
    var framedHeaders := CRLF + headers;
    assert framedHeaders + HEADER_BODY_SEPARATOR + (payload + CRLF)
           == CRLF + headers + HEADER_BODY_SEPARATOR + payload + CRLF;
    assert CRLF + headers + HEADER_BODY_SEPARATOR + payload + (CRLF + boundary) + more
           == framedHeaders + HEADER_BODY_SEPARATOR + (payload + CRLF) + boundary + more;
    FirstFrameRoundTrip(stream, framedHeaders, payload + CRLF, more, boundary);
  }

  /** One part of a multipart body: its header block and its payload. */
  datatype Part = Part(headers: seq<Byte>, payload: seq<Byte>)

  /** A part the engine can frame with `token`: decodable, and the token not inside it. */
  ghost predicate IsFramable(part: Part, token: seq<Byte>)
  {
    && IsHeaderBlock(part.headers)
    && part.payload != []
    && TokenFirstAtEnd(part.headers + HEADER_BODY_SEPARATOR + part.payload, token)
  }

  /** Parts laid out one after another, each closed by `token`. */
  function Encode(parts: seq<Part>, token: seq<Byte>): seq<Byte>
  {
    if parts == [] then []
    else parts[0].headers + HEADER_BODY_SEPARATOR + parts[0].payload + token + Encode(parts[1..], token)
  }

  /** The first framed part, its token, then the rest of the layout. */
  lemma EncodeFirst(parts: seq<Part>, token: seq<Byte>, more: seq<Byte>)
    requires parts != []
    ensures Encode(parts, token) + more
         == parts[0].headers + HEADER_BODY_SEPARATOR + parts[0].payload + token + (Encode(parts[1..], token) + more)
  {
  }

  /** One activation past the first frame takes exactly the first encoded part. */
  lemma ActivationOnEncoded(stream: seq<StreamItem>, parts: seq<Part>, more: seq<Byte>, boundary: seq<Byte>)
    requires |boundary| > 0 && parts != [] && IsFramable(parts[0], CRLF + boundary)
    ensures Activation(stream, Encode(parts, CRLF + boundary) + more, boundary, false)
            == (ImageLoaded(parts[0].payload),
                Streaming(stream, Encode(parts[1..], CRLF + boundary) + more, boundary, false))
  {
    EncodeFirst(parts, CRLF + boundary, more);
    NextFrameRoundTrip(stream, parts[0].headers, parts[0].payload, Encode(parts[1..], CRLF + boundary) + more, boundary);
  }

  /**
   * Up to `n` further activations of a Streaming state past its first frame,
   * as the subscription runs them one after another: the messages they emit
   * and the state they leave.
   */
  function Replay(stream: seq<StreamItem>, buffer: seq<Byte>, boundary: seq<Byte>, n: nat): (seq<Message>, State)
    requires |boundary| > 0
    decreases n
  {
    if n == 0 then ([], Streaming(stream, buffer, boundary, false))
    else
      var step := Activation(stream, buffer, boundary, false);
      if step.1.Streaming? then
        var later := Replay(step.1.stream, step.1.buffer, boundary, n - 1);
        ([step.0] + later.0, later.1)
      else ([step.0], step.1)
  }

  /** A Streaming activation that emits a frame is the first of a replay. */
  lemma ReplayAfterFrame(stream: seq<StreamItem>, buffer: seq<Byte>, boundary: seq<Byte>, n: nat, frame: seq<Byte>, rest: seq<Byte>)
    requires |boundary| > 0 && n > 0
    requires Activation(stream, buffer, boundary, false) == (ImageLoaded(frame), Streaming(stream, rest, boundary, false))
    ensures var later := Replay(stream, rest, boundary, n - 1);
            Replay(stream, buffer, boundary, n) == ([ImageLoaded(frame)] + later.0, later.1)
  {
  }

  /** The frame messages for the parts' payloads, in order. */
  function Loaded(parts: seq<Part>): (messages: seq<Message>)
    ensures |messages| == |parts|
    ensures forall i :: 0 <= i < |parts| ==> messages[i] == ImageLoaded(parts[i].payload)
  {
    if parts == [] then [] else [ImageLoaded(parts[0].payload)] + Loaded(parts[1..])
  }

  /**
   * Demultiplexing undoes framing: a buffer holding framed parts followed by
   * anything yields, one activation per part, exactly their payloads in order,
   * and leaves the trailing bytes buffered without touching the stream.
   */
  lemma {:induction false} ReplayEncoded(stream: seq<StreamItem>, parts: seq<Part>, more: seq<Byte>, boundary: seq<Byte>)
    requires |boundary| > 0
    requires forall i :: 0 <= i < |parts| ==> IsFramable(parts[i], CRLF + boundary)
    ensures Replay(stream, Encode(parts, CRLF + boundary) + more, boundary, |parts|)
            == (Loaded(parts), Streaming(stream, more, boundary, false))
  {
    if parts != [] {
      var token := CRLF + boundary;
      var tail := Encode(parts[1..], token) + more;
      assert IsFramable(parts[0], token);
      ActivationOnEncoded(stream, parts, more, boundary);
      ReplayAfterFrame(stream, Encode(parts, token) + more, boundary, |parts|, parts[0].payload, tail);
      assert forall i :: 0 <= i < |parts[1..]| ==> IsFramable(parts[1..][i], token);
      ReplayEncoded(stream, parts[1..], more, boundary);
      assert Loaded(parts) == [ImageLoaded(parts[0].payload)] + Loaded(parts[1..]);
    } else {
      assert Encode(parts, CRLF + boundary) + more == more;
    }
  }
}
