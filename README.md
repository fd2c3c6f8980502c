# xcoffee MJPEG stream ingestion, modelled in Dafny

xcoffee shows a network camera's `multipart/x-mixed-replace` (MJPEG) stream. Its
core is the subscription in `src/main.rs`: a driver with three states
(`Connecting`, `Streaming`, `Sleeping`). Each time it is activated it consumes
its state and returns one message and the next state:

- **Connecting** performs the GET request. It checks for a 2xx status and
  reads the `content-type` header. It splits the header on `;`, takes the first
  segment whose trimmed form starts with `boundary=`, and takes the trimmed text
  between that segment's first and second `=`. It then streams, using `--` plus
  that value as the delimiter. Every failure produces an error message and a
  five-second sleep.
- **Streaming** runs a loop over a growable byte buffer:
  - It scans for the delimiter. Until the first frame has been emitted it scans
    for the bare delimiter; after that it scans for CRLF followed by the
    delimiter.
  - The bytes before the first occurrence form a part. Its payload is whatever
    follows the first blank line (`\r\n\r\n`), provided that is not empty.
  - A part with a payload is emitted as a frame. A part without one is dropped
    silently. Either way, the part and the token are drained from the front of
    the buffer.
  - Only when the buffer holds no token does the loop read the stream. A chunk
    is appended to the buffer. A transport error or the end of the stream
    produces an error message and a sleep.
- **Sleeping** waits and then reconnects, with the notice "Reconnecting...".

The model replaces the network with inputs. An `Attempt` is either a transport
error or a response, and a response carries a status, the raw header and the
body. The body is a finite sequence of `StreamItem`s, where each item is a chunk
or a transport error. The empty sequence is the end of the stream. The sleep
is a delay recorded in the state.

The Connecting and Sleeping arms are functions. The Streaming arm is the method
`Driver.ReceiveFrame`. It keeps the source's loop over a local buffer that it
drains and extends, and it is proved equal to the specification
`Driver.Activation`. That specification repeats `Driver.Advance`, one pass of
the loop, until a pass emits.

The model follows the code in several places where a reading of the multipart
convention would expect something else:

- After the first frame, only a delimiter preceded by CRLF is recognised. For
  the body `--B\r\nH\r\n\r\nA--B\r\nH\r\n\r\nB--B` the engine emits `A` and then
  waits for more data. The closing `--B` of the second part is not a delimiter
  there, and it becomes part of whatever frame a later CRLF and `--B` close.
- Until the first frame, the token is the bare delimiter, and that includes the
  delimiter that closes the first part. So with the framing of section 5.1.1 of
  RFC 2046, the first frame keeps the CRLF that belongs to the next delimiter
  (`Driver.FirstFrameKeepsLineBreak`). Later frames are exact
  (`Driver.ReplayEncoded`).
- Quoted boundary values are not unquoted. A value that holds `=` is cut at
  the `=` (`ContentType.BoundaryOfParameter`). The parameter name must be the
  lower-case `boundary=`.
- A part that does not decode is dropped together with its delimiter, even if
  it was a truncated frame.

## Model

| member | source | states |
|---|---|---|
| `ByteSearch.Find` | src/main.rs:225-227 | the offset returned is the first occurrence of the token; none exactly when the token occurs nowhere, in particular when the buffer is shorter than the token |
| `ByteSearch.FindFrom` | src/main.rs:225-227 | the window scan from an offset returns an occurrence with none between the start and it, or none when no window from the start matches |
| `ByteSearch.FreeBeforeFirst` | src/main.rs:229-238 | no slice ending at the first occurrence of a token contains that token |
| `ByteSearch.TokenAfterReadEndsInChunk` | src/main.rs:225-257 | when the buffer held no token before a chunk is appended and holds one after, the first occurrence ends inside the chunk: it straddles the join or lies in the chunk |
| `ContentType.AsciiBytes` | src/main.rs:169-170 | the bytes of an ASCII string: one byte per character, each the character's code |
| `ContentType.HeaderText` | src/main.rs:149-152 | the header reads as text exactly when every byte is a tab or visible ASCII, character for byte |
| `ContentType.TrimStart` | src/main.rs:156 | the result is a suffix, only whitespace was removed, and it does not start with whitespace |
| `ContentType.TrimEnd` | src/main.rs:156 | the result is a prefix, only whitespace was removed, and it does not end with whitespace |
| `ContentType.Trim` | src/main.rs:159 | no whitespace at either end, empty exactly for all-whitespace input, characters drawn from the input |
| `ContentType.TrimIsSlice` | src/main.rs:156-159 | what trimming keeps is a slice of the input with only whitespace before and after it |
| `ContentType.Split` | src/main.rs:156 | at least one piece, no piece holds the separator, and joining the pieces with the separator gives back the input |
| `ContentType.SplitJoin` | src/main.rs:156-159 | splitting undoes joining: every separator-free decomposition is the one split returns |
| `ContentType.SplitFirstPiece` | src/main.rs:156-159 | the first piece is the longest separator-free prefix, and the whole input when the separator does not occur |
| `ContentType.SecondPiece` | src/main.rs:158-159 | the second piece (`nth(1)`) exists exactly past the first separator and is the first piece of the text after it |
| `ContentType.BoundarySegmentShape` | src/main.rs:156 | a segment passes the `find` test exactly when, after leading whitespace, it starts with `boundary=` |
| `ContentType.FindSegment` | src/main.rs:155-157 | the position of the first segment the predicate accepts, with every earlier one rejected; none exactly when it accepts no segment (the engine passes "trimmed, starts with `boundary=`") |
| `ContentType.ParameterValue` | src/main.rs:158-159 | empty when the segment has no `=`; otherwise the trimmed text after the first `=` up to the next `=` or the end; it holds no `=`, has no whitespace at its ends, and uses only characters of the segment |
| `ContentType.BoundaryParameter` | src/main.rs:154-159 | none exactly when no `;`-segment names the boundary; when segment `i` is the first that does, the parameter value of segment `i`; the value holds neither `=` nor `;` and is taken from the header |
| `ContentType.BoundaryOfParameter` | src/main.rs:155-160 | for any header `<segments>;<whitespace>boundary=<value>;<segments>` whose earlier segments do not name the boundary, the parameter is the text of the value before its first `=`, trimmed, or the whole value trimmed when it has no `=`, whatever follows |
| `ContentType.FirstBoundaryDecides` | src/main.rs:155-159 | the first segment that names the boundary decides the parameter, whatever segments follow it |
| `ContentType.RepeatedBoundaryTakesFirst` | src/main.rs:155-159 | `boundary=a;boundary=b` negotiates `a` |
| `ContentType.DelimiterOfValue` | src/main.rs:169-170 | `--` followed by a non-empty header value encodes to a delimiter of visible ASCII without `=` or `;` |
| `ContentType.Negotiate` | src/main.rs:147-206 | bad status exactly for a non-2xx status; missing content type exactly when the header is absent or not visible ASCII; no boundary exactly when no segment names it; empty boundary exactly for an empty value; otherwise a delimiter spelling `--` and the value |
| `Demux.SearchToken` | src/main.rs:219-223 | the token is the boundary while the first frame is pending, and CRLF followed by the boundary afterwards |
| `Demux.DecodePart` | src/main.rs:229-239 | the payload is exactly the bytes after the first blank line, when there is at least one; none for an empty part, a part without a blank line, or an empty payload |
| `Demux.DecodeFramedPart` | src/main.rs:231-239 | decoding headers, blank line and a non-empty payload gives back the payload |
| `Demux.Examine` | src/main.rs:225-253 | no token exactly when the buffer lacks it; otherwise the rest is the buffer minus the first part and its token, a frame exactly when that part decodes; a frame is non-empty and never contains the token; the rest is shorter than the buffer |
| `Demux.ExamineDelimitedPart` | src/main.rs:225-253 | a part followed by its token, with the token nowhere earlier, is examined as that part, and the bytes after the token stay buffered |
| `Driver.DecimalText` | src/main.rs:200-203 | a status is rendered as decimal digits that read back to it, without a leading zero |
| `Driver.Connect` | src/main.rs:146-212 | streams exactly when the response negotiates a delimiter, then with the connected notice, the response body, an empty buffer, the first-frame flag set and the negotiated delimiter; every other outcome is an error message and a five-second sleep |
| `Driver.Advance` | src/main.rs:219-272 | a frame is the decoded part before the first token, emitted with the same stream and the buffer minus the part and the token; a dropped part removes exactly that prefix and keeps the stream; the stream is read only when the token is absent, and a chunk is appended; an end or error of the stream gives its message and the sleep; each continuing pass consumes an item or shortens the buffer |
| `Driver.Activation` | src/main.rs:218-273 | an activation ends with a non-empty frame that holds no token, in Streaming with the same delimiter, the first-frame flag cleared and the rest of the same stream; or with an error message and a five-second sleep |
| `Driver.ReceiveFrame` | src/main.rs:213-273 | the in-place loop over the buffer returns exactly the message and state of the activation specification |
| `Driver.Transition` | src/main.rs:145-282 | every activation keeps the driver invariant: a Streaming state holds a valid delimiter, and a sleep lasts five seconds |
| `Driver.Step` | src/main.rs:144-283 | the driver's step returns the message and state of the transition, and keeps the invariant |
| `Driver.RecoversAfterFailure` | src/main.rs:259-280 | a Connecting or Streaming activation that does not stream on reports an error and sleeps, and the next activation reconnects with "Reconnecting..." |
| `Driver.NextFrameRoundTrip` | src/main.rs:219-249 | once past the first frame, a framed part closed by CRLF and the delimiter is emitted as exactly its payload, and the bytes after it stay buffered |
| `Driver.FirstFrameRoundTrip` | src/main.rs:219-253 | the first activation drops the empty part before the opening delimiter and emits the payload of the part closed by the bare delimiter |
| `Driver.FirstFrameKeepsLineBreak` | src/main.rs:219-240 | with RFC 2046 framing the first frame is the payload followed by CRLF |
| `Driver.ReplayEncoded` | src/main.rs:218-249 | a buffer of framed parts yields, one activation per part, exactly their payloads in order, and leaves the trailing bytes and the stream untouched |

## Left out

- The iced application (`main`, `new`, `title`, `update`, `view`, `theme`, src/main.rs:12-124 and 287-289) is left out. It is display glue that only assigns fields.
- `apply_trojan_filter` (src/main.rs:292-327) is left out. It uses floating-point aspect ratios and the `image` crate to decode, resize and encode.
- The network and the clock are inputs, not calls:
  - `reqwest::get` becomes an `Attempt`.
  - `bytes_stream` becomes the finite sequence of stream items carried in the Streaming state.
  - `tokio::time::sleep` becomes the delay recorded in `Sleeping`.
  - The asynchronous `unfold` plumbing, which calls the step again and again, is not modelled. `Driver.Replay` stands in for it where several activations are chained.
- The body is a finite sequence, so every activation of the model ends. A real body that delivers chunks forever without ever holding the token keeps one activation of the source reading forever. The model does not capture that.
- The text of foreign `Display` implementations is not modelled:
  - Transport and stream error texts are opaque strings supplied with the input.
  - A status is rendered as its decimal digits. The canonical reason phrase that the status code's `Display` adds is left out.
- `HeaderValue::to_str` is modelled by the http crate's rule that a value reads as text when every byte is a tab or visible ASCII (0x20 to 0x7E). That crate is not part of this model.
- `str::trim` is modelled over ASCII whitespace (U+0009 to U+000D and space). Other Unicode whitespace cannot occur in a header that reads as text.
- `Message::ImageLoaded(Err(..))` and `Message::ToggleTrojanView` are not produced by the core and are left out. The model's `ImageLoaded` carries the frame that the source wraps in `Ok`.
- Durations are whole seconds.
- Driver.Connect: for the failure outcomes it states an error message and the sleep, but not the exact wording of each message. The wording appears in the function's body.
