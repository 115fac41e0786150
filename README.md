# metal-refapp responder: a Dafny model of `handle_client`

The responder is a probe target for orchestrators and load balancers. It
accepts TCP connections, reads one request, and answers with one of three
fixed status lines. The answer depends only on the start of the request line:

- `GET /healthcheck`, `GET /ok` and `GET /heartbeat` are answered
  `HTTP/1.1 200 <OK_TEXT>\r\n\r\n`.
- `GET /failing-deepcheck` is always answered
  `HTTP/1.1 500 INTERNAL SERVER ERROR\r\n\r\n`.
- `GET /flakey-deepcheck` is answered 500 when the clock's milliseconds
  modulo 100 are below 20, and 200 otherwise.
- Everything else is answered `HTTP/1.1 404 NOT FOUND\r\n\r\n`.

This project models `handle_client` in `src/main.rs`:

- `request.dfy` (module `Request`): the zeroed 1024-byte buffer after the
  single read (`Fill`), its decoding to text (`Decode`), Rust's `str::lines`
  (`Lines`) and the request line `lines().next().unwrap_or("")` (`FirstLine`).
- `responses.dfy` (module `Responses`): the three response templates, the
  `Outcome` they stand for, and `StatusCode`, the client's reading of a
  status line. `StatusCode` is the inverse used to show the templates are distinct.
- `classifier.dfy` (module `Classifier`): the if/else-if chain as `Classify`,
  the written text as `Respond(line, okText, nowMillis)`, and the lemmas
  about priority, clock use and the 20-in-100 failure rate.
- `handler.dfy` (module `Handler`): `HandleClient`, a method that fills a
  `new byte[1024]` array the way the read does, then extracts the line and
  classifies it. It also holds end-to-end lemmas from received bytes to the
  response.

The clock is a parameter `nowMillis: nat`, the value `as_millis()` would
return. When the system time is before the epoch, `unwrap_or_default`
makes that value 0. The success text `okText` is a parameter too.

`str::lines` is modelled the way current Rust defines it. The text is cut at
the first `\n`. A `\r` directly before that `\n` is dropped. A final line
with no `\n` after it is kept whole, including a trailing `\r`.

The whole buffer is decoded, zero bytes included. So for a request of at
most 1024 bytes that holds no line feed, the request line is the decoded
bytes followed by `1024 - |chunk|` NUL characters, where `|chunk|` is the
number of bytes received. `RequestLineWithoutLineFeed` states this under
the model's one-character-per-byte decoding.

## Model

| member | source | states |
|---|---|---|
| `Request.Fill` | src/main.rs:18-19 | the buffer always has 1024 bytes: the received bytes up to that capacity, then zeros |
| `Request.Decode` | src/main.rs:21 | the whole buffer is decoded, one character per byte; a character is ASCII exactly where its byte is, and an ASCII byte decodes to itself |
| `Request.DecodeEncode` | src/main.rs:21 | decoding gives back exactly the ASCII text a client sent |
| `Request.DecodeLineFeed` | src/main.rs:21 | a decoded character is `\n` exactly where the byte is a line feed |
| `Request.NewlineIndex` | src/main.rs:22 | the result is the position of the first `\n`, or the length when there is none |
| `Request.Lines` | src/main.rs:22 | there are no lines exactly when the text is empty, and no line contains `\n` |
| `Request.JoinLinesOfLines` | src/main.rs:22 | for a text without `\r`, joining the lines with `\n` gives back the text, less one final `\n` |
| `Request.FirstLine` | src/main.rs:22 | the request line has no `\n` and is a prefix of the text; it is the whole text when there is no `\n`, and `""` for empty input |
| `Request.FirstLineTerminator` | src/main.rs:22 | when the text has a `\n`, the line is followed by `\r\n`, or by `\n` with no `\r` before it |
| `Request.PrefixSurvives` | src/main.rs:22-26 | a prefix with no `\n` or `\r` at the start of the text is also at the start of the request line |
| `Responses.OkResponse` | src/main.rs:8-9 | the 200 line starts with `HTTP/1.1 `, holds okText verbatim between `HTTP/1.1 200 ` and the final `\r\n\r\n`, and ends with `\r\n\r\n` |
| `Responses.Render` | src/main.rs:8-11 | every response starts with `HTTP/1.1 ` and ends with an empty line |
| `Responses.StatusCodeOfRender` | src/main.rs:8-11 | reading the status code from a response gives 200, 404 or 500 for its outcome, whatever okText is |
| `Responses.RenderInjective` | src/main.rs:8-11 | two different outcomes are never written as the same text |
| `Classifier.Classify` | src/main.rs:24-60 | the outcome is NotFound exactly when no known prefix starts the line; Ok needs a health prefix or a flakey line outside the failing window; InternalError needs the failing prefix or a flakey line inside it |
| `Classifier.Respond` | src/main.rs:24-60 | the response is always the 200 okText line, the 404 line or the 500 line, and is framed by `HTTP/1.1 ` and `\r\n\r\n` |
| `Classifier.KnownPrefixesExclusive` | src/main.rs:24-39 | no line starts with two different known prefixes |
| `Classifier.HealthCheckResponds` | src/main.rs:24-32 | a line starting with any health prefix gets the okText 200 line, on every clock value |
| `Classifier.FailingDeepcheckResponds` | src/main.rs:33-38 | a line starting with `GET /failing-deepcheck` gets the 500 line on every clock value |
| `Classifier.FlakeyDeepcheckResponds` | src/main.rs:39-57 | a flakey line gets the 500 line if and only if `nowMillis % 100 < 20`, and the okText 200 line if and only if not |
| `Classifier.UnknownResponds` | src/main.rs:58-59 | a line starting with none of the five prefixes gets the 404 line |
| `Classifier.NonGetResponds` | src/main.rs:24-59 | a line not starting with `GET /` gets the 404 line |
| `Classifier.NotFoundExamples` | src/main.rs:58-59 | the empty line, `POST /ok HTTP/1.1` and `GET /unknown HTTP/1.1` get the 404 line |
| `Classifier.ClockIndependent` | src/main.rs:24-38 | every line without the flakey prefix gets the same response on any two clock values |
| `Classifier.AppendKeepsClass` | src/main.rs:24-59 | appending text to a line that starts with a known prefix does not change its classification |
| `Classifier.FailingTicksPerHundred` | src/main.rs:44 | any 100 consecutive millisecond values hold exactly 20 in the failing window |
| `Classifier.FlakeyFailsTwentyPerHundred` | src/main.rs:39-57 | a flakey line gets the 500 line on exactly 20 of any 100 consecutive clock values |
| `Classifier.FailingDeepcheckAlwaysFails` | src/main.rs:33-38 | a failing-deepcheck line gets the 500 line on all n clock values of every window |
| `Handler.RequestLineOf` | src/main.rs:18-22 | the request line of the received bytes has no `\n`, is at most 1024 characters and is a prefix of the decoded, zero-filled buffer |
| `Handler.HandleClient` | src/main.rs:7-64 | the response written is `Respond` applied to the first line of the decoded, zero-filled buffer |
| `Handler.RequestLineWithoutLineFeed` | src/main.rs:18-22 | with no line feed received, the request line is the decoded bytes followed by NULs up to 1024 characters |
| `Handler.TruncatedAtCapacity` | src/main.rs:18-19 | bytes past the 1024th never influence the request line |
| `Handler.ChunkStartsWithPrefix` | src/main.rs:18-26 | received bytes that spell a known prefix make the request line start with that prefix |
| `Handler.HealthCheckRequest` | src/main.rs:18-32 | received bytes that start with a health prefix are answered with the okText 200 line |
| `Handler.OkProbeExchange` | src/main.rs:8-32 | `GET /ok HTTP/1.1\r\n\r\n` with okText `OK` is answered exactly `HTTP/1.1 200 OK\r\n\r\n` |

## Left out

- Socket I/O is not modelled: `TcpListener::bind`, `incoming()`, `peer_addr`, `read`, `write` and `flush`, and their `unwrap` panics. The bytes one read delivers are a parameter, and the model stops at the text to be written.
- `main`'s accept loop and its error logging are left out. They have no logic beyond calling `handle_client` once per accepted connection, in sequence.
- `OK_TEXT` and `LISTEN_ADDRESS` are not read from the environment, and their defaults are not modelled. The success text is a parameter.
- Reading the wall clock is left out. The milliseconds since the epoch are the parameter `nowMillis`.
- `println!` logging and the peer address, including the `unknown` fallback, are left out. They are output only and do not affect the response.
- Request.Decode: this is a simplified `String::from_utf8_lossy`. ASCII bytes decode to themselves, and every byte from 0x80 up decodes to U+FFFD. Valid multi-byte UTF-8 sequences are not reassembled into one character. All five prefixes and both line terminators are ASCII, so prefix matching sees the same ASCII start of the line either way.
- Handler.HandleClient: the response is returned as text. It is not encoded to bytes as `as_bytes()` does.
- The `u128` width of `as_millis()` is not modelled. `nowMillis` is unbounded, and no real clock value comes near that limit.
