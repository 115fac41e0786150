/** One connection end to end: the single read into a zeroed 1024-byte
    buffer, the request line, the classification and the text written back. */
module Handler {
  import opened Request
  import opened Responses
  import opened Classifier

  /** The request line the handler extracts from the bytes that arrived. */
  function RequestLineOf(chunk: seq<byte>): (line: string)
    ensures '\n' !in line
    ensures |line| <= BufferSize && line <= Decode(Fill(chunk))
  {
    FirstLine(Decode(Fill(chunk)))
  }

  /** Services one connection: `chunk` is what its single read delivered,
      `okText` the configured success text, `nowMillis` the clock. */
  method HandleClient(chunk: seq<byte>, okText: string, nowMillis: nat) returns (response: string)
    ensures response == Respond(RequestLineOf(chunk), okText, nowMillis)
  {
    var buffer := new byte[BufferSize](_ => 0);
    var n := if |chunk| < BufferSize then |chunk| else BufferSize;
    forall i | 0 <= i < n {
      buffer[i] := chunk[i];
    }
    assert buffer[..] == Fill(chunk);
    var request := Decode(buffer[..]);
    var requestLine := FirstLine(request);
    response := Respond(requestLine, okText, nowMillis);
  }

  /** The decoded buffer always spans the full 1024 characters, so when no
      line feed arrived the request line carries the unread zero bytes. */
  lemma RequestLineWithoutLineFeed(chunk: seq<byte>)
    requires |chunk| <= BufferSize
    requires forall i :: 0 <= i < |chunk| ==> chunk[i] != LineFeed
    ensures |RequestLineOf(chunk)| == BufferSize
    ensures RequestLineOf(chunk) == Decode(chunk) + seq(BufferSize - |chunk|, _ => '\0')
  {
  }

  /** Bytes beyond the buffer's capacity are never read. */
  lemma TruncatedAtCapacity(chunk: seq<byte>)
    requires |chunk| > BufferSize
    ensures RequestLineOf(chunk) == RequestLineOf(chunk[..BufferSize])
  {
  }

  /** A request whose bytes start with a known prefix is classified by that
      prefix, whatever else arrived. */
  lemma ChunkStartsWithPrefix(chunk: seq<byte>, p: string)
    requires IsKnownPrefix(p)
    requires |p| <= |chunk| && forall i :: 0 <= i < |p| ==> chunk[i] as int == p[i] as int
    ensures StartsWith(RequestLineOf(chunk), p)
  {
    var text := Decode(Fill(chunk));
    forall i | 0 <= i < |p| ensures text[i] == p[i] {
      assert Fill(chunk)[i] == chunk[i];
    }
    PrefixSurvives(p, text);
  }

  /** A health-check request is answered 200 with the success text. */
  lemma HealthCheckRequest(chunk: seq<byte>, p: string, okText: string, nowMillis: nat)
    requires p == HealthCheckPrefix || p == OkPrefix || p == HeartbeatPrefix
    requires |p| <= |chunk| && forall i :: 0 <= i < |p| ==> chunk[i] as int == p[i] as int
    ensures Respond(RequestLineOf(chunk), okText, nowMillis) == OkResponse(okText)
  {
    ChunkStartsWithPrefix(chunk, p);
    HealthCheckResponds(RequestLineOf(chunk), okText, nowMillis);
  }

  /** The probe exchange: "GET /ok HTTP/1.1\r\n\r\n" with the default success
      text "OK" reads back exactly "HTTP/1.1 200 OK\r\n\r\n". */
  lemma OkProbeExchange(request: string, okText: string, nowMillis: nat)
    requires request == "GET /ok HTTP/1.1\r\n\r\n" && okText == "OK"
    ensures forall i :: 0 <= i < |request| ==> request[i] as int < 0x80
    ensures Respond(RequestLineOf(Encode(request)), okText, nowMillis) == "HTTP/1.1 200 OK\r\n\r\n"
  {
    assert OkPrefix <= request;
    HealthCheckRequest(Encode(request), OkPrefix, okText, nowMillis);
  }
}
