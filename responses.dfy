/** The three status lines a connection can be answered with. Every response
    is a bare status line followed by an empty line: no headers, no body. */
module Responses {

  /** The outcome of classifying a request; Ok is rendered with the
      configured success text. */
  datatype Outcome = Ok | NotFound | InternalError

  datatype Option<T> = None | Some(value: T)

  const Version: string := "HTTP/1.1 "
  const Terminator: string := "\r\n\r\n"
  const NotFoundResponse: string := "HTTP/1.1 404 NOT FOUND\r\n\r\n"
  const InternalServerErrorResponse: string := "HTTP/1.1 500 INTERNAL SERVER ERROR\r\n\r\n"

  /** The success status line, with okText embedded verbatim. */
  function OkResponse(okText: string): (r: string)
    ensures "HTTP/1.1 200 " <= r
    ensures |r| == |okText| + 17 && r[13..|r| - 4] == okText
    ensures r[|r| - 4..] == Terminator
  {
    "HTTP/1.1 200 " + okText + Terminator
  }

  /** The status code an outcome stands for. */
  function Code(o: Outcome): nat
  {
    match o
    case Ok => 200
    case NotFound => 404
    case InternalError => 500
  }

  /** The wire text of an outcome. */
  function Render(o: Outcome, okText: string): (r: string)
    ensures Version <= r
    ensures |r| >= 16 && r[|r| - 4..] == Terminator
  {
    match o
    case Ok => OkResponse(okText)
    case NotFound => NotFoundResponse
    case InternalError => InternalServerErrorResponse
  }

  function DigitValue(c: char): nat
  {
    if '0' <= c <= '9' then c as int - '0' as int else 0
  }

  predicate IsDigit(c: char)
  {
    '0' <= c <= '9'
  }

  /** What a client reads as the status code of a response: the three
      digits after the version, if the response has them. */
  function StatusCode(r: string): (code: Option<nat>)
    ensures code.Some? ==> code.value < 1000
  {
    if |r| >= 12 && Version <= r && IsDigit(r[9]) && IsDigit(r[10]) && IsDigit(r[11])
    then Some(100 * DigitValue(r[9]) + 10 * DigitValue(r[10]) + DigitValue(r[11]))
    else None
  }

  /** Reading the status code back from a rendered outcome gives its code,
      whatever the success text. */
  lemma StatusCodeOfRender(o: Outcome, okText: string)
    ensures StatusCode(Render(o, okText)) == Some(Code(o))
  {
  }

  /** Distinct outcomes are answered with distinct text. */
  lemma RenderInjective(o1: Outcome, o2: Outcome, okText: string)
    requires Render(o1, okText) == Render(o2, okText)
    ensures o1 == o2
  {
    StatusCodeOfRender(o1, okText);
    StatusCodeOfRender(o2, okText);
  }
}
