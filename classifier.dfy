/** Classification of a request line: a case-sensitive prefix match tried
    in a fixed priority order, with the clock deciding the flakey endpoint. */
module Classifier {
  import opened Responses

  const HealthCheckPrefix: string := "GET /healthcheck"
  const OkPrefix: string := "GET /ok"
  const HeartbeatPrefix: string := "GET /heartbeat"
  const FailingPrefix: string := "GET /failing-deepcheck"
  const FlakeyPrefix: string := "GET /flakey-deepcheck"

  /** The five prefixes that classification inspects. */
  predicate IsKnownPrefix(p: string)
  {
    p == HealthCheckPrefix || p == OkPrefix || p == HeartbeatPrefix ||
    p == FailingPrefix || p == FlakeyPrefix
  }

  /** `str::starts_with`: the line begins with the prefix. */
  predicate StartsWith(line: string, prefix: string)
  {
    prefix <= line
  }

  predicate IsHealthCheck(line: string)
  {
    StartsWith(line, HealthCheckPrefix) || StartsWith(line, OkPrefix) ||
    StartsWith(line, HeartbeatPrefix)
  }

  /** The flakey endpoint fails in the first 20 milliseconds of every 100. */
  predicate FlakeyFails(nowMillis: nat)
  {
    nowMillis % 100 < 20
  }

  /** The if/else-if chain of the handler, first match wins. */
  function Classify(line: string, nowMillis: nat): (o: Outcome)
    ensures o == NotFound <==> forall p :: IsKnownPrefix(p) ==> !StartsWith(line, p)
    ensures o == Ok ==> IsHealthCheck(line) || (StartsWith(line, FlakeyPrefix) && !FlakeyFails(nowMillis))
    ensures o == InternalError ==>
      StartsWith(line, FailingPrefix) || (StartsWith(line, FlakeyPrefix) && FlakeyFails(nowMillis))
  {
    if IsHealthCheck(line) then Ok
    else if StartsWith(line, FailingPrefix) then InternalError
    else if StartsWith(line, FlakeyPrefix) then
      (if FlakeyFails(nowMillis) then InternalError else Ok)
    else NotFound
  }

  /** The text written back for a request line, given the configured
      success text and the clock in milliseconds since the epoch. */
  function Respond(line: string, okText: string, nowMillis: nat): (r: string)
    ensures r == OkResponse(okText) || r == NotFoundResponse || r == InternalServerErrorResponse
    ensures Version <= r && |r| >= 16 && r[|r| - 4..] == Terminator
  {
    Render(Classify(line, nowMillis), okText)
  }

  /** Two different known prefixes never both start one line. */
  lemma KnownPrefixesExclusive(line: string, p: string, q: string)
    requires IsKnownPrefix(p) && IsKnownPrefix(q)
    requires StartsWith(line, p) && StartsWith(line, q)
    ensures p == q
  {
    assert line[5] == p[5] && line[5] == q[5];
    assert line[6] == p[6] && line[6] == q[6];
    if |p| > 8 && |q| > 8 {
      assert line[8] == p[8] && line[8] == q[8];
    }
  }

  /** A health-check line is answered 200 with the success text, whatever
      follows the prefix and whatever the clock says. */
  lemma HealthCheckResponds(line: string, okText: string, nowMillis: nat)
    requires StartsWith(line, HealthCheckPrefix) || StartsWith(line, OkPrefix) ||
             StartsWith(line, HeartbeatPrefix)
    ensures Respond(line, okText, nowMillis) == OkResponse(okText)
  {
  }

  /** The failing deep check is answered 500 on every clock value. */
  lemma FailingDeepcheckResponds(line: string, okText: string, nowMillis: nat)
    requires StartsWith(line, FailingPrefix)
    ensures Respond(line, okText, nowMillis) == InternalServerErrorResponse
  {
    if IsHealthCheck(line) {
      if StartsWith(line, HealthCheckPrefix) {
        KnownPrefixesExclusive(line, HealthCheckPrefix, FailingPrefix);
      } else if StartsWith(line, OkPrefix) {
        KnownPrefixesExclusive(line, OkPrefix, FailingPrefix);
      } else {
        KnownPrefixesExclusive(line, HeartbeatPrefix, FailingPrefix);
      }
    }
  }

  /** The flakey deep check is answered 500 exactly when the clock is in
      the failing window, and 200 with the success text otherwise. */
  lemma FlakeyDeepcheckResponds(line: string, okText: string, nowMillis: nat)
    requires StartsWith(line, FlakeyPrefix)
    ensures Respond(line, okText, nowMillis) == InternalServerErrorResponse <==> nowMillis % 100 < 20
    ensures Respond(line, okText, nowMillis) == OkResponse(okText) <==> nowMillis % 100 >= 20
  {
    if IsHealthCheck(line) {
      if StartsWith(line, HealthCheckPrefix) {
        KnownPrefixesExclusive(line, HealthCheckPrefix, FlakeyPrefix);
      } else if StartsWith(line, OkPrefix) {
        KnownPrefixesExclusive(line, OkPrefix, FlakeyPrefix);
      } else {
        KnownPrefixesExclusive(line, HeartbeatPrefix, FlakeyPrefix);
      }
    }
    if StartsWith(line, FailingPrefix) {
      KnownPrefixesExclusive(line, FailingPrefix, FlakeyPrefix);
    }
    StatusCodeOfRender(Ok, okText);
    StatusCodeOfRender(InternalError, okText);
  }

  /** A line that starts with none of the known prefixes is answered 404. */
  lemma UnknownResponds(line: string, okText: string, nowMillis: nat)
    requires forall p :: IsKnownPrefix(p) ==> !StartsWith(line, p)
    ensures Respond(line, okText, nowMillis) == NotFoundResponse
  {
  }

  /** Every line that does not begin with "GET /" is answered 404; this
      covers the empty line and other methods such as "POST /ok". */
  lemma NonGetResponds(line: string, okText: string, nowMillis: nat)
    requires !StartsWith(line, "GET /")
    ensures Respond(line, okText, nowMillis) == NotFoundResponse
  {
  }

  /** The spelled-out examples of lines answered 404. */
  lemma NotFoundExamples(okText: string, nowMillis: nat)
    ensures Respond("", okText, nowMillis) == NotFoundResponse
    ensures Respond("POST /ok HTTP/1.1", okText, nowMillis) == NotFoundResponse
    ensures Respond("GET /unknown HTTP/1.1", okText, nowMillis) == NotFoundResponse
  {
    NonGetResponds("", okText, nowMillis);
    assert "POST /ok HTTP/1.1"[0] != 'G';
    NonGetResponds("POST /ok HTTP/1.1", okText, nowMillis);
    var u := "GET /unknown HTTP/1.1";
    forall p | IsKnownPrefix(p) ensures !StartsWith(u, p) {
      assert u[5] != p[5];
    }
    UnknownResponds(u, okText, nowMillis);
  }

  /** Every line other than a flakey one gets the same answer on every
      clock value, so repeating such a request repeats its response. */
  lemma ClockIndependent(line: string, okText: string, m1: nat, m2: nat)
    requires !StartsWith(line, FlakeyPrefix)
    ensures Respond(line, okText, m1) == Respond(line, okText, m2)
  {
  }

  /** Only the matched prefix is inspected: text appended to a line that
      starts with a known prefix leaves its classification unchanged. */
  lemma AppendKeepsClass(line: string, suffix: string, p: string, nowMillis: nat)
    requires IsKnownPrefix(p) && StartsWith(line, p)
    ensures Classify(line + suffix, nowMillis) == Classify(line, nowMillis)
  {
    var longer := line + suffix;
    assert StartsWith(longer, p);
    forall q | IsKnownPrefix(q) && StartsWith(longer, q)
      ensures StartsWith(line, q)
    {
      KnownPrefixesExclusive(longer, p, q);
    }
  }

  /** Number of clock values in [start, start + n) on which the line is
      answered 500. */
  function Failures(line: string, okText: string, start: nat, n: nat): (count: nat)
    ensures count <= n
    decreases n
  {
    if n == 0 then 0
    else
      (if Respond(line, okText, start) == InternalServerErrorResponse then 1 else 0) +
      Failures(line, okText, start + 1, n - 1)
  }

  /** Number of clock values in [start, start + n) in the flakey failing window. */
  function FailingTicks(start: nat, n: nat): (count: nat)
    ensures count <= n
    decreases n
  {
    if n == 0 then 0
    else (if FlakeyFails(start) then 1 else 0) + FailingTicks(start + 1, n - 1)
  }

  lemma {:induction false} FailingTicksSplit(start: nat, a: nat, b: nat)
    ensures FailingTicks(start, a + b) == FailingTicks(start, a) + FailingTicks(start + a, b)
    decreases a
  {
    if a > 0 {
      FailingTicksSplit(start + 1, a - 1, b);
    }
  }

  lemma {:induction false} FailingTicksAllIn(start: nat, n: nat)
    requires start + n <= 20
    ensures FailingTicks(start, n) == n
    decreases n
  {
    if n > 0 {
      FailingTicksAllIn(start + 1, n - 1);
    }
  }

  lemma {:induction false} FailingTicksNoneIn(start: nat, n: nat)
    requires 20 <= start && start + n <= 100
    ensures FailingTicks(start, n) == 0
    decreases n
  {
    if n > 0 {
      FailingTicksNoneIn(start + 1, n - 1);
    }
  }

  /** Membership of the failing window repeats every 100 milliseconds. */
  lemma FlakeyFailsPeriodic(t: nat)
    ensures FlakeyFails(t + 100) == FlakeyFails(t)
  {
  }

  /** Sliding a 100-millisecond window by one leaves its count unchanged. */
  lemma FailingTicksSlide(s: nat)
    ensures FailingTicks(s + 1, 100) == FailingTicks(s, 100)
  {
    FailingTicksSplit(s, 100, 1);
    FlakeyFailsPeriodic(s);
    assert FailingTicks(s + 100, 1) == (if FlakeyFails(s + 100) then 1 else 0);
    assert FailingTicks(s, 101) == (if FlakeyFails(s) then 1 else 0) + FailingTicks(s + 1, 100);
  }

  /** Any 100 consecutive clock values hold exactly 20 in the failing window. */
  lemma {:induction false} FailingTicksPerHundred(start: nat)
    ensures FailingTicks(start, 100) == 20
    decreases start
  {
    if start == 0 {
      var inside, outside := 20, 80;
      FailingTicksSplit(start, inside, outside);
      FailingTicksAllIn(start, inside);
      FailingTicksNoneIn(start + inside, outside);
    } else {
      FailingTicksPerHundred(start - 1);
      FailingTicksSlide(start - 1);
    }
  }

  /** On a flakey line, the 500 answers are exactly the failing-window ticks. */
  lemma {:induction false} FlakeyFailuresAreTicks(line: string, okText: string, start: nat, n: nat)
    requires StartsWith(line, FlakeyPrefix)
    ensures Failures(line, okText, start, n) == FailingTicks(start, n)
    decreases n
  {
    if n > 0 {
      FlakeyDeepcheckResponds(line, okText, start);
      FlakeyFailuresAreTicks(line, okText, start + 1, n - 1);
    }
  }

  /** The flakey deep check fails on exactly 20 of every 100 consecutive
      millisecond values. */
  lemma FlakeyFailsTwentyPerHundred(line: string, okText: string, start: nat)
    requires StartsWith(line, FlakeyPrefix)
    ensures Failures(line, okText, start, 100) == 20
  {
    FlakeyFailuresAreTicks(line, okText, start, 100);
    FailingTicksPerHundred(start);
  }

  /** The failing deep check fails on every clock value of every window. */
  lemma {:induction false} FailingDeepcheckAlwaysFails(line: string, okText: string, start: nat, n: nat)
    requires StartsWith(line, FailingPrefix)
    ensures Failures(line, okText, start, n) == n
    decreases n
  {
    if n > 0 {
      FailingDeepcheckResponds(line, okText, start);
      FailingDeepcheckAlwaysFails(line, okText, start + 1, n - 1);
    }
  }
}
