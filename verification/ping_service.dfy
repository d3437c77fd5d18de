/** The probe executor: one ICMP echo per attempt, retried until a reply
    arrives or the attempts run out. The network is an oracle: the outcome of
    each attempt is given in advance, in order. */
module PingService {
  import opened Wrappers
  import opened Schemas
  import opened Config

  /** What one `ping(host, count=1, ...)` call came back with. */
  datatype Attempt =
    | Replied(rttMs: real)      // `response.success()`; `rttMs` is `round(rtt_avg_ms, 2)`
    | NoReply                   // a response that is not a success
    | Failed(message: string)   // the call raised; `message` is `str(e)`

  datatype PingService = PingService(timeout: int, retries: int)

  const UnreachableError := "Host unreachable or timeout"
  const ExhaustedError := "Maximum retries exceeded"

  /** Python's `x or fallback` for an optional integer argument: `None` and
      `0` are falsy. */
  function OrDefault(x: Option<int>, fallback: int): (r: int)
    ensures x.Some? && x.value != 0 ==> r == x.value
    ensures x.None? || x.value == 0 ==> r == fallback
  {
    if x.Some? && x.value != 0 then x.value else fallback
  }

  /** `PingService(timeout, retries)`: each argument left out, or given as 0,
      falls back to the setting. */
  function NewPingService(timeout: Option<int>, retries: Option<int>, settings: Settings): (p: PingService)
    ensures p.timeout == OrDefault(timeout, settings.pingTimeout)
    ensures p.retries == OrDefault(retries, settings.pingRetries)
  {
    PingService(OrDefault(timeout, settings.pingTimeout), OrDefault(retries, settings.pingRetries))
  }

  /** Under the default settings no choice of arguments gives a service with
      0 retries: asking for 0 retries gets the default 2, and asking for a
      0 timeout gets the default 5. */
  lemma ZeroRetriesFallBack(timeout: Option<int>, retries: Option<int>)
    ensures NewPingService(timeout, retries, Defaults).retries != 0
    ensures NewPingService(timeout, Some(0), Defaults).retries == 2
    ensures NewPingService(Some(0), retries, Defaults).timeout == 5
  {
  }

  /** The error a failed attempt reports. */
  function ErrorOf(a: Attempt): string
    requires !a.Replied?
  {
    match a
    case NoReply => UnreachableError
    case Failed(message) => message
  }

  function Success(host: string, timestamp: int, rttMs: real): (r: PingResult)
    ensures Consistent(r) && r.success
  {
    PingResult(host, timestamp, Some(rttMs), true, None)
  }

  function Failure(host: string, timestamp: int, error: string): (r: PingResult)
    ensures Consistent(r) && !r.success
  {
    PingResult(host, timestamp, None, false, Some(error))
  }

  /** The loop from attempt `i` on (`for attempt in range(retries + 1)`):
      the result and the number of attempts made in all. */
  function RetryFrom(host: string, timestamp: int, retries: int, attempts: seq<Attempt>, i: nat): (res: (PingResult, nat))
    requires i <= retries < |attempts|
    decreases retries - i
    ensures i < res.1 <= retries + 1
    ensures forall k :: i <= k < res.1 - 1 ==> !attempts[k].Replied?
    ensures res.0.success <==> attempts[res.1 - 1].Replied?
    ensures res.0.success ==> res.0 == Success(host, timestamp, attempts[res.1 - 1].rttMs)
    ensures !res.0.success ==> res.1 == retries + 1 && res.0 == Failure(host, timestamp, ErrorOf(attempts[retries]))
  {
    match attempts[i]
    case Replied(rtt) => (Success(host, timestamp, rtt), i + 1)
    case _ =>
      if i < retries then RetryFrom(host, timestamp, retries, attempts, i + 1)
      else (Failure(host, timestamp, ErrorOf(attempts[i])), i + 1)
  }

  /** `execute_ping`: stamps the result once with `timestamp`, then tries up
      to `retries + 1` times and stops at the first reply, whose round-trip
      time becomes the latency. If no attempt replies, the error comes from
      the last attempt alone. With negative `retries` the loop makes no
      attempt and the result is the "Maximum retries exceeded" failure.
      Returns the result and the number of attempts made. */
  function ExecutePing(service: PingService, host: string, timestamp: int, attempts: seq<Attempt>): (res: (PingResult, nat))
    requires service.retries < |attempts|
    ensures res.0.host == host && res.0.timestamp == timestamp
    ensures Consistent(res.0)
    ensures service.retries < 0 ==> res == (Failure(host, timestamp, ExhaustedError), 0)
    ensures service.retries >= 0 ==>
      && 1 <= res.1 <= service.retries + 1
      && (forall k :: 0 <= k < res.1 - 1 ==> !attempts[k].Replied?)
      && (res.0.success <==> attempts[res.1 - 1].Replied?)
      && (res.0.success ==> res.0.latency == Some(attempts[res.1 - 1].rttMs))
      && (!res.0.success ==> res.1 == service.retries + 1 && res.0.error == Some(ErrorOf(attempts[service.retries])))
  {
    if service.retries < 0 then (Failure(host, timestamp, ExhaustedError), 0)
    else RetryFrom(host, timestamp, service.retries, attempts, 0)
  }

  /** The result succeeds exactly when some allowed attempt replies, and then
      it is the first such attempt that decides it. */
  lemma FirstReplyWins(service: PingService, host: string, timestamp: int, attempts: seq<Attempt>, k: nat)
    requires 0 <= service.retries < |attempts|
    requires k <= service.retries && attempts[k].Replied?
    requires forall j :: 0 <= j < k ==> !attempts[j].Replied?
    ensures ExecutePing(service, host, timestamp, attempts) == (Success(host, timestamp, attempts[k].rttMs), k + 1)
  {
  }

  /** The same loop written as the source writes it, returning from inside. */
  method ExecutePingLoop(service: PingService, host: string, timestamp: int, attempts: seq<Attempt>)
    returns (r: PingResult, used: nat)
    requires service.retries < |attempts|
    ensures (r, used) == ExecutePing(service, host, timestamp, attempts)
  {
    var attempt: nat := 0;
    while attempt < service.retries + 1
      invariant service.retries >= 0 ==> attempt <= service.retries
      invariant service.retries >= 0 ==>
        ExecutePing(service, host, timestamp, attempts) == RetryFrom(host, timestamp, service.retries, attempts, attempt)
      decreases service.retries + 1 - attempt
    {
      used := attempt + 1;
      match attempts[attempt]
      case Replied(rtt) =>
        r := Success(host, timestamp, rtt);
        return;
      case NoReply =>
        if attempt < service.retries {
          attempt := attempt + 1;
        } else {
          r := Failure(host, timestamp, UnreachableError);
          return;
        }
      case Failed(message) =>
        if attempt < service.retries {
          attempt := attempt + 1;
        } else {
          r := Failure(host, timestamp, message);
          return;
        }
    }
    r := Failure(host, timestamp, ExhaustedError);
    used := 0;
  }
}
