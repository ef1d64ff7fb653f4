/**
  One logical POST: signing with a discovered epoch, the send-and-replay loop,
  decoding, and the retry loop around them, against an arbitrary environment.
 */
module ReplyCall {
  import opened Common
  import opened ErrorTrees
  import opened DoublePrecision
  import opened RetryTiming

  // ----- Epoch discovery and signing

  /** What the environment does to one `GET /auth/epoch`. */
  datatype FetchOutcome =
    | ProbeOnlyClient
    | RequestNotBuilt
    | FetchNetworkFailure(err: Error)
    | FetchStatus(status: int, bodyCode: string, retryAfter: int)
    | FetchReadFailure(err: Error)
    | FetchTooLarge
    | FetchBadJSON
    | FetchBody(epoch: string)

  /** How one call of `authEpoch` is served; concurrent callers may have filled the cache. */
  datatype AuthOutcome =
    | ContextDone
    | Cached(epoch: string)
    | Fetched(outcome: FetchOutcome)

  predicate ValidAuthEpoch(value: string) {
    |value| == 32 && forall i :: 0 <= i < |value| ==> '0' <= value[i] <= '9' || 'a' <= value[i] <= 'f'
  }

  function AuthEpochTransportError(err: Error): Error {
    if Is(err, ProbeOnly) then err
    else TransportError(if Is(err, NotSent) then err else Wrapped([Mark(NotSent), err]), false)
  }

  function FetchAuthEpoch(o: FetchOutcome): Result<string, Error> {
    match o
    case ProbeOnlyClient => Err(Wrapped([Mark(NotSent), Mark(ProbeOnly)]))
    case RequestNotBuilt => Err(Wrapped([Opaque("build request")]))
    case FetchNetworkFailure(err) => Err(AuthEpochTransportError(err))
    case FetchStatus(status, _, retryAfter) => Err(HTTPError(status, "", retryAfter))
    case FetchReadFailure(err) => Err(AuthEpochTransportError(err))
    case FetchTooLarge => Err(Mark(TooLarge))
    case FetchBadJSON => Err(Opaque("invalid authentication epoch JSON"))
    case FetchBody(epoch) =>
      if ValidAuthEpoch(epoch) then Ok(epoch) else Err(Opaque("invalid authentication epoch format"))
  }

  function AuthEpoch(o: AuthOutcome): Result<string, Error> {
    match o
    case ContextDone => Err(AuthEpochTransportError(Mark(ContextEnded)))
    case Cached(epoch) => Ok(epoch)
    case Fetched(outcome) =>
      var fetched := FetchAuthEpoch(outcome);
      if fetched.Ok? || Is(fetched.error, NotSent) then fetched
      else Err(Wrapped([Mark(NotSent), fetched.error]))
  }

  ghost predicate PossibleFetch(o: FetchOutcome) {
    match o
    case FetchNetworkFailure(err) => Foreign(err)
    case FetchReadFailure(err) => Foreign(err)
    case FetchStatus(status, _, _) => status != 200
    case _ => true
  }

  /** What the cache protocol and raw errors allow; caching only valid epochs is proved in EpochCache. */
  ghost predicate PossibleAuth(o: AuthOutcome) {
    match o
    case ContextDone => true
    case Cached(epoch) => ValidAuthEpoch(epoch)
    case Fetched(outcome) => PossibleFetch(outcome)
  }

  /** One use of `signRequest`: the epoch it gets, and whether setting the headers fails. */
  datatype Signing = Signing(auth: AuthOutcome, headersFail: bool)

  function SignRequest(hasSigner: bool, s: Signing): Option<Error> {
    if !hasSigner then None
    else
      var epoch := AuthEpoch(s.auth);
      if epoch.Err? then Some(epoch.error)
      else if s.headersFail then Some(Wrapped([Opaque("sign iris request")]))
      else None
  }

  // ----- One attempt

  /** A 2xx body: the decode or trailer fault, and the fault of closing it. */
  datatype BodyRead = BodyRead(fault: Option<Error>, closeFault: Option<Error>)

  /** What one protected send meets. */
  datatype Exchange =
    | NetworkFailure(err: Error)
    | Accepted(body: BodyRead)
    | Refused(status: int, code: string, retryAfter: int, closeFault: Option<Error>)

  datatype ReplayBody = NoBody | Replayable | NotReplayable | ReplayFails(err: Error)

  datatype NewRequest = NewRequestOk | NewRequestProbeOnly | NewRequestFails

  /** Everything the environment chooses during one attempt; the k-th send uses entry k. */
  datatype Attempt = Attempt(
    newRequest: NewRequest,
    signings: nat -> Signing,
    exchanges: nat -> Exchange,
    replayBodies: nat -> ReplayBody,
    draw: nat,
    contextEnds: bool)

  datatype Config = Config(replyRetryMax: int, onReplyPath: bool, hasKey: bool, hasSigner: bool)

  function MaxAttempts(c: Config): (n: nat)
    ensures n >= 1
  {
    if c.replyRetryMax > 0 && c.onReplyPath then c.replyRetryMax else 1
  }

  ghost predicate PossibleFault(f: Option<Error>) {
    f.Some? ==> BodyFault(f.value)
  }

  ghost predicate PossibleExchange(x: Exchange) {
    match x
    case NetworkFailure(err) => Foreign(err)
    case Accepted(body) => PossibleFault(body.fault) && PossibleFault(body.closeFault)
    case Refused(status, _, _, closeFault) => !(200 <= status < 300) && PossibleFault(closeFault)
  }

  ghost predicate PossibleAttempt(a: Attempt) {
    && (forall k: nat :: PossibleAuth(a.signings(k).auth))
    && (forall k: nat :: PossibleExchange(a.exchanges(k)))
    && (forall k: nat :: a.replayBodies(k).ReplayFails? ==> Foreign(a.replayBodies(k).err))
    && a.draw < DRAWS
  }

  ghost predicate PossibleEnvironment(env: nat -> Attempt) {
    forall k: nat :: PossibleAttempt(env(k))
  }

  function BuildRequest(c: Config, a: Attempt): Option<Error> {
    match a.newRequest
    case NewRequestProbeOnly => Some(Wrapped([Wrapped([Mark(NotSent), Mark(ProbeOnly)])]))
    case NewRequestFails => Some(Wrapped([Wrapped([Opaque("build iris request")])]))
    case NewRequestOk =>
      var fault := SignRequest(c.hasSigner, a.signings(0));
      if fault.Some? then Some(Wrapped([fault.value])) else None
  }

  /** `decodeJSONBody` for POST: its own error first, then the deferred Close. */
  function DecodeBody(body: BodyRead, idempotent: bool): Option<Error> {
    var err :=
      if body.fault.Some? then Some(TransportError(Wrapped([body.fault.value]), idempotent)) else None;
    if body.closeFault.None? then err
    else
      var closing := Wrapped([body.closeFault.value]);
      Some(TransportError(Wrapped(if err.Some? then [err.value, closing] else [closing]), idempotent))
  }

  /** `refreshAuthEpoch`: a verified mismatch on a signed request, once per logical call. */
  predicate RefreshAuthEpoch(c: Config, status: int, code: string, refreshed: bool) {
    IsEpochMismatch(status, code) && c.hasSigner && !refreshed
  }

  /** Re-signing and replaying the body; the result is the error that stops the call. */
  function PrepareReplay(c: Config, a: Attempt, k: nat): Option<Error> {
    var fault := SignRequest(c.hasSigner, a.signings(k));
    if fault.Some? then Some(StopRetry(fault.value))
    else
      match a.replayBodies(k)
      case NoBody => None
      case Replayable => None
      case NotReplayable => Some(StopRetry(Wrapped([Mark(NotSent)])))
      case ReplayFails(err) => Some(StopRetry(Wrapped([Mark(NotSent), err])))
  }

  /** The sends of one attempt, and whether preparing the replay after the last one failed. */
  datatype SendRun = SendRun(err: Option<Error>, sent: seq<Exchange>, replayFailed: bool, refreshed: bool)

  /** What `do` returns for a non-2xx response it does not replay. */
  function RefusalError(x: Exchange): Error
    requires x.Refused?
  {
    var response := HTTPError(x.status, x.code, x.retryAfter);
    if x.closeFault.Some? then StopRetry(Wrapped([response, x.closeFault.value]))
    else if Is(response, NotSent) then StopRetry(Wrapped([response]))
    else Wrapped([response])
  }

  /** The sends of one attempt from the k-th on: `do` followed by `decodeJSONBody`. */
  function Send(c: Config, a: Attempt, k: nat, refreshed: bool): SendRun
    decreases if refreshed then 0 else 1
  {
    var x := a.exchanges(k);
    match x
    case NetworkFailure(err) => SendRun(Some(TransportError(err, c.hasKey)), [x], false, refreshed)
    case Accepted(body) => SendRun(DecodeBody(body, c.hasKey), [x], false, refreshed)
    case Refused(status, code, _, closeFault) =>
      if closeFault.Some? || !RefreshAuthEpoch(c, status, code, refreshed) then
        SendRun(Some(RefusalError(x)), [x], false, refreshed)
      else
        var fault := PrepareReplay(c, a, k + 1);
        if fault.Some? then SendRun(fault, [x], true, true)
        else
          var rest := Send(c, a, k + 1, true);
          SendRun(rest.err, [x] + rest.sent, rest.replayFailed, rest.refreshed)
  }

  /** The same sends as the source's loop: reassign the request, spend the refresh, go round. */
  method SendLoop(c: Config, a: Attempt, refreshed: bool) returns (run: SendRun)
    ensures run == Send(c, a, 0, refreshed)
  {
    var k, spent, sent := 0, refreshed, [];
    while true
      invariant Send(c, a, 0, refreshed).err == Send(c, a, k, spent).err
      invariant Send(c, a, 0, refreshed).sent == sent + Send(c, a, k, spent).sent
      invariant Send(c, a, 0, refreshed).refreshed == Send(c, a, k, spent).refreshed
      invariant Send(c, a, 0, refreshed).replayFailed == Send(c, a, k, spent).replayFailed
      decreases if spent then 0 else 1
    {
      var x := a.exchanges(k);
      sent := sent + [x];
      match x {
        case NetworkFailure(err) =>
          return SendRun(Some(TransportError(err, c.hasKey)), sent, false, spent);
        case Accepted(body) =>
          return SendRun(DecodeBody(body, c.hasKey), sent, false, spent);
        case Refused(status, code, _, closeFault) =>
          if closeFault.Some? || !RefreshAuthEpoch(c, status, code, spent) {
            return SendRun(Some(RefusalError(x)), sent, false, spent);
          }
          spent := true;
          var fault := PrepareReplay(c, a, k + 1);
          if fault.Some? {
            return SendRun(fault, sent, true, spent);
          }
          k := k + 1;
      }
    }
  }

  // ----- The retry loop

  predicate IsRetryableTransportError(err: Error) {
    (Is(err, Transport) || Is(err, NotSent)) && !Is(err, EgressDenied) && !Is(err, TooLarge)
  }

  predicate IsRetryableReplyError(err: Error, hasKey: bool) {
    && !HasStop(err)
    && !Is(err, TooLarge)
    && (Is(err, RateLimited) || (hasKey && IsRetryableTransportError(err)))
  }

  function RetryWaitError(waitErr: Error, unknown: Option<Error>, idempotent: bool): Error {
    if unknown.None? then waitErr
    else TransportError(Wrapped([waitErr, unknown.value]), idempotent)
  }

  function KeepUnknownOutcome(finalErr: Error, unknown: Option<Error>, idempotent: bool): Error {
    if unknown.None? || Is(finalErr, Transport) || ClientRequestIDConflictCode(finalErr) != "" then finalErr
    else TransportError(Wrapped([unknown.value]), idempotent)
  }

  datatype Event =
    | BuildFailed(err: Error)
    | Sent(exchange: Exchange)
    | ReplayFailed
    | Waited(delay: int, byRetryAfter: bool)
    | WaitCut

  function Events(sent: seq<Exchange>): seq<Event> {
    seq(|sent|, i requires 0 <= i < |sent| => Sent(sent[i]))
  }

  /** The sends, then the failure to re-sign or replay, when that ended the attempt. */
  function SendEvents(run: SendRun): seq<Event> {
    Events(run.sent) + ReplayEvents(run)
  }

  function ReplayEvents(run: SendRun): seq<Event> {
    if run.replayFailed then [ReplayFailed] else []
  }

  /** How one attempt leaves the loop: with the call's result, or waiting to go round. */
  datatype Turn =
    | Finished(err: Option<Error>, events: seq<Event>)
    | Again(unknown: Option<Error>, refreshed: bool, events: seq<Event>)

  /** What the retry loop does with the sends of one attempt. */
  function AfterSend(c: Config, a: Attempt, last: bool, backoff: int, unknown: Option<Error>, run: SendRun): Turn
    requires a.draw < DRAWS
  {
    if run.err.None? then Finished(None, SendEvents(run))
    else
      var err := run.err.value;
      var unknown' := if Is(err, Transport) then Some(err) else unknown;
      if !IsRetryableReplyError(err, c.hasKey) || last then
        Finished(Some(KeepUnknownOutcome(err, unknown', c.hasKey)), SendEvents(run))
      else
        var (delay, byRetryAfter) := RetryDelay(err, backoff, a.draw);
        var events := SendEvents(run) + [Waited(delay, byRetryAfter)];
        if a.contextEnds then
          Finished(Some(RetryWaitError(Mark(ContextEnded), unknown', c.hasKey)), events + [WaitCut])
        else
          Again(unknown', run.refreshed, events)
  }

  /** One attempt of the retry loop. */
  function TakeTurn(c: Config, a: Attempt, last: bool, backoff: int, unknown: Option<Error>, refreshed: bool): Turn
    requires a.draw < DRAWS
  {
    var build := BuildRequest(c, a);
    if build.Some? then
      Finished(Some(KeepUnknownOutcome(build.value, unknown, c.hasKey)), [BuildFailed(build.value)])
    else
      AfterSend(c, a, last, backoff, unknown, Send(c, a, 0, refreshed))
  }

  datatype CallRun = CallRun(err: Option<Error>, trace: seq<Event>)

  /** How attempt k would go, given the backoff, the unknown outcome and the replay budget it finds. */
  type Attempts = (nat, int, Option<Error>, bool) -> Turn

  function AttemptsOf(c: Config, env: nat -> Attempt): Attempts
    requires forall k: nat :: env(k).draw < DRAWS
  {
    (k: nat, backoff: int, unknown: Option<Error>, refreshed: bool) =>
      TakeTurn(c, env(k), k >= MaxAttempts(c), backoff, unknown, refreshed)
  }

  ghost predicate EndsBy(attempts: Attempts, n: nat) {
    forall k: nat, backoff, unknown, refreshed :: k >= n ==> attempts(k, backoff, unknown, refreshed).Finished?
  }

  lemma AttemptsEnd(c: Config, env: nat -> Attempt)
    requires forall k: nat :: env(k).draw < DRAWS
    ensures EndsBy(AttemptsOf(c, env), MaxAttempts(c))
  {
    forall k: nat, backoff, unknown, refreshed | k >= MaxAttempts(c)
      ensures AttemptsOf(c, env)(k, backoff, unknown, refreshed).Finished?
    {
      assert TakeTurn(c, env(k), true, backoff, unknown, refreshed).Finished?;
    }
  }

  /** The whole call from attempt `attempt` on. */
  ghost function Call(
    attempts: Attempts, n: nat, attempt: nat, backoff: int, unknown: Option<Error>, refreshed: bool): CallRun
    requires EndsBy(attempts, n)
    decreases n - attempt
  {
    match attempts(attempt, backoff, unknown, refreshed)
    case Finished(err, events) => CallRun(err, events)
    case Again(unknown', refreshed', events) =>
      var rest := Call(attempts, n, attempt + 1, NextBackoff(backoff), unknown', refreshed');
      CallRun(rest.err, events + rest.trace)
  }

  ghost function RetryPostRun(c: Config, env: nat -> Attempt): CallRun
    requires forall k: nat :: env(k).draw < DRAWS
  {
    AttemptsEnd(c, env);
    Call(AttemptsOf(c, env), MaxAttempts(c), 1, INITIAL_BACKOFF, None, false)
  }

  lemma TraceAdvances(
    attempts: Attempts, n: nat, attempt: nat, backoff: int, unknown: Option<Error>, refreshed: bool, trace: seq<Event>)
    requires EndsBy(attempts, n)
    ensures var turn := attempts(attempt, backoff, unknown, refreshed);
            var call := Call(attempts, n, attempt, backoff, unknown, refreshed);
            if turn.Finished? then call.err == turn.err && trace + call.trace == trace + turn.events
            else
              var rest := Call(attempts, n, attempt + 1, NextBackoff(backoff), turn.unknown, turn.refreshed);
              call.err == rest.err && trace + call.trace == trace + turn.events + rest.trace
  {
    var turn := attempts(attempt, backoff, unknown, refreshed);
    if turn.Again? {
      Associative(
        trace, turn.events, Call(attempts, n, attempt + 1, NextBackoff(backoff), turn.unknown, turn.refreshed).trace);
    }
  }

  /** Builds the request and, when that succeeds, sends it and replays it. */
  method MakeAttempt(c: Config, a: Attempt, last: bool, backoff: int, unknown: Option<Error>, refreshed: bool)
    returns (turn: Turn)
    requires a.draw < DRAWS
    ensures turn == TakeTurn(c, a, last, backoff, unknown, refreshed)
  {
    var build := BuildRequest(c, a);
    if build.Some? {
      return Finished(Some(KeepUnknownOutcome(build.value, unknown, c.hasKey)), [BuildFailed(build.value)]);
    }
    var run := SendLoop(c, a, refreshed);
    return AfterSend(c, a, last, backoff, unknown, run);
  }

  /** `retryPost`: the loop over attempt, backoff, unknown outcome and the re-sign budget. */
  method RetryPost(c: Config, env: nat -> Attempt) returns (result: Option<Error>, trace: seq<Event>)
    requires forall k: nat :: env(k).draw < DRAWS
    ensures CallRun(result, trace) == RetryPostRun(c, env)
  {
    AttemptsEnd(c, env);
    var maxAttempts := MaxAttempts(c);
    var attempt, backoff, refreshed := 1, INITIAL_BACKOFF, false;
    var unknown: Option<Error> := None;
    trace := [];
    ghost var attempts, whole := AttemptsOf(c, env), RetryPostRun(c, env);
    while true
      invariant 1 <= attempt <= maxAttempts
      invariant whole.err == Call(attempts, maxAttempts, attempt, backoff, unknown, refreshed).err
      invariant whole.trace == trace + Call(attempts, maxAttempts, attempt, backoff, unknown, refreshed).trace
      decreases maxAttempts - attempt
    {
      TraceAdvances(attempts, maxAttempts, attempt, backoff, unknown, refreshed, trace);
      var turn := MakeAttempt(c, env(attempt), attempt == maxAttempts, backoff, unknown, refreshed);
      assert turn == attempts(attempt, backoff, unknown, refreshed);
      trace := trace + turn.events;
      match turn {
        case Finished(err, _) =>
          return err, trace;
        case Again(unknown', refreshed', _) =>
          unknown, refreshed := unknown', refreshed';
      }
      backoff := NextBackoff(backoff);
      attempt := attempt + 1;
    }
  }
}
