/** What a failed logical call may conclude: the unknown outcome is sticky and never spurious. */
module ReplyOutcome {
  import opened Common
  import opened ErrorTrees
  import opened DoublePrecision
  import opened RetryTiming
  import opened ReplyCall

  // ----- Discovery failures

  lemma TransportErrorOverNotSent(err: Error)
    requires Foreign(err)
    ensures !Is(err, ProbeOnly) ==> DefinitelyNotSent(AuthEpochTransportError(err))
    ensures Is(err, ProbeOnly) ==> AuthEpochTransportError(err) == err
    ensures NoHTTPError(AuthEpochTransportError(err))
  {
    assert NoHTTPError(err) && NoHTTPError(Mark(NotSent));
    WrappedNoHTTPError([Mark(NotSent), err]);
    ForeignMatchesNoClass(err, Transport);
    WrappedIs([Mark(NotSent), err], NotSent);
    WrappedIs([Mark(NotSent), err], Transport);
  }

  /**
    Every discovery failure is known not to have sent the protected request, and no
    discovery response, not even a 409 whose body carries such a code, is a verdict on it.
   */
  lemma DiscoveryFailureIsNotSent(o: AuthOutcome)
    requires PossibleAuth(o) && AuthEpoch(o).Err?
    ensures DefinitelyNotSent(AuthEpoch(o).error)
    ensures ClientRequestIDConflictCode(AuthEpoch(o).error) == ""
  {
    match o
    case ContextDone =>
      assert Foreign(Mark(ContextEnded));
      TransportErrorOverNotSent(Mark(ContextEnded));
      NoHTTPErrorNoConflict(AuthEpoch(o).error);
    case Fetched(outcome) =>
      var e := FetchAuthEpoch(outcome).error;
      FetchFailure(outcome);
      WrappedIs([Mark(NotSent), e], NotSent);
      WrappedIs([Mark(NotSent), e], Transport);
      assert FindHTTPErrorAmong([Mark(NotSent), e]) == FindHTTPErrorAmong([e]) == FindHTTPError(e);
  }

  lemma FetchFailure(o: FetchOutcome)
    requires PossibleFetch(o) && FetchAuthEpoch(o).Err?
    ensures !Is(FetchAuthEpoch(o).error, Transport)
    ensures ClientRequestIDConflictCode(FetchAuthEpoch(o).error) == ""
  {
    var e := FetchAuthEpoch(o).error;
    match o
    case FetchNetworkFailure(err) =>
      TransportErrorOverNotSent(err);
      ForeignMatchesNoClass(err, Transport);
      NoHTTPErrorNoConflict(e);
    case FetchReadFailure(err) =>
      TransportErrorOverNotSent(err);
      ForeignMatchesNoClass(err, Transport);
      NoHTTPErrorNoConflict(e);
    case FetchStatus(_, _, _) =>
    case _ =>
      NoHTTPErrorNoConflict(e);
  }

  lemma SigningFailure(hasSigner: bool, s: Signing)
    requires PossibleAuth(s.auth) && SignRequest(hasSigner, s).Some?
    ensures !Is(SignRequest(hasSigner, s).value, Transport)
    ensures ClientRequestIDConflictCode(SignRequest(hasSigner, s).value) == ""
  {
    if AuthEpoch(s.auth).Err? {
      DiscoveryFailureIsNotSent(s.auth);
    } else {
      NoHTTPErrorNoConflict(SignRequest(hasSigner, s).value);
    }
  }

  lemma BuildFailure(c: Config, a: Attempt)
    requires PossibleAttempt(a) && BuildRequest(c, a).Some?
    ensures !Is(BuildRequest(c, a).value, Transport)
    ensures ClientRequestIDConflictCode(BuildRequest(c, a).value) == ""
  {
    match a.newRequest
    case NewRequestOk =>
      var fault := SignRequest(c.hasSigner, a.signings(0)).value;
      SigningFailure(c.hasSigner, a.signings(0));
      WrappedOnce(fault, Transport);
    case NewRequestProbeOnly =>
      var fault := Wrapped([Mark(NotSent), Mark(ProbeOnly)]);
      WrappedIs([Mark(NotSent), Mark(ProbeOnly)], Transport);
      NoHTTPErrorNoConflict(fault);
      WrappedOnce(fault, Transport);
    case NewRequestFails =>
      NoHTTPErrorNoConflict(Opaque("build iris request"));
      WrappedOnce(Opaque("build iris request"), Transport);
      WrappedOnce(Wrapped([Opaque("build iris request")]), Transport);
  }

  // ----- One protected send

  /** The request may have reached Iris and been admitted. */
  ghost predicate LeftUnknown(x: Exchange) {
    match x
    case NetworkFailure(err) => !Is(err, NotSent)
    case Accepted(body) => body.fault.Some? || body.closeFault.Some?
    case Refused(_, _, _, _) => false
  }

  /** Iris looked the request id up and answered for it. */
  ghost predicate IsVerdict(x: Exchange) {
    x.Refused? && x.status == 409 && IsConflictCode(x.code)
  }

  /** A rejection that proves no side effect and earns the one re-signed replay. */
  ghost predicate IsMismatch(x: Exchange) {
    x.Refused? && IsEpochMismatch(x.status, x.code) && x.closeFault.None?
  }

  ghost function ExchangeError(c: Config, x: Exchange): Option<Error> {
    match x
    case NetworkFailure(err) => Some(TransportError(err, c.hasKey))
    case Accepted(body) => DecodeBody(body, c.hasKey)
    case Refused(_, _, _, _) => Some(RefusalError(x))
  }

  lemma FaultNoVerdict(fault: Error)
    requires BodyFault(fault)
    ensures NoVerdict(Wrapped([fault]))
  {
    ForeignNoVerdict(fault);
    WrappedNoVerdict([fault]);
  }

  lemma DecodeBodyUnknown(body: BodyRead, idempotent: bool)
    requires PossibleFault(body.fault) && PossibleFault(body.closeFault)
    requires DecodeBody(body, idempotent).Some?
    ensures OutcomeUnknown(DecodeBody(body, idempotent).value)
  {
    if body.fault.Some? {
      FaultNoVerdict(body.fault.value);
      TransportErrorUnknown(Wrapped([body.fault.value]), idempotent);
    }
    if body.closeFault.Some? {
      var closing := Wrapped([body.closeFault.value]);
      FaultNoVerdict(body.closeFault.value);
      var parts :=
        if body.fault.Some? then [TransportError(Wrapped([body.fault.value]), idempotent), closing] else [closing];
      WrappedNoVerdict(parts);
      TransportErrorUnknown(Wrapped(parts), idempotent);
    }
  }

  lemma RefusalClassified(x: Exchange)
    requires PossibleExchange(x) && x.Refused?
    ensures !Is(RefusalError(x), Transport)
    ensures ClientRequestIDConflictCode(RefusalError(x)) == if IsVerdict(x) then x.code else ""
    ensures FindHTTPError(RefusalError(x)) == Some(HTTPError(x.status, x.code, x.retryAfter))
  {
    var response := HTTPError(x.status, x.code, x.retryAfter);
    WrappedIs([response], Transport);
    assert FindHTTPErrorAmong([response]) == Some(response);
    if x.closeFault.Some? {
      ForeignMatchesNoClass(x.closeFault.value, Transport);
      WrappedIs([response, x.closeFault.value], Transport);
      assert FindHTTPErrorAmong([response, x.closeFault.value]) == Some(response);
    }
    assert FindHTTPError(RefusalError(x)) == Some(response);
  }

  /** The error of one exchange says exactly what the exchange left known. */
  lemma ExchangeClassified(c: Config, x: Exchange)
    requires PossibleExchange(x)
    ensures LeftUnknown(x) <==> ExchangeError(c, x).Some? && Is(ExchangeError(c, x).value, Transport)
    ensures LeftUnknown(x) ==> OutcomeUnknown(ExchangeError(c, x).value)
    ensures ExchangeError(c, x).Some? ==>
              ClientRequestIDConflictCode(ExchangeError(c, x).value) == if IsVerdict(x) then x.code else ""
  {
    match x
    case NetworkFailure(err) =>
      ForeignMatchesNoClass(err, Transport);
      if LeftUnknown(x) {
        ForeignNoVerdict(err);
        TransportErrorUnknown(err, c.hasKey);
      }
      NoHTTPErrorNoConflict(TransportError(err, c.hasKey));
    case Accepted(body) =>
      if DecodeBody(body, c.hasKey).Some? {
        DecodeBodyUnknown(body, c.hasKey);
        NoHTTPErrorNoConflict(DecodeBody(body, c.hasKey).value);
      }
    case Refused(_, _, _, _) =>
      RefusalClassified(x);
  }

  // ----- One attempt

  lemma ReplayFailure(c: Config, a: Attempt, k: nat)
    requires PossibleAttempt(a) && PrepareReplay(c, a, k).Some?
    ensures PrepareReplay(c, a, k).value.StopRetry?
    ensures !Is(PrepareReplay(c, a, k).value, Transport)
    ensures ClientRequestIDConflictCode(PrepareReplay(c, a, k).value) == ""
  {
    var e := PrepareReplay(c, a, k).value;
    if SignRequest(c.hasSigner, a.signings(k)).Some? {
      SigningFailure(c.hasSigner, a.signings(k));
    } else {
      var body := a.replayBodies(k);
      if body.ReplayFails? {
        ForeignMatchesNoClass(body.err, Transport);
        WrappedIs([Mark(NotSent), body.err], Transport);
        WrappedNoHTTPError([Mark(NotSent), body.err]);
      } else {
        WrappedIs([Mark(NotSent)], Transport);
      }
      NoHTTPErrorNoConflict(e);
    }
  }

  function Last<T>(s: seq<T>): T
    requires s != []
  {
    s[|s| - 1]
  }

  /** The error `do` and the decoder hand to the retry loop, seen from the last exchange. */
  ghost predicate EndsSend(c: Config, x: Exchange, err: Option<Error>) {
    || err == ExchangeError(c, x)
    || (IsMismatch(x) && err.Some? && err.value.StopRetry? && !Is(err.value, Transport)
        && ClientRequestIDConflictCode(err.value) == "")
  }

  /** Each send of an attempt but the last met a mismatch, and the replay budget bounds them. */
  lemma {:induction false} SendShape(c: Config, a: Attempt, k: nat, refreshed: bool)
    requires PossibleAttempt(a)
    ensures var run := Send(c, a, k, refreshed);
            && 1 <= |run.sent| <= 1 + (if run.refreshed && !refreshed then 1 else 0)
            && (refreshed ==> run.refreshed)
            && (forall x :: x in run.sent ==> PossibleExchange(x))
            && (forall i :: 0 <= i < |run.sent| - 1 ==> IsMismatch(run.sent[i]))
            && EndsSend(c, Last(run.sent), run.err)
            && (run.replayFailed ==> IsMismatch(Last(run.sent)) && run.err.Some? && HasStop(run.err.value))
            && (!run.replayFailed ==> run.err == ExchangeError(c, Last(run.sent)))
            && (|run.sent| > 1 || run.replayFailed ==> c.hasSigner && !refreshed)
    decreases if refreshed then 0 else 1
  {
    var x := a.exchanges(k);
    assert PossibleExchange(x);
    if x.Refused? && x.closeFault.None? && RefreshAuthEpoch(c, x.status, x.code, refreshed) {
      if PrepareReplay(c, a, k + 1).Some? {
        ReplayFailure(c, a, k + 1);
      } else {
        SendShape(c, a, k + 1, true);
      }
    }
  }

  // ----- The whole call

  ghost predicate SomeUnknown(trace: seq<Event>) {
    exists i :: 0 <= i < |trace| && trace[i].Sent? && LeftUnknown(trace[i].exchange)
  }

  ghost predicate EndsInVerdict(trace: seq<Event>) {
    trace != [] && Last(trace).Sent? && IsVerdict(Last(trace).exchange)
  }

  ghost predicate PriorUnknown(unknown: Option<Error>) {
    unknown.Some? ==> OutcomeUnknown(unknown.value)
  }

  /** A result agrees with what was left unknown on the wire, here or before. */
  ghost predicate Faithful(prior: bool, err: Error, trace: seq<Event>) {
    && (Is(err, Transport) <==> (prior || SomeUnknown(trace)) && !EndsInVerdict(trace))
    && (Is(err, Transport) ==> OutcomeUnknown(err))
    && (EndsInVerdict(trace) ==> ClientRequestIDConflictCode(err) == Last(trace).exchange.code)
  }

  lemma KeepUnknownFaithful(finalErr: Error, unknown: Option<Error>, idempotent: bool)
    requires PriorUnknown(unknown)
    requires Is(finalErr, Transport) ==> OutcomeUnknown(finalErr)
    requires Is(finalErr, Transport) ==> unknown.Some?
    ensures var kept := KeepUnknownOutcome(finalErr, unknown, idempotent);
            && (Is(kept, Transport) <==>
                unknown.Some? && (Is(finalErr, Transport) || ClientRequestIDConflictCode(finalErr) == ""))
            && (Is(kept, Transport) ==> OutcomeUnknown(kept))
            && (ClientRequestIDConflictCode(finalErr) != "" ==> kept == finalErr)
  {
    if unknown.Some? {
      WrappedNoVerdict([unknown.value]);
      TransportErrorUnknown(Wrapped([unknown.value]), idempotent);
    }
  }

  lemma RetryWaitFaithful(unknown: Option<Error>, idempotent: bool)
    requires PriorUnknown(unknown)
    ensures var e := RetryWaitError(Mark(ContextEnded), unknown, idempotent);
            (Is(e, Transport) <==> unknown.Some?) && (Is(e, Transport) ==> OutcomeUnknown(e))
  {
    if unknown.Some? {
      assert NoVerdict(Mark(ContextEnded));
      WrappedNoVerdict([Mark(ContextEnded), unknown.value]);
      TransportErrorUnknown(Wrapped([Mark(ContextEnded), unknown.value]), idempotent);
    }
  }

  /** The error of an attempt's sends says what the last of them left known. */
  ghost predicate SendsClassified(run: SendRun) {
    && run.sent != []
    && (forall i :: 0 <= i < |run.sent| - 1 ==> !LeftUnknown(run.sent[i]))
    && (LeftUnknown(Last(run.sent)) ==> run.err.Some?)
    && (run.err.Some? ==>
          && (Is(run.err.value, Transport) <==> LeftUnknown(Last(run.sent)))
          && (Is(run.err.value, Transport) ==> OutcomeUnknown(run.err.value))
          && ClientRequestIDConflictCode(run.err.value)
             == if IsVerdict(Last(run.sent)) then Last(run.sent).code else "")
    && (run.replayFailed ==> !IsVerdict(Last(run.sent)))
  }

  lemma SendClassified(c: Config, a: Attempt, refreshed: bool)
    requires PossibleAttempt(a)
    ensures SendsClassified(Send(c, a, 0, refreshed))
  {
    SendShape(c, a, 0, refreshed);
    ExchangeClassified(c, Last(Send(c, a, 0, refreshed).sent));
  }

  /** Waiting adds no send, so it changes nothing about what is unknown. */
  lemma WaitingIsSilent(sent: seq<Exchange>, pause: seq<Event>)
    requires sent != [] && forall i :: 0 <= i < |pause| ==> !pause[i].Sent?
    requires forall i :: 0 <= i < |sent| - 1 ==> !LeftUnknown(sent[i])
    ensures SomeUnknown(Events(sent) + pause) <==> LeftUnknown(Last(sent))
    ensures EndsInVerdict(Events(sent) + pause) <==> pause == [] && IsVerdict(Last(sent))
    ensures pause == [] ==> Last(Events(sent) + pause) == Sent(Last(sent))
  {
    var events := Events(sent) + pause;
    assert forall i :: 0 <= i < |sent| ==> events[i] == Sent(sent[i]);
    assert forall i :: |sent| <= i < |events| ==> events[i] == pause[i - |sent|];
    assert events[|sent| - 1] == Sent(Last(sent));
  }

  /** The memory after an attempt that failed with `err`. */
  function Remembered(unknown: Option<Error>, err: Error): Option<Error> {
    if Is(err, Transport) then Some(err) else unknown
  }

  lemma ReplaySendsNothing(run: SendRun, pause: seq<Event>)
    requires forall i :: 0 <= i < |pause| ==> !pause[i].Sent?
    ensures var tail := ReplayEvents(run) + pause;
            && (forall i :: 0 <= i < |tail| ==> !tail[i].Sent?)
            && (tail == [] <==> pause == [] && !run.replayFailed)
            && SendEvents(run) + pause == Events(run.sent) + tail
  {
    Associative(Events(run.sent), ReplayEvents(run), pause);
  }

  lemma SendsSilent(run: SendRun, pause: seq<Event>)
    requires SendsClassified(run) && forall i :: 0 <= i < |pause| ==> !pause[i].Sent?
    ensures SomeUnknown(SendEvents(run) + pause) <==> LeftUnknown(Last(run.sent))
    ensures EndsInVerdict(SendEvents(run) + pause) <==> pause == [] && IsVerdict(Last(run.sent))
    ensures EndsInVerdict(SendEvents(run) + pause) ==> Last(SendEvents(run) + pause) == Sent(Last(run.sent))
  {
    ReplaySendsNothing(run, pause);
    WaitingIsSilent(run.sent, ReplayEvents(run) + pause);
  }

  lemma FinalErrorFaithful(c: Config, unknown: Option<Error>, run: SendRun)
    requires PriorUnknown(unknown) && SendsClassified(run) && run.err.Some?
    ensures var kept := KeepUnknownOutcome(run.err.value, Remembered(unknown, run.err.value), c.hasKey);
            Faithful(unknown.Some?, kept, SendEvents(run))
  {
    SendsSilent(run, []);
    assert SendEvents(run) + [] == SendEvents(run);
    KeepUnknownFaithful(run.err.value, Remembered(unknown, run.err.value), c.hasKey);
  }

  lemma WaitErrorFaithful(c: Config, unknown: Option<Error>, run: SendRun, pause: seq<Event>)
    requires PriorUnknown(unknown) && SendsClassified(run) && run.err.Some?
    requires pause != [] && forall i :: 0 <= i < |pause| ==> !pause[i].Sent?
    ensures var cut := RetryWaitError(Mark(ContextEnded), Remembered(unknown, run.err.value), c.hasKey);
            Faithful(unknown.Some?, cut, SendEvents(run) + pause)
    ensures PriorUnknown(Remembered(unknown, run.err.value))
    ensures Remembered(unknown, run.err.value).Some? <==> unknown.Some? || SomeUnknown(SendEvents(run) + pause)
  {
    SendsSilent(run, pause);
    RetryWaitFaithful(Remembered(unknown, run.err.value), c.hasKey);
  }

  lemma AfterSendFaithful(c: Config, a: Attempt, last: bool, backoff: int, unknown: Option<Error>, run: SendRun)
    requires a.draw < DRAWS && PriorUnknown(unknown) && SendsClassified(run)
    ensures TurnIsFaithful(unknown, AfterSend(c, a, last, backoff, unknown, run))
  {
    if run.err.Some? {
      if !IsRetryableReplyError(run.err.value, c.hasKey) || last {
        FinalErrorFaithful(c, unknown, run);
      } else {
        var (delay, byRetryAfter) := RetryDelay(run.err.value, backoff, a.draw);
        var wait := Waited(delay, byRetryAfter);
        WaitErrorFaithful(c, unknown, run, [wait]);
        WaitErrorFaithful(c, unknown, run, [wait, WaitCut]);
        assert SendEvents(run) + [wait, WaitCut] == SendEvents(run) + [wait] + [WaitCut];
      }
    }
  }

  /** An attempt either ends the call faithfully or carries exactly what it left unknown. */
  ghost predicate TurnIsFaithful(unknown: Option<Error>, turn: Turn) {
    && turn.events != []
    && (turn.Finished? && turn.err.Some? ==> Faithful(unknown.Some?, turn.err.value, turn.events))
    && (turn.Again? ==>
          && PriorUnknown(turn.unknown)
          && (turn.unknown.Some? <==> unknown.Some? || SomeUnknown(turn.events)))
  }

  lemma TurnFaithful(c: Config, a: Attempt, last: bool, backoff: int, unknown: Option<Error>, refreshed: bool)
    requires PossibleAttempt(a) && PriorUnknown(unknown)
    ensures TurnIsFaithful(unknown, TakeTurn(c, a, last, backoff, unknown, refreshed))
  {
    var build := BuildRequest(c, a);
    if build.Some? {
      BuildFailure(c, a);
      KeepUnknownFaithful(build.value, unknown, c.hasKey);
    } else {
      SendClassified(c, a, refreshed);
      AfterSendFaithful(c, a, last, backoff, unknown, Send(c, a, 0, refreshed));
    }
  }

  lemma FaithfulAppends(prior: bool, carried: bool, err: Error, front: seq<Event>, back: seq<Event>)
    requires carried <==> prior || SomeUnknown(front)
    requires back != [] && Faithful(carried, err, back)
    ensures Faithful(prior, err, front + back)
  {
    var all := front + back;
    assert forall i :: 0 <= i < |front| ==> all[i] == front[i];
    assert forall i :: 0 <= i < |back| ==> back[i] == all[|front| + i];
    assert SomeUnknown(all) <==> SomeUnknown(front) || SomeUnknown(back);
    assert Last(all) == Last(back);
  }

  ghost predicate AttemptsFaithful(attempts: Attempts) {
    forall k: nat, backoff, unknown, refreshed :: PriorUnknown(unknown) ==>
      TurnIsFaithful(unknown, attempts(k, backoff, unknown, refreshed))
  }

  lemma EveryAttemptFaithful(c: Config, env: nat -> Attempt)
    requires PossibleEnvironment(env)
    ensures AttemptsFaithful(AttemptsOf(c, env))
  {
    forall k: nat, backoff, unknown, refreshed | PriorUnknown(unknown)
      ensures TurnIsFaithful(unknown, AttemptsOf(c, env)(k, backoff, unknown, refreshed))
    {
      TurnFaithful(c, env(k), k >= MaxAttempts(c), backoff, unknown, refreshed);
    }
  }

  lemma {:induction false} CallFaithful(
    attempts: Attempts, n: nat, attempt: nat, backoff: int, unknown: Option<Error>, refreshed: bool)
    requires EndsBy(attempts, n) && AttemptsFaithful(attempts) && PriorUnknown(unknown)
    ensures var run := Call(attempts, n, attempt, backoff, unknown, refreshed);
            run.trace != [] && (run.err.Some? ==> Faithful(unknown.Some?, run.err.value, run.trace))
    decreases n - attempt
  {
    var turn := attempts(attempt, backoff, unknown, refreshed);
    assert TurnIsFaithful(unknown, turn);
    if turn.Again? {
      CallFaithful(attempts, n, attempt + 1, NextBackoff(backoff), turn.unknown, turn.refreshed);
      var rest := Call(attempts, n, attempt + 1, NextBackoff(backoff), turn.unknown, turn.refreshed);
      if rest.err.Some? {
        FaithfulAppends(unknown.Some?, turn.unknown.Some?, rest.err.value, turn.events, rest.trace);
      }
    }
  }

  /**
    For every environment: a failed call matches ErrTransport exactly when some send left
    the outcome unknown and the call did not end in a verdict on the request id; such an
    error holds no HTTP error, so it matches none of the definite classes; and a verdict
    is handed to the caller with its code.
   */
  lemma OutcomeUnknownIsSticky(c: Config, env: nat -> Attempt)
    requires PossibleEnvironment(env)
    ensures var run := RetryPostRun(c, env);
            run.err.Some? ==>
              && (Is(run.err.value, Transport) <==> SomeUnknown(run.trace) && !EndsInVerdict(run.trace))
              && (Is(run.err.value, Transport) ==>
                    && FindHTTPError(run.err.value).None?
                    && !Is(run.err.value, NotSent) && !Is(run.err.value, Permanent)
                    && !Is(run.err.value, AuthFailed) && !Is(run.err.value, RateLimited))
              && (EndsInVerdict(run.trace) ==>
                    ClientRequestIDConflictCode(run.err.value) == Last(run.trace).exchange.code)
  {
    EveryAttemptFaithful(c, env);
    AttemptsEnd(c, env);
    CallFaithful(AttemptsOf(c, env), MaxAttempts(c), 1, INITIAL_BACKOFF, None, false);
    var run := RetryPostRun(c, env);
    if run.err.Some? {
      FindHTTPErrorFindsNode(run.err.value);
    }
  }

  /** Not a law of trees: an outer not-sent mark does not silence a typed error nested beside it. */
  lemma NestingCanMatchBoth()
    ensures exists e :: Is(e, Transport) && Is(e, NotSent)
  {
    var inner := TransportError(Opaque("reset"), true);
    WrappedIs([Mark(NotSent), inner], NotSent);
    WrappedIs([Mark(NotSent), inner], Transport);
    assert !Exclusive(Wrapped([Mark(NotSent), inner]));
  }

  /** But no error the client builds matches both ErrTransport and ErrNotSent. */
  lemma ClientErrorsAreExclusive(c: Config, env: nat -> Attempt, attempt: nat, refreshed: bool)
    requires PossibleEnvironment(env)
    ensures var a := env(attempt);
            && (AuthEpoch(a.signings(0).auth).Err? ==> Exclusive(AuthEpoch(a.signings(0).auth).error))
            && (BuildRequest(c, a).Some? ==> Exclusive(BuildRequest(c, a).value))
            && (Send(c, a, 0, refreshed).err.Some? ==> Exclusive(Send(c, a, 0, refreshed).err.value))
    ensures RetryPostRun(c, env).err.Some? ==> Exclusive(RetryPostRun(c, env).err.value)
  {
    var a := env(attempt);
    if AuthEpoch(a.signings(0).auth).Err? {
      DiscoveryFailureIsNotSent(a.signings(0).auth);
    }
    if BuildRequest(c, a).Some? {
      BuildFailure(c, a);
    }
    SendClassified(c, a, refreshed);
    OutcomeUnknownIsSticky(c, env);
  }
}
