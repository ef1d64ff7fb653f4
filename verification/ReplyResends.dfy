/** After what a logical call may send again: never after a stop error, and at most one replay. */
module ReplyResends {
  import opened Common
  import opened ErrorTrees
  import opened DoublePrecision
  import opened RetryTiming
  import opened ReplyCall
  import opened ReplyOutcome
  import opened ReplyBudget

  /** What an exchange must be for the call to send again after it. */
  ghost predicate MayResendAfter(c: Config, x: Exchange) {
    IsRetried(c, x) || (IsMismatch(x) && c.hasSigner)
  }

  /**
    What event `i` must be for a send to come after it: a failure that is retried, followed by
    its wait; a mismatch, followed at once by the replay; or a wait that was not cut.
   */
  ghost predicate MayPrecedeSend(c: Config, trace: seq<Event>, i: nat)
    requires i < |trace|
  {
    match trace[i]
    case Sent(x) =>
      && i + 1 < |trace|
      && ((IsRetried(c, x) && trace[i + 1].Waited?) || (IsMismatch(x) && c.hasSigner && trace[i + 1].Sent?))
    case Waited(_, _) => true
    case _ => false
  }

  ghost predicate SendsAreSafe(c: Config, trace: seq<Event>) {
    forall i, j :: 0 <= i < j < |trace| && trace[j].Sent? ==> MayPrecedeSend(c, trace, i)
  }

  /** Event `i` is a mismatch that was replayed. */
  ghost predicate IsReplayed(trace: seq<Event>, i: nat) {
    i + 1 < |trace| && trace[i].Sent? && IsMismatch(trace[i].exchange) && trace[i + 1].Sent?
  }

  /** No replay once the budget is spent, and never two. */
  ghost predicate ReplaysWithin(trace: seq<Event>, refreshed: bool) {
    && (forall i :: IsReplayed(trace, i) ==> !refreshed)
    && (forall i, j :: IsReplayed(trace, i) && IsReplayed(trace, j) ==> i == j)
  }

  // ----- One attempt

  /** What the sends of one attempt leave for the loop around them. */
  ghost predicate SendsShaped(c: Config, run: SendRun, refreshed: bool) {
    && 1 <= |run.sent| <= 2
    && (|run.sent| == 2 ==> IsMismatch(run.sent[0]) && c.hasSigner && !refreshed && run.refreshed)
    && (refreshed ==> run.refreshed)
    && (run.err.Some? && IsRetryableReplyError(run.err.value, c.hasKey) ==>
          !run.replayFailed && IsRetried(c, Last(run.sent)))
  }

  lemma SendIsShaped(c: Config, a: Attempt, refreshed: bool)
    requires PossibleAttempt(a)
    ensures SendsShaped(c, Send(c, a, 0, refreshed), refreshed)
  {
    SendShape(c, a, 0, refreshed);
    RetriedExactly(c, Last(Send(c, a, 0, refreshed).sent));
  }

  ghost predicate AllMayPrecede(c: Config, trace: seq<Event>) {
    forall i :: 0 <= i < |trace| ==> MayPrecedeSend(c, trace, i)
  }

  /** One attempt sends safely by itself and, when it goes round, so may the next. */
  ghost predicate TurnIsSafe(c: Config, turn: Turn, refreshed: bool) {
    && SendsAreSafe(c, turn.events)
    && ReplaysWithin(turn.events, refreshed)
    && (turn.Again? ==>
          && AllMayPrecede(c, turn.events)
          && turn.events != [] && Last(turn.events).Waited?
          && (refreshed ==> turn.refreshed)
          && (forall i :: IsReplayed(turn.events, i) ==> turn.refreshed))
  }

  /** The events are the sends and then no further send. */
  ghost predicate SendsFirst(sent: seq<Exchange>, events: seq<Event>) {
    && |sent| <= |events|
    && (forall i :: 0 <= i < |sent| ==> events[i] == Sent(sent[i]))
    && (forall i :: |sent| <= i < |events| ==> !events[i].Sent?)
  }

  lemma ShapeSendsFirst(run: SendRun, turn: Turn)
    requires EventsShape(run, turn)
    ensures SendsFirst(run.sent, turn.events)
  {
    ShapeSplits(run, turn);
    AppendSendsFirst(run.sent, Pause(run, turn));
  }

  lemma AppendSendsFirst(sent: seq<Exchange>, pause: seq<Event>)
    requires forall i :: 0 <= i < |pause| ==> !pause[i].Sent?
    ensures SendsFirst(sent, Events(sent) + pause)
  {
    var events := Events(sent) + pause;
    assert forall i :: |sent| <= i < |events| ==> events[i] == pause[i - |sent|];
  }

  lemma SendsFirstIsSafe(c: Config, sent: seq<Exchange>, events: seq<Event>, refreshed: bool)
    requires SendsFirst(sent, events) && 1 <= |sent| <= 2
    requires |sent| == 2 ==> IsMismatch(sent[0]) && c.hasSigner && !refreshed
    ensures SendsAreSafe(c, events) && ReplaysWithin(events, refreshed)
    ensures forall i :: IsReplayed(events, i) ==> |sent| == 2
  {
    assert forall i :: IsReplayed(events, i) ==> i == 0 && |sent| == 2;
    forall i, j | 0 <= i < j < |events| && events[j].Sent?
      ensures MayPrecedeSend(c, events, i)
    {
      assert j == 1 && events[0] == Sent(sent[0]);
    }
  }

  lemma WaitMayPrecede(c: Config, sent: seq<Exchange>, events: seq<Event>)
    requires SendsFirst(sent, events) && 1 <= |sent| <= 2 && |events| == |sent| + 1 && Last(events).Waited?
    requires |sent| == 2 ==> IsMismatch(sent[0]) && c.hasSigner
    requires IsRetried(c, Last(sent))
    ensures AllMayPrecede(c, events)
  {
    forall i | 0 <= i < |events|
      ensures MayPrecedeSend(c, events, i)
    {
      if i < |sent| {
        assert events[i] == Sent(sent[i]);
      }
    }
  }

  lemma ShapedTurnIsSafe(c: Config, run: SendRun, turn: Turn, refreshed: bool)
    requires SendsShaped(c, run, refreshed) && EventsShape(run, turn)
    requires turn.Again? ==>
               && |turn.events| == SendLength(run) + 1 && turn.refreshed == run.refreshed
               && run.err.Some? && IsRetryableReplyError(run.err.value, c.hasKey)
    ensures TurnIsSafe(c, turn, refreshed)
  {
    ShapeSendsFirst(run, turn);
    SendsFirstIsSafe(c, run.sent, turn.events, refreshed);
    if turn.Again? {
      WaitMayPrecede(c, run.sent, turn.events);
    }
  }

  lemma TurnSendsSafely(c: Config, a: Attempt, last: bool, backoff: int, unknown: Option<Error>, refreshed: bool)
    requires PossibleAttempt(a)
    ensures TurnIsSafe(c, TakeTurn(c, a, last, backoff, unknown, refreshed), refreshed)
  {
    if BuildRequest(c, a).None? {
      var run := Send(c, a, 0, refreshed);
      SendIsShaped(c, a, refreshed);
      AfterSendShape(c, a, last, backoff, unknown, run);
      ShapedTurnIsSafe(c, run, AfterSend(c, a, last, backoff, unknown, run), refreshed);
    }
  }

  // ----- The whole call

  lemma MayPrecedeInFront(c: Config, front: seq<Event>, back: seq<Event>, i: nat)
    requires i < |front| && MayPrecedeSend(c, front, i)
    ensures MayPrecedeSend(c, front + back, i)
  {
    assert (front + back)[i] == front[i];
    assert i + 1 < |front| ==> (front + back)[i + 1] == front[i + 1];
  }

  lemma MayPrecedeBehind(c: Config, front: seq<Event>, back: seq<Event>, i: nat)
    requires i < |back| && MayPrecedeSend(c, back, i)
    ensures MayPrecedeSend(c, front + back, |front| + i)
  {
    assert (front + back)[|front| + i] == back[i];
    assert i + 1 < |back| ==> (front + back)[|front| + i + 1] == back[i + 1];
  }

  lemma SafetyAppends(c: Config, front: seq<Event>, back: seq<Event>)
    requires AllMayPrecede(c, front) && SendsAreSafe(c, back)
    ensures SendsAreSafe(c, front + back)
  {
    var all := front + back;
    forall i, j | 0 <= i < j < |all| && all[j].Sent?
      ensures MayPrecedeSend(c, all, i)
    {
      if i < |front| {
        MayPrecedeInFront(c, front, back, i);
      } else {
        assert back[j - |front|] == all[j];
        MayPrecedeBehind(c, front, back, i - |front|);
      }
    }
  }

  lemma ReplayedSplits(front: seq<Event>, back: seq<Event>, i: nat)
    requires front != [] && Last(front).Waited? && IsReplayed(front + back, i)
    ensures if i < |front| then IsReplayed(front, i) else IsReplayed(back, i - |front|)
  {
    var all := front + back;
    if i < |front| {
      assert all[i] == front[i] && i + 1 < |front|;
      assert all[i + 1] == front[i + 1];
    } else {
      assert all[i] == back[i - |front|] && all[i + 1] == back[i + 1 - |front|];
    }
  }

  lemma ReplaysAppend(front: seq<Event>, back: seq<Event>, before: bool, between: bool)
    requires front != [] && Last(front).Waited?
    requires ReplaysWithin(front, before) && ReplaysWithin(back, between)
    requires before ==> between
    requires forall i :: IsReplayed(front, i) ==> between
    ensures ReplaysWithin(front + back, before)
  {
    var all := front + back;
    forall i | IsReplayed(all, i)
      ensures !before
    {
      ReplayedSplits(front, back, i);
    }
    forall i, j | IsReplayed(all, i) && IsReplayed(all, j)
      ensures i == j
    {
      ReplayedSplits(front, back, i);
      ReplayedSplits(front, back, j);
    }
  }

  ghost predicate AttemptsSendSafely(c: Config, attempts: Attempts) {
    forall k: nat, backoff, unknown, refreshed ::
      TurnIsSafe(c, attempts(k, backoff, unknown, refreshed), refreshed)
  }

  lemma EveryAttemptSendsSafely(c: Config, env: nat -> Attempt)
    requires PossibleEnvironment(env)
    ensures AttemptsSendSafely(c, AttemptsOf(c, env))
  {
    forall k: nat, backoff, unknown, refreshed
      ensures TurnIsSafe(c, AttemptsOf(c, env)(k, backoff, unknown, refreshed), refreshed)
    {
      TurnSendsSafely(c, env(k), k >= MaxAttempts(c), backoff, unknown, refreshed);
    }
  }

  /** From any attempt on: every send is safe, and replays stay within the budget found. */
  lemma {:induction false} CallSendsSafely(
    c: Config, attempts: Attempts, n: nat, attempt: nat, backoff: int, unknown: Option<Error>, refreshed: bool)
    requires EndsBy(attempts, n) && AttemptsSendSafely(c, attempts)
    ensures var trace := Call(attempts, n, attempt, backoff, unknown, refreshed).trace;
            SendsAreSafe(c, trace) && ReplaysWithin(trace, refreshed)
    decreases n - attempt
  {
    var turn := attempts(attempt, backoff, unknown, refreshed);
    assert TurnIsSafe(c, turn, refreshed);
    if turn.Again? {
      CallSendsSafely(c, attempts, n, attempt + 1, NextBackoff(backoff), turn.unknown, turn.refreshed);
      var rest := Call(attempts, n, attempt + 1, NextBackoff(backoff), turn.unknown, turn.refreshed).trace;
      SafetyAppends(c, turn.events, rest);
      ReplaysAppend(turn.events, rest, refreshed, turn.refreshed);
    }
  }

  /** A stop error met at event `i`: a failed build, re-sign, replay, close or wait, or a mismatch after another. */
  ghost predicate IsStop(trace: seq<Event>, i: nat)
    requires i < |trace|
  {
    match trace[i]
    case BuildFailed(_) => true
    case ReplayFailed => true
    case WaitCut => true
    case Waited(_, _) => false
    case Sent(x) =>
      x.Refused?
      && (x.closeFault.Some?
          || (IsMismatch(x) && exists k :: 0 <= k < i && trace[k].Sent? && IsMismatch(trace[k].exchange)))
  }

  /** The exchange was denied egress or answered beyond the size limit. */
  ghost predicate IsDeniedOrOversize(x: Exchange) {
    match x
    case NetworkFailure(err) => !Outlived(Some(err))
    case Accepted(body) => !Outlived(body.fault) || !Outlived(body.closeFault)
    case Refused(_, _, _, _) => false
  }

  /** Two mismatches are never both followed by a send: the second one stops the call. */
  lemma SecondMismatchStops(c: Config, trace: seq<Event>, i: nat, j: nat, k: nat)
    requires SendsAreSafe(c, trace) && ReplaysWithin(trace, false)
    requires i < j < k < |trace| && trace[i].Sent? && trace[j].Sent? && trace[k].Sent?
    ensures !(IsMismatch(trace[i].exchange) && IsMismatch(trace[j].exchange))
  {
    assert MayPrecedeSend(c, trace, i) && MayPrecedeSend(c, trace, j);
    if IsMismatch(trace[i].exchange) && IsMismatch(trace[j].exchange) {
      assert IsReplayed(trace, i) && IsReplayed(trace, j);
    }
  }

  /**
    For every environment: at most one send per attempt plus one replay for the whole call;
    whatever comes before a send is a retried failure with its wait or the one replayed
    mismatch; nothing is sent after a stop error, a denied egress, an oversize response or a
    clean success; and without a request id every send but the last met a 429 or a mismatch.
   */
  lemma ResendSafetyAndBudget(c: Config, env: nat -> Attempt)
    requires PossibleEnvironment(env)
    ensures SendCount(RetryPostRun(c, env).trace) <= MaxAttempts(c) + 1
    ensures SendsAreSafe(c, RetryPostRun(c, env).trace) && ReplaysWithin(RetryPostRun(c, env).trace, false)
    ensures var trace := RetryPostRun(c, env).trace;
            forall i, j :: 0 <= i < j < |trace| && trace[j].Sent? ==>
              && !IsStop(trace, i)
              && (trace[i].Sent? ==>
                    && MayResendAfter(c, trace[i].exchange)
                    && ExchangeError(c, trace[i].exchange).Some?
                    && !IsDeniedOrOversize(trace[i].exchange)
                    && (!c.hasKey ==>
                          && trace[i].exchange.Refused?
                          && (trace[i].exchange.status == 429 || IsMismatch(trace[i].exchange))
                          && !LeftUnknown(trace[i].exchange)))
  {
    var attempts, n := AttemptsOf(c, env), MaxAttempts(c);
    AttemptsEnd(c, env);
    EveryAttemptWithinBudget(c, env);
    EveryAttemptSendsSafely(c, env);
    CallBudget(attempts, n, 1, INITIAL_BACKOFF, None, false);
    CallSendsSafely(c, attempts, n, 1, INITIAL_BACKOFF, None, false);
    StopsAndDenialsEnd(c, RetryPostRun(c, env).trace);
  }

  lemma StopsAndDenialsEnd(c: Config, trace: seq<Event>)
    requires SendsAreSafe(c, trace) && ReplaysWithin(trace, false)
    ensures forall i, j :: 0 <= i < j < |trace| && trace[j].Sent? ==>
              && !IsStop(trace, i)
              && (trace[i].Sent? ==> MayResendAfter(c, trace[i].exchange) && !IsDeniedOrOversize(trace[i].exchange))
  {
    forall i, j | 0 <= i < j < |trace| && trace[j].Sent?
      ensures !IsStop(trace, i)
      ensures trace[i].Sent? ==> MayResendAfter(c, trace[i].exchange) && !IsDeniedOrOversize(trace[i].exchange)
    {
      assert MayPrecedeSend(c, trace, i);
      forall k | 0 <= k < i && trace[i].Sent? && trace[k].Sent?
        ensures !(IsMismatch(trace[k].exchange) && IsMismatch(trace[i].exchange))
      {
        SecondMismatchStops(c, trace, k, i, j);
      }
    }
  }
}
