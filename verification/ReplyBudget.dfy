/** What a logical call retries, how often it may send, and how long it may wait. */
module ReplyBudget {
  import opened Common
  import opened ErrorTrees
  import opened DoublePrecision
  import opened RetryTiming
  import opened ReplyCall
  import opened ReplyOutcome

  function SendCount(trace: seq<Event>): nat {
    if trace == [] then 0 else SendCount(trace[1..]) + if trace[0].Sent? then 1 else 0
  }

  lemma {:induction false} SendCountAppends(front: seq<Event>, back: seq<Event>)
    ensures SendCount(front + back) == SendCount(front) + SendCount(back)
  {
    if front == [] {
      assert front + back == back;
    } else {
      assert (front + back)[1..] == front[1..] + back;
      SendCountAppends(front[1..], back);
    }
  }

  lemma {:induction false} SendCountEvents(sent: seq<Exchange>)
    ensures SendCount(Events(sent)) == |sent|
  {
    if sent != [] {
      assert Events(sent)[1..] == Events(sent[1..]);
      SendCountEvents(sent[1..]);
    }
  }

  lemma {:induction false} NoSends(events: seq<Event>)
    requires forall i :: 0 <= i < |events| ==> !events[i].Sent?
    ensures SendCount(events) == 0
  {
    if events != [] {
      NoSends(events[1..]);
    }
  }

  lemma RefusalStops(x: Exchange)
    requires PossibleExchange(x) && x.Refused?
    ensures HasStop(RefusalError(x)) <==> x.closeFault.Some? || IsEpochMismatch(x.status, x.code)
    ensures x.closeFault.None? ==>
              (Is(RefusalError(x), RateLimited) <==> x.status == 429)
              && (Is(RefusalError(x), NotSent) ==> IsEpochMismatch(x.status, x.code))
  {
    var response := HTTPError(x.status, x.code, x.retryAfter);
    WrappedIs([response], RateLimited);
    WrappedIs([response], NotSent);
  }

  lemma NetworkFailureIsNotRateLimited(err: Error, idempotent: bool)
    requires Foreign(err)
    ensures !Is(TransportError(err, idempotent), RateLimited)
  {
    ForeignMatchesNoClass(err, RateLimited);
  }

  // ----- Exactly what is retried

  /** A body whose fault the call may outlive: neither oversize nor denied egress. */
  ghost predicate Outlived(fault: Option<Error>) {
    fault.Some? ==> !Is(fault.value, TooLarge) && !Is(fault.value, EgressDenied)
  }

  /** What the retry loop goes round for, read off the exchange. */
  ghost predicate IsRetried(c: Config, x: Exchange) {
    match x
    case NetworkFailure(err) => c.hasKey && Outlived(Some(err))
    case Accepted(body) =>
      c.hasKey && (body.fault.Some? || body.closeFault.Some?) && Outlived(body.fault) && Outlived(body.closeFault)
    case Refused(status, _, _, closeFault) => closeFault.None? && status == 429
  }

  lemma FaultsHaveNoStop(e: Error)
    requires Foreign(e)
    ensures !HasStop(e)
  {
    HasStopFindsNode(e);
  }

  /** The decoder's error matches what one of its faults matches. */
  lemma DecodeBodyMatches(body: BodyRead, idempotent: bool, target: Sentinel)
    requires PossibleFault(body.fault) && PossibleFault(body.closeFault)
    requires DecodeBody(body, idempotent).Some? && (target == TooLarge || target == EgressDenied)
    ensures Is(DecodeBody(body, idempotent).value, target) <==>
            || (body.fault.Some? && Is(body.fault.value, target))
            || (body.closeFault.Some? && Is(body.closeFault.value, target))
  {
    var err := DecodeBody(body, idempotent).value;
    WrappedIs(err.err.causes, target);
    if body.fault.Some? {
      WrappedIs([body.fault.value], target);
    }
    if body.closeFault.Some? {
      WrappedIs([body.closeFault.value], target);
    }
  }

  lemma DecodeBodyHasNoStop(body: BodyRead, idempotent: bool)
    requires PossibleFault(body.fault) && PossibleFault(body.closeFault) && DecodeBody(body, idempotent).Some?
    ensures !HasStop(DecodeBody(body, idempotent).value)
  {
    if body.fault.Some? {
      FaultsHaveNoStop(body.fault.value);
      assert !HasStop(TransportError(Wrapped([body.fault.value]), idempotent));
    }
    if body.closeFault.Some? {
      FaultsHaveNoStop(body.closeFault.value);
      assert !HasStop(Wrapped([body.closeFault.value]));
    }
  }

  lemma RefusalNeverTooLarge(x: Exchange)
    requires PossibleExchange(x) && x.Refused? && x.closeFault.None?
    ensures !Is(RefusalError(x), TooLarge)
  {
    WrappedIs([HTTPError(x.status, x.code, x.retryAfter)], TooLarge);
  }

  /**
    The loop goes round exactly for a 429, and with a request id for every unknown or unsent
    outcome that is neither an egress denial nor an oversize response.
   */
  lemma RetriedExactly(c: Config, x: Exchange)
    requires PossibleExchange(x)
    ensures IsRetried(c, x) <==>
            ExchangeError(c, x).Some? && IsRetryableReplyError(ExchangeError(c, x).value, c.hasKey)
  {
    match x
    case NetworkFailure(err) =>
      var wrapped := TransportError(err, c.hasKey);
      NetworkFailureIsNotRateLimited(err, c.hasKey);
      FaultsHaveNoStop(err);
      assert !HasStop(wrapped) && (Is(wrapped, Transport) || Is(wrapped, NotSent));
      assert Is(wrapped, TooLarge) <==> Is(err, TooLarge);
      assert Is(wrapped, EgressDenied) <==> Is(err, EgressDenied);
    case Accepted(body) =>
      if DecodeBody(body, c.hasKey).Some? {
        DecodeBodyUnknown(body, c.hasKey);
        DecodeBodyHasNoStop(body, c.hasKey);
        DecodeBodyMatches(body, c.hasKey, TooLarge);
        DecodeBodyMatches(body, c.hasKey, EgressDenied);
      }
    case Refused(_, _, _, _) =>
      RefusalStops(x);
      RefusalClassified(x);
      if x.closeFault.None? {
        RefusalNeverTooLarge(x);
      }
  }

  /** How many events of an attempt are its sends and its failed replay. */
  function SendLength(run: SendRun): nat {
    |run.sent| + if run.replayFailed then 1 else 0
  }

  /** An attempt's events: its sends, a failed replay, then at most a wait that may be cut. */
  ghost predicate EventsShape(run: SendRun, turn: Turn) {
    var n := SendLength(run);
    && n <= |turn.events| <= n + 2
    && turn.events[..n] == SendEvents(run)
    && (|turn.events| > n ==> turn.events[n].Waited?)
    && (|turn.events| > n + 1 ==> turn.events[n + 1].WaitCut?)
  }

  lemma AfterSendShape(c: Config, a: Attempt, last: bool, backoff: int, unknown: Option<Error>, run: SendRun)
    requires a.draw < DRAWS
    ensures var turn := AfterSend(c, a, last, backoff, unknown, run);
            && EventsShape(run, turn)
            && (turn.Again? ==>
                  && !last && turn.refreshed == run.refreshed && |turn.events| == SendLength(run) + 1
                  && run.err.Some? && IsRetryableReplyError(run.err.value, c.hasKey))
            && (|turn.events| > SendLength(run) ==>
                  && !last && run.err.Some?
                  && (turn.events[SendLength(run)].delay, turn.events[SendLength(run)].byRetryAfter)
                     == RetryDelay(run.err.value, backoff, a.draw))
  {
  }

  /** The events after the sends. */
  function Pause(run: SendRun, turn: Turn): seq<Event>
    requires SendLength(run) <= |turn.events|
  {
    ReplayEvents(run) + turn.events[SendLength(run)..]
  }

  lemma ShapeSplits(run: SendRun, turn: Turn)
    requires EventsShape(run, turn)
    ensures turn.events == Events(run.sent) + Pause(run, turn)
    ensures forall i :: 0 <= i < |Pause(run, turn)| ==> !Pause(run, turn)[i].Sent?
    ensures Waits(Pause(run, turn)) == if |turn.events| > SendLength(run) then [turn.events[SendLength(run)]] else []
  {
    var n := SendLength(run);
    var tail := turn.events[n..];
    assert turn.events == turn.events[..n] + tail;
    Associative(Events(run.sent), ReplayEvents(run), tail);
    if run.replayFailed {
      assert ([ReplayFailed] + tail)[1..] == tail;
      WaitsSkip([ReplayFailed] + tail);
    } else {
      assert [] + tail == tail;
    }
    PauseWaits(tail);
  }

  lemma WaitsSkip(events: seq<Event>)
    requires events != [] && !events[0].Waited?
    ensures Waits(events) == Waits(events[1..])
  {
    assert [] + Waits(events[1..]) == Waits(events[1..]);
  }

  lemma PauseWaits(pause: seq<Event>)
    requires |pause| <= 2 && (|pause| > 0 ==> pause[0].Waited?) && (|pause| > 1 ==> !pause[1].Waited?)
    ensures Waits(pause) == if pause == [] then [] else [pause[0]]
  {
    if |pause| == 2 {
      WaitsSkip(pause[1..]);
      assert pause[1..][1..] == [];
    }
    if pause != [] {
      assert [pause[0]] + Waits(pause[1..]) == [pause[0]];
    }
  }

  lemma ShapeCounts(run: SendRun, turn: Turn)
    requires EventsShape(run, turn)
    ensures SendCount(turn.events) == |run.sent|
  {
    ShapeSplits(run, turn);
    SendCountEvents(run.sent);
    NoSends(Pause(run, turn));
    SendCountAppends(Events(run.sent), Pause(run, turn));
  }

  /** What one attempt spends: one send, and one more if it spends the replay. */
  ghost predicate WithinBudget(turn: Turn, last: bool, refreshed: bool) {
    && SendCount(turn.events) <= 1 + (if refreshed then 0 else 1)
    && (turn.Again? ==>
          && !last
          && (refreshed ==> turn.refreshed)
          && SendCount(turn.events) <= 1 + (if turn.refreshed && !refreshed then 1 else 0))
  }

  /** The +1 of the budget is the single re-signed replay, whichever attempt spends it. */
  lemma TurnBudget(c: Config, a: Attempt, last: bool, backoff: int, unknown: Option<Error>, refreshed: bool)
    requires PossibleAttempt(a)
    ensures WithinBudget(TakeTurn(c, a, last, backoff, unknown, refreshed), last, refreshed)
  {
    if BuildRequest(c, a).None? {
      var run := Send(c, a, 0, refreshed);
      SendShape(c, a, 0, refreshed);
      AfterSendShape(c, a, last, backoff, unknown, run);
      ShapeCounts(run, AfterSend(c, a, last, backoff, unknown, run));
    }
  }

  ghost predicate AttemptsWithinBudget(attempts: Attempts, n: nat) {
    forall k: nat, backoff, unknown, refreshed ::
      WithinBudget(attempts(k, backoff, unknown, refreshed), k >= n, refreshed)
  }

  lemma EveryAttemptWithinBudget(c: Config, env: nat -> Attempt)
    requires PossibleEnvironment(env)
    ensures AttemptsWithinBudget(AttemptsOf(c, env), MaxAttempts(c))
  {
    forall k: nat, backoff, unknown, refreshed
      ensures WithinBudget(AttemptsOf(c, env)(k, backoff, unknown, refreshed), k >= MaxAttempts(c), refreshed)
    {
      TurnBudget(c, env(k), k >= MaxAttempts(c), backoff, unknown, refreshed);
    }
  }

  lemma {:induction false} CallBudget(
    attempts: Attempts, n: nat, attempt: nat, backoff: int, unknown: Option<Error>, refreshed: bool)
    requires EndsBy(attempts, n) && AttemptsWithinBudget(attempts, n) && 1 <= attempt <= n
    ensures SendCount(Call(attempts, n, attempt, backoff, unknown, refreshed).trace)
            <= n - attempt + 1 + (if refreshed then 0 else 1)
    decreases n - attempt
  {
    var turn := attempts(attempt, backoff, unknown, refreshed);
    assert WithinBudget(turn, attempt >= n, refreshed);
    if turn.Again? {
      CallBudget(attempts, n, attempt + 1, NextBackoff(backoff), turn.unknown, turn.refreshed);
      SendCountAppends(
        turn.events, Call(attempts, n, attempt + 1, NextBackoff(backoff), turn.unknown, turn.refreshed).trace);
    }
  }

  // ----- Waiting

  function Waits(trace: seq<Event>): seq<Event> {
    if trace == [] then []
    else (if trace[0].Waited? then [trace[0]] else []) + Waits(trace[1..])
  }

  function TotalWait(waits: seq<Event>): int
    requires forall i :: 0 <= i < |waits| ==> waits[i].Waited?
  {
    if waits == [] then 0 else waits[0].delay + TotalWait(waits[1..])
  }

  lemma {:induction false} WaitsAppend(front: seq<Event>, back: seq<Event>)
    ensures Waits(front + back) == Waits(front) + Waits(back)
  {
    if front == [] {
      assert front + back == back;
    } else {
      assert (front + back)[1..] == front[1..] + back;
      WaitsAppend(front[1..], back);
      Associative(if front[0].Waited? then [front[0]] else [], Waits(front[1..]), Waits(back));
    }
  }

  lemma {:induction false} EventsHaveNoWaits(sent: seq<Exchange>)
    ensures Waits(Events(sent)) == []
  {
    if sent != [] {
      assert Events(sent)[1..] == Events(sent[1..]);
      EventsHaveNoWaits(sent[1..]);
    }
  }

  lemma ShapeWaits(run: SendRun, turn: Turn)
    requires EventsShape(run, turn)
    ensures Waits(turn.events) == if |turn.events| > SendLength(run) then [turn.events[SendLength(run)]] else []
  {
    ShapeSplits(run, turn);
    EventsHaveNoWaits(run.sent);
    WaitsAppend(Events(run.sent), Pause(run, turn));
    assert [] + Waits(Pause(run, turn)) == Waits(Pause(run, turn));
  }

  /** At most one wait, none after the last attempt, one before the next, and within its bounds. */
  ghost predicate TurnWaitsOnce(turn: Turn, last: bool, k: nat)
    requires k >= 1
  {
    var waits := Waits(turn.events);
    && |waits| <= 1
    && (last ==> waits == [])
    && (turn.Again? ==> |waits| == 1)
    && (waits != [] ==>
          && waits[0].Waited?
          && DelayInBounds(k, waits[0].delay, waits[0].byRetryAfter)
          && 0 <= waits[0].delay <= MAX_REPLY_RETRY_AFTER)
  }

  lemma TurnWaits(c: Config, a: Attempt, last: bool, k: nat, unknown: Option<Error>, refreshed: bool)
    requires PossibleAttempt(a) && k >= 1
    ensures TurnWaitsOnce(TakeTurn(c, a, last, Backoff(k), unknown, refreshed), last, k)
  {
    if BuildRequest(c, a).None? {
      var run := Send(c, a, 0, refreshed);
      AfterSendShape(c, a, last, Backoff(k), unknown, run);
      ShapeWaits(run, AfterSend(c, a, last, Backoff(k), unknown, run));
      if run.err.Some? {
        RetryDelayInBounds(run.err.value, k, a.draw);
      }
    }
  }

  /** Five seconds for each of `n` waits. */
  function WaitBudget(n: int): int {
    n * 5_000_000_000
  }

  /** Wait `i` of the list is retry `k + i`; together they stay within five seconds each. */
  ghost predicate WaitsInBounds(k: nat, waits: seq<Event>)
    requires k >= 1
  {
    && (forall i :: 0 <= i < |waits| ==>
          waits[i].Waited? && DelayInBounds(k + i, waits[i].delay, waits[i].byRetryAfter))
    && 0 <= TotalWait(waits) <= WaitBudget(|waits|)
  }

  ghost predicate AttemptsWaitOnce(attempts: Attempts, n: nat) {
    forall k: nat, unknown, refreshed :: k >= 1 ==>
      TurnWaitsOnce(attempts(k, Backoff(k), unknown, refreshed), k >= n, k)
  }

  lemma EveryAttemptWaits(c: Config, env: nat -> Attempt)
    requires PossibleEnvironment(env)
    ensures AttemptsWaitOnce(AttemptsOf(c, env), MaxAttempts(c))
  {
    forall k: nat, unknown, refreshed | k >= 1
      ensures TurnWaitsOnce(AttemptsOf(c, env)(k, Backoff(k), unknown, refreshed), k >= MaxAttempts(c), k)
    {
      TurnWaits(c, env(k), k >= MaxAttempts(c), k, unknown, refreshed);
    }
  }

  lemma {:induction false} CallWaits(
    attempts: Attempts, n: nat, attempt: nat, unknown: Option<Error>, refreshed: bool)
    requires EndsBy(attempts, n) && AttemptsWaitOnce(attempts, n) && 1 <= attempt <= n
    ensures var waits := Waits(Call(attempts, n, attempt, Backoff(attempt), unknown, refreshed).trace);
            |waits| <= n - attempt && WaitsInBounds(attempt, waits)
    decreases n - attempt
  {
    var turn := attempts(attempt, Backoff(attempt), unknown, refreshed);
    assert TurnWaitsOnce(turn, attempt >= n, attempt);
    var head := Waits(turn.events);
    if turn.Again? {
      assert attempt < n;
      BackoffDoubles(attempt);
      CallWaits(attempts, n, attempt + 1, turn.unknown, turn.refreshed);
      var rest := Call(attempts, n, attempt + 1, Backoff(attempt + 1), turn.unknown, turn.refreshed).trace;
      WaitsAppend(turn.events, rest);
      WaitsJoin(attempt, head, Waits(rest));
    } else {
      WaitsJoin(attempt, head, []);
      assert head + [] == head;
    }
  }

  /**
    An attempt that is not the last ends the call only on an exchange that is not retried; it
    waits once before the next attempt, and the last one does not wait.
   */
  ghost predicate GivesUpJustly(c: Config, turn: Turn, last: bool) {
    && turn.events != []
    && (turn.Again? ==> |Waits(turn.events)| == 1)
    && (last ==> Waits(turn.events) == [])
    && (turn.Finished? && turn.err.Some? && !last && Last(turn.events).Sent? ==>
          !IsRetried(c, Last(turn.events).exchange))
  }

  /** The error of the sends is retryable whenever their last exchange is one to retry. */
  ghost predicate RetriesItsLast(c: Config, run: SendRun) {
    && run.sent != []
    && (run.err.Some? && IsRetried(c, Last(run.sent)) ==> IsRetryableReplyError(run.err.value, c.hasKey))
  }

  lemma SendRetriesItsLast(c: Config, a: Attempt, refreshed: bool)
    requires PossibleAttempt(a)
    ensures RetriesItsLast(c, Send(c, a, 0, refreshed))
  {
    var run := Send(c, a, 0, refreshed);
    SendShape(c, a, 0, refreshed);
    RetriedExactly(c, Last(run.sent));
  }

  lemma AfterSendGivesUp(c: Config, a: Attempt, last: bool, backoff: int, unknown: Option<Error>, run: SendRun)
    requires a.draw < DRAWS && RetriesItsLast(c, run)
    ensures GivesUpJustly(c, AfterSend(c, a, last, backoff, unknown, run), last)
  {
    AfterSendShape(c, a, last, backoff, unknown, run);
    ShapeWaits(run, AfterSend(c, a, last, backoff, unknown, run));
    if run.err.Some? && (!IsRetryableReplyError(run.err.value, c.hasKey) || last) {
      assert !run.replayFailed ==> Last(SendEvents(run)) == Sent(Last(run.sent));
    }
  }

  lemma TurnGivesUp(c: Config, a: Attempt, last: bool, backoff: int, unknown: Option<Error>, refreshed: bool)
    requires PossibleAttempt(a)
    ensures GivesUpJustly(c, TakeTurn(c, a, last, backoff, unknown, refreshed), last)
  {
    if BuildRequest(c, a).None? {
      SendRetriesItsLast(c, a, refreshed);
      AfterSendGivesUp(c, a, last, backoff, unknown, Send(c, a, 0, refreshed));
    }
  }

  ghost predicate AttemptsGiveUpJustly(c: Config, attempts: Attempts, n: nat) {
    forall k: nat, backoff, unknown, refreshed ::
      GivesUpJustly(c, attempts(k, backoff, unknown, refreshed), k >= n)
  }

  ghost predicate EndsRetryably(c: Config, run: CallRun) {
    run.err.Some? && run.trace != [] && Last(run.trace).Sent? && IsRetried(c, Last(run.trace).exchange)
  }

  lemma {:induction false} CallGivesUp(
    c: Config, attempts: Attempts, n: nat, attempt: nat, backoff: int, unknown: Option<Error>, refreshed: bool)
    requires EndsBy(attempts, n) && AttemptsGiveUpJustly(c, attempts, n) && 1 <= attempt <= n
    ensures var run := Call(attempts, n, attempt, backoff, unknown, refreshed);
            run.trace != [] && (EndsRetryably(c, run) ==> |Waits(run.trace)| == n - attempt)
    decreases n - attempt
  {
    var turn := attempts(attempt, backoff, unknown, refreshed);
    assert GivesUpJustly(c, turn, attempt >= n);
    if turn.Again? {
      CallGivesUp(c, attempts, n, attempt + 1, NextBackoff(backoff), turn.unknown, turn.refreshed);
      EndJoins(
        c, turn.events, Call(attempts, n, attempt + 1, NextBackoff(backoff), turn.unknown, turn.refreshed),
        n - attempt - 1);
    }
  }

  /** Going round adds one wait in front and leaves the end of the trace alone. */
  lemma EndJoins(c: Config, front: seq<Event>, rest: CallRun, waits: nat)
    requires rest.trace != [] && |Waits(front)| == 1
    requires EndsRetryably(c, rest) ==> |Waits(rest.trace)| == waits
    ensures EndsRetryably(c, CallRun(rest.err, front + rest.trace)) ==> |Waits(front + rest.trace)| == waits + 1
  {
    WaitsAppend(front, rest.trace);
    assert Last(front + rest.trace) == Last(rest.trace);
  }

  lemma WaitsJoin(k: nat, head: seq<Event>, rest: seq<Event>)
    requires k >= 1 && |head| <= 1 && WaitsInBounds(k + 1, rest)
    requires head != [] ==>
               && head[0].Waited?
               && DelayInBounds(k, head[0].delay, head[0].byRetryAfter)
               && 0 <= head[0].delay <= MAX_REPLY_RETRY_AFTER
    ensures head != [] ==> WaitsInBounds(k, head + rest)
    ensures head == [] && rest == [] ==> WaitsInBounds(k, head + rest)
  {
    if head != [] {
      assert head == [head[0]];
      WaitsPrepend(k, head[0], rest);
    }
  }

  lemma WaitsPrepend(k: nat, first: Event, rest: seq<Event>)
    requires k >= 1 && first.Waited? && DelayInBounds(k, first.delay, first.byRetryAfter)
    requires 0 <= first.delay <= MAX_REPLY_RETRY_AFTER
    requires WaitsInBounds(k + 1, rest)
    ensures WaitsInBounds(k, [first] + rest)
  {
    var all := [first] + rest;
    assert all[1..] == rest;
    forall i | 0 <= i < |all|
      ensures all[i].Waited? && DelayInBounds(k + i, all[i].delay, all[i].byRetryAfter)
    {
      if i > 0 {
        assert all[i] == rest[i - 1];
        assert k + 1 + (i - 1) == k + i;
      }
    }
  }

  /**
    For every environment: wait `i` lies between half its backoff and its backoff, or between
    its backoff and five seconds when Retry-After set it, and all waiting together is at most
    five seconds per retry.
   */
  lemma RetryTimingBound(c: Config, env: nat -> Attempt)
    requires PossibleEnvironment(env)
    ensures var waits := Waits(RetryPostRun(c, env).trace);
            && WaitsInBounds(1, waits)
            && 0 <= TotalWait(waits) <= WaitBudget(MaxAttempts(c) - 1)
  {
    assert Backoff(1) == INITIAL_BACKOFF;
    AttemptsEnd(c, env);
    EveryAttemptWaits(c, env);
    CallWaits(AttemptsOf(c, env), MaxAttempts(c), 1, None, false);
  }

  /** A failed call that ends on an exchange it would retry has used up all its attempts. */
  lemma GivesUpOnlyWhenExhausted(c: Config, env: nat -> Attempt)
    requires PossibleEnvironment(env)
    ensures EndsRetryably(c, RetryPostRun(c, env)) ==> |Waits(RetryPostRun(c, env).trace)| == MaxAttempts(c) - 1
  {
    forall k: nat, backoff, unknown, refreshed
      ensures GivesUpJustly(c, AttemptsOf(c, env)(k, backoff, unknown, refreshed), k >= MaxAttempts(c))
    {
      TurnGivesUp(c, env(k), k >= MaxAttempts(c), backoff, unknown, refreshed);
    }
    AttemptsEnd(c, env);
    CallGivesUp(c, AttemptsOf(c, env), MaxAttempts(c), 1, INITIAL_BACKOFF, None, false);
  }
}
