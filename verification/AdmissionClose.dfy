/**
  The webhook handler's admission and close protocol under any interleaving of requests
  and closers. The read-locked section of `admitMessage` is not one step: WaitGroup.Wait
  does not take the lock, so the check, the Add and the unlock are separate.
 */
module AdmissionClose {
  import opened Common

  type Id = nat

  /** One call of `admitMessage`. */
  datatype Admission =
    | Reading      // holds the read lock, has not looked at closed
    | Passed       // saw closed == false, has not called Add
    | Added        // called Add, still holds the read lock
    | Refused      // saw closed == true, still holds the read lock
    | Released     // dropped the read lock, about to poll closedCh
    | Admitting    // inside MessageAdmitter.AdmitMessage
    | Leaving      // about to call Done
    | Exited

  /** One call of `CloseContext`. */
  datatype Closer =
    | Entering     // before closeOnce.Do
    | Locking      // runs the once body, waits for the write lock
    | Holding      // holds the write lock
    | ClosedSet    // wrote closed
    | ChannelShut  // closed closedCh
    | Unlocked     // dropped the write lock, about to start the waiter
    | Watching     // in the select on closeDone and its grace context
    | Graced       // its grace context ended and it cancelled the run context
    | ReturnedNil
    | ReturnedError

  /** The goroutine that drains: Wait, then cancel the run context, then close closeDone. */
  datatype Waiter = NotStarted | InWait | Drained | Cancelled | Finished

  datatype Once = Fresh | Running(closer: Id) | Complete

  datatype State = State(
    admissions: map<Id, Admission>,
    closers: map<Id, Closer>,
    closed: bool,
    channelCloses: nat,
    count: int,
    once: Once,
    waiter: Waiter,
    runCancelled: bool,
    graceEnded: set<Id>)

  datatype Action =
    | Arrive(id: Id)
    | Look(id: Id)
    | Add(id: Id)
    | Unlock(id: Id)
    | Poll(id: Id, requestEnded: bool)
    | Admitted(id: Id)
    | Done(id: Id)
    | Close(closer: Id)
    | EnterOnce(closer: Id)
    | Lock(closer: Id)
    | SetClosed(closer: Id)
    | ShutChannel(closer: Id)
    | Release(closer: Id)
    | StartWaiter(closer: Id)
    | WaitReturns
    | CancelRun
    | ShutDone
    | SeeDone(closer: Id)
    | GraceEnds(closer: Id)
    | GiveUp(closer: Id)

  const INIT := State(map[], map[], false, 0, 0, Fresh, NotStarted, false, {})

  predicate HoldsReadLock(a: Admission) {
    a.Reading? || a.Passed? || a.Added? || a.Refused?
  }

  predicate HoldsWriteLock(c: Closer) {
    c.Holding? || c.ClosedSet? || c.ChannelShut?
  }

  predicate IsAt(s: State, id: Id, a: Admission) {
    id in s.admissions && s.admissions[id] == a
  }

  predicate CloserIsAt(s: State, id: Id, c: Closer) {
    id in s.closers && s.closers[id] == c
  }

  predicate Readers(s: State) {
    exists id :: id in s.admissions && HoldsReadLock(s.admissions[id])
  }

  predicate Writers(s: State) {
    exists id :: id in s.closers && HoldsWriteLock(s.closers[id])
  }

  predicate Enabled(s: State, a: Action) {
    match a
    case Arrive(id) => id !in s.admissions && !Writers(s)
    case Look(id) => IsAt(s, id, Reading)
    case Add(id) => IsAt(s, id, Passed)
    case Unlock(id) => IsAt(s, id, Added) || IsAt(s, id, Refused)
    case Poll(id, _) => IsAt(s, id, Released)
    case Admitted(id) => IsAt(s, id, Admitting)
    case Done(id) => IsAt(s, id, Leaving)
    case Close(c) => c !in s.closers
    case EnterOnce(c) => CloserIsAt(s, c, Entering) && !s.once.Running?
    case Lock(c) => CloserIsAt(s, c, Locking) && !Readers(s) && !Writers(s)
    case SetClosed(c) => CloserIsAt(s, c, Holding)
    case ShutChannel(c) => CloserIsAt(s, c, ClosedSet)
    case Release(c) => CloserIsAt(s, c, ChannelShut)
    case StartWaiter(c) => CloserIsAt(s, c, Unlocked)
    case WaitReturns => s.waiter.InWait? && s.count == 0
    case CancelRun => s.waiter.Drained?
    case ShutDone => s.waiter.Cancelled?
    case SeeDone(c) => (CloserIsAt(s, c, Watching) || CloserIsAt(s, c, Graced)) && s.waiter.Finished?
    case GraceEnds(c) => CloserIsAt(s, c, Watching)
    case GiveUp(c) => CloserIsAt(s, c, Graced) && !s.waiter.Finished?
  }

  function Put(s: State, id: Id, a: Admission): State {
    s.(admissions := s.admissions[id := a])
  }

  function PutCloser(s: State, id: Id, c: Closer): State {
    s.(closers := s.closers[id := c])
  }

  function Apply(s: State, a: Action): State
    requires Enabled(s, a)
  {
    match a
    case Arrive(id) => Put(s, id, Reading)
    case Look(id) => Put(s, id, if s.closed then Refused else Passed)
    case Add(id) => Put(s, id, Added).(count := s.count + 1)
    case Unlock(id) => Put(s, id, if s.admissions[id].Added? then Released else Exited)
    case Poll(id, requestEnded) => Put(s, id, if s.channelCloses > 0 || requestEnded then Leaving else Admitting)
    case Admitted(id) => Put(s, id, Leaving)
    case Done(id) => Put(s, id, Exited).(count := s.count - 1)
    case Close(c) => PutCloser(s, c, Entering)
    case EnterOnce(c) =>
      if s.once.Fresh? then PutCloser(s, c, Locking).(once := Running(c)) else PutCloser(s, c, Watching)
    case Lock(c) => PutCloser(s, c, Holding)
    case SetClosed(c) => PutCloser(s, c, ClosedSet).(closed := true)
    case ShutChannel(c) => PutCloser(s, c, ChannelShut).(channelCloses := s.channelCloses + 1)
    case Release(c) => PutCloser(s, c, Unlocked)
    case StartWaiter(c) => PutCloser(s, c, Watching).(waiter := InWait, once := Complete)
    case WaitReturns => s.(waiter := Drained)
    case CancelRun => s.(waiter := Cancelled, runCancelled := true)
    case ShutDone => s.(waiter := Finished)
    case SeeDone(c) => PutCloser(s, c, ReturnedNil)
    case GraceEnds(c) => PutCloser(s, c, Graced).(runCancelled := true, graceEnded := s.graceEnded + {c})
    case GiveUp(c) => PutCloser(s, c, ReturnedError)
  }

  predicate ValidRun(s: State, run: seq<Action>)
    decreases |run|
  {
    run == [] || (Enabled(s, run[0]) && ValidRun(Apply(s, run[0]), run[1..]))
  }

  function After(s: State, run: seq<Action>): State
    requires ValidRun(s, run)
    decreases |run|
  {
    if run == [] then s else After(Apply(s, run[0]), run[1..])
  }

  // ----- Invariant

  /** Between Add and Done. */
  predicate Counted(a: Admission) {
    a.Added? || a.Released? || a.Admitting? || a.Leaving?
  }

  ghost function InFlight(s: State): set<Id> {
    set id | id in s.admissions && Counted(s.admissions[id])
  }

  ghost predicate CountIsInFlight(s: State) {
    s.count == |InFlight(s)|
  }

  ghost predicate LockExcludes(s: State) {
    forall a, c :: a in s.admissions && c in s.closers && HoldsReadLock(s.admissions[a]) ==> !HoldsWriteLock(s.closers[c])
  }

  /** Once `closed` is written nobody stands between the check and the Add, or in the Add's section. */
  ghost predicate ClosedStopsAdds(s: State) {
    s.closed ==> forall a :: a in s.admissions ==> !s.admissions[a].Passed? && !s.admissions[a].Added?
  }

  predicate RunsOnce(c: Closer) {
    c.Locking? || c.Holding? || c.ClosedSet? || c.ChannelShut? || c.Unlocked?
  }

  /** The once body has one runner, and its progress is the handler's. */
  ghost predicate OnceIsOnce(s: State) {
    && (forall c :: c in s.closers && RunsOnce(s.closers[c]) ==> s.once == Running(c))
    && (s.once.Running? ==>
          && s.once.closer in s.closers && RunsOnce(s.closers[s.once.closer])
          && s.waiter.NotStarted?
          && (s.closed <==> !s.closers[s.once.closer].Locking? && !s.closers[s.once.closer].Holding?)
          && (s.channelCloses == if s.closers[s.once.closer].ChannelShut? || s.closers[s.once.closer].Unlocked? then 1 else 0))
    && (s.once.Fresh? ==> !s.closed && s.channelCloses == 0 && s.waiter.NotStarted?)
    && (s.once.Complete? ==> s.closed && s.channelCloses == 1 && !s.waiter.NotStarted?)
  }

  predicate Emptied(w: Waiter) {
    w.Drained? || w.Cancelled? || w.Finished?
  }

  ghost predicate DrainedIsEmpty(s: State) {
    Emptied(s.waiter) ==> s.closed && InFlight(s) == {}
  }

  ghost predicate CancelHasCause(s: State) {
    s.runCancelled ==> Emptied(s.waiter) || s.graceEnded != {}
  }

  ghost predicate NilMeansFinished(s: State) {
    forall c :: c in s.closers && s.closers[c].ReturnedNil? ==> s.waiter.Finished?
  }

  ghost predicate Inv(s: State) {
    && CountIsInFlight(s)
    && LockExcludes(s)
    && ClosedStopsAdds(s)
    && OnceIsOnce(s)
    && DrainedIsEmpty(s)
    && CancelHasCause(s)
    && NilMeansFinished(s)
  }

  lemma AdmissionStepKeepsInv(s: State, a: Action)
    requires Inv(s) && Enabled(s, a)
    requires a.Arrive? || a.Look? || a.Unlock? || a.Poll? || a.Admitted?
    ensures Inv(Apply(s, a))
  {
    var s' := Apply(s, a);
    assert InFlight(s') == InFlight(s);
  }

  lemma AddKeepsInv(s: State, id: Id)
    requires Inv(s) && Enabled(s, Add(id))
    ensures Inv(Apply(s, Add(id)))
  {
    var s' := Apply(s, Add(id));
    assert InFlight(s') == InFlight(s) + {id} && id !in InFlight(s);
  }

  lemma DoneKeepsInv(s: State, id: Id)
    requires Inv(s) && Enabled(s, Done(id))
    ensures Inv(Apply(s, Done(id)))
  {
    var s' := Apply(s, Done(id));
    assert InFlight(s') == InFlight(s) - {id} && id in InFlight(s);
  }

  lemma OnceStepKeepsInv(s: State, a: Action)
    requires Inv(s) && Enabled(s, a)
    requires a.Close? || a.EnterOnce? || a.Lock? || a.SetClosed? || a.ShutChannel? || a.Release? || a.StartWaiter?
    ensures Inv(Apply(s, a))
  {
    var s' := Apply(s, a);
    assert InFlight(s') == InFlight(s);
  }

  lemma DrainStepKeepsInv(s: State, a: Action)
    requires Inv(s) && Enabled(s, a)
    requires a.WaitReturns? || a.CancelRun? || a.ShutDone? || a.SeeDone? || a.GraceEnds? || a.GiveUp?
    ensures Inv(Apply(s, a))
  {
    var s' := Apply(s, a);
    assert InFlight(s') == InFlight(s);
  }

  lemma StepKeepsInv(s: State, a: Action)
    requires Inv(s) && Enabled(s, a)
    ensures Inv(Apply(s, a))
  {
    match a
    case Add(id) => AddKeepsInv(s, id);
    case Done(id) => DoneKeepsInv(s, id);
    case _ =>
      if a.Arrive? || a.Look? || a.Unlock? || a.Poll? || a.Admitted? {
        AdmissionStepKeepsInv(s, a);
      } else if a.WaitReturns? || a.CancelRun? || a.ShutDone? || a.SeeDone? || a.GraceEnds? || a.GiveUp? {
        DrainStepKeepsInv(s, a);
      } else {
        OnceStepKeepsInv(s, a);
      }
  }

  /** Every state of every run satisfies the invariant. */
  lemma {:induction false} RunsKeepInv(s: State, run: seq<Action>)
    requires Inv(s) && ValidRun(s, run)
    ensures Inv(After(s, run))
    decreases |run|
  {
    if run != [] {
      StepKeepsInv(s, run[0]);
      RunsKeepInv(Apply(s, run[0]), run[1..]);
    }
  }

  lemma InitHasInv()
    ensures Inv(INIT)
  {
    assert InFlight(INIT) == {};
  }

  // ----- What closers and requests rely on

  /**
    The WaitGroup is used as it must be: its count is the number of admissions between Add
    and Done, so Done never takes it below zero; no Add happens once Wait may have started;
    and `closedCh` is closed at most once.
   */
  lemma WaitGroupDiscipline(run: seq<Action>, id: Id)
    requires ValidRun(INIT, run)
    ensures var s := After(INIT, run);
            && s.count == |InFlight(s)|
            && (Enabled(s, Done(id)) ==> s.count > 0)
            && (Enabled(s, Add(id)) ==> s.waiter.NotStarted? && !s.closed)
            && s.channelCloses <= 1
  {
    InitHasInv();
    RunsKeepInv(INIT, run);
    var s := After(INIT, run);
    if Enabled(s, Done(id)) {
      assert id in InFlight(s);
    }
  }

  lemma {:induction false} FinishedIsForever(s: State, run: seq<Action>)
    requires Inv(s) && s.waiter.Finished? && ValidRun(s, run)
    ensures After(s, run).waiter.Finished?
    decreases |run|
  {
    if run != [] {
      StepKeepsInv(s, run[0]);
      assert Apply(s, run[0]).waiter.Finished?;
      FinishedIsForever(Apply(s, run[0]), run[1..]);
    }
  }

  /** Once CloseContext has returned nil no admission is running, then or in any continuation. */
  lemma NilMeansDrainedForever(run: seq<Action>, more: seq<Action>, closer: Id)
    requires ValidRun(INIT, run) && ValidRun(After(INIT, run), more)
    requires CloserIsAt(After(INIT, run), closer, ReturnedNil)
    ensures var later := After(After(INIT, run), more);
            InFlight(later) == {} && later.closed && forall id :: !IsAt(later, id, Admitting)
  {
    InitHasInv();
    RunsKeepInv(INIT, run);
    FinishedIsForever(After(INIT, run), more);
    RunsKeepInv(After(INIT, run), more);
    var later := After(After(INIT, run), more);
    forall id
      ensures !IsAt(later, id, Admitting)
    {
      assert id !in InFlight(later);
    }
  }

  /** The run context is cancelled only once the drain has completed or after some closer's grace ended. */
  lemma CancelOnlyAfterDrainOrGrace(run: seq<Action>)
    requires ValidRun(INIT, run) && After(INIT, run).runCancelled
    ensures var e := After(INIT, run);
            || (Emptied(e.waiter) && e.closed && InFlight(e) == {})
            || e.graceEnded != {}
  {
    InitHasInv();
    RunsKeepInv(INIT, run);
  }
}
