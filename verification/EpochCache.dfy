/**
  The single-flight epoch cache under any interleaving of callers: one step per
  critical section of the mutex, per channel operation, and per rejected epoch.
 */
module EpochCache {
  import opened Common
  import opened ReplyCall

  type Caller = nat
  type Channel = nat

  /** Where one caller of `authEpoch` stands. */
  datatype Pc =
    | Idle
    | Waiting(channel: Channel)
    | Leading(channel: Channel)
    | Returned(epoch: string)
    | Failed

  datatype State = State(
    value: string,
    loading: Option<Channel>,
    made: nat,
    closed: set<Channel>,
    callers: map<Caller, Pc>,
    loads: nat,
    invalidations: nat)

  datatype Action =
    | Call(caller: Caller)
    | Probe(caller: Caller)
    | Wake(caller: Caller)
    | Expire(caller: Caller)
    | Finish(caller: Caller, outcome: FetchOutcome)
    | Reject(used: string)

  const INIT := State("", None, 0, {}, map[], 0, 0)

  function At(s: State, t: Caller): Pc {
    if t in s.callers then s.callers[t] else Idle
  }

  function Move(s: State, t: Caller, pc: Pc): State {
    s.(callers := s.callers[t := pc])
  }

  predicate Enabled(s: State, a: Action) {
    match a
    case Call(t) => At(s, t).Returned? || At(s, t).Failed?
    case Probe(t) => At(s, t).Idle?
    case Wake(t) => At(s, t).Waiting? && At(s, t).channel in s.closed
    case Expire(t) => At(s, t).Idle? || At(s, t).Waiting?
    case Finish(t, _) => At(s, t).Leading?
    case Reject(used) => ValidAuthEpoch(used)
  }

  function Apply(s: State, a: Action): State
    requires Enabled(s, a)
  {
    match a
    case Call(t) => Move(s, t, Idle)
    case Probe(t) =>
      if s.value != "" then Move(s, t, Returned(s.value))
      else if s.loading.Some? then Move(s, t, Waiting(s.loading.value))
      else Move(s, t, Leading(s.made)).(loading := Some(s.made), made := s.made + 1)
    case Wake(t) => Move(s, t, Idle)
    case Expire(t) => Move(s, t, Failed)
    case Finish(t, outcome) =>
      var s' := s.(loading := None, closed := s.closed + {At(s, t).channel});
      var fetched := FetchAuthEpoch(outcome);
      if fetched.Ok? then
        Move(s', t, Returned(fetched.value)).(value := fetched.value, loads := s.loads + 1)
      else
        Move(s', t, Failed)
    case Reject(used) =>
      if s.value == used then s.(value := "", invalidations := s.invalidations + 1) else s
  }

  predicate ValidRun(s: State, run: seq<Action>)
    decreases |run|
  {
    run == [] || (Enabled(s, run[0]) && ValidRun(Apply(s, run[0]), run[1..]))
  }

  function After(s: State, run: seq<Action>): State
    requires ValidRun(s, run)
    decreases |run|
  {
    if run == [] then s else After(Apply(s, run[0]), run[1..])
  }

  // ----- Invariant

  /** A discovery in flight has an empty cache, an open channel and a leader. */
  ghost predicate LoadingHasLeader(s: State) {
    s.loading.Some? ==>
      && s.value == ""
      && s.loading.value < s.made && s.loading.value !in s.closed
      && exists t :: t in s.callers && s.callers[t] == Leading(s.loading.value)
  }

  /** Leaders lead the current discovery, and there is one of them. */
  ghost predicate LeadersAgree(s: State) {
    && (forall t :: t in s.callers && s.callers[t].Leading? ==> s.loading == Some(s.callers[t].channel))
    && (forall t, u :: t in s.callers && u in s.callers && s.callers[t].Leading? && s.callers[u].Leading? ==> t == u)
  }

  /** A waiter is parked on the current channel or on one already closed. */
  ghost predicate WaitersAreWoken(s: State) {
    forall t :: t in s.callers && s.callers[t].Waiting? ==>
      s.callers[t].channel in s.closed || s.loading == Some(s.callers[t].channel)
  }

  ghost predicate EpochsAreValid(s: State) {
    && (s.value == "" || ValidAuthEpoch(s.value))
    && forall t :: t in s.callers && s.callers[t].Returned? ==> ValidAuthEpoch(s.callers[t].epoch)
  }

  ghost predicate LoadsBalance(s: State) {
    s.loads == s.invalidations + (if s.value != "" then 1 else 0)
  }

  ghost predicate ChannelsOpened(s: State) {
    forall ch :: ch in s.closed ==> ch < s.made
  }

  ghost predicate Inv(s: State) {
    && LoadingHasLeader(s)
    && LeadersAgree(s)
    && WaitersAreWoken(s)
    && EpochsAreValid(s)
    && LoadsBalance(s)
    && ChannelsOpened(s)
  }

  lemma ProbeKeepsInv(s: State, t: Caller)
    requires Inv(s) && Enabled(s, Probe(t))
    ensures Inv(Apply(s, Probe(t)))
  {
    var s' := Apply(s, Probe(t));
    if s'.loading.Some? {
      if s.loading.Some? {
        var leader :| leader in s.callers && s.callers[leader] == Leading(s.loading.value);
        assert leader in s'.callers && s'.callers[leader] == Leading(s'.loading.value);
      } else {
        assert t in s'.callers && s'.callers[t] == Leading(s'.loading.value);
      }
    }
  }

  lemma StepKeepsInv(s: State, a: Action)
    requires Inv(s) && Enabled(s, a)
    ensures Inv(Apply(s, a))
  {
    match a
    case Probe(t) => ProbeKeepsInv(s, t);
    case Finish(_, _) =>
    case _ =>
      var s' := Apply(s, a);
      if s.loading.Some? {
        var leader :| leader in s.callers && s.callers[leader] == Leading(s.loading.value);
        assert leader in s'.callers && s'.callers[leader] == Leading(s.loading.value);
      }
  }

  /** Every state of every run satisfies the invariant. */
  lemma {:induction false} RunsKeepInv(s: State, run: seq<Action>)
    requires Inv(s) && ValidRun(s, run)
    ensures Inv(After(s, run))
    decreases |run|
  {
    if run != [] {
      StepKeepsInv(s, run[0]);
      RunsKeepInv(Apply(s, run[0]), run[1..]);
    }
  }

  // ----- What callers rely on

  /**
    Single flight, valid epochs and balanced loads, for any number of interleaved callers:
    two leaders are one, a returned or cached epoch is 32 lower-case hex digits, and
    every successful load is either still cached or was invalidated.
   */
  lemma SingleFlight(run: seq<Action>, t: Caller, u: Caller)
    requires ValidRun(INIT, run)
    ensures var s := After(INIT, run);
            && (At(s, t).Leading? && At(s, u).Leading? ==> t == u)
            && (At(s, t).Leading? ==> s.value == "" && s.loading == Some(At(s, t).channel))
            && (At(s, t).Returned? ==> ValidAuthEpoch(At(s, t).epoch))
            && (s.value != "" ==> ValidAuthEpoch(s.value))
            && s.loads == s.invalidations + (if s.value != "" then 1 else 0)
  {
    RunsKeepInv(INIT, run);
  }

  /** The channel a leader closes was open, so no channel is closed twice. */
  lemma FinishClosesOpenChannel(run: seq<Action>, t: Caller)
    requires ValidRun(INIT, run) && At(After(INIT, run), t).Leading?
    ensures At(After(INIT, run), t).channel !in After(INIT, run).closed
  {
    RunsKeepInv(INIT, run);
  }

  /** No lost wake-up: a waiter can go on now, or as soon as the one leader finishes, however it ends. */
  lemma NoLostWakeUp(run: seq<Action>, t: Caller)
    requires ValidRun(INIT, run) && At(After(INIT, run), t).Waiting?
    ensures var s := After(INIT, run);
            || Enabled(s, Wake(t))
            || exists leader :: At(s, leader).Leading?
                 && forall outcome ::
                      var s' := Apply(s, Finish(leader, outcome)); Enabled(s', Wake(t))
  {
    RunsKeepInv(INIT, run);
    var s := After(INIT, run);
    if !Enabled(s, Wake(t)) {
      var leader :| leader in s.callers && s.callers[leader] == Leading(s.loading.value);
      forall outcome
        ensures Enabled(Apply(s, Finish(leader, outcome)), Wake(t))
      {
        assert At(s, leader) == Leading(s.loading.value) && leader != t;
      }
      assert At(s, leader).Leading?;
    }
  }

  /**
    A cached epoch survives every run that does not reject that very epoch: late rejections
    of older epochs, however many, never clear a newer one, and no leader overwrites it.
   */
  lemma {:induction false} CachedUntilRejected(s: State, run: seq<Action>)
    requires Inv(s) && s.value != "" && ValidRun(s, run)
    requires forall i :: 0 <= i < |run| ==> run[i] != Reject(s.value)
    ensures After(s, run).value == s.value
    decreases |run|
  {
    if run != [] {
      StepKeepsInv(s, run[0]);
      var s' := Apply(s, run[0]);
      assert s'.value == s.value;
      assert forall i :: 0 <= i < |run[1..]| ==> run[1..][i] == run[i + 1];
      CachedUntilRejected(s', run[1..]);
    }
  }
}
