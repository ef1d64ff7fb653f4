/**
  The H3 dial guard's stale-while-refresh allowset, under any interleaving of dials and
  background refreshes and any monotone clock: one step per critical section, channel
  operation and DNS answer.
 */
module DialGuard {
  import opened Common

  type Key = string
  type Dialer = nat
  type Channel = nat

  /** A refresh goroutine, named by the channel made for it. */
  datatype Refresh =
    | Resolving
    | Storing(answer: Option<set<Key>>)
    | Ending
    | Closing(done: Option<Channel>)
    | Ended

  datatype Reason =
    | LiveAllowset(generation: nat)
    | AfterRefresh(channel: Channel, generation: nat)
    | ContextDone

  /** One call of `allow`. */
  datatype Dial =
    | Asking(key: Key)
    | Began(key: Key, done: Option<Channel>)
    | Parked(key: Key, channel: Channel)
    | Rechecking(key: Key, channel: Channel)
    | Allowed(key: Key, generation: nat)
    | Denied(key: Key, sawExpired: bool, reason: Reason)

  /**
    The guard's fields, then history: every successful resolve in order, how many of them
    have been stored, when the guard was initialized and when each refresh started and ended,
    and what each refresh left stored.
   */
  datatype State = State(
    now: int,
    ttl: int,
    allowed: set<Key>,
    expiresAt: Option<int>,
    refreshDone: Option<Channel>,
    refreshes: seq<Refresh>,
    closed: set<Channel>,
    dials: map<Dialer, Dial>,
    resolved: seq<set<Key>>,
    stored: nat,
    initializedAt: int,
    starts: seq<int>,
    ends: seq<int>,
    left: map<Channel, nat>)

  datatype Action =
    | Tick(duration: nat)
    | Ask(dialer: Dialer, key: Key)
    | Begin(dialer: Dialer)
    | Check(dialer: Dialer)
    | Signal(dialer: Dialer)
    | Expire(dialer: Dialer)
    | Recheck(dialer: Dialer)
    | Resolve(channel: Channel, lookup: Option<set<Key>>)
    | Panic(channel: Channel)
    | Store(channel: Channel)
    | End(channel: Channel)
    | Close(channel: Channel)

  /** `resolve`: the canonical addresses of the lookup, an error when there are none. */
  function Answer(lookup: Option<set<Key>>): Option<set<Key>> {
    if lookup.None? || lookup.value - {""} == {} then None else Some(lookup.value - {""})
  }

  predicate Permits(s: State, key: Key) {
    key != "" && key in s.allowed
  }

  /** `initialize` resolved the host, or the host is a literal address and never expires. */
  ghost predicate Init(s: State) {
    && s.ttl > 0
    && s.allowed != {} && "" !in s.allowed
    && (s.expiresAt.None? || s.expiresAt == Some(s.now + s.ttl))
    && s.refreshDone.None? && s.refreshes == [] && s.closed == {} && s.dials == map[]
    && s.resolved == [s.allowed] && s.stored == 1 && s.left == map[]
    && s.initializedAt == s.now && s.starts == [] && s.ends == []
  }

  predicate Running(s: State, ch: Channel) {
    ch < |s.refreshes|
  }

  predicate Enabled(s: State, a: Action) {
    match a
    case Tick(_) => true
    case Ask(d, _) => d !in s.dials
    case Begin(d) => d in s.dials && s.dials[d].Asking?
    case Check(d) => d in s.dials && s.dials[d].Began?
    case Signal(d) => d in s.dials && s.dials[d].Parked? && s.dials[d].channel in s.closed
    case Expire(d) => d in s.dials && s.dials[d].Parked?
    case Recheck(d) => d in s.dials && s.dials[d].Rechecking?
    case Resolve(ch, _) => Running(s, ch) && s.refreshes[ch].Resolving?
    case Panic(ch) => Running(s, ch) && s.refreshes[ch].Resolving?
    case Store(ch) => Running(s, ch) && s.refreshes[ch].Storing?
    case End(ch) => Running(s, ch) && s.refreshes[ch].Ending?
    case Close(ch) => Running(s, ch) && s.refreshes[ch].Closing?
  }

  function Move(s: State, d: Dialer, dial: Dial): State {
    s.(dials := s.dials[d := dial])
  }

  /** A dial that starts a refresh: the previous one is over and the allowset has expired. */
  function StartRefresh(s: State): State {
    s.(refreshDone := Some(|s.refreshes|),
       refreshes := s.refreshes + [Resolving],
       starts := s.starts + [s.now])
  }

  /** `beginRefresh`: nothing to do, join the refresh in flight, or start one. */
  function BeginRefresh(s: State, d: Dialer, key: Key): State {
    if s.expiresAt.None? || s.now < s.expiresAt.value then Move(s, d, Began(key, None))
    else if s.refreshDone.Some? then Move(s, d, Began(key, s.refreshDone))
    else
      Move(StartRefresh(s), d, Began(key, Some(|s.refreshes|)))
  }

  function CheckAllowed(s: State, d: Dialer, key: Key, done: Option<Channel>): State {
    if Permits(s, key) then Move(s, d, Allowed(key, s.stored))
    else if done.None? then Move(s, d, Denied(key, false, LiveAllowset(s.stored)))
    else Move(s, d, Parked(key, done.value))
  }

  function Apply(s: State, a: Action): State
    requires Enabled(s, a)
  {
    match a
    case Tick(duration) => s.(now := s.now + duration)
    case Ask(d, key) => Move(s, d, Asking(key))
    case Begin(d) => BeginRefresh(s, d, s.dials[d].key)
    case Check(d) => CheckAllowed(s, d, s.dials[d].key, s.dials[d].done)
    case Signal(d) => Move(s, d, Rechecking(s.dials[d].key, s.dials[d].channel))
    case Expire(d) => Move(s, d, Denied(s.dials[d].key, true, ContextDone))
    case Recheck(d) =>
      var key := s.dials[d].key;
      if Permits(s, key) then Move(s, d, Allowed(key, s.stored))
      else Move(s, d, Denied(key, true, AfterRefresh(s.dials[d].channel, s.stored)))
    case Resolve(ch, lookup) =>
      var answer := Answer(lookup);
      s.(refreshes := s.refreshes[ch := Storing(answer)],
         resolved := s.resolved + if answer.Some? then [answer.value] else [])
    case Panic(ch) => s.(refreshes := s.refreshes[ch := Ending])
    case Store(ch) =>
      var answer := s.refreshes[ch].answer;
      var s' := s.(refreshes := s.refreshes[ch := Ending]);
      if answer.Some? then s'.(allowed := answer.value, stored := s.stored + 1) else s'
    case End(ch) =>
      s.(refreshes := s.refreshes[ch := Closing(s.refreshDone)],
         expiresAt := Some(s.now + s.ttl),
         refreshDone := None,
         ends := s.ends + [s.now],
         left := s.left[ch := s.stored])
    case Close(ch) =>
      var done := s.refreshes[ch].done;
      s.(refreshes := s.refreshes[ch := Ended],
         closed := s.closed + if done.Some? then {done.value} else {})
  }

  predicate ValidRun(s: State, run: seq<Action>)
    decreases |run|
  {
    run == [] || (Enabled(s, run[0]) && ValidRun(Apply(s, run[0]), run[1..]))
  }

  function After(s: State, run: seq<Action>): State
    requires ValidRun(s, run)
    decreases |run|
  {
    if run == [] then s else After(Apply(s, run[0]), run[1..])
  }

  // ----- Invariant

  predicate Active(r: Refresh) {
    r.Resolving? || r.Storing? || r.Ending?
  }

  /** The refresh in flight is the one `refreshDone` names, and no other. */
  ghost predicate SingleFlight(s: State) {
    forall ch :: 0 <= ch < |s.refreshes| ==> (Active(s.refreshes[ch]) <==> s.refreshDone == Some(ch))
  }

  ghost predicate InFlightExists(s: State) {
    s.refreshDone.Some? ==> s.refreshDone.value < |s.refreshes| && s.expiresAt.Some?
  }

  /** A refresh is about to close its own channel, and the closed channels are those of ended refreshes. */
  ghost predicate ClosesOwnChannel(s: State) {
    && (forall ch :: 0 <= ch < |s.refreshes| && s.refreshes[ch].Closing? ==> s.refreshes[ch].done == Some(ch))
    && (forall ch :: ch in s.closed <==> 0 <= ch < |s.refreshes| && s.refreshes[ch].Ended?)
  }

  predicate IsStoring(s: State) {
    s.refreshDone.Some? && s.refreshDone.value < |s.refreshes|
    && s.refreshes[s.refreshDone.value].Storing? && s.refreshes[s.refreshDone.value].answer.Some?
  }

  /** The allowset is the latest resolve, but for one answer on its way to being stored. */
  ghost predicate AllowsetIsLatest(s: State) {
    && 1 <= s.stored == |s.resolved| - (if IsStoring(s) then 1 else 0)
    && s.allowed == s.resolved[s.stored - 1]
    && (IsStoring(s) ==> s.refreshes[s.refreshDone.value].answer == Some(s.resolved[|s.resolved| - 1]))
    && (forall i :: 0 <= i < |s.resolved| ==> s.resolved[i] != {} && "" !in s.resolved[i])
  }

  /** When the allowset that refresh `i` replaces was last confirmed. */
  function ConfirmedBefore(s: State, i: nat): int
    requires i <= |s.ends|
  {
    if i == 0 then s.initializedAt else s.ends[i - 1]
  }

  /** Every refresh starts when the allowset has been expired, and ends before the next one. */
  ghost predicate Timeline(s: State) {
    && s.ttl > 0
    && |s.starts| == |s.ends| + (if s.refreshDone.Some? then 1 else 0)
    && (s.expiresAt.Some? ==> s.expiresAt.value == ConfirmedBefore(s, |s.ends|) + s.ttl)
    && (forall i :: 0 <= i < |s.starts| ==> ConfirmedBefore(s, i) + s.ttl <= s.starts[i] <= s.now)
    && (forall i :: 0 <= i < |s.ends| ==> s.starts[i] <= s.ends[i] <= s.now)
  }

  ghost predicate LeftBehind(s: State) {
    && (forall ch :: ch in s.left ==> s.left[ch] <= s.stored)
    && (forall ch :: ch in s.left <==> 0 <= ch < |s.refreshes| && !Active(s.refreshes[ch]))
  }

  /** What a dial may rely on, and why it was allowed or denied. */
  ghost predicate Justified(s: State, dial: Dial) {
    match dial
    case Asking(_) => true
    case Began(_, done) => done.Some? ==> done.value < |s.refreshes|
    case Parked(_, ch) => ch < |s.refreshes|
    case Rechecking(_, ch) => ch in s.closed
    case Allowed(key, generation) =>
      1 <= generation <= s.stored <= |s.resolved| && key in s.resolved[generation - 1]
    case Denied(key, sawExpired, reason) =>
      match reason
      case ContextDone => true
      case LiveAllowset(generation) =>
        && !sawExpired
        && 1 <= generation <= s.stored <= |s.resolved|
        && key !in s.resolved[generation - 1]
      case AfterRefresh(ch, generation) =>
        && ch in s.closed && ch in s.left
        && 1 <= generation <= s.stored <= |s.resolved|
        && s.left[ch] <= generation
        && key !in s.resolved[generation - 1]
  }

  ghost predicate DialsJustified(s: State) {
    forall d :: d in s.dials ==> Justified(s, s.dials[d])
  }

  ghost predicate Inv(s: State) {
    && SingleFlight(s)
    && InFlightExists(s)
    && ClosesOwnChannel(s)
    && AllowsetIsLatest(s)
    && Timeline(s)
    && LeftBehind(s)
    && DialsJustified(s)
  }

  /** Nothing a dial relies on is taken back. */
  ghost predicate Grows(s: State, s': State) {
    && |s.refreshes| <= |s'.refreshes|
    && s.closed <= s'.closed
    && s.stored <= s'.stored
    && s.resolved <= s'.resolved
    && (forall ch :: ch in s.left ==> ch in s'.left && s'.left[ch] == s.left[ch])
  }

  lemma GrowthKeepsDials(s: State, s': State)
    requires DialsJustified(s) && Grows(s, s')
    requires s'.stored <= |s'.resolved|
    ensures forall d :: d in s.dials ==> Justified(s', s.dials[d])
  {
  }

  lemma ResolveKeepsInv(s: State, ch: Channel, lookup: Option<set<Key>>)
    requires Inv(s) && Enabled(s, Resolve(ch, lookup))
    ensures Inv(Apply(s, Resolve(ch, lookup)))
  {
    var s' := Apply(s, Resolve(ch, lookup));
    assert s.refreshDone == Some(ch);
    assert AllowsetIsLatest(s');
    GrowthKeepsDials(s, s');
  }

  lemma PanicKeepsInv(s: State, ch: Channel)
    requires Inv(s) && Enabled(s, Panic(ch))
    ensures Inv(Apply(s, Panic(ch)))
  {
    var s' := Apply(s, Panic(ch));
    assert s.refreshDone == Some(ch);
    GrowthKeepsDials(s, s');
  }

  lemma StoreKeepsInv(s: State, ch: Channel)
    requires Inv(s) && Enabled(s, Store(ch))
    ensures Inv(Apply(s, Store(ch)))
  {
    var s' := Apply(s, Store(ch));
    assert s.refreshDone == Some(ch);
    assert AllowsetIsLatest(s');
    GrowthKeepsDials(s, s');
  }

  lemma EndKeepsInv(s: State, ch: Channel)
    requires Inv(s) && Enabled(s, End(ch))
    ensures Inv(Apply(s, End(ch)))
  {
    var s' := Apply(s, End(ch));
    assert s.refreshDone == Some(ch);
    GrowthKeepsDials(s, s');
  }

  lemma CloseKeepsInv(s: State, ch: Channel)
    requires Inv(s) && Enabled(s, Close(ch))
    ensures Inv(Apply(s, Close(ch)))
  {
    var s' := Apply(s, Close(ch));
    GrowthKeepsDials(s, s');
  }

  lemma MoveKeepsInv(s: State, d: Dialer, dial: Dial)
    requires Inv(s) && Justified(s, dial)
    ensures Inv(Move(s, d, dial))
  {
    var s' := Move(s, d, dial);
    assert Justified(s', dial);
    GrowthKeepsDials(s, s');
  }

  lemma StartKeepsInv(s: State)
    requires Inv(s) && s.expiresAt.Some? && s.expiresAt.value <= s.now && s.refreshDone.None?
    ensures Inv(StartRefresh(s))
  {
    var s' := StartRefresh(s);
    assert SingleFlight(s') && ClosesOwnChannel(s') && LeftBehind(s');
    assert Timeline(s');
    GrowthKeepsDials(s, s');
  }

  lemma BeginKeepsInv(s: State, d: Dialer)
    requires Inv(s) && Enabled(s, Begin(d))
    ensures Inv(Apply(s, Begin(d)))
  {
    var s' := Apply(s, Begin(d));
    if s.expiresAt.Some? && s.expiresAt.value <= s.now && s.refreshDone.None? {
      StartKeepsInv(s);
      MoveKeepsInv(StartRefresh(s), d, s'.dials[d]);
    } else {
      MoveKeepsInv(s, d, s'.dials[d]);
    }
  }

  lemma DialStepKeepsInv(s: State, a: Action)
    requires Inv(s) && Enabled(s, a)
    requires a.Ask? || a.Check? || a.Signal? || a.Expire? || a.Recheck?
    ensures Inv(Apply(s, a))
  {
    var s' := Apply(s, a);
    DialStepIsJustified(s, a);
    assert s' == Move(s, a.dialer, s'.dials[a.dialer]);
    MoveKeepsInv(s, a.dialer, s'.dials[a.dialer]);
  }

  lemma DialStepIsJustified(s: State, a: Action)
    requires Inv(s) && Enabled(s, a)
    requires a.Ask? || a.Check? || a.Signal? || a.Expire? || a.Recheck?
    ensures a.dialer in Apply(s, a).dials && Justified(s, Apply(s, a).dials[a.dialer])
  {
    assert a.dialer in s.dials ==> Justified(s, s.dials[a.dialer]);
  }

  lemma TickKeepsInv(s: State, duration: nat)
    requires Inv(s)
    ensures Inv(Apply(s, Tick(duration)))
  {
    GrowthKeepsDials(s, Apply(s, Tick(duration)));
  }

  lemma StepKeepsInv(s: State, a: Action)
    requires Inv(s) && Enabled(s, a)
    ensures Inv(Apply(s, a))
  {
    match a
    case Tick(duration) => TickKeepsInv(s, duration);
    case Begin(d) => BeginKeepsInv(s, d);
    case Resolve(ch, lookup) => ResolveKeepsInv(s, ch, lookup);
    case Panic(ch) => PanicKeepsInv(s, ch);
    case Store(ch) => StoreKeepsInv(s, ch);
    case End(ch) => EndKeepsInv(s, ch);
    case Close(ch) => CloseKeepsInv(s, ch);
    case _ => DialStepKeepsInv(s, a);
  }

  /** Every state of every run satisfies the invariant. */
  lemma {:induction false} RunsKeepInv(s: State, run: seq<Action>)
    requires Inv(s) && ValidRun(s, run)
    ensures Inv(After(s, run))
    decreases |run|
  {
    if run != [] {
      StepKeepsInv(s, run[0]);
      RunsKeepInv(Apply(s, run[0]), run[1..]);
    }
  }

  lemma InitHasInv(s: State)
    requires Init(s)
    ensures Inv(s)
  {
  }

  // ----- What dials and refreshes rely on

  /** At most one refresh is in flight, and what a refresh is about to close is its own open channel. */
  lemma RefreshIsSingleFlight(s: State, run: seq<Action>, first: Channel, second: Channel)
    requires Init(s) && ValidRun(s, run)
    requires first < |After(s, run).refreshes| && second < |After(s, run).refreshes|
    ensures var e := After(s, run);
            && (Active(e.refreshes[first]) && Active(e.refreshes[second]) ==> first == second)
            && (e.refreshes[first].Closing? ==> e.refreshes[first].done == Some(first) && first !in e.closed)
  {
    InitHasInv(s);
    RunsKeepInv(s, run);
  }

  /**
    When no answer is on its way to the lock, the allowset is the non-empty result of the
    latest successful resolve; failed lookups and panics keep the old one.
   */
  lemma AllowsetIsLatestResolve(s: State, run: seq<Action>)
    requires Init(s) && ValidRun(s, run)
    ensures var e := After(s, run);
            && e.allowed != {} && e.resolved != []
            && (!IsStoring(e) ==> e.allowed == e.resolved[|e.resolved| - 1])
  {
    InitHasInv(s);
    RunsKeepInv(s, run);
  }

  /**
    A dial that found the allowset expired and kept a live context is denied only after the
    refresh it joined had closed its channel, and then by an allowset at least as new as the
    one that refresh left; a dial let through has an address that was resolved.
   */
  lemma DenialsAreJustified(s: State, run: seq<Action>, d: Dialer)
    requires Init(s) && ValidRun(s, run) && d in After(s, run).dials
    ensures var e := After(s, run);
            var dial := e.dials[d];
            && (dial.Denied? && dial.sawExpired && dial.reason != ContextDone ==>
                  && dial.reason.AfterRefresh?
                  && dial.reason.channel in e.closed && dial.reason.channel in e.left
                  && e.left[dial.reason.channel] <= dial.reason.generation <= |e.resolved|
                  && 1 <= dial.reason.generation
                  && dial.key !in e.resolved[dial.reason.generation - 1])
            && (dial.Allowed? ==> exists i :: 0 <= i < |e.resolved| && dial.key in e.resolved[i])
  {
    InitHasInv(s);
    RunsKeepInv(s, run);
    var dial := After(s, run).dials[d];
    assert Justified(After(s, run), dial);
  }

  /** `n` times to live. */
  function Lifetimes(n: nat, ttl: int): int {
    if n == 0 then 0 else Lifetimes(n - 1, ttl) + ttl
  }

  lemma {:induction false} StartsSpread(s: State, i: nat, j: nat)
    requires Timeline(s) && i < j < |s.starts|
    ensures s.ends[i] + Lifetimes(j - i, s.ttl) <= s.starts[j]
    decreases j - i
  {
    assert ConfirmedBefore(s, j) + s.ttl <= s.starts[j];
    if i + 1 < j {
      StartsSpread(s, i, j - 1);
      assert s.starts[j - 1] <= s.ends[j - 1];
    } else {
      assert Lifetimes(1, s.ttl) == Lifetimes(0, s.ttl) + s.ttl;
    }
  }

  /**
    A live allowset triggers no lookup: the first refresh starts at least a time to live after
    initialization, every other one at least a time to live after the previous one ended, and
    refresh `j` at least j - i of them after refresh `i` ended.
   */
  lemma RefreshesAreSpacedByTTL(s: State, run: seq<Action>, i: nat, j: nat)
    requires Init(s) && ValidRun(s, run)
    ensures var e := After(s, run);
            && |e.ends| <= |e.starts| <= |e.ends| + 1
            && (j < |e.starts| ==> ConfirmedBefore(e, j) + e.ttl <= e.starts[j])
            && (i < j < |e.starts| ==> e.starts[i] <= e.ends[i] && e.ends[i] + Lifetimes(j - i, e.ttl) <= e.starts[j])
            && e.initializedAt == s.now && e.ttl == s.ttl
  {
    InitHasInv(s);
    RunsKeepInv(s, run);
    RunsKeepConstants(s, run);
    if i < j < |After(s, run).starts| {
      StartsSpread(After(s, run), i, j);
    }
  }

  lemma {:induction false} RunsKeepConstants(s: State, run: seq<Action>)
    requires ValidRun(s, run)
    ensures After(s, run).ttl == s.ttl && After(s, run).initializedAt == s.initializedAt
    decreases |run|
  {
    if run != [] {
      RunsKeepConstants(Apply(s, run[0]), run[1..]);
    }
  }
}
