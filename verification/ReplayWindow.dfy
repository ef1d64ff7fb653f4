/**
  Webhook replay protection over whole runs: a timestamp window checked with the headers,
  a signature checked after the body, and a set-once nonce store with expiry checked last,
  with any number of requests in flight and a monotone clock. Times are nanoseconds.
 */
module ReplayWindow {
  import opened Common
  import opened Text

  /** The nonce key: method, canonical target, timestamp and nonce of one signed request. */
  datatype Key = Key(verb: bytes, target: bytes, timestamp: bytes, nonce: bytes)

  type Id = nat

  /** The checks before the nonce, other than the clock, are facts about the request. */
  datatype Request = Request(key: Key, headersOk: bool, bodyHashOk: bool, signatureOk: bool)

  /** `timestampWithinReplayWindow`: both ends of the window are inside it. */
  predicate WithinWindow(timestamp: bytes, window: int, now: int) {
    var parsed := ParseInt64(timestamp);
    parsed.Some? && now - window <= parsed.value * 1_000_000 <= now + window
  }

  /** The signed instant of a key whose timestamp parses. */
  function SignedAt(key: Key): int {
    var parsed := ParseInt64(key.timestamp);
    if parsed.Some? then parsed.value * 1_000_000 else 0
  }

  datatype Phase =
    | Headed(request: Request, headerAt: int)
    | Verified(request: Request, headerAt: int)
    | Ended(request: Request, verified: bool)

  /** One acceptance: when its headers and its nonce were checked. */
  datatype Acceptance = Acceptance(key: Key, headerAt: int, nonceAt: int)

  /** `held` says whether the store still holds an entry at its very expiry instant; no contract fixes that. */
  datatype State = State(
    now: int,
    window: int,
    ttl: int,
    held: bool,
    store: map<Key, int>,
    requests: map<Id, Phase>,
    accepted: seq<Acceptance>)

  /** A store call that fails may still have recorded the key. */
  datatype StoreCall = Answers | Fails(recorded: bool)

  datatype Action =
    | Tick(duration: nat)
    | CheckHeaders(id: Id, request: Request)
    | CheckBody(id: Id)
    | CheckNonce(id: Id, call: StoreCall)

  predicate Init(s: State) {
    s.window > 0 && s.ttl > 0 && s.store == map[] && s.requests == map[] && s.accepted == []
  }

  predicate Enabled(s: State, a: Action) {
    match a
    case Tick(_) => true
    case CheckHeaders(id, _) => id !in s.requests
    case CheckBody(id) => id in s.requests && s.requests[id].Headed?
    case CheckNonce(id, _) => id in s.requests && s.requests[id].Verified?
  }

  predicate HasExpired(held: bool, expiry: int, now: int) {
    if held then expiry < now else expiry <= now
  }

  /** SET NX: an expired entry does not count. */
  predicate IsDuplicate(s: State, key: Key) {
    key in s.store && !HasExpired(s.held, s.store[key], s.now)
  }

  function Record(s: State, key: Key): State {
    if IsDuplicate(s, key) then s else s.(store := s.store[key := s.now + s.ttl])
  }

  function Put(s: State, id: Id, p: Phase): State {
    s.(requests := s.requests[id := p])
  }

  function Apply(s: State, a: Action): State
    requires Enabled(s, a)
  {
    match a
    case Tick(duration) => s.(now := s.now + duration)
    case CheckHeaders(id, request) =>
      if request.headersOk && WithinWindow(request.key.timestamp, s.window, s.now)
      then Put(s, id, Headed(request, s.now))
      else Put(s, id, Ended(request, false))
    case CheckBody(id) =>
      var p := s.requests[id];
      if p.request.bodyHashOk && p.request.signatureOk
      then Put(s, id, Verified(p.request, p.headerAt))
      else Put(s, id, Ended(p.request, false))
    case CheckNonce(id, call) =>
      var p := s.requests[id];
      var s' := Put(s, id, Ended(p.request, true));
      match call
      case Fails(recorded) => if recorded then Record(s', p.request.key) else s'
      case Answers =>
        if IsDuplicate(s, p.request.key) then s'
        else Record(s', p.request.key).(accepted := s.accepted + [Acceptance(p.request.key, p.headerAt, s.now)])
  }

  predicate ValidRun(s: State, run: seq<Action>)
    decreases |run|
  {
    run == [] || (Enabled(s, run[0]) && ValidRun(Apply(s, run[0]), run[1..]))
  }

  function After(s: State, run: seq<Action>): State
    requires ValidRun(s, run)
    decreases |run|
  {
    if run == [] then s else After(Apply(s, run[0]), run[1..])
  }

  // ----- Invariant

  ghost predicate HeadersInWindow(s: State, key: Key, headerAt: int) {
    headerAt <= s.now && ParseInt64(key.timestamp).Some?
    && headerAt - s.window <= SignedAt(key) <= headerAt + s.window
  }

  ghost predicate RequestsInWindow(s: State) {
    forall id :: id in s.requests && !s.requests[id].Ended? ==>
      HeadersInWindow(s, s.requests[id].request.key, s.requests[id].headerAt)
  }

  ghost predicate SignaturesChecked(s: State) {
    forall id :: id in s.requests && (s.requests[id].Verified? || (s.requests[id].Ended? && s.requests[id].verified)) ==>
      s.requests[id].request.bodyHashOk && s.requests[id].request.signatureOk
  }

  /** A key is recorded only for a request whose body hash and signature verified. */
  ghost predicate RecordedAreVerified(s: State) {
    forall key :: key in s.store ==>
      exists id :: id in s.requests && s.requests[id].request.key == key
        && s.requests[id].Ended? && s.requests[id].verified
  }

  ghost predicate AcceptedAreRemembered(s: State) {
    forall i :: 0 <= i < |s.accepted| ==>
      var a := s.accepted[i];
      && HeadersInWindow(s, a.key, a.headerAt)
      && a.headerAt <= a.nonceAt <= s.now
      && a.key in s.store && a.nonceAt + s.ttl <= s.store[a.key]
  }

  ghost predicate AcceptancesApart(s: State) {
    forall i, j :: 0 <= i < j < |s.accepted| && s.accepted[i].key == s.accepted[j].key ==>
      HasExpired(s.held, s.accepted[i].nonceAt + s.ttl, s.accepted[j].nonceAt)
  }

  ghost predicate Inv(s: State) {
    && s.ttl > 0
    && RequestsInWindow(s)
    && SignaturesChecked(s)
    && RecordedAreVerified(s)
    && AcceptedAreRemembered(s)
    && AcceptancesApart(s)
  }

  lemma PutKeepsRecorded(s: State, id: Id, p: Phase)
    requires RecordedAreVerified(s) && (id in s.requests ==> !s.requests[id].Ended?)
    ensures RecordedAreVerified(Put(s, id, p))
  {
    var s' := Put(s, id, p);
    forall key | key in s'.store
      ensures exists i :: i in s'.requests && s'.requests[i].request.key == key
                && s'.requests[i].Ended? && s'.requests[i].verified
    {
      var i :| i in s.requests && s.requests[i].request.key == key && s.requests[i].Ended? && s.requests[i].verified;
      assert i in s'.requests && s'.requests[i] == s.requests[i];
    }
  }

  lemma RecordKeepsInv(s: State, id: Id, key: Key)
    requires Inv(s) && id in s.requests && s.requests[id].request.key == key
    requires s.requests[id].Ended? && s.requests[id].verified
    ensures Inv(Record(s, key))
  {
    var s' := Record(s, key);
    forall k | k in s'.store
      ensures exists i :: i in s'.requests && s'.requests[i].request.key == k
                && s'.requests[i].Ended? && s'.requests[i].verified
    {
      if k == key {
        assert id in s'.requests;
      } else {
        assert k in s.store;
      }
    }
  }

  /** What a request's new phase must be for the invariant to go on. */
  ghost predicate PhaseFits(s: State, p: Phase) {
    && (!p.Ended? ==> HeadersInWindow(s, p.request.key, p.headerAt))
    && (p.Verified? || (p.Ended? && p.verified) ==> p.request.bodyHashOk && p.request.signatureOk)
  }

  lemma PutKeepsInv(s: State, id: Id, p: Phase)
    requires Inv(s) && (id in s.requests ==> !s.requests[id].Ended?) && PhaseFits(s, p)
    ensures Inv(Put(s, id, p))
  {
    var s' := Put(s, id, p);
    PutKeepsRecorded(s, id, p);
    assert RequestsInWindow(s');
    assert SignaturesChecked(s');
  }

  lemma EndKeepsInv(s: State, id: Id, verified: bool)
    requires Inv(s) && id in s.requests && !s.requests[id].Ended?
    requires verified ==> s.requests[id].Verified?
    ensures Inv(Put(s, id, Ended(s.requests[id].request, verified)))
  {
    PutKeepsInv(s, id, Ended(s.requests[id].request, verified));
  }

  lemma AcceptKeepsInv(s: State, key: Key, headerAt: int)
    requires Inv(s) && HeadersInWindow(s, key, headerAt)
    requires forall i :: 0 <= i < |s.accepted| && s.accepted[i].key == key ==>
               HasExpired(s.held, s.accepted[i].nonceAt + s.ttl, s.now)
    requires key in s.store && s.now + s.ttl <= s.store[key]
    ensures Inv(s.(accepted := s.accepted + [Acceptance(key, headerAt, s.now)]))
  {
  }

  lemma NonceStepKeepsInv(s: State, id: Id, call: StoreCall)
    requires Inv(s) && Enabled(s, CheckNonce(id, call))
    ensures Inv(Apply(s, CheckNonce(id, call)))
  {
    var p := s.requests[id];
    var key := p.request.key;
    var ended := Put(s, id, Ended(p.request, true));
    EndKeepsInv(s, id, true);
    RecordKeepsInv(ended, id, key);
    if call.Answers? && !IsDuplicate(s, key) {
      assert HeadersInWindow(s, key, p.headerAt);
      AcceptKeepsInv(Record(ended, key), key, p.headerAt);
    }
  }

  lemma HeaderStepKeepsInv(s: State, id: Id, request: Request)
    requires Inv(s) && Enabled(s, CheckHeaders(id, request))
    ensures Inv(Apply(s, CheckHeaders(id, request)))
  {
    PutKeepsInv(s, id, Apply(s, CheckHeaders(id, request)).requests[id]);
  }

  lemma BodyStepKeepsInv(s: State, id: Id)
    requires Inv(s) && Enabled(s, CheckBody(id))
    ensures Inv(Apply(s, CheckBody(id)))
  {
    assert HeadersInWindow(s, s.requests[id].request.key, s.requests[id].headerAt);
    PutKeepsInv(s, id, Apply(s, CheckBody(id)).requests[id]);
  }

  lemma TickKeepsInv(s: State, duration: nat)
    requires Inv(s)
    ensures Inv(Apply(s, Tick(duration)))
  {
    var s' := Apply(s, Tick(duration));
    assert RecordedAreVerified(s') by {
      assert s'.requests == s.requests && s'.store == s.store;
    }
  }

  /** Every state of every run satisfies the invariant. */
  lemma {:induction false} RunsKeepInv(s: State, run: seq<Action>)
    requires Inv(s) && ValidRun(s, run)
    ensures Inv(After(s, run))
    ensures After(s, run).ttl == s.ttl && After(s, run).window == s.window && After(s, run).held == s.held
    decreases |run|
  {
    if run != [] {
      match run[0] {
        case Tick(duration) => TickKeepsInv(s, duration);
        case CheckHeaders(id, request) => HeaderStepKeepsInv(s, id, request);
        case CheckBody(id) => BodyStepKeepsInv(s, id);
        case CheckNonce(id, call) => NonceStepKeepsInv(s, id, call);
      }
      RunsKeepInv(Apply(s, run[0]), run[1..]);
    }
  }

  // ----- The theorems

  /**
    In every run, if one key is accepted twice then the entry of the first, checked at n1, had
    expired by the time the second can have been checked: its delay between header and nonce
    check is at least n1 + ttl - (ts + window), and more than that when the store holds an
    entry at its expiry instant. With the handler's ttl of two windows that is n1 - (ts - window).
   */
  lemma DoubleAcceptanceNeedsDelay(s: State, run: seq<Action>, i: nat, j: nat)
    requires Init(s) && ValidRun(s, run)
    requires i < j < |After(s, run).accepted|
    requires After(s, run).accepted[i].key == After(s, run).accepted[j].key
    ensures var a, b := After(s, run).accepted[i], After(s, run).accepted[j];
            && HasExpired(s.held, a.nonceAt + s.ttl, SignedAt(a.key) + s.window + (b.nonceAt - b.headerAt))
            && (s.ttl == 2 * s.window ==> b.nonceAt - b.headerAt >= a.nonceAt - (SignedAt(a.key) - s.window) >= 0)
            && (s.ttl == 2 * s.window && s.held ==> b.nonceAt > b.headerAt)
  {
    RunsKeepInv(s, run);
  }

  /** Hence no key is accepted twice while requests pass the nonce check faster than that. */
  lemma PromptRequestsAreAcceptedOnce(s: State, run: seq<Action>, i: nat, j: nat)
    requires Init(s) && s.ttl == 2 * s.window && ValidRun(s, run)
    requires i < j < |After(s, run).accepted|
    requires var a, b := After(s, run).accepted[i], After(s, run).accepted[j];
             b.nonceAt - b.headerAt < a.nonceAt - (SignedAt(a.key) - s.window)
    ensures After(s, run).accepted[i].key != After(s, run).accepted[j].key
  {
    if After(s, run).accepted[i].key == After(s, run).accepted[j].key {
      DoubleAcceptanceNeedsDelay(s, run, i, j);
    }
  }

  /** Only requests whose signature verified leave anything in the store. */
  lemma OnlyVerifiedKeysAreRecorded(s: State, run: seq<Action>, key: Key)
    requires Init(s) && ValidRun(s, run) && key in After(s, run).store
    ensures exists id :: id in After(s, run).requests
              && After(s, run).requests[id].request.key == key
              && After(s, run).requests[id].request.bodyHashOk
              && After(s, run).requests[id].request.signatureOk
  {
    RunsKeepInv(s, run);
  }

  // ----- The bound is exact

  /** A run that accepts `key` at `first`, and again after a delay of `delay` between the second request's checks. */
  ghost predicate AcceptsTwice(
    s: State, run: seq<Action>, window: int, ttl: int, held: bool, key: Key, first: int, delay: nat)
  {
    && Init(s) && s.window == window && s.ttl == ttl && s.held == held && ValidRun(s, run)
    && exists i, j :: 0 <= i < j < |After(s, run).accepted|
         && After(s, run).accepted[i].key == key && After(s, run).accepted[j].key == key
         && After(s, run).accepted[i].nonceAt == first
         && After(s, run).accepted[j].nonceAt - After(s, run).accepted[j].headerAt == delay
  }

  lemma RunOneMore(s: State, run: seq<Action>, a: Action)
    requires ValidRun(s, run) && Enabled(After(s, run), a)
    ensures ValidRun(s, run + [a]) && After(s, run + [a]) == Apply(After(s, run), a)
    decreases |run|
  {
    if run == [] {
      assert run + [a] == [a] && [a][1..] == [];
    } else {
      assert (run + [a])[0] == run[0] && (run + [a])[1..] == run[1..] + [a];
      RunOneMore(Apply(s, run[0]), run[1..], a);
    }
  }

  /** A prompt request runs its three checks; the clock moves only before its nonce check. */
  lemma RunRequest(s: State, run: seq<Action>, id: Id, key: Key, delay: nat) returns (longer: seq<Action>)
    requires ValidRun(s, run)
    requires var e := After(s, run);
             && id !in e.requests && WithinWindow(key.timestamp, e.window, e.now)
             && (key in e.store ==> HasExpired(e.held, e.store[key], e.now + delay))
    ensures ValidRun(s, longer)
    ensures var e, e' := After(s, run), After(s, longer);
            && e'.now == e.now + delay && e'.window == e.window && e'.ttl == e.ttl && e'.held == e.held
            && e'.accepted == e.accepted + [Acceptance(key, e.now, e.now + delay)]
            && e'.requests.Keys == e.requests.Keys + {id}
            && e'.store == e.store[key := e.now + delay + e.ttl]
  {
    var request := Request(key, true, true, true);
    var r1 := run + [CheckHeaders(id, request)];
    RunOneMore(s, run, CheckHeaders(id, request));
    var r2 := r1 + [CheckBody(id)];
    RunOneMore(s, r1, CheckBody(id));
    var r3 := r2 + [Tick(delay)];
    RunOneMore(s, r2, Tick(delay));
    longer := r3 + [CheckNonce(id, Answers)];
    RunOneMore(s, r3, CheckNonce(id, Answers));
  }

  /** The second request starts after the first was accepted, at the far edge of the window. */
  lemma BuildInSequence(window: int, ttl: int, held: bool, key: Key, first: int, delay: nat)
    returns (s: State, run: seq<Action>)
    requires window > 0 && ttl > 0 && ParseInt64(key.timestamp).Some?
    requires SignedAt(key) - window <= first <= SignedAt(key) + window
    requires HasExpired(held, first + ttl, SignedAt(key) + window + delay)
    ensures AcceptsTwice(s, run, window, ttl, held, key, first, delay)
  {
    var edge := SignedAt(key) + window;
    s := State(SignedAt(key) - window, window, ttl, held, map[], map[], []);
    var one := RunRequest(s, [], 0, key, first - s.now);
    RunOneMore(s, one, Tick(edge - first));
    run := RunRequest(s, one + [Tick(edge - first)], 1, key, delay);
    var e := After(s, run);
    assert e.accepted[0].key == key && e.accepted[1].key == key && |e.accepted| == 2;
  }

  /** Two deliveries of one request, both checked up to their nonce. */
  lemma RunBothToNonce(s: State, request: Request) returns (run: seq<Action>)
    requires s.requests == map[] && request.headersOk && request.bodyHashOk && request.signatureOk
    requires WithinWindow(request.key.timestamp, s.window, s.now)
    ensures ValidRun(s, run)
    ensures After(s, run) == s.(requests := map[0 := Verified(request, s.now), 1 := Verified(request, s.now)])
  {
    var r1 := [] + [CheckHeaders(0, request)];
    RunOneMore(s, [], CheckHeaders(0, request));
    var r2 := r1 + [CheckHeaders(1, request)];
    RunOneMore(s, r1, CheckHeaders(1, request));
    var r3 := r2 + [CheckBody(1)];
    RunOneMore(s, r2, CheckBody(1));
    run := r3 + [CheckBody(0)];
    RunOneMore(s, r3, CheckBody(0));
  }

  /** Both requests pass their headers before the first nonce check, which comes after the window. */
  lemma BuildInterleaved(window: int, ttl: int, held: bool, key: Key, first: int, delay: nat)
    returns (s: State, run: seq<Action>)
    requires window > 0 && ttl > 0 && ParseInt64(key.timestamp).Some?
    requires SignedAt(key) + window < first && HasExpired(held, first + ttl, SignedAt(key) + window + delay)
    ensures AcceptsTwice(s, run, window, ttl, held, key, first, delay)
  {
    var edge, request := SignedAt(key) + window, Request(key, true, true, true);
    s := State(edge, window, ttl, held, map[], map[], []);
    var r4 := RunBothToNonce(s, request);
    var r5 := r4 + [Tick(first - edge)];
    RunOneMore(s, r4, Tick(first - edge));
    var r6 := r5 + [CheckNonce(0, Answers)];
    RunOneMore(s, r5, CheckNonce(0, Answers));
    var r7 := r6 + [Tick(edge + delay - first)];
    RunOneMore(s, r6, Tick(edge + delay - first));
    run := r7 + [CheckNonce(1, Answers)];
    RunOneMore(s, r7, CheckNonce(1, Answers));
    var e := After(s, run);
    assert e.accepted[0].key == key && e.accepted[1].key == key && |e.accepted| == 2;
  }

  /**
    Exactly when a key whose nonce was first checked at `first` can be accepted again by a
    request that takes `delay` between its checks.
   */
  lemma DoubleAcceptanceExactly(window: int, ttl: int, held: bool, key: Key, first: int, delay: nat)
    requires window > 0 && ttl > 0
    ensures (exists s, run :: AcceptsTwice(s, run, window, ttl, held, key, first, delay))
            <==> && ParseInt64(key.timestamp).Some?
                 && SignedAt(key) - window <= first
                 && HasExpired(held, first + ttl, SignedAt(key) + window + delay)
  {
    if && ParseInt64(key.timestamp).Some?
       && SignedAt(key) - window <= first
       && HasExpired(held, first + ttl, SignedAt(key) + window + delay)
    {
      if first <= SignedAt(key) + window {
        var s, run := BuildInSequence(window, ttl, held, key, first, delay);
      } else {
        var s, run := BuildInterleaved(window, ttl, held, key, first, delay);
      }
    }
    forall s, run | AcceptsTwice(s, run, window, ttl, held, key, first, delay)
      ensures ParseInt64(key.timestamp).Some? && SignedAt(key) - window <= first
      ensures HasExpired(held, first + ttl, SignedAt(key) + window + delay)
    {
      var i, j :| 0 <= i < j < |After(s, run).accepted|
        && After(s, run).accepted[i].key == key && After(s, run).accepted[j].key == key
        && After(s, run).accepted[i].nonceAt == first
        && After(s, run).accepted[j].nonceAt - After(s, run).accepted[j].headerAt == delay;
      RunsKeepInv(s, run);
      DoubleAcceptanceNeedsDelay(s, run, i, j);
    }
  }

  /**
    Among requests checked without delay, a key can be accepted twice exactly when the store
    forgets it within two windows: the handler's ttl of two windows is just enough for a store
    that holds an entry at its expiry instant, and one instant short for one that does not.
   */
  lemma PromptDoubleAcceptanceExactly(window: int, ttl: int, held: bool, key: Key)
    requires window > 0 && ttl > 0 && ParseInt64(key.timestamp).Some?
    ensures (exists s, run, first :: AcceptsTwice(s, run, window, ttl, held, key, first, 0))
            <==> if held then ttl < 2 * window else ttl <= 2 * window
  {
    var near := SignedAt(key) - window;
    if HasExpired(held, ttl, 2 * window) {
      DoubleAcceptanceExactly(window, ttl, held, key, near, 0);
      var s, run :| AcceptsTwice(s, run, window, ttl, held, key, near, 0);
    }
    forall s, run, first | AcceptsTwice(s, run, window, ttl, held, key, first, 0)
      ensures HasExpired(held, ttl, 2 * window)
    {
      DoubleAcceptanceExactly(window, ttl, held, key, first, 0);
    }
  }
}
