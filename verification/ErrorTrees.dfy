/**
  Error values as `errors.Is` and `errors.As` see them: trees whose inner nodes
  are wraps and typed errors, and whose typed errors carry their own `Is`.
 */
module ErrorTrees {
  import opened Common

  /** The package's sentinel errors; the first five are the classes callers branch on. */
  datatype Sentinel =
    | Retryable | Permanent | AuthFailed | RateLimited | Transport
    | NotSent | EgressDenied | ProbeOnly | TooLarge
    | DrainTimeout | UnexpectedBytes | ContextEnded

  datatype Error =
    | Mark(sentinel: Sentinel)
    | Opaque(message: string)
    | HTTPError(status: int, code: string, retryAfter: int)
    | TransportError(err: Error, idempotent: bool)
    | StopRetry(cause: Error)
    | Wrapped(causes: seq<Error>)

  const AUTH_EPOCH_MISMATCH := "AUTH_EPOCH_MISMATCH"
  const PAYLOAD_MISMATCH := "CLIENT_REQUEST_ID_PAYLOAD_MISMATCH"
  const REQUEST_FAILED := "CLIENT_REQUEST_ID_FAILED"
  const OUTCOME_UNKNOWN := "CLIENT_REQUEST_ID_OUTCOME_UNKNOWN"
  const ALREADY_EXISTS := "CLIENT_REQUEST_ID_ALREADY_EXISTS"

  predicate IsEpochMismatch(status: int, code: string) {
    status == 401 && code == AUTH_EPOCH_MISMATCH
  }

  predicate HTTPErrorIs(status: int, code: string, target: Sentinel) {
    if IsEpochMismatch(status, code) then
      target == Retryable || target == NotSent
    else
      match target
      case Retryable => status >= 500 || status == 429
      case Permanent => 400 <= status < 500 && status != 429
      case AuthFailed => status == 401 || status == 403
      case RateLimited => status == 429
      case _ => false
  }

  predicate TransportErrorIs(inner: Error, idempotent: bool, target: Sentinel)
    decreases inner, 2
  {
    match target
    case Transport => !Is(inner, NotSent)
    case Retryable => (Is(inner, NotSent) || idempotent) && !Is(inner, EgressDenied) && !Is(inner, TooLarge)
    case _ => false
  }

  /** `errors.Is`: a node matches by itself, or something it unwraps to does. */
  predicate Is(e: Error, target: Sentinel)
    decreases e, 1
  {
    match e
    case Mark(s) => s == target
    case Opaque(_) => false
    case HTTPError(status, code, _) => HTTPErrorIs(status, code, target)
    case TransportError(inner, idempotent) => TransportErrorIs(inner, idempotent, target) || Is(inner, target)
    case StopRetry(cause) => Is(cause, target)
    case Wrapped(causes) => exists i :: 0 <= i < |causes| && Is(causes[i], target)
  }

  /** `errors.AsType[*HTTPError]`: the first HTTP error in depth-first order. */
  function FindHTTPError(e: Error): Option<Error>
    decreases e, 1
  {
    match e
    case Mark(_) => None
    case Opaque(_) => None
    case HTTPError(_, _, _) => Some(e)
    case TransportError(inner, _) => FindHTTPError(inner)
    case StopRetry(cause) => FindHTTPError(cause)
    case Wrapped(causes) => FindHTTPErrorAmong(causes)
  }

  function FindHTTPErrorAmong(causes: seq<Error>): Option<Error>
    decreases causes, 0
  {
    if causes == [] then None
    else
      var head := FindHTTPError(causes[0]);
      if head.Some? then head else FindHTTPErrorAmong(causes[1..])
  }

  /** `errors.AsType[*stopReplyRetryError]` succeeds. */
  predicate HasStop(e: Error) {
    match e
    case Mark(_) => false
    case Opaque(_) => false
    case HTTPError(_, _, _) => false
    case TransportError(inner, _) => HasStop(inner)
    case StopRetry(_) => true
    case Wrapped(causes) => exists i :: 0 <= i < |causes| && HasStop(causes[i])
  }

  predicate IsConflictCode(code: string) {
    code == PAYLOAD_MISMATCH || code == REQUEST_FAILED || code == OUTCOME_UNKNOWN || code == ALREADY_EXISTS
  }

  /** `ClientRequestIDConflictCode`: the admission verdict on the request id, or "". */
  function ClientRequestIDConflictCode(e: Error): string {
    var found := FindHTTPError(e);
    if found.Some? && found.value.HTTPError? && found.value.status == 409 && IsConflictCode(found.value.code)
    then found.value.code
    else ""
  }

  // ----- What a tree contains

  /** Every node reachable by unwrapping. */
  ghost function Nodes(e: Error): set<Error> {
    match e
    case Mark(_) => {e}
    case Opaque(_) => {e}
    case HTTPError(_, _, _) => {e}
    case TransportError(inner, _) => {e} + Nodes(inner)
    case StopRetry(cause) => {e} + Nodes(cause)
    case Wrapped(causes) => {e} + set i, n | 0 <= i < |causes| && n in Nodes(causes[i]) :: n
  }

  /** The match a node claims by itself, before anything is unwrapped. */
  ghost predicate Claims(n: Error, target: Sentinel) {
    match n
    case Mark(s) => s == target
    case HTTPError(status, code, _) => HTTPErrorIs(status, code, target)
    case TransportError(inner, idempotent) => TransportErrorIs(inner, idempotent, target)
    case _ => false
  }

  ghost predicate Reaches(e: Error, target: Sentinel) {
    exists n :: n in Nodes(e) && Claims(n, target)
  }

  lemma UnwrapReaches(e: Error, inner: Error, target: Sentinel)
    requires Nodes(e) == {e} + Nodes(inner)
    ensures Reaches(e, target) <==> Claims(e, target) || Reaches(inner, target)
  {
  }

  /** Matching is exactly reaching a node that claims the target. */
  lemma {:induction false} IsReachesClaim(e: Error, target: Sentinel)
    ensures Is(e, target) <==> Reaches(e, target)
  {
    match e
    case Mark(_) =>
      assert e in Nodes(e);
    case Opaque(_) =>
    case HTTPError(_, _, _) =>
      assert e in Nodes(e) && Is(e, target) == Claims(e, target);
    case TransportError(inner, _) =>
      IsReachesClaim(inner, target);
      UnwrapReaches(e, inner, target);
      assert Is(e, target) <==> Claims(e, target) || Is(inner, target);
    case StopRetry(cause) =>
      IsReachesClaim(cause, target);
      UnwrapReaches(e, cause, target);
    case Wrapped(causes) =>
      forall i | 0 <= i < |causes|
        ensures Is(causes[i], target) <==> Reaches(causes[i], target)
      {
        IsReachesClaim(causes[i], target);
      }
      if Is(e, target) {
        var i :| 0 <= i < |causes| && Is(causes[i], target);
        var n :| n in Nodes(causes[i]) && Claims(n, target);
        assert n in Nodes(e);
      }
  }

  /** `errors.As` finds an HTTP error exactly when the tree has one, and returns a node of the tree. */
  lemma {:induction false} FindHTTPErrorFindsNode(e: Error)
    ensures FindHTTPError(e).None? <==> forall n :: n in Nodes(e) ==> !n.HTTPError?
    ensures FindHTTPError(e).Some? ==> FindHTTPError(e).value in Nodes(e) && FindHTTPError(e).value.HTTPError?
    decreases e, 1
  {
    match e
    case Mark(_) =>
    case Opaque(_) =>
    case HTTPError(_, _, _) => assert e in Nodes(e);
    case TransportError(inner, _) => FindHTTPErrorFindsNode(inner);
    case StopRetry(cause) => FindHTTPErrorFindsNode(cause);
    case Wrapped(causes) =>
      FindHTTPErrorAmongFindsNode(causes);
      assert FindHTTPError(e) == FindHTTPErrorAmong(causes);
  }

  lemma {:induction false} FindHTTPErrorAmongFindsNode(causes: seq<Error>)
    ensures FindHTTPErrorAmong(causes).None? <==>
            forall i, n :: 0 <= i < |causes| && n in Nodes(causes[i]) ==> !n.HTTPError?
    ensures FindHTTPErrorAmong(causes).Some? ==>
              exists i :: 0 <= i < |causes| && FindHTTPErrorAmong(causes).value in Nodes(causes[i])
    ensures FindHTTPErrorAmong(causes).Some? ==> FindHTTPErrorAmong(causes).value.HTTPError?
    decreases causes, 0
  {
    if causes != [] {
      FindHTTPErrorFindsNode(causes[0]);
      FindHTTPErrorAmongFindsNode(causes[1..]);
      var tail := causes[1..];
      assert forall i :: 0 < i < |causes| ==> causes[i] == tail[i - 1];
      assert forall i :: 0 <= i < |tail| ==> tail[i] == causes[i + 1];
    }
  }

  /** A stop marker is found exactly when the tree has one. */
  lemma {:induction false} HasStopFindsNode(e: Error)
    ensures HasStop(e) <==> exists n :: n in Nodes(e) && n.StopRetry?
  {
    match e
    case TransportError(inner, _) => HasStopFindsNode(inner);
    case StopRetry(_) => assert e in Nodes(e);
    case Wrapped(causes) =>
      forall i | 0 <= i < |causes|
        ensures HasStop(causes[i]) <==> exists n :: n in Nodes(causes[i]) && n.StopRetry?
      {
        HasStopFindsNode(causes[i]);
      }
      if HasStop(e) {
        var i :| 0 <= i < |causes| && HasStop(causes[i]);
        var n :| n in Nodes(causes[i]) && n.StopRetry?;
        assert n in Nodes(e);
      }
    case _ =>
  }

  // ----- Errors made outside the package

  /** The classes a caller branches on; only this package's typed errors stand for them. */
  ghost predicate IsClass(s: Sentinel) {
    s == Retryable || s == Permanent || s == AuthFailed || s == RateLimited || s == Transport
  }

  ghost predicate ForeignNode(n: Error) {
    n.Opaque? || n.Wrapped? || (n.Mark? && !IsClass(n.sentinel))
  }

  /** A raw network, body or context error: no typed error of this package inside. */
  ghost predicate Foreign(e: Error) {
    forall n :: n in Nodes(e) ==> ForeignNode(n)
  }

  /** A raw error met while reading or closing a response body: the request had been sent. */
  ghost predicate BodyFault(e: Error) {
    Foreign(e) && !Is(e, NotSent)
  }

  lemma ForeignMatchesNoClass(e: Error, class_: Sentinel)
    requires Foreign(e) && IsClass(class_)
    ensures !Is(e, class_) && FindHTTPError(e).None?
  {
    IsReachesClaim(e, class_);
    FindHTTPErrorFindsNode(e);
  }

  ghost predicate NoHTTPError(e: Error) {
    forall n :: n in Nodes(e) ==> !n.HTTPError?
  }

  // ----- The two exclusive readings of a failure

  /** Nothing was sent: known for certain, and not confused with an unknown outcome. */
  ghost predicate DefinitelyNotSent(e: Error) {
    Is(e, NotSent) && !Is(e, Transport)
  }

  /** The tree holds no server answer and no proof that nothing was sent. */
  ghost predicate NoVerdict(e: Error) {
    && !Is(e, NotSent) && !Is(e, Permanent) && !Is(e, AuthFailed) && !Is(e, RateLimited)
    && NoHTTPError(e)
  }

  /** The request may have been admitted, and no other class can match first. */
  ghost predicate OutcomeUnknown(e: Error) {
    Is(e, Transport) && NoVerdict(e)
  }

  /** The documented law: the two sentinels never hold of one error. */
  ghost predicate Exclusive(e: Error) {
    !(Is(e, Transport) && Is(e, NotSent))
  }

  lemma WrappedIs(causes: seq<Error>, target: Sentinel)
    ensures |causes| == 1 ==> (Is(Wrapped(causes), target) <==> Is(causes[0], target))
    ensures |causes| == 2 ==> (Is(Wrapped(causes), target) <==> Is(causes[0], target) || Is(causes[1], target))
  {
  }

  /** Adding context to one error changes neither what it matches nor the answer inside it. */
  lemma WrappedOnce(e: Error, target: Sentinel)
    ensures Is(Wrapped([e]), target) <==> Is(e, target)
    ensures ClientRequestIDConflictCode(Wrapped([e])) == ClientRequestIDConflictCode(e)
  {
    WrappedIs([e], target);
    assert FindHTTPErrorAmong([e]) == FindHTTPError(e);
  }

  lemma WrappedNoVerdict(causes: seq<Error>)
    requires forall i :: 0 <= i < |causes| ==> NoVerdict(causes[i])
    ensures NoVerdict(Wrapped(causes))
  {
  }

  /** A typed transport error over anything without a verdict is an unknown outcome. */
  lemma TransportErrorUnknown(inner: Error, idempotent: bool)
    requires NoVerdict(inner)
    ensures OutcomeUnknown(TransportError(inner, idempotent))
  {
  }

  lemma ForeignNoVerdict(e: Error)
    requires BodyFault(e)
    ensures NoVerdict(e)
  {
    ForeignMatchesNoClass(e, Permanent);
    ForeignMatchesNoClass(e, AuthFailed);
    ForeignMatchesNoClass(e, RateLimited);
  }

  lemma WrappedNoHTTPError(causes: seq<Error>)
    requires forall i :: 0 <= i < |causes| ==> NoHTTPError(causes[i])
    ensures NoHTTPError(Wrapped(causes))
  {
  }

  lemma NoHTTPErrorNoConflict(e: Error)
    requires NoHTTPError(e)
    ensures ClientRequestIDConflictCode(e) == ""
  {
    FindHTTPErrorFindsNode(e);
  }
}
