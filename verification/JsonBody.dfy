/**
  Accepting a typed JSON response: a decoder over a limited reader, then a bounded drain
  of the trailer. The decoder is foreign; it may read ahead as far as it likes.
 */
module JsonBody {
  import opened Common
  import opened ErrorTrees
  import opened Text

  const MAX_RESPONSE: int := 16_777_216
  const MAX_TRAILER: int := 512

  ghost predicate PossibleFault(fault: Option<Error>) {
    fault.Some? ==> BodyFault(fault.value)
  }

  /** Where the one JSON value that starts a stream ends, if it decodes. */
  type ValueEnd = bytes -> Option<nat>

  ghost predicate EndsInside(json: ValueEnd) {
    forall s :: json(s).Some? ==> json(s).value <= |s|
  }

  predicate IsJSONSpace(b: byte) {
    b == 32 || b == 9 || b == 13 || b == 10
  }

  predicate AllSpace(s: bytes) {
    forall i :: 0 <= i < |s| ==> IsJSONSpace(s[i])
  }

  /** One decodable value, then at most 512 bytes of JSON white space, 16 MiB in all. */
  ghost predicate Acceptable(json: ValueEnd, data: bytes)
    requires EndsInside(json)
  {
    && |data| <= MAX_RESPONSE
    && json(data).Some?
    && |data| - json(data).value <= MAX_TRAILER
    && AllSpace(data[json(data).value..])
  }

  datatype End = More | AtEOF | Fails

  /**
    The response body: hands out its bytes in chunks of any size, and then, with the last of
    them or after it, the end mark or, when it has a fault, that fault.
   */
  class Stream {
    const data: bytes
    const fault: Option<Error>
    var pos: nat

    ghost predicate Valid()
      reads this
    {
      pos <= |data|
    }

    constructor (data: bytes, fault: Option<Error>)
      ensures this.data == data && this.fault == fault && pos == 0 && Valid()
    {
      this.data, this.fault := data, fault;
      pos := 0;
    }

    /** How the stream ends. */
    function Ending(): End {
      if fault.Some? then Fails else AtEOF
    }

    method Read(max: nat) returns (chunk: bytes, end: End)
      requires Valid() && max > 0
      modifies this
      ensures Valid() && old(pos) <= pos && chunk == data[old(pos)..pos] && |chunk| <= max
      ensures chunk == [] ==> end != More
      ensures end != More ==> pos == |data| && end == Ending()
    {
      if pos == |data| {
        return [], Ending();
      }
      var n: nat :| 1 <= n <= max && n <= |data| - pos;
      chunk := data[pos..pos + n];
      pos := pos + n;
      end :| end == More || (pos == |data| && end == Ending());
    }
  }

  /** `io.LimitedReader` over the body. */
  class LimitedReader {
    const body: Stream
    var left: int

    /** The limit has been counted down by exactly what was read. */
    ghost predicate Valid()
      reads this, body
    {
      body.Valid() && left == MAX_RESPONSE + 1 - body.pos && left >= 0
    }

    /** What the limit lets through. */
    ghost function Visible(): bytes
    {
      if |body.data| <= MAX_RESPONSE + 1 then body.data else body.data[..MAX_RESPONSE + 1]
    }

    constructor (body: Stream)
      requires body.pos == 0
      ensures this.body == body && Valid()
    {
      this.body := body;
      left := MAX_RESPONSE + 1;
    }

    method Read(max: nat) returns (chunk: bytes, end: End)
      requires Valid() && max > 0
      modifies this, body
      ensures Valid() && old(body.pos) <= body.pos <= |Visible()|
      ensures chunk == Visible()[old(body.pos)..body.pos] && |chunk| <= max
      ensures chunk == [] ==> end != More
      ensures end != More ==> body.pos == |Visible()|
      ensures end != More && |body.data| <= MAX_RESPONSE ==> end == body.Ending()
      ensures end == Fails ==> body.fault.Some?
    {
      if left <= 0 {
        return [], AtEOF;
      }
      chunk, end := body.Read(Min(max, left));
      left := left - |chunk|;
    }
  }

  /**
    `UnmarshalDecode`: finds the value of the visible stream, having read at least up to its
    end; `unread` is what it buffered beyond. On a stream with a fault it may give up instead.
    Any decoder that does this may stand here.
   */
  method UnmarshalDecode(json: ValueEnd, limited: LimitedReader)
    returns (err: Option<Error>, ghost end: nat, unread: bytes)
    requires limited.Valid() && limited.body.pos == 0 && EndsInside(json) && PossibleFault(limited.body.fault)
    modifies limited, limited.body
    ensures limited.Valid() && limited.body.pos <= |limited.Visible()|
    ensures err.None? ==> json(limited.Visible()).Some?
    ensures err.None? ==> end == json(limited.Visible()).value <= limited.body.pos
    ensures err.None? ==> unread == limited.Visible()[end..limited.body.pos]
    ensures err.Some? && limited.body.fault.None? ==> json(limited.Visible()).None?
    ensures PossibleFault(err)
  {
    var read: bytes := [];
    var status := More;
    while status == More
      invariant limited.Valid() && read == limited.Visible()[..limited.body.pos]
      invariant limited.body.pos <= |limited.Visible()|
      invariant status != More ==> limited.body.pos == |limited.Visible()|
      invariant status == Fails ==> limited.body.fault.Some?
      decreases if status == More then 1 else 0, |limited.Visible()| - limited.body.pos
    {
      var chunk;
      chunk, status := limited.Read(4096);
      read := read + chunk;
    }
    assert read == limited.Visible();
    end, unread := 0, [];
    if status == Fails {
      return limited.body.fault, end, unread;
    }
    var found := json(read);
    if found.None? {
      OpaqueIsFault("decode");
      return Some(Opaque("decode")), end, unread;
    }
    end := found.value;
    unread := read[found.value..];
    err := None;
  }

  lemma OpaqueIsFault(message: string)
    ensures BodyFault(Opaque(message))
  {
  }

  /** `io.LimitReader(io.MultiReader(unread, limited), 513)`. */
  class TrailerReader {
    var unread: bytes
    const limited: LimitedReader
    var budget: int

    ghost predicate Valid()
      reads this, limited, limited.body
    {
      limited.Valid() && limited.body.pos <= |limited.Visible()| && budget >= 0
    }

    /** Everything after the value that has not been handed out. */
    ghost function Rest(): bytes
      requires Valid()
      reads this, limited, limited.body
    {
      unread + limited.Visible()[limited.body.pos..]
    }

    constructor (unread: bytes, limited: LimitedReader)
      requires limited.Valid() && limited.body.pos <= |limited.Visible()|
      ensures this.unread == unread && this.limited == limited && budget == MAX_TRAILER + 1
      ensures Valid()
    {
      this.unread, this.limited, budget := unread, limited, MAX_TRAILER + 1;
    }

    method Read(max: nat) returns (chunk: bytes, end: End)
      requires Valid() && max > 0
      modifies this, limited, limited.body
      ensures Valid() && budget == old(budget) - |chunk| && old(Rest()) == chunk + Rest()
      ensures chunk == [] ==> end != More
      ensures end != More ==> budget == 0 || Rest() == []
      ensures end == AtEOF ==> budget == 0 || limited.body.fault.None? || limited.left == 0
      ensures end == Fails ==> limited.body.fault.Some?
    {
      if budget <= 0 {
        return [], AtEOF;
      }
      var want := Min(max, budget);
      if unread != [] {
        var n := Min(want, |unread|);
        chunk, end := unread[..n], More;
        unread := unread[n..];
        budget := budget - n;
        assert old(unread) == chunk + unread;
      } else {
        ghost var before := limited.body.pos;
        chunk, end := limited.Read(want);
        budget := budget - |chunk|;
        assert limited.Visible()[before..] == chunk + limited.Visible()[limited.body.pos..];
      }
    }
  }

  lemma AllSpaceAppends(s: bytes, t: bytes)
    ensures AllSpace(s + t) <==> AllSpace(s) && AllSpace(t)
  {
    assert forall i :: 0 <= i < |s| ==> (s + t)[i] == s[i];
    assert forall i :: 0 <= i < |t| ==> (s + t)[|s| + i] == t[i];
  }

  /** Reading one more chunk of the trailer. */
  lemma TrailerAdvances(rest: bytes, seen: bytes, before: bytes, chunk: bytes, after: bytes)
    requires rest == seen + before && before == chunk + after && AllSpace(seen)
    ensures rest == seen + chunk + after && rest[..|seen + chunk|] == seen + chunk
    ensures AllSpace(chunk) ==> AllSpace(seen + chunk)
    ensures !AllSpace(chunk) ==> !AllSpace(rest)
  {
    AllSpaceAppends(seen, chunk);
    AllSpaceAppends(chunk, after);
    AllSpaceAppends(seen, before);
  }

  method ScanSpace(chunk: bytes) returns (ok: bool)
    ensures ok <==> AllSpace(chunk)
  {
    for i := 0 to |chunk|
      invariant AllSpace(chunk[..i])
    {
      if !IsJSONSpace(chunk[i]) {
        return false;
      }
    }
    assert chunk[..|chunk|] == chunk;
    ok := true;
  }

  /** `validateJSONTrailer`: reads until the end, a read error or the first chunk with an unexpected byte. */
  method ValidateJSONTrailer(trailer: TrailerReader) returns (total: int, err: Option<Error>)
    requires trailer.Valid() && trailer.budget == MAX_TRAILER + 1 && PossibleFault(trailer.limited.body.fault)
    modifies trailer, trailer.limited, trailer.limited.body
    ensures trailer.Valid() && PossibleFault(err)
    ensures err.None? ==>
              && total == Min(MAX_TRAILER + 1, |old(trailer.Rest())|)
              && AllSpace(old(trailer.Rest())[..total])
              && (total <= MAX_TRAILER ==>
                    trailer.Rest() == [] && (trailer.limited.body.fault.None? || trailer.limited.left == 0))
    ensures err.Some? ==> !AllSpace(old(trailer.Rest())) || trailer.limited.body.fault.Some?
    ensures err.Some? && trailer.limited.body.fault.None? ==> Is(err.value, UnexpectedBytes)
  {
    ghost var rest := trailer.Rest();
    ghost var seen: bytes := [];
    total := 0;
    while true
      invariant trailer.Valid() && rest == seen + trailer.Rest()
      invariant total == |seen| && trailer.budget == MAX_TRAILER + 1 - total
      invariant AllSpace(seen)
      decreases trailer.budget
    {
      ghost var before := trailer.Rest();
      var chunk, end := trailer.Read(4096);
      total := total + |chunk|;
      TrailerAdvances(rest, seen, before, chunk, trailer.Rest());
      var spaces := ScanSpace(chunk);
      if !spaces {
        MarkIsFault(UnexpectedBytes);
        return total, Some(Mark(UnexpectedBytes));
      }
      seen := seen + chunk;
      if end == Fails {
        WrappedFault(trailer.limited.body.fault.value);
        return total, Some(Wrapped([trailer.limited.body.fault.value]));
      }
      if end == AtEOF {
        return total, None;
      }
    }
  }

  /** The verdict on a body; a cause is what `decodeJSONBody` wraps in its transport error. */
  datatype Verdict = Accepted | Rejected(cause: Error)

  lemma MarkIsFault(s: Sentinel)
    requires !IsClass(s) && s != NotSent
    ensures BodyFault(Mark(s))
  {
  }

  lemma WrappedFault(e: Error)
    requires BodyFault(e)
    ensures BodyFault(Wrapped([e]))
    ensures forall target :: Is(Wrapped([e]), target) <==> Is(e, target)
  {
    forall target
      ensures Is(Wrapped([e]), target) <==> Is(e, target)
    {
      WrappedIs([e], target);
    }
    var wrapped := Wrapped([e]);
    assert forall n :: n in Nodes(wrapped) ==> n == wrapped || n in Nodes(e);
  }

  /** `errors.Join(err, ErrResponseTooLarge)`. */
  function JoinTooLarge(err: Option<Error>): Error {
    if err.Some? then Wrapped([err.value, Wrapped([Mark(TooLarge)])]) else Wrapped([Wrapped([Mark(TooLarge)])])
  }

  lemma JoinedFault(err: Option<Error>)
    requires PossibleFault(err)
    ensures BodyFault(JoinTooLarge(err))
    ensures forall target :: Is(JoinTooLarge(err), target) <==> (err.Some? && Is(err.value, target)) || target == TooLarge
  {
    var limit := Wrapped([Mark(TooLarge)]);
    MarkIsFault(TooLarge);
    WrappedFault(Mark(TooLarge));
    if err.None? {
      WrappedFault(limit);
    } else {
      var joined := Wrapped([err.value, limit]);
      forall target
        ensures Is(joined, target) <==> Is(err.value, target) || target == TooLarge
      {
        WrappedIs([err.value, limit], target);
      }
      assert forall n :: n in Nodes(joined) ==> n == joined || n in Nodes(err.value) || n in Nodes(limit);
    }
  }

  /** The request context after the drain: live, cancelled by the drain deadline, or ended otherwise. */
  datatype DrainContext = Live | TimedOut | Over

  /**
    `classifyTrailerDrain`: no fault exactly when the end was read within both limits. The size
    limits and an unexpected byte stay visible; any other read error is reported as the drain
    deadline or the end of the context when one of those has struck.
   */
  method ClassifyTrailerDrain(context: DrainContext, left: int, read: int, err: Option<Error>)
    returns (fault: Option<Error>)
    requires PossibleFault(err)
    ensures PossibleFault(fault)
    ensures fault.None? <==> read <= MAX_TRAILER && left != 0 && err.None?
    ensures fault.Some? && Is(fault.value, TooLarge) <==>
            read > MAX_TRAILER || left == 0 || (err.Some? && Is(err.value, TooLarge))
    ensures read <= MAX_TRAILER && err.Some? && Is(err.value, UnexpectedBytes) ==> Is(fault.value, UnexpectedBytes)
    ensures fault.Some? && !Is(fault.value, TooLarge) && !Is(err.value, UnexpectedBytes) ==>
              match context
              case TimedOut => fault.value == Mark(DrainTimeout)
              case Over => Is(fault.value, ContextEnded)
              case Live => fault == err
  {
    if read > MAX_TRAILER {
      MarkIsFault(TooLarge);
      WrappedFault(Mark(TooLarge));
      return Some(Wrapped([Mark(TooLarge)]));
    }
    JoinedFault(err);
    var joined := if left == 0 then Some(JoinTooLarge(err)) else err;
    if joined.None? || Is(joined.value, UnexpectedBytes) || Is(joined.value, TooLarge) {
      return joined;
    }
    match context {
      case TimedOut =>
        MarkIsFault(DrainTimeout);
        return Some(Mark(DrainTimeout));
      case Over =>
        MarkIsFault(ContextEnded);
        WrappedFault(Mark(ContextEnded));
        return Some(Wrapped([Mark(ContextEnded)]));
      case Live =>
        return joined;
    }
  }

  /** The trailer stage: everything after the value is white space, within both limits, to a clean end. */
  method DrainTrailer(context: DrainContext, limited: LimitedReader, unread: bytes) returns (fault: Option<Error>)
    requires limited.Valid() && limited.body.pos <= |limited.Visible()| && PossibleFault(limited.body.fault)
    modifies limited, limited.body
    ensures limited.Valid() && PossibleFault(fault)
    ensures var rest := unread + limited.Visible()[old(limited.body.pos)..];
            fault.None? <==>
            |rest| <= MAX_TRAILER && AllSpace(rest) && |limited.body.data| <= MAX_RESPONSE && limited.body.fault.None?
  {
    var trailer := new TrailerReader(unread, limited);
    ghost var rest := trailer.Rest();
    var read, err := ValidateJSONTrailer(trailer);
    fault := ClassifyTrailerDrain(context, limited.left, read, err);
    assert read == |rest| ==> rest[..read] == rest;
  }

  /**
    `decodeJSONBody`: for every body, however it is chunked, however far the decoder reads
    ahead and wherever it fails, acceptance depends on the body alone, and at most 16 MiB and
    one byte are read.
   */
  method DecodeJSONBody(json: ValueEnd, context: DrainContext, body: Stream) returns (verdict: Verdict)
    requires EndsInside(json) && body.pos == 0 && PossibleFault(body.fault)
    modifies body
    ensures verdict.Accepted? <==> Acceptable(json, body.data) && body.fault.None?
    ensures verdict.Rejected? ==> BodyFault(verdict.cause)
    ensures body.pos <= MAX_RESPONSE + 1
  {
    var limited := new LimitedReader(body);
    var err, end, unread := UnmarshalDecode(json, limited);
    JoinedFault(err);
    if limited.left == 0 {
      return Rejected(JoinTooLarge(err));
    }
    if err.Some? {
      return Rejected(err.value);
    }
    ghost var rest := limited.Visible()[end..];
    assert unread + limited.Visible()[limited.body.pos..] == rest;
    var fault := DrainTrailer(context, limited, unread);
    return if fault.Some? then Rejected(fault.value) else Accepted;
  }
}
