/**
  Signer and verifier agree. Signing leaves headers under other spellings in the map, and the
  receiver reads the fields in the order they arrive; the exact condition is over every order.
 */
module WebhookAgreement {
  import opened Common
  import opened Text
  import opened Sorting
  import opened CanonicalTarget
  import opened ReplayWindow
  import opened WebhookTranscript
  import opened WebhookAuth

  // ----- What setting headers leaves in the map

  lemma {:induction false} ValuesAppend(s: seq<Field>, t: seq<Field>, name: Name)
    ensures Values(s + t, name) == Values(s, name) + Values(t, name)
  {
    if s == [] {
      assert s + t == t;
    } else {
      assert (s + t)[1..] == s[1..] + t;
      ValuesAppend(s[1..], t, name);
      Associative(if s[0].name == name then [s[0].value] else [], Values(s[1..], name), Values(t, name));
    }
  }

  lemma {:induction false} RemoveMembers(fields: seq<Field>, removed: Name, anySpelling: bool, f: Field)
    ensures f in Remove(fields, removed, anySpelling) <==> f in fields && !IsRemoved(f, removed, anySpelling)
  {
    if fields != [] {
      RemoveMembers(fields[1..], removed, anySpelling, f);
      assert f in fields <==> f == fields[0] || f in fields[1..];
    }
  }

  lemma SetMembers(fields: seq<Field>, name: Name, value: bytes, f: Field)
    ensures f in Set(fields, name, value) <==>
            f == Field(name, true, value) || (f in fields && !(f.name == name && f.canonical))
  {
    RemoveMembers(fields, name, false, f);
  }

  /** The fields `signRequest` writes. */
  ghost predicate IsStamp(f: Field, s: Stamp) {
    f.canonical
    && match f.name
       case Version => f.value == V3
       case Timestamp => f.value == s.timestamp
       case Nonce => f.value == s.nonce
       case BodySHA256 => f.value == s.bodySHA256
       case Signature => f.value == s.signature
       case MessageID => f.value == s.messageID
       case Other(_) => false
  }

  /** The fields that were there before and that `signRequest` does not touch. */
  predicate IsLeft(f: Field) {
    f.name.Other? || (!f.canonical && f.name != MessageID)
  }

  /** The map after signing: the six stamped fields, and what was there under other names or spellings. */
  lemma StampMembers(fields: seq<Field>, s: Stamp, f: Field)
    ensures f in StampFields(fields, s) <==> IsStamp(f, s) || (f in fields && IsLeft(f))
  {
    var f1 := Set(fields, Version, V3);
    SetMembers(fields, Version, V3, f);
    var f2 := Set(f1, Timestamp, s.timestamp);
    SetMembers(f1, Timestamp, s.timestamp, f);
    var f3 := Set(f2, Nonce, s.nonce);
    SetMembers(f2, Nonce, s.nonce, f);
    var f4 := Set(f3, BodySHA256, s.bodySHA256);
    SetMembers(f3, BodySHA256, s.bodySHA256, f);
    var f5 := Set(f4, Signature, s.signature);
    SetMembers(f4, Signature, s.signature, f);
    RemoveMembers(f5, MessageID, true, f);
    SetMembers(Remove(f5, MessageID, true), MessageID, s.messageID, f);
  }

  lemma {:induction false} ValuesRemoveOther(fields: seq<Field>, removed: Name, anySpelling: bool, name: Name)
    requires name != removed
    ensures Values(Remove(fields, removed, anySpelling), name) == Values(fields, name)
  {
    if fields != [] {
      var rest := Remove(fields[1..], removed, anySpelling);
      ValuesRemoveOther(fields[1..], removed, anySpelling, name);
      if IsRemoved(fields[0], removed, anySpelling) {
        assert Remove(fields, removed, anySpelling) == [] + rest == rest;
        assert Values(fields, name) == [] + Values(fields[1..], name);
      } else {
        assert ([fields[0]] + rest)[1..] == rest;
      }
    }
  }

  lemma SetKeepsOthers(fields: seq<Field>, set_: Name, value: bytes, name: Name)
    requires name != set_
    ensures Values(Set(fields, set_, value), name) == Values(fields, name)
  {
    ValuesRemoveOther(fields, set_, false, name);
    ValuesAppend(Remove(fields, set_, false), [Field(set_, true, value)], name);
  }

  lemma {:induction false} NoValues(fields: seq<Field>, name: Name)
    requires forall f :: f in fields ==> f.name != name
    ensures Values(fields, name) == []
  {
    if fields != [] {
      NoValues(fields[1..], name);
    }
  }

  lemma {:induction false} SomeValue(fields: seq<Field>, f: Field)
    requires f in fields
    ensures Values(fields, f.name) != []
  {
    if fields[0] != f {
      SomeValue(fields[1..], f);
    }
  }

  /** The values of a header after it was set: its own last, after those under other spellings. */
  lemma SetValues(fields: seq<Field>, name: Name, value: bytes)
    ensures (exists f :: f in fields && f.name == name && !f.canonical) ==> |Values(Set(fields, name, value), name)| > 1
    ensures (forall f :: f in fields && f.name == name ==> f.canonical) ==> Values(Set(fields, name, value), name) == [value]
  {
    var kept := Remove(fields, name, false);
    ValuesAppend(kept, [Field(name, true, value)], name);
    if f :| f in fields && f.name == name && !f.canonical {
      RemoveMembers(fields, name, false, f);
      SomeValue(kept, f);
    } else {
      forall f | f in kept
        ensures f.name != name
      {
        RemoveMembers(fields, name, false, f);
      }
      NoValues(kept, name);
    }
  }

  /** Only one version, unless another spelling was there; always one message id. */
  lemma StampedVersionAndID(fields: seq<Field>, s: Stamp)
    ensures (exists f :: f in fields && f.name == Version && !f.canonical) ==> |Values(StampFields(fields, s), Version)| > 1
    ensures (forall f :: f in fields && f.name == Version ==> f.canonical) ==>
              Values(StampFields(fields, s), Version) == [V3]
    ensures Values(StampFields(fields, s), MessageID) == [s.messageID]
  {
    var f1 := Set(fields, Version, V3);
    SetValues(fields, Version, V3);
    var f2 := Set(f1, Timestamp, s.timestamp);
    SetKeepsOthers(f1, Timestamp, s.timestamp, Version);
    var f3 := Set(f2, Nonce, s.nonce);
    SetKeepsOthers(f2, Nonce, s.nonce, Version);
    var f4 := Set(f3, BodySHA256, s.bodySHA256);
    SetKeepsOthers(f3, BodySHA256, s.bodySHA256, Version);
    var f5 := Set(f4, Signature, s.signature);
    SetKeepsOthers(f4, Signature, s.signature, Version);
    var f6 := Remove(f5, MessageID, true);
    ValuesRemoveOther(f5, MessageID, true, Version);
    SetKeepsOthers(f6, MessageID, s.messageID, Version);
    forall f | f in f6
      ensures f.name != MessageID
    {
      RemoveMembers(f5, MessageID, true, f);
    }
    SetValues(f6, MessageID, s.messageID);
  }

  // ----- Any order on the wire

  /** The fields as they arrive, in some order. */
  ghost predicate IsOrderOf(wire: seq<Field>, fields: seq<Field>) {
    multiset(wire) == multiset(fields)
  }

  function ValueBag(f: Field, name: Name): multiset<bytes> {
    if f.name == name then multiset{f.value} else multiset{}
  }

  lemma {:induction false} ValuesWithout(fields: seq<Field>, k: nat, name: Name)
    requires k < |fields|
    ensures multiset(Values(fields, name)) == ValueBag(fields[k], name) + multiset(Values(Without(fields, k), name))
  {
    var front, back := fields[..k], fields[k + 1..];
    assert fields == front + ([fields[k]] + back);
    ValuesAppend(front, [fields[k]] + back, name);
    ValuesAppend(front, back, name);
    ValuesPrepend(fields[k], back, name);
  }

  lemma ValuesPrepend(f: Field, rest: seq<Field>, name: Name)
    ensures multiset(Values([f] + rest, name)) == ValueBag(f, name) + multiset(Values(rest, name))
  {
    assert ([f] + rest)[1..] == rest;
  }

  lemma {:induction false} ValuesRearrange(s: seq<Field>, t: seq<Field>, name: Name)
    requires multiset(s) == multiset(t)
    ensures multiset(Values(s, name)) == multiset(Values(t, name))
  {
    assert |s| == |multiset(s)| == |multiset(t)| == |t|;
    if s != [] {
      assert s[0] in multiset(t);
      var k :| 0 <= k < |t| && t[k] == s[0];
      RemovedRearrange(s, t, 0, k);
      ValuesRearrange(Without(s, 0), Without(t, k), name);
      ValuesWithout(s, 0, name);
      ValuesWithout(t, k, name);
    }
  }

  lemma SingletonRearranges(s: seq<bytes>, x: bytes)
    requires multiset(s) == multiset([x])
    ensures s == [x]
  {
    assert |s| == |multiset(s)| == 1;
    assert s[0] in multiset(s);
  }

  lemma {:induction false} GetIsMember(fields: seq<Field>, g: Field) returns (f: Field)
    requires g in fields
    ensures f in fields && f.name == g.name && f.value == Get(fields, g.name)
  {
    if fields[0].name == g.name {
      f := fields[0];
    } else {
      f := GetIsMember(fields[1..], g);
      assert [] + Values(fields[1..], g.name) == Values(fields[1..], g.name);
    }
  }

  // ----- When a second spelling does no harm

  /** A field under another spelling that cannot change what the receiver reads. */
  predicate IsHarmless(f: Field, s: Stamp) {
    match f.name
    case Version => false
    case Timestamp => TrimSpace(f.value) == s.timestamp
    case Nonce => TrimSpace(f.value) == s.nonce
    case BodySHA256 => TrimSpace(f.value) == s.bodySHA256
    case Signature => TrimSpace(f.value) == s.signature
    case MessageID => true
    case Other(_) => true
  }

  ghost predicate StraysAreHarmless(fields: seq<Field>, s: Stamp) {
    forall f :: f in fields && !f.canonical ==> IsHarmless(f, s)
  }

  ghost predicate IsTrimmedStamp(s: Stamp) {
    IsTrimmed(s.timestamp) && IsTrimmed(s.nonce) && IsTrimmed(s.signature) && IsTrimmed(s.bodySHA256)
  }

  /** The header values of a stamp. */
  function StampValues(s: Stamp): HeaderValues {
    HeaderValues([V3], s.timestamp, s.nonce, s.signature, s.bodySHA256, [s.messageID])
  }

  function StampedValue(s: Stamp, name: Name): bytes {
    match name
    case Version => V3
    case Timestamp => s.timestamp
    case Nonce => s.nonce
    case BodySHA256 => s.bodySHA256
    case Signature => s.signature
    case MessageID => s.messageID
    case Other(_) => []
  }

  predicate IsRead(name: Name) {
    name == Timestamp || name == Nonce || name == BodySHA256 || name == Signature
  }

  lemma OrderMembers(wire: seq<Field>, fields: seq<Field>, f: Field)
    requires IsOrderOf(wire, fields)
    ensures f in wire <==> f in fields
  {
    assert f in wire <==> f in multiset(wire);
    assert f in fields <==> f in multiset(fields);
  }

  lemma ReadsStampedValue(wire: seq<Field>, fields: seq<Field>, s: Stamp, name: Name)
    requires IsOrderOf(wire, StampFields(fields, s)) && StraysAreHarmless(fields, s) && IsTrimmedStamp(s) && IsRead(name)
    ensures TrimSpace(Get(wire, name)) == StampedValue(s, name)
  {
    var own := Field(name, true, StampedValue(s, name));
    StampMembers(fields, s, own);
    OrderMembers(wire, StampFields(fields, s), own);
    var f := GetIsMember(wire, own);
    OrderMembers(wire, StampFields(fields, s), f);
    StampMembers(fields, s, f);
    TrimSpaceTrims(StampedValue(s, name));
  }

  /** With harmless strays the receiver reads back exactly what the signer stamped, in every order. */
  lemma StampedHeaders(wire: seq<Field>, fields: seq<Field>, s: Stamp)
    requires IsOrderOf(wire, StampFields(fields, s)) && StraysAreHarmless(fields, s) && IsTrimmedStamp(s)
    ensures ReadHeaders(wire) == StampValues(s)
  {
    ReadsStampedValue(wire, fields, s, Timestamp);
    ReadsStampedValue(wire, fields, s, Nonce);
    ReadsStampedValue(wire, fields, s, BodySHA256);
    ReadsStampedValue(wire, fields, s, Signature);
    StampedVersionAndID(fields, s);
    ValuesRearrange(wire, StampFields(fields, s), Version);
    SingletonRearranges(Values(wire, Version), V3);
    OneMessageID(wire, fields, s);
  }

  lemma OneMessageID(wire: seq<Field>, fields: seq<Field>, s: Stamp)
    requires IsOrderOf(wire, StampFields(fields, s))
    ensures Values(wire, MessageID) == [s.messageID]
  {
    StampedVersionAndID(fields, s);
    ValuesRearrange(wire, StampFields(fields, s), MessageID);
    SingletonRearranges(Values(wire, MessageID), s.messageID);
  }

  // ----- What a stamp says

  lemma HexDigestIsTrimmed(s: bytes)
    requires IsHexDigest(s)
    ensures IsTrimmed(s)
  {
  }

  lemma NormalizedIDIsStable(raw: bytes)
    requires NormalizeMessageID(raw).Some?
    ensures NormalizeMessageID(NormalizeMessageID(raw).value) == NormalizeMessageID(raw)
  {
    TrimSpaceTrims(raw);
  }

  /** The Host line a client sends: the request's Host, or the URL's when it is empty. */
  function SentHost(d: Draft): bytes {
    if d.host == [] then d.urlHost else d.host
  }

  lemma SigningTranscriptIsSentHosts(lib: Library, d: Draft, x: Signed)
    requires SigningTranscript(lib, d, x).Ok?
    ensures CanonicalWebhookRequestV3(lib, x.(authority := SentHost(d))) == Some(SigningTranscript(lib, d, x).value)
  {
  }

  /** What a stamp says, and that it was made from the transcript of the Host that is sent. */
  ghost predicate Stamped(c: Crypto, lib: Library, d: Draft, key: bytes, body: bytes, s: Stamp) {
    && d.verb == POST && Canonical(d.uri, false).Ok?
    && s.timestamp != [] && s.nonce != [] && s.messageID != []
    && IsTrimmed(s.timestamp) && IsTrimmed(s.nonce)
    && NormalizeMessageID(s.messageID) == Some(s.messageID)
    && s.bodySHA256 == c.sha(body)
    && var transcript := CanonicalWebhookRequestV3(
                           lib,
                           Signed(SentHost(d), d.verb, Canonical(d.uri, false).value, s.timestamp, s.nonce,
                                  s.messageID, s.bodySHA256));
       transcript.Some? && s.signature == c.mac(key, transcript.value)
  }

  lemma MadeStampIsStamped(
    c: Crypto, lib: Library, d: Draft, secret: bytes, body: bytes, timestamp: bytes, nonce: bytes)
    requires MakeStamp(c, lib, d, secret, body, timestamp, nonce).Ok?
    ensures var stamp := MakeStamp(c, lib, d, secret, body, timestamp, nonce).value;
            Stamped(c, lib, d, TrimSpace(secret), body, stamp)
            && stamp.timestamp == TrimSpace(timestamp) && stamp.nonce == TrimSpace(nonce)
  {
    var stamp := MakeStamp(c, lib, d, secret, body, timestamp, nonce).value;
    TrimSpaceTrims(timestamp);
    TrimSpaceTrims(nonce);
    NormalizedIDIsStable(Values(d.fields, MessageID)[0]);
    SigningTranscriptIsSentHosts(
      lib, d,
      Signed([], d.verb, Canonical(d.uri, false).value, stamp.timestamp, stamp.nonce, stamp.messageID, stamp.bodySHA256));
  }

  lemma ConstantsAreCanonical(lib: Library)
    requires MapsAsciiCase(lib)
    ensures lib.lower(V3) == V3 && IsTrimmed(V3) && lib.upper(POST) == POST
  {
    assert IsAscii(V3) && IsAscii(POST);
  }

  /** The request the signer meant: its key, and every check passed. */
  function SignedAs(d: Draft, s: Stamp): Request {
    Request(Key(POST, TargetOrEmpty(d.uri), s.timestamp, s.nonce), true, true, true)
  }

  /** The request as it arrives with its fields in the order of `wire`. */
  function Delivered(d: Draft, wire: seq<Field>, body: bytes): Received {
    Received(d.verb, SentHost(d), d.uri, wire, body)
  }

  lemma StampIsTrimmed(c: Crypto, lib: Library, d: Draft, key: bytes, body: bytes, s: Stamp)
    requires HexDigests(c) && Stamped(c, lib, d, key, body, s)
    ensures IsTrimmedStamp(s) && s.signature != [] && s.bodySHA256 != []
  {
    assert IsHexDigest(s.bodySHA256) && IsHexDigest(s.signature);
    HexDigestIsTrimmed(s.bodySHA256);
    HexDigestIsTrimmed(s.signature);
  }

  lemma StampedHeadersOk(lib: Library, r: Received, s: Stamp)
    requires MapsAsciiCase(lib) && r.verb == POST && Canonical(r.uri, false).Ok?
    requires s.timestamp != [] && s.nonce != [] && s.signature != [] && s.bodySHA256 != [] && s.messageID != []
    requires NormalizeMessageID(s.messageID) == Some(s.messageID)
    ensures HeadersOk(lib, r, StampValues(s))
  {
    ConstantsAreCanonical(lib);
    assert VersionAccepted(lib, [V3]);
    assert HeaderMessageID([s.messageID]) == Some(s.messageID);
  }

  /** With the stamped key, id and digest, the signature check compares with the stamped signature. */
  lemma SignatureComparesStamp(h: Handler, c: Crypto, lib: Library, d: Draft, r: Received, s: Stamp, v: HeaderValues)
    requires Stamped(c, lib, d, h.token, r.body, s)
    requires r.verb == d.verb && r.host == SentHost(d) && r.uri == d.uri
    requires v.timestamp == s.timestamp && v.nonce == s.nonce && v.messageIDs == [s.messageID]
    ensures SignatureOk(h, c, lib, r, v) <==> v.signature == s.signature
  {
    assert HeaderMessageID([s.messageID]) == Some(s.messageID);
    assert TargetOrEmpty(r.uri) == Canonical(d.uri, false).value;
  }

  lemma HarmlessIsAccepted(
    h: Handler, c: Crypto, lib: Library, d: Draft, body: bytes, s: Stamp, wire: seq<Field>)
    requires HexDigests(c) && MapsAsciiCase(lib) && |body| <= h.maxBodyBytes
    requires Stamped(c, lib, d, h.token, body, s) && StraysAreHarmless(d.fields, s)
    requires IsOrderOf(wire, StampFields(d.fields, s))
    ensures Classify(h, c, lib, Delivered(d, wire, body)) == SignedAs(d, s)
  {
    var r := Delivered(d, wire, body);
    StampIsTrimmed(c, lib, d, h.token, body, s);
    StampedHeaders(wire, d.fields, s);
    StampedHeadersOk(lib, r, s);
    SignatureComparesStamp(h, c, lib, d, r, s, StampValues(s));
    ConstantsAreCanonical(lib);
  }

  /** Some order in which a given field comes first. */
  lemma BringToFront(fields: seq<Field>, f: Field) returns (wire: seq<Field>)
    requires f in fields
    ensures IsOrderOf(wire, fields) && Get(wire, f.name) == f.value
  {
    var k :| 0 <= k < |fields| && fields[k] == f;
    wire := [f] + Without(fields, k);
    WithoutOne(fields, k);
    assert wire[1..] == Without(fields, k);
  }

  lemma StrayVersionIsRefused(h: Handler, c: Crypto, lib: Library, d: Draft, body: bytes, s: Stamp, f: Field)
    requires f in d.fields && !f.canonical && f.name == Version
    ensures !Classify(h, c, lib, Delivered(d, StampFields(d.fields, s), body)).headersOk
  {
    StampedVersionAndID(d.fields, s);
  }

  /** A request whose first timestamp, nonce, digest or signature is not the stamped one is not the signed one. */
  lemma OtherValueIsNotSigned(
    h: Handler, c: Crypto, lib: Library, d: Draft, body: bytes, s: Stamp, wire: seq<Field>, name: Name)
    requires Stamped(c, lib, d, h.token, body, s) && Values(wire, MessageID) == [s.messageID]
    requires IsRead(name) && TrimSpace(Get(wire, name)) != StampedValue(s, name)
    ensures Classify(h, c, lib, Delivered(d, wire, body)) != SignedAs(d, s)
  {
    var v := ReadHeaders(wire);
    if v.timestamp == s.timestamp && v.nonce == s.nonce {
      SignatureComparesStamp(h, c, lib, d, Delivered(d, wire, body), s, v);
    }
  }

  /** A harmful stray spoils some order: the receiver reads it in place of the stamped value. */
  lemma HarmfulIsNotAccepted(h: Handler, c: Crypto, lib: Library, d: Draft, body: bytes, s: Stamp, f: Field)
    returns (wire: seq<Field>)
    requires Stamped(c, lib, d, h.token, body, s)
    requires f in d.fields && !f.canonical && !IsHarmless(f, s)
    ensures IsOrderOf(wire, StampFields(d.fields, s))
    ensures Classify(h, c, lib, Delivered(d, wire, body)) != SignedAs(d, s)
  {
    if f.name == Version {
      wire := StampFields(d.fields, s);
      StrayVersionIsRefused(h, c, lib, d, body, s, f);
    } else {
      StampMembers(d.fields, s, f);
      wire := BringToFront(StampFields(d.fields, s), f);
      OneMessageID(wire, d.fields, s);
      OtherValueIsNotSigned(h, c, lib, d, body, s, wire, f.name);
    }
  }

  /**
    A signed request is classified as the request the signer meant, whatever order its fields
    arrive in, if and only if no version header was in the map under another spelling and every
    other signature header that was carries the stamped value.
   */
  lemma AcceptedInEveryOrderExactly(h: Handler, c: Crypto, lib: Library, d: Draft, body: bytes, s: Stamp)
    requires HexDigests(c) && MapsAsciiCase(lib) && |body| <= h.maxBodyBytes
    requires Stamped(c, lib, d, h.token, body, s)
    ensures (forall wire :: IsOrderOf(wire, StampFields(d.fields, s)) ==>
                              Classify(h, c, lib, Delivered(d, wire, body)) == SignedAs(d, s))
            <==> StraysAreHarmless(d.fields, s)
  {
    if StraysAreHarmless(d.fields, s) {
      forall wire | IsOrderOf(wire, StampFields(d.fields, s))
        ensures Classify(h, c, lib, Delivered(d, wire, body)) == SignedAs(d, s)
      {
        HarmlessIsAccepted(h, c, lib, d, body, s, wire);
      }
    } else {
      var f :| f in d.fields && !f.canonical && !IsHarmless(f, s);
      var wire := HarmfulIsNotAccepted(h, c, lib, d, body, s, f);
    }
  }

  /** The same for what `signRequest` makes: same secret, same Host and request URI, any order. */
  lemma SignedRequestVerifiesExactly(
    h: Handler, c: Crypto, lib: Library, d: Draft, secret: bytes, body: bytes, timestamp: bytes, nonce: bytes)
    requires HexDigests(c) && MapsAsciiCase(lib)
    requires h.token == TrimSpace(secret) && |body| <= h.maxBodyBytes
    requires MakeStamp(c, lib, d, secret, body, timestamp, nonce).Ok?
    ensures var s := MakeStamp(c, lib, d, secret, body, timestamp, nonce).value;
            && SignedAs(d, s).key == Key(POST, TargetOrEmpty(d.uri), TrimSpace(timestamp), TrimSpace(nonce))
            && ((forall wire :: IsOrderOf(wire, StampFields(d.fields, s)) ==>
                                  Classify(h, c, lib, Delivered(d, wire, body)) == SignedAs(d, s))
                <==> StraysAreHarmless(d.fields, s))
  {
    MadeStampIsStamped(c, lib, d, secret, body, timestamp, nonce);
    AcceptedInEveryOrderExactly(h, c, lib, d, body, MakeStamp(c, lib, d, secret, body, timestamp, nonce).value);
  }

  // ----- Through the handler

  /** The three checks of one request, run without a pause. */
  function Checks(id: Id, request: Request): seq<Action> {
    [CheckHeaders(id, request), CheckBody(id), CheckNonce(id, Answers)]
  }

  lemma ChecksUnfold(s: State, id: Id, request: Request)
    requires Enabled(s, CheckHeaders(id, request))
    requires request.headersOk && request.bodyHashOk && request.signatureOk
    requires WithinWindow(request.key.timestamp, s.window, s.now)
    ensures ValidRun(s, Checks(id, request))
    ensures var e, duplicate := After(s, Checks(id, request)), IsDuplicate(s, request.key);
            && e.now == s.now && e.window == s.window && e.ttl == s.ttl && e.held == s.held
            && e.requests.Keys == s.requests.Keys + {id}
            && e.accepted == s.accepted + (if duplicate then [] else [Acceptance(request.key, s.now, s.now)])
            && (duplicate ==> e.store == s.store)
            && (!duplicate ==> e.store == s.store[request.key := s.now + s.ttl])
  {
    var run := Checks(id, request);
    var s1 := Apply(s, run[0]);
    var s2 := Apply(s1, run[1]);
    var s3 := Apply(s2, run[2]);
    assert run[1..] == [run[1], run[2]] && run[1..][1..] == [run[2]] && run[1..][1..][1..] == [];
    assert ValidRun(s2, run[1..][1..]) && After(s2, run[1..][1..]) == s3;
    assert ValidRun(s1, run[1..]) && After(s1, run[1..]) == s3;
  }

  /** Checking the request from here accepts nothing: the window or the store turns it away. */
  ghost predicate TurnsAway(s: State, id: Id, request: Request) {
    && Enabled(s, CheckHeaders(id, request))
    && if WithinWindow(request.key.timestamp, s.window, s.now)
       then ValidRun(s, Checks(id, request)) && After(s, Checks(id, request)).accepted == s.accepted
       else
         var e := Apply(s, CheckHeaders(id, request));
         e.accepted == s.accepted && e.requests[id].Ended?
  }

  /** From here the request is accepted, and a repeat of it within the store's memory is not. */
  ghost predicate AcceptedOnce(s: State, first: Id, second: Id, request: Request, pause: nat) {
    && ValidRun(s, Checks(first, request))
    && var once := After(s, Checks(first, request));
       && once.accepted == s.accepted + [Acceptance(request.key, s.now, s.now)]
       && TurnsAway(Apply(once, Tick(pause)), second, request)
  }

  lemma VerifiedRequestIsAcceptedOnce(s: State, first: Id, second: Id, request: Request, pause: nat)
    requires request.headersOk && request.bodyHashOk && request.signatureOk
    requires first !in s.requests && second !in s.requests && first != second
    requires !HasExpired(s.held, s.now + s.ttl, s.now + pause)
    requires WithinWindow(request.key.timestamp, s.window, s.now) && !IsDuplicate(s, request.key)
    ensures AcceptedOnce(s, first, second, request, pause)
  {
    ChecksUnfold(s, first, request);
    var later := Apply(After(s, Checks(first, request)), Tick(pause));
    if WithinWindow(request.key.timestamp, later.window, later.now) {
      ChecksUnfold(later, second, request);
    }
  }

  /**
    From any state of the handler, a request completed by `signRequest` whose strays are
    harmless, delivered with its fields in any order, with a timestamp in the window and a nonce
    not remembered, is accepted, and at any time before the nonce expires turned away again.
   */
  lemma SignedRequestIsAcceptedOnce(
    h: Handler, c: Crypto, lib: Library, d: Draft, secret: bytes, body: bytes, timestamp: bytes, nonce: bytes,
    wire: seq<Field>, s: State, first: Id, second: Id, pause: nat)
    requires HexDigests(c) && MapsAsciiCase(lib)
    requires h.token == TrimSpace(secret) && |body| <= h.maxBodyBytes
    requires MakeStamp(c, lib, d, secret, body, timestamp, nonce).Ok?
    requires StraysAreHarmless(d.fields, MakeStamp(c, lib, d, secret, body, timestamp, nonce).value)
    requires IsOrderOf(wire, StampFields(d.fields, MakeStamp(c, lib, d, secret, body, timestamp, nonce).value))
    requires first !in s.requests && second !in s.requests && first != second
    requires !HasExpired(s.held, s.now + s.ttl, s.now + pause)
    requires WithinWindow(TrimSpace(timestamp), s.window, s.now)
    requires !IsDuplicate(s, Key(POST, TargetOrEmpty(d.uri), TrimSpace(timestamp), TrimSpace(nonce)))
    ensures AcceptedOnce(s, first, second, Classify(h, c, lib, Delivered(d, wire, body)), pause)
  {
    var stamp := MakeStamp(c, lib, d, secret, body, timestamp, nonce).value;
    MadeStampIsStamped(c, lib, d, secret, body, timestamp, nonce);
    HarmlessIsAccepted(h, c, lib, d, body, stamp, wire);
    VerifiedRequestIsAcceptedOnce(s, first, second, SignedAs(d, stamp), pause);
  }
}
