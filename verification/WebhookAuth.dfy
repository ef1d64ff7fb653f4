/** Signing a webhook request and authorizing it: both ends of one transcript. */
module WebhookAuth {
  import opened Common
  import opened Text
  import opened CanonicalTarget
  import opened ReplayWindow
  import opened WebhookTranscript

  /** SHA-256 and HMAC-SHA-256 as lower-case hex; nothing is assumed about their strength. */
  datatype Crypto = Crypto(sha: bytes -> bytes, mac: (bytes, bytes) -> bytes)

  ghost predicate IsHexDigest(s: bytes) {
    s != [] && forall i :: 0 <= i < |s| ==> IsDigit(s[i]) || 97 <= s[i] <= 102
  }

  ghost predicate HexDigests(c: Crypto) {
    && (forall body :: IsHexDigest(c.sha(body)))
    && (forall key, message :: IsHexDigest(c.mac(key, message)))
  }

  // ----- Headers

  datatype Name = Version | Timestamp | Nonce | Signature | BodySHA256 | MessageID | Other(name: bytes)

  /** A header field; a key put into the map by hand may not have the canonical spelling. */
  datatype Field = Field(name: Name, canonical: bool, value: bytes)

  function Values(fields: seq<Field>, name: Name): seq<bytes> {
    if fields == [] then []
    else (if fields[0].name == name then [fields[0].value] else []) + Values(fields[1..], name)
  }

  function Get(fields: seq<Field>, name: Name): bytes {
    var values := Values(fields, name);
    if values == [] then [] else values[0]
  }

  predicate IsRemoved(f: Field, removed: Name, anySpelling: bool) {
    f.name == removed && (anySpelling || f.canonical)
  }

  function Remove(fields: seq<Field>, name: Name, anySpelling: bool): seq<Field> {
    if fields == [] then []
    else
      (if IsRemoved(fields[0], name, anySpelling) then [] else [fields[0]])
      + Remove(fields[1..], name, anySpelling)
  }

  /** `Header.Set`: replaces the canonical key, not other spellings. */
  function Set(fields: seq<Field>, name: Name, value: bytes): seq<Field> {
    Remove(fields, name, false) + [Field(name, true, value)]
  }

  // ----- Message ids

  predicate ValidMessageIDByte(b: byte) {
    IsAlphanumeric(b) || b == 45 || b == 95 || b == 46 || b == 58 || b == 47
  }

  /** `NormalizeMessageID`: none for an invalid id, the empty id for a blank one. */
  function NormalizeMessageID(raw: bytes): Option<bytes> {
    var id := TrimSpace(raw);
    if |id| > 256 || exists i :: 0 <= i < |id| && !ValidMessageIDByte(id[i]) then None else Some(id)
  }

  // ----- Signing

  datatype SignError =
    | MethodNotPost | SecretRequired | MessageIDRequired | MessageIDInvalid | TimeRequired
    | TargetMalformed | AuthorityInvalid | AuthorityMismatch

  /** The values `signRequest` puts on the wire. */
  datatype Stamp = Stamp(timestamp: bytes, nonce: bytes, bodySHA256: bytes, signature: bytes, messageID: bytes)

  /** The parts of the request that are read before anything is written. */
  datatype Draft = Draft(verb: bytes, urlHost: bytes, host: bytes, uri: bytes, fields: seq<Field>)

  /** `canonicalRequestV3`: the URL authority, and the Host when there is one, must agree. */
  function SigningTranscript(lib: Library, d: Draft, x: Signed): Result<bytes, SignError> {
    var fromURL := CanonicalWebhookRequestV3(lib, x.(authority := d.urlHost));
    if fromURL.None? then Err(AuthorityInvalid)
    else if d.host == [] then Ok(fromURL.value)
    else
      var fromHost := CanonicalWebhookRequestV3(lib, x.(authority := d.host));
      if fromHost.None? then Err(AuthorityInvalid)
      else if fromHost != fromURL then Err(AuthorityMismatch)
      else Ok(fromHost.value)
  }

  function MakeStamp(c: Crypto, lib: Library, d: Draft, secret: bytes, body: bytes, timestamp: bytes, nonce: bytes)
    : Result<Stamp, SignError>
  {
    if d.verb != POST then Err(MethodNotPost)
    else if TrimSpace(secret) == [] then Err(SecretRequired)
    else
      var ids := Values(d.fields, MessageID);
      if |ids| != 1 then Err(MessageIDRequired)
      else
        var id := NormalizeMessageID(ids[0]);
        if id.None? then Err(MessageIDInvalid)
        else if id.value == [] then Err(MessageIDRequired)
        else if TrimSpace(timestamp) == [] || TrimSpace(nonce) == [] then Err(TimeRequired)
        else
          var target := Canonical(d.uri, false);
          if target.Err? then Err(TargetMalformed)
          else
            var sha := c.sha(body);
            var transcript := SigningTranscript(
                                lib, d,
                                Signed([], d.verb, target.value, TrimSpace(timestamp), TrimSpace(nonce), id.value, sha));
            if transcript.Err? then Err(transcript.error)
            else Ok(Stamp(TrimSpace(timestamp), TrimSpace(nonce), sha, c.mac(TrimSpace(secret), transcript.value), id.value))
  }

  function FiveFields(fields: seq<Field>, s: Stamp): seq<Field> {
    Set(Set(Set(Set(Set(fields, Version, V3), Timestamp, s.timestamp),
                Nonce, s.nonce), BodySHA256, s.bodySHA256), Signature, s.signature)
  }

  function SetMessageID(fields: seq<Field>, id: bytes): seq<Field> {
    Set(Remove(fields, MessageID, true), MessageID, id)
  }

  function StampFields(fields: seq<Field>, s: Stamp): seq<Field> {
    SetMessageID(FiveFields(fields, s), s.messageID)
  }

  /** An outgoing request, mutated by signing. */
  class OutgoingRequest {
    const verb: bytes
    const urlHost: bytes
    const host: bytes
    const uri: bytes
    var fields: seq<Field>
    var body: bytes

    constructor (verb: bytes, urlHost: bytes, host: bytes, uri: bytes, fields: seq<Field>, body: bytes)
      ensures this.verb == verb && this.urlHost == urlHost && this.host == host && this.uri == uri
      ensures this.fields == fields && this.body == body
    {
      this.verb, this.urlHost, this.host, this.uri := verb, urlHost, host, uri;
      this.fields, this.body := fields, body;
    }

    function View(): Draft
      reads this
    {
      Draft(verb, urlHost, host, uri, fields)
    }

    /** `signRequest`: on success the six headers and the signed body, on failure nothing changes. */
    method SignRequest(c: Crypto, lib: Library, secret: bytes, signedBody: bytes, timestamp: bytes, nonce: bytes)
      returns (failure: Option<SignError>)
      modifies this
      ensures var stamp := MakeStamp(c, lib, old(View()), secret, signedBody, timestamp, nonce);
              if stamp.Err? then failure == Some(stamp.error) && fields == old(fields) && body == old(body)
              else failure == None && fields == StampFields(old(fields), stamp.value) && body == signedBody
    {
      var stamp := MakeStamp(c, lib, View(), secret, signedBody, timestamp, nonce);
      if stamp.Err? {
        return Some(stamp.error);
      }
      fields := Set(fields, Version, V3);
      fields := Set(fields, Timestamp, stamp.value.timestamp);
      fields := Set(fields, Nonce, stamp.value.nonce);
      fields := Set(fields, BodySHA256, stamp.value.bodySHA256);
      fields := Set(fields, Signature, stamp.value.signature);
      fields := Remove(fields, MessageID, true);
      fields := Set(fields, MessageID, stamp.value.messageID);
      body := signedBody;
      return None;
    }
  }

  // ----- Authorizing

  /** A received request; the server has canonicalized the header names. */
  datatype Received = Received(verb: bytes, host: bytes, uri: bytes, fields: seq<Field>, body: bytes)

  datatype Handler = Handler(token: bytes, maxBodyBytes: int)

  /** The header values the checks read, trimmed where `signatureHeaderValues` trims. */
  datatype HeaderValues = HeaderValues(
    versions: seq<bytes>,
    timestamp: bytes,
    nonce: bytes,
    signature: bytes,
    bodySHA256: bytes,
    messageIDs: seq<bytes>)

  function ReadHeaders(fields: seq<Field>): HeaderValues {
    HeaderValues(
      Values(fields, Version),
      TrimSpace(Get(fields, Timestamp)),
      TrimSpace(Get(fields, Nonce)),
      TrimSpace(Get(fields, Signature)),
      TrimSpace(Get(fields, BodySHA256)),
      Values(fields, MessageID))
  }

  predicate VersionAccepted(lib: Library, versions: seq<bytes>) {
    |versions| == 1 && versions[0] != [] && IsTrimmed(versions[0]) && lib.lower(versions[0]) == V3
  }

  /** The header's message id, when there is exactly one and it is valid and not blank. */
  function HeaderMessageID(ids: seq<bytes>): Option<bytes> {
    if |ids| != 1 then None
    else
      var id := NormalizeMessageID(ids[0]);
      if id == Some([]) then None else id
  }

  function TargetOrEmpty(uri: bytes): bytes {
    var target := Canonical(uri, false);
    if target.Ok? then target.value else []
  }

  /** `authorizeHMACHeaders`, without the clock. */
  predicate HeadersOk(lib: Library, r: Received, v: HeaderValues) {
    && r.verb == POST
    && VersionAccepted(lib, v.versions)
    && v.timestamp != [] && v.nonce != [] && v.signature != [] && v.bodySHA256 != []
    && Canonical(r.uri, false).Ok?
    && HeaderMessageID(v.messageIDs).Some?
  }

  /** The signature comparison of `authorizeHMACBody`. */
  predicate SignatureOk(h: Handler, c: Crypto, lib: Library, r: Received, v: HeaderValues) {
    var transcript := CanonicalWebhookRequestV3(
                        lib,
                        Signed(r.host, r.verb, TargetOrEmpty(r.uri), v.timestamp, v.nonce,
                               OrEmpty(HeaderMessageID(v.messageIDs)), c.sha(r.body)));
    transcript.Some? && v.signature == c.mac(h.token, transcript.value)
  }

  /** What the checks of `authorizeRequest`, all but the clock and the store, say of a request. */
  function Classify(h: Handler, c: Crypto, lib: Library, r: Received): Request {
    var v := ReadHeaders(r.fields);
    Request(
      Key(lib.upper(r.verb), TargetOrEmpty(r.uri), v.timestamp, v.nonce),
      HeadersOk(lib, r, v),
      |r.body| <= h.maxBodyBytes && v.bodySHA256 == c.sha(r.body),
      SignatureOk(h, c, lib, r, v))
  }
}
