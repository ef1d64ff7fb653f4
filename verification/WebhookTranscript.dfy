/** The eight-line webhook transcript, its authority line, and the nonce key. */
module WebhookTranscript {
  import opened Common
  import opened Text
  import opened Sorting
  import opened ReplayWindow

  const NEWLINE: byte := 10
  const V3: bytes := [118, 51]
  const POST: bytes := [80, 79, 83, 84]

  function UpperByte(b: byte): byte {
    if IsLower(b) then b - 32 else b
  }

  function LowerByte(b: byte): byte {
    if IsUpper(b) then b + 32 else b
  }

  function Upper(s: bytes): bytes {
    Map(UpperByte, s)
  }

  function Lower(s: bytes): bytes {
    Map(LowerByte, s)
  }

  // ----- The authority

  /** A parsed IP literal as `netip.Addr` reports it; `text` is its canonical form. */
  datatype Address = Address(is6: bool, hasZone: bool, text: bytes)

  /** `netip.ParseAddr`, `strings.ToUpper` and `strings.ToLower`. */
  datatype Library = Library(parse: bytes -> Option<Address>, upper: bytes -> bytes, lower: bytes -> bytes)

  predicate IsAscii(s: bytes) {
    forall i :: 0 <= i < |s| ==> s[i] < 128
  }

  /** On ASCII the library's case mapping is the plain one; beyond it anything is allowed. */
  ghost predicate MapsAsciiCase(lib: Library) {
    forall s :: IsAscii(s) ==> lib.upper(s) == Upper(s) && lib.lower(s) == Lower(s)
  }

  datatype Split = Split(host: bytes, port: bytes, hasPort: bool, bracketed: bool)

  const OPEN: byte := 91
  const CLOSE: byte := 93
  const COLON: byte := 58

  function Count(s: bytes, b: byte): nat {
    multiset(s)[b]
  }

  /** `splitWebhookAuthority`. */
  function SplitAuthority(authority: bytes): Option<Split> {
    if authority != [] && authority[0] == OPEN then
      var close := IndexOf(authority, CLOSE);
      if close == |authority| || close <= 1 then None
      else
        var host, suffix := authority[1..close], authority[close + 1..];
        if suffix == [] then Some(Split(host, [], false, true))
        else if suffix[0] == COLON && |suffix| > 1 then Some(Split(host, suffix[1..], true, true))
        else None
    else if OPEN in authority || CLOSE in authority then None
    else if Count(authority, COLON) == 0 then
      if authority == [] then None else Some(Split(authority, [], false, false))
    else if Count(authority, COLON) == 1 then
      var halves := Cut(authority, COLON);
      if halves.before == [] || halves.after == [] then None
      else Some(Split(halves.before, halves.after, true, false))
    else None
  }

  predicate ValidHostname(host: bytes) {
    host != [] && forall i :: 0 <= i < |host| ==> IsAlphanumeric(host[i]) || host[i] == 45 || host[i] == 46 || host[i] == 95
  }

  /** `canonicalWebhookHost`. */
  function CanonicalHost(lib: Library, host: bytes, bracketed: bool): Option<bytes> {
    var address := lib.parse(host);
    if bracketed then
      if address.None? || !address.value.is6 || address.value.hasZone then None
      else Some([OPEN] + address.value.text + [CLOSE])
    else if address.Some? then
      if address.value.is6 then None else Some(address.value.text)
    else if ValidHostname(host) then Some(lib.lower(host))
    else None
  }

  /** `strconv.ParseUint(port, 10, 16)`. */
  function ParsePort(port: bytes): Option<nat> {
    if port == [] || !AllDigits(port) || DigitsValue(port) > 65535 then None else Some(DigitsValue(port))
  }

  /** `canonicalWebhookAuthority`. */
  function CanonicalAuthority(lib: Library, authority: bytes): Option<bytes> {
    if authority == [] || !IsTrimmed(authority) then None
    else
      var parts := SplitAuthority(authority);
      if parts.None? then None
      else
        var host := CanonicalHost(lib, parts.value.host, parts.value.bracketed);
        if host.None? then None
        else if !parts.value.hasPort then host
        else
          var port := ParsePort(parts.value.port);
          if port.None? then None else Some(host.value + [COLON] + Decimal(port.value))
  }

  // ----- The transcript

  /** What a signature binds. */
  datatype Signed = Signed(
    authority: bytes,
    verb: bytes,
    target: bytes,
    timestamp: bytes,
    nonce: bytes,
    messageID: bytes,
    bodySHA256: bytes)

  function Lines(lib: Library, x: Signed): seq<bytes> {
    [V3, x.authority, lib.upper(x.verb), x.target, x.timestamp, x.nonce, x.messageID, lib.lower(x.bodySHA256)]
  }

  /** The transcript of fields whose authority is already canonical. */
  function Transcript(lib: Library, x: Signed): bytes {
    Join(Lines(lib, x), NEWLINE)
  }

  function CanonicalWebhookRequestV3(lib: Library, x: Signed): Option<bytes> {
    var authority := CanonicalAuthority(lib, x.authority);
    if authority.None? then None else Some(Transcript(lib, x.(authority := authority.value)))
  }

  /**
    On newline-free fields the transcript determines the canonical authority, the upper-cased
    method, the target, the timestamp, the nonce, the message id and the lower-cased body hash.
   */
  lemma TranscriptIsInjective(lib: Library, x: Signed, y: Signed)
    requires CanonicalAuthority(lib, x.authority).Some? && CanonicalAuthority(lib, y.authority).Some?
    requires NoneContains(Lines(lib, x.(authority := CanonicalAuthority(lib, x.authority).value)), NEWLINE)
    requires NoneContains(Lines(lib, y.(authority := CanonicalAuthority(lib, y.authority).value)), NEWLINE)
    requires CanonicalWebhookRequestV3(lib, x) == CanonicalWebhookRequestV3(lib, y)
    ensures CanonicalAuthority(lib, x.authority) == CanonicalAuthority(lib, y.authority)
    ensures lib.upper(x.verb) == lib.upper(y.verb) && x.target == y.target
    ensures x.timestamp == y.timestamp && x.nonce == y.nonce && x.messageID == y.messageID
    ensures lib.lower(x.bodySHA256) == lib.lower(y.bodySHA256)
  {
    var u := x.(authority := CanonicalAuthority(lib, x.authority).value);
    var v := y.(authority := CanonicalAuthority(lib, y.authority).value);
    JoinInjective(Lines(lib, u), Lines(lib, v), NEWLINE);
    assert forall i :: 0 <= i < 8 ==> Lines(lib, u)[i] == Lines(lib, v)[i];
    assert Lines(lib, u)[1] == u.authority && Lines(lib, u)[2] == lib.upper(u.verb) && Lines(lib, u)[3] == u.target;
    assert Lines(lib, u)[4] == u.timestamp && Lines(lib, u)[5] == u.nonce && Lines(lib, u)[6] == u.messageID;
  }

  /** The string under which the store remembers a nonce. */
  function NonceKey(k: Key): bytes {
    Join([k.verb, k.target, k.timestamp, k.nonce], NEWLINE)
  }

  /** Joining the key with newlines loses nothing, so the store tells keys apart. */
  lemma NonceKeyIsInjective(k: Key, l: Key)
    requires NoneContains([k.verb, k.target, k.timestamp, k.nonce], NEWLINE)
    requires NoneContains([l.verb, l.target, l.timestamp, l.nonce], NEWLINE)
    requires NonceKey(k) == NonceKey(l)
    ensures k == l
  {
    var s, t := [k.verb, k.target, k.timestamp, k.nonce], [l.verb, l.target, l.timestamp, l.nonce];
    JoinInjective(s, t, NEWLINE);
    assert s[0] == t[0] && s[1] == t[1] && s[2] == t[2] && s[3] == t[3];
  }
}
