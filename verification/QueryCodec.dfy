/** Strict percent-decoding and canonical re-encoding of query components. */
module QueryCodec {
  import opened Common
  import opened Text

  const PERCENT: byte := 37
  const AMPERSAND: byte := 38
  const EQUALS: byte := 61
  const QUESTION: byte := 63

  // ----- utf8.ValidString

  predicate Continuation(b: byte) {
    0x80 <= b <= 0xBF
  }

  /** Length of the well-formed UTF-8 sequence that starts `s`, 0 when there is none. */
  function Utf8Length(s: bytes): (n: nat)
    ensures n <= |s|
  {
    if s == [] then 0
    else if s[0] < 0x80 then 1
    else if 0xC2 <= s[0] <= 0xDF && |s| >= 2 && Continuation(s[1]) then 2
    else if 0xE0 <= s[0] <= 0xEF && |s| >= 3 && Continuation(s[1]) && Continuation(s[2])
            && (s[0] == 0xE0 ==> s[1] >= 0xA0) && (s[0] == 0xED ==> s[1] <= 0x9F) then 3
    else if 0xF0 <= s[0] <= 0xF4 && |s| >= 4 && Continuation(s[1]) && Continuation(s[2]) && Continuation(s[3])
            && (s[0] == 0xF0 ==> s[1] >= 0x90) && (s[0] == 0xF4 ==> s[1] <= 0x8F) then 4
    else 0
  }

  predicate ValidUtf8(s: bytes) {
    s == [] || (var n := Utf8Length(s); n > 0 && ValidUtf8(s[n..]))
  }

  // ----- The encoder

  /** Section 2.3 of RFC 3986. */
  predicate Unreserved(b: byte) {
    IsAlphanumeric(b) || b == 45 || b == 46 || b == 95 || b == 126
  }

  function HexDigit(n: int): byte
    requires 0 <= n < 16
  {
    if n < 10 then 48 + n else 55 + n
  }

  function EncodeByte(b: byte): bytes {
    if Unreserved(b) then [b] else [PERCENT, HexDigit(b / 16), HexDigit(b % 16)]
  }

  function Encode(s: bytes): bytes {
    if s == [] then [] else EncodeByte(s[0]) + Encode(s[1..])
  }

  lemma EncodeAdvances(s: bytes, i: nat)
    requires i < |s|
    ensures Encode(s[i..]) == EncodeByte(s[i]) + Encode(s[i + 1..])
  {
    assert s[i..][1..] == s[i + 1..];
  }

  /** `EncodeQueryComponent`, byte by byte into a builder. */
  method EncodeQueryComponent(value: bytes) returns (out: bytes)
    ensures out == Encode(value)
  {
    out := [];
    for i := 0 to |value|
      invariant out + Encode(value[i..]) == Encode(value)
    {
      var b := value[i];
      EncodeAdvances(value, i);
      Associative(out, EncodeByte(b), Encode(value[i + 1..]));
      if Unreserved(b) {
        out := out + [b];
      } else {
        out := out + [PERCENT, HexDigit(b / 16), HexDigit(b % 16)];
      }
    }
  }

  // ----- The decoder

  predicate IsHex(b: byte) {
    IsDigit(b) || 97 <= b <= 102 || 65 <= b <= 70
  }

  function HexValue(b: byte): (n: int)
    requires IsHex(b)
    ensures 0 <= n < 16
  {
    if IsDigit(b) then b - 48 else if 97 <= b then b - 87 else b - 55
  }

  function Prepend(b: byte, rest: Option<bytes>): Option<bytes> {
    if rest.None? then None else Some([b] + rest.value)
  }

  /** Percent-decoding alone; a `%` that does not start a hex triplet is an error. */
  function DecodeBytes(s: bytes): Option<bytes> {
    if s == [] then Some([])
    else if s[0] != PERCENT then Prepend(s[0], DecodeBytes(s[1..]))
    else if |s| < 3 || !IsHex(s[1]) || !IsHex(s[2]) then None
    else Prepend(HexValue(s[1]) * 16 + HexValue(s[2]), DecodeBytes(s[3..]))
  }

  function Decode(s: bytes): (r: Option<bytes>)
    ensures r.Some? ==> ValidUtf8(r.value)
  {
    var decoded := DecodeBytes(s);
    if decoded.Some? && ValidUtf8(decoded.value) then decoded else None
  }

  /** What is left to decode after `front` has been written. */
  function Resume(front: bytes, rest: Option<bytes>): Option<bytes> {
    if rest.None? then None else Some(front + rest.value)
  }

  lemma ResumeAfterByte(value: bytes, i: nat, out: bytes)
    requires i < |value| && value[i] != PERCENT
    ensures Resume(out, DecodeBytes(value[i..])) == Resume(out + [value[i]], DecodeBytes(value[i + 1..]))
  {
    assert value[i..][1..] == value[i + 1..];
    var rest := DecodeBytes(value[i + 1..]);
    assert rest.Some? ==> out + ([value[i]] + rest.value) == out + [value[i]] + rest.value;
  }

  lemma ResumeAfterTriplet(value: bytes, i: nat, out: bytes)
    requires i + 2 < |value| && value[i] == PERCENT && IsHex(value[i + 1]) && IsHex(value[i + 2])
    ensures var b := HexValue(value[i + 1]) * 16 + HexValue(value[i + 2]);
            Resume(out, DecodeBytes(value[i..])) == Resume(out + [b], DecodeBytes(value[i + 3..]))
  {
    assert value[i..][3..] == value[i + 3..];
    var b := HexValue(value[i + 1]) * 16 + HexValue(value[i + 2]);
    var rest := DecodeBytes(value[i + 3..]);
    assert rest.Some? ==> out + ([b] + rest.value) == out + [b] + rest.value;
  }

  /** `decodeQueryComponentStrict`, with its index loop and builder. */
  method DecodeQueryComponentStrict(value: bytes) returns (out: bytes, ok: bool)
    ensures Decode(value) == if ok then Some(out) else None
  {
    out := [];
    var i := 0;
    assert value[0..] == value;
    assert forall d: bytes :: [] + d == d;
    while i < |value|
      invariant 0 <= i <= |value|
      invariant DecodeBytes(value) == Resume(out, DecodeBytes(value[i..]))
    {
      if value[i] != PERCENT {
        ResumeAfterByte(value, i, out);
        out := out + [value[i]];
        i := i + 1;
        continue;
      }
      if i + 2 >= |value| || !IsHex(value[i + 1]) || !IsHex(value[i + 2]) {
        return [], false;
      }
      ResumeAfterTriplet(value, i, out);
      out := out + [HexValue(value[i + 1]) * 16 + HexValue(value[i + 2])];
      i := i + 3;
    }
    assert value[i..] == [] && out + [] == out;
    ok := ValidUtf8(out);
  }

  // ----- They undo each other

  lemma DecodeEncodedByte(b: byte, rest: bytes)
    ensures DecodeBytes(EncodeByte(b) + rest) == Prepend(b, DecodeBytes(rest))
  {
    var s := EncodeByte(b) + rest;
    if Unreserved(b) {
      assert s[1..] == rest;
    } else {
      assert s[3..] == rest;
      assert s[1] == HexDigit(b / 16) && s[2] == HexDigit(b % 16);
      assert HexValue(s[1]) == b / 16 && HexValue(s[2]) == b % 16;
    }
  }

  lemma {:induction false} DecodeEncode(s: bytes)
    ensures DecodeBytes(Encode(s)) == Some(s)
  {
    if s != [] {
      DecodeEncode(s[1..]);
      DecodeEncodedByte(s[0], Encode(s[1..]));
      assert s == [s[0]] + s[1..];
    }
  }

  /** Strict decoding of an encoded string gives the string back exactly when it is UTF-8. */
  lemma EncodeRoundTrip(s: bytes)
    ensures ValidUtf8(s) ==> Decode(Encode(s)) == Some(s)
    ensures !ValidUtf8(s) ==> Decode(Encode(s)) == None
  {
    DecodeEncode(s);
  }

  lemma EncodeInjective(s: bytes, t: bytes)
    requires Encode(s) == Encode(t)
    ensures s == t
  {
    DecodeEncode(s);
    DecodeEncode(t);
  }

  /** The encoder's alphabet: unreserved characters and the percent sign. */
  ghost predicate IsEncoded(s: bytes) {
    forall i :: 0 <= i < |s| ==> Unreserved(s[i]) || s[i] == PERCENT
  }

  lemma {:induction false} EncodeAlphabet(s: bytes)
    ensures IsEncoded(Encode(s))
    ensures !Contains(Encode(s), QUESTION) && !Contains(Encode(s), AMPERSAND) && !Contains(Encode(s), EQUALS)
    ensures Encode(s) == [] <==> s == []
  {
    if s != [] {
      EncodeAlphabet(s[1..]);
    }
  }

  /** Section 2.1 of RFC 3986: unreserved bytes as they are, every other byte as an upper-case triplet. */
  predicate IsNormal(t: bytes) {
    || t == []
    || (Unreserved(t[0]) && IsNormal(t[1..]))
    || (&& |t| >= 3 && t[0] == PERCENT && IsUpperHex(t[1]) && IsUpperHex(t[2])
        && !Unreserved(HexValue(t[1]) * 16 + HexValue(t[2]))
        && IsNormal(t[3..]))
  }

  predicate IsUpperHex(b: byte) {
    IsDigit(b) || 65 <= b <= 70
  }

  lemma EncodedTriplet(high: byte, low: byte)
    requires IsUpperHex(high) && IsUpperHex(low) && !Unreserved(HexValue(high) * 16 + HexValue(low))
    ensures EncodeByte(HexValue(high) * 16 + HexValue(low)) == [PERCENT, high, low]
  {
    var b := HexValue(high) * 16 + HexValue(low);
    assert b / 16 == HexValue(high) && b % 16 == HexValue(low);
  }

  lemma EncodePrepend(b: byte, rest: bytes)
    ensures Encode([b] + rest) == EncodeByte(b) + Encode(rest)
  {
    assert ([b] + rest)[1..] == rest;
  }

  lemma {:induction false} EncodeIsNormal(s: bytes)
    ensures IsNormal(Encode(s))
  {
    if s != [] {
      var rest := Encode(s[1..]);
      EncodeIsNormal(s[1..]);
      if Unreserved(s[0]) {
        assert ([s[0]] + rest)[1..] == rest;
      } else {
        var t := EncodeByte(s[0]) + rest;
        assert t[3..] == rest;
        assert HexValue(t[1]) == s[0] / 16 && HexValue(t[2]) == s[0] % 16;
      }
    }
  }

  lemma {:induction false} NormalIsEncoded(t: bytes) returns (s: bytes)
    requires IsNormal(t)
    ensures Encode(s) == t
  {
    if t == [] {
      s := [];
    } else if Unreserved(t[0]) {
      var rest := NormalIsEncoded(t[1..]);
      s := [t[0]] + rest;
      EncodePrepend(t[0], rest);
      assert t == [t[0]] + t[1..];
    } else {
      var rest := NormalIsEncoded(t[3..]);
      var b := HexValue(t[1]) * 16 + HexValue(t[2]);
      s := [b] + rest;
      EncodePrepend(b, rest);
      EncodedTriplet(t[1], t[2]);
      assert t == [t[0], t[1], t[2]] + t[3..];
    }
  }

  /** The encoder's outputs are exactly the strings in normal form. */
  lemma EncodesExactlyNormalForms(t: bytes)
    ensures IsNormal(t) <==> exists s :: Encode(s) == t
  {
    if IsNormal(t) {
      var s := NormalIsEncoded(t);
    }
    forall s | Encode(s) == t
      ensures IsNormal(t)
    {
      EncodeIsNormal(s);
    }
  }

  // ----- Encoding keeps prefixes apart

  lemma {:induction false} EncodeAppends(s: bytes, t: bytes)
    ensures Encode(s + t) == Encode(s) + Encode(t)
  {
    if s == [] {
      assert s + t == t;
    } else {
      assert (s + t)[1..] == s[1..] + t;
      EncodeAppends(s[1..], t);
    }
  }
}
