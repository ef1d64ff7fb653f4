/** Byte strings, and the parts of `strings` and `strconv` that the components rely on. */
module Text {
  import opened Common

  type byte = b: int | 0 <= b < 256

  type bytes = seq<byte>

  predicate IsDigit(b: byte) {
    48 <= b <= 57
  }

  predicate IsUpper(b: byte) {
    65 <= b <= 90
  }

  predicate IsLower(b: byte) {
    97 <= b <= 122
  }

  predicate IsAlphanumeric(b: byte) {
    IsDigit(b) || IsUpper(b) || IsLower(b)
  }

  predicate Contains(s: bytes, b: byte) {
    b in s
  }

  // ----- strings.TrimSpace

  predicate IsSpace2(a: byte, b: byte) {
    a == 0xC2 && (b == 0x85 || b == 0xA0)
  }

  predicate IsSpace3(a: byte, b: byte, c: byte) {
    || (a == 0xE1 && b == 0x9A && c == 0x80)
    || (a == 0xE2 && b == 0x80 && (0x80 <= c <= 0x8A || c == 0xA8 || c == 0xA9 || c == 0xAF))
    || (a == 0xE2 && b == 0x81 && c == 0x9F)
    || (a == 0xE3 && b == 0x80 && c == 0x80)
  }

  predicate IsSpace1(a: byte) {
    9 <= a <= 13 || a == 32
  }

  /** Length of the UTF-8 white space character that starts `s`, 0 when there is none. */
  function LeadingSpace(s: bytes): (n: nat)
    ensures n <= |s|
  {
    if |s| >= 1 && IsSpace1(s[0]) then 1
    else if |s| >= 2 && IsSpace2(s[0], s[1]) then 2
    else if |s| >= 3 && IsSpace3(s[0], s[1], s[2]) then 3
    else 0
  }

  /** Length of the UTF-8 white space character that ends `s`, 0 when there is none. */
  function TrailingSpace(s: bytes): (n: nat)
    ensures n <= |s|
  {
    if |s| >= 1 && IsSpace1(s[|s| - 1]) then 1
    else if |s| >= 2 && IsSpace2(s[|s| - 2], s[|s| - 1]) then 2
    else if |s| >= 3 && IsSpace3(s[|s| - 3], s[|s| - 2], s[|s| - 1]) then 3
    else 0
  }

  function TrimLeft(s: bytes): bytes {
    var n := LeadingSpace(s);
    if n == 0 then s else TrimLeft(s[n..])
  }

  function TrimRight(s: bytes): bytes {
    var n := TrailingSpace(s);
    if n == 0 then s else TrimRight(s[..|s| - n])
  }

  function TrimSpace(s: bytes): bytes {
    TrimRight(TrimLeft(s))
  }

  /** No white space at either end. */
  predicate IsTrimmed(s: bytes) {
    LeadingSpace(s) == 0 && TrailingSpace(s) == 0
  }

  lemma {:induction false} TrimLeftStops(s: bytes)
    ensures LeadingSpace(TrimLeft(s)) == 0
    decreases |s|
  {
    var n := LeadingSpace(s);
    if n != 0 {
      TrimLeftStops(s[n..]);
    }
  }

  lemma {:induction false} TrimRightStops(s: bytes)
    requires LeadingSpace(s) == 0
    ensures IsTrimmed(TrimRight(s))
    decreases |s|
  {
    var n := TrailingSpace(s);
    if n != 0 {
      TrimRightStops(s[..|s| - n]);
    }
  }

  /** Trimming leaves a trimmed string, and leaves trimmed strings alone. */
  lemma TrimSpaceTrims(s: bytes)
    ensures IsTrimmed(TrimSpace(s))
    ensures IsTrimmed(s) ==> TrimSpace(s) == s
    ensures TrimSpace(TrimSpace(s)) == TrimSpace(s)
  {
    TrimLeftStops(s);
    TrimRightStops(TrimLeft(s));
  }

  // ----- strconv.ParseInt(value, 10, 64)

  const MAX_INT64 := 0x7fff_ffff_ffff_ffff

  predicate AllDigits(s: bytes) {
    forall i :: 0 <= i < |s| ==> IsDigit(s[i])
  }

  function DigitsValue(s: bytes): nat
    requires AllDigits(s)
  {
    if s == [] then 0 else 10 * DigitsValue(s[..|s| - 1]) + (s[|s| - 1] - 48)
  }

  function ParseInt64(s: bytes): (r: Option<int>)
    ensures r.Some? ==> -MAX_INT64 - 1 <= r.value <= MAX_INT64
  {
    if s == [] then None
    else
      var negative := s[0] == 45;
      var digits := if s[0] == 45 || s[0] == 43 then s[1..] else s;
      if digits == [] || !AllDigits(digits) then None
      else
        var n := DigitsValue(digits);
        var v: int := if negative then 0 - n else n;
        if -MAX_INT64 - 1 <= v <= MAX_INT64 then Some(v) else None
  }

  function Decimal(n: nat): bytes {
    if n < 10 then [48 + n] else Decimal(n / 10) + [48 + n % 10]
  }

  function OrEmpty(s: Option<bytes>): bytes {
    if s.Some? then s.value else []
  }

  /** The bytes of an ASCII literal. */
  function Ascii(s: string): (r: bytes)
    ensures |r| == |s|
  {
    seq(|s|, i requires 0 <= i < |s| => (s[i] as int) % 256)
  }

  // ----- strings.Cut, strings.Split and strings.Join with a one-byte separator

  function IndexOf(s: bytes, sep: byte): (i: nat)
    ensures i <= |s|
    ensures sep !in s[..i]
    ensures i < |s| ==> s[i] == sep
  {
    if s == [] || s[0] == sep then 0
    else
      var i := 1 + IndexOf(s[1..], sep);
      assert s[..i] == [s[0]] + s[1..][..i - 1];
      i
  }

  datatype Halves = Halves(before: bytes, after: bytes, found: bool)

  function Cut(s: bytes, sep: byte): Halves {
    var i := IndexOf(s, sep);
    if i == |s| then Halves(s, [], false) else Halves(s[..i], s[i + 1..], true)
  }

  function Split(s: bytes, sep: byte): (parts: seq<bytes>)
    ensures parts != []
    decreases |s|
  {
    var halves := Cut(s, sep);
    if !halves.found then [s] else [halves.before] + Split(halves.after, sep)
  }

  function Join(parts: seq<bytes>, sep: byte): bytes {
    if parts == [] then []
    else if |parts| == 1 then parts[0]
    else parts[0] + [sep] + Join(parts[1..], sep)
  }

  ghost predicate NoneContains(parts: seq<bytes>, sep: byte) {
    forall i :: 0 <= i < |parts| ==> sep !in parts[i]
  }

  lemma CutAtFirst(front: bytes, back: bytes, sep: byte)
    requires sep !in front
    ensures Cut(front + [sep] + back, sep) == Halves(front, back, true)
    ensures Cut(front, sep) == Halves(front, [], false)
  {
    var s := front + [sep] + back;
    var i := IndexOf(s, sep);
    assert s[|front|] == sep;
    assert forall k :: 0 <= k < |front| ==> s[k] == front[k] && s[k] != sep;
    assert i == |front|;
    assert s[..i] == front && s[i + 1..] == back;
    assert IndexOf(front, sep) == |front|;
  }

  /** Splitting undoes joining when no part holds the separator. */
  lemma {:induction false} SplitJoin(parts: seq<bytes>, sep: byte)
    requires parts != [] && NoneContains(parts, sep)
    ensures Split(Join(parts, sep), sep) == parts
  {
    if |parts| == 1 {
      CutAtFirst(parts[0], [], sep);
    } else {
      var rest := parts[1..];
      SplitJoin(rest, sep);
      CutAtFirst(parts[0], Join(rest, sep), sep);
      assert parts == [parts[0]] + rest;
    }
  }

  /** So joined lines determine their parts. */
  lemma JoinInjective(s: seq<bytes>, t: seq<bytes>, sep: byte)
    requires s != [] && t != [] && NoneContains(s, sep) && NoneContains(t, sep)
    requires Join(s, sep) == Join(t, sep)
    ensures s == t
  {
    SplitJoin(s, sep);
    SplitJoin(t, sep);
  }

  // ----- cmp.Compare on strings

  predicate LexLe(a: bytes, b: bytes) {
    a == [] || (b != [] && (a[0] < b[0] || (a[0] == b[0] && LexLe(a[1..], b[1..]))))
  }

  lemma {:induction false} LexTotal(a: bytes, b: bytes)
    ensures LexLe(a, b) || LexLe(b, a)
  {
    if a != [] && b != [] {
      LexTotal(a[1..], b[1..]);
    }
  }

  lemma {:induction false} LexAntisymmetric(a: bytes, b: bytes)
    requires LexLe(a, b) && LexLe(b, a)
    ensures a == b
  {
    if a != [] && b != [] {
      LexAntisymmetric(a[1..], b[1..]);
      assert a == [a[0]] + a[1..] && b == [b[0]] + b[1..];
    }
  }

  lemma {:induction false} LexTransitive(a: bytes, b: bytes, c: bytes)
    requires LexLe(a, b) && LexLe(b, c)
    ensures LexLe(a, c)
  {
    if a != [] && a[0] == b[0] && b[0] == c[0] {
      LexTransitive(a[1..], b[1..], c[1..]);
    }
  }
}
