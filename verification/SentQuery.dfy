/**
  The query the client sends against the query it signs. The sender sorts whole `k=v`
  strings, the signer sorts (key, value) pairs, and the two orders differ on some keys.
 */
module SentQuery {
  import opened Common
  import opened Text
  import opened Sorting
  import opened QueryCodec
  import opened CanonicalTarget
  import opened Canonicity

  /** One entry of `url.Values`; a map iteration visits the entries in some order. */
  datatype Param = Param(key: bytes, values: seq<bytes>)

  function PairsOf(p: Param): seq<Pair> {
    if p.values == [] then [Pair(p.key, None)]
    else seq(|p.values|, i requires 0 <= i < |p.values| => Pair(p.key, Some(p.values[i])))
  }

  /** Every parameter as pairs, in iteration order. */
  function ParamPairs(params: seq<Param>): seq<Pair> {
    if params == [] then [] else PairsOf(params[0]) + ParamPairs(params[1..])
  }

  function SortedStrings(pairs: seq<Pair>): seq<bytes> {
    SortBy(Printed(pairs), LexLe)
  }

  function QueryString(params: seq<Param>): bytes {
    Join(SortedStrings(ParamPairs(params)), AMPERSAND)
  }

  function AppendCanonicalQuery(path: bytes, params: seq<Param>): bytes {
    if QueryString(params) == [] then path else path + [QUESTION] + QueryString(params)
  }

  /** The inner loop: one map entry. */
  method ParamStrings(p: Param) returns (strings: seq<bytes>)
    ensures strings == Printed(PairsOf(p))
  {
    var encodedKey := EncodeQueryComponent(p.key);
    if |p.values| == 0 {
      return [encodedKey];
    }
    strings := [];
    for j := 0 to |p.values|
      invariant strings == Printed(PairsOf(p))[..j]
    {
      var encodedValue := EncodeQueryComponent(p.values[j]);
      strings := strings + [encodedKey + [EQUALS] + encodedValue];
    }
  }

  /** `canonicalQueryString`: the loop over the map, then the sort. */
  method CanonicalQueryString(params: seq<Param>) returns (out: bytes)
    ensures out == QueryString(params)
  {
    var strings: seq<bytes> := [];
    assert params[0..] == params;
    for i := 0 to |params|
      invariant strings + Printed(ParamPairs(params[i..])) == Printed(ParamPairs(params))
    {
      PrintedAdvances(params, i);
      Associative(strings, Printed(PairsOf(params[i])), Printed(ParamPairs(params[i + 1..])));
      var more := ParamStrings(params[i]);
      strings := strings + more;
    }
    assert params[|params|..] == [];
    assert strings == Printed(ParamPairs(params));
    var sorted := SortBy(strings, LexLe);
    out := Join(sorted, AMPERSAND);
  }

  lemma PrintedAdvances(params: seq<Param>, i: nat)
    requires i < |params|
    ensures Printed(ParamPairs(params[i..])) == Printed(PairsOf(params[i])) + Printed(ParamPairs(params[i + 1..]))
  {
    assert params[i..][1..] == params[i + 1..];
    PrintedAppends(PairsOf(params[i]), ParamPairs(params[i + 1..]));
  }

  lemma PrintedAppends(s: seq<Pair>, t: seq<Pair>)
    ensures Printed(s + t) == Printed(s) + Printed(t)
  {
  }

  lemma LexLeIsTotalOrder()
    ensures TotalOrder(LexLe)
  {
    forall a: bytes, b: bytes
      ensures LexLe(a, b) || LexLe(b, a)
      ensures LexLe(a, b) && LexLe(b, a) ==> a == b
    {
      LexTotal(a, b);
      if LexLe(a, b) && LexLe(b, a) {
        LexAntisymmetric(a, b);
      }
    }
    forall a: bytes, b: bytes, c: bytes | LexLe(a, b) && LexLe(b, c)
      ensures LexLe(a, c)
    {
      LexTransitive(a, b, c);
    }
  }

  lemma SortedStringsSort(pairs: seq<Pair>)
    ensures Sorted(SortedStrings(pairs), LexLe)
    ensures multiset(SortedStrings(pairs)) == multiset(Printed(pairs))
    ensures |SortedStrings(pairs)| == |pairs|
  {
    LexLeIsTotalOrder();
    SortBySorts(Printed(pairs), LexLe);
    assert |multiset(SortedStrings(pairs))| == |multiset(Printed(pairs))|;
  }

  // ----- Iteration order does not matter

  /** The pairs without their order. */
  function PairBag(params: seq<Param>): multiset<Pair> {
    if params == [] then multiset{} else multiset(PairsOf(params[0])) + PairBag(params[1..])
  }

  lemma {:induction false} ParamPairsBag(params: seq<Param>)
    ensures multiset(ParamPairs(params)) == PairBag(params)
  {
    if params != [] {
      ParamPairsBag(params[1..]);
    }
  }

  lemma BringForward<T>(a: multiset<T>, b: multiset<T>, c: multiset<T>)
    ensures a + (b + c) == b + (a + c)
  {
  }

  lemma {:induction false} PairBagWithout(params: seq<Param>, k: nat)
    requires k < |params|
    ensures PairBag(params) == multiset(PairsOf(params[k])) + PairBag(Without(params, k))
  {
    if k == 0 {
      assert Without(params, 0) == params[1..];
    } else {
      WithoutLater(params, k);
      PairBagWithout(params[1..], k - 1);
      BringForward(multiset(PairsOf(params[0])), multiset(PairsOf(params[k])), PairBag(Without(params[1..], k - 1)));
    }
  }

  lemma {:induction false} PairBagRearranges(s: seq<Param>, t: seq<Param>)
    requires multiset(s) == multiset(t)
    ensures PairBag(s) == PairBag(t)
  {
    assert |s| == |multiset(s)| == |multiset(t)| == |t|;
    if s != [] {
      assert s[0] in multiset(t);
      var k :| 0 <= k < |t| && t[k] == s[0];
      RemovedRearrange(s, t, 0, k);
      PairBagRearranges(Without(s, 0), Without(t, k));
      PairBagWithout(s, 0);
      PairBagWithout(t, k);
    }
  }

  /** Go's random map order never shows: every order of the entries gives one query string. */
  lemma MapOrderIsInvisible(s: seq<Param>, t: seq<Param>)
    requires multiset(s) == multiset(t)
    ensures QueryString(s) == QueryString(t)
  {
    var p, q := ParamPairs(s), ParamPairs(t);
    ParamPairsBag(s);
    ParamPairsBag(t);
    PairBagRearranges(s, t);
    MapRearranges(EncodePair, p, q);
    MapRearranges(PrintPair, Map(EncodePair, p), Map(EncodePair, q));
    LexLeIsTotalOrder();
    SortedStringsSort(p);
    SortedStringsSort(q);
    SortedIsUnique(SortedStrings(p), SortedStrings(q), LexLe);
  }

  // ----- Where the two orders differ

  /** After encoding, the string of a valued `a` and of `b` part ways below `=`. */
  predicate EncodedClash(a: Pair, b: Pair) {
    a.value.Some? && a.key < b.key && b.key[|a.key|] < EQUALS
  }

  lemma {:induction false} LexLeAppend(p: bytes, a: bytes, b: bytes)
    ensures LexLe(p + a, p + b) <==> LexLe(a, b)
  {
    if p == [] {
      assert p + a == a && p + b == b;
    } else {
      assert (p + a)[1..] == p[1..] + a && (p + b)[1..] == p[1..] + b;
      LexLeAppend(p[1..], a, b);
    }
  }

  /** Neither key a prefix of the other: the order of the keys decides, whatever follows. */
  lemma {:induction false} LexLeDecidedByKeys(k: bytes, l: bytes, s: bytes, t: bytes)
    requires !(k <= l) && !(l <= k)
    ensures LexLe(k + s, l + t) <==> LexLe(k, l)
  {
    assert (k + s)[0] == k[0] && (l + t)[0] == l[0];
    if k[0] == l[0] {
      assert (k + s)[1..] == k[1..] + s && (l + t)[1..] == l[1..] + t;
      assert k == [k[0]] + k[1..] && l == [l[0]] + l[1..];
      LexLeDecidedByKeys(k[1..], l[1..], s, t);
    }
  }

  function Tail(p: Pair): bytes {
    if p.value.None? then [] else [EQUALS] + p.value.value
  }

  lemma PrintIsKeyAndTail(p: Pair)
    ensures PrintPair(p) == p.key + Tail(p)
  {
  }

  lemma PrefixIsLexLe(k: bytes, l: bytes)
    requires k <= l
    ensures LexLe(k, l)
  {
    LexLeAppend(k, [], l[|k|..]);
    assert k + [] == k && k + l[|k|..] == l;
  }

  /** One key a proper prefix of the other: the byte after the prefix meets `=` or the end. */
  lemma PrefixKeysCompare(a: Pair, b: Pair)
    requires a.key < b.key && EQUALS !in b.key
    ensures PairLe(a, b) && !PairLe(b, a)
    ensures LexLe(PrintPair(a), PrintPair(b)) <==> !EncodedClash(a, b)
    ensures LexLe(PrintPair(b), PrintPair(a)) <==> EncodedClash(a, b)
  {
    PrefixIsLexLe(a.key, b.key);
    if LexLe(b.key, a.key) {
      LexAntisymmetric(a.key, b.key);
    }
    var rest := b.key[|a.key|..];
    PrintIsKeyAndTail(a);
    PrintIsKeyAndTail(b);
    assert PrintPair(b) == a.key + (rest + Tail(b));
    LexLeAppend(a.key, Tail(a), rest + Tail(b));
    LexLeAppend(a.key, rest + Tail(b), Tail(a));
    assert rest[0] == b.key[|a.key|] && rest[0] in b.key;
  }

  /** Apart from clashes the two orders agree. */
  lemma OrdersAgree(a: Pair, b: Pair)
    requires EQUALS !in a.key && EQUALS !in b.key
    requires !EncodedClash(a, b) && !EncodedClash(b, a)
    requires PairLe(a, b)
    ensures LexLe(PrintPair(a), PrintPair(b))
  {
    PrintIsKeyAndTail(a);
    PrintIsKeyAndTail(b);
    if a.key == b.key {
      LexLeAppend(a.key, Tail(a), Tail(b));
      if a.value.Some? {
        LexLeAppend([EQUALS], a.value.value, b.value.value);
      }
    } else if a.key < b.key {
      PrefixKeysCompare(a, b);
    } else if b.key < a.key {
      PrefixKeysCompare(b, a);
    } else {
      assert !(a.key <= b.key) && !(b.key <= a.key);
      LexLeDecidedByKeys(a.key, b.key, Tail(a), Tail(b));
    }
  }

  // ----- The clash in the caller's terms

  /** Bytes that encode to something that sorts above `=`. */
  predicate SortsAboveEquals(b: byte) {
    IsUpper(b) || IsLower(b) || b == 95 || b == 126
  }

  /** `k` is a proper prefix of `l`, and the next byte of `l` is no letter, `_` or `~`. */
  predicate KeyClash(k: bytes, l: bytes) {
    k < l && !SortsAboveEquals(l[|k|])
  }

  lemma EncodedBytesDiffer(b: byte, c: byte, s: bytes, t: bytes)
    requires EncodeByte(b) + s <= EncodeByte(c) + t
    ensures b == c && s <= t
  {
    var u, v := EncodeByte(b) + s, EncodeByte(c) + t;
    assert u[0] == v[0] && v[0] == EncodeByte(c)[0];
    if !Unreserved(b) {
      assert u[1] == v[1] && u[2] == v[2];
      assert HexDigit(b / 16) == HexDigit(c / 16) && HexDigit(b % 16) == HexDigit(c % 16);
      assert b / 16 == c / 16 && b % 16 == c % 16;
    }
    assert EncodeByte(b) == EncodeByte(c);
    assert s == u[|EncodeByte(b)|..] && t == v[|EncodeByte(b)|..];
  }

  lemma {:induction false} EncodeReflectsPrefix(k: bytes, l: bytes)
    requires Encode(k) <= Encode(l)
    ensures k <= l
  {
    if k != [] {
      EncodeAlphabet(k);
      EncodeAlphabet(l);
      EncodedBytesDiffer(k[0], l[0], Encode(k[1..]), Encode(l[1..]));
      EncodeReflectsPrefix(k[1..], l[1..]);
      assert k == [k[0]] + k[1..] && l == [l[0]] + l[1..];
    }
  }

  /** Encoding neither adds nor hides clashes. */
  lemma ClashIsKeyClash(a: Pair, b: Pair)
    ensures EncodedClash(EncodePair(a), EncodePair(b)) <==> a.value.Some? && KeyClash(a.key, b.key)
  {
    if Encode(a.key) < Encode(b.key) {
      EncodeReflectsPrefix(a.key, b.key);
      assert a.key != b.key;
    }
    if a.key < b.key {
      var rest := b.key[|a.key|..];
      assert b.key == a.key + rest;
      EncodeAppends(a.key, rest);
      assert Encode(b.key)[|Encode(a.key)|] == EncodeByte(rest[0])[0];
    }
  }
}
