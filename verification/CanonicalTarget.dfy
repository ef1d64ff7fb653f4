/** The canonical form of a request target: parse, re-encode, sort and print its query. */
module CanonicalTarget {
  import opened Common
  import opened Text
  import opened Sorting
  import opened QueryCodec

  /** A query pair; a flag `k` has no value, which is not the empty value of `k=`. */
  datatype Pair = Pair(key: bytes, value: Option<bytes>)

  datatype TargetError = MalformedQuery | DuplicateQueryKey

  // ----- Parsing

  function DecodePair(raw: bytes): Option<Pair> {
    var halves := Cut(raw, EQUALS);
    var key := Decode(halves.before);
    if key.None? then None
    else if !halves.found then Some(Pair(key.value, None))
    else
      var value := Decode(halves.after);
      if value.None? then None else Some(Pair(key.value, value))
  }

  function DecodePieces(pieces: seq<bytes>): Option<seq<Pair>> {
    if pieces == [] then Some([])
    else if pieces[0] == [] then DecodePieces(pieces[1..])
    else
      var first := DecodePair(pieces[0]);
      var rest := DecodePieces(pieces[1..]);
      if first.None? || rest.None? then None else Some([first.value] + rest.value)
  }

  /** The decoded pairs of a raw query, in order, empty pieces skipped. */
  function ParseQuery(raw: bytes): Option<seq<Pair>> {
    DecodePieces(Split(raw, AMPERSAND))
  }

  function EncodePair(p: Pair): Pair {
    Pair(Encode(p.key), if p.value.None? then None else Some(Encode(p.value.value)))
  }

  // ----- Ordering and printing

  predicate ValueLe(a: Option<bytes>, b: Option<bytes>) {
    a.None? || (b.Some? && LexLe(a.value, b.value))
  }

  predicate PairLe(a: Pair, b: Pair) {
    if a.key == b.key then ValueLe(a.value, b.value) else LexLe(a.key, b.key)
  }

  function PrintPair(p: Pair): bytes {
    if p.value.None? then p.key else p.key + [EQUALS] + p.value.value
  }

  function PrintQuery(pairs: seq<Pair>): bytes {
    Join(Map(PrintPair, pairs), AMPERSAND)
  }

  predicate AdjacentKeysRepeat(pairs: seq<Pair>) {
    exists i :: 1 <= i < |pairs| && pairs[i].key == pairs[i - 1].key
  }

  function SortedQuery(pairs: seq<Pair>): seq<Pair> {
    SortBy(Map(EncodePair, pairs), PairLe)
  }

  function Canonical(target: bytes, rejectDuplicateKeys: bool): Result<bytes, TargetError> {
    var halves := Cut(target, QUESTION);
    if !halves.found || halves.after == [] then Ok(halves.before)
    else
      var pairs := ParseQuery(halves.after);
      if pairs.None? then Err(MalformedQuery)
      else if pairs.value == [] then Ok(halves.before)
      else
        var sorted := SortedQuery(pairs.value);
        if rejectDuplicateKeys && AdjacentKeysRepeat(sorted) then Err(DuplicateQueryKey)
        else Ok(halves.before + [QUESTION] + PrintQuery(sorted))
  }

  // ----- The loops of the source

  /** One piece of the query: cut, decode and re-encode. */
  method ParsePair(raw: bytes) returns (pair: Pair, ok: bool)
    ensures ok <==> DecodePair(raw).Some?
    ensures ok ==> pair == EncodePair(DecodePair(raw).value)
  {
    var halves := Cut(raw, EQUALS);
    pair := Pair([], None);
    var key, keyOk := DecodeQueryComponentStrict(halves.before);
    if !keyOk {
      return pair, false;
    }
    var encodedKey := EncodeQueryComponent(key);
    pair := Pair(encodedKey, None);
    if halves.found {
      var value, valueOk := DecodeQueryComponentStrict(halves.after);
      if !valueOk {
        return pair, false;
      }
      var encodedValue := EncodeQueryComponent(value);
      pair := pair.(value := Some(encodedValue));
    }
    ok := true;
  }

  /** The encoded pairs written so far, then those still to come. */
  ghost function EncodedAfter(front: seq<Pair>, rest: Option<seq<Pair>>): Option<seq<Pair>> {
    if rest.None? then None else Some(front + Map(EncodePair, rest.value))
  }

  lemma MapPrepends(p: Pair, rest: seq<Pair>)
    ensures Map(EncodePair, [p] + rest) == [EncodePair(p)] + Map(EncodePair, rest)
  {
  }

  lemma PieceAdvances(pieces: seq<bytes>, i: nat, front: seq<Pair>)
    requires i < |pieces|
    ensures pieces[i] == [] ==> DecodePieces(pieces[i..]) == DecodePieces(pieces[i + 1..])
    ensures pieces[i] != [] && DecodePair(pieces[i]).None? ==> DecodePieces(pieces[i..]).None?
    ensures pieces[i] != [] && DecodePair(pieces[i]).Some? ==>
              EncodedAfter(front, DecodePieces(pieces[i..]))
              == EncodedAfter(front + [EncodePair(DecodePair(pieces[i]).value)], DecodePieces(pieces[i + 1..]))
  {
    assert pieces[i..][1..] == pieces[i + 1..];
    var rest := DecodePieces(pieces[i + 1..]);
    if pieces[i] != [] && DecodePair(pieces[i]).Some? && rest.Some? {
      var p := DecodePair(pieces[i]).value;
      MapPrepends(p, rest.value);
      Associative(front, [EncodePair(p)], Map(EncodePair, rest.value));
    }
  }

  /** `parseCanonicalQuery`: every non-empty piece, in order. */
  method ParseCanonicalQuery(raw: bytes) returns (pairs: seq<Pair>, ok: bool)
    ensures ok <==> ParseQuery(raw).Some?
    ensures ok ==> pairs == Map(EncodePair, ParseQuery(raw).value)
  {
    var pieces := Split(raw, AMPERSAND);
    pairs := [];
    assert pieces[0..] == pieces;
    for i := 0 to |pieces|
      invariant EncodedAfter([], DecodePieces(pieces)) == EncodedAfter(pairs, DecodePieces(pieces[i..]))
    {
      PieceAdvances(pieces, i, pairs);
      if pieces[i] == [] {
        continue;
      }
      var pair, pairOk := ParsePair(pieces[i]);
      if !pairOk {
        return [], false;
      }
      pairs := pairs + [pair];
    }
    assert pieces[|pieces|..] == [];
    assert pairs + Map(EncodePair, []) == pairs;
    assert forall s: seq<Pair> :: [] + s == s;
    ok := true;
  }

  /** What the builder still has to write before piece `i`. */
  ghost function ToWrite(pieces: seq<bytes>, i: nat): bytes
    requires i <= |pieces|
  {
    if i == |pieces| then [] else Separator(i) + Join(pieces[i..], AMPERSAND)
  }

  function Separator(i: nat): bytes {
    if i > 0 then [AMPERSAND] else []
  }

  lemma WriteAdvances(out: bytes, pieces: seq<bytes>, i: nat)
    requires i < |pieces|
    ensures out + ToWrite(pieces, i) == out + Separator(i) + pieces[i] + ToWrite(pieces, i + 1)
  {
    JoinAdvances(pieces, i);
    if i + 1 < |pieces| {
      Regroup(out, Separator(i), pieces[i], [AMPERSAND], Join(pieces[i + 1..], AMPERSAND));
    } else {
      Associative(out, Separator(i), pieces[i]);
    }
  }

  lemma JoinAdvances(pieces: seq<bytes>, i: nat)
    requires i < |pieces|
    ensures Join(pieces[i..], AMPERSAND)
            == if i + 1 == |pieces| then pieces[i] else pieces[i] + [AMPERSAND] + Join(pieces[i + 1..], AMPERSAND)
  {
    assert pieces[i..][1..] == pieces[i + 1..];
  }

  lemma Regroup(a: bytes, b: bytes, c: bytes, d: bytes, e: bytes)
    ensures a + (b + (c + d + e)) == a + b + c + (d + e)
  {
  }

  /** The builder loop that prints the pairs. */
  method WriteQuery(pairs: seq<Pair>) returns (out: bytes)
    requires pairs != []
    ensures out == PrintQuery(pairs)
  {
    out := [];
    ghost var printed := Map(PrintPair, pairs);
    assert printed[0..] == printed;
    for i := 0 to |pairs|
      invariant out + ToWrite(printed, i) == PrintQuery(pairs)
    {
      WriteAdvances(out, printed, i);
      if i > 0 {
        out := out + [AMPERSAND];
      }
      ghost var before := out;
      out := out + pairs[i].key;
      if pairs[i].value.Some? {
        out := out + [EQUALS];
        out := out + pairs[i].value.value;
      }
      assert out == before + printed[i];
    }
  }

  /** `canonicalTarget`. */
  method CanonicalizeTarget(target: bytes, rejectDuplicateKeys: bool) returns (r: Result<bytes, TargetError>)
    ensures r == Canonical(target, rejectDuplicateKeys)
  {
    var halves := Cut(target, QUESTION);
    if !halves.found || halves.after == [] {
      return Ok(halves.before);
    }
    var pairs, ok := ParseCanonicalQuery(halves.after);
    if !ok {
      return Err(MalformedQuery);
    }
    if |pairs| == 0 {
      return Ok(halves.before);
    }
    SortedKeepsLength(pairs);
    pairs := SortBy(pairs, PairLe);
    if rejectDuplicateKeys {
      for i := 1 to |pairs|
        invariant forall k :: 1 <= k < i ==> pairs[k].key != pairs[k - 1].key
      {
        if pairs[i].key == pairs[i - 1].key {
          return Err(DuplicateQueryKey);
        }
      }
    }
    var query := WriteQuery(pairs);
    return Ok(halves.before + [QUESTION] + query);
  }

  lemma PairLeIsTotalOrder()
    ensures TotalOrder(PairLe)
  {
    forall a: Pair, b: Pair
      ensures PairLe(a, b) || PairLe(b, a)
      ensures PairLe(a, b) && PairLe(b, a) ==> a == b
    {
      PairLeCompares(a, b);
    }
    forall a: Pair, b: Pair, c: Pair | PairLe(a, b) && PairLe(b, c)
      ensures PairLe(a, c)
    {
      PairLeTransitive(a, b, c);
    }
  }

  lemma PairLeCompares(a: Pair, b: Pair)
    ensures PairLe(a, b) || PairLe(b, a)
    ensures PairLe(a, b) && PairLe(b, a) ==> a == b
  {
    LexTotal(a.key, b.key);
    if LexLe(a.key, b.key) && LexLe(b.key, a.key) {
      LexAntisymmetric(a.key, b.key);
    }
    if a.value.Some? && b.value.Some? {
      LexTotal(a.value.value, b.value.value);
      if LexLe(a.value.value, b.value.value) && LexLe(b.value.value, a.value.value) {
        LexAntisymmetric(a.value.value, b.value.value);
      }
    }
  }

  lemma PairLeTransitive(a: Pair, b: Pair, c: Pair)
    requires PairLe(a, b) && PairLe(b, c)
    ensures PairLe(a, c)
  {
    if a.key == b.key && b.key == c.key {
      if a.value.Some? {
        LexTransitive(a.value.value, b.value.value, c.value.value);
      }
    } else if a.key != b.key && b.key != c.key {
      LexTransitive(a.key, b.key, c.key);
      if a.key == c.key {
        LexAntisymmetric(a.key, b.key);
      }
    }
  }

  lemma SortedKeepsLength(pairs: seq<Pair>)
    ensures |SortBy(pairs, PairLe)| == |pairs|
  {
    PairLeIsTotalOrder();
    SortBySorts(pairs, PairLe);
    assert |multiset(SortBy(pairs, PairLe))| == |multiset(pairs)|;
  }
}
