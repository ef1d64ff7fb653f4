/** What the canonical target means: it names the path and the multiset of decoded pairs. */
module Canonicity {
  import opened Common
  import opened Text
  import opened Sorting
  import opened QueryCodec
  import opened CanonicalTarget

  function TargetPath(target: bytes): bytes {
    Cut(target, QUESTION).before
  }

  /** The decoded pairs of a target; none when a component is malformed. */
  function TargetPairs(target: bytes): Option<seq<Pair>> {
    var halves := Cut(target, QUESTION);
    if !halves.found || halves.after == [] then Some([]) else ParseQuery(halves.after)
  }

  // ----- Pairs survive printing

  ghost predicate ValidPair(p: Pair) {
    && ValidUtf8(p.key)
    && (p.value.Some? ==> ValidUtf8(p.value.value))
    && (p.key != [] || p.value.Some?)
  }

  ghost predicate ValidPairs(pairs: seq<Pair>) {
    forall i :: 0 <= i < |pairs| ==> ValidPair(pairs[i])
  }

  lemma DecodedPairIsValid(raw: bytes)
    requires raw != [] && DecodePair(raw).Some?
    ensures ValidPair(DecodePair(raw).value)
  {
    var halves := Cut(raw, EQUALS);
    assert halves.before != [] ==> Decode(halves.before).value != [];
  }

  lemma {:induction false} DecodedPiecesAreValid(pieces: seq<bytes>)
    requires DecodePieces(pieces).Some?
    ensures ValidPairs(DecodePieces(pieces).value)
  {
    if pieces != [] {
      DecodedPiecesAreValid(pieces[1..]);
      if pieces[0] != [] {
        DecodedPairIsValid(pieces[0]);
      }
    }
  }

  lemma PrintedPairDecodes(p: Pair)
    requires ValidPair(p)
    ensures DecodePair(PrintPair(EncodePair(p))) == Some(p)
    ensures PrintPair(EncodePair(p)) != [] && AMPERSAND !in PrintPair(EncodePair(p))
  {
    EncodeRoundTrip(p.key);
    EncodeAlphabet(p.key);
    var value := if p.value.Some? then p.value.value else [];
    EncodeRoundTrip(value);
    EncodeAlphabet(value);
    CutAtFirst(Encode(p.key), Encode(value), EQUALS);
  }

  function Printed(pairs: seq<Pair>): seq<bytes> {
    Map(PrintPair, Map(EncodePair, pairs))
  }

  lemma PrintedUnfold(pairs: seq<Pair>)
    requires pairs != []
    ensures Printed(pairs) == [PrintPair(EncodePair(pairs[0]))] + Printed(pairs[1..])
  {
  }

  lemma PiecesUnfold(piece: bytes, rest: seq<bytes>)
    requires piece != [] && DecodePair(piece).Some? && DecodePieces(rest).Some?
    ensures DecodePieces([piece] + rest) == Some([DecodePair(piece).value] + DecodePieces(rest).value)
  {
    assert ([piece] + rest)[1..] == rest;
  }

  lemma {:induction false} PrintedPiecesDecode(pairs: seq<Pair>)
    requires ValidPairs(pairs)
    ensures DecodePieces(Printed(pairs)) == Some(pairs)
  {
    if pairs != [] {
      PrintedPairDecodes(pairs[0]);
      PrintedPiecesDecode(pairs[1..]);
      PrintedUnfold(pairs);
      PiecesUnfold(PrintPair(EncodePair(pairs[0])), Printed(pairs[1..]));
      assert pairs == [pairs[0]] + pairs[1..];
    }
  }

  /** Parsing a printed query gives the pairs back, in the printed order. */
  lemma PrintedQueryParses(pairs: seq<Pair>)
    requires pairs != [] && ValidPairs(pairs)
    ensures ParseQuery(PrintQuery(Map(EncodePair, pairs))) == Some(pairs)
    ensures PrintQuery(Map(EncodePair, pairs)) != []
  {
    forall i | 0 <= i < |pairs|
      ensures AMPERSAND !in Printed(pairs)[i] && Printed(pairs)[i] != []
    {
      PrintedPairDecodes(pairs[i]);
    }
    SplitJoin(Printed(pairs), AMPERSAND);
    PrintedPiecesDecode(pairs);
  }

  // ----- Sorting encoded pairs sorts decoded ones

  function UnencodePair(e: Pair): Pair {
    Pair(OrEmpty(DecodeBytes(e.key)), if e.value.None? then None else Some(OrEmpty(DecodeBytes(e.value.value))))
  }

  lemma UnencodeEncode(p: Pair)
    ensures UnencodePair(EncodePair(p)) == p
  {
    DecodeEncode(p.key);
    DecodeEncode(OrEmpty(p.value));
  }

  lemma UnencodeEncodeAll(pairs: seq<Pair>)
    ensures Map(UnencodePair, Map(EncodePair, pairs)) == pairs
  {
    forall i | 0 <= i < |pairs|
      ensures UnencodePair(EncodePair(pairs[i])) == pairs[i]
    {
      UnencodeEncode(pairs[i]);
    }
  }

  /** The pairs of a query in canonical order. */
  function InOrder(pairs: seq<Pair>): seq<Pair> {
    Map(UnencodePair, SortedQuery(pairs))
  }

  lemma SortedQuerySorts(pairs: seq<Pair>)
    ensures Sorted(SortedQuery(pairs), PairLe)
    ensures multiset(SortedQuery(pairs)) == multiset(Map(EncodePair, pairs))
    ensures |SortedQuery(pairs)| == |pairs|
  {
    PairLeIsTotalOrder();
    SortBySorts(Map(EncodePair, pairs), PairLe);
    assert |multiset(SortedQuery(pairs))| == |multiset(Map(EncodePair, pairs))|;
  }

  lemma InOrderRearranges(pairs: seq<Pair>)
    ensures Map(EncodePair, InOrder(pairs)) == SortedQuery(pairs)
    ensures multiset(InOrder(pairs)) == multiset(pairs)
  {
    var sorted, encoded := SortedQuery(pairs), Map(EncodePair, pairs);
    SortedQuerySorts(pairs);
    MapRearranges(UnencodePair, sorted, encoded);
    UnencodeEncodeAll(pairs);
    forall i | 0 <= i < |sorted|
      ensures EncodePair(UnencodePair(sorted[i])) == sorted[i]
    {
      assert sorted[i] in multiset(encoded);
      var k :| 0 <= k < |encoded| && encoded[k] == sorted[i];
      UnencodeEncode(pairs[k]);
    }
  }

  lemma InOrderIsValid(pairs: seq<Pair>)
    requires ValidPairs(pairs)
    ensures ValidPairs(InOrder(pairs))
  {
    InOrderRearranges(pairs);
    var ordered := InOrder(pairs);
    forall i | 0 <= i < |ordered|
      ensures ValidPair(ordered[i])
    {
      assert ordered[i] in multiset(pairs);
    }
  }

  lemma SortedQueryDependsOnMultiset(s: seq<Pair>, t: seq<Pair>)
    requires multiset(s) == multiset(t)
    ensures SortedQuery(s) == SortedQuery(t)
  {
    PairLeIsTotalOrder();
    SortedQuerySorts(s);
    SortedQuerySorts(t);
    MapRearranges(EncodePair, s, t);
    SortedIsUnique(SortedQuery(s), SortedQuery(t), PairLe);
  }

  // ----- The theorems

  /** A canonical target parses to the same path and to its pairs in canonical order. */
  lemma CanonicalReparses(target: bytes)
    requires TargetPairs(target).Some?
    ensures Canonical(target, false).Ok?
    ensures var c := Canonical(target, false).value;
            TargetPath(c) == TargetPath(target) && TargetPairs(c) == Some(InOrder(TargetPairs(target).value))
  {
    var path, pairs := TargetPath(target), TargetPairs(target).value;
    assert QUESTION !in path;
    if pairs == [] {
      CutAtFirst(path, [], QUESTION);
      SortedQuerySorts(pairs);
    } else {
      DecodedPiecesAreValid(Split(Cut(target, QUESTION).after, AMPERSAND));
      InOrderRearranges(pairs);
      InOrderIsValid(pairs);
      SortedQuerySorts(pairs);
      PrintedQueryParses(InOrder(pairs));
      CutAtFirst(path, PrintQuery(SortedQuery(pairs)), QUESTION);
    }
  }

  /** Exactly the targets with well-formed components are accepted. */
  lemma AcceptedIffWellFormed(target: bytes)
    ensures Canonical(target, false).Ok? <==> TargetPairs(target).Some?
  {
  }

  /** Canonicalizing twice is canonicalizing once, on everything that is accepted. */
  lemma CanonicalIsIdempotent(target: bytes)
    requires Canonical(target, false).Ok?
    ensures Canonical(Canonical(target, false).value, false) == Canonical(target, false)
  {
    AcceptedIffWellFormed(target);
    CanonicalReparses(target);
    var pairs := TargetPairs(target).value;
    InOrderRearranges(pairs);
    SortedQueryDependsOnMultiset(InOrder(pairs), pairs);
    SortedQuerySorts(pairs);
  }

  /**
    Two accepted targets have one canonical form exactly when their paths are equal and
    their queries hold the same decoded pairs as often, a flag being no empty value.
   */
  lemma CanonicalIsCanonical(s: bytes, t: bytes)
    requires Canonical(s, false).Ok? && Canonical(t, false).Ok?
    ensures Canonical(s, false) == Canonical(t, false)
            <==> TargetPath(s) == TargetPath(t)
                 && multiset(TargetPairs(s).value) == multiset(TargetPairs(t).value)
  {
    AcceptedIffWellFormed(s);
    AcceptedIffWellFormed(t);
    CanonicalReparses(s);
    CanonicalReparses(t);
    var p, q := TargetPairs(s).value, TargetPairs(t).value;
    InOrderRearranges(p);
    InOrderRearranges(q);
    if multiset(p) == multiset(q) {
      SortedQueryDependsOnMultiset(p, q);
      assert |p| == |multiset(p)| == |multiset(q)| == |q|;
    }
  }

  function KeyOf(p: Pair): bytes {
    p.key
  }

  lemma EqualKeysAreNeighbours(sorted: seq<Pair>, i: nat, j: nat)
    requires Sorted(sorted, PairLe) && i < j < |sorted| && sorted[i].key == sorted[j].key
    ensures sorted[i + 1].key == sorted[i].key
  {
    assert PairLe(sorted[i], sorted[i + 1]);
    if i + 1 < j && sorted[i + 1].key != sorted[i].key {
      assert PairLe(sorted[i + 1], sorted[j]);
      LexAntisymmetric(sorted[i].key, sorted[i + 1].key);
    }
  }

  lemma KeysRepeat(pairs: seq<Pair>, i: nat, j: nat)
    requires i < j < |pairs| && pairs[i].key == pairs[j].key
    ensures HasRepeat(Map(KeyOf, pairs))
  {
    var keys := Map(KeyOf, pairs);
    assert keys[i] == KeyOf(pairs[i]) && keys[j] == KeyOf(pairs[j]);
  }

  lemma RepeatedKeys(pairs: seq<Pair>) returns (i: nat, j: nat)
    requires HasRepeat(Map(KeyOf, pairs))
    ensures i < j < |pairs| && pairs[i].key == pairs[j].key
  {
    var keys := Map(KeyOf, pairs);
    i, j :| 0 <= i < j < |keys| && keys[i] == keys[j];
    assert keys[i] == KeyOf(pairs[i]) && keys[j] == KeyOf(pairs[j]);
  }

  /** In sorted pairs equal keys are neighbours, so the adjacent test misses none. */
  lemma AdjacentTestIsComplete(sorted: seq<Pair>)
    requires Sorted(sorted, PairLe)
    ensures AdjacentKeysRepeat(sorted) <==> HasRepeat(Map(KeyOf, sorted))
  {
    if AdjacentKeysRepeat(sorted) {
      var i :| 1 <= i < |sorted| && sorted[i].key == sorted[i - 1].key;
      KeysRepeat(sorted, i - 1, i);
    }
    if HasRepeat(Map(KeyOf, sorted)) {
      var i, j := RepeatedKeys(sorted);
      EqualKeysAreNeighbours(sorted, i, j);
      assert sorted[i + 1].key == sorted[i + 1 - 1].key;
    }
  }

  lemma EncodingKeepsRepeats(pairs: seq<Pair>)
    ensures HasRepeat(Map(KeyOf, Map(EncodePair, pairs))) <==> HasRepeat(Map(KeyOf, pairs))
  {
    var encoded, plain := Map(KeyOf, Map(EncodePair, pairs)), Map(KeyOf, pairs);
    assert forall i :: 0 <= i < |pairs| ==> encoded[i] == KeyOf(EncodePair(pairs[i])) && plain[i] == KeyOf(pairs[i]);
    if HasRepeat(encoded) {
      var i, j :| 0 <= i < j < |encoded| && encoded[i] == encoded[j];
      EncodeInjective(plain[i], plain[j]);
      assert plain[i] == plain[j];
    }
    if HasRepeat(plain) {
      var i, j :| 0 <= i < j < |plain| && plain[i] == plain[j];
      assert encoded[i] == encoded[j];
    }
  }

  /** A well-formed request target is rejected exactly when two of its pairs share a decoded key. */
  lemma DuplicateKeysRejected(target: bytes)
    ensures Canonical(target, true) == Err(DuplicateQueryKey)
            <==> TargetPairs(target).Some? && HasRepeat(Map(KeyOf, TargetPairs(target).value))
    ensures Canonical(target, true).Ok? ==> Canonical(target, true) == Canonical(target, false)
  {
    if TargetPairs(target).Some? {
      var pairs := TargetPairs(target).value;
      var sorted := SortedQuery(pairs);
      SortedQuerySorts(pairs);
      AdjacentTestIsComplete(sorted);
      MapRearranges(KeyOf, sorted, Map(EncodePair, pairs));
      RepeatsRearrange(Map(KeyOf, sorted), Map(KeyOf, Map(EncodePair, pairs)));
      EncodingKeepsRepeats(pairs);
    }
  }
}
