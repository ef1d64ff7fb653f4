/**
  Exactly when the target the client sends is the target it signs. The client signs with
  `CanonicalRequestTarget`, which refuses repeated keys; `CanonicalTarget` does not.
 */
module SentIsSigned {
  import opened Common
  import opened Text
  import opened Sorting
  import opened QueryCodec
  import opened CanonicalTarget
  import opened Canonicity
  import opened SentQuery

  /** Some key with a value is a proper prefix of another key that goes on below `=`. */
  ghost predicate HasClash(pairs: seq<Pair>) {
    exists i, j :: 0 <= i < |pairs| && 0 <= j < |pairs|
                   && pairs[i].value.Some? && KeyClash(pairs[i].key, pairs[j].key)
  }

  /** The one empty key without values that vanishes from the target on both sides. */
  predicate IsLoneFlag(pairs: seq<Pair>) {
    pairs == [Pair([], None)]
  }

  /**
    What a caller can check: UTF-8 keys and values, no empty key without values unless it
    is the only parameter, and no clash.
   */
  ghost predicate SendsCanonicalForm(params: seq<Param>) {
    var pairs := ParamPairs(params);
    IsLoneFlag(pairs) || (ValidPairs(pairs) && !HasClash(pairs))
  }

  // ----- Well-formed parameters

  function Unprint(s: bytes): Pair {
    var p := DecodePair(s);
    if p.Some? then p.value else Pair([], None)
  }

  /** The pairs in the order their strings sort. */
  function InSentOrder(pairs: seq<Pair>): seq<Pair> {
    Map(Unprint, SortedStrings(pairs))
  }

  lemma UnprintPrinted(pairs: seq<Pair>)
    requires ValidPairs(pairs)
    ensures Map(Unprint, Printed(pairs)) == pairs
  {
    forall i | 0 <= i < |pairs|
      ensures Unprint(Printed(pairs)[i]) == pairs[i]
    {
      PrintedPairDecodes(pairs[i]);
    }
  }

  lemma UnprintRearranged(pairs: seq<Pair>, strings: seq<bytes>)
    requires ValidPairs(pairs) && multiset(strings) == multiset(Printed(pairs))
    ensures Printed(Map(Unprint, strings)) == strings
    ensures multiset(Map(Unprint, strings)) == multiset(pairs)
    ensures ValidPairs(Map(Unprint, strings))
  {
    var printed := Printed(pairs);
    UnprintPrinted(pairs);
    MapRearranges(Unprint, strings, printed);
    forall i | 0 <= i < |strings|
      ensures PrintPair(EncodePair(Unprint(strings[i]))) == strings[i] && ValidPair(Unprint(strings[i]))
    {
      var k := FindRearranged(printed, strings, i);
      assert Map(Unprint, printed)[k] == pairs[k];
    }
  }

  lemma SentOrderRearranges(pairs: seq<Pair>)
    requires ValidPairs(pairs)
    ensures Printed(InSentOrder(pairs)) == SortedStrings(pairs)
    ensures multiset(InSentOrder(pairs)) == multiset(pairs)
    ensures ValidPairs(InSentOrder(pairs))
  {
    SortedStringsSort(pairs);
    UnprintRearranged(pairs, SortedStrings(pairs));
  }

  /** The sent query parses to the parameters; sorting loses and invents nothing. */
  lemma SentQueryParses(path: bytes, params: seq<Param>)
    requires QUESTION !in path && ParamPairs(params) != [] && ValidPairs(ParamPairs(params))
    ensures QueryString(params) != []
    ensures TargetPath(AppendCanonicalQuery(path, params)) == path
    ensures TargetPairs(AppendCanonicalQuery(path, params)) == Some(InSentOrder(ParamPairs(params)))
    ensures multiset(InSentOrder(ParamPairs(params))) == multiset(ParamPairs(params))
  {
    var pairs := ParamPairs(params);
    SentOrderRearranges(pairs);
    SortedStringsSort(pairs);
    PrintedQueryParses(InSentOrder(pairs));
    CutAtFirst(path, QueryString(params), QUESTION);
  }

  lemma SortedElementIsEncoded(pairs: seq<Pair>, i: nat) returns (k: nat)
    requires i < |SortedQuery(pairs)|
    ensures k < |pairs| && SortedQuery(pairs)[i] == EncodePair(pairs[k])
  {
    SortedQuerySorts(pairs);
    var encoded := Map(EncodePair, pairs);
    assert SortedQuery(pairs)[i] in multiset(encoded);
    var j :| 0 <= j < |encoded| && encoded[j] == SortedQuery(pairs)[i];
    k := j;
  }

  /** Without a clash the printed pairs come out sorted as strings. */
  lemma NoClashSorts(pairs: seq<Pair>)
    requires !HasClash(pairs)
    ensures Map(PrintPair, SortedQuery(pairs)) == SortedStrings(pairs)
  {
    var sorted := SortedQuery(pairs);
    var strings := Map(PrintPair, sorted);
    SortedQuerySorts(pairs);
    SortedStringsSort(pairs);
    LexLeIsTotalOrder();
    forall i, j | 0 <= i < j < |strings|
      ensures LexLe(strings[i], strings[j])
    {
      var k := SortedElementIsEncoded(pairs, i);
      var l := SortedElementIsEncoded(pairs, j);
      ClashIsKeyClash(pairs[k], pairs[l]);
      ClashIsKeyClash(pairs[l], pairs[k]);
      EncodeAlphabet(pairs[k].key);
      EncodeAlphabet(pairs[l].key);
      assert PairLe(sorted[i], sorted[j]);
      OrdersAgree(sorted[i], sorted[j]);
    }
    MapRearranges(PrintPair, sorted, Map(EncodePair, pairs));
    SortedIsUnique(strings, SortedStrings(pairs), LexLe);
  }

  lemma FindRearranged<T>(s: seq<T>, t: seq<T>, k: nat) returns (i: nat)
    requires multiset(s) == multiset(t) && k < |t|
    ensures i < |s| && s[i] == t[k]
  {
    assert t[k] in multiset(s);
    i :| 0 <= i < |s| && s[i] == t[k];
  }

  /** With a clash the two arrangements differ. */
  lemma ClashMissorts(pairs: seq<Pair>)
    requires HasClash(pairs)
    ensures Map(PrintPair, SortedQuery(pairs)) != SortedStrings(pairs)
  {
    var i, j :| 0 <= i < |pairs| && 0 <= j < |pairs| && pairs[i].value.Some? && KeyClash(pairs[i].key, pairs[j].key);
    SortedQuerySorts(pairs);
    SortedStringsSort(pairs);
    ClashUnsorts(pairs, SortedQuery(pairs), i, j);
  }

  lemma ClashUnsorts(pairs: seq<Pair>, sorted: seq<Pair>, i: nat, j: nat)
    requires i < |pairs| && j < |pairs| && pairs[i].value.Some? && KeyClash(pairs[i].key, pairs[j].key)
    requires Sorted(sorted, PairLe) && multiset(sorted) == multiset(Map(EncodePair, pairs))
    ensures !Sorted(Map(PrintPair, sorted), LexLe)
  {
    var encoded, strings := Map(EncodePair, pairs), Map(PrintPair, sorted);
    var x := FindRearranged(sorted, encoded, i);
    var y := FindRearranged(sorted, encoded, j);
    ClashOrder(pairs[i], pairs[j]);
    assert x < y;
    assert !LexLe(strings[x], strings[y]);
  }

  lemma ClashOrder(p: Pair, q: Pair)
    requires p.value.Some? && KeyClash(p.key, q.key)
    ensures var a, b := EncodePair(p), EncodePair(q);
            a != b && !PairLe(b, a) && !LexLe(PrintPair(a), PrintPair(b))
  {
    ClashIsKeyClash(p, q);
    EncodeAlphabet(q.key);
    PrefixKeysCompare(EncodePair(p), EncodePair(q));
  }

  lemma PrintedHaveNoAmpersand(pairs: seq<Pair>)
    ensures NoneContains(Printed(pairs), AMPERSAND)
  {
    forall i | 0 <= i < |pairs|
      ensures AMPERSAND !in Printed(pairs)[i]
    {
      EncodeAlphabet(pairs[i].key);
      EncodeAlphabet(OrEmpty(pairs[i].value));
    }
  }

  lemma RearrangedHaveNone(s: seq<bytes>, t: seq<bytes>, sep: byte)
    requires multiset(s) == multiset(t) && NoneContains(t, sep)
    ensures NoneContains(s, sep)
  {
    forall i | 0 <= i < |s|
      ensures sep !in s[i]
    {
      assert s[i] in multiset(t);
    }
  }

  lemma SentStringsSplit(params: seq<Param>)
    requires ParamPairs(params) != []
    ensures NoneContains(SortedStrings(ParamPairs(params)), AMPERSAND)
    ensures Split(QueryString(params), AMPERSAND) == SortedStrings(ParamPairs(params))
  {
    var pairs := ParamPairs(params);
    PrintedHaveNoAmpersand(pairs);
    SortedStringsSort(pairs);
    RearrangedHaveNone(SortedStrings(pairs), Printed(pairs), AMPERSAND);
    SplitJoin(SortedStrings(pairs), AMPERSAND);
  }

  /** For well-formed parameters only the clash matters. */
  lemma ValidIsSignedIffNoClash(path: bytes, params: seq<Param>)
    requires QUESTION !in path && ParamPairs(params) != [] && ValidPairs(ParamPairs(params))
    ensures Canonical(AppendCanonicalQuery(path, params), false) == Ok(AppendCanonicalQuery(path, params))
            <==> !HasClash(ParamPairs(params))
  {
    var pairs := ParamPairs(params);
    var target := AppendCanonicalQuery(path, params);
    SentQueryParses(path, params);
    SortedQueryDependsOnMultiset(InSentOrder(pairs), pairs);
    SortedQuerySorts(pairs);
    SortedStringsSort(pairs);
    var signed := Map(PrintPair, SortedQuery(pairs));
    assert Canonical(target, false) == Ok(path + [QUESTION] + Join(signed, AMPERSAND)) by {
      assert |InSentOrder(pairs)| == |pairs|;
    }
    if HasClash(pairs) {
      ClashMissorts(pairs);
      SentStringsSplit(params);
      MapRearranges(PrintPair, SortedQuery(pairs), Map(EncodePair, pairs));
      PrintedHaveNoAmpersand(pairs);
      RearrangedHaveNone(signed, Printed(pairs), AMPERSAND);
      if Join(signed, AMPERSAND) == QueryString(params) {
        JoinInjective(signed, SortedStrings(pairs), AMPERSAND);
      }
      assert (path + [QUESTION] + Join(signed, AMPERSAND))[|path| + 1..] == Join(signed, AMPERSAND);
      assert target[|path| + 1..] == QueryString(params);
    } else {
      NoClashSorts(pairs);
    }
  }

  // ----- Malformed parameters

  lemma {:induction false} OneBadPieceSpoils(pieces: seq<bytes>, i: nat)
    requires i < |pieces| && pieces[i] != [] && DecodePair(pieces[i]).None?
    ensures DecodePieces(pieces).None?
  {
    if i > 0 {
      OneBadPieceSpoils(pieces[1..], i - 1);
    }
  }

  ghost predicate IsUtf8(p: Pair) {
    ValidUtf8(p.key) && (p.value.Some? ==> ValidUtf8(p.value.value))
  }

  lemma NonUtf8PairFails(p: Pair)
    requires !IsUtf8(p)
    ensures PrintPair(EncodePair(p)) != [] && DecodePair(PrintPair(EncodePair(p))).None?
  {
    EncodeRoundTrip(p.key);
    EncodeAlphabet(p.key);
    var value := OrEmpty(p.value);
    EncodeRoundTrip(value);
    CutAtFirst(Encode(p.key), Encode(value), EQUALS);
  }

  lemma NonUtf8IsRejected(path: bytes, params: seq<Param>, i: nat)
    requires QUESTION !in path && i < |ParamPairs(params)| && !IsUtf8(ParamPairs(params)[i])
    ensures Canonical(AppendCanonicalQuery(path, params), false) == Err(MalformedQuery)
  {
    var pairs := ParamPairs(params);
    var strings := SortedStrings(pairs);
    SentStringsSplit(params);
    SortedStringsSort(pairs);
    NonUtf8PairFails(pairs[i]);
    assert Printed(pairs)[i] in multiset(strings);
    var k :| 0 <= k < |strings| && strings[k] == Printed(pairs)[i];
    OneBadPieceSpoils(strings, k);
    assert Split([], AMPERSAND) == [[]];
    assert QueryString(params) != [];
    CutAtFirst(path, QueryString(params), QUESTION);
  }

  lemma PrintedQueryStart(pairs: seq<Pair>)
    requires pairs != [] && ValidPairs(pairs)
    ensures var query := PrintQuery(Map(EncodePair, pairs)); query != [] && query[0] != AMPERSAND
  {
    PrintedPairDecodes(pairs[0]);
    assert Printed(pairs)[0] == PrintPair(EncodePair(pairs[0]));
    assert Printed(pairs)[0][0] in Printed(pairs)[0];
  }

  lemma SentEmptyFlagLeads(params: seq<Param>, i: nat)
    requires i < |ParamPairs(params)| && ParamPairs(params)[i] == Pair([], None) && |ParamPairs(params)| > 1
    ensures QueryString(params) != [] && QueryString(params)[0] == AMPERSAND
  {
    var pairs := ParamPairs(params);
    var strings := SortedStrings(pairs);
    SortedStringsSort(pairs);
    assert Printed(pairs)[i] == [] && Printed(pairs)[i] in multiset(strings);
    var k :| 0 <= k < |strings| && strings[k] == [];
    assert strings[0] == [] by {
      assert LexLe(strings[0], strings[k]) || k == 0;
    }
  }

  /** No canonical target has an empty first piece. */
  lemma CanonicalNeverLeadsEmpty(path: bytes, query: bytes)
    requires QUESTION !in path && query != [] && query[0] == AMPERSAND
    ensures Canonical(path + [QUESTION] + query, false) != Ok(path + [QUESTION] + query)
  {
    var target := path + [QUESTION] + query;
    CutAtFirst(path, query, QUESTION);
    var parsed := ParseQuery(query);
    if parsed.Some? && parsed.value != [] {
      DecodedPiecesAreValid(Split(query, AMPERSAND));
      InOrderRearranges(parsed.value);
      InOrderIsValid(parsed.value);
      SortedQuerySorts(parsed.value);
      PrintedQueryStart(InOrder(parsed.value));
      SameStart(path, PrintQuery(SortedQuery(parsed.value)), query);
    }
  }

  lemma SameStart(path: bytes, left: bytes, right: bytes)
    requires left != [] && right != [] && left[0] != right[0]
    ensures path + [QUESTION] + left != path + [QUESTION] + right
  {
    assert (path + [QUESTION] + left)[|path| + 1] == left[0];
    assert (path + [QUESTION] + right)[|path| + 1] == right[0];
  }

  /** An empty flag among other parameters prints a leading `&` that the signer drops. */
  lemma EmptyFlagIsDropped(path: bytes, params: seq<Param>, i: nat)
    requires QUESTION !in path && i < |ParamPairs(params)| && ParamPairs(params)[i] == Pair([], None)
    requires |ParamPairs(params)| > 1
    ensures Canonical(AppendCanonicalQuery(path, params), false) != Ok(AppendCanonicalQuery(path, params))
  {
    SentEmptyFlagLeads(params, i);
    CanonicalNeverLeadsEmpty(path, QueryString(params));
  }

  /**
    The target the client sends is a fixed point of `CanonicalTarget` exactly for the
    parameters that meet the condition.
   */
  lemma SentIsCanonicalExactly(path: bytes, params: seq<Param>)
    requires QUESTION !in path
    ensures Canonical(AppendCanonicalQuery(path, params), false) == Ok(AppendCanonicalQuery(path, params))
            <==> SendsCanonicalForm(params)
  {
    var pairs := ParamPairs(params);
    CutAtFirst(path, [], QUESTION);
    if pairs == [] {
      SortedStringsSort(pairs);
    } else if IsLoneFlag(pairs) {
      SortedStringsSort(pairs);
      assert Printed(pairs) == [[]];
      assert SortBy([[]], LexLe) == Insert([], SortBy([[]][1..], LexLe), LexLe);
    } else if ValidPairs(pairs) {
      ValidIsSignedIffNoClash(path, params);
    } else {
      assert |pairs| == 1 ==> pairs == [pairs[0]];
      var i :| 0 <= i < |pairs| && !ValidPair(pairs[i]);
      if !IsUtf8(pairs[i]) {
        NonUtf8IsRejected(path, params, i);
      } else {
        EmptyFlagIsDropped(path, params, i);
      }
    }
  }

  ghost predicate HasRepeatedKey(pairs: seq<Pair>) {
    HasRepeat(Map(KeyOf, pairs))
  }

  /** Sending keeps repeated keys repeated and invents none. */
  lemma SentKeysRepeat(path: bytes, params: seq<Param>)
    requires QUESTION !in path && ParamPairs(params) != [] && ValidPairs(ParamPairs(params))
    ensures TargetPairs(AppendCanonicalQuery(path, params)).Some?
    ensures HasRepeatedKey(TargetPairs(AppendCanonicalQuery(path, params)).value) <==> HasRepeatedKey(ParamPairs(params))
  {
    var pairs := ParamPairs(params);
    SentQueryParses(path, params);
    MapRearranges(KeyOf, InSentOrder(pairs), pairs);
    RepeatsRearrange(Map(KeyOf, InSentOrder(pairs)), Map(KeyOf, pairs));
  }

  /** A well-formed map with a multi-valued key is refused by the signer, whatever else it holds. */
  lemma RepeatedKeysAreRefused(path: bytes, params: seq<Param>)
    requires QUESTION !in path && ValidPairs(ParamPairs(params))
    ensures Canonical(AppendCanonicalQuery(path, params), true) == Err(DuplicateQueryKey)
            <==> HasRepeatedKey(ParamPairs(params))
  {
    var target := AppendCanonicalQuery(path, params);
    DuplicateKeysRejected(target);
    if ParamPairs(params) != [] {
      SentKeysRepeat(path, params);
    } else {
      SortedStringsSort(ParamPairs(params));
      CutAtFirst(path, [], QUESTION);
    }
  }

  /**
    The client signs exactly the target it sends if and only if the parameters are UTF-8, have
    no empty key without values beside others, no clash, and no key with two values.
   */
  lemma SentIsSignedExactly(path: bytes, params: seq<Param>)
    requires QUESTION !in path
    ensures Canonical(AppendCanonicalQuery(path, params), true) == Ok(AppendCanonicalQuery(path, params))
            <==> SendsCanonicalForm(params) && !HasRepeatedKey(ParamPairs(params))
  {
    var pairs, target := ParamPairs(params), AppendCanonicalQuery(path, params);
    SentIsCanonicalExactly(path, params);
    DuplicateKeysRejected(target);
    if SendsCanonicalForm(params) {
      if IsLoneFlag(pairs) {
        CutAtFirst(path, [], QUESTION);
        LoneFlagVanishes(params);
      } else {
        RepeatedKeysAreRefused(path, params);
      }
    }
  }

  lemma LoneFlagVanishes(params: seq<Param>)
    requires IsLoneFlag(ParamPairs(params))
    ensures QueryString(params) == [] && !HasRepeatedKey(ParamPairs(params))
  {
    var pairs := ParamPairs(params);
    SortedStringsSort(pairs);
    assert Printed(pairs) == [[]];
    assert SortBy([[]], LexLe) == Insert([], SortBy([[]][1..], LexLe), LexLe);
  }

  ghost predicate NoKeyIsPrefix(pairs: seq<Pair>) {
    forall i, j :: 0 <= i < |pairs| && 0 <= j < |pairs| && i != j ==> !(pairs[i].key <= pairs[j].key)
  }

  /** The sufficient condition in its usual form: single-valued UTF-8 keys, none a prefix of another. */
  lemma PrefixFreeKeysAreSigned(path: bytes, params: seq<Param>)
    requires QUESTION !in path && ValidPairs(ParamPairs(params)) && NoKeyIsPrefix(ParamPairs(params))
    ensures Canonical(AppendCanonicalQuery(path, params), true) == Ok(AppendCanonicalQuery(path, params))
  {
    var pairs := ParamPairs(params);
    SentIsSignedExactly(path, params);
    forall i, j | 0 <= i < j < |pairs|
      ensures Map(KeyOf, pairs)[i] != Map(KeyOf, pairs)[j]
    {
      assert !(pairs[i].key <= pairs[j].key);
    }
  }

  /** Where the keys clash the client signs another target than the one it sends. */
  lemma ClashIsSignedDifferently(path: bytes, params: seq<Param>)
    requires QUESTION !in path && ValidPairs(ParamPairs(params))
    requires HasClash(ParamPairs(params)) && !HasRepeatedKey(ParamPairs(params))
    ensures var sent := AppendCanonicalQuery(path, params);
            Canonical(sent, true).Ok? && Canonical(sent, true) != Ok(sent)
  {
    SentIsSignedExactly(path, params);
    SentKeysRepeat(path, params);
    DuplicateKeysRejected(AppendCanonicalQuery(path, params));
  }

  /** The condition is needed: `a=1` and `a-b=2` are sent in one order and signed in the other. */
  lemma ClashingKeysDiffer(path: bytes, params: seq<Param>)
    requires QUESTION !in path && params == [Param([97], [[49]]), Param([97, 45, 98], [[50]])]
    ensures var sent := AppendCanonicalQuery(path, params);
            Canonical(sent, true).Ok? && Canonical(sent, true) != Ok(sent)
  {
    var pairs := ParamPairs(params);
    ClashExample(params);
    assert pairs[0].value.Some? && KeyClash(pairs[0].key, pairs[1].key);
    assert !HasRepeatedKey(pairs);
    ClashIsSignedDifferently(path, params);
  }

  lemma ClashExample(params: seq<Param>)
    requires params == [Param([97], [[49]]), Param([97, 45, 98], [[50]])]
    ensures ParamPairs(params) == [Pair([97], Some([49])), Pair([97, 45, 98], Some([50]))]
    ensures ValidPairs(ParamPairs(params))
  {
    assert ParamPairs(params[1..]) == PairsOf(params[1]) + ParamPairs(params[1..][1..]);
    assert ValidUtf8([98]) && ValidUtf8([45, 98]) by {
      assert [98][1..] == [] && [45, 98][1..] == [98];
    }
    assert ValidUtf8([97, 45, 98]) by {
      assert [97, 45, 98][1..] == [45, 98];
    }
    assert ValidUtf8([97]) && ValidUtf8([49]) && ValidUtf8([50]);
  }
}
