/** Media chunks: canonical base64 (sections 3.5 and 4 of RFC 4648) and the range check. */
module MediaChunks {
  import opened Common
  import opened Text

  // ----- Base64

  const PAD: byte := 61

  function Symbol(v: int): byte
    requires 0 <= v < 64
  {
    if v < 26 then 65 + v
    else if v < 52 then 71 + v
    else if v < 62 then v - 4
    else if v == 62 then 43
    else 47
  }

  /** The six bits of a symbol, or -1. */
  function Sextet(b: byte): (v: int)
    ensures -1 <= v < 64
    ensures v >= 0 ==> Symbol(v) == b
  {
    if IsUpper(b) then b - 65
    else if IsLower(b) then b - 71
    else if IsDigit(b) then b + 4
    else if b == 43 then 62
    else if b == 47 then 63
    else -1
  }

  /** The first quantum: three bytes, or a padded one or two at the end. */
  function EncodeQuad(d: bytes): (quad: bytes)
    requires d != []
    ensures |quad| == 4
  {
    if |d| == 1 then [Symbol(d[0] / 4), Symbol(d[0] % 4 * 16), PAD, PAD]
    else if |d| == 2 then [Symbol(d[0] / 4), Symbol(d[0] % 4 * 16 + d[1] / 16), Symbol(d[1] % 16 * 4), PAD]
    else [Symbol(d[0] / 4), Symbol(d[0] % 4 * 16 + d[1] / 16), Symbol(d[1] % 16 * 4 + d[2] / 64), Symbol(d[2] % 64)]
  }

  function Encode(d: bytes): bytes {
    if d == [] then [] else EncodeQuad(d) + Encode(d[Min(3, |d|)..])
  }

  /** One quantum of strict decoding; padding ends the input and its spare bits are zero. */
  function DecodeQuad(a: byte, b: byte, c: byte, d: byte, last: bool): Option<bytes> {
    var u, v, w, x := Sextet(a), Sextet(b), Sextet(c), Sextet(d);
    if u < 0 || v < 0 then None
    else if c == PAD && d == PAD && last then
      if v % 16 != 0 then None else Some([u * 4 + v / 16])
    else if w < 0 then None
    else if d == PAD && last then
      if w % 4 != 0 then None else Some([u * 4 + v / 16, v % 16 * 16 + w / 4])
    else if x < 0 then None
    else Some([u * 4 + v / 16, v % 16 * 16 + w / 4, w % 4 * 64 + x])
  }

  function DecodeQuads(s: bytes): Option<bytes> {
    if s == [] then Some([])
    else if |s| < 4 then None
    else
      var first := DecodeQuad(s[0], s[1], s[2], s[3], |s| == 4);
      var rest := DecodeQuads(s[4..]);
      if first.None? || rest.None? then None else Some(first.value + rest.value)
  }

  /** The library's decoder skips CR and LF wherever they stand. */
  function StripNewlines(s: bytes): bytes {
    if s == [] then []
    else (if s[0] == 13 || s[0] == 10 then [] else [s[0]]) + StripNewlines(s[1..])
  }

  function DecodeString(s: bytes): Option<bytes> {
    DecodeQuads(StripNewlines(s))
  }

  function EncodedLength(n: nat): nat {
    (n + 2) / 3 * 4
  }

  lemma EncodedLengthStep(n: nat)
    requires n > 0
    ensures EncodedLength(n) == 4 + EncodedLength(n - Min(3, n))
  {
  }

  lemma {:induction false} EncodeLength(d: bytes)
    ensures |Encode(d)| == EncodedLength(|d|)
  {
    if d != [] {
      EncodeLength(d[Min(3, |d|)..]);
      EncodedLengthStep(|d|);
    }
  }

  lemma SextetOfSymbol(v: int)
    requires 0 <= v < 64
    ensures Sextet(Symbol(v)) == v && Symbol(v) != PAD && Symbol(v) != 13 && Symbol(v) != 10
  {
  }

  /** Splitting three bytes into four sextets loses nothing. */
  lemma SextetsRecombine(p: byte, q: byte, r: byte)
    ensures var u, v, w, x := p / 4, p % 4 * 16 + q / 16, q % 16 * 4 + r / 64, r % 64;
            && 0 <= u < 64 && 0 <= v < 64 && 0 <= w < 64 && 0 <= x < 64
            && u * 4 + v / 16 == p && v % 16 * 16 + w / 4 == q && w % 4 * 64 + x == r
  {
  }

  lemma FullQuad(p: byte, q: byte, r: byte, last: bool)
    ensures DecodeQuad(Symbol(p / 4), Symbol(p % 4 * 16 + q / 16), Symbol(q % 16 * 4 + r / 64), Symbol(r % 64), last)
            == Some([p, q, r])
  {
    SextetsRecombine(p, q, r);
    SextetOfSymbol(p / 4);
    SextetOfSymbol(p % 4 * 16 + q / 16);
    SextetOfSymbol(q % 16 * 4 + r / 64);
    SextetOfSymbol(r % 64);
  }

  lemma PaddedQuads(p: byte, q: byte)
    ensures DecodeQuad(Symbol(p / 4), Symbol(p % 4 * 16), PAD, PAD, true) == Some([p])
    ensures DecodeQuad(Symbol(p / 4), Symbol(p % 4 * 16 + q / 16), Symbol(q % 16 * 4), PAD, true) == Some([p, q])
  {
    SextetOfSymbol(p / 4);
    SextetOfSymbol(p % 4 * 16);
    SextetOfSymbol(p % 4 * 16 + q / 16);
    SextetOfSymbol(q % 16 * 4);
  }

  lemma QuadDecodes(d: bytes)
    requires d != []
    ensures var q := EncodeQuad(d); DecodeQuad(q[0], q[1], q[2], q[3], |d| <= 3) == Some(d[..Min(3, |d|)])
  {
    if |d| > 2 {
      FullQuad(d[0], d[1], d[2], |d| <= 3);
      assert d[..3] == [d[0], d[1], d[2]];
    } else {
      PaddedQuads(d[0], if |d| == 2 then d[1] else 0);
      assert d[..|d|] == if |d| == 2 then [d[0], d[1]] else [d[0]];
    }
  }

  lemma DecodeQuadsUnfold(quad: bytes, rest: bytes)
    requires |quad| == 4
    ensures DecodeQuads(quad + rest)
            == var first := DecodeQuad(quad[0], quad[1], quad[2], quad[3], rest == []);
               var later := DecodeQuads(rest);
               if first.None? || later.None? then None else Some(first.value + later.value)
  {
    assert (quad + rest)[4..] == rest;
  }

  lemma {:induction false} DecodeEncoded(d: bytes)
    ensures DecodeQuads(Encode(d)) == Some(d)
  {
    if d != [] {
      var rest := d[Min(3, |d|)..];
      QuadDecodes(d);
      DecodeQuadsUnfold(EncodeQuad(d), Encode(rest));
      DecodeEncoded(rest);
      assert d[..Min(3, |d|)] + rest == d;
    }
  }

  lemma {:induction false} NoNewlines(s: bytes)
    requires 13 !in s && 10 !in s
    ensures StripNewlines(s) == s
  {
    if s != [] {
      NoNewlines(s[1..]);
      assert s == [s[0]] + s[1..];
    }
  }

  lemma QuadHasNoNewlines(d: bytes)
    requires d != []
    ensures 13 !in EncodeQuad(d) && 10 !in EncodeQuad(d)
  {
  }

  lemma {:induction false} EncodeHasNoNewlines(d: bytes)
    ensures 13 !in Encode(d) && 10 !in Encode(d)
  {
    if d != [] {
      QuadHasNoNewlines(d);
      EncodeHasNoNewlines(d[Min(3, |d|)..]);
    }
  }

  lemma Base64RoundTrip(d: bytes)
    ensures DecodeString(Encode(d)) == Some(d)
  {
    EncodeHasNoNewlines(d);
    NoNewlines(Encode(d));
    DecodeEncoded(d);
  }

  // ----- decodeMediaChunk

  function DecodeMediaChunk(chunkBase64: bytes, requestedLength: nat): Option<bytes> {
    if |chunkBase64| > EncodedLength(requestedLength) then None
    else
      var decoded := DecodeString(chunkBase64);
      if decoded.None? || Encode(decoded.value) != chunkBase64 then None
      else if |decoded.value| < 1 || |decoded.value| > requestedLength then None
      else decoded
  }

  /** The length check before decoding rejects no legal chunk, and only canonical text is decoded. */
  lemma DecodesExactlyCanonicalChunks(chunkBase64: bytes, requestedLength: nat, d: bytes)
    ensures DecodeMediaChunk(chunkBase64, requestedLength) == Some(d)
            <==> chunkBase64 == Encode(d) && 1 <= |d| <= requestedLength
  {
    if chunkBase64 == Encode(d) && 1 <= |d| <= requestedLength {
      EncodeLength(d);
      EncodedLengthMonotone(|d|, requestedLength);
      Base64RoundTrip(d);
    }
  }

  lemma EncodedLengthMonotone(m: nat, n: nat)
    requires m <= n
    ensures EncodedLength(m) <= EncodedLength(n)
  {
    assert (m + 2) / 3 <= (n + 2) / 3;
  }

  // ----- The range check

  const MAX_CHUNK: int := 512 * 1024
  const MAX_MEDIA: int := 30 * 1024 * 1024

  /** The numeric fields of a request, and when `normalizeMediaChunkRequest` lets them pass. */
  datatype ChunkRequest = ChunkRequest(offset: int, length: int)

  predicate RequestOk(r: ChunkRequest) {
    r.offset >= 0 && 1 <= r.length <= MAX_CHUNK && r.offset <= MAX_INT64 - r.length
  }

  datatype ChunkResponse = ChunkResponse(totalLength: int, eof: bool, chunkBase64: bytes)

  /** `validateMediaChunkRange`; the sum is formed only after it is known not to overflow. */
  predicate RangeOk(totalLength: int, eof: bool, r: ChunkRequest, decodedLength: int) {
    if r.offset < 0 || r.offset > MAX_INT64 - decodedLength then false
    else
      var end := r.offset + decodedLength;
      end <= totalLength && (eof <==> end == totalLength) && (!eof ==> decodedLength == r.length)
  }

  /** The response passes validation and carries `chunk`. */
  predicate Accepts(r: ChunkRequest, response: ChunkResponse, chunk: bytes) {
    && RequestOk(r)
    && 1 <= response.totalLength <= MAX_MEDIA
    && DecodeMediaChunk(response.chunkBase64, r.length) == Some(chunk)
    && RangeOk(response.totalLength, response.eof, r, |chunk|)
  }

  /** An accepted chunk is exactly what was asked for, cut at the end of the media. */
  lemma AcceptedChunkIsExact(r: ChunkRequest, response: ChunkResponse, chunk: bytes)
    requires RequestOk(r) && 1 <= response.totalLength <= MAX_MEDIA && response.chunkBase64 == Encode(chunk)
    ensures Accepts(r, response, chunk) <==>
            && r.offset < response.totalLength
            && |chunk| == Min(r.length, response.totalLength - r.offset)
            && (response.eof <==> r.offset + |chunk| == response.totalLength)
    ensures Accepts(r, response, chunk) ==> r.offset + |chunk| <= MAX_INT64
  {
    DecodesExactlyCanonicalChunks(response.chunkBase64, r.length, chunk);
  }

  /** One accepted step of a download. */
  datatype Step = Step(request: ChunkRequest, response: ChunkResponse, chunk: bytes)

  /** A download asks for `length` bytes at a time and advances by what it received. */
  ghost predicate IsDownload(steps: seq<Step>, length: int, total: int) {
    && (forall i :: 0 <= i < |steps| ==>
          && Accepts(steps[i].request, steps[i].response, steps[i].chunk)
          && steps[i].request.length == length && steps[i].response.totalLength == total)
    && (steps != [] ==> steps[0].request.offset == 0)
    && (forall i :: 0 < i < |steps| ==>
          steps[i].request.offset == steps[i - 1].request.offset + |steps[i - 1].chunk|)
  }

  lemma AcceptedSize(s: Step)
    requires Accepts(s.request, s.response, s.chunk)
    ensures 1 <= s.request.length && s.request.offset < s.response.totalLength
    ensures |s.chunk| == Min(s.request.length, s.response.totalLength - s.request.offset)
    ensures s.response.eof <==> s.request.offset + |s.chunk| == s.response.totalLength
  {
    DecodesExactlyCanonicalChunks(s.response.chunkBase64, s.request.length, s.chunk);
    AcceptedChunkIsExact(s.request, s.response, s.chunk);
  }

  /** The offsets and sizes of a download, without the contents of its chunks. */
  ghost predicate Chained(steps: seq<Step>, length: int, total: int) {
    && (forall i :: 0 <= i < |steps| ==>
          && 1 <= length && steps[i].request.offset < total
          && |steps[i].chunk| == Min(length, total - steps[i].request.offset)
          && (steps[i].response.eof <==> steps[i].request.offset + |steps[i].chunk| == total))
    && (steps != [] ==> steps[0].request.offset == 0)
    && (forall i :: 0 < i < |steps| ==>
          steps[i].request.offset == steps[i - 1].request.offset + |steps[i - 1].chunk|)
  }

  lemma DownloadIsChained(steps: seq<Step>, length: int, total: int)
    requires IsDownload(steps, length, total)
    ensures Chained(steps, length, total)
  {
    forall i | 0 <= i < |steps|
      ensures 1 <= length && steps[i].request.offset < total
      ensures |steps[i].chunk| == Min(length, total - steps[i].request.offset)
      ensures steps[i].response.eof <==> steps[i].request.offset + |steps[i].chunk| == total
    {
      AcceptedSize(steps[i]);
    }
  }

  /** Step `i` covers the i-th slice of `length` bytes: no gap and no overlap. */
  lemma {:induction false} StepsTile(steps: seq<Step>, length: int, total: int, i: nat)
    requires Chained(steps, length, total) && i < |steps|
    ensures steps[i].request.offset == i * length
    ensures i * length + |steps[i].chunk| == Min((i + 1) * length, total)
    ensures i * length < total
    decreases i
  {
    if i > 0 {
      StepsTile(steps, length, total, i - 1);
      assert (i - 1) * length + length == i * length;
    }
    assert (i + 1) * length == i * length + length;
  }

  function CeilDiv(n: int, d: int): int
    requires n >= 0 && d > 0
  {
    (n + d - 1) / d
  }

  lemma MulMonotone(a: int, b: int, c: int)
    requires c > 0
    ensures a <= b ==> a * c <= b * c
  {
  }

  lemma CeilDivBounds(k: nat, length: int, total: int)
    requires length > 0 && total > 0 && k * length < total
    ensures k + 1 <= CeilDiv(total, length)
    ensures total <= (k + 1) * length ==> k + 1 == CeilDiv(total, length)
  {
    assert (k + 1) * length == k * length + length;
    var q := CeilDiv(total, length);
    var rest := (total + length - 1) % length;
    assert total + length - 1 == q * length + rest;
    MulMonotone(q, k, length);
    MulMonotone(k + 2, q, length);
    assert (k + 2) * length == (k + 1) * length + length;
  }

  /**
    Whatever the server does, a download under a fixed total and chunk length has at most
    ceil(total / length) accepted steps; it has exactly that many when it has seen the end,
    and then its chunks together are exactly `total` bytes.
   */
  lemma DownloadFinishes(steps: seq<Step>, length: int, total: int)
    requires IsDownload(steps, length, total) && steps != []
    ensures length > 0 && total > 0 && |steps| <= CeilDiv(total, length)
    ensures steps[|steps| - 1].response.eof <==> |steps| == CeilDiv(total, length)
    ensures steps[|steps| - 1].response.eof ==>
              steps[|steps| - 1].request.offset + |steps[|steps| - 1].chunk| == total
    ensures forall i :: 0 <= i < |steps| - 1 ==> !steps[i].response.eof
  {
    DownloadIsChained(steps, length, total);
    ChainFinishes(steps, length, total);
  }

  lemma ChainFinishes(steps: seq<Step>, length: int, total: int)
    requires Chained(steps, length, total) && steps != []
    ensures length > 0 && total > 0 && |steps| <= CeilDiv(total, length)
    ensures steps[|steps| - 1].response.eof <==> |steps| == CeilDiv(total, length)
    ensures forall i :: 0 <= i < |steps| - 1 ==> !steps[i].response.eof
  {
    var k := |steps| - 1;
    StepsTile(steps, length, total, k);
    CeilDivBounds(k, length, total);
    if !steps[k].response.eof {
      assert (k + 1) * length < total;
      CeilDivBounds(k + 1, length, total);
    }
    forall i | 0 <= i < k
      ensures !steps[i].response.eof
    {
      assert steps[i + 1].request.offset == steps[i].request.offset + |steps[i].chunk|;
    }
  }

  /** The chunks of the first `n` steps, in order. */
  function Assembled(steps: seq<Step>, n: nat): bytes
    requires n <= |steps|
  {
    if n == 0 then [] else Assembled(steps, n - 1) + steps[n - 1].chunk
  }

  /** Every response carries the bytes that `content` holds at the requested offset. */
  ghost predicate Serves(steps: seq<Step>, content: bytes) {
    forall i :: 0 <= i < |steps| ==>
      && 0 <= steps[i].request.offset
      && steps[i].request.offset + |steps[i].chunk| <= |content|
      && steps[i].chunk == content[steps[i].request.offset..steps[i].request.offset + |steps[i].chunk|]
  }

  lemma PrefixExtends(content: bytes, done: bytes, chunk: bytes)
    requires |done| + |chunk| <= |content|
    requires done == content[..|done|] && chunk == content[|done|..|done| + |chunk|]
    ensures done + chunk == content[..|done + chunk|]
  {
  }

  /** At every moment the assembled bytes are a prefix of the content, without gap or repeat. */
  lemma {:induction false} AssembledIsPrefix(steps: seq<Step>, length: int, content: bytes, n: nat)
    requires Chained(steps, length, |content|) && Serves(steps, content) && 0 < n <= |steps|
    ensures |Assembled(steps, n)| == steps[n - 1].request.offset + |steps[n - 1].chunk| <= |content|
    ensures Assembled(steps, n) == content[..|Assembled(steps, n)|]
  {
    var last := steps[n - 1];
    if n > 1 {
      AssembledIsPrefix(steps, length, content, n - 1);
    }
    PrefixExtends(content, Assembled(steps, n - 1), last.chunk);
  }

  /**
    A download from a server that serves one fixed content has rebuilt that content exactly
    when the last response says so, which is after ceil(total / length) steps.
   */
  lemma DownloadReassembles(steps: seq<Step>, length: int, content: bytes)
    requires IsDownload(steps, length, |content|) && Serves(steps, content) && steps != []
    ensures length > 0 && content != []
    ensures steps[|steps| - 1].response.eof <==> Assembled(steps, |steps|) == content
    ensures Assembled(steps, |steps|) == content <==> |steps| == CeilDiv(|content|, length)
  {
    DownloadFinishes(steps, length, |content|);
    DownloadIsChained(steps, length, |content|);
    AssembledIsPrefix(steps, length, content, |steps|);
  }
}
