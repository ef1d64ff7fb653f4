/** The multipart body: its layout, its limits, and the reader that streams it. */
module Multipart {
  import opened Common
  import opened Text

  function Concat(chunks: seq<bytes>): bytes {
    if chunks == [] then [] else chunks[0] + Concat(chunks[1..])
  }

  // ----- bodyReader

  predicate InChunks(chunks: seq<bytes>, index: nat, offset: nat) {
    index <= |chunks| && offset <= (if index < |chunks| then |chunks[index]| else 0)
  }

  /** What follows a position in the chunk list. */
  function Rest(chunks: seq<bytes>, index: nat, offset: nat): bytes
    requires InChunks(chunks, index, offset)
  {
    if index == |chunks| then [] else chunks[index][offset..] + Concat(chunks[index + 1..])
  }

  lemma RestIsConcat(chunks: seq<bytes>, i: nat)
    requires i <= |chunks|
    ensures Rest(chunks, i, 0) == Concat(chunks[i..])
  {
    if i < |chunks| {
      assert chunks[i..][1..] == chunks[i + 1..];
      assert chunks[i][0..] == chunks[i];
    }
  }

  lemma RestSkipsEnded(chunks: seq<bytes>, i: nat)
    requires i < |chunks|
    ensures Rest(chunks, i, |chunks[i]|) == Rest(chunks, i + 1, 0)
  {
    RestIsConcat(chunks, i + 1);
    assert chunks[i][|chunks[i]|..] == [];
  }

  lemma SliceOfConcat(left: bytes, right: bytes, k: nat)
    requires k <= |left|
    ensures (left + right)[..k] == left[..k] && (left + right)[k..] == left[k..] + right
  {
  }

  lemma RestAdvances(chunks: seq<bytes>, i: nat, offset: nat, k: nat)
    requires i < |chunks| && offset + k <= |chunks[i]|
    ensures k <= |Rest(chunks, i, offset)|
    ensures Rest(chunks, i, offset)[..k] == chunks[i][offset..offset + k]
    ensures Rest(chunks, i, offset)[k..] == Rest(chunks, i, offset + k)
  {
    SliceOfConcat(chunks[i][offset..], Concat(chunks[i + 1..]), k);
    assert chunks[i][offset..][k..] == chunks[i][offset + k..];
  }

  /** The buffer `p` after its bytes from `at` on have been overwritten with `data`. */
  function Overwrite(p: bytes, at: nat, data: bytes): (r: bytes)
    requires at + |data| <= |p|
    ensures |r| == |p|
  {
    p[..at] + data + p[at + |data|..]
  }

  /** After `n` bytes of `all`: what is left of it, and the buffer that was `before`. */
  ghost predicate Delivered(all: bytes, before: bytes, n: nat, rest: bytes, buffer: bytes) {
    && n <= |all| && n <= |before|
    && rest == all[n..]
    && buffer == Overwrite(before, 0, all[..n])
  }

  lemma DeliveredAdvances(all: bytes, before: bytes, n: nat, rest: bytes, buffer: bytes, k: nat)
    requires Delivered(all, before, n, rest, buffer) && k <= |rest| && n + k <= |before|
    ensures Delivered(all, before, n + k, rest[k..], Overwrite(buffer, n, rest[..k]))
  {
  }

  datatype Status = Fine | EOF | ClosedPipe | Failed

  class BodyReader {
    const chunks: seq<bytes>
    var index: nat
    var offset: nat
    var closed: bool

    ghost predicate Valid()
      reads this
    {
      InChunks(chunks, index, offset)
    }

    /** The bytes still to come. */
    ghost function Remaining(): bytes
      requires Valid()
      reads this
    {
      Rest(chunks, index, offset)
    }

    constructor (chunks: seq<bytes>)
      ensures Valid() && !closed && this.chunks == chunks && Remaining() == Concat(chunks)
    {
      this.chunks := chunks;
      index, offset, closed := 0, 0, false;
      new;
      RestIsConcat(chunks, 0);
      assert chunks[0..] == chunks;
    }

    /** One `Read` into the caller's buffer: the next slice of the concatenation, as much as fits. */
    method Read(p: array<byte>) returns (n: nat, status: Status)
      requires Valid()
      modifies this, p
      ensures Valid() && closed == old(closed)
      ensures closed ==> n == 0 && status == ClosedPipe
      ensures !closed ==> status == if p.Length > 0 && old(Remaining()) == [] then EOF else Fine
      ensures n == if closed then 0 else Min(p.Length, |old(Remaining())|)
      ensures n <= |old(Remaining())| && p[..] == Overwrite(old(p[..]), 0, old(Remaining())[..n])
      ensures Remaining() == old(Remaining())[n..]
    {
      if closed {
        return 0, ClosedPipe;
      }
      if p.Length == 0 {
        return 0, Fine;
      }
      ghost var all, before := Remaining(), p[..];
      ghost var rest, image := all, before;
      n := 0;
      while n < p.Length && index < |chunks|
        invariant Valid() && !closed && Remaining() == rest && p[..] == image
        invariant Delivered(all, before, n, rest, image)
        decreases |chunks| - index, p.Length - n
      {
        var chunk := chunks[index];
        if offset >= |chunk| {
          RestSkipsEnded(chunks, index);
          index := index + 1;
          offset := 0;
          continue;
        }
        var k := CopyNext(p, n);
        DeliveredAdvances(all, before, n, rest, image, k);
        rest, image := rest[k..], Overwrite(image, n, rest[..k]);
        n := n + k;
      }
      status := if n > 0 then Fine else EOF;
    }

    /** Copies what fits of the current chunk behind the first `n` bytes of the buffer. */
    method CopyNext(p: array<byte>, n: nat) returns (k: nat)
      requires Valid() && index < |chunks| && offset < |chunks[index]| && n < p.Length
      modifies this`offset, p
      ensures Valid() && 0 < k <= p.Length - n && k <= |old(Remaining())|
      ensures Remaining() == old(Remaining())[k..]
      ensures p[..] == Overwrite(old(p[..]), n, old(Remaining())[..k])
    {
      var chunk := chunks[index];
      k := Min(p.Length - n, |chunk| - offset);
      RestAdvances(chunks, index, offset, k);
      CopyInto(p, n, chunk, offset, k);
      offset := offset + k;
    }

    method Close()
      requires Valid()
      modifies this`closed
      ensures Valid() && closed
    {
      closed := true;
    }
  }

  /** Go's `copy(p[at:], chunk[from:from+k])`. */
  method CopyInto(p: array<byte>, at: nat, chunk: bytes, from: nat, k: nat)
    requires at + k <= p.Length && from + k <= |chunk|
    modifies p
    ensures p[..] == Overwrite(old(p[..]), at, chunk[from..from + k])
  {
    for i := 0 to k
      invariant forall j :: 0 <= j < p.Length ==>
                  p[j] == if at <= j < at + i then chunk[from + j - at] else old(p[j])
    {
      p[at + i] := chunk[from + i];
    }
  }

  function Total(sizes: seq<nat>): nat {
    if sizes == [] then 0 else sizes[0] + Total(sizes[1..])
  }

  lemma SliceAdvances(all: bytes, d: nat, n: nat)
    requires d + n <= |all|
    ensures all[..d] + all[d..][..n] == all[..d + n] && all[d..][n..] == all[d + n..]
  {
  }

  lemma TotalAdvances(sizes: seq<nat>, i: nat)
    requires i < |sizes|
    ensures Total(sizes[i..]) == sizes[i] + Total(sizes[i + 1..])
  {
    assert sizes[i..][1..] == sizes[i + 1..];
  }

  /** Any sequence of reads with any buffer sizes delivers exactly that much of the concatenation. */
  method ReadWithSizes(reader: BodyReader, sizes: seq<nat>) returns (delivered: bytes)
    requires reader.Valid() && !reader.closed
    modifies reader
    ensures reader.Valid() && !reader.closed
    ensures |delivered| == Min(Total(sizes), |old(reader.Remaining())|)
    ensures delivered == old(reader.Remaining())[..|delivered|]
    ensures reader.Remaining() == old(reader.Remaining())[|delivered|..]
  {
    delivered := [];
    ghost var all := reader.Remaining();
    ghost var asked := 0;
    assert sizes[0..] == sizes;
    for i := 0 to |sizes|
      invariant reader.Valid() && !reader.closed
      invariant asked + Total(sizes[i..]) == Total(sizes)
      invariant |delivered| == Min(asked, |all|)
      invariant delivered == all[..|delivered|]
      invariant reader.Remaining() == all[|delivered|..]
    {
      TotalAdvances(sizes, i);
      var p := new byte[sizes[i]];
      var n, _ := reader.Read(p);
      SliceAdvances(all, |delivered|, n);
      assert p[..n] == all[|delivered|..][..n];
      delivered := delivered + p[..n];
      asked := asked + sizes[i];
    }
    assert sizes[|sizes|..] == [];
  }

  // ----- Layout and limits (section 4 of RFC 7578)

  const MAX_IMAGES: int := 8
  const MAX_BODY: int := 31 * 1024 * 1024
  const MAX_METADATA: int := 64 * 1024
  const MAX_SINGLE_IMAGE: int := 20 * 1024 * 1024
  const MAX_TOTAL_IMAGES: int := 30 * 1024 * 1024

  const DASHES := Ascii("--")
  const CRLF := Ascii("\r\n")
  const METADATA_HEADER := Ascii("\r\nContent-Disposition: form-data; name=\"metadata\"\r\n\r\n")
  const IMAGE_HEADER := Ascii("\r\nContent-Disposition: form-data; name=\"image\"; filename=\"image-")
  const CONTENT_TYPE := Ascii("\"\r\nContent-Type: ")

  /** The three chunks of image part `i`. */
  function ImagePart(boundary: bytes, i: nat, image: bytes, contentType: bytes): seq<bytes> {
    [DASHES + boundary + IMAGE_HEADER + Decimal(i) + CONTENT_TYPE + contentType + CRLF + CRLF, image, CRLF]
  }

  function ImageParts(boundary: bytes, from: nat, images: seq<bytes>, contentTypes: seq<bytes>): seq<bytes>
    requires |images| == |contentTypes|
    decreases |images|
  {
    if images == [] then []
    else ImagePart(boundary, from, images[0], contentTypes[0])
         + ImageParts(boundary, from + 1, images[1..], contentTypes[1..])
  }

  function BodyChunks(boundary: bytes, metadata: bytes, images: seq<bytes>, contentTypes: seq<bytes>): seq<bytes>
    requires |images| == |contentTypes|
  {
    [DASHES + boundary + METADATA_HEADER, metadata, CRLF]
    + ImageParts(boundary, 0, images, contentTypes)
    + [DASHES + boundary + DASHES + CRLF]
  }

  function Sizes(parts: seq<bytes>): nat {
    if parts == [] then 0 else |parts[0]| + Sizes(parts[1..])
  }

  lemma {:induction false} ConcatLength(chunks: seq<bytes>)
    ensures |Concat(chunks)| == Sizes(chunks)
  {
    if chunks != [] {
      ConcatLength(chunks[1..]);
    }
  }

  lemma {:induction false} SizesAppend(s: seq<bytes>, t: seq<bytes>)
    ensures Sizes(s + t) == Sizes(s) + Sizes(t)
  {
    if s == [] {
      assert s + t == t;
    } else {
      assert (s + t)[1..] == s[1..] + t;
      SizesAppend(s[1..], t);
    }
  }

  lemma SizesOfThree(a: bytes, b: bytes, c: bytes)
    ensures Sizes([a, b, c]) == |a| + |b| + |c|
  {
    var one: seq<bytes> := [c];
    var two: seq<bytes> := [b, c];
    var three: seq<bytes> := [a, b, c];
    assert one[1..] == [] && two[1..] == one && three[1..] == two;
    assert Sizes(one) == |c| && Sizes(two) == |b| + Sizes(one);
  }

  /** `ValidateReplyMultipartEnvelope` passes. */
  predicate EnvelopeOk(metadata: bytes, bodyLength: int) {
    |metadata| <= MAX_METADATA && bodyLength <= MAX_BODY
  }

  datatype Factory = Factory(bodySHA256: bytes, bodyLength: int, chunks: seq<bytes>)

  lemma SizesAdvances(chunks: seq<bytes>, i: nat)
    requires i < |chunks|
    ensures Sizes(chunks[i..]) == |chunks[i]| + Sizes(chunks[i + 1..])
    ensures Concat(chunks[i..]) == chunks[i] + Concat(chunks[i + 1..])
  {
    assert chunks[i..][1..] == chunks[i + 1..];
  }

  /** The loop that adds up the chunk lengths. */
  method BodyLength(chunks: seq<bytes>) returns (n: nat)
    ensures n == |Concat(chunks)|
  {
    n := 0;
    assert chunks[0..] == chunks;
    for i := 0 to |chunks|
      invariant n + Sizes(chunks[i..]) == Sizes(chunks)
    {
      SizesAdvances(chunks, i);
      n := n + |chunks[i]|;
    }
    ConcatLength(chunks);
  }

  /** The loop that writes the chunks to the hash: all the bytes it has received, in order. */
  method WriteChunks(chunks: seq<bytes>) returns (hashed: bytes)
    ensures hashed == Concat(chunks)
  {
    hashed := [];
    assert chunks[0..] == chunks;
    for i := 0 to |chunks|
      invariant hashed + Concat(chunks[i..]) == Concat(chunks)
    {
      SizesAdvances(chunks, i);
      Associative(hashed, chunks[i], Concat(chunks[i + 1..]));
      hashed := hashed + chunks[i];
    }
    assert hashed + [] == hashed;
  }

  /** `NewBodyFactory`: the length first, then the envelope, then the hash of the chunks written in order. */
  method NewBodyFactory(
    sha: bytes -> bytes, boundary: bytes, metadata: bytes, images: seq<bytes>, contentTypes: seq<bytes>)
    returns (r: Option<Factory>)
    requires |images| == |contentTypes|
    ensures var body := Concat(BodyChunks(boundary, metadata, images, contentTypes));
            r == if EnvelopeOk(metadata, |body|)
                 then Some(Factory(sha(body), |body|, BodyChunks(boundary, metadata, images, contentTypes)))
                 else None
  {
    var chunks := BodyChunks(boundary, metadata, images, contentTypes);
    var bodyLength := BodyLength(chunks);
    if !EnvelopeOk(metadata, bodyLength) {
      return None;
    }
    var hashed := WriteChunks(chunks);
    return Some(Factory(sha(hashed), bodyLength, chunks));
  }

  /** What is signed is what is sent: each body of one factory streams the hashed bytes, in full. */
  method DrainNewBody(f: Factory, sizes: seq<nat>) returns (sent: bytes)
    requires f.bodyLength == |Concat(f.chunks)| && Total(sizes) >= f.bodyLength
    ensures sent == Concat(f.chunks) && |sent| == f.bodyLength
  {
    var reader := new BodyReader(f.chunks);
    sent := ReadWithSizes(reader, sizes);
  }

  /** `ValidateReplyImages`. */
  method ValidateReplyImages(images: seq<bytes>) returns (ok: bool)
    ensures ok <==> ImagesOk(images)
  {
    if |images| == 0 || |images| > MAX_IMAGES {
      return false;
    }
    var totalBytes := 0;
    assert images[0..] == images;
    for i := 0 to |images|
      invariant forall k :: 0 <= k < i ==> 1 <= |images[k]| <= MAX_SINGLE_IMAGE
      invariant totalBytes + Sizes(images[i..]) == Sizes(images)
      invariant totalBytes <= MAX_TOTAL_IMAGES
    {
      assert images[i..][1..] == images[i + 1..];
      if |images[i]| == 0 || |images[i]| > MAX_SINGLE_IMAGE {
        return false;
      }
      totalBytes := totalBytes + |images[i]|;
      if totalBytes > MAX_TOTAL_IMAGES {
        return false;
      }
    }
    assert images[|images|..] == [];
    return true;
  }

  ghost predicate ImagesOk(images: seq<bytes>) {
    && 1 <= |images| <= MAX_IMAGES
    && (forall k :: 0 <= k < |images| ==> 1 <= |images[k]| <= MAX_SINGLE_IMAGE)
    && Sizes(images) <= MAX_TOTAL_IMAGES
  }

  /** What `detectImageContentType` can return. */
  predicate DetectedContentType(t: bytes) {
    t == Ascii("image/png") || t == Ascii("image/jpeg") || t == Ascii("image/webp")
    || t == Ascii("image/gif") || t == Ascii("video/mp4")
  }

  /** An image part adds fewer than 256 bytes to its image. */
  lemma ImagePartOverhead(boundary: bytes, i: nat, image: bytes, contentType: bytes)
    requires |boundary| == 32 && i < 10 && DetectedContentType(contentType)
    ensures Sizes(ImagePart(boundary, i, image, contentType)) <= |image| + 256
  {
    var part := ImagePart(boundary, i, image, contentType);
    assert |part[0]| <= 254;
    SizesOfThree(part[0], image, CRLF);
  }

  lemma {:induction false} ImagePartsOverhead(
    boundary: bytes, from: nat, images: seq<bytes>, contentTypes: seq<bytes>)
    requires |images| == |contentTypes| && |boundary| == 32 && from + |images| <= 10
    requires forall k :: 0 <= k < |contentTypes| ==> DetectedContentType(contentTypes[k])
    ensures Sizes(ImageParts(boundary, from, images, contentTypes)) <= Sizes(images) + 256 * |images|
    decreases |images|
  {
    if images != [] {
      ImagePartOverhead(boundary, from, images[0], contentTypes[0]);
      ImagePartsOverhead(boundary, from + 1, images[1..], contentTypes[1..]);
      SizesAppend(
        ImagePart(boundary, from, images[0], contentTypes[0]),
        ImageParts(boundary, from + 1, images[1..], contentTypes[1..]));
    }
  }

  /**
    Images that pass validation, with metadata up to its limit, the 32-byte boundary and
    detected content types, never exceed the envelope: the later check cannot fail.
   */
  lemma ValidImagesFitEnvelope(boundary: bytes, metadata: bytes, images: seq<bytes>, contentTypes: seq<bytes>)
    requires ImagesOk(images) && |images| == |contentTypes| && |boundary| == 32 && |metadata| <= MAX_METADATA
    requires forall k :: 0 <= k < |contentTypes| ==> DetectedContentType(contentTypes[k])
    ensures EnvelopeOk(metadata, |Concat(BodyChunks(boundary, metadata, images, contentTypes))|)
  {
    var head := [DASHES + boundary + METADATA_HEADER, metadata, CRLF];
    var parts := ImageParts(boundary, 0, images, contentTypes);
    var tail := [DASHES + boundary + DASHES + CRLF];
    ConcatLength(BodyChunks(boundary, metadata, images, contentTypes));
    SizesAppend(head + parts, tail);
    SizesAppend(head, parts);
    ImagePartsOverhead(boundary, 0, images, contentTypes);
    SizesOfThree(head[0], metadata, CRLF);
    assert tail[1..] == [];
  }
}
