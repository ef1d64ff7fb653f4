/** Hashing and streaming a caller's file: short reads, and one content for digest and body. */
module FileBody {
  import opened Common
  import opened Text
  import opened Multipart

  const COPY_BUFFER: nat := 32 * 1024

  datatype ReadEnd = More | AtEOF | Fails

  /**
    A caller's `io.ReaderAt` over stable content. It may return any shorter read, nothing at
    all, an early end or an error; a reliable one makes progress and ends where the data ends.
   */
  class Source {
    const data: bytes
    ghost const reliable: bool

    constructor (data: bytes, ghost reliable: bool)
      ensures this.data == data && this.reliable == reliable
    {
      this.data := data;
      this.reliable := reliable;
    }

    method ReadAt(p: array<byte>, want: nat, off: nat) returns (n: nat, end: ReadEnd)
      requires want <= p.Length
      modifies p
      ensures n <= want && n <= Max(0, |data| - off)
      ensures n > 0 ==> p[..n] == data[off..off + n]
      ensures reliable && off + want <= |data| ==> (want > 0 ==> n > 0) && end != Fails
      ensures reliable && end == AtEOF ==> off + n >= |data|
    {
      n := if off <= |data| then Min(want, |data| - off) else 0;
      if n > 0 {
        CopyInto(p, 0, data, off, n);
      }
      end := if n < want then AtEOF else More;
    }
  }

  /** An `io.Writer`, here a hash; it may take less than it is given, or fail. */
  class Sink {
    var written: bytes
    ghost const reliable: bool

    constructor (ghost reliable: bool)
      ensures written == [] && this.reliable == reliable
    {
      written := [];
      this.reliable := reliable;
    }

    method Write(p: array<byte>, count: nat) returns (n: nat, failed: bool)
      requires count <= p.Length
      modifies this
      ensures n <= count && written == old(written) + p[..n]
      ensures reliable ==> n == count && !failed
    {
      n, failed := count, false;
      written := written + p[..n];
    }
  }

  datatype CopyResult =
    | Copied | NilReader | NegativeLength | ContextEnded | WriteFailed | ShortWrite
    | ReadFailed | NoProgress | ShortSource

  /**
    `copyReaderAtContext`: terminates on every pattern of reads; what it has written is always
    the beginning of the file, and success means exactly the first `byteLength` bytes.
   */
  method CopyReaderAtContext(contextEnds: nat -> bool, dst: Sink, src: Source?, byteLength: int)
    returns (r: CopyResult)
    modifies dst
    ensures r == Copied ==> src != null && 0 <= byteLength <= |src.data|
    ensures r == Copied ==> dst.written == old(dst.written) + src.data[..byteLength]
    ensures src != null && byteLength >= 0 ==>
              exists n: nat :: n <= byteLength && n <= |src.data| && dst.written == old(dst.written) + src.data[..n]
    ensures (&& src != null && src.reliable && dst.reliable
             && (forall k :: !contextEnds(k)) && 0 <= byteLength <= |src.data|) ==> r == Copied
  {
    if src == null {
      return NilReader;
    }
    if byteLength < 0 {
      return NegativeLength;
    }
    var buffer := new byte[COPY_BUFFER];
    var copied, turn := 0, 0;
    assert src.data[..0] == [];
    while copied < byteLength
      invariant 0 <= copied <= byteLength && copied <= |src.data|
      invariant dst.written == old(dst.written) + src.data[..copied]
      decreases byteLength - copied
    {
      if contextEnds(turn) {
        return ContextEnded;
      }
      turn := turn + 1;
      var want := Min(COPY_BUFFER, byteLength - copied);
      var n, end := src.ReadAt(buffer, want, copied);
      if n > 0 {
        var written, failed := dst.Write(buffer, n);
        WrittenAdvances(old(dst.written), src.data, copied, n, written, buffer[..n]);
        copied := copied + written;
        if failed {
          return WriteFailed;
        }
        if written != n {
          return ShortWrite;
        }
      }
      if end != More {
        if end == AtEOF {
          break;
        }
        return ReadFailed;
      }
      if n == 0 {
        return NoProgress;
      }
    }
    if copied != byteLength {
      return ShortSource;
    }
    return Copied;
  }

  lemma WrittenAdvances(before: bytes, data: bytes, copied: nat, n: nat, written: nat, chunk: bytes)
    requires copied + n <= |data| && written <= n && chunk == data[copied..copied + n]
    ensures before + data[..copied] + chunk[..written] == before + data[..copied + written]
  {
    assert data[..copied] + chunk[..written] == data[..copied + written];
  }

  /** `checkedMultipartLength`: the sum, or an error when a part is negative or int64 would overflow. */
  method CheckedMultipartLength(parts: seq<int>) returns (total: int, ok: bool)
    ensures ok <==> (forall i :: 0 <= i < |parts| ==> parts[i] >= 0) && SumOf(parts) <= MAX_INT64
    ensures ok ==> total == SumOf(parts)
  {
    total := 0;
    assert parts[0..] == parts;
    for i := 0 to |parts|
      invariant forall k :: 0 <= k < i ==> parts[k] >= 0
      invariant 0 <= total <= MAX_INT64 && total + SumOf(parts[i..]) == SumOf(parts)
    {
      assert parts[i..][1..] == parts[i + 1..];
      if parts[i] < 0 || total > MAX_INT64 - parts[i] {
        SumOfNonNegative(parts[i + 1..]);
        return 0, false;
      }
      total := total + parts[i];
    }
    assert parts[|parts|..] == [];
    ok := true;
  }

  function SumOf(parts: seq<int>): int {
    if parts == [] then 0 else parts[0] + SumOf(parts[1..])
  }

  lemma {:induction false} SumOfNonNegative(parts: seq<int>)
    ensures (forall i :: 0 <= i < |parts| ==> parts[i] >= 0) ==> SumOf(parts) >= 0
  {
    if parts != [] {
      SumOfNonNegative(parts[1..]);
      assert forall i :: 0 <= i < |parts[1..]| ==> parts[1..][i] == parts[i + 1];
    }
  }

  // ----- The file body factory

  const FILE_HEADER := Ascii("\r\nContent-Disposition: form-data; name=\"file\"; filename=\"")

  function FilePrefix(boundary: bytes, metadata: bytes, fileName: bytes, contentType: bytes): bytes {
    DASHES + boundary + METADATA_HEADER + metadata + CRLF
    + DASHES + boundary + FILE_HEADER + fileName + CONTENT_TYPE + contentType + CRLF + CRLF
  }

  function FileSuffix(boundary: bytes): bytes {
    CRLF + DASHES + boundary + DASHES + CRLF
  }

  /** A factory and the content it describes. */
  class FileBodyFactory {
    const bodySHA256: bytes
    const bodyLength: int
    const prefix: bytes
    const suffix: bytes
    const source: Source
    const fileLength: nat

    constructor (bodySHA256: bytes, bodyLength: int, prefix: bytes, suffix: bytes, source: Source, fileLength: nat)
      ensures this.bodySHA256 == bodySHA256 && this.bodyLength == bodyLength
      ensures this.prefix == prefix && this.suffix == suffix
      ensures this.source == source && this.fileLength == fileLength
    {
      this.bodySHA256, this.bodyLength := bodySHA256, bodyLength;
      this.prefix, this.suffix, this.source, this.fileLength := prefix, suffix, source, fileLength;
    }

    /** Prefix, file and suffix. */
    ghost function Content(): bytes
      requires fileLength <= |source.data|
    {
      prefix + source.data[..fileLength] + suffix
    }
  }

  /** `NewFileBodyFactory`: a factory's digest and length are those of its content. */
  method NewFileBodyFactory(
    sha: bytes -> bytes, contextEnds: nat -> bool, boundary: bytes, metadata: bytes, fileName: bytes,
    contentType: bytes, byteLength: int, source: Source?)
    returns (f: FileBodyFactory?)
    ensures f != null ==>
              && source == f.source && 0 <= byteLength == f.fileLength <= |f.source.data|
              && f.Content() == FilePrefix(boundary, metadata, fileName, contentType)
                                + f.source.data[..byteLength] + FileSuffix(boundary)
              && f.bodySHA256 == sha(f.Content())
              && f.bodyLength == |f.Content()| <= MAX_BODY
    ensures (&& source != null && source.reliable && (forall k :: !contextEnds(k)) && 0 <= byteLength <= |source.data|
             && EnvelopeOk(
                  metadata,
                  |FilePrefix(boundary, metadata, fileName, contentType)| + byteLength + |FileSuffix(boundary)|))
            ==> f != null
  {
    var prefix := FilePrefix(boundary, metadata, fileName, contentType);
    var suffix := FileSuffix(boundary);
    var parts := [|prefix|, byteLength, |suffix|];
    var bodyLength, ok := CheckedMultipartLength(parts);
    SumOfThree(|prefix|, byteLength, |suffix|);
    if !ok || !EnvelopeOk(metadata, bodyLength) || source == null {
      return null;
    }
    assert parts[1] == byteLength;
    var hash := new Sink(true);
    hash.written := hash.written + prefix;
    var copied := CopyReaderAtContext(contextEnds, hash, source, byteLength);
    if copied != Copied {
      return null;
    }
    hash.written := hash.written + suffix;
    assert hash.written == prefix + source.data[..byteLength] + suffix;
    f := new FileBodyFactory(sha(hash.written), bodyLength, prefix, suffix, source, byteLength);
  }

  lemma SumOfThree(a: int, b: int, c: int)
    ensures SumOf([a, b, c]) == a + b + c
  {
    var one: seq<int> := [c];
    var two: seq<int> := [b, c];
    var three: seq<int> := [a, b, c];
    assert one[1..] == [] && two[1..] == one && three[1..] == two;
    assert SumOf(one) == c && SumOf(two) == b + SumOf(one);
  }

  // ----- The body it streams

  /** `io.MultiReader(prefix, section, suffix)` behind a closed flag. */
  class FileBodyReader {
    const factory: FileBodyFactory
    var part: nat
    var offset: nat
    var closed: bool
    /** The source has ended the section before its length. */
    ghost var cut: bool

    ghost function Parts(): seq<bytes>
      requires factory.fileLength <= |factory.source.data|
    {
      [factory.prefix, factory.source.data[..factory.fileLength], factory.suffix]
    }

    ghost predicate Valid()
      reads this
    {
      && factory.fileLength <= |factory.source.data|
      && InChunks(Parts(), part, offset)
    }

    ghost function Remaining(): bytes
      requires Valid()
      reads this
    {
      Rest(Parts(), part, offset)
    }

    constructor (factory: FileBodyFactory)
      requires factory.fileLength <= |factory.source.data|
      ensures Valid() && !closed && !cut && this.factory == factory && Remaining() == factory.Content()
    {
      this.factory := factory;
      part, offset, closed, cut := 0, 0, false, false;
      new;
      ConcatOfThree(factory.prefix, factory.source.data[..factory.fileLength], factory.suffix);
    }

    function PartLength(): (n: nat)
      requires factory.fileLength <= |factory.source.data| && part < 3
      reads this
      ensures n == |Parts()[part]|
    {
      if part == 0 then |factory.prefix| else if part == 1 then factory.fileLength else |factory.suffix|
    }

    /** Passes over the parts that have ended. */
    method SkipEnded()
      requires Valid() && !closed
      modifies this`part, this`offset
      ensures Valid() && old(part) <= part && Remaining() == old(Remaining())
      ensures part < 3 ==> offset < |Parts()[part]|
    {
      ghost var parts, rest := Parts(), Remaining();
      while part < 3 && offset >= PartLength()
        invariant Valid() && old(part) <= part && Rest(parts, part, offset) == rest
        decreases 3 - part
      {
        RestSkipsEnded(parts, part);
        part, offset := part + 1, 0;
      }
    }

    /** The current part's own Read; `end` is what it reports beside the bytes. */
    method ReadPart(p: array<byte>) returns (n: nat, end: ReadEnd)
      requires Valid() && part < 3 && offset < |Parts()[part]|
      modifies p
      ensures n <= p.Length && offset + n <= |Parts()[part]|
      ensures p[..n] == Parts()[part][offset..offset + n]
      ensures part != 1 || factory.source.reliable ==> end != Fails && (p.Length > 0 ==> n > 0)
      ensures part != 1 ==> end == More
      ensures factory.source.reliable && end == AtEOF ==> offset + n == |Parts()[part]|
    {
      if part == 1 {
        n, end := factory.source.ReadAt(p, Min(p.Length, factory.fileLength - offset), offset);
      } else {
        var chunk := if part == 0 then factory.prefix else factory.suffix;
        n, end := Min(p.Length, |chunk| - offset), More;
        CopyInto(p, 0, chunk, offset, n);
      }
    }

    /** Delivered bytes and bytes to come are those that were to come, or fewer when the source cut the section. */
    ghost predicate Conserves(before: bytes, cutBefore: bool, delivered: bytes)
      requires Valid()
      reads this
    {
      || (cut == cutBefore && delivered + Remaining() == before)
      || (cut && !factory.source.reliable && |delivered| + |Remaining()| < |before|)
    }

    /** One step of the multi-reader: read the current part, and drop it when it reports its end. */
    method Advance(p: array<byte>) returns (n: nat, end: ReadEnd)
      requires Valid() && !closed && part < 3 && offset < |Parts()[part]|
      modifies this`part, this`offset, this`cut, p
      ensures Valid() && n <= p.Length && Conserves(old(Remaining()), old(cut), p[..n])
      ensures part + (if end == AtEOF then 0 else 1) > old(part)
      ensures factory.source.reliable ==> end != Fails && (p.Length > 0 ==> n > 0)
    {
      ghost var parts, at, from := Parts(), part, offset;
      n, end := ReadPart(p);
      RestAdvances(parts, part, offset, n);
      offset := offset + n;
      if end == AtEOF {
        RestSkipsEnded(parts, at);
        if offset < |parts[at]| {
          cut := true;
          RestShrinks(parts, at, offset);
        }
        part, offset := part + 1, 0;
      }
      ghost var all := Rest(parts, at, from);
      assert all[..n] + all[n..] == all;
    }

    /** A read from the first part that has bytes left, whatever the source does. */
    method Read(p: array<byte>) returns (n: nat, status: Status)
      requires Valid()
      modifies this, p
      ensures Valid() && closed == old(closed) && n <= p.Length
      ensures Conserves(old(Remaining()), old(cut), p[..n])
      ensures status == ClosedPipe <==> closed
      ensures closed ==> n == 0 && Remaining() == old(Remaining())
      ensures status == EOF ==> n == 0 && Remaining() == []
      ensures factory.source.reliable && !closed ==> (status == EOF <==> old(Remaining()) == []) && status != Failed
      ensures factory.source.reliable && status == Fine && p.Length > 0 ==> n > 0
    {
      assert p[..0] + Remaining() == Remaining();
      if closed {
        return 0, ClosedPipe;
      }
      ghost var all, cutAtStart := Remaining(), cut;
      while true
        invariant Valid() && !closed && Conserves(all, cutAtStart, [])
        invariant factory.source.reliable ==> Remaining() == all
        decreases 3 - part
      {
        SkipEnded();
        if part == 3 {
          return 0, EOF;
        }
        ghost var before, cutBefore := Remaining(), cut;
        var end;
        n, end := Advance(p);
        if n > 0 || end != AtEOF {
          return n, if end == Fails then Failed else Fine;
        }
        assert p[..0] == [];
      }
    }
  }

  /** Dropping the rest of a part leaves less. */
  lemma RestShrinks(parts: seq<bytes>, i: nat, offset: nat)
    requires i < |parts| && offset < |parts[i]|
    ensures |Rest(parts, i + 1, 0)| < |Rest(parts, i, offset)|
  {
    RestIsConcat(parts, i + 1);
  }

  lemma ConcatOfThree(a: bytes, b: bytes, c: bytes)
    ensures var parts := [a, b, c]; parts[0][0..] + Concat(parts[1..]) == a + b + c
  {
    var one: seq<bytes> := [c];
    var two: seq<bytes> := [b, c];
    var three: seq<bytes> := [a, b, c];
    assert one[1..] == [] && two[1..] == one && three[1..] == two;
    assert Concat(one) == c + [] == c && Concat(two) == b + Concat(one);
    assert a + (b + c) == a + b + c;
  }

  /**
    What is hashed is what is sent, for every source and every sequence of buffer sizes: a body
    as long as the announced length is the digested content; until the source cuts the file
    short the bytes sent are its beginning; and a reliable source delivers all of it.
   */
  method DrainFileBody(f: FileBodyFactory, sizes: seq<nat>) returns (sent: bytes, status: Status)
    requires f.fileLength <= |f.source.data|
    ensures |sent| <= |f.Content()| && (|sent| == |f.Content()| ==> sent == f.Content())
    ensures f.source.reliable ==> status != Failed && sent == f.Content()[..|sent|]
    ensures f.source.reliable && status == EOF ==> sent == f.Content()
    ensures f.source.reliable && (forall i :: 0 <= i < |sizes| ==> sizes[i] > 0) && |sizes| > |f.Content()| ==>
              status == EOF
  {
    var reader := new FileBodyReader(f);
    ghost var content := f.Content();
    sent, status := [], Fine;
    var i := 0;
    assert [] + reader.Remaining() == content;
    while i < |sizes| && status == Fine
      invariant reader.Valid() && !reader.closed && reader.factory == f && i <= |sizes|
      invariant reader.Conserves(content, false, sent)
      invariant status == EOF ==> reader.Remaining() == []
      invariant f.source.reliable ==> status == Fine || status == EOF
      invariant f.source.reliable && (forall k :: 0 <= k < |sizes| ==> sizes[k] > 0) && status == Fine ==> |sent| >= i
    {
      ghost var rest, cutBefore := reader.Remaining(), reader.cut;
      var p := new byte[sizes[i]];
      var n;
      n, status := reader.Read(p);
      Associative(sent, p[..n], reader.Remaining());
      sent := sent + p[..n];
      i := i + 1;
    }
    assert !reader.cut ==> (sent + reader.Remaining())[..|sent|] == sent;
    assert reader.Remaining() == [] ==> sent + reader.Remaining() == sent;
  }
}
