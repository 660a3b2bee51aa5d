/** The integrity codec: the SHA-256 checksum of a byte string as 64
    lowercase hex characters, computed either from an in-memory array
    (Backend.java) or by reading an input stream through an 8 KiB buffer
    (Vu_globale.java).

    SHA-256 itself is not modelled: the security provider supplies it as an
    arbitrary function from bytes to 32-byte digests. `MessageDigest` is
    modelled by what it has absorbed so far, since the digest it finally
    produces depends only on the concatenation of everything passed to
    `update`. */
module Checksum {
  import opened Wrappers
  import opened Hex

  const DigestLength := 32
  /** Width of the CHECKSUM column. */
  const ChecksumLength := 64
  /** Default value of the CHECKSUM_ALGO column. */
  const Algorithm: string := "SHA-256"
  /** Width of the CHECKSUM_ALGO column. */
  const AlgorithmColumnLength := 10
  /** Size of the read buffer of the streaming checksum. */
  const BufferSize := 8192

  type Digest = s: seq<byte> | |s| == DigestLength witness seq(DigestLength, _ => 0 as byte)

  /** The JVM's security providers, as far as this code sees them: whether
      `MessageDigest.getInstance("SHA-256")` succeeds, and the hash function. */
  datatype Provider = Provider(hasSha256: bool, sha256: seq<byte> -> Digest)

  /** `NoSuchAlgorithmException`, the only failure of the checksum code. */
  datatype ChecksumError = NoSuchAlgorithm

  /** A `MessageDigest` instance: the bytes fed to it so far. */
  datatype MessageDigest = MessageDigest(absorbed: seq<byte>)

  /** `MessageDigest.getInstance("SHA-256")`: a digest that has absorbed
      nothing, or `NoSuchAlgorithmException` when no provider offers it. */
  function GetInstance(p: Provider): (r: Result<MessageDigest, ChecksumError>)
    ensures r.Success? <==> p.hasSha256
    ensures r.Success? ==> r.value.absorbed == []
    ensures r.Failure? ==> r.error == NoSuchAlgorithm
  {
    if p.hasSha256 then Success(MessageDigest([])) else Failure(NoSuchAlgorithm)
  }

  /** `digest.update(buffer, offset, len)`: absorbs `len` bytes of the
      buffer starting at `offset`, after everything absorbed before. */
  function Update(md: MessageDigest, buffer: seq<byte>, offset: nat, len: nat): (r: MessageDigest)
    requires offset + len <= |buffer|
    ensures |r.absorbed| == |md.absorbed| + len
    ensures r.absorbed[..|md.absorbed|] == md.absorbed
    ensures r.absorbed[|md.absorbed|..] == buffer[offset..offset + len]
  {
    MessageDigest(md.absorbed + buffer[offset..offset + len])
  }

  /** Feeding a buffer to `update` in two consecutive pieces absorbs the
      same bytes as feeding it in one, which is why the digest of a stream
      does not depend on how its reads are split. */
  lemma UpdateConcat(md: MessageDigest, buffer: seq<byte>, offset: nat, len1: nat, len2: nat)
    requires offset + len1 + len2 <= |buffer|
    ensures Update(Update(md, buffer, offset, len1), buffer, offset + len1, len2)
            == Update(md, buffer, offset, len1 + len2)
  {
    assert buffer[offset..offset + len1 + len2]
           == buffer[offset..offset + len1] + buffer[offset + len1..offset + len1 + len2];
  }

  /** `digest.digest()`: the hash of everything absorbed. */
  function Complete(p: Provider, md: MessageDigest): Digest
  {
    p.sha256(md.absorbed)
  }

  /** `calculateChecksum(byte[])`: fails only when SHA-256 is unavailable;
      otherwise the result is the 64-character hex text of the digest of
      exactly the given bytes. */
  function CalculateChecksum(p: Provider, fileBytes: seq<byte>): (r: Result<string, ChecksumError>)
    ensures r.Success? <==> p.hasSha256
    ensures r.Failure? ==> r.error == NoSuchAlgorithm
    ensures r.Success? ==> |r.value| == ChecksumLength && ParseHex(r.value) == Some(p.sha256(fileBytes))
  {
    var md :- GetInstance(p);
    var md' := Update(md, fileBytes, 0, |fileBytes|);
    assert md'.absorbed == fileBytes;
    var hex := FormatHex(Complete(p, md'));
    ParseFormatHex(Complete(p, md'));
    Success(hex)
  }

  /** An input stream over `data`, positioned at `pos`. How many bytes a
      `read` delivers is the stream's choice: `grant(pos)`, clamped to what
      Java's `InputStream.read(byte[])` allows (at least one byte while data
      remains, at most the buffer length and the remaining bytes). */
  datatype InputStream = InputStream(data: seq<byte>, pos: nat, grant: nat -> nat)

  datatype ReadResult = ReadResult(stream: InputStream, buffer: seq<byte>, count: int)

  /** `inputStream.read(buffer)`: copies the next bytes into the front of the
      buffer and returns how many, or -1 at end of stream. The rest of the
      buffer keeps whatever it held before. */
  function Read(s: InputStream, buffer: seq<byte>): (r: ReadResult)
    requires s.pos <= |s.data| && |buffer| > 0
    ensures r.count == -1 <==> s.pos == |s.data|
    ensures r.count == -1 ==> r.stream == s && r.buffer == buffer
    ensures r.count != -1 ==>
              && 1 <= r.count <= |buffer|
              && s.pos + r.count <= |s.data|
              && r.stream == s.(pos := s.pos + r.count)
              && |r.buffer| == |buffer|
              && r.buffer[..r.count] == s.data[s.pos..s.pos + r.count]
              && r.buffer[r.count..] == buffer[r.count..]
  {
    if s.pos == |s.data| then ReadResult(s, buffer, -1)
    else
      var room := Min(|buffer|, |s.data| - s.pos);
      var n := if s.grant(s.pos) < 1 then 1 else Min(s.grant(s.pos), room);
      ReadResult(s.(pos := s.pos + n), s.data[s.pos..s.pos + n] + buffer[n..], n)
  }

  function Min(a: int, b: int): int {
    if a <= b then a else b
  }

  /** `calculateChecksum(InputStream)`: reads the stream to its end through
      an 8192-byte buffer and hashes what it read. The result is the
      checksum of the remaining stream contents, the same as the in-memory
      `calculateChecksum(byte[])` of those bytes. */
  method CalculateChecksumStream(p: Provider, input: InputStream) returns (r: Result<string, ChecksumError>)
    requires input.pos <= |input.data|
    ensures r == CalculateChecksum(p, input.data[input.pos..])
    ensures r.Success? ==> |r.value| == ChecksumLength
  {
    var instance := GetInstance(p);
    if instance.Failure? {
      assert CalculateChecksum(p, input.data[input.pos..]) == Failure(NoSuchAlgorithm);
      return Failure(NoSuchAlgorithm);
    }
    var digest := UpdateFromStream(instance.value, input);
    assert digest.absorbed == input.data[input.pos..];
    var hash := Complete(p, digest);
    r := Success(FormatHex(hash));
    var expected := CalculateChecksum(p, input.data[input.pos..]);
    ParseHexIff(expected.value, hash);
  }

  /** The read loop: read into the buffer until end of stream, passing the
      front `bytesRead` bytes of the buffer to `update` after each read. Its
      invariant: what `update` has
      been fed so far is exactly the prefix of the stream consumed so far, so
      only the bytes each read delivered are hashed, never stale buffer
      contents; at end of stream that is the whole remaining stream. */
  method UpdateFromStream(start: MessageDigest, input: InputStream) returns (digest: MessageDigest)
    requires input.pos <= |input.data|
    ensures digest.absorbed == start.absorbed + input.data[input.pos..]
  {
    digest := start;
    var buffer: seq<byte> := seq(BufferSize, _ => 0 as byte);
    var stream := input;
    var bytesRead: int;
    while true
      invariant stream.data == input.data && input.pos <= stream.pos <= |stream.data|
      invariant |buffer| == BufferSize
      invariant digest.absorbed == start.absorbed + input.data[input.pos..stream.pos]
      decreases |stream.data| - stream.pos
    {
      var rr := Read(stream, buffer);
      bytesRead := rr.count;
      if bytesRead == -1 {
        break;
      }
      ConsumeChunk(input.data, input.pos, stream.pos, bytesRead, rr.buffer);
      digest := Update(digest, rr.buffer, 0, bytesRead);
      stream, buffer := rr.stream, rr.buffer;
    }
    assert input.data[input.pos..stream.pos] == input.data[input.pos..];
  }

  /** The bytes a read put at the front of the buffer extend the consumed
      prefix of the stream by exactly themselves. */
  lemma ConsumeChunk(data: seq<byte>, from: nat, pos: nat, n: nat, buffer: seq<byte>)
    requires from <= pos && pos + n <= |data| && n <= |buffer|
    requires buffer[..n] == data[pos..pos + n]
    ensures data[from..pos + n] == data[from..pos] + buffer[0..n]
  {
    assert data[from..pos + n] == data[from..pos] + data[pos..pos + n];
  }
}
