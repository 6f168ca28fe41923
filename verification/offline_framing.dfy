/**
 * The container around the encrypted offline export
 * (GPS-Cruise-Tour-AudioGuideNo-Wifi-1/client/src/lib/offlineDataEncryption.ts):
 * a 16-byte salt, a 12-byte iv and the ciphertext, laid end to end, and the
 * byte-per-character "binary string" the bytes pass through on their way to
 * and from base64. Key derivation, AES-GCM, base64 and JSON are not part of
 * this model; the random salt and iv are parameters.
 */
module OfflineFraming {
  import opened Common

  newtype byte = x: int | 0 <= x < 256

  const SaltLength: nat := 16
  const IvLength: nat := 12
  /** `chunkSize` of `encryptData`. */
  const ChunkSize: nat := 0x8000

  /** `salt ‖ iv ‖ ciphertext`, as the three `resultBuffer.set` calls lay them out. */
  function Frame(salt: seq<byte>, iv: seq<byte>, ciphertext: seq<byte>): (r: seq<byte>)
    ensures |r| == |salt| + |iv| + |ciphertext|
    ensures r[..|salt|] == salt
    ensures r[|salt|..|salt| + |iv|] == iv
    ensures r[|salt| + |iv|..] == ciphertext
  {
    salt + iv + ciphertext
  }

  /**
   * The three `slice` calls of `decryptData`: `[0, 16)`, `[16, 28)` and
   * `[28, ...)`, each clamped to the data's length as typed-array `slice` is.
   */
  function Split(data: seq<byte>): (parts: (seq<byte>, seq<byte>, seq<byte>))
    ensures parts.0 + parts.1 + parts.2 == data
    ensures |parts.0| <= SaltLength && |parts.1| <= IvLength
    ensures |data| >= SaltLength + IvLength ==> |parts.0| == SaltLength && |parts.1| == IvLength
    ensures parts.2 != [] ==> |parts.0| == SaltLength && |parts.1| == IvLength
  {
    var a := Min(SaltLength, |data|);
    var b := Min(SaltLength + IvLength, |data|);
    (data[..a], data[a..b], data[b..])
  }

  /** A container built from a 16-byte salt and a 12-byte iv is 28 bytes longer than the ciphertext. */
  lemma FrameLength(salt: seq<byte>, iv: seq<byte>, ciphertext: seq<byte>)
    requires |salt| == SaltLength && |iv| == IvLength
    ensures |Frame(salt, iv, ciphertext)| == 28 + |ciphertext|
  {
  }

  /** Splitting a container recovers exactly the salt, the iv and the ciphertext. */
  lemma SplitFrame(salt: seq<byte>, iv: seq<byte>, ciphertext: seq<byte>)
    requires |salt| == SaltLength && |iv| == IvLength
    ensures Split(Frame(salt, iv, ciphertext)) == (salt, iv, ciphertext)
  {
  }

  /** Putting the split parts back together gives the data, however short it is. */
  lemma FrameSplit(data: seq<byte>)
    ensures var (salt, iv, ciphertext) := Split(data);
      && Frame(salt, iv, ciphertext) == data
      && (|data| < SaltLength + IvLength ==> ciphertext == [])
      && (|data| >= SaltLength + IvLength ==> |salt| == SaltLength && |iv| == IvLength)
  {
    var (salt, iv, ciphertext) := Split(data);
    assert salt + iv + ciphertext == data;
  }

  // ------------------------------------------------------- binary strings

  /** One character per byte, with the byte as its code (`String.fromCharCode`). */
  function CharOf(b: byte): char {
    b as int as char
  }

  function CharsOf(bytes: seq<byte>): (s: string)
    ensures |s| == |bytes| && forall i :: 0 <= i < |bytes| ==> s[i] == CharOf(bytes[i])
  {
    seq(|bytes|, i requires 0 <= i < |bytes| => CharOf(bytes[i]))
  }

  /** `charCodeAt` stored into a `Uint8Array`, which keeps the code modulo 256. */
  function ByteOf(c: char): byte {
    (c as int % 256) as byte
  }

  function BytesOf(s: string): (bytes: seq<byte>)
    ensures |bytes| == |s| && forall i :: 0 <= i < |s| ==> bytes[i] == ByteOf(s[i])
  {
    seq(|s|, i requires 0 <= i < |s| => ByteOf(s[i]))
  }

  /**
   * The chunked loop of `encryptData`: the bytes are taken `chunkSize` at a
   * time and each chunk's characters appended to `binary`.
   */
  method ToBinaryString(bytes: seq<byte>, chunkSize: nat) returns (binary: string)
    requires chunkSize > 0
    ensures binary == CharsOf(bytes)
  {
    binary := "";
    var i := 0;
    while i < |bytes|
      invariant i <= |bytes|
      invariant binary == CharsOf(bytes[..i])
    {
      var end := Min(i + chunkSize, |bytes|);
      var chunk := bytes[i..end];
      var j := 0;
      while j < |chunk|
        invariant j <= |chunk|
        invariant binary == CharsOf(bytes[..i + j])
      {
        binary := binary + [CharOf(chunk[j])];
        j := j + 1;
      }
      i := end;
    }
    assert bytes[..i] == bytes;
  }

  /** The decoding loop of `decryptData`: one byte per character. */
  method FromBinaryString(s: string) returns (data: seq<byte>)
    ensures data == BytesOf(s)
  {
    data := [];
    var i := 0;
    while i < |s|
      invariant i <= |s|
      invariant data == BytesOf(s[..i])
    {
      data := data + [ByteOf(s[i])];
      i := i + 1;
    }
    assert s[..i] == s;
  }

  /** Decoding a binary string inverts the byte-to-character step. */
  lemma BytesOfCharsOf(bytes: seq<byte>)
    ensures BytesOf(CharsOf(bytes)) == bytes
  {
  }

  /** A string whose codes are all below 256 is the binary string of its bytes. */
  lemma CharsOfBytesOf(s: string)
    requires forall i :: 0 <= i < |s| ==> s[i] as int < 256
    ensures CharsOf(BytesOf(s)) == s
  {
  }

  /** `encryptData` after encryption: the container as the binary string handed to `btoa`. */
  method EncodeContainer(salt: seq<byte>, iv: seq<byte>, ciphertext: seq<byte>) returns (binary: string)
    ensures binary == CharsOf(Frame(salt, iv, ciphertext))
    ensures |binary| == |salt| + |iv| + |ciphertext|
  {
    binary := ToBinaryString(Frame(salt, iv, ciphertext), ChunkSize);
  }

  /** `decryptData` before decryption: the binary string from `atob`, cut into salt, iv and ciphertext. */
  method DecodeContainer(binary: string) returns (salt: seq<byte>, iv: seq<byte>, ciphertext: seq<byte>)
    ensures (salt, iv, ciphertext) == Split(BytesOf(binary))
    ensures |binary| >= SaltLength + IvLength ==> |salt| == SaltLength && |iv| == IvLength
    ensures |ciphertext| == |binary| - Min(SaltLength + IvLength, |binary|)
  {
    var data := FromBinaryString(binary);
    salt, iv, ciphertext := data[..Min(SaltLength, |data|)],
      data[Min(SaltLength, |data|)..Min(SaltLength + IvLength, |data|)],
      data[Min(SaltLength + IvLength, |data|)..];
  }

  /** What `encryptData` encodes, `decryptData` takes apart into the same salt, iv and ciphertext. */
  lemma ContainerRoundTrip(salt: seq<byte>, iv: seq<byte>, ciphertext: seq<byte>)
    requires |salt| == SaltLength && |iv| == IvLength
    ensures Split(BytesOf(CharsOf(Frame(salt, iv, ciphertext)))) == (salt, iv, ciphertext)
  {
    BytesOfCharsOf(Frame(salt, iv, ciphertext));
    SplitFrame(salt, iv, ciphertext);
  }
}
