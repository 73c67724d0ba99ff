/**
 * Attachment encryption: the one-shot encryptor, the streaming encryptor that
 * re-chunks reads of any size, and the decryptor that finds the chunk
 * boundaries again. Both encryptors are proved against `Sealed`, which cuts the
 * plaintext recursively; `OpensExactly` says which ciphertexts the decryptor accepts.
 */
module Attachments {
  import opened Arithmetic
  import opened AuthenticatedEncryption
  import opened Buffers
  import opened Wrappers

  const NONCE_LENGTH := 24
  const MAX_ATTACHMENT_SIZE := 50 * 1024 * 1024
  const TWO_TO_32 := 0x1_0000_0000

  // ---------------------------------------------------------------- nonces

  function BigEndian32(v: nat): (b: Bytes)
    requires v < TWO_TO_32
    ensures |b| == 4
    ensures v == ((b[0] as int * 256 + b[1] as int) * 256 + b[2] as int) * 256 + b[3] as int
  {
    var a := v / 256;
    var b := a / 256;
    [(b / 256) as Byte, (b % 256) as Byte, (a % 256) as Byte, (v % 256) as Byte]
  }

  /** The nonce of a chunk: zeros, then the index as setUint32 stores it (modulo 2^32, big endian). */
  function ChunkNonce(index: nat): (n: Bytes)
    ensures |n| == NONCE_LENGTH && forall k | 0 <= k < 20 :: n[k] == 0
    ensures index % TWO_TO_32 == ((n[20] as int * 256 + n[21] as int) * 256 + n[22] as int) * 256 + n[23] as int
  {
    Zeros(NONCE_LENGTH - 4) + BigEndian32(index % TWO_TO_32)
  }

  lemma ChunkNonceInjective(i: nat, j: nat)
    ensures ChunkNonce(i) == ChunkNonce(j) <==> i % TWO_TO_32 == j % TWO_TO_32
  {
    if ChunkNonce(i) == ChunkNonce(j) {
      assert ChunkNonce(i)[NONCE_LENGTH - 4..] == BigEndian32(i % TWO_TO_32);
      assert ChunkNonce(j)[NONCE_LENGTH - 4..] == BigEndian32(j % TWO_TO_32);
    }
  }

  ghost predicate NoncesDistinct(count: nat) {
    forall i, j | 0 <= i < j < count :: ChunkNonce(i) != ChunkNonce(j)
  }

  /** One key seals at most 2^32 chunks before a nonce repeats, and no fewer. */
  lemma NoncesDistinctExactly(count: nat)
    ensures NoncesDistinct(count) <==> count <= TWO_TO_32
  {
    if count <= TWO_TO_32 {
      forall i, j | 0 <= i < j < count
        ensures ChunkNonce(i) != ChunkNonce(j)
      {
        ChunkNonceInjective(i, j);
      }
    } else {
      ChunkNonceInjective(0, TWO_TO_32);
    }
  }

  // ------------------------------------------------------- the chunked format

  function Min(a: nat, b: nat): nat {
    if a <= b then a else b
  }

  /** One key's chunks: sealing and opening the chunk with a given number. */
  datatype ChunkCipher = ChunkCipher(seal: (Bytes, nat) -> Bytes, open: (Bytes, nat) -> Option<Bytes>)

  function ForKey(box: Cipher, key: Bytes): ChunkCipher {
    ChunkCipher((p: Bytes, index: nat) => box.seal(p, ChunkNonce(index), key),
                (ct: Bytes, index: nat) => box.open(ct, ChunkNonce(index), key))
  }

  function SealChunk(c: ChunkCipher, p: Bytes, index: nat): Bytes {
    c.seal(p, index)
  }

  function OpenChunk(c: ChunkCipher, ct: Bytes, index: nat): Option<Bytes> {
    c.open(ct, index)
  }

  ghost predicate LawfulChunks(c: ChunkCipher) {
    && (forall p, i {:trigger SealChunk(c, p, i)} ::
          |SealChunk(c, p, i)| == |p| + OVERHEAD && OpenChunk(c, SealChunk(c, p, i), i) == Some(p))
    && (forall ct, i {:trigger OpenChunk(c, ct, i)} ::
          OpenChunk(c, ct, i).Some? ==> ct == SealChunk(c, OpenChunk(c, ct, i).value, i))
  }

  lemma ForKeyIsLawful(box: SecretBox, key: Bytes)
    ensures LawfulChunks(ForKey(box, key))
  {
    var c := ForKey(box, key);
    forall p, i
      ensures |SealChunk(c, p, i)| == |p| + OVERHEAD && OpenChunk(c, SealChunk(c, p, i), i) == Some(p)
    {
      assert SealChunk(c, p, i) == box.seal(p, ChunkNonce(i), key);
    }
    forall ct, i | OpenChunk(c, ct, i).Some?
      ensures ct == SealChunk(c, OpenChunk(c, ct, i).value, i)
    {
      assert OpenChunk(c, ct, i) == box.open(ct, ChunkNonce(i), key);
    }
  }

  /** The sealed chunks of `p` when the first of them has number `index`. */
  function Sealed(c: ChunkCipher, p: Bytes, chunk: nat, index: nat): seq<Bytes>
    requires chunk > 0
    decreases |p|
  {
    if p == [] then []
    else
      var m := Min(chunk, |p|);
      [SealChunk(c, p[..m], index)] + Sealed(c, p[m..], chunk, index + 1)
  }

  /** A first chunk `q`, full or the whole text, goes in front of the chunks of the rest. */
  lemma SealedFront(c: ChunkCipher, q: Bytes, p: Bytes, chunk: nat, index: nat)
    requires 0 < |q| <= chunk && (|q| < chunk ==> p == [])
    ensures Sealed(c, q + p, chunk, index)
         == [SealChunk(c, q, index)] + Sealed(c, p, chunk, index + 1)
  {
  }

  lemma SealedFull(c: ChunkCipher, content: Bytes, after: Bytes, chunk: nat, index: nat)
    requires 0 < chunk <= |content|
    ensures Sealed(c, content + after, chunk, index)
         == [SealChunk(c, content[..chunk], index)] + Sealed(c, content[chunk..] + after, chunk, index + 1)
  {
    assert content + after == content[..chunk] + (content[chunk..] + after);
    SealedFront(c, content[..chunk], content[chunk..] + after, chunk, index);
  }

  lemma AppendStep<T>(done: seq<T>, next: T, more: seq<T>)
    ensures done + ([next] + more) == done + [next] + more
  {
  }

  function Chunked(c: ChunkCipher, p: Bytes, chunk: nat): Bytes
    requires chunk > 0
  {
    Flatten(Sealed(c, p, chunk, 0))
  }

  /** The number of chunks is the length divided by the chunk size, rounded up, and each costs 16 bytes. */
  lemma {:induction false} SealedSize(c: ChunkCipher, p: Bytes, chunk: nat, index: nat)
    requires LawfulChunks(c)
    requires chunk > 0
    ensures var sealed := Sealed(c, p, chunk, index);
            && |sealed| == (|p| + chunk - 1) / chunk
            && |Flatten(sealed)| == |p| + OVERHEAD * |sealed|
    decreases |p|
  {
    if p == [] {
      DivisionIsUnique(chunk - 1, chunk, 0, chunk - 1);
    } else {
      var m := Min(chunk, |p|);
      SealedSize(c, p[m..], chunk, index + 1);
      if |p| <= chunk {
        DivisionIsUnique(|p| + chunk - 1, chunk, 1, |p| - 1);
      } else {
        DivideByStep(|p| - 1, chunk);
        assert |p[m..]| + chunk - 1 == |p| - 1;
      }
    }
  }

  lemma {:induction false} SealedAfter(c: ChunkCipher, p: Bytes, chunk: nat, index: nat, i: nat)
    requires chunk > 0 && i < |Sealed(c, p, chunk, index)|
    ensures var start := Times(i, chunk);
            && start < |p|
            && Sealed(c, p, chunk, index)[i] == SealChunk(c, p[start..Min(start + chunk, |p|)], index + i)
    decreases i
  {
    if i > 0 {
      var rest, from := p[chunk..], Times(i - 1, chunk);
      SealedAfter(c, rest, chunk, index + 1, i - 1);
      SliceOfRest(p, chunk, from, Min(from + chunk, |rest|));
    }
  }

  /** Chunk `i` seals the bytes from i * chunk on, under the nonce of its number. */
  lemma SealedAt(c: ChunkCipher, p: Bytes, chunk: nat, index: nat, i: nat, start: nat)
    requires chunk > 0 && i < |Sealed(c, p, chunk, index)| && start == i * chunk
    ensures start < |p|
    ensures Sealed(c, p, chunk, index)[i] == SealChunk(c, p[start..Min(start + chunk, |p|)], index + i)
  {
    TimesIsProduct(i, chunk);
    SealedAfter(c, p, chunk, index, i);
  }

  lemma SliceOfRest(p: Bytes, m: nat, lo: nat, hi: nat)
    requires lo <= hi && m + hi <= |p|
    ensures p[m..][lo..hi] == p[m + lo..m + hi]
  {
  }

  /** Under the size limit no chunk size makes an attachment reuse a nonce. */
  lemma AttachmentNoncesDistinct(c: ChunkCipher, p: Bytes, chunk: nat)
    requires chunk > 0 && |p| <= MAX_ATTACHMENT_SIZE
    ensures NoncesDistinct(|Sealed(c, p, chunk, 0)|)
  {
    SealedNoMoreThanBytes(c, p, chunk, 0);
    NoncesDistinctExactly(|Sealed(c, p, chunk, 0)|);
  }

  lemma {:induction false} SealedNoMoreThanBytes(c: ChunkCipher, p: Bytes, chunk: nat, index: nat)
    requires chunk > 0
    ensures |Sealed(c, p, chunk, index)| <= |p|
    decreases |p|
  {
    if p != [] {
      SealedNoMoreThanBytes(c, p[Min(chunk, |p|)..], chunk, index + 1);
    }
  }

  // ---------------------------------------------------- where each box is, and its nonce

  /** Box `i` of the ciphertext holds chunk `i` of the text, under the nonce of `i`. */
  ghost predicate BoxInPlace(box: Cipher, key: Bytes, p: Bytes, chunk: nat, ct: Bytes, i: nat) {
    var start, at := i * chunk, i * (chunk + OVERHEAD);
    start < |p| ==> IsAt(ct, at, box.seal(p[start..Min(start + chunk, |p|)], ChunkNonce(i), key))
  }

  /** Every box is in its place and nothing else is there. */
  ghost predicate BoxesInPlace(box: Cipher, key: Bytes, p: Bytes, chunk: nat, ct: Bytes)
    requires chunk > 0
  {
    && |ct| == |p| + OVERHEAD * ((|p| + chunk - 1) / chunk)
    && forall i: nat :: BoxInPlace(box, key, p, chunk, ct, i)
  }

  /** The chunks of `n` bytes have different nonces. */
  ghost predicate NoNonceTwice(n: nat, chunk: nat) {
    forall i: nat, j: nat | i < j && j * chunk < n :: ChunkNonce(i) != ChunkNonce(j)
  }

  predicate IsAt(s: Bytes, at: nat, part: Bytes) {
    at + |part| <= |s| && s[at..at + |part|] == part
  }

  lemma PartIsAt(parts: seq<Bytes>, i: nat)
    requires i < |parts|
    ensures IsAt(Flatten(parts), |Flatten(parts[..i])|, parts[i])
  {
    FlattenPrefix(parts, i);
    FlattenAppend(parts[..i + 1], parts[i + 1..]);
    assert parts == parts[..i + 1] + parts[i + 1..];
    MiddleIsAt(Flatten(parts[..i]), parts[i], Flatten(parts[i + 1..]));
  }

  lemma MiddleIsAt(a: Bytes, b: Bytes, c: Bytes)
    ensures IsAt(a + b + c, |a|, b)
  {
  }

  lemma {:induction false} BoxCount(c: ChunkCipher, p: Bytes, chunk: nat, index: nat, i: nat)
    requires chunk > 0
    ensures i < |Sealed(c, p, chunk, index)| <==> Times(i, chunk) < |p|
    decreases i
  {
    if p != [] && i > 0 {
      BoxCount(c, p[Min(chunk, |p|)..], chunk, index + 1, i - 1);
    }
  }

  /** All boxes before the last are full. */
  lemma {:induction false} FrontLength(c: ChunkCipher, p: Bytes, chunk: nat, index: nat, i: nat)
    requires LawfulChunks(c)
    requires chunk > 0 && i < |Sealed(c, p, chunk, index)|
    ensures |Flatten(Sealed(c, p, chunk, index)[..i])| == Times(i, chunk + OVERHEAD)
    decreases i
  {
    if i > 0 {
      var start := Times(i - 1, chunk);
      FrontLength(c, p, chunk, index, i - 1);
      FlattenPrefix(Sealed(c, p, chunk, index), i - 1);
      BoxCount(c, p, chunk, index, i);
      TimesIsProduct(i - 1, chunk);
      SealedAt(c, p, chunk, index, i - 1, start);
      assert |p[start..Min(start + chunk, |p|)]| == chunk;
    }
  }

  lemma BoxStandsAt(c: ChunkCipher, p: Bytes, chunk: nat, i: nat, start: nat, at: nat, sealed: Bytes)
    requires LawfulChunks(c)
    requires chunk > 0 && start == i * chunk < |p| && at == i * (chunk + OVERHEAD)
    requires sealed == SealChunk(c, p[start..Min(start + chunk, |p|)], i)
    ensures IsAt(Chunked(c, p, chunk), at, sealed)
  {
    TimesIsProduct(i, chunk);
    TimesIsProduct(i, chunk + OVERHEAD);
    BoxCount(c, p, chunk, 0, i);
    SealedAt(c, p, chunk, 0, i, start);
    FrontLength(c, p, chunk, 0, i);
    PartIsAt(Sealed(c, p, chunk, 0), i);
  }

  /** The chunked ciphertext lays the boxes out so. */
  lemma ChunkedIsInPlace(box: SecretBox, key: Bytes, p: Bytes, chunk: nat)
    requires chunk > 0
    ensures BoxesInPlace(box, key, p, chunk, Chunked(ForKey(box, key), p, chunk))
  {
    var c := ForKey(box, key);
    var ct := Chunked(c, p, chunk);
    ForKeyIsLawful(box, key);
    SealedSize(c, p, chunk, 0);
    forall i: nat
      ensures BoxInPlace(box, key, p, chunk, ct, i)
    {
      if i * chunk < |p| {
        OneBoxIsInPlace(box, key, p, chunk, i, i * chunk);
      }
    }
  }

  lemma OneBoxIsInPlace(box: SecretBox, key: Bytes, p: Bytes, chunk: nat, i: nat, start: nat)
    requires chunk > 0 && start == i * chunk < |p|
    ensures BoxInPlace(box, key, p, chunk, Chunked(ForKey(box, key), p, chunk), i)
  {
    var c, end := ForKey(box, key), Min(start + chunk, |p|);
    ForKeyIsLawful(box, key);
    BoxStandsAt(c, p, chunk, i, start, i * (chunk + OVERHEAD), SealChunk(c, p[start..end], i));
    assert SealChunk(c, p[start..end], i) == box.seal(p[start..end], ChunkNonce(i), key);
  }

  lemma SmallFilesRepeatNoNonce(n: nat, chunk: nat)
    requires chunk > 0 && n <= MAX_ATTACHMENT_SIZE
    ensures NoNonceTwice(n, chunk)
  {
    forall i: nat, j: nat | i < j && j * chunk < n
      ensures ChunkNonce(i) != ChunkNonce(j)
    {
      MultipleAtLeast(chunk, j);
      ChunkNonceInjective(i, j);
    }
  }

  // ----------------------------------------------------------------- encryptors

  datatype Encrypted = Encrypted(ciphertext: Bytes, nonce: Bytes, sha256: Bytes, chunkSize: Option<nat>)

  datatype AttachmentError = FileTooLarge | HashMismatch | DecryptionFailed

  /** What either encryptor gives for a file under a key (and a nonce, used only for a single box). */
  function Encryption(box: Cipher, digest: Bytes -> Bytes, key: Bytes, nonce: Bytes, p: Bytes, chunk: nat): Encrypted
    requires chunk > 0
  {
    if |p| <= chunk then
      var ct := box.seal(p, nonce, key);
      Encrypted(ct, nonce, digest(ct), None)
    else
      var ct := Chunked(ForKey(box, key), p, chunk);
      Encrypted(ct, [], digest(ct), Some(chunk))
  }

  method SealAll(c: ChunkCipher, plaintext: Bytes, chunkSize: nat) returns (chunks: seq<Bytes>)
    requires chunkSize > 0
    ensures chunks == Sealed(c, plaintext, chunkSize, 0)
  {
    chunks := [];
    var i := 0;
    while i < |plaintext|
      invariant i == |chunks| * chunkSize
      invariant chunks + SealedFrom(c, plaintext, i, chunkSize, |chunks|) == Sealed(c, plaintext, chunkSize, 0)
    {
      var end := Min(i + chunkSize, |plaintext|);
      var chunk := plaintext[i..end];
      var idx := i / chunkSize;
      WholeQuotient(i, chunkSize, |chunks|);
      SealedFromStep(c, plaintext, i, chunkSize, idx);
      AppendStep(chunks, SealChunk(c, chunk, idx), SealedFrom(c, plaintext, i + chunkSize, chunkSize, idx + 1));
      chunks := chunks + [SealChunk(c, chunk, idx)];
      i := i + chunkSize;
    }
  }

  function SealedFrom(c: ChunkCipher, p: Bytes, i: nat, chunk: nat, index: nat): seq<Bytes>
    requires chunk > 0
  {
    Sealed(c, p[Min(i, |p|)..], chunk, index)
  }

  lemma SealedFromStep(c: ChunkCipher, p: Bytes, i: nat, chunk: nat, index: nat)
    requires chunk > 0 && i < |p|
    ensures SealedFrom(c, p, i, chunk, index)
         == [SealChunk(c, p[i..Min(i + chunk, |p|)], index)] + SealedFrom(c, p, i + chunk, chunk, index + 1)
  {
    var end := Min(i + chunk, |p|);
    assert p[i..][..end - i] == p[i..end];
    assert p[i..][end - i..] == p[end..];
  }

  method EncryptAttachment(box: Cipher, digest: Bytes -> Bytes, key: Bytes, freshNonce: Bytes, plaintext: Bytes,
                           chunkSize: nat)
    returns (r: Encrypted)
    requires chunkSize > 0
    ensures r == Encryption(box, digest, key, freshNonce, plaintext, chunkSize)
    ensures r.sha256 == digest(r.ciphertext)
    ensures if |plaintext| <= chunkSize
            then r.ciphertext == box.seal(plaintext, freshNonce, key) && r.nonce == freshNonce && r.chunkSize == None
            else r.nonce == [] && r.chunkSize == Some(chunkSize)
    ensures Lawful(box) && |plaintext| > chunkSize ==> BoxesInPlace(box, key, plaintext, chunkSize, r.ciphertext)
    ensures |plaintext| <= MAX_ATTACHMENT_SIZE ==> NoNonceTwice(|plaintext|, chunkSize)
  {
    if |plaintext| <= MAX_ATTACHMENT_SIZE {
      SmallFilesRepeatNoNonce(|plaintext|, chunkSize);
    }
    if |plaintext| <= chunkSize {
      var ct := box.seal(plaintext, freshNonce, key);
      return Encrypted(ct, freshNonce, digest(ct), None);
    }
    var chunks := SealAll(ForKey(box, key), plaintext, chunkSize);
    var ciphertext := Concatenate(chunks);
    r := Encrypted(ciphertext, [], digest(ciphertext), Some(chunkSize));
    if Lawful(box) {
      ChunkedIsInPlace(box, key, plaintext, chunkSize);
    }
  }

  /** `new Uint8Array(buffer)` grown by a read: allocate, copy the old content, copy the read after it. */
  method Grow(buffer: array<Byte>, value: Bytes) returns (grown: array<Byte>)
    ensures fresh(grown) && grown[..] == buffer[..] + value
  {
    grown := new Byte[buffer.Length + |value|];
    SetBytes(grown, buffer[..], 0);
    SetBytes(grown, value, buffer.Length);
  }

  /** The part of the buffer after the first `from` bytes, in a buffer of its own. */
  method Remaining(buffer: array<Byte>, from: nat) returns (rest: array<Byte>)
    requires from <= buffer.Length
    ensures fresh(rest) && rest[..] == buffer[from..]
  {
    rest := new Byte[buffer.Length - from];
    SetBytes(rest, buffer[from..], 0);
  }

  /** Seals full chunks off the front of the buffer; `after` is what the stream has still to deliver. */
  method SealFullChunks(c: ChunkCipher, chunkSize: nat, filled: array<Byte>, cipherChunks: seq<Bytes>,
                        ghost after: Bytes)
    returns (buffer: array<Byte>, chunks: seq<Bytes>)
    requires chunkSize > 0
    ensures buffer.Length < chunkSize
    ensures chunks + Sealed(c, buffer[..] + after, chunkSize, |chunks|)
         == cipherChunks + Sealed(c, filled[..] + after, chunkSize, |cipherChunks|)
  {
    buffer, chunks := filled, cipherChunks;
    ghost var goal := chunks + Sealed(c, filled[..] + after, chunkSize, |chunks|);
    while buffer.Length >= chunkSize
      invariant chunks + Sealed(c, buffer[..] + after, chunkSize, |chunks|) == goal
      decreases buffer.Length
    {
      ghost var content, done := buffer[..], chunks;
      var sealed := SealChunk(c, buffer[..chunkSize], |chunks|);
      buffer := Remaining(buffer, chunkSize);
      chunks := chunks + [sealed];
      SealedFull(c, content, after, chunkSize, |done|);
      AppendStep(done, sealed, Sealed(c, buffer[..] + after, chunkSize, |chunks|));
    }
  }

  /** However the stream splits the file into reads, the ciphertext is that of the one-shot encryptor. */
  method EncryptAttachmentFromFile(box: Cipher, digest: Bytes -> Bytes, key: Bytes, freshNonce: Bytes,
                                   stream: seq<Bytes>, chunkSize: nat)
    returns (r: Result<Encrypted, AttachmentError>)
    requires chunkSize > 0
    ensures var file := Flatten(stream);
            r == if |file| > MAX_ATTACHMENT_SIZE then Failure(FileTooLarge)
                 else Success(Encryption(box, digest, key, freshNonce, file, chunkSize))
    ensures var file := Flatten(stream);
            r.Success? ==>
              && r.value.sha256 == digest(r.value.ciphertext)
              && (if |file| <= chunkSize
                  then r.value.ciphertext == box.seal(file, freshNonce, key) && r.value.nonce == freshNonce
                       && r.value.chunkSize == None
                  else r.value.nonce == [] && r.value.chunkSize == Some(chunkSize))
              && (Lawful(box) && |file| > chunkSize ==> BoxesInPlace(box, key, file, chunkSize, r.value.ciphertext))
              && NoNonceTwice(|file|, chunkSize)
  {
    var file := Concatenate(stream);
    if |file| > MAX_ATTACHMENT_SIZE {
      return Failure(FileTooLarge);
    }
    SmallFilesRepeatNoNonce(|file|, chunkSize);
    if |file| <= chunkSize {
      var ct := box.seal(file, freshNonce, key);
      return Success(Encrypted(ct, freshNonce, digest(ct), None));
    }
    var cipherChunks := SealStream(ForKey(box, key), stream, chunkSize);
    var ciphertext := Concatenate(cipherChunks);
    r := Success(Encrypted(ciphertext, [], digest(ciphertext), Some(chunkSize)));
    if Lawful(box) {
      ChunkedIsInPlace(box, key, file, chunkSize);
    }
  }

  method SealStream(c: ChunkCipher, stream: seq<Bytes>, chunkSize: nat) returns (cipherChunks: seq<Bytes>)
    requires chunkSize > 0
    ensures cipherChunks == Sealed(c, Flatten(stream), chunkSize, 0)
  {
    cipherChunks := [];
    var buffer := new Byte[0];
    ghost var goal := Sealed(c, Flatten(stream), chunkSize, 0);
    assert buffer[..] + Flatten(stream) == Flatten(stream);
    for k := 0 to |stream|
      invariant buffer.Length < chunkSize
      invariant cipherChunks + Sealed(c, buffer[..] + Flatten(stream[k..]), chunkSize, |cipherChunks|) == goal
    {
      ghost var after := Flatten(stream[k + 1..]);
      assert buffer[..] + Flatten(stream[k..]) == buffer[..] + stream[k] + after;
      var filled := Grow(buffer, stream[k]);
      buffer, cipherChunks := SealFullChunks(c, chunkSize, filled, cipherChunks, after);
    }
    assert buffer[..] + Flatten(stream[|stream|..]) == buffer[..] + [];
    if buffer.Length > 0 {
      SealedFront(c, buffer[..], [], chunkSize, |cipherChunks|);
      cipherChunks := cipherChunks + [SealChunk(c, buffer[..], |cipherChunks|)];
    }
  }

  // ------------------------------------------------------------------ decryptor

  function Prepend(front: Bytes, rest: Option<Bytes>): Option<Bytes> {
    if rest.Some? then Some(front + rest.value) else None
  }

  lemma PrependTwice(a: Bytes, b: Bytes, rest: Option<Bytes>)
    ensures Prepend(a, Prepend(b, rest)) == Prepend(a + b, rest)
    ensures Prepend([], rest) == rest
  {
    if rest.Some? {
      assert a + (b + rest.value) == a + b + rest.value;
      assert [] + rest.value == rest.value;
    }
  }

  /** Cuts boxes of `chunk` + 16 bytes off the front; the last one takes what is left. */
  function OpenChunks(c: ChunkCipher, ct: Bytes, chunk: nat, index: nat): Option<Bytes>
    requires chunk > 0
    decreases |ct|
  {
    if ct == [] then Some([])
    else
      var len := Min(chunk + OVERHEAD, |ct|);
      var plain := OpenChunk(c, ct[..len], index);
      if plain.None? then None
      else Prepend(plain.value, OpenChunks(c, ct[len..], chunk, index + 1))
  }

  function Decryption(box: Cipher, digest: Bytes -> Bytes, ct: Bytes, key: Bytes, nonce: Bytes, sha256: Option<Bytes>,
                      chunk: Option<int>): Result<Bytes, AttachmentError>
  {
    if sha256.Some? && digest(ct) != sha256.value then Failure(HashMismatch)
    else
      var plain := if chunk.Some? && chunk.value > 0 then OpenChunks(ForKey(box, key), ct, chunk.value, 0)
                   else box.open(ct, nonce, key);
      if plain.Some? then Success(plain.value) else Failure(DecryptionFailed)
  }

  method OpenAll(c: ChunkCipher, ciphertext: Bytes, chunkSize: nat) returns (r: Option<Bytes>)
    requires chunkSize > 0
    ensures r == OpenChunks(c, ciphertext, chunkSize, 0)
  {
    var parts: seq<Bytes> := [];
    var offset := 0;
    ghost var goal := OpenChunks(c, ciphertext, chunkSize, 0);
    PrependTwice([], [], goal);
    assert ciphertext[0..] == ciphertext;
    while offset < |ciphertext|
      invariant offset <= |ciphertext|
      invariant goal == Prepend(Flatten(parts), OpenFrom(c, ciphertext, offset, chunkSize, |parts|))
    {
      var len := Min(chunkSize + OVERHEAD, |ciphertext| - offset);
      var plain := OpenChunk(c, ciphertext[offset..offset + len], |parts|);
      OpenStep(c, ciphertext, offset, chunkSize, |parts|);
      if plain.None? {
        return None;
      }
      PrependTwice(Flatten(parts), plain.value, OpenFrom(c, ciphertext, offset + len, chunkSize, |parts| + 1));
      FlattenPush(parts, plain.value);
      parts := parts + [plain.value];
      offset := offset + len;
    }
    var out := Concatenate(parts);
    assert out + [] == out;
    r := Some(out);
  }

  function OpenFrom(c: ChunkCipher, ct: Bytes, offset: nat, chunk: nat, index: nat): Option<Bytes>
    requires chunk > 0
  {
    OpenChunks(c, ct[Min(offset, |ct|)..], chunk, index)
  }

  lemma OpenStep(c: ChunkCipher, ct: Bytes, offset: nat, chunk: nat, index: nat)
    requires chunk > 0 && offset < |ct|
    ensures var len := Min(chunk + OVERHEAD, |ct| - offset);
            var plain := OpenChunk(c, ct[offset..offset + len], index);
            OpenFrom(c, ct, offset, chunk, index)
              == if plain.None? then None
                 else Prepend(plain.value, OpenFrom(c, ct, offset + len, chunk, index + 1))
  {
    var len := Min(chunk + OVERHEAD, |ct| - offset);
    assert ct[offset..][..len] == ct[offset..offset + len];
    assert ct[offset..][len..] == ct[offset + len..];
  }

  method DecryptAttachment(box: Cipher, digest: Bytes -> Bytes, ciphertext: Bytes, key: Bytes, nonce: Bytes,
                           sha256: Option<Bytes>, chunkSize: Option<int>)
    returns (r: Result<Bytes, AttachmentError>)
    ensures r == Decryption(box, digest, ciphertext, key, nonce, sha256, chunkSize)
    ensures r == Failure(HashMismatch) <==> sha256.Some? && digest(ciphertext) != sha256.value
    ensures r != Failure(HashMismatch) && (chunkSize.None? || chunkSize.value <= 0) ==>
              if box.open(ciphertext, nonce, key).Some? then r == Success(box.open(ciphertext, nonce, key).value)
              else r == Failure(DecryptionFailed)
  {
    if sha256.Some? && digest(ciphertext) != sha256.value {
      return Failure(HashMismatch);
    }
    var plain := box.open(ciphertext, nonce, key);
    if chunkSize.Some? && chunkSize.value > 0 {
      plain := OpenAll(ForKey(box, key), ciphertext, chunkSize.value);
    }
    r := if plain.Some? then Success(plain.value) else Failure(DecryptionFailed);
  }

  predicate WholeChunks(n: nat, chunk: nat)
    requires chunk > 0
  {
    n == 0 || (n >= chunk && WholeChunks(n - chunk, chunk))
  }

  lemma {:induction false} WholeChunksDivide(n: nat, chunk: nat)
    requires chunk > 0
    ensures WholeChunks(n, chunk) <==> n % chunk == 0
  {
    if n < chunk {
      SmallRemainder(n, chunk);
    } else {
      WholeChunksDivide(n - chunk, chunk);
      DivideByStep(n - chunk, chunk);
    }
  }

  /** What may follow the encryptors' chunks of `p`: nothing or, if the last chunk is full, one box sealing nothing. */
  ghost predicate Trailer(c: ChunkCipher, p: Bytes, tail: Bytes, chunk: nat, index: nat)
    requires chunk > 0
  {
    || tail == []
    || (WholeChunks(|p|, chunk) && tail == SealChunk(c, [], index + |Sealed(c, p, chunk, index)|))
  }

  /** `ct` is the encryptors' chunked ciphertext of `p`, perhaps with the one trailer the decryptor lets through. */
  ghost predicate Accepted(c: ChunkCipher, ct: Bytes, p: Bytes, chunk: nat, index: nat)
    requires chunk > 0
  {
    var own := Flatten(Sealed(c, p, chunk, index));
    own <= ct && Trailer(c, p, ct[|own|..], chunk, index)
  }

  /** The decryptor gives `p` exactly for the chunked ciphertexts of `p`, with or without that trailer. */
  lemma OpensExactly(c: ChunkCipher, ct: Bytes, p: Bytes, chunk: nat, index: nat)
    requires LawfulChunks(c)
    requires chunk > 0
    ensures OpenChunks(c, ct, chunk, index) == Some(p) <==> Accepted(c, ct, p, chunk, index)
  {
    if OpenChunks(c, ct, chunk, index) == Some(p) {
      OpenedIsAccepted(c, ct, p, chunk, index);
    }
    if Accepted(c, ct, p, chunk, index) {
      AcceptedOpens(c, ct, p, chunk, index);
    }
  }

  lemma OpenedIsAccepted(c: ChunkCipher, ct: Bytes, p: Bytes, chunk: nat, index: nat)
    requires LawfulChunks(c)
    requires chunk > 0 && OpenChunks(c, ct, chunk, index) == Some(p)
    ensures Accepted(c, ct, p, chunk, index)
  {
    var tail := OpenedTail(c, ct, p, chunk, index);
    PrefixCases(Flatten(Sealed(c, p, chunk, index)), ct, tail);
  }

  lemma AcceptedOpens(c: ChunkCipher, ct: Bytes, p: Bytes, chunk: nat, index: nat)
    requires LawfulChunks(c)
    requires chunk > 0 && Accepted(c, ct, p, chunk, index)
    ensures OpenChunks(c, ct, chunk, index) == Some(p)
  {
    var own := Flatten(Sealed(c, p, chunk, index));
    var tail := ct[|own|..];
    OpensSealed(c, p, tail, chunk, index);
    PrefixCases(own, ct, tail);
  }

  lemma TrailerStep(c: ChunkCipher, q: Bytes, p: Bytes, tail: Bytes, chunk: nat, index: nat)
    requires 0 < |q| == chunk
    ensures Trailer(c, q + p, tail, chunk, index) <==> Trailer(c, p, tail, chunk, index + 1)
  {
  }

  lemma OpenFront(c: ChunkCipher, q: Bytes, rest: Bytes, chunk: nat, index: nat)
    requires LawfulChunks(c)
    requires chunk > 0 && |q| <= chunk && (|q| < chunk ==> rest == [])
    ensures OpenChunks(c, SealChunk(c, q, index) + rest, chunk, index)
         == Prepend(q, OpenChunks(c, rest, chunk, index + 1))
  {
  }

  lemma {:induction false} OpensSealed(c: ChunkCipher, p: Bytes, tail: Bytes, chunk: nat, index: nat)
    requires LawfulChunks(c)
    requires chunk > 0 && Trailer(c, p, tail, chunk, index)
    ensures OpenChunks(c, Flatten(Sealed(c, p, chunk, index)) + tail, chunk, index) == Some(p)
    decreases |p|
  {
    if p == [] {
      if tail != [] {
        OpenFront(c, [], [], chunk, index);
        PrependTwice([], [], Some([]));
        assert SealChunk(c, [], index) + [] == tail;
      }
      assert Flatten(Sealed(c, p, chunk, index)) + tail == tail;
    } else {
      var m := Min(chunk, |p|);
      var q, rest := p[..m], p[m..];
      assert p == q + rest;
      SealedFront(c, q, rest, chunk, index);
      if m == chunk {
        TrailerStep(c, q, rest, tail, chunk, index);
      }
      OpensSealed(c, rest, tail, chunk, index + 1);
      var inner := Flatten(Sealed(c, rest, chunk, index + 1)) + tail;
      OpenFront(c, q, inner, chunk, index);
      FlattenCons(SealChunk(c, q, index), Sealed(c, rest, chunk, index + 1), tail);
    }
  }

  lemma FlattenCons(first: Bytes, more: seq<Bytes>, tail: Bytes)
    ensures Flatten([first] + more) + tail == first + (Flatten(more) + tail)
  {
  }

  /** Taking the first box off a ciphertext that opens. */
  lemma OpenedFront(c: ChunkCipher, ct: Bytes, p: Bytes, chunk: nat, index: nat)
    returns (q: Bytes, more: Bytes, rest: Bytes)
    requires LawfulChunks(c)
    requires chunk > 0 && ct != [] && OpenChunks(c, ct, chunk, index) == Some(p)
    ensures ct == SealChunk(c, q, index) + more && p == q + rest && |more| < |ct|
    ensures OpenChunks(c, more, chunk, index + 1) == Some(rest)
    ensures |q| <= chunk && (|q| < chunk ==> more == [])
  {
    var len := Min(chunk + OVERHEAD, |ct|);
    q, more := OpenChunk(c, ct[..len], index).value, ct[len..];
    rest := OpenChunks(c, more, chunk, index + 1).value;
    assert ct == ct[..len] + more;
  }

  lemma {:induction false} OpenedTail(c: ChunkCipher, ct: Bytes, p: Bytes, chunk: nat, index: nat)
    returns (tail: Bytes)
    requires LawfulChunks(c)
    requires chunk > 0 && OpenChunks(c, ct, chunk, index) == Some(p)
    ensures Trailer(c, p, tail, chunk, index)
    ensures ct == Flatten(Sealed(c, p, chunk, index)) + tail
    decreases |ct|
  {
    if ct == [] {
      tail := [];
    } else {
      var q, more, rest := OpenedFront(c, ct, p, chunk, index);
      if q == [] {
        tail := ct;
        assert ct == SealChunk(c, [], index) && p == [];
      } else {
        tail := OpenedTail(c, more, rest, chunk, index + 1);
        SealedFront(c, q, rest, chunk, index);
        if |q| < chunk {
          assert tail == [];
        } else {
          TrailerStep(c, q, rest, tail, chunk, index);
        }
        FlattenCons(SealChunk(c, q, index), Sealed(c, rest, chunk, index + 1), tail);
      }
    }
  }

  /**
   * Which ciphertexts chunked decryption turns into `p`: what the encryptors
   * make of `p` and, when `p` fills its last chunk, that followed by one box
   * sealing nothing. Any other bytes give an error or another text.
   */
  lemma DecryptsExactly(box: SecretBox, digest: Bytes -> Bytes, key: Bytes, nonce: Bytes, ct: Bytes, p: Bytes, chunk: nat)
    requires chunk > 0
    ensures Decryption(box, digest, ct, key, nonce, None, Some(chunk)) == Success(p)
       <==> || ct == Chunked(ForKey(box, key), p, chunk)
            || (|p| % chunk == 0
                && ct == Chunked(ForKey(box, key), p, chunk) + SealChunk(ForKey(box, key), [], |p| / chunk))
  {
    ForKeyIsLawful(box, key);
    OpensExactlyWhen(ForKey(box, key), ct, p, chunk);
  }

  lemma OpensExactlyWhen(c: ChunkCipher, ct: Bytes, p: Bytes, chunk: nat)
    requires LawfulChunks(c) && chunk > 0
    ensures OpenChunks(c, ct, chunk, 0) == Some(p)
       <==> || ct == Chunked(c, p, chunk)
            || (|p| % chunk == 0 && ct == Chunked(c, p, chunk) + SealChunk(c, [], |p| / chunk))
  {
    OpensExactly(c, ct, p, chunk, 0);
    var own := Chunked(c, p, chunk);
    PrefixCases(own, ct, SealChunk(c, [], |p| / chunk));
    if own <= ct {
      TrailerExactly(c, p, ct[|own|..], chunk);
    }
  }

  lemma PrefixCases(own: Bytes, ct: Bytes, tail: Bytes)
    ensures ct == own <==> own <= ct && ct[|own|..] == []
    ensures ct == own + tail <==> own <= ct && ct[|own|..] == tail
  {
  }

  lemma TrailerExactly(c: ChunkCipher, p: Bytes, tail: Bytes, chunk: nat)
    requires LawfulChunks(c) && chunk > 0
    ensures Trailer(c, p, tail, chunk, 0)
       <==> tail == [] || (|p| % chunk == 0 && tail == SealChunk(c, [], |p| / chunk))
  {
    WholeChunksDivide(|p|, chunk);
    if WholeChunks(|p|, chunk) {
      SealedSize(c, p, chunk, 0);
      RoundUpOfWhole(|p|, chunk);
    }
  }

  /** What either encryptor produced decrypts to the file, hash checked or not, for every length and chunk size. */
  lemma RoundTrip(box: SecretBox, digest: Bytes -> Bytes, key: Bytes, nonce: Bytes, p: Bytes, chunk: nat, check: bool)
    requires chunk > 0
    ensures var e := Encryption(box, digest, key, nonce, p, chunk);
            var chunkSize := if e.chunkSize.Some? then Some(e.chunkSize.value as int) else None;
            var hash := if check then Some(e.sha256) else None;
            Decryption(box, digest, e.ciphertext, key, e.nonce, hash, chunkSize) == Success(p)
  {
    var c := ForKey(box, key);
    ForKeyIsLawful(box, key);
    OpensExactly(c, Chunked(c, p, chunk), p, chunk, 0);
  }
}
