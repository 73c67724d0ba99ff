/** Authenticated encryption, abstract but for its round trip and its overhead. */
module AuthenticatedEncryption {
  import opened Buffers
  import opened Wrappers

  const OVERHEAD := 16

  /** Authenticated encryption of (text, nonce, key). */
  datatype Cipher = Cipher(
    seal: (Bytes, Bytes, Bytes) -> Bytes,
    open: (Bytes, Bytes, Bytes) -> Option<Bytes>)

  /** Sealing costs 16 bytes and opens again, and a box opens only if sealing its content gives that box. */
  ghost predicate Lawful(c: Cipher) {
    && (forall p, n, k {:trigger c.seal(p, n, k)} ::
          |c.seal(p, n, k)| == |p| + OVERHEAD && c.open(c.seal(p, n, k), n, k) == Some(p))
    && (forall ct, n, k {:trigger c.open(ct, n, k)} ::
          c.open(ct, n, k).Some? ==> ct == c.seal(c.open(ct, n, k).value, n, k))
  }

  /** Every lawful cipher; the witness only shows that there is one. */
  type SecretBox = c: Cipher | Lawful(c) witness (PaddingIsLawful(); Padding())

  function Zeros(n: nat): (z: Bytes)
    ensures |z| == n && forall k | 0 <= k < n :: z[k] == 0
  {
    seq(n, _ => 0)
  }

  function Padding(): Cipher {
    Cipher((p, n, k) => p + Zeros(OVERHEAD),
           (ct, n, k) => if |ct| >= OVERHEAD && ct[|ct| - OVERHEAD..] == Zeros(OVERHEAD)
                         then Some(ct[..|ct| - OVERHEAD]) else None)
  }

  lemma PaddingIsLawful()
    ensures Lawful(Padding())
  {
  }
}
