/** Encrypted database columns: a magic prefix, a nonce and a sealed value, or a legacy plaintext. */
module ColumnEncryption {
  import opened AuthenticatedEncryption
  import opened Buffers
  import opened Wrappers

  const MAGIC: Bytes := [68, 66, 69, 49]
  const NONCE_SIZE := 12

  type Nonce = n: Bytes | |n| == NONCE_SIZE witness Zeros(NONCE_SIZE)

  /** The cipher under its key; None when no key is configured. */
  datatype ColumnCipher = ColumnCipher(box: SecretBox, key: Bytes)

  function Seal(c: ColumnCipher, plain: Bytes, nonce: Bytes): (ct: Bytes)
    ensures |ct| == |plain| + OVERHEAD
  {
    c.box.seal(plain, nonce, c.key)
  }

  function Open(c: ColumnCipher, ct: Bytes, nonce: Bytes): (plain: Option<Bytes>)
    ensures plain.Some? ==> ct == Seal(c, plain.value, nonce)
  {
    c.box.open(ct, nonce, c.key)
  }

  lemma OpenSeal(c: ColumnCipher, plain: Bytes, nonce: Bytes)
    ensures Open(c, Seal(c, plain, nonce), nonce) == Some(plain)
  {
  }

  predicate IsEncrypted(data: Bytes) {
    MAGIC <= data
  }

  function Encrypt(cipher: Option<ColumnCipher>, plain: Bytes, nonce: Nonce): Bytes {
    if cipher.None? then plain else MAGIC + nonce + Seal(cipher.value, plain, nonce)
  }

  function Decrypt(cipher: Option<ColumnCipher>, data: Bytes): Option<Bytes> {
    if cipher.None? || !IsEncrypted(data) then Some(data)
    else
      var rest := data[|MAGIC|..];
      if |rest| < NONCE_SIZE then None else Open(cipher.value, rest[NONCE_SIZE..], rest[..NONCE_SIZE])
  }

  /** An encrypted value: the four letters DBE1, the nonce, and the value sealed under that nonce. */
  lemma EncryptedFormat(c: ColumnCipher, plain: Bytes, nonce: Nonce)
    ensures var data := Encrypt(Some(c), plain, nonce);
            && |data| == 4 + 12 + |plain| + 16
            && data[..4] == [68, 66, 69, 49] && data[4..16] == nonce
            && data[16..] == c.box.seal(plain, nonce, c.key)
    ensures Encrypt(None, plain, nonce) == plain
  {
  }

  /** Every value comes back, also one that begins like an encrypted one. */
  lemma DecryptsWhatWasEncrypted(cipher: Option<ColumnCipher>, plain: Bytes, nonce: Nonce)
    requires cipher.Some? || !IsEncrypted(plain)
    ensures Decrypt(cipher, Encrypt(cipher, plain, nonce)) == Some(plain)
    ensures IsEncrypted(Encrypt(cipher, plain, nonce)) <==> cipher.Some?
  {
    if cipher.Some? {
      var ct := Seal(cipher.value, plain, nonce);
      var data := MAGIC + nonce + ct;
      assert data[..|MAGIC|] == MAGIC;
      var rest := data[|MAGIC|..];
      assert rest == nonce + ct;
      assert rest[..NONCE_SIZE] == nonce && rest[NONCE_SIZE..] == ct;
      OpenSeal(cipher.value, plain, nonce);
    }
  }

  predicate BeginsWithMagic(data: Bytes) {
    |data| >= 4 && data[0] == 68 && data[1] == 66 && data[2] == 69 && data[3] == 49
  }

  /** A value stored before encryption reads as itself exactly when it does not begin with the magic prefix. */
  lemma LegacyReadsExactly(c: ColumnCipher, plain: Bytes)
    ensures Decrypt(Some(c), plain) == Some(plain) <==> !BeginsWithMagic(plain)
  {
  }

  /** With a key, a stored value reads as `plain` exactly if it is a legacy plaintext or an encryption of `plain`. */
  lemma ReadsExactly(c: ColumnCipher, data: Bytes, plain: Bytes)
    ensures Decrypt(Some(c), data) == Some(plain) <==>
            if BeginsWithMagic(data) then exists nonce: Nonce :: data == Encrypt(Some(c), plain, nonce) else data == plain
  {
    forall nonce: Nonce | data == Encrypt(Some(c), plain, nonce)
      ensures Decrypt(Some(c), data) == Some(plain)
    {
      DecryptsWhatWasEncrypted(Some(c), plain, nonce);
    }
    if BeginsWithMagic(data) && Decrypt(Some(c), data) == Some(plain) {
      var nonce := data[4..16];
      var rest := data[4..];
      assert data[..4] == MAGIC && rest[..12] == nonce && rest[12..] == data[16..];
      assert data == MAGIC + (nonce + data[16..]);
      assert data == Encrypt(Some(c), plain, nonce);
    }
  }
}
