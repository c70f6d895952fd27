/** The AES-GCM wrapper's constants, and the cipher itself as an abstract
    pair of functions. */
module ABPAES {
  import opened Wrappers
  import opened Bytes

  /** The GCM authentication tag length, in bits. */
  const MacSize: nat := 128
  /** The nonce length, in bytes. */
  const IvCount: nat := 12

  /** ABPAES.Encrypt(data, key, iv) and ABPAES.Decrypt(data, key, iv):
      None where the library throws and the wrapper returns null (a null
      payload, a bad key or nonce, a tag that does not verify). */
  datatype Cipher = Cipher(
    encrypt: (seq<byte>, seq<byte>, seq<byte>) -> Option<seq<byte>>,
    decrypt: (seq<byte>, seq<byte>, seq<byte>) -> Option<seq<byte>>)

  /** Decrypting under the same key and nonce undoes encrypting. */
  ghost predicate DecryptInverts(c: Cipher)
  {
    forall d, key, iv :: c.encrypt(d, key, iv).Some? ==>
      c.decrypt(c.encrypt(d, key, iv).value, key, iv) == Some(d)
  }

  /** GCM output is the ciphertext followed by a MacSize-bit tag. */
  ghost predicate AppendsTag(c: Cipher)
  {
    forall d, key, iv :: c.encrypt(d, key, iv).Some? ==>
      |c.encrypt(d, key, iv).value| == |d| + MacSize / 8
  }
}
