/** The symmetric envelope ABPPack, laid out as
    [version][IvCount-byte nonce][GCM ciphertext and tag]. */
module SymmetricEnvelope {
  import opened Wrappers
  import opened Bytes
  import opened ABPAES

  class ABPPack {
    var version: byte
    /** The plaintext; None stands for null. */
    var data: Option<seq<byte>>

    /** new ABPPack(): version 0 and no data yet. */
    constructor ()
      ensures version == 0 && data == None
    {
      version := 0;
      data := None;
    }

    /** new ABPPack(x, key): byte 0 is the version, the next IvCount bytes
        the nonce, the rest the ciphertext, which is decrypted. A shorter x
        makes the array allocation throw; a failed decryption leaves data
        null without failing the constructor. */
    constructor Parse(x: seq<byte>, key: seq<byte>, cipher: Cipher)
      requires |x| >= 1 + IvCount
      ensures version == x[0]
      ensures data == cipher.decrypt(x[1 + IvCount..], key, x[1..1 + IvCount])
    {
      var v := x[0];
      var iv := new byte[IvCount];
      var enc := new byte[|x| - 1 - iv.Length];
      ArrayCopy(x, 1, iv, 0, iv.Length);
      ArrayCopy(x, 1 + iv.Length, enc, 0, enc.Length);
      assert iv[..] == iv[0..IvCount] == x[1..1 + IvCount];
      assert enc[..] == enc[0..enc.Length] == x[1 + IvCount..];
      version := v;
      data := cipher.decrypt(enc[..], key, iv[..]);
    }

    /** Pack(key), with iv the nonce MakeIV draws: the version byte, the
        nonce, then the ciphertext. None where Pack throws, because
        ABPAES.Encrypt returned null (it does so for null data too). */
    method Pack(key: seq<byte>, iv: seq<byte>, cipher: Cipher) returns (r: Option<seq<byte>>)
      requires |iv| == IvCount
      ensures r.Some? <==> data.Some? && cipher.encrypt(data.value, key, iv).Some?
      ensures r.Some? ==>
        var enc := cipher.encrypt(data.value, key, iv).value;
        && |r.value| == 1 + IvCount + |enc|
        && r.value[0] == version
        && r.value[1..1 + IvCount] == iv
        && r.value[1 + IvCount..] == enc
    {
      if data.None? {
        return None;
      }
      var enc := cipher.encrypt(data.value, key, iv);
      if enc.None? {
        return None;
      }
      var x := new byte[1 + |iv| + |enc.value|];
      x[0] := version;
      ArrayCopy(iv, 0, x, 1, |iv|);
      ArrayCopy(enc.value, 0, x, 1 + |iv|, |enc.value|);
      assert x[1 + IvCount..] == x[1 + IvCount..1 + IvCount + |enc.value|];
      r := Some(x[..]);
    }

    /** A pack with the given version and payload, packed and parsed back
        under one key and nonce: the parser recovers the version and hands
        the nonce and ciphertext Pack wrote to the cipher; with an inverting
        cipher the payload comes back. */
    static method PackThenParse(version: byte, payload: seq<byte>, key: seq<byte>, iv: seq<byte>, cipher: Cipher)
      returns (x: Option<seq<byte>>, parsedVersion: byte, parsedData: Option<seq<byte>>)
      requires |iv| == IvCount
      ensures x.Some? <==> cipher.encrypt(payload, key, iv).Some?
      ensures x.Some? ==>
        && |x.value| == 1 + IvCount + |cipher.encrypt(payload, key, iv).value|
        && x.value[0] == version
        && x.value[1..1 + IvCount] == iv
        && x.value[1 + IvCount..] == cipher.encrypt(payload, key, iv).value
        && parsedVersion == version
        && parsedData == cipher.decrypt(cipher.encrypt(payload, key, iv).value, key, iv)
      ensures x.Some? && DecryptInverts(cipher) ==> parsedData == Some(payload)
      ensures x.Some? && AppendsTag(cipher) ==> |x.value| == 1 + IvCount + |payload| + MacSize / 8
    {
      var pack := new ABPPack();
      pack.version, pack.data := version, Some(payload);
      x := pack.Pack(key, iv, cipher);
      if x.None? {
        return x, 0, None;
      }
      var parsed := new ABPPack.Parse(x.value, key, cipher);
      parsedVersion, parsedData := parsed.version, parsed.data;
    }

    /** ABPPack.SelfTest(key), with iv the nonce MakeIV draws. None where the
        test throws instead of answering: Pack fails, or the decrypted data is
        null when it is decoded as a string. */
    static method SelfTest(key: seq<byte>, iv: seq<byte>, cipher: Cipher) returns (r: Option<bool>)
      requires |iv| == IvCount
      ensures r.None? <==>
        cipher.encrypt(TestInput, key, iv).None? ||
        cipher.decrypt(cipher.encrypt(TestInput, key, iv).value, key, iv).None?
      ensures r.Some? ==>
        (r.value <==> cipher.decrypt(cipher.encrypt(TestInput, key, iv).value, key, iv) == Some(TestInput))
      ensures DecryptInverts(cipher) && cipher.encrypt(TestInput, key, iv).Some? ==> r == Some(true)
    {
      var pack := new ABPPack();
      pack.data := Some(TestInput);
      var packBytes := pack.Pack(key, iv, cipher);
      if packBytes.None? {
        return None;
      }
      var decryptedPack := new ABPPack.Parse(packBytes.value, key, cipher);
      if decryptedPack.data.None? {
        return None;
      }
      r := Some(decryptedPack.data.value == TestInput);
    }
  }
}
