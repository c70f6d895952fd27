/** The asymmetric envelope ABPHPack, laid out as
    [version][multi-block RSA ciphertext]. */
module AsymmetricEnvelope {
  import opened Wrappers
  import opened Bytes
  import opened ABPRSA

  class ABPHPack {
    var version: byte
    /** The plaintext; None stands for null. */
    var data: Option<seq<byte>>

    /** new ABPHPack(): version 0 and no data yet. */
    constructor ()
      ensures version == 0 && data == None
    {
      version := 0;
      data := None;
    }

    /** new ABPHPack(x, key), with key the decrypting engine: byte 0 is the
        version and exactly the remaining bytes go to ABPRSA.Decrypt. An
        empty x makes x[0] throw; a failed decryption leaves data null
        without failing the constructor. */
    constructor Parse(x: seq<byte>, key: Engine)
      requires |x| >= 1 && key.Valid()
      ensures version == x[0]
      ensures data == DecryptSpec(x[1..], key)
    {
      var v := x[0];
      var enc := new byte[|x| - 1];
      ArrayCopy(x, 1, enc, 0, enc.Length);
      assert enc[..] == x[1..];
      var d := Decrypt(enc[..], key);
      version := v;
      data := d;
    }

    /** Pack(key), with key the encrypting engine: the version byte, then the
        RSA ciphertext. None where Pack throws, because ABPRSA.Encrypt
        returned null (it does so for null data too). */
    method Pack(key: Engine) returns (r: Option<seq<byte>>)
      requires key.Valid()
      ensures r.Some? <==> data.Some? && EncryptSpec(data.value, key).Some?
      ensures r.Some? ==>
        var enc := EncryptSpec(data.value, key).value;
        && |r.value| == 1 + |enc|
        && r.value[0] == version
        && r.value[1..] == enc
    {
      if data.None? {
        return None;
      }
      var enc := Encrypt(data.value, key);
      if enc.None? {
        return None;
      }
      var x := new byte[1 + |enc.value|];
      x[0] := version;
      ArrayCopy(enc.value, 0, x, 1, |enc.value|);
      assert x[1..] == x[1..1 + |enc.value|];
      r := Some(x[..]);
    }

    /** A pack with the given version and payload, packed under pub and
        parsed under priv: the parser recovers the version and hands exactly
        the RSA ciphertext to ABPRSA.Decrypt; with inverting engines the
        payload comes back. */
    static method PackThenParse(version: byte, payload: seq<byte>, pub: Engine, priv: Engine)
      returns (x: Option<seq<byte>>, parsedVersion: byte, parsedData: Option<seq<byte>>)
      requires pub.Valid() && priv.Valid()
      ensures x.Some? <==> EncryptSpec(payload, pub).Some?
      ensures x.Some? ==>
        && |x.value| == 1 + |EncryptSpec(payload, pub).value|
        && x.value[0] == version
        && x.value[1..] == EncryptSpec(payload, pub).value
        && parsedVersion == version
        && parsedData == DecryptSpec(EncryptSpec(payload, pub).value, priv)
      ensures x.Some? && Inverts(pub, priv) ==> parsedData == Some(payload)
    {
      var pack := new ABPHPack();
      pack.version, pack.data := version, Some(payload);
      x := pack.Pack(pub);
      if x.None? {
        return x, 0, None;
      }
      var parsed := new ABPHPack.Parse(x.value, priv);
      parsedVersion, parsedData := parsed.version, parsed.data;
      assert Inverts(pub, priv) ==> parsedData == Some(payload) by {
        if Inverts(pub, priv) {
          RoundTrip(payload, pub, priv);
        }
      }
    }

    /** ABPHPack.SelfTest(keypair), with pub and priv the engines of its two
        keys. None where the test throws instead of answering: Pack fails, or
        the decrypted data is null when it is decoded as a string. */
    static method SelfTest(pub: Engine, priv: Engine) returns (r: Option<bool>)
      requires pub.Valid() && priv.Valid()
      ensures r.None? <==>
        EncryptSpec(TestInput, pub).None? ||
        DecryptSpec(EncryptSpec(TestInput, pub).value, priv).None?
      ensures r.Some? ==>
        (r.value <==> DecryptSpec(EncryptSpec(TestInput, pub).value, priv) == Some(TestInput))
      ensures Inverts(pub, priv) && EncryptSpec(TestInput, pub).Some? ==> r == Some(true)
    {
      var pack := new ABPHPack();
      pack.data := Some(TestInput);
      var packBytes := pack.Pack(pub);
      if packBytes.None? {
        return None;
      }
      var decryptedPack := new ABPHPack.Parse(packBytes.value, priv);
      if decryptedPack.data.None? {
        assert !Inverts(pub, priv) by {
          if Inverts(pub, priv) {
            RoundTrip(TestInput, pub, priv);
          }
        }
        return None;
      }
      r := Some(decryptedPack.data.value == TestInput);
      assert Inverts(pub, priv) ==> r == Some(true) by {
        if Inverts(pub, priv) {
          RoundTrip(TestInput, pub, priv);
        }
      }
    }
  }

  /** With a 2048-bit key (245-byte input blocks, 256-byte output blocks)
      the 22-byte self-test payload packs into 1 + 256 bytes. */
  lemma SelfTestPackLength(pub: Engine)
    requires pub.inputSize == 245 && pub.outputSize == 256
    requires EncryptSpec(TestInput, pub).Some?
    ensures 1 + |EncryptSpec(TestInput, pub).value| == 257
  {
    SingleBlock(TestInput, pub);
    SealBlockValue(pub, TestInput);
  }
}
