# ABPPack packet format, modelled in Dafny

ABPPack is a small hybrid-encryption packet library. Two envelope classes
turn a payload and a one-byte version tag into a byte array and back:

- `ABPPack` (symmetric) writes `[version][12-byte nonce][AES-GCM ciphertext and tag]`;
- `ABPHPack` (asymmetric) writes `[version][RSA ciphertext]`, where the RSA
  ciphertext comes from `ABPRSA.Encrypt`, which splits the payload into
  engine-sized blocks, encrypts each with PKCS#1 v1.5 padding and lays the
  results out in fixed-size slots; `ABPRSA.Decrypt` splits its input the same
  way, decrypts each block and concatenates the variable-length results.

The cryptographic primitives belong to BouncyCastle and are abstract here:

- an RSA `Engine` (module `ABPRSA`) is the padded engine after
  `Init(direction, key)`: its input and output block sizes and a
  `processBlock` function that yields `None` where the library throws;
- an AES-GCM `Cipher` (module `ABPAES`) is a pair of functions
  `encrypt(data, key, iv)` and `decrypt(data, key, iv)` that yield `None`
  where the wrapper catches an exception and returns null.

Round trips are proved under explicit hypotheses about these primitives. For
RSA, `ABPRSA.Inverts(enc, dec)` says that the decrypt engine reads blocks of
the encrypt engine's output size and decrypts every sealed block back to its
input block. For AES, `ABPAES.DecryptInverts(c)` says that decryption under
the same key and nonce undoes encryption. A C# null (returned from a `catch`,
or left in a field) is `Option.None`. An exception that escapes `Pack`
(`enc.Length` on a null ciphertext) also makes `Pack` return `None`. The
constructors have no `try`, so input that is too short for them is excluded
by their preconditions. The nonce that `ABPAES.MakeIV` draws from the
operating system is passed to `Pack` and to the symmetric `SelfTest`.

Layout of the project:

- `wrappers.dfy`: `Option`.
- `bytes.dfy`: the `byte` type, concatenation (`Flatten`) and total length of
  a list of arrays, `ArrayCopy` (the model of `Array.Copy`), and the UTF-8
  bytes of the self-tests' payload `"Testing Testing 123!!!"`.
- `abpaes.dfy`: the wrapper's tag and nonce lengths (`MacSize = 128` bits,
  `IvCount = 12` bytes) and the abstract cipher.
- `abprsa.dfy`: block counts and block slicing; `Encrypt` and `Decrypt` as
  loops, proved against the specification functions `EncryptSpec` and
  `DecryptSpec`; lemmas about them. The `ProcessBlock` call on block i
  (`ProcessBlockAt`), the `Array.Copy` into slot i (`CopySlot`) and
  `Decrypt`'s second loop, which copies the blocks at a running offset
  (`Concatenate`), are methods of their own.
- `abppack.dfy`, `abphpack.dfy`: the two envelope classes, with their fields
  `version` and `data`, the parsing constructors, `Pack`, and the self-tests.

What the code checks, and what it does not:

- The code does not reject a symmetric envelope shorter than 1 + 12 + 16
  bytes. It needs only 13 and passes any shorter ciphertext to GCM.
- The code does not check that an asymmetric ciphertext's length is a
  positive multiple of the modulus length. Its last block may be short, and
  that block goes to the engine like the others.
- The code reports every failure as null, with no error kind.

## Model

| member | source | states |
|---|---|---|
| ABPRSA.BlockCount | ABPRSA.cs:78 | the block count is the ceiling of n / size: the least r with r * size >= n (n <= r * size < n + size) |
| ABPRSA.ChunkAt | ABPRSA.cs:84-85 | the slice passed to ProcessBlock, from absI = i * inputSize for min(n - absI, inputSize) bytes, is in range and is block i, data[i * inputSize .. min(n, (i + 1) * inputSize)) |
| ABPRSA.ChunkSize | ABPRSA.cs:84-85 | every input block is non-empty and at most inputSize bytes long |
| ABPRSA.ChunksPartition | ABPRSA.cs:82-85 | the input blocks, laid end to end in order, are exactly the input |
| ABPRSA.ChunksOfUniform | ABPRSA.cs:108-118 | splitting a concatenation of equal-size blocks at that size gives the same blocks back, so Decrypt re-splits Encrypt's output into its slots |
| ABPRSA.ProcessAll | ABPRSA.cs:115-122 | processing the blocks in order succeeds exactly when every block succeeds, and then yields one result per block, in order |
| ABPRSA.SealBlockValue | ABPRSA.cs:85-86 | one encryption step succeeds exactly when ProcessBlock succeeds with at least outputSize bytes, and then contributes exactly that block's first outputSize bytes |
| ABPRSA.ProcessBlockAt | ABPRSA.cs:84-85 | ProcessBlock(data, absI, min(n - absI, inputSize)) with absI = i * inputSize is ProcessBlock of exactly input block i |
| ABPRSA.CopySlot | ABPRSA.cs:86 | copying the first outputSize bytes of block i to offset i * outputSize stays inside the outputSize * count array and extends the written prefix by exactly that slot |
| ABPRSA.SealStep | ABPRSA.cs:82-87 | after i sealed blocks, a block that fails makes Encrypt fail, and one that succeeds extends the sealed prefix by its slot |
| ABPRSA.Encrypt | ABPRSA.cs:68-96 | the loop over pre-sized slots returns EncryptSpec, the sealed blocks in order, or null when a block fails |
| ABPRSA.EncryptLength | ABPRSA.cs:78-80 | a successful Encrypt returns outputSize * ceil(n / inputSize) bytes, and returns the empty array exactly for empty input |
| ABPRSA.EncryptEmpty | ABPRSA.cs:78-89 | Encrypt of the empty array succeeds with the empty array |
| ABPRSA.EncryptSlot | ABPRSA.cs:82-87 | output bytes [i * outputSize, i * outputSize + outputSize) are the first outputSize bytes of processed block i, so the slots tile the output without overlap |
| ABPRSA.EncryptFails | ABPRSA.cs:84-95 | Encrypt returns null exactly when some block's ProcessBlock fails or yields fewer than outputSize bytes |
| ABPRSA.Decrypt | ABPRSA.cs:98-139 | the block loop returns DecryptSpec, the processed blocks concatenated in order, or null when a block fails |
| ABPRSA.Concatenate | ABPRSA.cs:124-130 | copying the blocks into a totalBlockSize-byte array at the running offset j gives their in-order concatenation; j stays the total length of the blocks copied so far |
| ABPRSA.DecryptLayout | ABPRSA.cs:113-132 | a successful Decrypt returns totalBlockSize bytes, the sum of the processed block lengths, with processed block i at the offset equal to the total length of blocks 0..i-1 |
| ABPRSA.DecryptFails | ABPRSA.cs:115-138 | Decrypt returns null exactly when some block's ProcessBlock fails |
| ABPRSA.RoundTrip | ABPRSA.cs:141-158 | when Encrypt succeeds and the engines invert each other block by block, Decrypt(Encrypt(d)) == d |
| ABPRSA.SingleBlock | ABPRSA.cs:78-89 | a non-empty payload of at most inputSize bytes encrypts to exactly one sealed block |
| Bytes.ArrayCopy | ABPPack.cs:20-21 | Array.Copy writes the source range into the destination range and leaves the bytes before and after it unchanged |
| SymmetricEnvelope.ABPPack.constructor | ABPPack.cs:9-12 | a default pack has version 0 and null data |
| SymmetricEnvelope.ABPPack.Parse | ABPPack.cs:14-25 | parsing needs at least 1 + 12 bytes; version is byte 0; exactly bytes 1..13 as nonce and bytes 13.. as ciphertext go to decryption, whose null result becomes the data without failing |
| SymmetricEnvelope.ABPPack.Pack | ABPPack.cs:27-37 | Pack fails exactly when the encryption returns null; otherwise it returns 1 + 12 + len(enc) bytes: version at byte 0, the nonce at bytes 1..13, the ciphertext from byte 13 on |
| SymmetricEnvelope.ABPPack.PackThenParse | ABPPack.cs:14-37 | parsing Pack's output recovers the version and hands back exactly the nonce and ciphertext Pack wrote; with an inverting cipher the data is recovered; with a 16-byte tag the envelope has 1 + 12 + len(data) + 16 bytes |
| SymmetricEnvelope.ABPPack.SelfTest | ABPPack.cs:39-59 | the self-test throws exactly when encryption or decryption returns null, answers whether the decrypted bytes equal the input, and passes whenever the cipher inverts and encryption succeeds |
| AsymmetricEnvelope.ABPHPack.constructor | ABPHPack.cs:10-13 | a default pack has version 0 and null data |
| AsymmetricEnvelope.ABPHPack.Parse | ABPHPack.cs:15-23 | parsing needs at least one byte; version is byte 0 and the data is ABPRSA.Decrypt of exactly bytes 1.. |
| AsymmetricEnvelope.ABPHPack.Pack | ABPHPack.cs:25-33 | Pack fails exactly when ABPRSA.Encrypt returns null; otherwise it returns 1 + len(enc) bytes: version at byte 0 and the RSA ciphertext from byte 1 on |
| AsymmetricEnvelope.ABPHPack.PackThenParse | ABPHPack.cs:15-33 | parsing Pack's output recovers the version and hands exactly Pack's RSA ciphertext to Decrypt; under the RSA round-trip hypothesis the data is recovered |
| AsymmetricEnvelope.ABPHPack.SelfTest | ABPHPack.cs:35-55 | the self-test throws exactly when Encrypt or Decrypt returns null, answers whether the decrypted bytes equal the input, and passes whenever the engines invert each other and Encrypt succeeds |
| AsymmetricEnvelope.SelfTestPackLength | ABPHPack.cs:37-41 | with 245-byte input and 256-byte output blocks (a 2048-bit key), the 22-byte test payload packs into 1 + 256 bytes |

## Left out

- BouncyCastle's primitives (`RsaEngine`, `Pkcs1Encoding`, `GcmBlockCipher`, `AesEngine`): foreign library code. They are abstract functions. The true semantics of AES-GCM (NIST SP 800-38D) and of RSAES-PKCS1-v1_5 (section 7.2 of RFC 8017, with its k - 11 input limit) are not modelled.
- `ABPAES.Encrypt`, `ABPAES.Decrypt`, `ABPAES.MakeIV`, `ABPAES.MakeKey` and `ABPAES.SelfTest`: a thin wrapper over GCM and the operating system's random source. Only the constants are kept; the nonce is a parameter.
- `ABPRSA.MakeKey` and `ABPRSA.MakeKeys`: hexadecimal and PEM key parsing, done by library I/O. An `Engine` stands for an initialised key.
- `ABPRSA.Sign` and `ABPRSA.Verify`: pure delegation to the library's SHA512withRSA signer, with no local logic.
- `ABPRSA.SelfTest`: its decrypt-and-compare half is the lemma `ABPRSA.RoundTrip`; its signature check is left out with `Sign` and `Verify`.
- Console logging in the `catch` blocks and the self-tests: output only.
- Engines whose block sizes are not positive: `Engine.Valid()` excludes them. An input size of 0 would make `Math.Ceiling` divide by zero, which has no integer meaning. An output size of 0 would make every encryption slot empty. The decrypting engine's output size is read and discarded by `ABPRSA.Decrypt`. Demanding that it be positive there excludes no real RSA engine, since a padded engine's block sizes are always positive.
- The randomness of PKCS#1 v1.5 encryption padding: `processBlock` is a function, so in the model two equal input blocks seal to the same ciphertext. With the real engine they differ. No contract here relies on equal blocks giving equal ciphertexts.
- `ABPAES.KeyCount`, the 32-byte key length: it is used only by `MakeKey`, which is left out.
- 32-bit integer overflow: `outputSize * inputBlockCount`, `i * inputSize` and `totalBlockSize` are unbounded integers. In C# they wrap only for payloads near 2 GB.
- `Math.Ceiling(len / (double)size)` is integer ceiling division. This is exact for array lengths.
- Aliasing in `Array.Copy`: every source array in the core is distinct from its destination, so `ArrayCopy` reads from a value.
- SymmetricEnvelope.ABPPack.SelfTest: compares the decrypted bytes with the input bytes where the source compares UTF-8 decoded strings. For this ASCII payload the two agree.
- AsymmetricEnvelope.ABPHPack.SelfTest: compares bytes instead of decoded strings, as above.
