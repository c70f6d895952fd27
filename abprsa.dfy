/** Multi-block RSA encryption and decryption (ABPRSA.Encrypt, ABPRSA.Decrypt).
    The padded RSA primitive is abstract: an Engine gives the block sizes and
    the ProcessBlock of a Pkcs1Encoding(RsaEngine) after Init(direction, key). */
module ABPRSA {
  import opened Wrappers
  import opened Bytes

  /** A padded RSA engine initialised for one direction with one key.
      processBlock yields None where the library throws (bad padding, a block
      too large for the modulus, ...). */
  datatype Engine = Engine(inputSize: nat, outputSize: nat, processBlock: seq<byte> -> Option<seq<byte>>)
  {
    predicate Valid()
    {
      inputSize > 0 && outputSize > 0
    }
  }

  /** The number of input blocks, Math.Ceiling(n / (double)size): the least
      count of size-byte blocks that covers n bytes. */
  function BlockCount(n: nat, size: nat): (r: nat)
    requires size > 0
    ensures r * size >= n
    ensures r * size < n + size
  {
    var r := (n + size - 1) / size;
    assert n + size - 1 == r * size + (n + size - 1) % size;
    r
  }

  lemma MulMonotone(a: nat, b: nat, c: nat)
    requires a <= b
    ensures a * c <= b * c
  {
    assert b * c == a * c + (b - a) * c;
  }

  /** Exactly k blocks of size bytes cover k * size bytes. */
  lemma BlockCountOfMultiple(k: nat, size: nat)
    requires size > 0
    ensures BlockCount(k * size, size) == k
  {
    var r := BlockCount(k * size, size);
    if r < k {
      MulMonotone(r + 1, k, size);
    } else if r > k {
      MulMonotone(k + 1, r, size);
    }
  }

  /** Slot i of count slots of width w ends inside count * w bytes. */
  lemma SlotFits(i: nat, count: nat, w: nat)
    requires i < count
    ensures 0 <= i * w
    ensures (i + 1) * w == i * w + w
    ensures i * w + w <= w * count
  {
    MulMonotone(i + 1, count, w);
  }

  /** Block i starts inside the data. */
  lemma ChunkStart(n: nat, size: nat, i: nat)
    requires size > 0 && i < BlockCount(n, size)
    ensures i * size < n
    ensures (i + 1) * size <= BlockCount(n, size) * size
  {
    MulMonotone(i + 1, BlockCount(n, size), size);
    assert (i + 1) * size == i * size + size;
  }

  /** Input block i: data[i * size .. min(|data|, (i + 1) * size)). */
  function Chunk(data: seq<byte>, size: nat, i: nat): seq<byte>
    requires size > 0 && i < BlockCount(|data|, size)
  {
    ChunkStart(|data|, size, i);
    data[i * size..Min(|data|, (i + 1) * size)]
  }

  /** The input blocks in order. */
  function Chunks(data: seq<byte>, size: nat): seq<seq<byte>>
    requires size > 0
  {
    seq(BlockCount(|data|, size), i requires 0 <= i < BlockCount(|data|, size) => Chunk(data, size, i))
  }

  /** Every block is non-empty and at most size bytes long. */
  lemma ChunkSize(data: seq<byte>, size: nat, i: nat)
    requires size > 0 && i < BlockCount(|data|, size)
    ensures 0 < |Chunk(data, size, i)| <= size
  {
    ChunkStart(|data|, size, i);
    assert (i + 1) * size == i * size + size;
  }

  /** The slice the loops hand to ProcessBlock is block i. */
  lemma ChunkAt(data: seq<byte>, size: nat, i: nat, absI: int)
    requires size > 0 && i < BlockCount(|data|, size) && absI == i * size
    ensures 0 <= absI <= absI + Min(|data| - absI, size) <= |data|
    ensures data[absI..absI + Min(|data| - absI, size)] == Chunk(data, size, i)
  {
    ChunkStart(|data|, size, i);
    assert (i + 1) * size == i * size + size;
  }

  /** The first j blocks are exactly the first min(|data|, j * size) bytes. */
  lemma {:induction false} ChunksPrefix(data: seq<byte>, size: nat, j: nat)
    requires size > 0 && j <= BlockCount(|data|, size)
    ensures Flatten(Chunks(data, size)[..j]) == data[..Min(|data|, j * size)]
  {
    var cs := Chunks(data, size);
    if j > 0 {
      ChunksPrefix(data, size, j - 1);
      ChunkStart(|data|, size, j - 1);
      var a := (j - 1) * size;
      var b := Min(|data|, j * size);
      assert j * size == a + size;
      assert Min(|data|, a) == a;
      assert cs[j - 1] == data[a..b];
      assert cs[..j] == cs[..j - 1] + [cs[j - 1]];
      FlattenSnoc(cs[..j - 1], cs[j - 1]);
      assert data[..b] == data[..a] + data[a..b];
    }
  }

  /** The blocks partition the data: laid end to end they give it back. */
  lemma ChunksPartition(data: seq<byte>, size: nat)
    requires size > 0
    ensures Flatten(Chunks(data, size)) == data
  {
    var cs := Chunks(data, size);
    ChunksPrefix(data, size, |cs|);
    assert cs[..|cs|] == cs;
  }

  /** Chunking a concatenation of size-byte arrays gives those arrays back. */
  lemma ChunksOfUniform(bs: seq<seq<byte>>, size: nat)
    requires size > 0
    requires forall j :: 0 <= j < |bs| ==> |bs[j]| == size
    ensures Chunks(Flatten(bs), size) == bs
  {
    var flat := Flatten(bs);
    FlattenLength(bs);
    TotalLengthUniform(bs, size);
    BlockCountOfMultiple(|bs|, size);
    forall i | 0 <= i < |bs|
      ensures Chunks(flat, size)[i] == bs[i]
    {
      FlattenUniformSlot(bs, size, i);
      SlotFits(i, |bs|, size);
    }
  }

  /** Apply f to every block in order; None as soon as one application fails.
      This is the shape of both loops over the input blocks. */
  function ProcessAll<T, U>(f: T -> Option<U>, xs: seq<T>): (r: Option<seq<U>>)
    ensures r.Some? <==> forall i :: 0 <= i < |xs| ==> f(xs[i]).Some?
    ensures r.Some? ==> |r.value| == |xs|
    ensures r.Some? ==> forall i :: 0 <= i < |xs| ==> r.value[i] == f(xs[i]).value
  {
    if xs == [] then Some([])
    else
      match ProcessAll(f, xs[..|xs| - 1])
      case None => None
      case Some(ys) =>
        match f(xs[|xs| - 1])
        case None => None
        case Some(y) => Some(ys + [y])
  }

  /** Extending the processed prefix by one element. */
  lemma ProcessAllStep<T, U>(f: T -> Option<U>, xs: seq<T>, i: nat, ys: seq<U>)
    requires i < |xs| && ProcessAll(f, xs[..i]) == Some(ys)
    ensures f(xs[i]).None? ==> ProcessAll(f, xs) == None
    ensures f(xs[i]).Some? ==> ProcessAll(f, xs[..i + 1]) == Some(ys + [f(xs[i]).value])
  {
    assert xs[..i + 1][..i] == xs[..i];
  }

  /** One iteration of the encryption loop: ProcessBlock, then
      Array.Copy(block, 0, blocks, i * outputSize, outputSize), which throws
      when the block is shorter than outputSize and copies only the first
      outputSize bytes of a longer one. */
  function SealBlock(e: Engine, chunk: seq<byte>): Option<seq<byte>>
  {
    match e.processBlock(chunk)
    case None => None
    case Some(b) => if |b| < e.outputSize then None else Some(b[..e.outputSize])
  }

  function Sealer(e: Engine): seq<byte> -> Option<seq<byte>>
  {
    chunk => SealBlock(e, chunk)
  }

  /** What ABPRSA.Encrypt returns: the sealed blocks in fixed-size slots,
      or None (null) when a block fails. */
  function EncryptSpec(data: seq<byte>, e: Engine): Option<seq<byte>>
    requires e.Valid()
  {
    match ProcessAll(Sealer(e), Chunks(data, e.inputSize))
    case None => None
    case Some(slots) => Some(Flatten(slots))
  }

  /** What ABPRSA.Decrypt returns: the processed blocks concatenated in
      order, or None (null) when a block fails. */
  function DecryptSpec(data: seq<byte>, e: Engine): Option<seq<byte>>
    requires e.Valid()
  {
    match ProcessAll(e.processBlock, Chunks(data, e.inputSize))
    case None => None
    case Some(blocks) => Some(Flatten(blocks))
  }

  /** One iteration of Encrypt's loop, on the specification side: block i
      either fails, and then so does Encrypt, or extends the sealed prefix. */
  lemma SealStep(data: seq<byte>, e: Engine, i: nat, slots: seq<seq<byte>>)
    requires e.Valid() && i < BlockCount(|data|, e.inputSize)
    requires ProcessAll(Sealer(e), Chunks(data, e.inputSize)[..i]) == Some(slots)
    ensures SealBlock(e, Chunk(data, e.inputSize, i)).None? ==> EncryptSpec(data, e) == None
    ensures SealBlock(e, Chunk(data, e.inputSize, i)).Some? ==>
      ProcessAll(Sealer(e), Chunks(data, e.inputSize)[..i + 1]) ==
        Some(slots + [SealBlock(e, Chunk(data, e.inputSize, i)).value])
  {
    var cs := Chunks(data, e.inputSize);
    ProcessAllStep(Sealer(e), cs, i, slots);
    assert Sealer(e)(cs[i]) == SealBlock(e, Chunk(data, e.inputSize, i));
  }

  /** When every block has been sealed, Encrypt returns the sealed slots. */
  lemma SealedAll(data: seq<byte>, e: Engine, slots: seq<seq<byte>>)
    requires e.Valid()
    requires ProcessAll(Sealer(e), Chunks(data, e.inputSize)[..BlockCount(|data|, e.inputSize)]) == Some(slots)
    ensures EncryptSpec(data, e) == Some(Flatten(slots))
  {
    var cs := Chunks(data, e.inputSize);
    assert cs[..BlockCount(|data|, e.inputSize)] == cs;
  }

  /** engine.ProcessBlock(data, absI, Math.Min(data.Length - absI, inputSize))
      with absI = i * inputSize: ProcessBlock applied to input block i. */
  method ProcessBlockAt(e: Engine, data: seq<byte>, i: nat) returns (block: Option<seq<byte>>)
    requires e.Valid() && i < BlockCount(|data|, e.inputSize)
    ensures block == e.processBlock(Chunk(data, e.inputSize, i))
  {
    var absI := i * e.inputSize;
    ChunkAt(data, e.inputSize, i, absI);
    block := e.processBlock(data[absI..absI + Min(|data| - absI, e.inputSize)]);
  }

  /** Array.Copy(block, 0, blocks, i * outputSize, outputSize) after slots
      0..i-1 have been written: the written prefix grows by the first
      outputSize bytes of the block. */
  method CopySlot(block: seq<byte>, blocks: array<byte>, i: nat, outputSize: nat, count: nat,
                  ghost slots: seq<seq<byte>>)
    requires i < count && blocks.Length == outputSize * count && |block| >= outputSize
    requires 0 <= i * outputSize && blocks[..i * outputSize] == Flatten(slots)
    modifies blocks
    ensures 0 <= (i + 1) * outputSize <= blocks.Length
    ensures blocks[..(i + 1) * outputSize] == Flatten(slots + [block[..outputSize]])
    ensures blocks[(i + 1) * outputSize..] == old(blocks[(i + 1) * outputSize..])
  {
    SlotFits(i, count, outputSize);
    ghost var before := blocks[..];
    ArrayCopy(block, 0, blocks, i * outputSize, outputSize);
    SlotWritten(before, blocks[..], i, outputSize, count, slots, block[..outputSize]);
  }

  method Encrypt(data: seq<byte>, e: Engine) returns (r: Option<seq<byte>>)
    requires e.Valid()
    ensures r == EncryptSpec(data, e)
  {
    var inputSize := e.inputSize;
    var outputSize := e.outputSize;
    var inputBlockCount := BlockCount(|data|, inputSize);
    var blocks := new byte[outputSize * inputBlockCount];
    ghost var slots: seq<seq<byte>> := [];
    for i := 0 to inputBlockCount
      invariant ProcessAll(Sealer(e), Chunks(data, inputSize)[..i]) == Some(slots)
      invariant 0 <= i * outputSize <= blocks.Length
      invariant blocks[..i * outputSize] == Flatten(slots)
    {
      var block := ProcessBlockAt(e, data, i);
      SealStep(data, e, i, slots);
      if block.None? || |block.value| < outputSize {
        return None;
      }
      CopySlot(block.value, blocks, i, outputSize, inputBlockCount, slots);
      slots := slots + [block.value[..outputSize]];
    }
    SealedAll(data, e, slots);
    assert blocks[..] == blocks[..inputBlockCount * outputSize];
    r := Some(blocks[..]);
  }

  method Decrypt(data: seq<byte>, e: Engine) returns (r: Option<seq<byte>>)
    requires e.Valid()
    ensures r == DecryptSpec(data, e)
  {
    var inputSize := e.inputSize;
    var inputBlockCount := BlockCount(|data|, inputSize);
    var blocks: seq<seq<byte>> := [];
    var totalBlockSize := 0;
    ghost var cs := Chunks(data, inputSize);
    for i := 0 to inputBlockCount
      invariant ProcessAll(e.processBlock, cs[..i]) == Some(blocks)
      invariant totalBlockSize == TotalLength(blocks)
    {
      var block := ProcessBlockAt(e, data, i);
      ProcessAllStep(e.processBlock, cs, i, blocks);
      if block.None? {
        return None;
      }
      FlattenSnoc(blocks, block.value);
      blocks := blocks + [block.value];
      totalBlockSize := totalBlockSize + |block.value|;
    }
    assert cs[..inputBlockCount] == cs;

    var blockCat := Concatenate(blocks, totalBlockSize);
    r := Some(blockCat);
  }

  /** The second loop of ABPRSA.Decrypt: copy every block into a
      totalBlockSize-byte array at the running offset j. */
  method Concatenate(blocks: seq<seq<byte>>, totalBlockSize: nat) returns (r: seq<byte>)
    requires totalBlockSize == TotalLength(blocks)
    ensures r == Flatten(blocks)
  {
    var blockCat := new byte[totalBlockSize];
    var j := 0;
    for i := 0 to |blocks|
      invariant j == TotalLength(blocks[..i]) <= totalBlockSize
      invariant blockCat[..j] == Flatten(blocks[..i])
    {
      ConcatStep(blocks, i);
      ghost var before := blockCat[..];
      ArrayCopy(blocks[i], 0, blockCat, j, |blocks[i]|);
      CopiedPrefix(before, blockCat[..], j, blocks[i]);
      j := j + |blocks[i]|;
    }
    assert blocks[..|blocks|] == blocks;
    r := blockCat[..];
  }

  /** A sealed block is exactly outputSize bytes: the first outputSize bytes
      of the processed block. */
  lemma SealBlockValue(e: Engine, chunk: seq<byte>)
    ensures SealBlock(e, chunk).Some? <==>
      e.processBlock(chunk).Some? && |e.processBlock(chunk).value| >= e.outputSize
    ensures SealBlock(e, chunk).Some? ==>
      SealBlock(e, chunk).value == e.processBlock(chunk).value[..e.outputSize] &&
      |SealBlock(e, chunk).value| == e.outputSize
  {
  }

  /** The slots Encrypt fills, when every block seals. */
  lemma SlotsUniform(data: seq<byte>, e: Engine)
    requires e.Valid()
    requires ProcessAll(Sealer(e), Chunks(data, e.inputSize)).Some?
    ensures forall j :: 0 <= j < |ProcessAll(Sealer(e), Chunks(data, e.inputSize)).value| ==>
      |ProcessAll(Sealer(e), Chunks(data, e.inputSize)).value[j]| == e.outputSize
  {
    var cs := Chunks(data, e.inputSize);
    forall j | 0 <= j < |cs| ensures |ProcessAll(Sealer(e), cs).value[j]| == e.outputSize {
      SealBlockValue(e, cs[j]);
    }
  }

  /** Encrypt yields outputSize bytes per input block; no input, no output. */
  lemma EncryptLength(data: seq<byte>, e: Engine)
    requires e.Valid() && EncryptSpec(data, e).Some?
    ensures |EncryptSpec(data, e).value| == BlockCount(|data|, e.inputSize) * e.outputSize
    ensures |data| == 0 <==> EncryptSpec(data, e).value == []
  {
    var k := BlockCount(|data|, e.inputSize);
    var slots := ProcessAll(Sealer(e), Chunks(data, e.inputSize)).value;
    SlotsUniform(data, e);
    FlattenLength(slots);
    TotalLengthUniform(slots, e.outputSize);
    assert |EncryptSpec(data, e).value| == k * e.outputSize;
    if |data| > 0 {
      assert k > 0;
      MulMonotone(1, k, e.outputSize);
    } else {
      if k > 0 {
        MulMonotone(1, k, e.inputSize);
      }
      assert k == 0;
    }
  }

  lemma EncryptEmpty(e: Engine)
    requires e.Valid()
    ensures EncryptSpec([], e) == Some([])
  {
    assert Chunks([], e.inputSize) == [];
  }

  /** Block i of the input, processed and cut to outputSize bytes, fills the
      slot [i * outputSize, (i + 1) * outputSize) of Encrypt's output. */
  lemma EncryptSlot(data: seq<byte>, e: Engine, i: nat)
    requires e.Valid() && EncryptSpec(data, e).Some?
    requires i < BlockCount(|data|, e.inputSize)
    ensures e.processBlock(Chunk(data, e.inputSize, i)).Some?
    ensures |e.processBlock(Chunk(data, e.inputSize, i)).value| >= e.outputSize
    ensures var slot := i * e.outputSize;
      && 0 <= slot
      && slot + e.outputSize <= |EncryptSpec(data, e).value|
      && EncryptSpec(data, e).value[slot..slot + e.outputSize] ==
           e.processBlock(Chunk(data, e.inputSize, i)).value[..e.outputSize]
  {
    var cs := Chunks(data, e.inputSize);
    var slots := ProcessAll(Sealer(e), cs).value;
    SlotsUniform(data, e);
    FlattenUniformSlot(slots, e.outputSize, i);
    SlotFits(i, |slots|, e.outputSize);
    SealBlockValue(e, cs[i]);
  }

  /** Encrypt returns null exactly when some block fails to process or comes
      back shorter than outputSize. */
  lemma EncryptFails(data: seq<byte>, e: Engine)
    requires e.Valid()
    ensures EncryptSpec(data, e).None? <==>
      exists i :: 0 <= i < BlockCount(|data|, e.inputSize) &&
        (e.processBlock(Chunk(data, e.inputSize, i)).None? ||
         |e.processBlock(Chunk(data, e.inputSize, i)).value| < e.outputSize)
  {
    var cs := Chunks(data, e.inputSize);
    forall j | 0 <= j < |cs|
      ensures Sealer(e)(cs[j]).None? <==>
        (e.processBlock(Chunk(data, e.inputSize, j)).None? ||
         |e.processBlock(Chunk(data, e.inputSize, j)).value| < e.outputSize)
    {
      SealBlockValue(e, cs[j]);
    }
  }

  /** Decrypt returns null exactly when some block fails to process. */
  lemma DecryptFails(data: seq<byte>, e: Engine)
    requires e.Valid()
    ensures DecryptSpec(data, e).None? <==>
      exists i :: 0 <= i < BlockCount(|data|, e.inputSize) &&
        e.processBlock(Chunk(data, e.inputSize, i)).None?
  {
    var cs := Chunks(data, e.inputSize);
    assert forall j :: 0 <= j < |cs| ==> cs[j] == Chunk(data, e.inputSize, j);
  }

  /** Decrypt's output has totalBlockSize bytes, the sum of the processed
      block lengths, and block i sits at the offset j the copy loop reaches. */
  lemma DecryptLayout(data: seq<byte>, e: Engine, i: nat)
    requires e.Valid() && DecryptSpec(data, e).Some?
    requires i < BlockCount(|data|, e.inputSize)
    ensures e.processBlock(Chunk(data, e.inputSize, i)).Some?
    ensures var blocks := ProcessAll(e.processBlock, Chunks(data, e.inputSize)).value;
      && |DecryptSpec(data, e).value| == TotalLength(blocks)
      && blocks[i] == e.processBlock(Chunk(data, e.inputSize, i)).value
      && TotalLength(blocks[..i]) + |blocks[i]| <= |DecryptSpec(data, e).value|
      && DecryptSpec(data, e).value[TotalLength(blocks[..i])..TotalLength(blocks[..i]) + |blocks[i]|] == blocks[i]
  {
    var blocks := ProcessAll(e.processBlock, Chunks(data, e.inputSize)).value;
    FlattenLength(blocks);
    FlattenOffset(blocks, i);
  }

  /** The decrypt engine undoes the encrypt engine block by block: it reads
      the encrypt engine's output blocks, and every block a sealed chunk
      becomes decrypts back to the chunk. */
  ghost predicate Inverts(enc: Engine, dec: Engine)
  {
    && dec.inputSize == enc.outputSize
    && forall b :: 0 < |b| <= enc.inputSize && SealBlock(enc, b).Some? ==>
         dec.processBlock(SealBlock(enc, b).value) == Some(b)
  }

  /** Decrypt(Encrypt(d)) == d, as ABPRSA.SelfTest checks, whenever Encrypt
      succeeds and the engines invert each other block by block. */
  lemma RoundTrip(data: seq<byte>, enc: Engine, dec: Engine)
    requires enc.Valid() && dec.Valid() && Inverts(enc, dec)
    requires EncryptSpec(data, enc).Some?
    ensures DecryptSpec(EncryptSpec(data, enc).value, dec) == Some(data)
  {
    var cs := Chunks(data, enc.inputSize);
    var slots := ProcessAll(Sealer(enc), cs).value;
    var c := Flatten(slots);
    SlotsUniform(data, enc);
    ChunksOfUniform(slots, enc.outputSize);
    forall j | 0 <= j < |slots|
      ensures dec.processBlock(slots[j]) == Some(cs[j])
    {
      ChunkSize(data, enc.inputSize, j);
      assert slots[j] == SealBlock(enc, cs[j]).value;
    }
    var back := ProcessAll(dec.processBlock, slots);
    assert back.value == cs;
    ChunksPartition(data, enc.inputSize);
  }

  /** A non-empty payload that fits in one input block becomes exactly one
      output block. */
  lemma SingleBlock(data: seq<byte>, e: Engine)
    requires e.Valid() && 0 < |data| <= e.inputSize
    ensures EncryptSpec(data, e) == SealBlock(e, data)
  {
    assert BlockCount(|data|, e.inputSize) == 1;
    assert Chunk(data, e.inputSize, 0) == data;
    var cs := Chunks(data, e.inputSize);
    assert cs == [data];
    assert [data][..0] == [] && [data][..1] == [data];
    ProcessAllStep(Sealer(e), [data], 0, []);
    assert Sealer(e)(data) == SealBlock(e, data);
    match SealBlock(e, data)
    case None =>
    case Some(v) =>
      FlattenSnoc([], v);
      assert [] + [v] == [v];
      assert ProcessAll(Sealer(e), cs) == Some([v]);
      assert Flatten([v]) == v;
  }
}
