/** Byte arrays, their concatenation, and Array.Copy. */
module Bytes {

  /** A C# byte. */
  newtype byte = x: int | 0 <= x < 0x100

  function Min(a: int, b: int): int
  {
    if a <= b then a else b
  }

  /** The in-order concatenation of a list of byte arrays. */
  function Flatten(bs: seq<seq<byte>>): seq<byte>
  {
    if bs == [] then [] else Flatten(bs[..|bs| - 1]) + bs[|bs| - 1]
  }

  /** The sum of the lengths of a list of byte arrays. */
  function TotalLength(bs: seq<seq<byte>>): nat
  {
    if bs == [] then 0 else TotalLength(bs[..|bs| - 1]) + |bs[|bs| - 1]|
  }

  lemma {:induction false} FlattenLength(bs: seq<seq<byte>>)
    ensures |Flatten(bs)| == TotalLength(bs)
  {
    if bs != [] {
      FlattenLength(bs[..|bs| - 1]);
    }
  }

  /** Appending one array to the list appends it to the concatenation. */
  lemma FlattenSnoc(bs: seq<seq<byte>>, b: seq<byte>)
    ensures Flatten(bs + [b]) == Flatten(bs) + b
    ensures TotalLength(bs + [b]) == TotalLength(bs) + |b|
  {
    assert (bs + [b])[..|bs|] == bs;
  }

  /** The concatenation of a prefix of the list is a prefix of the concatenation. */
  lemma {:induction false} FlattenPrefix(bs: seq<seq<byte>>, i: nat)
    requires i <= |bs|
    ensures TotalLength(bs[..i]) <= TotalLength(bs)
    ensures |Flatten(bs[..i])| <= |Flatten(bs)|
    ensures Flatten(bs)[..|Flatten(bs[..i])|] == Flatten(bs[..i])
  {
    FlattenLength(bs[..i]);
    FlattenLength(bs);
    if i < |bs| {
      var front := bs[..|bs| - 1];
      assert front[..i] == bs[..i];
      FlattenPrefix(front, i);
      FlattenLength(front);
    } else {
      assert bs[..i] == bs;
    }
  }

  /** One more array of the list, as the copy loop takes it. */
  lemma ConcatStep(bs: seq<seq<byte>>, i: nat)
    requires i < |bs|
    ensures TotalLength(bs[..i]) + |bs[i]| <= TotalLength(bs)
    ensures TotalLength(bs[..i + 1]) == TotalLength(bs[..i]) + |bs[i]|
    ensures Flatten(bs[..i + 1]) == Flatten(bs[..i]) + bs[i]
  {
    assert bs[..i + 1] == bs[..i] + [bs[i]];
    FlattenSnoc(bs[..i], bs[i]);
    FlattenPrefix(bs, i + 1);
  }

  /** Array i of the list sits in the concatenation at offset TotalLength(bs[..i]). */
  lemma FlattenOffset(bs: seq<seq<byte>>, i: nat)
    requires i < |bs|
    ensures TotalLength(bs[..i]) + |bs[i]| <= |Flatten(bs)|
    ensures Flatten(bs)[TotalLength(bs[..i])..TotalLength(bs[..i]) + |bs[i]|] == bs[i]
  {
    assert bs[..i + 1] == bs[..i] + [bs[i]];
    FlattenSnoc(bs[..i], bs[i]);
    FlattenLength(bs[..i]);
    FlattenPrefix(bs, i + 1);
  }

  /** When every array has length w, the total length is |bs| * w. */
  lemma {:induction false} TotalLengthUniform(bs: seq<seq<byte>>, w: nat)
    requires forall j :: 0 <= j < |bs| ==> |bs[j]| == w
    ensures TotalLength(bs) == |bs| * w
  {
    if bs != [] {
      TotalLengthUniform(bs[..|bs| - 1], w);
    }
  }

  /** When every array has length w, array i fills bytes [i * w, i * w + w). */
  lemma FlattenUniformSlot(bs: seq<seq<byte>>, w: nat, i: nat)
    requires forall j :: 0 <= j < |bs| ==> |bs[j]| == w
    requires i < |bs|
    ensures |Flatten(bs)| == |bs| * w
    ensures 0 <= i * w && i * w + w <= |Flatten(bs)|
    ensures Flatten(bs)[i * w..i * w + w] == bs[i]
  {
    var front := bs[..i];
    assert forall j :: 0 <= j < |front| ==> |front[j]| == w by {
      forall j | 0 <= j < |front| ensures |front[j]| == w {
        assert front[j] == bs[j];
      }
    }
    FlattenLength(bs);
    TotalLengthUniform(bs, w);
    TotalLengthUniform(front, w);
    FlattenOffset(bs, i);
  }

  /** After copying src to offset pos, the bytes up to the end of the copy are
      the old prefix followed by src. */
  lemma CopiedPrefix(before: seq<byte>, after: seq<byte>, pos: nat, src: seq<byte>)
    requires |after| == |before| && pos + |src| <= |after|
    requires after[..pos] == before[..pos] && after[pos..pos + |src|] == src
    ensures after[..pos + |src|] == before[..pos] + src
  {
    assert after[..pos + |src|] == after[..pos] + after[pos..pos + |src|];
  }

  /** Copying slot i of width w after the i slots already written extends
      the written prefix by that slot. */
  lemma SlotWritten(before: seq<byte>, after: seq<byte>, i: nat, w: nat, count: nat,
                    slots: seq<seq<byte>>, slot: seq<byte>)
    requires |slot| == w && 0 <= i * w && i * w + w <= |after| && (i + 1) * w == i * w + w
    requires |after| == |before| && before[..i * w] == Flatten(slots)
    requires after[..i * w] == before[..i * w] && after[i * w..i * w + w] == slot
    ensures after[..(i + 1) * w] == Flatten(slots + [slot])
  {
    CopiedPrefix(before, after, i * w, slot);
    FlattenSnoc(slots, slot);
  }

  /** Array.Copy(src, srcPos, dst, dstPos, len) where src is not dst. Every
      caller in this model checks the bounds Array.Copy would throw on. */
  method ArrayCopy(src: seq<byte>, srcPos: nat, dst: array<byte>, dstPos: nat, len: nat)
    requires srcPos + len <= |src| && dstPos + len <= dst.Length
    modifies dst
    ensures dst[..dstPos] == old(dst[..dstPos])
    ensures dst[dstPos..dstPos + len] == src[srcPos..srcPos + len]
    ensures dst[dstPos + len..] == old(dst[dstPos + len..])
  {
    var k := 0;
    while k < len
      invariant 0 <= k <= len
      invariant forall m :: 0 <= m < dst.Length && !(dstPos <= m < dstPos + k) ==> dst[m] == old(dst[m])
      invariant forall m :: dstPos <= m < dstPos + k ==> dst[m] == src[srcPos + m - dstPos]
    {
      dst[dstPos + k] := src[srcPos + k];
      k := k + 1;
    }
  }

  /** The UTF-8 encoding of "Testing Testing 123!!!", the self-tests' payload. */
  const TestInput: seq<byte> :=
    [84, 101, 115, 116, 105, 110, 103, 32,
     84, 101, 115, 116, 105, 110, 103, 32,
     49, 50, 51, 33, 33, 33]
}
