/** The free-block bitmap block balloc fills (mkfs/mkfs.c:314-330): bit
    i % 8 of byte i / 8 is set for every block i < used, that is for the
    blocks handed out so far. */
module Bitmap {
  import opened ByteOrder
  import opened DiskFormat

  /** 2^k grows with k. */
  lemma {:induction false} Pow2Below(k: nat, n: nat)
    requires k < n
    ensures Pow2(k) < Pow2(n)
    decreases n
  {
    if k + 1 < n {
      Pow2Below(k, n - 1);
    }
  }

  /** Setting bit i % 8 of byte i / 8 of a block that marks the blocks
      below i marks the blocks below i + 1, and the byte stays a byte. */
  lemma MarkNext(a: seq<byte>, i: nat)
    requires i < 8 * |a| && MarksFirst(a, i)
    ensures Or(a[i / 8], Pow2(i % 8)) < 0x100
    ensures MarksFirst(a[i / 8 := Or(a[i / 8], Pow2(i % 8))], i + 1)
  {
    assert Pow2(8) == 0x100 by {
      assert Pow2(4) == 16;
    }
    Pow2Below(i % 8, 8);
    OrBound(a[i / 8], Pow2(i % 8), 8);
    var b := a[i / 8 := Or(a[i / 8], Pow2(i % 8))];
    forall j, k | 0 <= j < |b| && 0 <= k < 8 ensures Bit(b[j], k) <==> 8 * j + k < i + 1 {
      if j == i / 8 {
        BitOr(a[j], Pow2(i % 8), k);
        BitOfPow2(i % 8, k);
      }
    }
  }

  /** A zeroed block marks no block. */
  lemma ZerosMarkNothing(a: seq<byte>)
    requires forall j :: 0 <= j < |a| ==> a[j] == 0
    ensures MarksFirst(a, 0)
  {
    forall j, k | 0 <= j < |a| && 0 <= k < 8 ensures !Bit(a[j], k) {
      ZeroHasNoBits(k);
    }
  }

  /** The buffer of balloc: bzero, then for i < used, bit i % 8 of byte
      i / 8 is or-ed in (mkfs/mkfs.c:321-326). The loop touches only the
      bytes before used / 8 + 1, which the assert used < BPB keeps inside
      the block. */
  method BitmapBlock(bsize: nat, used: nat) returns (blk: seq<byte>)
    requires used <= 8 * bsize
    ensures |blk| == bsize && MarksFirst(blk, used)
  {
    var buf := new byte[bsize](_ => 0);
    ZerosMarkNothing(buf[..]);
    var i := 0;
    while i < used
      invariant 0 <= i <= used
      invariant MarksFirst(buf[..], i)
    {
      MarkNext(buf[..], i);
      buf[i / 8] := Or(buf[i / 8], Pow2(i % 8));
      i := i + 1;
    }
    blk := buf[..];
  }
}
