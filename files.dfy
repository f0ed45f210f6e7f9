/** What a file of the image is: the blocks its dinode points to, directly
    or through its indirect block, and the bytes those blocks hold
    (mkfs/mkfs.c:344-388 builds files this way). These functions read an
    image snapshot, a sequence of blocks, and specify the builder's
    methods. */
module FileMap {
  import opened ByteOrder
  import opened Layout
  import opened DiskFormat

  /** The image: block b is img[b]. */
  type Image = seq<seq<byte>>

  /** The image has FSSIZE blocks of BSIZE bytes each. */
  ghost predicate Blocks(p: Params, img: Image) {
    |img| == p.fssize && forall b :: 0 <= b < |img| ==> |img[b]| == p.bsize
  }

  /** Every block from f on is still zero: nothing past the allocation
      counter has been written. */
  ghost predicate ZerosFrom(p: Params, img: Image, f: nat) {
    forall b :: f <= b < |img| ==> img[b] == Zeros(p.bsize)
  }

  /** A zeroed dinode (bzero of struct dinode). */
  function EmptyDinode(p: Params): (d: Dinode)
    ensures Shaped(p, d)
  {
    Dinode(0, 0, 0, 0, 0, seq(p.ndirect + 1, _ => 0))
  }

  /** Dinode inum as rinode reads it from img (mkfs/mkfs.c:271-281); an
      empty dinode when its block lies beyond the image. */
  function InodeAt(p: Params, img: Image, inum: nat): (d: Dinode)
    requires p.Valid()
    ensures Shaped(p, d)
  {
    var b := IBlock(p, inum);
    if b < |img| && |img[b]| == p.bsize then SlotInode(p, img[b], inum % p.ipb) else EmptyDinode(p)
  }

  /** The block number of the indirect block, 0 when there is none. */
  function IndBlock(p: Params, d: Dinode): nat
    requires Shaped(p, d)
  {
    Xint(p.host, d.addrs[p.ndirect])
  }

  /** The block holding file block k of d, 0 for a hole: a direct pointer
      for k < NDIRECT, otherwise entry k - NDIRECT of the indirect block
      (mkfs/mkfs.c:351-373). */
  function BlockOf(p: Params, img: Image, d: Dinode, k: nat): nat
    requires p.FileShape() && Shaped(p, d) && k < p.maxfile
  {
    if k < p.ndirect then Xint(p.host, d.addrs[k])
    else
      var ia := IndBlock(p, d);
      if ia == 0 || ia >= |img| || |img[ia]| != p.bsize then 0
      else Xint(p.host, Entry(p.host, img[ia], k - p.ndirect))
  }

  /** Byte i of file block k of d, 0 in a hole. */
  function ByteAt(p: Params, img: Image, d: Dinode, k: nat, i: nat): byte
    requires p.FileShape() && Shaped(p, d) && k < p.maxfile && i < p.bsize
  {
    var b := BlockOf(p, img, d, k);
    if b == 0 || b >= |img| || |img[b]| != p.bsize then 0 else img[b][i]
  }

  /** o / m, by repeated subtraction (QuotRem shows the two agree). */
  function Quot(o: nat, m: nat): nat
    requires m > 0
    decreases o
  {
    if o < m then 0 else 1 + Quot(o - m, m)
  }

  /** o % m, by repeated subtraction. */
  function Rem(o: nat, m: nat): (r: nat)
    requires m > 0
    ensures r < m
    decreases o
  {
    if o < m then o else Rem(o - m, m)
  }

  lemma {:induction false} QuotRem(o: nat, m: nat)
    requires m > 0
    ensures Quot(o, m) == o / m && Rem(o, m) == o % m
    decreases o
  {
    if o >= m {
      QuotRem(o - m, m);
      DivBounds(o - m, m);
      InBlock(o, m, (o - m) / m + 1);
    } else {
      InBlock(o, m, 0);
    }
  }

  /** Byte o of the file d: byte o % BSIZE of its block o / BSIZE, 0 past
      MAXFILE blocks. */
  function FileByte(p: Params, img: Image, d: Dinode, o: nat): byte
    requires p.FileShape() && Shaped(p, d)
  {
    if Quot(o, p.bsize) >= p.maxfile then 0 else ByteAt(p, img, d, Quot(o, p.bsize), Rem(o, p.bsize))
  }

  /** FileByte in terms of / and %. */
  lemma FileByteAt(p: Params, img: Image, d: Dinode, o: nat)
    requires p.FileShape() && Shaped(p, d)
    ensures 0 <= o / p.bsize && 0 <= o % p.bsize < p.bsize
    ensures FileByte(p, img, d, o) ==
              if o / p.bsize >= p.maxfile then 0 else ByteAt(p, img, d, o / p.bsize, o % p.bsize)
  {
    QuotRem(o, p.bsize);
  }

  /** The contents of file d: its first size bytes. */
  function Contents(p: Params, img: Image, d: Dinode): (c: seq<byte>)
    requires p.FileShape() && Shaped(p, d)
    ensures |c| == Xint(p.host, d.size)
    ensures forall o :: 0 <= o < |c| ==> c[o] == FileByte(p, img, d, o)
  {
    seq(Xint(p.host, d.size), o requires 0 <= o => FileByte(p, img, d, o))
  }

  /** The blocks of d were taken from the allocation counter before it
      reached f: they are data blocks below f, no two file blocks share
      one, and none is the indirect block. */
  ghost predicate FileWF(p: Params, img: Image, d: Dinode, f: nat)
    requires p.Positive() && p.FileShape() && Shaped(p, d)
  {
    && (IndBlock(p, d) == 0 || p.NMeta() <= IndBlock(p, d) < f)
    && (forall k :: 0 <= k < p.maxfile ==>
          BlockOf(p, img, d, k) == 0 || p.NMeta() <= BlockOf(p, img, d, k) < f)
    && (forall k :: 0 <= k < p.maxfile && BlockOf(p, img, d, k) != 0 ==>
          BlockOf(p, img, d, k) != IndBlock(p, d))
    && (forall k, k2 :: 0 <= k < p.maxfile && 0 <= k2 < p.maxfile && k != k2 && BlockOf(p, img, d, k) != 0 ==>
          BlockOf(p, img, d, k) != BlockOf(p, img, d, k2))
  }

  /** Block b belongs to file d. */
  ghost predicate Owned(p: Params, img: Image, d: Dinode, b: nat)
    requires p.FileShape() && Shaped(p, d)
  {
    b != 0 && (b == IndBlock(p, d) || exists k :: 0 <= k < p.maxfile && BlockOf(p, img, d, k) == b)
  }

  // -----------------------------------------------------------------------
  // From bytes of blocks to bytes of the file.

  lemma ModBelow(o: nat, m: nat)
    requires m > 0
    ensures 0 <= o / m && 0 <= o % m < m
  {
  }

  /** Two files whose blocks hold the same bytes hold the same bytes. */
  lemma SameBytes(p: Params, img: Image, d: Dinode, img': Image, d': Dinode)
    requires p.FileShape() && Shaped(p, d) && Shaped(p, d')
    requires forall j: nat, i: nat :: j < p.maxfile && i < p.bsize ==> ByteAt(p, img', d', j, i) == ByteAt(p, img, d, j, i)
    ensures forall o: nat :: FileByte(p, img', d', o) == FileByte(p, img, d, o)
  {
    forall o: nat ensures FileByte(p, img', d', o) == FileByte(p, img, d, o) {
      var j, i := o / p.bsize, o % p.bsize;
      FileByteAt(p, img, d, o);
      FileByteAt(p, img', d', o);
      if j < p.maxfile {
        assert ByteAt(p, img', d', j, i) == ByteAt(p, img, d, j, i);
      }
    }
  }

  /** Two dinodes with the same block pointers name the same blocks and
      bytes: the size field only bounds what is read. */
  lemma SameAddrs(p: Params, img: Image, d: Dinode, d': Dinode, f: nat)
    requires p.Positive() && p.FileShape() && Shaped(p, d) && d'.addrs == d.addrs
    ensures Shaped(p, d') && IndBlock(p, d') == IndBlock(p, d)
    ensures forall k :: 0 <= k < p.maxfile ==> BlockOf(p, img, d', k) == BlockOf(p, img, d, k)
    ensures FileWF(p, img, d', f) == FileWF(p, img, d, f)
    ensures forall o: nat :: FileByte(p, img, d', o) == FileByte(p, img, d, o)
    ensures forall c: nat :: Owned(p, img, d', c) == Owned(p, img, d, c)
  {
    forall j: nat, i: nat | j < p.maxfile && i < p.bsize ensures ByteAt(p, img, d', j, i) == ByteAt(p, img, d, j, i) {
    }
    SameBytes(p, img, d, img, d');
  }

  /** Files of one size whose bytes agree have the same contents. */
  lemma SameContents(p: Params, img: Image, d: Dinode, img': Image, d': Dinode)
    requires p.FileShape() && Shaped(p, d) && Shaped(p, d') && d'.size == d.size
    requires forall o: nat :: FileByte(p, img', d', o) == FileByte(p, img, d, o)
    ensures Contents(p, img', d') == Contents(p, img, d)
  {
  }

  /** A file whose block k changed at offsets s .. s+|chunk| changed at
      the file bytes that lie there. */
  lemma ChangedBytes(p: Params, img: Image, d: Dinode, img': Image, k: nat, s: nat, chunk: seq<byte>)
    requires p.FileShape() && Shaped(p, d) && k < p.maxfile
    requires forall j: nat, i: nat :: j < p.maxfile && i < p.bsize ==>
      ByteAt(p, img', d, j, i) == if j == k && s <= i < s + |chunk| then chunk[i - s] else ByteAt(p, img, d, j, i)
    ensures forall o: nat :: FileByte(p, img', d, o) ==
                            (if o / p.bsize == k && s <= o % p.bsize < s + |chunk| then chunk[o % p.bsize - s] else FileByte(p, img, d, o))
  {
    forall o: nat ensures FileByte(p, img', d, o) ==
      if o / p.bsize == k && s <= o % p.bsize < s + |chunk| then chunk[o % p.bsize - s] else FileByte(p, img, d, o)
    {
      var j, i := o / p.bsize, o % p.bsize;
      FileByteAt(p, img, d, o);
      FileByteAt(p, img', d, o);
      if j < p.maxfile {
        assert ByteAt(p, img', d, j, i) == if j == k && s <= i < s + |chunk| then chunk[i - s] else ByteAt(p, img, d, j, i);
      }
    }
  }

  // -----------------------------------------------------------------------
  // One step of iappend, as four lemmas.

  /** A direct pointer that is zero takes the block f (mkfs/mkfs.c:353-356):
      file block k is now f, the others stay, and the file is well formed
      below f + 1. */
  lemma AllocDirect(p: Params, img: Image, d: Dinode, f: nat, k: nat)
    requires p.Positive() && p.FileShape() && Blocks(p, img) && Shaped(p, d)
    requires FileWF(p, img, d, f) && p.NMeta() <= f <= p.fssize < 0x1_0000_0000
    requires k < p.ndirect && k < p.maxfile && BlockOf(p, img, d, k) == 0
    ensures var d' := d.(addrs := d.addrs[k := Xint(p.host, f)]);
      && Shaped(p, d') && IndBlock(p, d') == IndBlock(p, d)
      && (forall j :: 0 <= j < p.maxfile ==> BlockOf(p, img, d', j) == if j == k then f else BlockOf(p, img, d, j))
      && FileWF(p, img, d', f + 1)
  {
    XintInvolutive(p.host, f);
  }

  /** ... and no byte of the file changes, since f is still zero. */
  lemma AllocDirectKeepsBytes(p: Params, img: Image, d: Dinode, f: nat, k: nat)
    requires p.FileShape() && Blocks(p, img) && Shaped(p, d)
    requires ZerosFrom(p, img, f) && f <= p.fssize < 0x1_0000_0000
    requires k < p.ndirect && k < p.maxfile && BlockOf(p, img, d, k) == 0
    ensures forall o: nat :: FileByte(p, img, d.(addrs := d.addrs[k := Xint(p.host, f)]), o) == FileByte(p, img, d, o)
  {
    var d' := d.(addrs := d.addrs[k := Xint(p.host, f)]);
    XintInvolutive(p.host, f);
    forall j: nat, i: nat | j < p.maxfile && i < p.bsize
      ensures ByteAt(p, img, d', j, i) == ByteAt(p, img, d, j, i)
    {
      if j == k && f < |img| {
        assert img[f] == Zeros(p.bsize);
      }
    }
    SameBytes(p, img, d, img, d');
  }

  /** An indirect pointer that is zero takes the block f
      (mkfs/mkfs.c:361-364): every entry of the zero block f is null, so
      the file's blocks stay as they were. */
  lemma AllocIndirect(p: Params, img: Image, d: Dinode, f: nat)
    requires p.Positive() && p.FileShape() && Blocks(p, img) && Shaped(p, d)
    requires FileWF(p, img, d, f) && ZerosFrom(p, img, f) && p.NMeta() <= f <= p.fssize < 0x1_0000_0000
    requires IndBlock(p, d) == 0
    ensures var d' := d.(addrs := d.addrs[p.ndirect := Xint(p.host, f)]);
      && Shaped(p, d') && IndBlock(p, d') == f
      && (forall j :: 0 <= j < p.maxfile ==> BlockOf(p, img, d', j) == BlockOf(p, img, d, j))
      && FileWF(p, img, d', f + 1)
  {
    var d' := d.(addrs := d.addrs[p.ndirect := Xint(p.host, f)]);
    XintInvolutive(p.host, f);
    forall j | 0 <= j < p.maxfile ensures BlockOf(p, img, d', j) == BlockOf(p, img, d, j) {
      if j >= p.ndirect && f < |img| {
        assert img[f] == Zeros(p.bsize);
        EntryOfZeros(p.host, p.bsize, j - p.ndirect);
        XintZero(p.host, 0);
      }
    }
  }

  /** ... and so its bytes stay as they were too. */
  lemma AllocIndirectKeepsBytes(p: Params, img: Image, d: Dinode, d': Dinode)
    requires p.FileShape() && Shaped(p, d) && Shaped(p, d')
    requires forall j :: 0 <= j < p.maxfile ==> BlockOf(p, img, d', j) == BlockOf(p, img, d, j)
    ensures forall o: nat :: FileByte(p, img, d', o) == FileByte(p, img, d, o)
  {
    forall j: nat, i: nat | j < p.maxfile && i < p.bsize
      ensures ByteAt(p, img, d', j, i) == ByteAt(p, img, d, j, i)
    {
    }
    SameBytes(p, img, d, img, d');
  }

  /** The indirect block with entry k - NDIRECT set to block f. */
  function WithEntry(p: Params, img: Image, d: Dinode, k: nat, f: nat): (img': Image)
    requires p.FileShape() && Shaped(p, d) && IndBlock(p, d) < |img| && |img[IndBlock(p, d)]| == p.bsize
    requires p.ndirect <= k < p.maxfile && f < 0x1_0000_0000
    ensures |img'| == |img|
    ensures img'[IndBlock(p, d)] == SetEntry(p.host, img[IndBlock(p, d)], k - p.ndirect, Xint(p.host, f))
    ensures forall b :: 0 <= b < |img| && b != IndBlock(p, d) ==> img'[b] == img[b]
  {
    var ia := IndBlock(p, d);
    img[ia := SetEntry(p.host, img[ia], k - p.ndirect, Xint(p.host, f))]
  }

  /** A null entry of the indirect block takes the block f
      (mkfs/mkfs.c:366-370): file block k is now f, the others stay, and
      only the indirect block is written. */
  lemma SetIndirect(p: Params, img: Image, d: Dinode, f: nat, k: nat)
    requires p.Positive() && p.FileShape() && Blocks(p, img) && Shaped(p, d)
    requires FileWF(p, img, d, f) && ZerosFrom(p, img, f) && p.NMeta() <= f <= p.fssize < 0x1_0000_0000
    requires IndBlock(p, d) != 0 && IndBlock(p, d) < |img|
    requires p.ndirect <= k < p.maxfile && BlockOf(p, img, d, k) == 0
    ensures var img' := WithEntry(p, img, d, k, f);
      && Blocks(p, img') && ZerosFrom(p, img', f)
      && (forall j :: 0 <= j < p.maxfile ==> BlockOf(p, img', d, j) == if j == k then f else BlockOf(p, img, d, j))
      && FileWF(p, img', d, f + 1)
  {
    var img' := WithEntry(p, img, d, k, f);
    EntrySetMaps(p, img, d, k, f);
    TakeBlock(p, img, d, img', d, f, k);
  }

  /** Setting entry k - NDIRECT of the indirect block to f maps file
      block k to f and leaves the other file blocks where they were. */
  lemma EntrySetMaps(p: Params, img: Image, d: Dinode, k: nat, f: nat)
    requires p.FileShape() && Shaped(p, d) && IndBlock(p, d) != 0 && IndBlock(p, d) < |img|
    requires |img[IndBlock(p, d)]| == p.bsize && p.ndirect <= k < p.maxfile && f < 0x1_0000_0000
    ensures forall j :: 0 <= j < p.maxfile ==>
      BlockOf(p, WithEntry(p, img, d, k, f), d, j) == if j == k then f else BlockOf(p, img, d, j)
  {
    forall j | 0 <= j < p.maxfile
      ensures BlockOf(p, WithEntry(p, img, d, k, f), d, j) == if j == k then f else BlockOf(p, img, d, j)
    {
      EntrySetMapsAt(p, img, d, k, f, j);
    }
  }

  lemma EntrySetMapsAt(p: Params, img: Image, d: Dinode, k: nat, f: nat, j: nat)
    requires p.FileShape() && Shaped(p, d) && IndBlock(p, d) != 0 && IndBlock(p, d) < |img|
    requires |img[IndBlock(p, d)]| == p.bsize && p.ndirect <= k < p.maxfile && f < 0x1_0000_0000
    requires j < p.maxfile
    ensures BlockOf(p, WithEntry(p, img, d, k, f), d, j) == if j == k then f else BlockOf(p, img, d, j)
  {
    if j >= p.ndirect {
      var ia := IndBlock(p, d);
      XintInvolutive(p.host, f);
      EntryAfterSet(p.host, img[ia], k - p.ndirect, Xint(p.host, f), j - p.ndirect);
    }
  }

  /** A file whose null block k becomes the fresh block f, the other
      blocks staying, is still well formed with f taken. */
  lemma TakeBlock(p: Params, img: Image, d: Dinode, img': Image, d': Dinode, f: nat, k: nat)
    requires p.Positive() && p.FileShape() && Shaped(p, d) && Shaped(p, d')
    requires FileWF(p, img, d, f) && p.NMeta() <= f && IndBlock(p, d') == IndBlock(p, d)
    requires k < p.maxfile && BlockOf(p, img, d, k) == 0
    requires forall j :: 0 <= j < p.maxfile ==> BlockOf(p, img', d', j) == if j == k then f else BlockOf(p, img, d, j)
    ensures FileWF(p, img', d', f + 1)
  {
  }

  /** ... and no byte of the file changes, since f is still zero. */
  lemma SetIndirectKeepsBytes(p: Params, img: Image, d: Dinode, img': Image, f: nat, k: nat)
    requires p.FileShape() && Blocks(p, img) && Shaped(p, d)
    requires ZerosFrom(p, img, f) && |img'| == |img|
    requires forall b :: 0 <= b < |img| && b != IndBlock(p, d) ==> img'[b] == img[b]
    requires k < p.maxfile && BlockOf(p, img, d, k) == 0
    requires forall j :: 0 <= j < p.maxfile ==> BlockOf(p, img', d, j) == if j == k then f else BlockOf(p, img, d, j)
    requires forall j :: 0 <= j < p.maxfile && BlockOf(p, img, d, j) != 0 ==> BlockOf(p, img, d, j) != IndBlock(p, d)
    requires f != IndBlock(p, d)
    ensures forall o: nat :: FileByte(p, img', d, o) == FileByte(p, img, d, o)
  {
    forall j: nat, i: nat | j < p.maxfile && i < p.bsize
      ensures ByteAt(p, img', d, j, i) == ByteAt(p, img, d, j, i)
    {
      if j == k && f < |img| {
        assert img'[f] == img[f] == Zeros(p.bsize);
      }
    }
    SameBytes(p, img, d, img', d);
  }

  /** blk with chunk copied over its bytes from s on (bcopy into the
      sector buffer, mkfs/mkfs.c:379). */
  function Splice(blk: seq<byte>, s: nat, chunk: seq<byte>): (r: seq<byte>)
    requires s + |chunk| <= |blk|
    ensures |r| == |blk|
  {
    blk[..s] + chunk + blk[s + |chunk|..]
  }

  /** Block x with chunk copied in at offset s (bcopy, mkfs/mkfs.c:377-379). */
  function WithChunk(img: Image, x: nat, s: nat, chunk: seq<byte>): (img': Image)
    requires x < |img| && s + |chunk| <= |img[x]|
    ensures |img'| == |img| && |img'[x]| == |img[x]|
    ensures forall i :: 0 <= i < |img[x]| ==> img'[x][i] == if s <= i < s + |chunk| then chunk[i - s] else img[x][i]
    ensures forall b :: 0 <= b < |img| && b != x ==> img'[b] == img[b]
  {
    img[x := Splice(img[x], s, chunk)]
  }

  /** Copying chunk into file block k leaves the file's blocks and its
      well-formedness as they were. */
  lemma WriteData(p: Params, img: Image, d: Dinode, f: nat, k: nat, s: nat, chunk: seq<byte>)
    requires p.Positive() && p.FileShape() && Blocks(p, img) && Shaped(p, d) && FileWF(p, img, d, f)
    requires k < p.maxfile && BlockOf(p, img, d, k) != 0 && BlockOf(p, img, d, k) < |img|
    requires s + |chunk| <= p.bsize
    ensures var img' := WithChunk(img, BlockOf(p, img, d, k), s, chunk);
      && Blocks(p, img')
      && (forall j :: 0 <= j < p.maxfile ==> BlockOf(p, img', d, j) == BlockOf(p, img, d, j))
      && FileWF(p, img', d, f)
  {
    var x := BlockOf(p, img, d, k);
    var img' := WithChunk(img, x, s, chunk);
    forall j | 0 <= j < p.maxfile ensures BlockOf(p, img', d, j) == BlockOf(p, img, d, j) {
    }
  }

  /** ... and changes exactly the file bytes that lie in block k at
      offsets s .. s + |chunk|. */
  lemma WriteDataBytes(p: Params, img: Image, d: Dinode, img': Image, k: nat, s: nat, chunk: seq<byte>)
    requires p.FileShape() && Blocks(p, img) && Shaped(p, d)
    requires k < p.maxfile && BlockOf(p, img, d, k) != 0 && BlockOf(p, img, d, k) < |img|
    requires s + |chunk| <= p.bsize
    requires img' == WithChunk(img, BlockOf(p, img, d, k), s, chunk)
    requires forall j :: 0 <= j < p.maxfile ==> BlockOf(p, img', d, j) == BlockOf(p, img, d, j)
    requires forall j, j2 :: 0 <= j < p.maxfile && 0 <= j2 < p.maxfile && j != j2 && BlockOf(p, img, d, j) != 0 ==>
          BlockOf(p, img, d, j) != BlockOf(p, img, d, j2)
    ensures forall o: nat :: FileByte(p, img', d, o) ==
                            (if o / p.bsize == k && s <= o % p.bsize < s + |chunk| then chunk[o % p.bsize - s] else FileByte(p, img, d, o))
  {
    forall j: nat, i: nat | j < p.maxfile && i < p.bsize
      ensures ByteAt(p, img', d, j, i) == if j == k && s <= i < s + |chunk| then chunk[i - s] else ByteAt(p, img, d, j, i)
    {
    }
    ChangedBytes(p, img, d, img', k, s, chunk);
  }
}
