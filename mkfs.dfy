/** The image builder's state and its operations on it: the image file as
    an array of FSSIZE blocks, and the two allocation counters freeinode
    and freeblock (mkfs/mkfs.c:72-76, 239-388). */
module Mkfs {
  import opened ByteOrder
  import opened Layout
  import opened DiskFormat
  import opened FileMap
  import opened Bitmap

  // -----------------------------------------------------------------------
  // The invariant the builder keeps between its steps.

  /** No block belongs to two of the inodes 1 .. n-1. */
  ghost predicate Disjoint(p: Params, img: Image, n: nat)
    requires p.Valid()
  {
    forall i, j, b: nat :: 1 <= i < n && 1 <= j < n && i != j && Owned(p, img, InodeAt(p, img, i), b) ==>
      !Owned(p, img, InodeAt(p, img, j), b)
  }

  /** The image with inodes 1 .. freeinode-1 allocated and blocks below
      freeblock handed out: every allocated file is well formed, no two
      files share a block, and nothing from freeblock on was written. */
  ghost predicate Consistent(p: Params, img: Image, freeinode: nat, freeblock: nat)
    requires p.Valid()
  {
    && Blocks(p, img)
    && 1 <= freeinode <= NINODES
    && p.NMeta() <= freeblock <= p.fssize
    && ZerosFrom(p, img, freeblock)
    && (forall i :: 1 <= i < freeinode ==> FileWF(p, img, InodeAt(p, img, i), freeblock))
    && Disjoint(p, img, freeinode)
  }

  /** The boot block, the superblock, the log and the bitmap of img are
      those of img0: only inode blocks and data blocks differ. */
  ghost predicate MetaKept(p: Params, img0: Image, img: Image) {
    && p.Positive() && |img| == |img0|
    && forall x :: 0 <= x < |img| && x < p.NMeta() && !(p.InodeStart() <= x < p.BmapStart()) ==> img[x] == img0[x]
  }

  lemma MetaKeptTrans(p: Params, img0: Image, img1: Image, img2: Image)
    requires MetaKept(p, img0, img1) && MetaKept(p, img1, img2)
    ensures MetaKept(p, img0, img2)
  {
  }

  /** img differs from img0 at most in block x. */
  ghost predicate SameBut(img0: Image, x: nat, img: Image) {
    |img| == |img0| && forall y :: 0 <= y < |img| && y != x ==> img[y] == img0[y]
  }

  /** A write to the block of an allocated inode keeps the blocks outside
      the inode region. */
  lemma InodeWriteKeepsMeta(p: Params, img0: Image, img: Image, inum: nat)
    requires p.Valid() && inum < NINODES && SameBut(img0, IBlock(p, inum), img)
    ensures MetaKept(p, img0, img)
  {
    InodesInInodeRegion(p, inum);
  }

  /** iappend's frame: img differs from img0 at most in the block holding
      inode inum, in blocks the file owned in img0 and in the blocks
      f0 .. f-1 it took from the counter. */
  ghost predicate AppendKept(p: Params, img0: Image, f0: nat, inum: nat, f: nat, img: Image)
    requires p.Valid()
  {
    && |img| == |img0|
    && forall x :: 0 <= x < |img| && x != IBlock(p, inum) && !(f0 <= x < f) && !Owned(p, img0, InodeAt(p, img0, inum), x) ==>
         img[x] == img0[x]
  }

  /** What iappend leaves of the rest of the image: it writes the inode
      block of inum, blocks of the file and blocks it takes from the
      counter, nothing else; in particular no metadata block outside the
      inode region. */
  lemma AppendFrame(p: Params, img0: Image, n: nat, f0: nat, inum: nat, img: Image, f: nat, img': Image)
    requires p.Valid() && Consistent(p, img0, n, f0) && 1 <= inum < n && f0 <= f
    requires Frame(p, img0, InodeAt(p, img0, inum), f0, img)
    requires SameBut(img, IBlock(p, inum), img') && ZerosFrom(p, img', f)
    ensures AppendKept(p, img0, f0, inum, f, img') && MetaKept(p, img0, img')
  {
    InodesInInodeRegion(p, inum);
  }

  /** The dinode ialloc writes (mkfs/mkfs.c:301-307): the given type, one
      link, size 0, every other field zero, all in disk byte order. */
  function NewDinode(p: Params, typ: uint16): (d: Dinode)
    ensures Shaped(p, d)
    ensures Xshort(p.host, d.typ) == typ && Xshort(p.host, d.nlink) == 1
    ensures d.major == 0 && d.minor == 0 && Xint(p.host, d.size) == 0
    ensures forall k :: 0 <= k < |d.addrs| ==> Xint(p.host, d.addrs[k]) == 0
  {
    XshortInvolutive(p.host, typ);
    XshortInvolutive(p.host, 1);
    XintInvolutive(p.host, 0);
    XintZero(p.host, 0);
    Dinode(Xshort(p.host, typ), 0, 0, Xshort(p.host, 1), Xint(p.host, 0), seq(p.ndirect + 1, _ => 0))
  }

  /** A new inode is an empty file that owns no block. */
  lemma NewDinodeIsEmpty(p: Params, img: Image, typ: uint16, f: nat)
    requires p.Positive() && p.FileShape()
    ensures Contents(p, img, NewDinode(p, typ)) == []
    ensures FileWF(p, img, NewDinode(p, typ), f)
    ensures forall b: nat :: !Owned(p, img, NewDinode(p, typ), b)
  {
    var d := NewDinode(p, typ);
    assert IndBlock(p, d) == 0;
    forall k | 0 <= k < p.maxfile ensures BlockOf(p, img, d, k) == 0 {
    }
  }

  lemma SameQuotient(a: nat, b: nat, m: nat)
    requires m > 0 && a / m == b / m && a % m == b % m
    ensures a == b
  {
    assert a == m * (a / m) + a % m;
    assert b == m * (b / m) + b % m;
  }

  /** winode of inum followed by rinode of j returns what was written when
      j == inum, and the old dinode j otherwise (mkfs/mkfs.c:254-281). */
  lemma InodeAtAfterWrite(p: Params, img: Image, inum: nat, d: Dinode, j: nat)
    requires p.Valid() && Blocks(p, img) && Shaped(p, d) && IBlock(p, inum) < |img|
    ensures var b := IBlock(p, inum);
      InodeAt(p, img[b := WithSlot(p, img[b], inum % p.ipb, d)], j) == if j == inum then d else InodeAt(p, img, j)
  {
    var b := IBlock(p, inum);
    var img' := img[b := WithSlot(p, img[b], inum % p.ipb, d)];
    if IBlock(p, j) == b {
      if j != inum {
        if j % p.ipb == inum % p.ipb {
          SameQuotient(j, inum, p.ipb);
        }
      }
      SlotAfterWrite(p, img[b], inum % p.ipb, d, j % p.ipb);
    }
  }

  /** Writing a metadata block leaves a well-formed file's blocks and
      bytes as they were: its blocks all lie in the data region. */
  lemma MetaWriteKeepsFile(p: Params, img: Image, b: nat, blk: seq<byte>, d: Dinode, f: nat)
    requires p.Positive() && p.FileShape() && Blocks(p, img) && b < p.NMeta() && b < |img| && |blk| == p.bsize
    requires Shaped(p, d) && FileWF(p, img, d, f)
    ensures Blocks(p, img[b := blk])
    ensures forall k :: 0 <= k < p.maxfile ==> BlockOf(p, img[b := blk], d, k) == BlockOf(p, img, d, k)
    ensures FileWF(p, img[b := blk], d, f)
    ensures forall o: nat :: FileByte(p, img[b := blk], d, o) == FileByte(p, img, d, o)
    ensures forall c: nat :: Owned(p, img[b := blk], d, c) == Owned(p, img, d, c)
  {
    var img' := img[b := blk];
    forall k | 0 <= k < p.maxfile ensures BlockOf(p, img', d, k) == BlockOf(p, img, d, k) {
    }
    SameBlocksSameBytes(p, img, img', d, b);
  }

  /** A file none of whose blocks is b reads the same after b changes. */
  lemma SameBlocksSameBytes(p: Params, img: Image, img': Image, d: Dinode, b: nat)
    requires p.FileShape() && Shaped(p, d) && |img'| == |img|
    requires forall c :: 0 <= c < |img| && c != b ==> img'[c] == img[c]
    requires forall k :: 0 <= k < p.maxfile ==> BlockOf(p, img', d, k) == BlockOf(p, img, d, k)
    requires forall k :: 0 <= k < p.maxfile && BlockOf(p, img, d, k) != 0 ==> BlockOf(p, img, d, k) != b
    ensures forall o: nat :: FileByte(p, img', d, o) == FileByte(p, img, d, o)
    ensures forall c: nat :: Owned(p, img', d, c) == Owned(p, img, d, c)
  {
    forall j: nat, i: nat | j < p.maxfile && i < p.bsize
      ensures ByteAt(p, img', d, j, i) == ByteAt(p, img, d, j, i)
    {
    }
    SameBytes(p, img, d, img', d);
  }

  /** Writing a metadata block other than an allocated inode's keeps the
      image consistent and every file as it was. */
  lemma MetaWriteKeepsImage(p: Params, img: Image, n: nat, f: nat, b: nat, blk: seq<byte>)
    requires p.Valid() && Consistent(p, img, n, f)
    requires b < p.NMeta() && |blk| == p.bsize
    requires forall j :: 1 <= j < n ==> InodeAt(p, img[b := blk], j) == InodeAt(p, img, j)
    ensures Consistent(p, img[b := blk], n, f)
    ensures forall j, o: nat :: 1 <= j < n ==> FileByte(p, img[b := blk], InodeAt(p, img, j), o) == FileByte(p, img, InodeAt(p, img, j), o)
  {
    var img' := img[b := blk];
    forall j | 1 <= j < n
      ensures FileWF(p, img', InodeAt(p, img', j), f)
      ensures forall o: nat :: FileByte(p, img', InodeAt(p, img, j), o) == FileByte(p, img, InodeAt(p, img, j), o)
      ensures forall c: nat :: Owned(p, img', InodeAt(p, img', j), c) == Owned(p, img, InodeAt(p, img, j), c)
    {
      MetaWriteKeepsFile(p, img, b, blk, InodeAt(p, img, j), f);
    }
  }

  /** One block lookup of iappend took file d0 in img0, with the counter
      at f0, to file d in img with the counter at f: file block fbn is the
      nonzero block x, either the one it was or one taken from the counter
      (the last one taken, if any was); the other file blocks are as they
      were, the indirect block is kept or newly taken, and no byte of the
      file changed. */
  ghost predicate Mapped(p: Params, img0: Image, d0: Dinode, f0: nat, img: Image, d: Dinode, f: nat, fbn: nat, x: nat)
    requires p.Positive() && p.FileShape() && Shaped(p, d0) && Shaped(p, d) && fbn < p.maxfile
  {
    && f0 <= f && FileWF(p, img, d, f) && ZerosFrom(p, img, f)
    && x == BlockOf(p, img, d, fbn) && x != 0
    && (f == f0 || x + 1 == f)
    && (forall k :: 0 <= k < p.maxfile && k != fbn ==> BlockOf(p, img, d, k) == BlockOf(p, img0, d0, k))
    && (BlockOf(p, img0, d0, fbn) == 0 || x == BlockOf(p, img0, d0, fbn))
    && (BlockOf(p, img0, d0, fbn) == x || f0 <= x)
    && (IndBlock(p, d0) == 0 || IndBlock(p, d) == IndBlock(p, d0))
    && (IndBlock(p, d) == IndBlock(p, d0) || f0 <= IndBlock(p, d))
    && (forall o: nat :: FileByte(p, img, d, o) == FileByte(p, img0, d0, o))
  }

  /** The state in which the indirect half of a block lookup starts: the
      indirect pointer of d is nonzero, either kept from d0 or just taken
      from the counter f0, and d maps the same blocks and bytes as d0. */
  ghost predicate EntryReady(p: Params, img: Image, d0: Dinode, f0: nat, d: Dinode, f: nat, fbn: nat)
  {
    && p.Positive() && p.FileShape() && Blocks(p, img) && Shaped(p, d0) && Shaped(p, d)
    && p.ndirect <= fbn < p.maxfile && p.NMeta() <= f0 <= f <= p.fssize < 0x1_0000_0000
    && FileWF(p, img, d0, f0) && FileWF(p, img, d, f) && ZerosFrom(p, img, f0)
    && IndBlock(p, d) != 0 && IndBlock(p, d) < |img|
    && ((f == f0 && IndBlock(p, d) == IndBlock(p, d0)) || (f == f0 + 1 && IndBlock(p, d) == f0 && IndBlock(p, d0) == 0))
    && (forall k :: 0 <= k < p.maxfile ==> BlockOf(p, img, d, k) == BlockOf(p, img, d0, k))
    && (forall o: nat :: FileByte(p, img, d, o) == FileByte(p, img, d0, o))
  }

  /** A null entry for fbn in the indirect block takes the block f: the
      image img' with the indirect block so updated is a Mapped step. */
  lemma EntryTaken(p: Params, img: Image, d0: Dinode, f0: nat, d: Dinode, f: nat, fbn: nat, img': Image)
    requires EntryReady(p, img, d0, f0, d, f, fbn)
    requires Entry(p.host, img[IndBlock(p, d)], fbn - p.ndirect) == 0
    requires img' == img[IndBlock(p, d) := SetEntry(p.host, img[IndBlock(p, d)], fbn - p.ndirect, Xint(p.host, f))]
    ensures Blocks(p, img')
    ensures Mapped(p, img, d0, f0, img', d, f + 1, fbn, f)
  {
    XintZero(p.host, 0);
    assert img' == WithEntry(p, img, d, fbn, f);
    SetIndirect(p, img, d, f, fbn);
    SetIndirectKeepsBytes(p, img, d, img', f, fbn);
  }

  /** A nonzero entry for fbn in the indirect block is the block already
      mapped, and the lookup is a Mapped step that changes nothing. */
  lemma EntryPresent(p: Params, img: Image, d0: Dinode, f0: nat, d: Dinode, f: nat, fbn: nat)
    requires EntryReady(p, img, d0, f0, d, f, fbn)
    requires Entry(p.host, img[IndBlock(p, d)], fbn - p.ndirect) != 0
    ensures Mapped(p, img, d0, f0, img, d, f, fbn, Xint(p.host, Entry(p.host, img[IndBlock(p, d)], fbn - p.ndirect)))
  {
    var ia := IndBlock(p, d);
    var e := Entry(p.host, img[ia], fbn - p.ndirect);
    XintZero(p.host, e);
    EntryOfZeros(p.host, p.bsize, fbn - p.ndirect);
  }

  /** File d grew out of file d0 of img0 while the counter went from f0:
      every block it had is kept, and every other block it has was taken
      at or after f0. */
  ghost predicate Grows(p: Params, img0: Image, d0: Dinode, f0: nat, img: Image, d: Dinode)
    requires p.FileShape() && Shaped(p, d0) && Shaped(p, d)
  {
    && (IndBlock(p, d0) == 0 || IndBlock(p, d) == IndBlock(p, d0))
    && (IndBlock(p, d) == IndBlock(p, d0) || f0 <= IndBlock(p, d))
    && (forall k :: 0 <= k < p.maxfile && BlockOf(p, img0, d0, k) != 0 ==> BlockOf(p, img, d, k) == BlockOf(p, img0, d0, k))
    && (forall k :: 0 <= k < p.maxfile ==> BlockOf(p, img, d, k) == BlockOf(p, img0, d0, k) || f0 <= BlockOf(p, img, d, k))
  }

  /** Only blocks of file d0 and blocks from f0 on differ between img0
      and img. */
  ghost predicate Frame(p: Params, img0: Image, d0: Dinode, f0: nat, img: Image)
    requires p.FileShape() && Shaped(p, d0)
  {
    |img| == |img0| && forall b: nat :: b < |img| && b < f0 && !Owned(p, img0, d0, b) ==> img[b] == img0[b]
  }

  /** A block of a grown file was its block before or is new. */
  lemma GrowsOwned(p: Params, img0: Image, d0: Dinode, f0: nat, img: Image, d: Dinode, c: nat)
    requires p.FileShape() && Shaped(p, d0) && Shaped(p, d)
    requires Grows(p, img0, d0, f0, img, d) && Owned(p, img, d, c)
    ensures Owned(p, img0, d0, c) || f0 <= c
  {
    if c != IndBlock(p, d) {
      var k :| 0 <= k < p.maxfile && BlockOf(p, img, d, k) == c;
      if BlockOf(p, img0, d0, k) == c {
        assert Owned(p, img0, d0, c);
      }
    }
  }

  /** A block lookup followed by a write to the block it found keeps the
      file growing and the rest of the image framed. */
  lemma MapStep(p: Params, img0: Image, d0: Dinode, f0: nat, img: Image, d: Dinode, f: nat,
                img': Image, d': Dinode, f': nat, fbn: nat, x: nat)
    requires p.Positive() && p.FileShape() && Shaped(p, d0) && Shaped(p, d) && Shaped(p, d') && fbn < p.maxfile
    requires f0 <= f && Grows(p, img0, d0, f0, img, d) && Frame(p, img0, d0, f0, img)
    requires Mapped(p, img, d, f, img', d', f', fbn, x) && |img'| == |img|
    requires forall b :: 0 <= b < |img| && b != IndBlock(p, d') ==> img'[b] == img[b]
    requires IndBlock(p, d') != 0 || img' == img
    ensures Grows(p, img0, d0, f0, img', d') && Frame(p, img0, d0, f0, img')
    ensures x == BlockOf(p, img0, d0, fbn) || f0 <= x
    ensures forall c: nat :: c < |img'| && c < f0 && !Owned(p, img0, d0, c) ==> c != x
  {
    if IndBlock(p, d') == IndBlock(p, d0) && IndBlock(p, d') != 0 {
      assert Owned(p, img0, d0, IndBlock(p, d'));
    }
    if x == BlockOf(p, img0, d0, fbn) {
      assert Owned(p, img0, d0, x);
    }
  }

  /** An offset before off in the same block lies before off's offset in
      that block. */
  lemma BeforeInBlock(o: nat, off: nat, m: nat)
    requires m > 0 && o < off && o / m == off / m
    ensures o % m < off % m
  {
  }

  /** off + u stays in off's block while off % m + u < m. */
  lemma InsideBlock(off: nat, m: nat, u: nat)
    requires m > 0 && off % m + u < m
    ensures (off + u) / m == off / m && (off + u) % m == off % m + u
  {
    DivBounds(off, m);
    InBlock(off + u, m, off / m);
  }

  /** The chunk copied at file offset off = size0 + pos lands at file bytes
      off .. off + n1, and the bytes before off stay. */
  lemma ChunkLands(p: Params, img: Image, d: Dinode, img': Image, data: seq<byte>, size0: nat, pos: nat, n1: nat)
    requires p.FileShape() && Shaped(p, d) && pos + n1 <= |data|
    requires (size0 + pos) % p.bsize + n1 <= p.bsize
    requires forall o: nat :: FileByte(p, img', d, o) ==
               (if o / p.bsize == (size0 + pos) / p.bsize
                   && (size0 + pos) % p.bsize <= o % p.bsize < (size0 + pos) % p.bsize + n1
                then data[pos .. pos + n1][o % p.bsize - (size0 + pos) % p.bsize]
                else FileByte(p, img, d, o))
    requires forall t :: 0 <= t < pos ==> FileByte(p, img, d, size0 + t) == data[t]
    ensures forall t :: 0 <= t < pos + n1 ==> FileByte(p, img', d, size0 + t) == data[t]
    ensures forall o :: 0 <= o < size0 + pos ==> FileByte(p, img', d, o) == FileByte(p, img, d, o)
  {
    var off := size0 + pos;
    forall o | 0 <= o < off ensures FileByte(p, img', d, o) == FileByte(p, img, d, o) {
      if o / p.bsize == off / p.bsize {
        BeforeInBlock(o, off, p.bsize);
      }
    }
    forall t | pos <= t < pos + n1 ensures FileByte(p, img', d, size0 + t) == data[t] {
      InsideBlock(off, p.bsize, t - pos);
    }
  }

  /** Two files whose bytes agree as stated: the second is the first with
      data appended. */
  lemma ContentsAppended(p: Params, img: Image, d: Dinode, img': Image, d': Dinode, data: seq<byte>)
    requires p.FileShape() && Shaped(p, d) && Shaped(p, d')
    requires Xint(p.host, d'.size) == Xint(p.host, d.size) + |data|
    requires forall o :: 0 <= o < Xint(p.host, d.size) ==> FileByte(p, img', d', o) == FileByte(p, img, d, o)
    requires forall t :: 0 <= t < |data| ==> FileByte(p, img', d', Xint(p.host, d.size) + t) == data[t]
    ensures Contents(p, img', d') == Contents(p, img, d) + data
  {
    var c, c' := Contents(p, img, d), Contents(p, img', d');
    forall o | 0 <= o < |c'| ensures c'[o] == (c + data)[o] {
      if o >= |c| {
        assert c'[o] == FileByte(p, img', d', |c| + (o - |c|));
      }
    }
  }

  /** While a file is appended to, the other files and every dinode stay
      as they were: the blocks written are the file's own or new. */
  lemma FrameKeepsOthers(p: Params, img0: Image, n: nat, f0: nat, inum: nat, img: Image)
    requires p.Valid() && Consistent(p, img0, n, f0) && 1 <= inum < n
    requires Frame(p, img0, InodeAt(p, img0, inum), f0, img)
    ensures forall j :: 1 <= j < n ==> InodeAt(p, img, j) == InodeAt(p, img0, j)
    ensures forall j, k :: 1 <= j < n && j != inum && 0 <= k < p.maxfile ==>
              BlockOf(p, img, InodeAt(p, img0, j), k) == BlockOf(p, img0, InodeAt(p, img0, j), k)
    ensures forall j, o: nat :: 1 <= j < n && j != inum ==>
              FileByte(p, img, InodeAt(p, img0, j), o) == FileByte(p, img0, InodeAt(p, img0, j), o)
  {
    var d0 := InodeAt(p, img0, inum);
    forall j | 1 <= j < n ensures InodeAt(p, img, j) == InodeAt(p, img0, j) {
      InodesInInodeRegion(p, j);
      assert !Owned(p, img0, d0, IBlock(p, j));
    }
    forall j | 1 <= j < n && j != inum
      ensures forall k :: 0 <= k < p.maxfile ==> BlockOf(p, img, InodeAt(p, img0, j), k) == BlockOf(p, img0, InodeAt(p, img0, j), k)
      ensures forall o: nat :: FileByte(p, img, InodeAt(p, img0, j), o) == FileByte(p, img0, InodeAt(p, img0, j), o)
    {
      var dj := InodeAt(p, img0, j);
      var ia := IndBlock(p, dj);
      if ia != 0 {
        assert Owned(p, img0, dj, ia);
      }
      forall k | 0 <= k < p.maxfile ensures BlockOf(p, img, dj, k) == BlockOf(p, img0, dj, k) {
      }
      forall k: nat, i: nat | k < p.maxfile && i < p.bsize ensures ByteAt(p, img, dj, k, i) == ByteAt(p, img0, dj, k, i) {
        var b := BlockOf(p, img0, dj, k);
        if b != 0 {
          assert Owned(p, img0, dj, b);
        }
      }
      SameBytes(p, img0, dj, img, dj);
    }
  }

  /** Part way through appending data to the file that was d0 in img0, with
      the counter then at f0 and the size then size0: data[.. pos] follows
      the old bytes, the file has grown only by blocks from f0 on, and only
      its own blocks and new ones were written. */
  ghost predicate Appending(p: Params, img0: Image, d0: Dinode, f0: nat, size0: nat, data: seq<byte>,
                            img: Image, d: Dinode, f: nat, pos: nat)
  {
    && p.Positive() && p.FileShape() && Shaped(p, d0) && Shaped(p, d) && d == d0.(addrs := d.addrs)
    && Blocks(p, img) && f0 <= f <= p.fssize && pos <= |data|
    && FileWF(p, img, d, f) && ZerosFrom(p, img, f)
    && Grows(p, img0, d0, f0, img, d) && Frame(p, img0, d0, f0, img)
    && (forall t :: 0 <= t < pos ==> FileByte(p, img, d, size0 + t) == data[t])
    && (forall o :: 0 <= o < size0 ==> FileByte(p, img, d, o) == FileByte(p, img0, d0, o))
  }

  /** The block lookup of one round of iappend is done: file block fbn of
      file offset size0 + pos is the nonzero block x, which is d0's own
      block or a new one, so it may be written. */
  ghost predicate Located(p: Params, img0: Image, d0: Dinode, f0: nat, size0: nat, data: seq<byte>,
                          img: Image, d: Dinode, f: nat, pos: nat, fbn: nat, x: nat)
  {
    && Appending(p, img0, d0, f0, size0, data, img, d, f, pos)
    && fbn == (size0 + pos) / p.bsize && fbn < p.maxfile
    && x == BlockOf(p, img, d, fbn) && x != 0 && x < |img|
    && (forall c: nat :: c < |img| && c < f0 && !Owned(p, img0, d0, c) ==> c != x)
  }

  /** Offset off lies past file block maxfile - 1. */
  lemma PastMaxfile(off: nat, m: nat, maxfile: nat)
    requires m > 0 && off / m >= maxfile
    ensures off >= maxfile * m
  {
    DivBounds(off, m);
    MulMono(maxfile, off / m, m);
  }

  /** The number of bytes iappend copies at file offset off when rest
      remain: up to the end of off's block (mkfs/mkfs.c:375). */
  function ChunkLen(off: nat, m: nat, rest: nat): nat
    requires m > 0
  {
    DivBounds(off, m);
    if rest < (off / m + 1) * m - off then rest else (off / m + 1) * m - off
  }

  /** The chunk of iappend that starts at off runs to the end of off's
      block at most, which lies within file block maxfile - 1. */
  lemma ChunkBounds(off: nat, m: nat, maxfile: nat, rest: nat)
    requires m > 0 && off / m < maxfile && rest > 0
    ensures 0 < ChunkLen(off, m, rest) <= rest
    ensures off % m + ChunkLen(off, m, rest) <= m && off + ChunkLen(off, m, rest) <= maxfile * m
    ensures off - (off / m) * m == off % m
  {
    DivBounds(off, m);
    InBlock(off, m, off / m);
    MulMono(off / m + 1, maxfile, m);
  }

  /** Copying data[pos .. pos + n1] into the block x that file block fbn
      maps, at the offset of file offset size0 + pos in its block, keeps
      the file growing out of d0 and the image framed, and extends the
      appended bytes to data[.. pos + n1] (mkfs/mkfs.c:376-379). */
  lemma ChunkStep(p: Params, img0: Image, d0: Dinode, f0: nat, size0: nat, img: Image, d: Dinode, f: nat,
                  fbn: nat, x: nat, data: seq<byte>, pos: nat, n1: nat, img': Image)
    requires p.Positive() && p.FileShape() && Shaped(p, d0) && Shaped(p, d) && Blocks(p, img)
    requires f0 <= f && FileWF(p, img, d, f) && ZerosFrom(p, img, f)
    requires Grows(p, img0, d0, f0, img, d) && Frame(p, img0, d0, f0, img)
    requires fbn < p.maxfile && x == BlockOf(p, img, d, fbn) && x != 0 && x < |img|
    requires forall c: nat :: c < |img| && c < f0 && !Owned(p, img0, d0, c) ==> c != x
    requires fbn == (size0 + pos) / p.bsize && (size0 + pos) % p.bsize + n1 <= p.bsize && pos + n1 <= |data|
    requires img' == WithChunk(img, x, (size0 + pos) % p.bsize, data[pos .. pos + n1])
    requires forall t :: 0 <= t < pos ==> FileByte(p, img, d, size0 + t) == data[t]
    requires forall o :: 0 <= o < size0 ==> FileByte(p, img, d, o) == FileByte(p, img0, d0, o)
    ensures Blocks(p, img') && FileWF(p, img', d, f) && ZerosFrom(p, img', f)
    ensures Grows(p, img0, d0, f0, img', d) && Frame(p, img0, d0, f0, img')
    ensures forall t :: 0 <= t < pos + n1 ==> FileByte(p, img', d, size0 + t) == data[t]
    ensures forall o :: 0 <= o < size0 ==> FileByte(p, img', d, o) == FileByte(p, img0, d0, o)
  {
    var s, chunk := (size0 + pos) % p.bsize, data[pos .. pos + n1];
    WriteData(p, img, d, f, fbn, s, chunk);
    ChunkFrame(p, img0, d0, f0, img, d, f, x, img');
    WriteDataBytes(p, img, d, img', fbn, s, chunk);
    ChunkLands(p, img, d, img', data, size0, pos, n1);
  }

  /** Writing into a data block x of the file being appended to keeps
      the file's growth and the frame around it, and the zeros past f. */
  lemma ChunkFrame(p: Params, img0: Image, d0: Dinode, f0: nat, img: Image, d: Dinode, f: nat, x: nat, img': Image)
    requires p.Positive() && p.FileShape() && Shaped(p, d0) && Shaped(p, d) && f0 <= f
    requires ZerosFrom(p, img, f) && Grows(p, img0, d0, f0, img, d) && Frame(p, img0, d0, f0, img)
    requires x < |img| && x < f && forall c: nat :: c < |img| && c < f0 && !Owned(p, img0, d0, c) ==> c != x
    requires |img'| == |img| && forall b :: 0 <= b < |img| && b != x ==> img'[b] == img[b]
    requires forall j :: 0 <= j < p.maxfile ==> BlockOf(p, img', d, j) == BlockOf(p, img, d, j)
    ensures ZerosFrom(p, img', f) && Grows(p, img0, d0, f0, img', d) && Frame(p, img0, d0, f0, img')
  {
  }

  /** A file whose blocks are the same in img' as in img is well formed
      there too, for any later counter, and owns the same blocks, all of
      them data blocks below f. */
  lemma SameMap(p: Params, img: Image, d: Dinode, img': Image, f: nat, f': nat)
    requires p.Positive() && p.FileShape() && Shaped(p, d) && FileWF(p, img, d, f) && f <= f'
    requires forall k :: 0 <= k < p.maxfile ==> BlockOf(p, img', d, k) == BlockOf(p, img, d, k)
    ensures FileWF(p, img', d, f')
    ensures forall c: nat :: Owned(p, img', d, c) == Owned(p, img, d, c)
    ensures forall c: nat :: Owned(p, img, d, c) ==> p.NMeta() <= c < f
  {
    forall c: nat ensures Owned(p, img', d, c) == Owned(p, img, d, c) {
      if Owned(p, img', d, c) && c != IndBlock(p, d) {
        var k :| 0 <= k < p.maxfile && BlockOf(p, img', d, k) == c;
        assert BlockOf(p, img, d, k) == c;
      }
      if Owned(p, img, d, c) && c != IndBlock(p, d) {
        var k :| 0 <= k < p.maxfile && BlockOf(p, img, d, k) == c;
        assert BlockOf(p, img', d, k) == c;
      }
    }
    forall c: nat | Owned(p, img, d, c) ensures p.NMeta() <= c < f {
      if c != IndBlock(p, d) {
        var k :| 0 <= k < p.maxfile && BlockOf(p, img, d, k) == c;
      }
    }
  }

  /** The appended file d, given its new size and written back to inode
      block b as d1, is well formed and holds its old contents followed by
      data (mkfs/mkfs.c:387-388). */
  lemma CommitFile(p: Params, img0: Image, d0: Dinode, f0: nat, size0: nat, data: seq<byte>,
                   img: Image, d: Dinode, f: nat, d1: Dinode, b: nat, blk: seq<byte>)
    requires p.Positive() && p.FileShape() && size0 == Xint(p.host, d0.size)
    requires Appending(p, img0, d0, f0, size0, data, img, d, f, |data|)
    requires d1 == d.(size := d1.size) && Xint(p.host, d1.size) == size0 + |data|
    requires b < p.NMeta() <= f && b < |img| && |blk| == p.bsize
    ensures Shaped(p, d1) && FileWF(p, img[b := blk], d1, f) && ZerosFrom(p, img[b := blk], f)
    ensures forall c: nat :: Owned(p, img[b := blk], d1, c) == Owned(p, img, d, c)
    ensures Contents(p, img[b := blk], d1) == Contents(p, img0, d0) + data
  {
    var img' := img[b := blk];
    SameAddrs(p, img, d, d1, f);
    MetaWriteKeepsFile(p, img, b, blk, d1, f);
    forall o | 0 <= o < size0 ensures FileByte(p, img', d1, o) == FileByte(p, img0, d0, o) {
      assert FileByte(p, img, d, o) == FileByte(p, img0, d0, o);
    }
    forall t | 0 <= t < |data| ensures FileByte(p, img', d1, size0 + t) == data[t] {
      assert FileByte(p, img, d, size0 + t) == data[t];
    }
    ContentsAppended(p, img0, d0, img', d1, data);
  }

  /** A file other than the one appended to keeps its blocks, its bytes
      and its contents through the append and the write of inode block b,
      and stays well formed with the counter moved on to f. */
  lemma CommitOther(p: Params, img0: Image, dj: Dinode, f0: nat, img: Image, f: nat, b: nat, blk: seq<byte>)
    requires p.Positive() && p.FileShape() && Shaped(p, dj) && FileWF(p, img0, dj, f0) && f0 <= f
    requires Blocks(p, img) && b < p.NMeta() && b < |img| && |blk| == p.bsize
    requires forall k :: 0 <= k < p.maxfile ==> BlockOf(p, img, dj, k) == BlockOf(p, img0, dj, k)
    requires forall o: nat :: FileByte(p, img, dj, o) == FileByte(p, img0, dj, o)
    ensures FileWF(p, img[b := blk], dj, f)
    ensures forall c: nat :: Owned(p, img[b := blk], dj, c) ==> Owned(p, img0, dj, c) && c < f0
    ensures Contents(p, img[b := blk], dj) == Contents(p, img0, dj)
  {
    SameMap(p, img0, dj, img, f0, f);
    MetaWriteKeepsFile(p, img, b, blk, dj, f);
    forall c: nat | Owned(p, img[b := blk], dj, c) ensures Owned(p, img0, dj, c) && c < f0 {
      assert Owned(p, img, dj, c);
    }
    SameContents(p, img0, dj, img[b := blk], dj);
  }

  /** The end of iappend (mkfs/mkfs.c:387-388): with the appended file d
      written back as d1 into its inode block, the image is consistent
      again with the counter at f, inode inum holds d1 and its contents
      are the old ones followed by data, and every other allocated inode
      and file is as it was. */
  lemma CommitAppend(p: Params, img0: Image, n: nat, f0: nat, inum: nat, data: seq<byte>,
                     img: Image, d: Dinode, f: nat, d1: Dinode, img': Image)
    requires p.Valid() && Consistent(p, img0, n, f0) && 1 <= inum < n
    requires Appending(p, img0, InodeAt(p, img0, inum), f0, Xint(p.host, InodeAt(p, img0, inum).size), data, img, d, f, |data|)
    requires d1 == d.(size := d1.size) && Xint(p.host, d1.size) == Xint(p.host, InodeAt(p, img0, inum).size) + |data|
    requires IBlock(p, inum) < |img|
    requires img' == img[IBlock(p, inum) := WithSlot(p, img[IBlock(p, inum)], inum % p.ipb, d1)]
    ensures Consistent(p, img', n, f)
    ensures InodeAt(p, img', inum) == d1
    ensures Contents(p, img', d1) == Contents(p, img0, InodeAt(p, img0, inum)) + data
    ensures forall j :: 1 <= j < n && j != inum ==> InodeAt(p, img', j) == InodeAt(p, img0, j)
    ensures forall j :: 1 <= j < n && j != inum ==> Contents(p, img', InodeAt(p, img', j)) == Contents(p, img0, InodeAt(p, img0, j))
  {
    var d0 := InodeAt(p, img0, inum);
    var b := IBlock(p, inum);
    var blk := WithSlot(p, img[b], inum % p.ipb, d1);
    InodesInInodeRegion(p, inum);
    FrameKeepsOthers(p, img0, n, f0, inum, img);
    forall j | 1 <= j < n ensures InodeAt(p, img', j) == if j == inum then d1 else InodeAt(p, img0, j) {
      InodeAtAfterWrite(p, img, inum, d1, j);
    }
    CommitFile(p, img0, d0, f0, Xint(p.host, d0.size), data, img, d, f, d1, b, blk);
    forall j | 1 <= j < n && j != inum
      ensures FileWF(p, img', InodeAt(p, img', j), f)
      ensures forall c: nat :: Owned(p, img', InodeAt(p, img', j), c) ==> Owned(p, img0, InodeAt(p, img0, j), c) && c < f0
      ensures Contents(p, img', InodeAt(p, img', j)) == Contents(p, img0, InodeAt(p, img0, j))
    {
      CommitOther(p, img0, InodeAt(p, img0, j), f0, img, f, b, blk);
    }
    CommitDisjoint(p, img0, n, f0, inum, img, d, img', d1);
  }

  /** No block is shared after the append: the appended file's new blocks
      come from f0 on, past every other file's blocks. */
  lemma CommitDisjoint(p: Params, img0: Image, n: nat, f0: nat, inum: nat, img: Image, d: Dinode, img': Image, d1: Dinode)
    requires p.Valid() && Consistent(p, img0, n, f0) && 1 <= inum < n && Shaped(p, d) && Shaped(p, d1)
    requires Grows(p, img0, InodeAt(p, img0, inum), f0, img, d)
    requires forall c: nat :: Owned(p, img', d1, c) == Owned(p, img, d, c)
    requires forall j :: 1 <= j < n ==> InodeAt(p, img', j) == if j == inum then d1 else InodeAt(p, img0, j)
    requires forall j :: 1 <= j < n && j != inum ==>
               forall c: nat :: Owned(p, img', InodeAt(p, img', j), c) ==> Owned(p, img0, InodeAt(p, img0, j), c) && c < f0
    ensures Disjoint(p, img', n)
  {
    forall i, j, c: nat | 1 <= i < n && 1 <= j < n && i != j && Owned(p, img', InodeAt(p, img', i), c)
      ensures !Owned(p, img', InodeAt(p, img', j), c)
    {
      if i == inum {
        GrowsOwned(p, img0, InodeAt(p, img0, inum), f0, img, d, c);
      } else if j == inum {
        if Owned(p, img', d1, c) {
          GrowsOwned(p, img0, InodeAt(p, img0, inum), f0, img, d, c);
        }
      }
    }
  }

  /** Inode inum of img rewritten as d1 with the same block pointers
      (winode after a change of size): the image stays consistent, no
      other inode changes, and no file's bytes change. */
  lemma RewriteInode(p: Params, img: Image, n: nat, f: nat, inum: nat, d1: Dinode, img': Image)
    requires p.Valid() && Consistent(p, img, n, f) && 1 <= inum < n
    requires Shaped(p, d1) && d1.addrs == InodeAt(p, img, inum).addrs
    requires IBlock(p, inum) < |img|
    requires img' == img[IBlock(p, inum) := WithSlot(p, img[IBlock(p, inum)], inum % p.ipb, d1)]
    ensures Consistent(p, img', n, f)
    ensures forall j :: InodeAt(p, img', j) == if j == inum then d1 else InodeAt(p, img, j)
    ensures forall o: nat :: FileByte(p, img', d1, o) == FileByte(p, img, InodeAt(p, img, inum), o)
    ensures forall j :: 1 <= j < n && j != inum ==> Contents(p, img', InodeAt(p, img', j)) == Contents(p, img, InodeAt(p, img, j))
  {
    var d0, b := InodeAt(p, img, inum), IBlock(p, inum);
    var blk := WithSlot(p, img[b], inum % p.ipb, d1);
    InodesInInodeRegion(p, inum);
    forall j ensures InodeAt(p, img', j) == if j == inum then d1 else InodeAt(p, img, j) {
      InodeAtAfterWrite(p, img, inum, d1, j);
    }
    SameAddrs(p, img, d0, d1, f);
    MetaWriteKeepsFile(p, img, b, blk, d1, f);
    forall j | 1 <= j < n && j != inum
      ensures FileWF(p, img', InodeAt(p, img', j), f)
      ensures forall c: nat :: Owned(p, img', InodeAt(p, img', j), c) == Owned(p, img, InodeAt(p, img, j), c)
      ensures Contents(p, img', InodeAt(p, img', j)) == Contents(p, img, InodeAt(p, img, j))
    {
      MetaWriteKeepsFile(p, img, b, blk, InodeAt(p, img, j), f);
      SameContents(p, img, InodeAt(p, img, j), img', InodeAt(p, img, j));
    }
    forall i, j, c: nat | 1 <= i < n && 1 <= j < n && i != j && Owned(p, img', InodeAt(p, img', i), c)
      ensures !Owned(p, img', InodeAt(p, img', j), c)
    {
      assert Owned(p, img, InodeAt(p, img, i), c);
    }
  }

  /** The root directory's new size as mkfs.c computes it
      (mkfs/mkfs.c:228-229): one past the block that holds offset off,
      times BSIZE, in 32-bit unsigned arithmetic. */
  function RootSize(p: Params, off: uint32): (size: uint32)
    requires p.bsize > 0
    ensures (off / p.bsize + 1) * p.bsize < 0x1_0000_0000 ==> size == (off / p.bsize + 1) * p.bsize
    ensures (off / p.bsize + 1) * p.bsize >= 0x1_0000_0000 ==> size < (off / p.bsize + 1) * p.bsize
  {
    ((off / p.bsize + 1) * p.bsize) % 0x1_0000_0000
  }

  /** Without wrap-around the root size is off rounded up to a whole
      number of blocks, plus a whole block when off is already a
      multiple of BSIZE: it always grows, by at most one block. */
  lemma RootSizeRoundsUp(p: Params, off: uint32)
    requires p.bsize > 0 && off + p.bsize < 0x1_0000_0000
    ensures RootSize(p, off) % p.bsize == 0
    ensures off < RootSize(p, off) <= off + p.bsize
    ensures RootSize(p, off) == off - off % p.bsize + p.bsize
    ensures off % p.bsize == 0 ==> RootSize(p, off) == off + p.bsize
  {
    var m := p.bsize;
    var hi := NextBoundary(off, m);
    assert RootSize(p, off) == hi;
  }

  /** (o / m + 1) * m is the first multiple of m above o. */
  lemma NextBoundary(o: nat, m: nat) returns (hi: nat)
    requires m > 0
    ensures hi == (o / m + 1) * m
    ensures hi % m == 0 && o < hi <= o + m && hi == o - o % m + m
    ensures o % m == 0 ==> hi == o + m
  {
    var q := o / m;
    DivBounds(o, m);
    hi := (q + 1) * m;
    InBlock(o, m, q);
    InBlock(hi, m, q + 1);
  }

  /** The sector balloc writes as written (mkfs/mkfs.c:329): sb.bmapstart,
      which holds bmapstart through xint. */
  function BitmapSectorAsWritten(p: Params): (sec: uint32)
    requires p.Valid()
    ensures p.host == Little ==> sec == p.BmapStart()
  {
    XonLittleEndianIsIdentity(0, p.BmapStart());
    Xint(p.host, p.BmapStart())
  }

  /** On a big-endian host that is not the bitmap block, unless bmapstart
      is a byte palindrome: the bitmap is written elsewhere. */
  lemma BitmapSectorOnBigEndianHost(p: Params)
    requires p.Valid() && p.host == Big && Le32(p.BmapStart()) != Be32(p.BmapStart())
    ensures BitmapSectorAsWritten(p) != p.BmapStart()
  {
    var s := BitmapSectorAsWritten(p);
    assert Be32(s) == Le32(p.BmapStart());
  }

  /** ialloc as written hands out inode numbers past the inode region:
      the first such inode has its slot in the bitmap block, and every
      inode number from NINODES on is one the superblock does not
      count. */
  lemma IallocPastInodeRegion(p: Params)
    requires p.Valid()
    ensures NINODES < p.NInodeBlocks() * p.ipb
    ensures IBlock(p, p.NInodeBlocks() * p.ipb) == p.BmapStart()
  {
    InodeRegionHoldsAllInodes(p);
    InBlock(p.NInodeBlocks() * p.ipb, p.ipb, p.NInodeBlocks());
  }

  /** The byte offset rsect and wsect seek to for sector sec
      (mkfs/mkfs.c:242, 286): sec * BSIZE computed as a 32-bit unsigned
      int, so modulo 2^32; lseek is handed that value and returns it. */
  function SectorOffset(p: Params, sec: nat): (off: nat)
    ensures off < 0x1_0000_0000
  {
    (sec * p.bsize) % 0x1_0000_0000
  }

  /** For every block of the image and the one past its end the offset
      does not wrap: block sec starts at byte sec * BSIZE. */
  lemma OffsetsInImage(p: Params, sec: nat)
    requires p.Valid() && sec <= p.fssize
    ensures SectorOffset(p, sec) == sec * p.bsize
  {
    MulMono(sec, p.fssize, p.bsize);
    NoWrap(sec * p.bsize);
  }

  lemma NoWrap(a: nat)
    requires a < 0x1_0000_0000
    ensures a % 0x1_0000_0000 == a
  {
  }

  /** Adding whole multiples of 2^32 does not move a 32-bit offset. */
  lemma WrapAdd(a: nat, m: nat)
    ensures (a + m * 0x1_0000_0000) % 0x1_0000_0000 == a % 0x1_0000_0000
  {
    var q, r := a / 0x1_0000_0000, a % 0x1_0000_0000;
    assert a + m * 0x1_0000_0000 == (q + m) * 0x1_0000_0000 + r;
  }

  /** On a big-endian host xint moves a value below 256 into the top
      byte. */
  lemma XintOfByteOnBigEndian(x: uint32)
    requires x < 0x100
    ensures Xint(Big, x) == x * 0x100_0000
  {
    assert Le32(x) == [x, 0, 0, 0];
  }

  /** A sector number whose low 24 bits are zero, times a BSIZE that is a
      multiple of 256, is a multiple of 2^32: plus q it seeks to q's
      offset. */
  lemma TopByteWraps(p: Params, q: nat, x: nat)
    requires p.bsize % 0x100 == 0
    ensures SectorOffset(p, q + x * 0x100_0000) == SectorOffset(p, q)
  {
    var k := p.bsize / 0x100;
    assert p.bsize == k * 0x100;
    calc {
      (q + x * 0x100_0000) * p.bsize;
      q * p.bsize + x * 0x100_0000 * (k * 0x100);
      { assert 0x100_0000 * 0x100 == 0x1_0000_0000; }
      q * p.bsize + (x * k) * 0x1_0000_0000;
    }
    WrapAdd(q * p.bsize, x * k);
  }

  /** balloc as written on a big-endian host whose bitmap starts below
      block 256 and whose BSIZE is a multiple of 256 (the defaults: BSIZE
      1024, bmapstart 45): the offset of sb.bmapstart wraps to 0, and the
      bitmap block overwrites the boot block. */
  lemma BitmapWriteLandsOnBootBlock(p: Params)
    requires p.Valid() && p.host == Big && p.BmapStart() < 0x100 && p.bsize % 0x100 == 0
    ensures SectorOffset(p, BitmapSectorAsWritten(p)) == 0
  {
    var start := p.BmapStart();
    XintOfByteOnBigEndian(start);
    var sec := BitmapSectorAsWritten(p);
    assert sec == 0 + start * 0x100_0000;
    TopByteWraps(p, 0, start);
    assert SectorOffset(p, sec) == SectorOffset(p, 0) == 0;
  }

  /** IBLOCK(inum, sb) as written in winode and rinode (mkfs/mkfs.c:259,
      276): the block in the inode region counted from sb.inodestart,
      which holds inodestart through xint. */
  function IBlockAsWritten(p: Params, inum: nat): (b: nat)
    requires p.Valid()
    ensures p.host == Little ==> b == IBlock(p, inum)
  {
    RegionsAreContiguous(p);
    XonLittleEndianIsIdentity(0, p.InodeStart());
    var start: uint32 := p.InodeStart();
    var q: nat := inum / p.ipb;
    q + Xint(p.host, start)
  }

  /** winode as written on a big-endian host whose inode region starts
      below block 256 and whose BSIZE is a multiple of 256 (the defaults:
      BSIZE 1024, inodestart 32): inode inum goes to block inum / IPB
      from the start of the image, not to its block in the inode region;
      the first IPB inodes overwrite the boot block and the next IPB the
      superblock. */
  lemma InodeSectorOnBigEndianHost(p: Params, inum: nat)
    requires p.Valid() && p.host == Big && p.InodeStart() < 0x100 && p.bsize % 0x100 == 0 && inum < NINODES
    ensures SectorOffset(p, IBlockAsWritten(p, inum)) == (inum / p.ipb) * p.bsize
    ensures SectorOffset(p, IBlockAsWritten(p, inum)) < IBlock(p, inum) * p.bsize
  {
    XintOfByteOnBigEndian(p.InodeStart());
    TopByteWraps(p, inum / p.ipb, p.InodeStart());
    InodesInInodeRegion(p, inum);
    RegionsAreContiguous(p);
    OffsetsInImage(p, inum / p.ipb);
    MulMono(inum / p.ipb + 1, IBlock(p, inum), p.bsize);
    MulSucc(inum / p.ipb, p.bsize);
  }

  // -----------------------------------------------------------------------
  // The builder.

  class Builder {
    /** The constants the builder was compiled with. */
    const p: Params
    /** The image file, block by block. */
    const disk: array<seq<byte>>
    /** The next inode number ialloc hands out. */
    var freeinode: nat
    /** The next block the appends allocate. */
    var freeblock: nat

    /** The image has FSSIZE blocks of BSIZE bytes; freeblock has passed
        the metadata and, when allocation ran out, the end of the image. */
    ghost predicate Valid()
      reads this, disk
    {
      && p.Valid() && disk.Length == p.fssize && p.BmapStart() < p.NMeta() <= p.fssize
      && (forall b :: 0 <= b < disk.Length ==> |disk[b]| == p.bsize)
      && 1 <= freeinode && p.NMeta() <= freeblock <= p.fssize + 1
    }

    /** The builder's invariant between steps. */
    ghost predicate Ok()
      reads this, disk
      requires Valid()
    {
      Consistent(p, disk[..], freeinode, freeblock)
    }

    /** Read block sec (rsect, mkfs/mkfs.c:284-295); reading past the
        image returns fewer than BSIZE bytes and stops the builder. */
    method Rsect(sec: nat) returns (ok: bool, buf: seq<byte>)
      requires Valid()
      ensures ok == (sec < disk.Length)
      ensures ok ==> buf == disk[sec] && |buf| == p.bsize
    {
      if sec < disk.Length {
        ok, buf := true, disk[sec];
      } else {
        ok, buf := false, [];
      }
    }

    /** Write block sec (wsect, mkfs/mkfs.c:240-251). */
    method Wsect(sec: nat, buf: seq<byte>)
      requires sec < disk.Length
      modifies disk
      ensures disk[..] == old(disk[..])[sec := buf]
    {
      disk[sec] := buf;
    }

    /** Read dinode inum (rinode, mkfs/mkfs.c:271-281). */
    method Rinode(inum: nat) returns (ok: bool, d: Dinode)
      requires Valid()
      ensures ok == (IBlock(p, inum) < p.fssize)
      ensures ok ==> d == InodeAt(p, disk[..], inum)
    {
      var bn := IBlock(p, inum);
      var buf;
      ok, buf := Rsect(bn);
      if !ok {
        return false, EmptyDinode(p);
      }
      d := SlotInode(p, buf, inum % p.ipb);
    }

    /** Write dinode inum (winode, mkfs/mkfs.c:254-268): block IBLOCK(inum)
        with slot inum % IPB replaced, every other block as it was. The
        block is counted from inodestart itself; mkfs.c counts from
        sb.inodestart, which differs on a big-endian host (see
        InodeSectorOnBigEndianHost). */
    method Winode(inum: nat, d: Dinode) returns (ok: bool)
      requires Valid() && Shaped(p, d)
      modifies disk
      ensures Valid()
      ensures ok == (IBlock(p, inum) < p.fssize)
      ensures ok ==> disk[..] == old(disk[..])[IBlock(p, inum) := WithSlot(p, old(disk[IBlock(p, inum)]), inum % p.ipb, d)]
      ensures !ok ==> disk[..] == old(disk[..])
    {
      var bn := IBlock(p, inum);
      var buf;
      ok, buf := Rsect(bn);
      if !ok {
        return;
      }
      Wsect(bn, WithSlot(p, buf, inum % p.ipb, d));
    }

    /** ialloc as written (mkfs/mkfs.c:298-311): it takes freeinode
        whatever its value. */
    method IallocUnchecked(typ: uint16) returns (ok: bool, inum: nat)
      requires Valid()
      modifies this, disk
      ensures Valid()
      ensures inum == old(freeinode) && freeinode == inum + 1 && freeblock == old(freeblock)
      ensures ok == (IBlock(p, inum) < p.fssize)
      ensures ok ==> disk[..] == old(disk[..])[IBlock(p, inum) := WithSlot(p, old(disk[IBlock(p, inum)]), inum % p.ipb, NewDinode(p, typ))]
      ensures !ok ==> disk[..] == old(disk[..])
    {
      inum := freeinode;
      freeinode := freeinode + 1;
      var din := NewDinode(p, typ);
      ok := Winode(inum, din);
    }

    /** ialloc with the inode limit checked: inode numbers are handed out
        in order from 1, a new inode is an empty file of the given type,
        and no other inode or file changes. */
    method Ialloc(typ: uint16) returns (ok: bool, inum: nat)
      requires Valid() && Ok()
      modifies this, disk
      ensures Valid() && Ok()
      ensures ok == (old(freeinode) < NINODES)
      ensures !ok ==> unchanged(this, disk)
      ensures ok ==> inum == old(freeinode) && freeinode == inum + 1 && freeblock == old(freeblock)
      ensures ok ==> InodeAt(p, disk[..], inum) == NewDinode(p, typ)
      ensures ok ==> forall j :: j != inum ==> InodeAt(p, disk[..], j) == InodeAt(p, old(disk[..]), j)
      ensures ok ==> forall j, o: nat :: 1 <= j < inum ==>
                FileByte(p, disk[..], InodeAt(p, disk[..], j), o) == FileByte(p, old(disk[..]), InodeAt(p, old(disk[..]), j), o)
      ensures ok ==> SameBut(old(disk[..]), IBlock(p, inum), disk[..])
      ensures MetaKept(p, old(disk[..]), disk[..])
    {
      if freeinode >= NINODES {
        return false, 0;
      }
      ghost var img := disk[..];
      ghost var n := freeinode;
      InodesInInodeRegion(p, freeinode);
      ok, inum := IallocUnchecked(typ);
      assert ok;
      var b := IBlock(p, inum);
      var blk := WithSlot(p, img[b], inum % p.ipb, NewDinode(p, typ));
      assert disk[..] == img[b := blk];
      forall j ensures InodeAt(p, disk[..], j) == if j == inum then NewDinode(p, typ) else InodeAt(p, img, j) {
        InodeAtAfterWrite(p, img, inum, NewDinode(p, typ), j);
      }
      MetaWriteKeepsImage(p, img, n, freeblock, b, blk);
      NewDinodeIsEmpty(p, disk[..], typ, freeblock);
      assert Consistent(p, disk[..], freeinode, freeblock);
      InodeWriteKeepsMeta(p, img, disk[..], inum);
    }

    /** iappend (mkfs/mkfs.c:335-389): append data to the file of the
        allocated inode inum, taking data blocks from freeblock as needed,
        then store the new size in the inode. The file's contents become
        its old contents followed by data; only its size and block
        pointers change in its inode; every other allocated inode and file
        stays as it was. It fails where mkfs.c stops: when the file would
        pass MAXFILE blocks or a block past the end of the image would be
        used. */
    method Iappend(inum: nat, data: seq<byte>) returns (ok: bool)
      requires Valid() && Ok() && 1 <= inum < freeinode
      modifies this, disk
      ensures Valid() && freeinode == old(freeinode) && old(freeblock) <= freeblock
      ensures !ok ==> Xint(p.host, InodeAt(p, old(disk[..]), inum).size) + |data| > p.maxfile * p.bsize
                      || freeblock == p.fssize + 1
      ensures ok ==> Ok()
      ensures ok ==> var d0, d1 := InodeAt(p, old(disk[..]), inum), InodeAt(p, disk[..], inum);
                d1 == d0.(size := d1.size, addrs := d1.addrs)
                && Contents(p, disk[..], d1) == Contents(p, old(disk[..]), d0) + data
      ensures ok ==> forall j :: 1 <= j < freeinode && j != inum ==> InodeAt(p, disk[..], j) == InodeAt(p, old(disk[..]), j)
      ensures ok ==> forall j :: 1 <= j < freeinode && j != inum ==>
                Contents(p, disk[..], InodeAt(p, disk[..], j)) == Contents(p, old(disk[..]), InodeAt(p, old(disk[..]), j))
      ensures ok ==> AppendKept(p, old(disk[..]), old(freeblock), inum, freeblock, disk[..])
      ensures ok ==> MetaKept(p, old(disk[..]), disk[..])
    {
      ghost var img0, f0 := disk[..], freeblock;
      InodesInInodeRegion(p, inum);
      var found, d0 := Rinode(inum);
      var d, off;
      ok, d, off := AppendLoop(d0, data);
      if !ok {
        return;
      }
      var d1 := d.(size := Xint(p.host, off));
      XintInvolutive(p.host, off);
      ghost var img := disk[..];
      var written := Winode(inum, d1);
      CommitAppend(p, img0, freeinode, f0, inum, data, img, d, freeblock, d1, disk[..]);
      AppendFrame(p, img0, freeinode, f0, inum, img, freeblock, disk[..]);
    }

    /** balloc (mkfs/mkfs.c:314-330): the bitmap block marks exactly the
        blocks below used as in use; it stops at the assert used < BPB.
        The block is written at bmapstart itself; mkfs.c writes it at
        sb.bmapstart, which differs on a big-endian host (see
        BitmapSectorOnBigEndianHost). */
    method Balloc(used: nat) returns (ok: bool)
      requires Valid() && Ok()
      modifies disk
      ensures Valid() && Ok()
      ensures ok == (used < p.bpb)
      ensures !ok ==> disk[..] == old(disk[..])
      ensures ok ==> MarksFirst(disk[p.BmapStart()], used)
      ensures ok ==> forall b :: 0 <= b < disk.Length && b != p.BmapStart() ==> disk[b] == old(disk[b])
      ensures forall j :: 1 <= j < freeinode ==> InodeAt(p, disk[..], j) == InodeAt(p, old(disk[..]), j)
      ensures forall j, o: nat :: 1 <= j < freeinode ==>
                FileByte(p, disk[..], InodeAt(p, disk[..], j), o) == FileByte(p, old(disk[..]), InodeAt(p, old(disk[..]), j), o)
    {
      if used >= p.bpb {
        return false;
      }
      ok := true;
      var buf := BitmapBlock(p.bsize, used);
      ghost var img := disk[..];
      var b := p.BmapStart();
      Wsect(b, buf);
      assert disk[b] == disk[..][b] == buf;
      forall j | 1 <= j < freeinode ensures InodeAt(p, disk[..], j) == InodeAt(p, img, j) {
        InodesInInodeRegion(p, j);
      }
      MetaWriteKeepsImage(p, img, freeinode, freeblock, b, buf);
    }

    /** The root directory's size fix at the end of main
        (mkfs/mkfs.c:225-232): the size of inode inum becomes RootSize of
        its old size; no block pointer, no other inode and no file byte
        changes. */
    method FixRootSize(inum: nat)
      requires Valid() && Ok() && 1 <= inum < freeinode
      modifies disk
      ensures Valid() && Ok()
      ensures var d0 := InodeAt(p, old(disk[..]), inum);
                InodeAt(p, disk[..], inum) == d0.(size := Xint(p.host, RootSize(p, Xint(p.host, d0.size))))
      ensures forall j :: j != inum ==> InodeAt(p, disk[..], j) == InodeAt(p, old(disk[..]), j)
      ensures forall o: nat :: FileByte(p, disk[..], InodeAt(p, disk[..], inum), o) == FileByte(p, old(disk[..]), InodeAt(p, old(disk[..]), inum), o)
      ensures forall j :: 1 <= j < freeinode && j != inum ==>
                Contents(p, disk[..], InodeAt(p, disk[..], j)) == Contents(p, old(disk[..]), InodeAt(p, old(disk[..]), j))
      ensures SameBut(old(disk[..]), IBlock(p, inum), disk[..]) && MetaKept(p, old(disk[..]), disk[..])
    {
      ghost var img := disk[..];
      InodesInInodeRegion(p, inum);
      var found, din := Rinode(inum);
      var off := Xint(p.host, din.size);
      off := RootSize(p, off);
      din := din.(size := Xint(p.host, off));
      var written := Winode(inum, din);
      RewriteInode(p, img, freeinode, freeblock, inum, din, disk[..]);
      InodeWriteKeepsMeta(p, img, disk[..], inum);
    }

    /** The start of main (mkfs/mkfs.c:154-163): every block of the image
        zeroed, the superblock written to block 1, freeinode at 1 and
        freeblock at the first data block. */
    constructor (p: Params)
      requires p.Valid()
      ensures Valid() && Ok() && this.p == p && fresh(disk)
      ensures freeinode == 1 && freeblock == p.NMeta()
      ensures disk[1] == Superblock(p)
      ensures forall b :: 0 <= b < disk.Length && b != 1 ==> disk[b] == Zeros(p.bsize)
    {
      var img := new seq<byte>[p.fssize];
      var i := 0;
      while i < p.fssize
        invariant i <= p.fssize
        invariant forall b :: 0 <= b < i ==> img[b] == Zeros(p.bsize)
      {
        img[i] := Zeros(p.bsize);
        i := i + 1;
      }
      img[1] := Superblock(p);
      this.p := p;
      disk := img;
      freeinode := 1;
      freeblock := p.NMeta();
      new;
      RegionsAreContiguous(p);
      assert Disjoint(p, disk[..], 1);
    }

    /** File block fbn < NDIRECT of the file whose dinode is d: a zero
        direct pointer takes the next block from freeblock
        (mkfs/mkfs.c:351-358). */
    method MapDirect(d: Dinode, fbn: nat) returns (ok: bool, d': Dinode, x: nat)
      requires Valid() && Shaped(p, d) && fbn < p.maxfile && fbn < p.ndirect && freeblock <= p.fssize
      requires FileWF(p, disk[..], d, freeblock) && ZerosFrom(p, disk[..], freeblock)
      modifies this
      ensures Valid() && freeinode == old(freeinode) && old(freeblock) <= freeblock
      ensures Shaped(p, d') && d' == d.(addrs := d'.addrs)
      ensures disk[..] == old(disk[..])
      ensures ok && Mapped(p, old(disk[..]), d, old(freeblock), disk[..], d', freeblock, fbn, x)
    {
      d' := d;
      if Xint(p.host, d.addrs[fbn]) == 0 {
        AllocDirect(p, disk[..], d, freeblock, fbn);
        AllocDirectKeepsBytes(p, disk[..], d, freeblock, fbn);
        d' := d.(addrs := d.addrs[fbn := Xint(p.host, freeblock)]);
        freeblock := freeblock + 1;
      }
      XintZero(p.host, d'.addrs[fbn]);
      ok, x := true, Xint(p.host, d'.addrs[fbn]);
    }

    /** The indirect pointer of the file whose dinode is d, taking the
        next block from freeblock when it is zero (mkfs/mkfs.c:361-364). */
    method IndirectPointer(d: Dinode) returns (d': Dinode)
      requires Valid() && Shaped(p, d) && freeblock <= p.fssize
      requires FileWF(p, disk[..], d, freeblock) && ZerosFrom(p, disk[..], freeblock)
      modifies this
      ensures Valid() && freeinode == old(freeinode) && freeblock <= p.fssize + 1
      ensures Shaped(p, d') && d' == d.(addrs := d'.addrs) && IndBlock(p, d') != 0
      ensures || (freeblock == old(freeblock) && IndBlock(p, d') == IndBlock(p, d))
              || (freeblock == old(freeblock) + 1 && IndBlock(p, d') == old(freeblock) && IndBlock(p, d) == 0)
      ensures FileWF(p, disk[..], d', freeblock)
      ensures forall k :: 0 <= k < p.maxfile ==> BlockOf(p, disk[..], d', k) == BlockOf(p, disk[..], d, k)
      ensures forall o: nat :: FileByte(p, disk[..], d', o) == FileByte(p, disk[..], d, o)
    {
      d' := d;
      if Xint(p.host, d.addrs[p.ndirect]) == 0 {
        AllocIndirect(p, disk[..], d, freeblock);
        d' := d.(addrs := d.addrs[p.ndirect := Xint(p.host, freeblock)]);
        AllocIndirectKeepsBytes(p, disk[..], d, d');
        freeblock := freeblock + 1;
      }
    }

    /** File block fbn >= NDIRECT of the file whose dinode is d: a zero
        indirect pointer and a null indirect entry each take the next block
        from freeblock (mkfs/mkfs.c:360-373). */
    method MapIndirect(d: Dinode, fbn: nat) returns (ok: bool, d': Dinode, x: nat)
      requires Valid() && Shaped(p, d) && p.ndirect <= fbn < p.maxfile && freeblock <= p.fssize
      requires FileWF(p, disk[..], d, freeblock) && ZerosFrom(p, disk[..], freeblock)
      modifies this, disk
      ensures Valid() && freeinode == old(freeinode) && old(freeblock) <= freeblock
      ensures Shaped(p, d') && d' == d.(addrs := d'.addrs)
      ensures !ok ==> freeblock == p.fssize + 1
      ensures ok ==> Mapped(p, old(disk[..]), d, old(freeblock), disk[..], d', freeblock, fbn, x) && IndBlock(p, d') != 0
      ensures ok ==> forall b :: 0 <= b < disk.Length && b != IndBlock(p, d') ==> disk[b] == old(disk[b])
    {
      d' := IndirectPointer(d);
      if freeblock > p.fssize {
        // the indirect block was taken past the end of the image
        return false, d', 0;
      }
      ok := true;
      x := IndirectEntry(d, old(freeblock), d', fbn);
    }

    /** Entry fbn - NDIRECT of the indirect block of d, which is nonzero: a
        null entry takes the next block from freeblock and the indirect
        block is written back (mkfs/mkfs.c:366-373). The file was d0, and
        the counter f0, before the indirect pointer was looked up. */
    method IndirectEntry(ghost d0: Dinode, ghost f0: nat, d: Dinode, fbn: nat) returns (x: nat)
      requires Valid() && EntryReady(p, disk[..], d0, f0, d, freeblock, fbn)
      modifies this, disk
      ensures Valid() && freeinode == old(freeinode) && old(freeblock) <= freeblock
      ensures Mapped(p, old(disk[..]), d0, f0, disk[..], d, freeblock, fbn, x)
      ensures forall b :: 0 <= b < disk.Length && b != IndBlock(p, d) ==> disk[b] == old(disk[b])
    {
      var ia := Xint(p.host, d.addrs[p.ndirect]);
      var found, indirect := Rsect(ia);
      ghost var img := disk[..];
      var j := fbn - p.ndirect;
      var e := Entry(p.host, indirect, j);
      if e == 0 {
        x := TakeEntry(d0, f0, d, fbn, indirect);
      } else {
        EntryPresent(p, img, d0, f0, d, freeblock, fbn);
        x := Xint(p.host, e);
      }
    }

    /** A null entry of the indirect block takes block freeblock
        (mkfs/mkfs.c:366-370). */
    method TakeEntry(ghost d0: Dinode, ghost f0: nat, d: Dinode, fbn: nat, indirect: seq<byte>) returns (x: nat)
      requires Valid() && EntryReady(p, disk[..], d0, f0, d, freeblock, fbn)
      requires indirect == disk[IndBlock(p, d)] && Entry(p.host, indirect, fbn - p.ndirect) == 0
      modifies this, disk
      ensures Valid() && freeinode == old(freeinode) && old(freeblock) <= freeblock
      ensures Mapped(p, old(disk[..]), d0, f0, disk[..], d, freeblock, fbn, x)
      ensures forall b :: 0 <= b < disk.Length && b != IndBlock(p, d) ==> disk[b] == old(disk[b])
    {
      ghost var img := disk[..];
      var ia := Xint(p.host, d.addrs[p.ndirect]);
      Wsect(ia, SetEntry(p.host, indirect, fbn - p.ndirect, Xint(p.host, freeblock)));
      EntryTaken(p, img, d0, f0, d, freeblock, fbn, disk[..]);
      x := freeblock;
      freeblock := freeblock + 1;
    }

    /** The loop of iappend (mkfs/mkfs.c:345-384) on the dinode d0 of inode
        inum, whose size is size0: it copies data block by block from file
        offset size0 on, taking blocks from freeblock as it goes. It stops
        with a failure when a file block would pass MAXFILE (the assert of
        mkfs/mkfs.c:350) or a block taken lies past the image. */
    method AppendLoop(d0: Dinode, data: seq<byte>) returns (ok: bool, d: Dinode, off: nat)
      requires Valid() && Shaped(p, d0) && freeblock <= p.fssize
      requires FileWF(p, disk[..], d0, freeblock) && ZerosFrom(p, disk[..], freeblock)
      modifies this, disk
      ensures Valid() && freeinode == old(freeinode) && old(freeblock) <= freeblock
      ensures !ok ==> Xint(p.host, d0.size) + |data| > p.maxfile * p.bsize || freeblock == p.fssize + 1
      ensures ok ==> off == Xint(p.host, d0.size) + |data| && (|data| == 0 || off <= p.maxfile * p.bsize)
      ensures ok ==> Appending(p, old(disk[..]), d0, old(freeblock), Xint(p.host, d0.size), data, disk[..], d, freeblock, |data|)
    {
      ghost var img0, f0 := disk[..], freeblock;
      var size0 := Xint(p.host, d0.size);
      d, off := d0, size0;
      var pos := 0;
      while pos < |data|
        invariant Valid() && freeinode == old(freeinode)
        invariant pos <= |data| && off == size0 + pos
        invariant pos > 0 ==> off <= p.maxfile * p.bsize
        invariant Appending(p, img0, d0, f0, size0, data, disk[..], d, freeblock, pos)
        decreases |data| - pos
      {
        if off / p.bsize >= p.maxfile {
          PastMaxfile(off, p.bsize, p.maxfile);
          return false, d, off;
        }
        var n1;
        ok, d, n1 := AppendStep(img0, d0, f0, size0, d, data, pos);
        if !ok {
          return false, d, off;
        }
        off, pos := off + n1, pos + n1;
      }
      ok := true;
    }

    /** One round of the loop of iappend (mkfs/mkfs.c:347-383): look up or
        take the block of file offset size0 + pos, then copy the part of
        data that fits in that block into it. */
    method AppendStep(ghost img0: Image, ghost d0: Dinode, ghost f0: nat, size0: nat, d: Dinode, data: seq<byte>, pos: nat)
      returns (ok: bool, d': Dinode, n1: nat)
      requires Valid() && pos < |data| && (size0 + pos) / p.bsize < p.maxfile
      requires Appending(p, img0, d0, f0, size0, data, disk[..], d, freeblock, pos)
      modifies this, disk
      ensures Valid() && freeinode == old(freeinode) && old(freeblock) <= freeblock
      ensures !ok ==> freeblock == p.fssize + 1
      ensures ok ==> 0 < n1 <= |data| - pos && size0 + pos + n1 <= p.maxfile * p.bsize
      ensures ok ==> Appending(p, img0, d0, f0, size0, data, disk[..], d', freeblock, pos + n1)
    {
      ModBelow(size0 + pos, p.bsize);
      var fbn := (size0 + pos) / p.bsize;
      var x, buf;
      ok, d', x, buf := LocateBlock(img0, d0, f0, size0, d, data, pos, fbn);
      if !ok {
        return false, d', 0;
      }
      n1 := CopyChunk(img0, d0, f0, size0, d', data, pos, fbn, x, buf);
    }

    /** The block lookup of one round of iappend and the read of the block
        found (mkfs/mkfs.c:349-373, 377); the read fails when the block was
        taken past the end of the image. */
    method LocateBlock(ghost img0: Image, ghost d0: Dinode, ghost f0: nat, size0: nat, d: Dinode, data: seq<byte>,
                       pos: nat, fbn: nat)
      returns (ok: bool, d': Dinode, x: nat, buf: seq<byte>)
      requires Valid() && pos < |data| && fbn == (size0 + pos) / p.bsize && fbn < p.maxfile
      requires Appending(p, img0, d0, f0, size0, data, disk[..], d, freeblock, pos)
      modifies this, disk
      ensures Valid() && freeinode == old(freeinode) && old(freeblock) <= freeblock
      ensures !ok ==> freeblock == p.fssize + 1
      ensures ok ==> Located(p, img0, d0, f0, size0, data, disk[..], d', freeblock, pos, fbn, x)
      ensures ok ==> buf == disk[x]
    {
      ghost var img, f := disk[..], freeblock;
      if fbn < p.ndirect {
        ok, d', x := MapDirect(d, fbn);
      } else {
        ok, d', x := MapIndirect(d, fbn);
        if !ok {
          return false, d', 0, [];
        }
      }
      MapStep(p, img0, d0, f0, img, d, f, disk[..], d', freeblock, fbn, x);
      ok, buf := Rsect(x);
    }

    /** The copy of one round of iappend (mkfs/mkfs.c:375-383): as much of
        data from pos on as fits in block x after file offset size0 + pos
        is copied there. */
    method CopyChunk(ghost img0: Image, ghost d0: Dinode, ghost f0: nat, size0: nat, d: Dinode, data: seq<byte>,
                     pos: nat, fbn: nat, x: nat, buf: seq<byte>)
      returns (n1: nat)
      requires Valid() && pos < |data|
      requires Located(p, img0, d0, f0, size0, data, disk[..], d, freeblock, pos, fbn, x)
      requires buf == disk[x]
      modifies disk
      ensures Valid()
      ensures 0 < n1 <= |data| - pos && size0 + pos + n1 <= p.maxfile * p.bsize
      ensures Appending(p, img0, d0, f0, size0, data, disk[..], d, freeblock, pos + n1)
    {
      var off := size0 + pos;
      ChunkBounds(off, p.bsize, p.maxfile, |data| - pos);
      n1 := ChunkLen(off, p.bsize, |data| - pos);
      var s := off - fbn * p.bsize;
      ghost var img1 := disk[..];
      Wsect(x, Splice(buf, s, data[pos .. pos + n1]));
      assert disk[..] == WithChunk(img1, x, s, data[pos .. pos + n1]);
      ChunkStep(p, img0, d0, f0, size0, img1, d, freeblock, fbn, x, data, pos, n1, disk[..]);
    }
  }
}
