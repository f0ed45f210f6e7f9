/** The constants the image builder is compiled with, the disk layout it
    computes from them (mkfs/mkfs.c:60-67, 139-154) and the superblock it
    writes (mkfs/mkfs.c:142-163).

    The constants of kernel/fs.h, kernel/param.h and kernel/stat.h are not
    part of this model: they are the fields of Params, and Params.Valid()
    assumes only the relations between them that mkfs.c relies on. */
module Layout {
  import opened ByteOrder

  /** Number of inodes in the image (mkfs/mkfs.c:60). */
  const NINODES: nat := 200

  /** Bytes of a superblock: eight 32-bit fields. */
  const SUPERBLOCK_SIZE: nat := 32

  datatype Params = Params(
    bsize: nat,      // BSIZE: bytes per block (= per disk sector)
    ndirect: nat,    // NDIRECT: direct block pointers in an inode
    nindirect: nat,  // NINDIRECT: block numbers in an indirect block
    maxfile: nat,    // MAXFILE: largest file, in blocks
    ipb: nat,        // IPB: inodes per block
    bpb: nat,        // BPB: bitmap bits per block
    fssize: nat,     // FSSIZE: blocks in the image
    logsize: nat,    // LOGSIZE: blocks in the log region
    dirsiz: nat,     // DIRSIZ: bytes of a directory entry's name
    rootino: nat,    // ROOTINO: inode number of the root directory
    fsmagic: uint32, // FSMAGIC
    tdir: uint16,    // T_DIR
    tfile: uint16,   // T_FILE
    host: Endian)    // byte order of the machine mkfs runs on
  {
    /** Bytes of a struct dinode: type, major, minor, nlink (16 bits each),
        size and NDIRECT+1 block numbers (32 bits each). */
    function DinodeSize(): nat { 12 + 4 * (ndirect + 1) }

    /** Bytes of a struct dirent: a 16-bit inode number and the name. */
    function DirentSize(): nat { 2 + dirsiz }

    /** What mkfs.c needs of the constants to compute the layout. */
    predicate Positive() { bsize > 0 && ipb > 0 && bpb > 0 }

    function NBitmap(): nat requires Positive() { fssize / bpb + 1 }
    function NInodeBlocks(): nat requires Positive() { NINODES / ipb + 1 }
    function NLog(): nat { logsize }

    function LogStart(): nat { 2 }
    function InodeStart(): nat { 2 + NLog() }
    function BmapStart(): nat requires Positive() { 2 + NLog() + NInodeBlocks() }

    /** Boot block, superblock, log, inode blocks and bitmap. */
    function NMeta(): nat requires Positive() { 2 + NLog() + NInodeBlocks() + NBitmap() }

    /** Data blocks; a C int, negative when the metadata does not fit. */
    function NBlocks(): int requires Positive() { fssize - NMeta() }

    /** What the block map of a file needs: a file block index below
        MAXFILE is direct or has an entry in the indirect block, which holds
        NINDIRECT block numbers of 4 bytes (mkfs/mkfs.c:341, 350-368). */
    predicate FileShape() {
      bsize > 0 && 4 * nindirect == bsize && maxfile <= ndirect + nindirect
    }

    /** The relations between the constants that the builder relies on. */
    predicate Valid() {
      && Positive()
      // asserted at mkfs/mkfs.c:129-130
      && bsize % DinodeSize() == 0
      && bsize % DirentSize() == 0
      // struct dirent has no padding, so sizeof is DirentSize()
      && dirsiz % 2 == 0
      // a dinode slot lies inside its inode block (mkfs/mkfs.c:263, 279)
      && ipb * DinodeSize() <= bsize
      && FileShape()
      // balloc sets bit i < BPB in a BSIZE-byte buffer (mkfs/mkfs.c:320-326)
      && bpb <= 8 * bsize
      // the superblock is copied into the first bytes of a block (mkfs/mkfs.c:162)
      && SUPERBLOCK_SIZE <= bsize
      // file offsets are uint (mkfs/mkfs.c:338)
      && maxfile * bsize < 0x1_0000_0000
      // block numbers are uint and the metadata fits in the image
      && NMeta() <= fssize < 0x1_0000_0000
      // the uint byte offset sec * BSIZE of rsect and wsect
      // (mkfs/mkfs.c:242, 286) does not wrap for any block of the image
      // or the one past its end
      && fssize * bsize < 0x1_0000_0000
      && NINODES < 0x1_0000
    }
  }

  /** IBLOCK: the block that holds inode inum, counted from the start of
      the inode region: the k-th block of the region holds the IPB inodes
      from k * IPB on. */
  function IBlock(p: Params, inum: nat): (b: nat)
    requires p.Positive()
    ensures p.InodeStart() <= b
    ensures (b - p.InodeStart()) * p.ipb <= inum < (b - p.InodeStart()) * p.ipb + p.ipb
  {
    DivBounds(inum, p.ipb);
    inum / p.ipb + p.InodeStart()
  }

  /** Monotonicity of division, used for the region bounds below. */
  lemma DivMonotone(a: nat, b: nat, d: nat)
    requires a <= b && d > 0
    ensures a / d <= b / d
  {
    var qa, qb := a / d, b / d;
    assert d * qa <= a;
    assert b < d * (qb + 1);
    MulCancel(d, qa, qb + 1);
  }

  /** A positive factor can be cancelled from a strict inequality. */
  lemma MulCancel(d: nat, x: int, y: int)
    requires d > 0 && d * x < d * y
    ensures x < y
  {
  }

  /** The quotient of o by m times m lies in the last m numbers up to o. */
  lemma DivBounds(o: nat, m: nat)
    requires m > 0
    ensures (o / m) * m <= o < (o / m) * m + m
    ensures (o / m + 1) * m == (o / m) * m + m
  {
  }

  /** o lies in block q of size m exactly when o / m == q. */
  lemma InBlock(o: nat, m: nat, q: nat)
    requires m > 0 && q * m <= o < q * m + m
    ensures o / m == q && o % m == o - q * m
  {
    DivBounds(o, m);
    var r := o / m;
    assert m * r < m * (q + 1);
    MulCancel(m, r, q + 1);
    assert m * q < m * (r + 1);
    MulCancel(m, q, r + 1);
  }

  lemma MulSucc(q: nat, m: nat)
    ensures (q + 1) * m == q * m + m
  {
  }

  /** Multiplication by m is monotone. */
  lemma MulMono(a: nat, b: nat, m: nat)
    requires a <= b
    ensures a * m <= b * m
  {
  }

  /** One more than the quotient, times the divisor, exceeds the dividend. */
  lemma QuotientPlusOne(a: nat, d: nat)
    requires d > 0
    ensures (a / d + 1) * d > a
  {
    assert d * (a / d) + a % d == a;
    assert (a / d + 1) * d == d * (a / d) + d;
  }

  /** The regions boot | superblock | log | inodes | bitmap | data follow
      each other without gap or overlap, in that order; the data region
      runs from the end of the metadata to the end of the image
      (mkfs/mkfs.c:62-67, 139-149). */
  lemma RegionsAreContiguous(p: Params)
    requires p.Valid()
    ensures p.LogStart() == 2
    ensures p.InodeStart() == p.LogStart() + p.NLog()
    ensures p.BmapStart() == p.InodeStart() + p.NInodeBlocks() > p.InodeStart()
    ensures p.NMeta() == p.BmapStart() + p.NBitmap() > p.BmapStart()
    ensures p.NBlocks() == p.fssize - p.NMeta() >= 0
  {
    QuotientNat(NINODES, p.ipb);
    QuotientNat(p.fssize, p.bpb);
  }

  lemma QuotientNat(a: nat, b: nat)
    requires b > 0
    ensures a / b >= 0
  {
  }

  /** Every inode number below NINODES has its block in the inode region. */
  lemma InodesInInodeRegion(p: Params, inum: nat)
    requires p.Positive() && inum < NINODES
    ensures p.InodeStart() <= IBlock(p, inum) < p.BmapStart()
  {
    DivMonotone(inum, NINODES, p.ipb);
  }

  /** The bitmap region has a bit for every block of the image. */
  lemma BitmapCoversImage(p: Params)
    requires p.Positive()
    ensures p.NBitmap() * p.bpb > p.fssize
  {
    QuotientPlusOne(p.fssize, p.bpb);
  }

  /** The inode region has room for NINODES inodes. */
  lemma InodeRegionHoldsAllInodes(p: Params)
    requires p.Valid()
    ensures p.NInodeBlocks() * p.ipb > NINODES
  {
    QuotientPlusOne(NINODES, p.ipb);
  }

  // -----------------------------------------------------------------------
  // The superblock (mkfs/mkfs.c:142-149, 161-163).

  /** The seven fields after magic, in their logical values: size, nblocks,
      ninodes, nlog, logstart, inodestart, bmapstart. */
  function SuperblockFields(p: Params): (f: seq<uint32>)
    requires p.Valid()
    ensures |f| == 7
  {
    [p.fssize, p.NBlocks(), NINODES, p.NLog(), p.LogStart(), p.InodeStart(), p.BmapStart()]
  }

  /** The superblock block as mkfs.c writes it: magic is stored as the
      plain host value (mkfs/mkfs.c:142), the other fields through xint
      (mkfs/mkfs.c:143-149). */
  function SuperblockAsWritten(p: Params): (b: seq<byte>)
    requires p.Valid()
    ensures |b| == p.bsize
  {
    HostBytes32(p.host, p.fsmagic)
      + HostWords(p.host, XintAll(p.host, SuperblockFields(p)))
      + Zeros(p.bsize - SUPERBLOCK_SIZE)
  }

  /** The superblock block with magic converted like every other field;
      the builder below writes this one. */
  function Superblock(p: Params): (b: seq<byte>)
    requires p.Valid()
    ensures |b| == p.bsize
  {
    HostWords(p.host, XintAll(p.host, [p.fsmagic] + SuperblockFields(p)))
      + Zeros(p.bsize - SUPERBLOCK_SIZE)
  }

  /** Every field of Superblock, magic included, reads back least
      significant byte first as its logical value, and the rest of the
      block is zero: the on-disk image does not depend on the host. */
  lemma SuperblockIsLittleEndian(p: Params)
    requires p.Valid()
    ensures Superblock(p)[..SUPERBLOCK_SIZE] == LeWords([p.fsmagic] + SuperblockFields(p))
    ensures FromLe32(Superblock(p)[0..4]) == p.fsmagic
    ensures FromLe32(Superblock(p)[20..24]) == p.LogStart()
    ensures FromLe32(Superblock(p)[24..28]) == p.InodeStart()
    ensures FromLe32(Superblock(p)[28..32]) == p.BmapStart()
    ensures forall i :: SUPERBLOCK_SIZE <= i < p.bsize ==> Superblock(p)[i] == 0
  {
    var ws := [p.fsmagic] + SuperblockFields(p);
    HostWordsOfXint(p.host, ws);
    var b := Superblock(p);
    assert b[..SUPERBLOCK_SIZE] == LeWords(ws);
    LeWordsAt(ws, 0);
    LeWordsAt(ws, 5);
    LeWordsAt(ws, 6);
    LeWordsAt(ws, 7);
    Le32RoundTrip(p.fsmagic);
    Le32RoundTrip(p.LogStart());
    Le32RoundTrip(p.InodeStart());
    Le32RoundTrip(p.BmapStart());
  }

  /** On a big-endian host, mkfs.c stores magic byte-swapped: read least
      significant byte first, as the RISC-V kernel reads it, the first
      word of the superblock is not FSMAGIC unless FSMAGIC is a byte
      palindrome. */
  lemma MagicAsWrittenOnBigEndianHost(p: Params)
    requires p.Valid() && p.host == Big
    requires Le32(p.fsmagic) != Be32(p.fsmagic)
    ensures FromLe32(SuperblockAsWritten(p)[0..4]) != p.fsmagic
  {
    var b := SuperblockAsWritten(p);
    assert b[0..4] == Be32(p.fsmagic);
    FromLe32RoundTrip(b[0..4]);
  }

  /** On a little-endian host the two superblocks coincide, which is why
      the omission goes unnoticed. */
  lemma MagicAsWrittenOnLittleEndianHost(p: Params)
    requires p.Valid() && p.host == Little
    ensures SuperblockAsWritten(p) == Superblock(p)
  {
    XonLittleEndianIsIdentity(0, p.fsmagic);
  }
}
