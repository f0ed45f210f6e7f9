/** The on-disk records the image builder writes: inodes packed into inode
    blocks, block numbers packed into an indirect block, directory entries,
    and the free-block bitmap (mkfs/mkfs.c:168-176, 212-215, 254-281,
    313-330, 341-373).

    A record is written by copying the C struct byte for byte, so every
    field lands in HOST byte order; fields that must be little-endian on
    disk go through xshort or xint first. */
module DiskFormat {
  import opened ByteOrder
  import opened Layout

  // -----------------------------------------------------------------------
  // struct dinode, as held in memory (fields already in disk order).

  datatype Dinode = Dinode(
    typ: uint16,
    major: uint16,
    minor: uint16,
    nlink: uint16,
    size: uint32,
    addrs: seq<uint32>)   // NDIRECT direct pointers, then the indirect one

  /** The bytes of a dinode copied out of memory. */
  function EncodeDinode(h: Endian, d: Dinode): (b: seq<byte>)
    ensures |b| == 12 + 4 * |d.addrs|
  {
    HostBytes16(h, d.typ) + HostBytes16(h, d.major) + HostBytes16(h, d.minor)
      + HostBytes16(h, d.nlink) + HostBytes32(h, d.size) + HostWords(h, d.addrs)
  }

  /** The dinode whose memory is the given bytes. */
  function DecodeDinode(h: Endian, b: seq<byte>): (d: Dinode)
    requires |b| >= 12 && |b| % 4 == 0
    ensures 12 + 4 * |d.addrs| == |b|
  {
    Dinode(FromHost16(h, b[0..2]), FromHost16(h, b[2..4]), FromHost16(h, b[4..6]),
           FromHost16(h, b[6..8]), FromHost32(h, b[8..12]), DecodeWords(h, b[12..]))
  }

  /** A dinode copied out and back in is the same dinode. */
  lemma DinodeRoundTrip(h: Endian, d: Dinode)
    ensures DecodeDinode(h, EncodeDinode(h, d)) == d
  {
    var b := EncodeDinode(h, d);
    assert b[0..2] == HostBytes16(h, d.typ);
    assert b[2..4] == HostBytes16(h, d.major);
    assert b[4..6] == HostBytes16(h, d.minor);
    assert b[6..8] == HostBytes16(h, d.nlink);
    assert b[8..12] == HostBytes32(h, d.size);
    assert b[12..] == HostWords(h, d.addrs);
    Host16RoundTrip(h, d.typ);
    Host16RoundTrip(h, d.major);
    Host16RoundTrip(h, d.minor);
    Host16RoundTrip(h, d.nlink);
    Host32RoundTrip(h, d.size);
    DecodeHostWords(h, d.addrs);
  }

  /** A dinode of the shape struct dinode has under p. */
  predicate Shaped(p: Params, d: Dinode) {
    |d.addrs| == p.ndirect + 1
  }

  // -----------------------------------------------------------------------
  // Inode slots of an inode block: ((struct dinode *)buf) + (inum % IPB).

  /** The offset of slot s in its inode block; the slot ends inside the block. */
  function SlotStart(p: Params, s: nat): (lo: nat)
    requires p.Valid() && s < p.ipb
    ensures lo + p.DinodeSize() <= p.bsize
  {
    ProductsApart(s, p.ipb, p.DinodeSize());
    s * p.DinodeSize()
  }

  /** The bytes of slot s of an inode block. */
  function Slot(p: Params, blk: seq<byte>, s: nat): (b: seq<byte>)
    requires p.Valid() && |blk| == p.bsize && s < p.ipb
    ensures |b| == p.DinodeSize()
  {
    blk[SlotStart(p, s) .. SlotStart(p, s) + p.DinodeSize()]
  }

  /** The dinode in slot s of an inode block (rinode, mkfs/mkfs.c:279-280). */
  function SlotInode(p: Params, blk: seq<byte>, s: nat): (d: Dinode)
    requires p.Valid() && |blk| == p.bsize && s < p.ipb
    ensures Shaped(p, d)
  {
    DinodeWords(p);
    DecodeDinode(p.host, Slot(p, blk, s))
  }

  /** A slot holds the four 16-bit fields, the size and ndirect + 1
      addresses, all 32-bit words. */
  lemma DinodeWords(p: Params)
    ensures p.DinodeSize() == 12 + 4 * (p.ndirect + 1) && p.DinodeSize() % 4 == 0
  {
    assert p.DinodeSize() == 4 * (p.ndirect + 4);
  }

  /** The inode block with slot s overwritten by d (winode, mkfs/mkfs.c:263-264). */
  function WithSlot(p: Params, blk: seq<byte>, s: nat, d: Dinode): (r: seq<byte>)
    requires p.Valid() && |blk| == p.bsize && s < p.ipb && Shaped(p, d)
    ensures |r| == p.bsize
  {
    blk[.. SlotStart(p, s)] + EncodeDinode(p.host, d) + blk[SlotStart(p, s) + p.DinodeSize() ..]
  }

  /** Two distinct slots do not overlap. */
  lemma SlotsDisjoint(p: Params, s: nat, t: nat)
    requires p.Valid() && s < p.ipb && t < p.ipb && s != t
    ensures SlotStart(p, s) + p.DinodeSize() <= SlotStart(p, t) || SlotStart(p, t) + p.DinodeSize() <= SlotStart(p, s)
  {
    if s < t {
      ProductsApart(s, t, p.DinodeSize());
    } else {
      ProductsApart(t, s, p.DinodeSize());
    }
  }

  /** Below a larger multiple of m there is room for one more m. */
  lemma ProductsApart(s: nat, t: nat, m: nat)
    requires s < t
    ensures s * m + m <= t * m
  {
    MulMono(s + 1, t, m);
    MulSucc(s, m);
  }

  /** Writing slot s and reading slot t gives d when t == s and the old
      content of slot t otherwise: winode touches one dinode of the block
      and a following rinode of it returns what was written
      (mkfs/mkfs.c:254-281). */
  lemma SlotAfterWrite(p: Params, blk: seq<byte>, s: nat, d: Dinode, t: nat)
    requires p.Valid() && |blk| == p.bsize && s < p.ipb && t < p.ipb && Shaped(p, d)
    ensures SlotInode(p, WithSlot(p, blk, s, d), t) == if t == s then d else SlotInode(p, blk, t)
  {
    if t == s {
      SpliceInside(blk, SlotStart(p, s), EncodeDinode(p.host, d));
      DinodeRoundTrip(p.host, d);
    } else {
      SlotsDisjoint(p, s, t);
      SpliceOutside(blk, SlotStart(p, s), EncodeDinode(p.host, d), SlotStart(p, t), p.DinodeSize());
    }
  }

  /** Reading back the part of a block just overwritten gives what was written. */
  lemma SpliceInside(blk: seq<byte>, lo: nat, e: seq<byte>)
    requires lo + |e| <= |blk|
    ensures (blk[..lo] + e + blk[lo + |e|..])[lo .. lo + |e|] == e
  {
  }

  /** A part of a block that does not overlap the part overwritten keeps
      its bytes. */
  lemma SpliceOutside(blk: seq<byte>, lo: nat, e: seq<byte>, a: nat, n: nat)
    requires lo + |e| <= |blk| && a + n <= |blk| && (a + n <= lo || lo + |e| <= a)
    ensures (blk[..lo] + e + blk[lo + |e|..])[a .. a + n] == blk[a .. a + n]
  {
    var r := blk[..lo] + e + blk[lo + |e|..];
    var x, y := r[a .. a + n], blk[a .. a + n];
    forall i | 0 <= i < n ensures x[i] == y[i] {
      assert r[a + i] == blk[a + i];
    }
  }


  // -----------------------------------------------------------------------
  // Indirect blocks: uint indirect[NINDIRECT] read over the block's bytes.

  /** Entry k of an indirect block, as the uint array holds it. */
  function Entry(h: Endian, blk: seq<byte>, k: nat): uint32
    requires 4 * k + 4 <= |blk|
  {
    FromHost32(h, blk[4 * k .. 4 * k + 4])
  }

  /** The indirect block with entry k set to v. */
  function SetEntry(h: Endian, blk: seq<byte>, k: nat, v: uint32): (r: seq<byte>)
    requires 4 * k + 4 <= |blk|
    ensures |r| == |blk|
  {
    blk[.. 4 * k] + HostBytes32(h, v) + blk[4 * k + 4 ..]
  }

  /** Setting one entry changes that entry only (mkfs/mkfs.c:368-371). */
  lemma EntryAfterSet(h: Endian, blk: seq<byte>, k: nat, v: uint32, j: nat)
    requires 4 * k + 4 <= |blk| && 4 * j + 4 <= |blk|
    ensures Entry(h, SetEntry(h, blk, k, v), j) == if j == k then v else Entry(h, blk, j)
  {
    var r := SetEntry(h, blk, k, v);
    if j == k {
      assert r[4 * k .. 4 * k + 4] == HostBytes32(h, v);
      Host32RoundTrip(h, v);
    } else {
      assert r[4 * j .. 4 * j + 4] == blk[4 * j .. 4 * j + 4];
    }
  }

  /** Every entry of a zeroed block is the null block number. */
  lemma EntryOfZeros(h: Endian, n: nat, k: nat)
    requires 4 * k + 4 <= n
    ensures Entry(h, Zeros(n), k) == 0
  {
    assert Zeros(n)[4 * k .. 4 * k + 4] == [0, 0, 0, 0];
  }

  // -----------------------------------------------------------------------
  // struct dirent (mkfs/mkfs.c:168-176, 212-215).

  /** A directory entry: inum through xshort, then the name zero-filled to
      DIRSIZ bytes (bzero, then strcpy or strncpy). */
  function DirentBytes(p: Params, inum: uint16, name: seq<byte>): (b: seq<byte>)
    requires |name| <= p.dirsiz
    ensures |b| == p.DirentSize()
    ensures b[0..2] == Le16(inum)
    ensures b[2 .. 2 + |name|] == name
    ensures forall i :: 2 + |name| <= i < |b| ==> b[i] == 0
  {
    HostBytes16(p.host, Xshort(p.host, inum)) + name + Zeros(p.dirsiz - |name|)
  }

  // -----------------------------------------------------------------------
  // Bits of a byte, and the C `|` on bytes.

  function Pow2(n: nat): (r: nat)
    ensures r > 0
  {
    if n == 0 then 1 else 2 * Pow2(n - 1)
  }

  /** Bit i of x (x >> i & 1). */
  predicate Bit(x: nat, i: nat) {
    if i == 0 then x % 2 == 1 else Bit(x / 2, i - 1)
  }

  /** Bitwise or of two naturals. */
  function Or(a: nat, b: nat): nat
    decreases a + b
  {
    if a == 0 && b == 0 then 0
    else 2 * Or(a / 2, b / 2) + (if a % 2 == 1 || b % 2 == 1 then 1 else 0)
  }

  /** A bit of a | b is set exactly when it is set in a or in b. */
  lemma {:induction false} BitOr(a: nat, b: nat, i: nat)
    ensures Bit(Or(a, b), i) == (Bit(a, i) || Bit(b, i))
    decreases i
  {
    if a == 0 && b == 0 {
      ZeroHasNoBits(i);
    } else if i > 0 {
      BitOr(a / 2, b / 2, i - 1);
    }
  }

  lemma {:induction false} ZeroHasNoBits(i: nat)
    ensures !Bit(0, i)
  {
    if i > 0 { ZeroHasNoBits(i - 1); }
  }

  /** 1 << k has bit k and no other. */
  lemma {:induction false} BitOfPow2(k: nat, i: nat)
    ensures Bit(Pow2(k), i) == (i == k)
  {
    if k == 0 {
      if i > 0 { ZeroHasNoBits(i - 1); }
    } else if i > 0 {
      BitOfPow2(k - 1, i - 1);
    }
  }

  /** a | b stays below 2^n when a and b do. */
  lemma {:induction false} OrBound(a: nat, b: nat, n: nat)
    requires a < Pow2(n) && b < Pow2(n)
    ensures Or(a, b) < Pow2(n)
    decreases n
  {
    if a == 0 && b == 0 {
    } else if n == 0 {
    } else {
      OrBound(a / 2, b / 2, n - 1);
    }
  }

  /** A number below 2^n has no bit at n or above. */
  lemma {:induction false} NoHighBits(x: nat, n: nat, i: nat)
    requires x < Pow2(n) && i >= n
    ensures !Bit(x, i)
    decreases i
  {
    if n == 0 {
      assert x == 0;
      ZeroHasNoBits(i);
    } else {
      NoHighBits(x / 2, n - 1, i - 1);
    }
  }

  /** Two bytes with the same eight bits are the same byte. */
  lemma {:induction false} BitsDetermine(x: nat, y: nat, n: nat)
    requires x < Pow2(n) && y < Pow2(n)
    requires forall i :: 0 <= i < n ==> Bit(x, i) == Bit(y, i)
    ensures x == y
    decreases n
  {
    if n > 0 {
      forall i | 0 <= i < n - 1 ensures Bit(x / 2, i) == Bit(y / 2, i) {
        assert Bit(x, i + 1) == Bit(y, i + 1);
      }
      BitsDetermine(x / 2, y / 2, n - 1);
      assert Bit(x, 0) == Bit(y, 0);
    }
  }

  // -----------------------------------------------------------------------
  // The free-block bitmap.

  /** blk is a bitmap block in which bit i%8 of byte i/8 is set exactly for
      the blocks i < used. */
  ghost predicate MarksFirst(blk: seq<byte>, used: nat) {
    forall j, i :: 0 <= j < |blk| && 0 <= i < 8 ==> (Bit(blk[j], i) <==> 8 * j + i < used)
  }

  /** At most one block fits that description. */
  lemma MarksFirstUnique(a: seq<byte>, b: seq<byte>, used: nat)
    requires |a| == |b| && MarksFirst(a, used) && MarksFirst(b, used)
    ensures a == b
  {
    forall j | 0 <= j < |a| ensures a[j] == b[j] {
      assert Pow2(8) == 256;
      forall i | 0 <= i < 8 ensures Bit(a[j], i) == Bit(b[j], i) {
      }
      BitsDetermine(a[j], b[j], 8);
    }
  }
}
