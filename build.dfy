/** The body of the image builder's main (mkfs/mkfs.c:154-234): the root
    directory with "." and "..", one inode and one directory entry per
    input file, the root directory's size fix and the free bitmap, driven
    through the Builder's operations. Input files are given as their
    bytes; opening and reading them is not modelled. */
module Build {
  import opened ByteOrder
  import opened Layout
  import opened DiskFormat
  import opened FileMap
  import opened Names
  import opened Mkfs

  const DOT: seq<byte> := [0x2e]          // "."
  const DOTDOT: seq<byte> := [0x2e, 0x2e] // ".."

  /** The contents of inode inum in the image img (none when the
      constants are not ones the builder accepts). */
  ghost function FileIn(p: Params, img: Image, inum: nat): seq<byte>
  {
    if p.Valid() then Contents(p, img, InodeAt(p, img, inum)) else []
  }

  /** The type field of inode inum in the image img, as stored; inode 0
      is never allocated and counts as type 0. */
  ghost function TypeIn(p: Params, img: Image, inum: nat): uint16
  {
    if p.Valid() && inum != 0 then InodeAt(p, img, inum).typ else 0
  }

  /** The size field of inode inum in the image img, as stored. */
  ghost function SizeIn(p: Params, img: Image, inum: nat): uint32
  {
    if p.Valid() then InodeAt(p, img, inum).size else 0
  }

  /** Every allocated file but inum has the same contents in img as in
      img0. */
  ghost predicate OthersKept(p: Params, img0: Image, img: Image, n: nat, inum: nat) {
    forall j :: 1 <= j < n && j != inum ==> FileIn(p, img, j) == FileIn(p, img0, j)
  }

  lemma OthersKeptTrans(p: Params, img0: Image, img1: Image, img2: Image, n: nat, inum: nat)
    requires p.Valid() && OthersKept(p, img0, img1, n, inum) && OthersKept(p, img1, img2, n, inum)
    ensures OthersKept(p, img0, img2, n, inum)
  {
  }

  /** The types of inodes 0 .. n - 1 of img, in order. */
  ghost function Types(p: Params, img: Image, n: nat): (t: seq<uint16>)
    ensures |t| == n
  {
    seq(n, j requires 0 <= j => TypeIn(p, img, j))
  }

  /** Every inode below n has the type in img it had in img0. */
  ghost predicate TypesKept(p: Params, img0: Image, img: Image, n: nat) {
    Types(p, img, n) == Types(p, img0, n)
  }

  /** TypesKept holds exactly when each inode below n keeps its type. */
  lemma TypesKeptOf(p: Params, img0: Image, img: Image, n: nat)
    requires forall j :: 1 <= j < n ==> TypeIn(p, img, j) == TypeIn(p, img0, j)
    ensures TypesKept(p, img0, img, n)
  {
    assert forall j :: 0 <= j < n ==> Types(p, img, n)[j] == Types(p, img0, n)[j];
  }

  lemma TypeKeptAt(p: Params, img0: Image, img: Image, n: nat, j: nat)
    requires TypesKept(p, img0, img, n) && j < n
    ensures TypeIn(p, img, j) == TypeIn(p, img0, j)
  {
    assert Types(p, img, n)[j] == Types(p, img0, n)[j];
  }

  lemma TypesKeptTrans(p: Params, img0: Image, img1: Image, img2: Image, n0: nat, n1: nat)
    requires TypesKept(p, img0, img1, n0) && TypesKept(p, img1, img2, n1) && n0 <= n1
    ensures TypesKept(p, img0, img2, n0)
  {
    forall j | 1 <= j < n0 ensures TypeIn(p, img2, j) == TypeIn(p, img0, j) {
      TypeKeptAt(p, img0, img1, n0, j);
      TypeKeptAt(p, img1, img2, n1, j);
    }
    TypesKeptOf(p, img0, img2, n0);
  }

  /** Inode 1 is a directory and inodes 2 .. k + 1 are plain files, as
      main allocates them (mkfs/mkfs.c:165, 210). */
  ghost predicate Typed(p: Params, img: Image, k: nat) {
    && Xshort(p.host, TypeIn(p, img, 1)) == p.tdir
    && forall j :: 2 <= j < k + 2 ==> Xshort(p.host, TypeIn(p, img, j)) == p.tfile
  }

  /** Steps that keep the type of every allocated inode keep Typed. */
  lemma TypedKept(p: Params, img0: Image, img: Image, k: nat, n: nat)
    requires Typed(p, img0, k) && TypesKept(p, img0, img, n) && k + 2 <= n
    ensures Typed(p, img, k)
  {
    TypeKeptAt(p, img0, img, n, 1);
    forall j | 2 <= j < k + 2 ensures Xshort(p.host, TypeIn(p, img, j)) == p.tfile {
      TypeKeptAt(p, img0, img, n, j);
    }
  }

  /** The root directory (mkfs/mkfs.c:165-176): the first inode allocated
      is a directory, it must be ROOTINO, and it holds the entries "." and
      ".." that both name it. */
  method MakeRoot(b: Builder) returns (ok: bool, rootino: nat)
    requires b.Valid() && b.Ok() && b.freeinode == 1 && 2 <= b.p.dirsiz
    modifies b, b.disk
    ensures b.Valid()
    ensures ok ==> b.Ok() && rootino == b.p.rootino == 1 && b.freeinode == 2
    ensures ok ==> FileIn(b.p, b.disk[..], rootino) == DirentBytes(b.p, 1, DOT) + DirentBytes(b.p, 1, DOTDOT)
    ensures ok ==> Xshort(b.p.host, TypeIn(b.p, b.disk[..], rootino)) == b.p.tdir
    ensures ok ==> MetaKept(b.p, old(b.disk[..]), b.disk[..])
  {
    ghost var img0 := b.disk[..];
    ok, rootino := AllocFile(b, b.p.tdir);
    if !ok || rootino != b.p.rootino {
      // assert(rootino == ROOTINO), mkfs/mkfs.c:166
      return false, rootino;
    }
    assert FileIn(b.p, b.disk[..], rootino) == [];
    var dot, dotdot := DirentBytes(b.p, 1, DOT), DirentBytes(b.p, 1, DOTDOT);
    ghost var img1 := b.disk[..];
    ok := AppendTo(b, rootino, dot);
    if !ok {
      return;
    }
    assert FileIn(b.p, b.disk[..], rootino) == dot;
    ghost var img2 := b.disk[..];
    MetaKeptTrans(b.p, img0, img1, img2);
    TypeKeptAt(b.p, img1, img2, 2, 1);
    ok := AppendTo(b, rootino, dotdot);
    if ok {
      MetaKeptTrans(b.p, img0, img2, b.disk[..]);
      TypeKeptAt(b.p, img2, b.disk[..], 2, 1);
    }
  }

  /** The bytes of one input file appended to inode inum in reads of up to
      BSIZE bytes (mkfs/mkfs.c:217-220): the file ends up holding its old
      contents followed by data, and no other allocated file changes. */
  method CopyIn(b: Builder, inum: nat, data: seq<byte>) returns (ok: bool)
    requires b.Valid() && b.Ok() && 1 <= inum < b.freeinode
    modifies b, b.disk
    ensures b.Valid() && b.freeinode == old(b.freeinode)
    ensures ok ==> b.Ok() && FileIn(b.p, b.disk[..], inum) == FileIn(b.p, old(b.disk[..]), inum) + data
    ensures ok ==> OthersKept(b.p, old(b.disk[..]), b.disk[..], b.freeinode, inum)
    ensures ok ==> TypesKept(b.p, old(b.disk[..]), b.disk[..], b.freeinode)
    ensures ok ==> MetaKept(b.p, old(b.disk[..]), b.disk[..])
  {
    ghost var img0, c0 := b.disk[..], FileIn(b.p, b.disk[..], inum);
    var pos := 0;
    ok := true;
    while pos < |data|
      invariant b.Valid() && b.Ok() && b.freeinode == old(b.freeinode) && pos <= |data|
      invariant Copied(b.p, img0, b.disk[..], inum, b.freeinode, c0 + data[.. pos])
      decreases |data| - pos
    {
      ok, pos := ReadChunk(b, inum, data, pos, img0, c0);
      if !ok {
        return;
      }
    }
    assert data[.. pos] == data;
  }

  /** One pass of the read loop (mkfs/mkfs.c:217-218): the next
      min(BSIZE, rest) bytes of data are appended to file inum. */
  method ReadChunk(b: Builder, inum: nat, data: seq<byte>, pos: nat, ghost img0: Image, ghost c0: seq<byte>)
      returns (ok: bool, pos': nat)
    requires b.Valid() && b.Ok() && 1 <= inum < b.freeinode && pos < |data|
    requires Copied(b.p, img0, b.disk[..], inum, b.freeinode, c0 + data[.. pos])
    modifies b, b.disk
    ensures b.Valid() && b.freeinode == old(b.freeinode)
    ensures ok ==> b.Ok() && pos < pos' <= |data|
    ensures ok ==> Copied(b.p, img0, b.disk[..], inum, b.freeinode, c0 + data[.. pos'])
  {
    var cc := if |data| - pos < b.p.bsize then |data| - pos else b.p.bsize;
    pos' := pos + cc;
    var chunk := data[pos .. pos'];
    ghost var c, c' := c0 + data[.. pos], c0 + data[.. pos'];
    ReadOn(c0, data, pos, cc);
    assert c' == c + chunk;
    ok := CopyStep(b, inum, chunk, img0, c, c');
  }

  /** Appending chunk to file inum keeps Copied with c grown by chunk. */
  method CopyStep(b: Builder, inum: nat, chunk: seq<byte>, ghost img0: Image, ghost c: seq<byte>, ghost c': seq<byte>)
      returns (ok: bool)
    requires b.Valid() && b.Ok() && 1 <= inum < b.freeinode
    requires Copied(b.p, img0, b.disk[..], inum, b.freeinode, c) && c' == c + chunk
    modifies b, b.disk
    ensures b.Valid() && b.freeinode == old(b.freeinode)
    ensures ok ==> b.Ok() && Copied(b.p, img0, b.disk[..], inum, b.freeinode, c')
  {
    ghost var img := b.disk[..];
    ok := AppendTo(b, inum, chunk);
    if ok {
      CopiedNext(b.p, img0, img, b.disk[..], inum, b.freeinode, c, chunk, c');
    }
  }

  /** iappend (mkfs/mkfs.c:335-389) seen file by file: file inum grows by
      chunk, keeps its type, and every other allocated file is unchanged. */
  method AppendTo(b: Builder, inum: nat, chunk: seq<byte>) returns (ok: bool)
    requires b.Valid() && b.Ok() && 1 <= inum < b.freeinode
    modifies b, b.disk
    ensures b.Valid() && b.freeinode == old(b.freeinode)
    ensures ok ==> b.Ok() && FileIn(b.p, b.disk[..], inum) == FileIn(b.p, old(b.disk[..]), inum) + chunk
    ensures ok ==> OthersKept(b.p, old(b.disk[..]), b.disk[..], b.freeinode, inum)
    ensures ok ==> TypesKept(b.p, old(b.disk[..]), b.disk[..], b.freeinode)
    ensures ok ==> MetaKept(b.p, old(b.disk[..]), b.disk[..])
  {
    ghost var img0 := b.disk[..];
    ok := b.Iappend(inum, chunk);
    if ok {
      TypesKeptOf(b.p, img0, b.disk[..], b.freeinode);
    }
  }

  /** ialloc (mkfs/mkfs.c:294-312) seen file by file: the next inode
      number holds an empty file of type typ, and every other allocated
      file and the metadata outside the inode region are kept. */
  method AllocFile(b: Builder, typ: uint16) returns (ok: bool, inum: nat)
    requires b.Valid() && b.Ok()
    modifies b, b.disk
    ensures b.Valid() && b.Ok()
    ensures ok == (old(b.freeinode) < NINODES)
    ensures ok ==> inum == old(b.freeinode) && b.freeinode == inum + 1
    ensures ok ==> FileIn(b.p, b.disk[..], inum) == [] && Xshort(b.p.host, TypeIn(b.p, b.disk[..], inum)) == typ
    ensures ok ==> OthersKept(b.p, old(b.disk[..]), b.disk[..], inum, 0)
    ensures ok ==> TypesKept(b.p, old(b.disk[..]), b.disk[..], inum)
    ensures MetaKept(b.p, old(b.disk[..]), b.disk[..])
  {
    ghost var img0 := b.disk[..];
    ok, inum := b.Ialloc(typ);
    if ok {
      NewDinodeIsEmpty(b.p, b.disk[..], typ, b.freeblock);
      KeptBelow(b.p, img0, b.disk[..], inum);
      TypesKeptOf(b.p, img0, b.disk[..], inum);
    }
  }

  /** File inum of img holds c, every inode below n has the type it had
      in img0, every other file below n is as it was in img0, and so are
      the metadata blocks outside the inode region. */
  ghost predicate Copied(p: Params, img0: Image, img: Image, inum: nat, n: nat, c: seq<byte>) {
    && p.Valid()
    && FileIn(p, img, inum) == c
    && TypesKept(p, img0, img, n)
    && OthersKept(p, img0, img, n, inum)
    && MetaKept(p, img0, img)
  }

  /** One more read appended. */
  lemma CopiedNext(p: Params, img0: Image, img: Image, img': Image, inum: nat, n: nat, c: seq<byte>, chunk: seq<byte>, c': seq<byte>)
    requires Copied(p, img0, img, inum, n, c) && c' == c + chunk
    requires FileIn(p, img', inum) == FileIn(p, img, inum) + chunk
    requires TypesKept(p, img, img', n)
    requires OthersKept(p, img, img', n, inum) && MetaKept(p, img, img')
    ensures Copied(p, img0, img', inum, n, c')
  {
    TypesKeptTrans(p, img0, img, img', n, n);
    OthersKeptTrans(p, img0, img, img', n, inum);
    MetaKeptTrans(p, img0, img, img');
  }

  /** After the bytes of data before pos, the next cc bytes. */
  lemma ReadOn(c0: seq<byte>, data: seq<byte>, pos: nat, cc: nat)
    requires pos + cc <= |data|
    ensures c0 + data[.. pos] + data[pos .. pos + cc] == c0 + data[.. pos + cc]
  {
    assert data[.. pos] + data[pos .. pos + cc] == data[.. pos + cc];
  }

  /** One input file (mkfs/mkfs.c:178-223): its name, cut down as
      ShortName says, is refused before anything is written; otherwise a
      new file inode gets data as its contents and the root directory
      gets an entry naming it, and no other allocated file changes. */
  method AddFile(b: Builder, rootino: nat, arg: seq<byte>, data: seq<byte>) returns (ok: bool, inum: nat)
    requires b.Valid() && b.Ok() && 1 <= rootino < b.freeinode && 0 !in arg
    modifies b, b.disk
    ensures b.Valid()
    ensures ShortName(arg, b.p.dirsiz).Refused? ==> !ok && b.freeinode == old(b.freeinode) && b.disk[..] == old(b.disk[..])
    ensures ok ==> ShortName(arg, b.p.dirsiz).Name? && b.Ok()
    ensures ok ==> inum == old(b.freeinode) < NINODES && b.freeinode == inum + 1
    ensures ok ==> FileIn(b.p, b.disk[..], rootino) == FileIn(b.p, old(b.disk[..]), rootino) + DirentBytes(b.p, inum, ShortName(arg, b.p.dirsiz).name)
    ensures ok ==> FileIn(b.p, b.disk[..], inum) == data
    ensures ok ==> Xshort(b.p.host, TypeIn(b.p, b.disk[..], inum)) == b.p.tfile
    ensures ok ==> OthersKept(b.p, old(b.disk[..]), b.disk[..], inum, rootino)
    ensures ok ==> TypesKept(b.p, old(b.disk[..]), b.disk[..], inum)
    ensures ok ==> MetaKept(b.p, old(b.disk[..]), b.disk[..])
  {
    inum := 0;
    var short := ShortName(arg, b.p.dirsiz);
    if short.Refused? {
      return false, inum;
    }
    ok, inum := AddNamed(b, rootino, short.name, data);
  }

  /** An input file whose name was accepted (mkfs/mkfs.c:210-223): a new
      plain-file inode holding data, and its entry in the root directory. */
  method AddNamed(b: Builder, rootino: nat, name: seq<byte>, data: seq<byte>) returns (ok: bool, inum: nat)
    requires b.Valid() && b.Ok() && 1 <= rootino < b.freeinode && |name| <= b.p.dirsiz
    modifies b, b.disk
    ensures b.Valid()
    ensures ok ==> b.Ok() && inum == old(b.freeinode) < NINODES && b.freeinode == inum + 1
    ensures ok ==> FileIn(b.p, b.disk[..], rootino) == FileIn(b.p, old(b.disk[..]), rootino) + DirentBytes(b.p, inum, name)
    ensures ok ==> FileIn(b.p, b.disk[..], inum) == data
    ensures ok ==> Xshort(b.p.host, TypeIn(b.p, b.disk[..], inum)) == b.p.tfile
    ensures ok ==> OthersKept(b.p, old(b.disk[..]), b.disk[..], inum, rootino)
    ensures ok ==> TypesKept(b.p, old(b.disk[..]), b.disk[..], inum)
    ensures ok ==> MetaKept(b.p, old(b.disk[..]), b.disk[..])
  {
    ghost var img0 := b.disk[..];
    ok, inum := AllocFile(b, b.p.tfile);
    if !ok {
      return;
    }
    ghost var img1 := b.disk[..];
    ok := AppendTo(b, rootino, DirentBytes(b.p, inum, name));
    if !ok {
      return;
    }
    ghost var img2 := b.disk[..];
    ok := CopyIn(b, inum, data);
    if ok {
      AddFileKeeps(b.p, img0, img1, img2, b.disk[..], b.freeinode, rootino, inum);
    }
  }

  /** Files below n whose dinodes and bytes are the same in img1 as in
      img0 have the same contents. */
  lemma KeptBelow(p: Params, img0: Image, img1: Image, n: nat)
    requires p.Valid()
    requires forall j :: 1 <= j < n ==> InodeAt(p, img1, j) == InodeAt(p, img0, j)
    requires forall j, o: nat :: 1 <= j < n ==> FileByte(p, img1, InodeAt(p, img1, j), o) == FileByte(p, img0, InodeAt(p, img0, j), o)
    ensures OthersKept(p, img0, img1, n, 0)
  {
    forall j | 1 <= j < n ensures FileIn(p, img1, j) == FileIn(p, img0, j) {
      SameContents(p, img0, InodeAt(p, img0, j), img1, InodeAt(p, img1, j));
    }
  }

  /** The three steps of AddFile, the inode allocation (img0 to img1), the
      directory entry (img1 to img2) and the copy (img2 to img3), leave
      every file allocated before but the root directory as it was; the
      copy leaves the root directory alone and the entry the new file. */
  lemma AddFileKeeps(p: Params, img0: Image, img1: Image, img2: Image, img3: Image, n: nat, rootino: nat, inum: nat)
    requires p.Valid() && 1 <= rootino < inum < n
    requires OthersKept(p, img0, img1, inum, 0) && OthersKept(p, img1, img2, n, rootino) && OthersKept(p, img2, img3, n, inum)
    requires MetaKept(p, img0, img1) && MetaKept(p, img1, img2) && MetaKept(p, img2, img3)
    requires TypesKept(p, img0, img1, inum) && TypesKept(p, img1, img2, n) && TypesKept(p, img2, img3, n)
    ensures OthersKept(p, img0, img3, inum, rootino)
    ensures MetaKept(p, img0, img3)
    ensures TypesKept(p, img0, img3, inum)
    ensures TypeIn(p, img3, inum) == TypeIn(p, img1, inum)
    ensures FileIn(p, img3, rootino) == FileIn(p, img2, rootino)
    ensures FileIn(p, img2, inum) == FileIn(p, img1, inum)
  {
    MetaKeptTrans(p, img0, img1, img2);
    MetaKeptTrans(p, img0, img2, img3);
    TypesKeptTrans(p, img1, img2, img3, n, n);
    TypesKeptTrans(p, img0, img1, img3, inum, n);
    TypeKeptAt(p, img1, img3, n, inum);
  }

  /** The names main gives the input files, in order. */
  function ShortNames(args: seq<seq<byte>>, dirsiz: nat): (r: seq<NameResult>)
    requires forall i :: 0 <= i < |args| ==> 0 !in args[i]
    ensures |r| == |args| && forall i :: 0 <= i < |args| ==> r[i] == ShortName(args[i], dirsiz)
  {
    seq(|args|, i requires 0 <= i < |args| => ShortName(args[i], dirsiz))
  }

  /** The directory entries of accepted names, the k-th naming inode
      first + k. */
  function Dirents(p: Params, names: seq<NameResult>, first: nat): (e: seq<byte>)
    requires forall i :: 0 <= i < |names| ==> names[i].Name? && |names[i].name| <= p.dirsiz
    requires first + |names| <= 0x1_0000
    decreases |names|
  {
    if names == [] then []
    else
      var k := |names| - 1;
      Dirents(p, names[..k], first) + DirentBytes(p, first + k, names[k].name)
  }

  /** The loop of main over the input files (mkfs/mkfs.c:178-223), the
      k-th file becoming inode k + 2: every name is accepted, each file
      holds its data, and the root directory gains one entry per file, in
      order. It fails when a name is refused or the builder stops. */
  method AddFiles(b: Builder, args: seq<seq<byte>>, files: seq<seq<byte>>) returns (ok: bool)
    requires b.Valid() && b.Ok() && b.freeinode == 2 && |args| == |files|
    requires forall i :: 0 <= i < |args| ==> 0 !in args[i]
    modifies b, b.disk
    ensures b.Valid()
    ensures ok ==> b.Ok() && b.freeinode == |args| + 2 <= NINODES
    ensures ok ==> forall i :: 0 <= i < |args| ==> ShortName(args[i], b.p.dirsiz).Name?
    ensures ok ==> FileIn(b.p, b.disk[..], 1) == FileIn(b.p, old(b.disk[..]), 1) + Dirents(b.p, ShortNames(args, b.p.dirsiz), 2)
    ensures ok ==> forall i :: 0 <= i < |files| ==> FileIn(b.p, b.disk[..], i + 2) == files[i]
    ensures ok ==> TypeIn(b.p, b.disk[..], 1) == TypeIn(b.p, old(b.disk[..]), 1)
    ensures ok ==> forall j :: 2 <= j < |files| + 2 ==> Xshort(b.p.host, TypeIn(b.p, b.disk[..], j)) == b.p.tfile
    ensures ok ==> MetaKept(b.p, old(b.disk[..]), b.disk[..])
  {
    ghost var img0 := b.disk[..];
    ghost var names := ShortNames(args, b.p.dirsiz);
    ghost var root0 := FileIn(b.p, b.disk[..], 1);
    var k := 0;
    ok := true;
    while k < |args|
      invariant b.Valid() && b.Ok() && k <= |args| && b.freeinode == k + 2 <= NINODES
      invariant Added(b.p, b.disk[..], root0, names, files, k)
      invariant MetaKept(b.p, img0, b.disk[..])
      invariant TypesKept(b.p, img0, b.disk[..], 2)
      decreases |args| - k
    {
      ghost var img := b.disk[..];
      var inum;
      ok, inum := AddFile(b, 1, args[k], files[k]);
      if !ok {
        return;
      }
      assert names[k] == ShortName(args[k], b.p.dirsiz) && inum == k + 2;
      AddedNext(b.p, img, b.disk[..], root0, names, files, k);
      MetaKeptTrans(b.p, img0, img, b.disk[..]);
      TypesKeptTrans(b.p, img0, img, b.disk[..], 2, k + 2);
      k := k + 1;
    }
    assert names[..k] == names;
    TypeKeptAt(b.p, img0, b.disk[..], 2, 1);
  }

  /** The first k files are in the image: the root directory holds root0
      and their entries, and inode i + 2 is a plain file holding file i. */
  ghost predicate Added(p: Params, img: Image, root0: seq<byte>, names: seq<NameResult>, files: seq<seq<byte>>, k: nat) {
    && k <= |names| && k <= |files| && k + 2 <= 0x1_0000
    && (forall i :: 0 <= i < k ==> names[i].Name? && |names[i].name| <= p.dirsiz)
    && FileIn(p, img, 1) == root0 + Dirents(p, names[..k], 2)
    && (forall i :: 0 <= i < k ==> FileIn(p, img, i + 2) == files[i])
    && (forall j :: 2 <= j < k + 2 ==> Xshort(p.host, TypeIn(p, img, j)) == p.tfile)
  }

  /** Adding file k as inode k + 2, with its entry in the root
      directory, adds it to the files in the image. */
  lemma AddedNext(p: Params, img: Image, img': Image, root0: seq<byte>, names: seq<NameResult>, files: seq<seq<byte>>, k: nat)
    requires Added(p, img, root0, names, files, k) && k < |names| && k < |files| && k + 3 <= 0x1_0000
    requires names[k].Name? && |names[k].name| <= p.dirsiz
    requires FileIn(p, img', 1) == FileIn(p, img, 1) + DirentBytes(p, k + 2, names[k].name)
    requires FileIn(p, img', k + 2) == files[k] && OthersKept(p, img, img', k + 2, 1)
    requires Xshort(p.host, TypeIn(p, img', k + 2)) == p.tfile && TypesKept(p, img, img', k + 2)
    ensures Added(p, img', root0, names, files, k + 1)
  {
    DirentsGrow(p, names, k, root0, FileIn(p, img, 1), FileIn(p, img', 1));
    FilesKept(p, files, k, img, img');
    FilesTyped(p, k, img, img');
  }

  /** The files before k keep their type when file k is added as a plain
      file, inode k + 2. */
  lemma FilesTyped(p: Params, k: nat, img: Image, img': Image)
    requires forall j :: 2 <= j < k + 2 ==> Xshort(p.host, TypeIn(p, img, j)) == p.tfile
    requires TypesKept(p, img, img', k + 2) && Xshort(p.host, TypeIn(p, img', k + 2)) == p.tfile
    ensures forall j :: 2 <= j < k + 3 ==> Xshort(p.host, TypeIn(p, img', j)) == p.tfile
  {
    forall j | 2 <= j < k + 2 ensures Xshort(p.host, TypeIn(p, img', j)) == p.tfile {
      TypeKeptAt(p, img, img', k + 2, j);
    }
  }

  /** The files before k are kept when file k is added as inode k + 2. */
  lemma FilesKept(p: Params, files: seq<seq<byte>>, k: nat, img: Image, img': Image)
    requires k < |files| && OthersKept(p, img, img', k + 2, 1)
    requires forall i :: 0 <= i < k ==> FileIn(p, img, i + 2) == files[i]
    requires FileIn(p, img', k + 2) == files[k]
    ensures forall i :: 0 <= i < k + 1 ==> FileIn(p, img', i + 2) == files[i]
  {
    forall i | 0 <= i < k ensures FileIn(p, img', i + 2) == files[i] {
      assert FileIn(p, img', i + 2) == FileIn(p, img, i + 2);
    }
  }

  /** The root directory after entry k is added. */
  lemma DirentsGrow(p: Params, names: seq<NameResult>, k: nat, root0: seq<byte>, root: seq<byte>, root': seq<byte>)
    requires k < |names| && k + 3 <= 0x1_0000
    requires forall i :: 0 <= i <= k ==> names[i].Name? && |names[i].name| <= p.dirsiz
    requires root == root0 + Dirents(p, names[..k], 2)
    requires root' == root + DirentBytes(p, k + 2, names[k].name)
    ensures root' == root0 + Dirents(p, names[..k + 1], 2)
  {
    assert names[..k + 1][..k] == names[..k];
  }

  /** The root directory's size fix (mkfs/mkfs.c:225-232): its size is
      rounded up past its last block, and it keeps the entries it holds;
      no other file changes. */
  method FixRoot(b: Builder)
    requires b.Valid() && b.Ok() && 1 < b.freeinode
    modifies b.disk
    ensures b.Valid() && b.Ok()
    ensures Xint(b.p.host, SizeIn(b.p, b.disk[..], 1)) == RootSize(b.p, |FileIn(b.p, old(b.disk[..]), 1)|)
    ensures |FileIn(b.p, old(b.disk[..]), 1)| + b.p.bsize < 0x1_0000_0000 ==>
              FileIn(b.p, old(b.disk[..]), 1) <= FileIn(b.p, b.disk[..], 1)
    ensures OthersKept(b.p, old(b.disk[..]), b.disk[..], b.freeinode, 1)
    ensures TypesKept(b.p, old(b.disk[..]), b.disk[..], b.freeinode)
    ensures MetaKept(b.p, old(b.disk[..]), b.disk[..])
  {
    ghost var img0 := b.disk[..];
    b.FixRootSize(1);
    RootGrows(b.p, img0, b.disk[..]);
    SizeFixKeepsTypes(b.p, img0, b.disk[..], b.freeinode);
  }

  /** A change of the root directory's size field alone keeps every
      inode's type. */
  lemma SizeFixKeepsTypes(p: Params, img0: Image, img1: Image, n: nat)
    requires p.Valid()
    requires InodeAt(p, img1, 1) == InodeAt(p, img0, 1).(size := InodeAt(p, img1, 1).size)
    requires forall j :: j != 1 ==> InodeAt(p, img1, j) == InodeAt(p, img0, j)
    ensures TypesKept(p, img0, img1, n)
  {
    TypesKeptOf(p, img0, img1, n);
  }

  /** The free bitmap (mkfs/mkfs.c:234): it marks exactly the blocks below
      freeblock, the blocks from freeblock on being untouched zeros; no
      block but the first bitmap block changes, so no inode and no file.
      It fails at the assert of balloc when freeblock reaches BPB. */
  method MarkBitmap(b: Builder) returns (ok: bool)
    requires b.Valid() && b.Ok() && 1 < b.freeinode
    modifies b.disk
    ensures b.Valid() && b.Ok()
    ensures ok == (b.freeblock < b.p.bpb)
    ensures ok ==> MarksFirst(b.disk[b.p.BmapStart()], b.freeblock)
    ensures forall x :: b.freeblock <= x < b.disk.Length ==> b.disk[x] == Zeros(b.p.bsize)
    ensures SizeIn(b.p, b.disk[..], 1) == SizeIn(b.p, old(b.disk[..]), 1)
    ensures OthersKept(b.p, old(b.disk[..]), b.disk[..], b.freeinode, 0)
    ensures SameBut(old(b.disk[..]), b.p.BmapStart(), b.disk[..])
    ensures TypesKept(b.p, old(b.disk[..]), b.disk[..], b.freeinode)
  {
    ghost var img0 := b.disk[..];
    ok := b.Balloc(b.freeblock);
    KeptBelow(b.p, img0, b.disk[..], b.freeinode);
    TypesKeptOf(b.p, img0, b.disk[..], b.freeinode);
  }

  /** The root directory after its size fix starts with what it held
      before, when its size does not wrap around. */
  lemma RootGrows(p: Params, img0: Image, img1: Image)
    requires p.Valid()
    requires var d0 := InodeAt(p, img0, 1);
      InodeAt(p, img1, 1) == d0.(size := Xint(p.host, RootSize(p, Xint(p.host, d0.size))))
    requires forall o: nat :: FileByte(p, img1, InodeAt(p, img1, 1), o) == FileByte(p, img0, InodeAt(p, img0, 1), o)
    ensures Xint(p.host, SizeIn(p, img1, 1)) == RootSize(p, |FileIn(p, img0, 1)|)
    ensures |FileIn(p, img0, 1)| + p.bsize < 0x1_0000_0000 ==> FileIn(p, img0, 1) <= FileIn(p, img1, 1)
  {
    var d0 := InodeAt(p, img0, 1);
    var size := RootSize(p, Xint(p.host, d0.size));
    XintInvolutive(p.host, size);
    if |FileIn(p, img0, 1)| + p.bsize < 0x1_0000_0000 {
      RootSizeRoundsUp(p, Xint(p.host, d0.size));
    }
  }

  /** The root directory main builds before its size fix: ".", ".." and
      one entry per input file, the k-th naming inode k + 2. */
  function RootEntries(p: Params, args: seq<seq<byte>>): seq<byte>
    requires 2 <= p.dirsiz && |args| + 2 <= 0x1_0000
    requires forall i :: 0 <= i < |args| ==> 0 !in args[i] && ShortName(args[i], p.dirsiz).Name?
  {
    DirentBytes(p, 1, DOT) + DirentBytes(p, 1, DOTDOT) + Dirents(p, ShortNames(args, p.dirsiz), 2)
  }

  /** main from the zeroed image on (mkfs/mkfs.c:154-234), for the
      command-line arguments args naming input files whose bytes are files:
      on success every name was accepted, inode 1 is the root directory
      and holds its entries (its size rounded up past them), inode k + 2
      holds the k-th input file, the bitmap marks exactly the blocks in
      use, and the superblock, boot block and log are as mkfs.c wrote them
      before any file. It fails at the first assert or die of mkfs.c. */
  method BuildImage(p: Params, args: seq<seq<byte>>, files: seq<seq<byte>>) returns (ok: bool, b: Builder)
    requires p.Valid() && 2 <= p.dirsiz && |args| == |files|
    requires forall i :: 0 <= i < |args| ==> 0 !in args[i]
    ensures b.Valid() && b.p == p
    ensures ok ==> b.Ok() && p.rootino == 1 && b.freeinode == |args| + 2 <= NINODES
    ensures ok ==> forall i :: 0 <= i < |args| ==> ShortName(args[i], p.dirsiz).Name?
    ensures ok ==> var e := RootEntries(p, args);
              && |e| < 0x1_0000_0000
              && Xint(p.host, SizeIn(p, b.disk[..], 1)) == RootSize(p, |e|)
              && (|e| + p.bsize < 0x1_0000_0000 ==> e <= FileIn(p, b.disk[..], 1))
    ensures ok ==> forall i :: 0 <= i < |files| ==> FileIn(p, b.disk[..], i + 2) == files[i]
    ensures ok ==> MarksFirst(b.disk[p.BmapStart()], b.freeblock)
    ensures ok ==> forall x :: b.freeblock <= x < b.disk.Length ==> b.disk[x] == Zeros(p.bsize)
    ensures ok ==> Typed(p, b.disk[..], |files|)
    ensures ok ==> FreshMeta(p, b.disk[..])
  {
    b := new Builder(p);
    FreshAtStart(p, b.disk[..]);
    ok := FillImage(b, args, files);
  }

  /** main after the image is zeroed and the superblock written
      (mkfs/mkfs.c:165-234): the root directory and the input files, the
      root size fix and the free bitmap. */
  method FillImage(b: Builder, args: seq<seq<byte>>, files: seq<seq<byte>>) returns (ok: bool)
    requires b.Valid() && b.Ok() && b.freeinode == 1 && FreshMeta(b.p, b.disk[..])
    requires 2 <= b.p.dirsiz && |args| == |files|
    requires forall i :: 0 <= i < |args| ==> 0 !in args[i]
    modifies b, b.disk
    ensures b.Valid()
    ensures ok ==> b.Ok() && b.p.rootino == 1 && b.freeinode == |args| + 2 <= NINODES
    ensures ok ==> forall i :: 0 <= i < |args| ==> ShortName(args[i], b.p.dirsiz).Name?
    ensures ok ==> var e := RootEntries(b.p, args);
              && |e| < 0x1_0000_0000
              && Xint(b.p.host, SizeIn(b.p, b.disk[..], 1)) == RootSize(b.p, |e|)
              && (|e| + b.p.bsize < 0x1_0000_0000 ==> e <= FileIn(b.p, b.disk[..], 1))
    ensures ok ==> forall i :: 0 <= i < |files| ==> FileIn(b.p, b.disk[..], i + 2) == files[i]
    ensures ok ==> MarksFirst(b.disk[b.p.BmapStart()], b.freeblock)
    ensures ok ==> forall x :: b.freeblock <= x < b.disk.Length ==> b.disk[x] == Zeros(b.p.bsize)
    ensures ok ==> Typed(b.p, b.disk[..], |files|)
    ensures ok ==> FreshMeta(b.p, b.disk[..])
  {
    ghost var img0 := b.disk[..];
    ok := Populate(b, args, files);
    if !ok {
      return;
    }
    FreshKept(b.p, img0, b.disk[..]);
    ok := Finish(b, files);
  }

  /** The root directory's size fix and the free bitmap (mkfs/mkfs.c:225-234)
      on an image holding the root directory and the input files: they
      keep the files, their types and the fresh metadata. */
  method Finish(b: Builder, ghost files: seq<seq<byte>>) returns (ok: bool)
    requires b.Valid() && b.Ok() && |files| + 2 <= b.freeinode
    requires forall i :: 0 <= i < |files| ==> FileIn(b.p, b.disk[..], i + 2) == files[i]
    requires Typed(b.p, b.disk[..], |files|) && FreshMeta(b.p, b.disk[..])
    modifies b.disk
    ensures b.Valid() && b.Ok()
    ensures Xint(b.p.host, SizeIn(b.p, b.disk[..], 1)) == RootSize(b.p, |FileIn(b.p, old(b.disk[..]), 1)|)
    ensures |FileIn(b.p, old(b.disk[..]), 1)| + b.p.bsize < 0x1_0000_0000 ==>
              FileIn(b.p, old(b.disk[..]), 1) <= FileIn(b.p, b.disk[..], 1)
    ensures ok == (b.freeblock < b.p.bpb)
    ensures ok ==> MarksFirst(b.disk[b.p.BmapStart()], b.freeblock)
    ensures forall x :: b.freeblock <= x < b.disk.Length ==> b.disk[x] == Zeros(b.p.bsize)
    ensures forall i :: 0 <= i < |files| ==> FileIn(b.p, b.disk[..], i + 2) == files[i]
    ensures Typed(b.p, b.disk[..], |files|) && FreshMeta(b.p, b.disk[..])
  {
    ghost var img := b.disk[..];
    FixRoot(b);
    ghost var img' := b.disk[..];
    FreshKept(b.p, img, img');
    ok := MarkBitmap(b);
    FilesStay(b.p, img, img', files, b.freeinode, 1);
    FilesStay(b.p, img', b.disk[..], files, b.freeinode, 0);
    FreshBitmapWritten(b.p, img', b.disk[..]);
    TypedKept(b.p, img, img', |files|, b.freeinode);
    TypedKept(b.p, img', b.disk[..], |files|, b.freeinode);
  }

  /** The metadata of img outside the inode region and the first bitmap
      block is that of a new image (mkfs/mkfs.c:120-150): the superblock
      in block 1 and zeros in the boot block, the log and the other bitmap
      blocks. */
  ghost predicate FreshMeta(p: Params, img: Image) {
    && p.Valid() && |img| == p.fssize
    && img[1] == Superblock(p)
    && forall x :: 0 <= x < p.NMeta() && x != 1 && !(p.InodeStart() <= x <= p.BmapStart()) ==> img[x] == Zeros(p.bsize)
  }

  /** The image the Builder starts from has fresh metadata. */
  lemma FreshAtStart(p: Params, img: Image)
    requires p.Valid() && |img| == p.fssize && img[1] == Superblock(p)
    requires forall x :: 0 <= x < |img| && x != 1 ==> img[x] == Zeros(p.bsize)
    ensures FreshMeta(p, img)
  {
    RegionsAreContiguous(p);
  }

  /** Writes to inodes and data blocks keep fresh metadata. */
  lemma FreshKept(p: Params, img0: Image, img1: Image)
    requires FreshMeta(p, img0) && MetaKept(p, img0, img1)
    ensures FreshMeta(p, img1)
  {
    RegionsAreContiguous(p);
  }

  /** So does a write of the first bitmap block. */
  lemma FreshBitmapWritten(p: Params, img0: Image, img1: Image)
    requires FreshMeta(p, img0) && SameBut(img0, p.BmapStart(), img1)
    ensures FreshMeta(p, img1)
  {
    RegionsAreContiguous(p);
  }

  /** Files other than the root directory that are kept keep their data. */
  lemma FilesStay(p: Params, img: Image, img': Image, files: seq<seq<byte>>, n: nat, x: nat)
    requires OthersKept(p, img, img', n, x) && x < 2 && |files| + 2 <= n
    requires forall i :: 0 <= i < |files| ==> FileIn(p, img, i + 2) == files[i]
    ensures forall i :: 0 <= i < |files| ==> FileIn(p, img', i + 2) == files[i]
  {
    forall i | 0 <= i < |files| ensures FileIn(p, img', i + 2) == files[i] {
      assert FileIn(p, img', i + 2) == FileIn(p, img, i + 2);
    }
  }

  /** The root directory and the input files (mkfs/mkfs.c:165-223), into
      a builder that has allocated nothing yet. */
  method Populate(b: Builder, args: seq<seq<byte>>, files: seq<seq<byte>>) returns (ok: bool)
    requires b.Valid() && b.Ok() && b.freeinode == 1 && 2 <= b.p.dirsiz && |args| == |files|
    requires forall i :: 0 <= i < |args| ==> 0 !in args[i]
    modifies b, b.disk
    ensures b.Valid()
    ensures ok ==> b.Ok() && b.p.rootino == 1 && b.freeinode == |args| + 2 <= NINODES
    ensures ok ==> forall i :: 0 <= i < |args| ==> ShortName(args[i], b.p.dirsiz).Name?
    ensures ok ==> FileIn(b.p, b.disk[..], 1) == RootEntries(b.p, args)
    ensures ok ==> forall i :: 0 <= i < |files| ==> FileIn(b.p, b.disk[..], i + 2) == files[i]
    ensures ok ==> Typed(b.p, b.disk[..], |files|)
    ensures ok ==> MetaKept(b.p, old(b.disk[..]), b.disk[..])
  {
    ghost var img0 := b.disk[..];
    var rootino;
    ok, rootino := MakeRoot(b);
    if !ok {
      return;
    }
    ghost var img1 := b.disk[..];
    ok := AddFiles(b, args, files);
    if ok {
      MetaKeptTrans(b.p, img0, img1, b.disk[..]);
    }
  }
}
