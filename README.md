# xv6 image builder and console line discipline, in Dafny

This project models two parts of a RISC-V xv6 teaching kernel.

**The file-system image builder** (`mkfs/mkfs.c`) lays out an image as
boot block | superblock | log | inode blocks | free bitmap | data blocks.
It writes the superblock, makes the root directory with "." and "..", and
adds one file per command-line argument, named by the argument cut down to
a directory-entry name. Then it rounds up the root directory's size and
writes the free bitmap. The model covers:
- the byte-order helpers `xshort` and `xint`, with the byte order of the
  host as a parameter;
- the layout arithmetic and the superblock;
- the on-disk dinode, indirect-block and directory-entry formats;
- `rinode`, `winode`, `ialloc`, `iappend` and `balloc` as methods of a
  `Builder` class whose image is an `array` of blocks;
- the body of `main` on top of them (module `Build`).

What is proved: every file of the image reads back as exactly the bytes
appended to it, and no other allocated file changes. No two files share a
block, and nothing past the allocation counter is written. The bitmap
marks exactly the blocks in use.

**The console input line discipline** (`kernel/console.c`) is a 128-byte
ring buffer with read, write and edit indices. `consoleintr` edits the
line being typed: backspace, kill line, store, and commit on newline, ^D
or a full buffer. `consoleread` takes committed bytes up to a newline or
^D. `consolewrite` copies bytes out to the UART. The state is a class over
an `array`; each operation is proved against a function on its value
(`AfterIntr`, `Echo`, `ReadOutcome`), and the properties of those
functions are proved as lemmas.

Modules, in dependency order:
- `ByteOrder` (byteorder.dfy)
- `Layout` (layout.dfy)
- `DiskFormat` (format.dfy)
- `Names` (names.dfy)
- `FileMap` (files.dfy)
- `Bitmap` (bitmap.dfy)
- `Mkfs` (mkfs.dfy)
- `Build` (build.dfy)
- `Console` (console.dfy)

The constants of `kernel/fs.h`, `kernel/param.h` and `kernel/stat.h` are
not part of this model. They are the fields of `Layout.Params`, and
`Params.Valid()` asks of them only the relations `mkfs.c` relies on.
`NINODES = 200` and `INPUT_BUF_SIZE = 128` are fixed, as in the source.

## Model

| member | source | states |
|---|---|---|
| ByteOrder.Xshort | mkfs/mkfs.c:88-97 | the result's bytes in host memory are the argument's bytes least significant first |
| ByteOrder.Xint | mkfs/mkfs.c:99-110 | the result's bytes in host memory are the argument's bytes least significant first |
| ByteOrder.XshortInvolutive | mkfs/mkfs.c:88-97 | xshort undoes itself on either host |
| ByteOrder.XintInvolutive | mkfs/mkfs.c:99-110 | xint undoes itself on either host, so a stored field decodes with the xint that encoded it |
| ByteOrder.XonLittleEndianIsIdentity | mkfs/mkfs.c:88-110 | on a little-endian host xshort and xint return their argument |
| ByteOrder.XintZero | mkfs/mkfs.c:353-368 | xint(a) == 0 exactly when a == 0, so the null-pointer tests are right in either byte order |
| ByteOrder.Le32RoundTrip | mkfs/mkfs.c:99-110 | reading back four bytes written least significant first gives the value |
| ByteOrder.FromLe32RoundTrip | mkfs/mkfs.c:99-110 | any four bytes are the little-endian bytes of the value they decode to |
| Layout.RegionsAreContiguous | mkfs/mkfs.c:62-67 | log, inode blocks and bitmap follow the boot block and superblock without gap or overlap, and the data blocks are what remains |
| Layout.InodesInInodeRegion | mkfs/mkfs.c:66 | every inode number below NINODES has its block inside the inode region |
| Layout.BitmapCoversImage | mkfs/mkfs.c:65 | the bitmap has a bit for every block of the image |
| Layout.InodeRegionHoldsAllInodes | mkfs/mkfs.c:66 | the inode region has slots for more than NINODES inodes |
| Layout.SuperblockIsLittleEndian | mkfs/mkfs.c:142-149 | with magic converted like the other fields, every field reads back least significant byte first as its value, and the rest of the block is zero |
| Layout.MagicAsWrittenOnBigEndianHost | mkfs/mkfs.c:142 | as written, on a big-endian host the first word read little-endian is not FSMAGIC unless FSMAGIC is a byte palindrome |
| Layout.MagicAsWrittenOnLittleEndianHost | mkfs/mkfs.c:142-149 | on a little-endian host the superblock as written equals the corrected one |
| Layout.SuperblockAsWritten | mkfs/mkfs.c:142-163 | the superblock block as mkfs.c writes it, BSIZE bytes: magic in host byte order, every other field through xint, the rest zero |
| Layout.Superblock | mkfs/mkfs.c:142-163 | the corrected superblock block, BSIZE bytes, with magic through xint like the other fields; the Builder writes this one |
| Layout.IBlock | mkfs/mkfs.c:259-260 | the corrected IBLOCK: a block at or after inodestart whose IPB slots, the (block - inodestart)-th group of IPB inode numbers, include inum |
| DiskFormat.DinodeRoundTrip | mkfs/mkfs.c:263-280 | a dinode copied into a buffer and back is the same dinode |
| DiskFormat.SlotAfterWrite | mkfs/mkfs.c:254-281 | after winode writes slot s, rinode of slot s returns what was written and every other slot is unchanged |
| DiskFormat.EntryAfterSet | mkfs/mkfs.c:368-371 | setting one entry of an indirect block changes that entry only |
| DiskFormat.DirentBytes | mkfs/mkfs.c:168-176 | a directory entry is the inode number least significant byte first, then the name, zero-filled to DIRSIZ bytes |
| DiskFormat.MarksFirstUnique | mkfs/mkfs.c:321-326 | only one block of a given size marks exactly the first `used` blocks |
| Names.ShortName | mkfs/mkfs.c:180-208 | the name is the argument without "user/" and one leading '_'; it is refused with HasSlash exactly when the rest has a '/', and with TooLong exactly when the name passes DIRSIZ |
| Names.ShortNameOfBuildOutputs | mkfs/mkfs.c:180-206 | user/_cat, _cat, user/cat and cat are all entered as cat |
| Names.ShortNameRefusesSubdirectories | mkfs/mkfs.c:192 | a path deeper than user/ stops the builder |
| Bitmap.MarkNext | mkfs/mkfs.c:325 | setting bit i%8 of byte i/8 in a block that marks the blocks below i marks the blocks below i+1 |
| Bitmap.ZerosMarkNothing | mkfs/mkfs.c:321 | a zeroed buffer marks no block |
| Bitmap.BitmapBlock | mkfs/mkfs.c:321-326 | the buffer has BSIZE bytes and bit i%8 of byte i/8 is set exactly for i < used |
| FileMap.WriteData | mkfs/mkfs.c:378-380 | copying a chunk into a file block keeps the file's block map and well-formedness |
| FileMap.WriteDataBytes | mkfs/mkfs.c:378-380 | the copy changes exactly the file bytes of that block at the copied offsets |
| Mkfs.NewDinode | mkfs/mkfs.c:301-307 | the new dinode has the given type, one link, size 0 and every other field zero, in disk byte order |
| Mkfs.NewDinodeIsEmpty | mkfs/mkfs.c:301-307 | a new inode is an empty, well-formed file that owns no block |
| Mkfs.InodeAtAfterWrite | mkfs/mkfs.c:254-267 | after winode of inode inum, every inode reads back as before except inum, which reads back as written |
| Mkfs.MetaWriteKeepsImage | mkfs/mkfs.c:240-251 | writing a metadata block that changes no allocated inode keeps the builder invariant and every file byte |
| Mkfs.ChunkBounds | mkfs/mkfs.c:376 | n1 = min(n, (fbn+1)*BSIZE - off) is positive, at most n, stays in block fbn and below MAXFILE blocks |
| Mkfs.ContentsAppended | mkfs/mkfs.c:376-387 | a file whose size grew by the data, whose old bytes stayed and whose new bytes are the data, holds old contents + data |
| Mkfs.CommitAppend | mkfs/mkfs.c:387-388 | after the size is written back the builder invariant holds, the file holds old contents + data, and every other allocated inode and file is unchanged |
| Mkfs.RewriteInode | mkfs/mkfs.c:226-232 | rewriting an inode with the same block pointers keeps the invariant, its bytes and every other file |
| Mkfs.RootSize | mkfs/mkfs.c:228-229 | the root directory's new size in 32-bit uint arithmetic: (off / BSIZE + 1) * BSIZE when that fits in 32 bits, and a smaller, wrapped value when it does not |
| Mkfs.RootSizeRoundsUp | mkfs/mkfs.c:228-229 | without wrap-around, the root size is a multiple of BSIZE, greater than the old size and at most one block more, and a whole block more when already aligned |
| Mkfs.BitmapSectorOnBigEndianHost | mkfs/mkfs.c:328-329 | as written, on a big-endian host the bitmap goes to a sector other than bmapstart unless bmapstart is a byte palindrome |
| Mkfs.IallocPastInodeRegion | mkfs/mkfs.c:298-311 | the first inode number past the inode region has its slot in the bitmap block |
| Mkfs.AppendFrame | mkfs/mkfs.c:335-389 | what iappend leaves alone: every block but the inode's block, the file's old blocks and the newly taken ones, and in particular every metadata block outside the inode region |
| Mkfs.InodeWriteKeepsMeta | mkfs/mkfs.c:254-268 | a write of an allocated inode's block keeps the boot block, superblock, log and bitmap |
| Mkfs.SectorOffset | mkfs/mkfs.c:242 | the uint byte offset sec * BSIZE that wsect and rsect (mkfs.c:286) seek to, below 2^32 |
| Mkfs.IBlockAsWritten | mkfs/mkfs.c:260 | IBLOCK as winode and rinode (mkfs.c:276) compute it, counted from sb.inodestart; on a little-endian host it is the corrected IBlock |
| Mkfs.BitmapSectorAsWritten | mkfs/mkfs.c:329 | the sector balloc writes the bitmap to, sb.bmapstart; on a little-endian host it is bmapstart |
| Mkfs.OffsetsInImage | mkfs/mkfs.c:240-251 | the 32-bit byte offset sec * BSIZE of wsect and rsect does not wrap for any block of the image |
| Mkfs.XintOfByteOnBigEndian | mkfs/mkfs.c:99-110 | on a big-endian host xint moves a value below 256 into the top byte |
| Mkfs.TopByteWraps | mkfs/mkfs.c:240-251 | a sector number with its low 24 bits zero, times a BSIZE that is a multiple of 256, wraps to the same offset as 0 |
| Mkfs.BitmapWriteLandsOnBootBlock | mkfs/mkfs.c:328-329 | as written, on a big-endian host with bmapstart below 256 and BSIZE a multiple of 256, the bitmap block is written at byte offset 0, over the boot block |
| Mkfs.InodeSectorOnBigEndianHost | mkfs/mkfs.c:254-281 | as written, on a big-endian host with inodestart below 256 and BSIZE a multiple of 256, inode inum is written to and read from block inum / IPB, before its block in the inode region |
| Mkfs.Builder.constructor | mkfs/mkfs.c:154-163 | every block is zeroed except block 1, which holds the superblock; freeinode is 1, freeblock is the first data block, and the builder invariant holds |
| Mkfs.Builder.Rsect | mkfs/mkfs.c:284-295 | returns block sec, and fails exactly when sec is past the image |
| Mkfs.Builder.Wsect | mkfs/mkfs.c:240-251 | the image changes in block sec only, which becomes the buffer |
| Mkfs.Builder.Rinode | mkfs/mkfs.c:270-281 | returns the dinode in inum's slot of its inode block |
| Mkfs.Builder.Winode | mkfs/mkfs.c:254-267 | writes d into inum's slot and changes nothing else of the image |
| Mkfs.Builder.IallocUnchecked | mkfs/mkfs.c:298-311 | as written: takes freeinode whatever its value and writes a new dinode into its slot |
| Mkfs.Builder.Ialloc | mkfs/mkfs.c:298-311 | fails exactly when freeinode has reached NINODES; otherwise returns freeinode, advances it, makes the inode a new empty file of the type, changes no other inode or file, and writes no block but the one holding the inode |
| Mkfs.Builder.Iappend | mkfs/mkfs.c:335-389 | the file holds old contents + data, only its size and block pointers change, no other allocated inode or file changes, the invariant holds; no block changes but the inode's block, the file's own blocks and blocks newly taken from freeblock, so the boot block, superblock, log and bitmap stay; it fails only past MAXFILE or past the end of the image |
| Mkfs.Builder.AppendLoop | mkfs/mkfs.c:347-385 | the final offset is the old size plus the data length, within MAXFILE blocks, and the image holds the appended bytes |
| Mkfs.Builder.MapDirect | mkfs/mkfs.c:351-358 | a zero direct pointer gets the next free block; the pointer found maps file block fbn |
| Mkfs.Builder.MapIndirect | mkfs/mkfs.c:360-374 | the indirect block and its entry are allocated when zero, in that order; the block found maps file block fbn and only the indirect block changes |
| Mkfs.Builder.CopyChunk | mkfs/mkfs.c:376-384 | copies the next chunk into its block and advances by it, keeping the append invariant |
| Mkfs.Builder.Balloc | mkfs/mkfs.c:314-330 | fails exactly when used reaches BPB; otherwise the bitmap block marks exactly the blocks below used, and no other block, inode or file changes |
| Mkfs.Builder.FixRootSize | mkfs/mkfs.c:225-232 | inode inum's size becomes RootSize of its old size; no pointer, other inode or file byte changes, and no block but the one holding the inode |
| Build.MakeRoot | mkfs/mkfs.c:165-176 | the first inode is ROOTINO, a directory whose contents are the entries "." and ".." naming itself; no metadata block outside the inode region changes |
| Build.CopyIn | mkfs/mkfs.c:217-220 | the file grows by exactly the data read in BSIZE chunks, keeps its type, and no other file and no metadata block outside the inode region changes |
| Build.AddFile | mkfs/mkfs.c:178-223 | a refused name changes nothing; otherwise the next inode is a plain file holding the data, the root directory gains the entry naming it, no allocated inode changes type, and no metadata block outside the inode region changes |
| Build.AddNamed | mkfs/mkfs.c:210-223 | the next inode is a plain file holding the data, the root directory gains the entry naming it, no other file changes and no allocated inode changes type |
| Build.AddFiles | mkfs/mkfs.c:178-223 | every name is accepted, file k is inode k+2, a plain file holding its data, the root directory keeps its type and gains one entry per file in order |
| Build.TypedKept | mkfs/mkfs.c:165-234 | steps that keep the type of every allocated inode keep the root a directory and the input files plain files |
| Build.SizeFixKeepsTypes | mkfs/mkfs.c:225-232 | rewriting the root's size field alone keeps the type of every inode |
| Build.FixRoot | mkfs/mkfs.c:225-232 | the root size becomes RootSize of its contents' length, its entries stay, and no other file and no metadata block outside the inode region changes |
| Build.MarkBitmap | mkfs/mkfs.c:234 | the bitmap marks exactly the blocks below freeblock, blocks from freeblock on are zero, and no block but the first bitmap block changes, so no file |
| Build.Populate | mkfs/mkfs.c:165-223 | the root directory, a directory, holds ".", ".." and one entry per input file, and file k is inode k+2, a plain file holding its data |
| Build.Finish | mkfs/mkfs.c:225-234 | the root size fix and the bitmap keep every file, every inode's type and the fresh metadata blocks; the bitmap marks exactly the blocks in use |
| Build.FillImage | mkfs/mkfs.c:165-234 | from a fresh image: the same outcome as BuildImage |
| Build.BuildImage | mkfs/mkfs.c:120-234 | on success: all names accepted, the root directory is a directory holding its entries with its size rounded up past them, each input file is a plain file in its inode, the bitmap marks exactly the blocks in use, block 1 is still the superblock, and the boot block, the log and the other bitmap blocks are still zero |
| Build.FreshKept | mkfs/mkfs.c:120-150 | writes that keep every metadata block outside the inode region keep the superblock and the zeroed boot block, log and bitmap |
| Build.FreshBitmapWritten | mkfs/mkfs.c:328-329 | writing the first bitmap block keeps the superblock, the boot block, the log and the other bitmap blocks |
| Console.UintIndexing | kernel/console.c:156 | a wrapped uint index has the same buffer slot as the unbounded one |
| Console.UintDistance | kernel/console.c:237 | uint e - r is the true distance while it is below 2^32 |
| Console.KillLineStops | kernel/console.c:220-224 | the kill-line loop stops at w or just after a newline, and removes no newline |
| Console.EchoFollowsEdit | kernel/console.c:219-253 | a key echoes one BACKSPACE per byte it removes from the line, or the byte it stores, and nothing else |
| Console.IntrKeepsCommitted | kernel/console.c:209-258 | every key keeps r <= w <= e <= r+128, leaves r alone and never takes back committed input |
| Console.OrdinaryKey | kernel/console.c:236-253 | an ordinary key with room is stored at the end of the line ('\r' as '\n'), and the line is committed exactly on '\n', ^D or a full buffer; otherwise nothing changes |
| Console.HeldAfterStore | kernel/console.c:244 | storing at slot e % 128 appends the byte to the held bytes |
| Console.Backspace | kernel/console.c:227-234 | backspace and DEL drop the last byte of the line being edited, and nothing when the line is empty |
| Console.KillLineKey | kernel/console.c:219-225 | ^U removes the tail of the line back to w or to just after a newline, and keeps the rest |
| Console.ReadCopiesInOrder | kernel/console.c:141-188 | a read copies committed bytes in order, at most n and within copy-out's limit, takes at most one more, copies a newline only as its last byte, and never copies ^D |
| Console.ReadReturnsLine | kernel/console.c:179-184 | when the first newline or ^D is a newline that fits, the read returns the line up to and including it |
| Console.ReadSavesEndOfFile | kernel/console.c:158-167 | a ^D met after some bytes is left in place, and the next read returns 0 and consumes it |
| Console.Write | kernel/console.c:101-117 | passes the first i bytes to the UART and returns i: n, or the count before the first failed copy-in |
| Console.Cons.constructor | kernel/console.c:78-87 | the console starts empty, with r = w = e = 0 |
| Console.Cons.Intr | kernel/console.c:209-258 | the new state is AfterIntr of the old state and key, and the echo is Echo of them |
| Console.Cons.KillInput | kernel/console.c:219-225 | the kill-line loop reaches the state and echo AfterIntr and Echo give for ^U |
| Console.Cons.Store | kernel/console.c:236-253 | storing an ordinary key reaches the state and echo AfterIntr and Echo give |
| Console.Cons.Read | kernel/console.c:133-189 | the read's status, count and return value are ReadOutcome's; r advances by the bytes taken, and the rest of the committed input stays |
| Console.Fetch | kernel/console.c:141-185 | the loop over the ring buffer gives ReadOutcome's status, copies a prefix of the committed bytes, and moves r by the bytes taken |
| Console.CommittedAfterTake | kernel/console.c:156 | taking bytes moves r forward and leaves the rest of the committed bytes in place |

## Left out

- Host I/O: `open`, `read`, `write`, `lseek`, `close` and `die`. The image file is an array of blocks. A read or write past the image is a failure outcome. An input file is given as its bytes, and the usage check of `main` is not modelled.
- The printf calls of mkfs.c are not modelled: they only write to the terminal.
- Build.CopyIn: the file is read in chunks of at most BSIZE bytes, taken from the given bytes; short reads and read errors of the host are not modelled.
- Build.MakeRoot: requires DIRSIZ >= 2 so that ".." fits its name field, which strcpy assumes.
- Build.FixRoot: that the root directory keeps its entries is stated only when its size plus BSIZE stays below 2^32; RootSize itself models the 32-bit wrap-around.
- Build.BuildImage: the root directory's entries are stated as a prefix of its contents; the rest of its last block is the zero fill of the size rounding.
- Asserts of mkfs.c are failure outcomes (`ok == false`) rather than aborts. What state is left behind on failure is stated only where a step fails before writing.
- Layout.IBlock: the block of an inode is counted from inodestart itself, the corrected IBLOCK that Rinode, Winode, Ialloc, Iappend and FixRootSize use. mkfs.c counts from sb.inodestart, which holds the value through xint; on a big-endian host that misplaces every inode (see Findings and Mkfs.InodeSectorOnBigEndianHost). kernel/fs.h, where IBLOCK is defined, is not part of this model.
- Mkfs.Builder.constructor: writes Layout.Superblock, with magic through xint, the correction of mkfs.c:142, which stores it raw (see Findings and Layout.SuperblockAsWritten).
- Mkfs.Builder.Balloc: writes the bitmap at bmapstart itself, the correction of mkfs.c:329, which writes at sb.bmapstart (see Findings and Mkfs.BitmapSectorAsWritten).
- Layout.Params.Valid: asks that FSSIZE * BSIZE stay below 2^32, so the uint byte offset sec * BSIZE of rsect and wsect never wraps for a block of the image (Mkfs.OffsetsInImage). Larger images, where mkfs.c's offsets wrap and blocks overwrite earlier ones, are not modelled.
- Layout.Params.Valid: asks that DIRSIZ be even, so that struct dirent has no padding and its size is 2 + DIRSIZ. Odd DIRSIZ, where the compiler pads the entry, is not modelled.
- The layout follows mkfs.c as written: the bitmap is FSSIZE / BPB + 1 blocks and the inode region NINODES / IPB + 1 blocks, even when the division is exact.
- Console: the spinlock, `sleep` and `wakeup`, `procdump` on ^P, the UART driver behind `consputc` and `uartputc`, and `consoleinit` are not modelled. A read that would sleep ends with status WouldBlock, and `killed()` is a parameter.
- Console: `either_copyin` and `either_copyout` are oracles. Copy-in succeeds for the bytes of the given source, and copy-out for the first `lim` bytes.
- Console: the indices are unbounded naturals. UintIndexing and UintDistance show that the uint arithmetic of the source computes the same slots and distances.
- kernel/main.c, kernel/buf.h and the user programs are not part of this model.

## Findings

| source | as written | input that shows it | evidently intended | confidence | as-written member | corrected member |
|---|---|---|---|---|---|---|
| mkfs/mkfs.c:142 | `sb.magic = FSMAGIC` is stored without xint, unlike every other superblock field | a big-endian host and FSMAGIC = 0x10203040: the kernel reads the first word as 0x40302010 | `sb.magic = xint(FSMAGIC)` | not executed | Layout.MagicAsWrittenOnBigEndianHost | Layout.SuperblockIsLittleEndian |
| mkfs/mkfs.c:328-329 | balloc writes the bitmap at sector `sb.bmapstart`, the xint-converted value used as a host number | a big-endian host with BSIZE = 1024 and bmapstart = 45: the sector is 0x2d000000, its offset sec * BSIZE wraps to 0 in 32 bits, and the bitmap overwrites the boot block | write at bmapstart itself, 2 + nlog + ninodeblocks | not executed | Mkfs.BitmapWriteLandsOnBootBlock | Mkfs.Builder.Balloc |
| mkfs/mkfs.c:259-276 | winode and rinode find an inode's block with IBLOCK(inum, sb), which adds `sb.inodestart`, the xint-converted value used as a host number | a big-endian host with BSIZE = 1024, IPB = 16 and inodestart = 32 (nlog = 30): the block is inum / 16 + 0x20000000, its offset wraps to (inum / 16) * 1024, so inodes 1-15 overwrite the boot block and inodes 16-31 the superblock | count from inodestart itself, 2 + nlog | not executed | Mkfs.InodeSectorOnBigEndianHost | Mkfs.InodeWriteKeepsMeta |
| mkfs/mkfs.c:298-311 | ialloc hands out freeinode with no check against NINODES | with IPB = 16, inode number 208 (more than 206 input files): its slot lies in the first bitmap block, and inode numbers from 200 on are ones the superblock does not count | refuse to allocate once freeinode reaches NINODES | not executed | Mkfs.IallocPastInodeRegion | Mkfs.Builder.Ialloc |
