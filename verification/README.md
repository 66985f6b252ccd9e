# Verified model of the 386 file system

A Dafny model of the inode file system shared by the `grab` boot loader and the `mkfs` tool, of the
programs on top of it, and of two pieces of the boot loader (number printing and parsing, the command
line editor), with proofs of what they are for. `dafny verify dfyconfig.toml` checks all of it.

## How it is built

A disk is a sequence of 512-byte blocks; pointers, inodes, records and the superblock are little-endian
fields of those bytes, as in the source's `union block`.

| files | what they hold |
|---|---|
| `Bytes`, `Layout` | fields of byte runs, pointers and bits of a block, inode and superblock encodings, bitmap scan |
| `OnDisk` | the same layout byte by byte, with the numbers of the header written out |
| `Tree` | addresses of pointers, `NodeAt`, and `Good`: following pointers is a bijection between the non-null pointers and the blocks marked in the bitmap, and free data blocks are zero |
| `ReadWrite` | `recursive_rw` and `inode_rw` as functions of the disk, the shared cursor and the buffer |
| `Cursor`, `WriteProof`, `WriteTree`, `File` | a write refines the byte view and keeps `Good` |
| `Budget` | how many blocks there are, and how many a write takes |
| `ReadProof`, `ReadExact`, `DenseFile` | a read refines the byte view, exactly when; files without holes |
| `Path`, `Directory`, `NameTree`, `Namespace`, `Mknod` | path walking and splitting, the tree of names, creation |
| `Runs`, `Persistence`, `RootName`, `Meaning` | formatting, every sequence of calls, what calls leave alone, creation at "/", and what consistency means without its bookkeeping |
| `Abstraction` | the file system without its disk: names and bytes only, and what every call of a run returns |
| `Memory`, `DirectoryProof`, `FileSystem`, `Clients` | the imperative code: classes over mutable arrays, each method proved equal to the function that specifies it |
| `Numbers`, `Editor` | `_int` and `str2uint`; the line editor mirrored on the screen |

Each imperative method's `ensures` equates its result and the new state with a specification function,
and the promises of the source are lemmas about that function. In the proofs about writes, the image
`e` that goes with a disk is the disk with every pointer block that is still held in memory put in its
place; `Wrote` relates two such images.

`Inv` is the invariant of a whole file system: `Good`, sane inodes, zero bytes past the end of every
file, and `WellNamed`. `Consistent` says that `Inv` holds for some bookkeeping.

## Where the code and its promises part

- A read that starts strictly inside the coverage of a null pointer and runs past the end of that
  coverage zero-fills too much, and the cursor is ahead of the file from then on. `ReadExact.ReadExactly`
  gives the exact condition, for files of any size: the read is right for every content of the data
  blocks if and only if it does not overshoot, that is, run out of a hole and go on into a mapped block or
  past the last byte an inode can address. `Meaning.OvershootExample` and `Meaning.OversizeExample` reach
  one instance of each from a new file.
- Creating at "/" succeeds: `getname` splits it into "/" and an empty name, and `fs_mknod` records the new
  inode under the empty name in the root. "/" still leads to the root, while "//" now leads to the new
  inode. `RootName.CreationExactly` says that a creation is found again at its path, and keeps all names
  non-empty, if and only if the path is not "/". The tree of names stays a tree all the same, so the
  theorems about runs include such calls.
- A name of exactly 14 bytes overflows the buffer of `fs_lookup` by its terminator (fs/fs.c:408-414).
  `Directory.LookupOverruns` gives the exact condition: a prefix of the names resolves, all of them are
  shorter, and the next has 14 bytes. The methods require only that this does not happen. In the
  theorems about runs such a lookup finds nothing, as no file has such a name.
- `fs_format` clears the blocks named by the superblock it read before, not those of the partition
  (fs/fs.c:515-516). `Runs.FormatExactly` says that it leaves an empty, consistent file system if and only
  if, after that clearing, inodes 0 and 1 are free, the other inodes are zero, and no allocatable data
  block is marked or holds anything; the superblock and the log blocks do not matter. `Runs.FormatClears`
  says which data blocks are zero afterwards.
- New data blocks are not cleared; holes and gaps read as zero only because free data blocks are zero,
  which is part of the invariant.
- `strncmp` never advances its counter (grab/util.c:46-63), so for a positive count it compares whole
  strings. That is the comparison of the first characters if and only if those differ or the strings are
  equal. `str2uint` still accepts exactly the ten-digit numbers that fit.

## Model

| member | source | states |
|---|---|---|
| Bytes.PtrGetSet | kernel/include/fs.h:71-77 | setting one pointer of an index block changes that pointer and no other |
| Bytes.PointerBytes | kernel/include/fs.h:71-77 | entry i of an index block is four bytes at 4 * i, least significant first |
| Bytes.BitSetIs | fs/fs.c:55-60 | bit k of the bitmap is bit k % 8, from the least significant, of byte k / 8 |
| Layout.SuperRoundTrip | kernel/include/fs.h:19-34 | a superblock written to a block reads back unchanged |
| Layout.SuperBytes | kernel/include/fs.h:19-34 | its eleven fields are four bytes each, in the order of the header, least significant first |
| Layout.MagicBytes | kernel/include/fs.h:9 | the magic number is ef be ad de at bytes 40 to 43 |
| Layout.InodeRoundTrip | kernel/include/fs.h:50-57 | the 64 bytes of an inode decode to the inode they encode |
| Layout.InodeReadWrite | fs/fs.c:78-96 | writing one inode changes no other inode of the table |
| OnDisk.InodeBytes | kernel/include/fs.h:50-57 | inode n is 64 bytes at 64 * (n % 8) of inode block n / 8, field by field |
| OnDisk.DirentBytes | kernel/include/fs.h:66-69 | a record is two bytes of inode number and a name of up to 14 bytes |
| OnDisk.FileBytes | fs/fs.c:114-122 | where byte k of a file is: through 10 direct pointers, 2 blocks of 128 pointers, and a block of 128 such blocks |
| OnDisk.RootBytes | fs/fs.c:532-535 | the root directory of an empty file system has type 2 |
| Layout.FirstClear | fs/fs.c:51-58 | the scan finds the lowest clear bit of the allocatable range, or reports that all are set |
| Layout.AllocTakesLowest | fs/fs.c:47-64 | `bitmap_alloc` sets and returns the lowest clear bit of the first nblock_dat / 8 bytes, and returns 0 only if all of them are set |
| Layout.FullUsed | fs/fs.c:51-58 | a full disk means that all those bits are set |
| Tree.LeafUnique | fs/fs.c:114-122 | the 10 direct, 2 singly- and 1 doubly-indirect pointers cover file blocks 0 to 16649, each by exactly one leaf |
| Tree.AllocateGood | fs/fs.c:253-263 | taking a free block for a null pointer keeps the pointers a bijection with the bitmap |
| Tree.AllocateContent | fs/fs.c:253-263 | and changes nothing that can be read from any file, although a data block is not cleared |
| Tree.StoreGood | fs/fs.c:295-302 | writing through a leaf changes the content of that file block alone |
| Cursor.SkipCursor | fs/fs.c:246-252 | a skipped subtree holds no requested byte, and the wrapped offset keeps its residue |
| Cursor.TransferCursor | fs/fs.c:296-308 | a transfer leaves the cursor at the next block with everything before it done |
| Cursor.TransferPatches | fs/fs.c:296-302 | the bytes copied into a data block are exactly the requested bytes that belong there |
| WriteProof.ProvideStep | fs/fs.c:253-263 | a pointer in the interval gets a block of its own unless every allocatable bit is set, and no other pointer changes |
| WriteProof.IndexCleared | fs/fs.c:253-263 | a new index block is cleared whatever it held, and a new data block is not |
| WriteProof.WroteThenWrote | fs/fs.c:279-293 | two consecutive stretches of one write add up to one |
| WriteProof.TouchedTwice | fs/fs.c:279-293 | and so do the pointers they give blocks to |
| WriteTree.TransferStep | fs/fs.c:295-309 | a data block takes its part of the request; nothing else and no pointer changes |
| WriteTree.WriteVisit | fs/fs.c:277-309 | a non-null pointer, data or index block, with everything below it |
| WriteTree.WriteNode | fs/fs.c:232-310 | the recursion at any level keeps the forest, patches exactly the blocks it passed, gives blocks to no pointer the request does not reach, and stops early only on a full disk, at a pointer it found null |
| WriteTree.WriteKids | fs/fs.c:279-293 | the pointer block edited in memory is, written back, the block the completed tree needs, also when the loop aborts |
| File.WriteSlots | fs/fs.c:342-343 | the same for the loop over the inode's 13 pointers |
| File.WriteRefinesView | fs/fs.c:312-365 | a write replaces exactly the bytes from off on that it reports, sets the size to the maximum, maps exactly the blocks off / 512 to (off + sz) / 512 before its stop, leaves every other inode and file alone, keeps the invariant, and is short only if blocks or pointers ran out |
| File.LeafMap | fs/fs.c:246-263 | a block is mapped afterwards if and only if it was before or the write got to it |
| File.FinishMap | fs/fs.c:333-343 | including the block after data that ends with a block; index pointers outside the interval stay null |
| Budget.WriteBudget | fs/fs.c:232-355 | a write needs one block for every null pointer that its interval reaches. It is whole, within the capacity, if that many are free, and then takes exactly that many; otherwise it takes all there are |
| Budget.Conserved | fs/fs.c:253-263 | as many bits are set as pointers got a block |
| Budget.StoppedUnfilled | fs/fs.c:258-259 | a write that stopped left a pointer it needed null |
| Budget.DrainExactly | fs/fs.c:47-64 | as many blocks can be taken one after the other as there are clear bits, and no more |
| ReadProof.ReadKeepsDisk | fs/fs.c:264-309 | in read mode the recursion alters no pointer, no block and no byte of the buffer already filled |
| ReadProof.ReadChangesNothing | fs/fs.c:312-370 | a read leaves every block of any disk unchanged, and the buffer beyond what it reports |
| ReadProof.ReadNode | fs/fs.c:232-310 | at any level, unless the read overruns a hole, the buffer holds the file's bytes up to the cursor |
| ReadProof.ReadRefinesView | fs/fs.c:312-370 | unless the read runs out of a hole, it returns min(sz, size - off) within the capacity and the slice of the file with holes as zeros |
| ReadProof.SmallReadSafe | fs/fs.c:264-276 | a read inside one block never runs out of a hole |
| ReadExact.OverNode | fs/fs.c:232-310 | at any level, after an overrun the cursor stays ahead of the file until the first mapped block |
| ReadExact.OverRead | fs/fs.c:264-309 | what a read that runs out of a hole delivers: zeros where the first mapped block belongs, or more bytes than an inode can address |
| ReadExact.OvershootWrong | fs/fs.c:264-276 | for every overshooting read there is a disk with the same pointers on which it is wrong |
| ReadExact.ReadExactly | fs/fs.c:264-309 | for files of any size, a read is right whatever the data blocks hold if and only if it does not overshoot |
| Meaning.OvershootExample | fs/fs.c:264-276 | a block written at 512 of a new file reads as zero when 512 bytes are read from 256 |
| Meaning.HoleThenBlock | fs/fs.c:312-355 | because that write leaves block 0 a hole and maps block 1, whatever else is on the disk |
| Meaning.OversizeExample | fs/fs.c:264-276 | after a write of no bytes past the capacity, a read reports more bytes than an inode can address |
| Meaning.HugeFile | fs/fs.c:344-352 | because that write enlarges the file and maps nothing |
| Meaning.DirectBlockTaken | fs/fs.c:253-259 | a write that stops before its first direct block found every allocatable bit set |
| DenseFile.DenseWrite | fs/fs.c:312-365 | a write at most at the end of a dense file is a splice of a plain byte sequence, and leaves the file dense |
| DenseFile.DenseRead | fs/fs.c:367-370 | every read of a dense file is a slice of that sequence, without side condition |
| DenseFile.DenseRun | fs/fs.c:312-491 | over any run of creations, lookups, reads and writes, if no write to the file starts past its end, the file is dense throughout, every read of it is the slice of a plain byte sequence, and it ends as that sequence |
| DenseFile.DenseStep | fs/fs.c:312-491 | one call of such a run |
| Path.SplitAgreesWithWalk | fs/fs.c:395-445 | the names walked along a path are those of the parent `getname` returns followed by the name it returns |
| Path.SplitIsCut | fs/fs.c:424-445 | the parent, the name and a run of slashes are the path, and the parent ends in a slash |
| Path.NamesAppend | fs/fs.c:405-418 | a name behind a prefix that ends in a slash, with any slashes behind it, is the last name walked |
| Mknod.SplitRecorded | fs/fs.c:424-445 | for "/" as well, where the parent is "/" and the name is empty |
| Meaning.SplitRefused | fs/fs.c:424-445 | `getname` refuses an absolute path exactly when it is only slashes, two or more, or its last name is too long |
| Directory.DirentRoundTrip | fs/fs.c:477-481 | a record decodes to the inode number and name it was made from |
| Directory.Scan | fs/fs.c:382-390 | the scan stops at the first record with the name |
| Directory.LookupOverruns | fs/fs.c:405-418 | `fs_lookup` overruns its name buffer if and only if a prefix of the names resolves, all are shorter than 14 bytes and the next has 14; otherwise it finds what the walk finds |
| Directory.SeekOverruns | fs/fs.c:405-418 | the same for the loop from any inode on |
| Directory.OverrunExample | fs/fs.c:408-414 | "/" and a name of 14 bytes does so on every disk |
| Directory.LookupLimits | fs/fs.c:395-421 | absolute paths of up to 63 bytes are walked from inode 1 unless a name is longer than 14; all others find nothing |
| DirectoryProof.OverrunFindsNothing | fs/fs.c:405-418 | no file of a consistent file system has such a name |
| DirectoryProof.RecordRead | fs/fs.c:385 | the 16-byte reads of the scan deliver the records, so its assertion holds |
| DirectoryProof.ConsistentScan | fs/fs.c:378-388 | in a consistent file system every directory can be scanned and names lead to inodes in range |
| Namespace.LookupAgrees | fs/fs.c:375-392 | looking a name up on the disk is looking it up in the tree of names |
| Namespace.WalkAgrees | fs/fs.c:395-421 | and so is walking a list of names |
| NameTree.AddedWellNamed | fs/fs.c:476-490 | recording a new inode under a free name keeps the names a tree |
| NameTree.AddedWalk | fs/fs.c:476-490 | afterwards exactly one more list of names leads somewhere |
| NameTree.Reachable | fs/fs.c:395-421 | every live inode is reached from the root: no cycles and no orphans |
| NameTree.WalkUnique | fs/fs.c:395-421 | no two lists of names lead to the same inode |
| NameTree.RecordsCount | fs/fs.c:183-209 | all directories together hold two records fewer than there are live inodes |
| NameTree.DirectoryBound | fs/fs.c:183-209 | so no directory ever holds more than 198 records |
| Mknod.AllocStep | fs/fs.c:183-209 | `alloc_inode` takes the first free inode, leaves it all zero but for its type, and changes no other inode and no byte of any file |
| Mknod.AppendStep | fs/fs.c:479-485 | the append of a record moves 16 bytes or none |
| Mknod.MakeNodeStep | fs/fs.c:476-490 | the new inode with its record, or every file as it was and the reason for it |
| Mknod.MknodStep | fs/fs.c:448-491 | the checks before it, with the reason of every refusal |
| Mknod.NewInodePointerless | fs/fs.c:481-485 | the inode a failed creation frees has only null pointers |
| Directory.Freeing | fs/fs.c:167-181 | freeing an inode without blocks clears its type and touches no other inode |
| Mknod.CreateThenFind | fs/fs.c:448-491 | a creation that returns m records m, zero but for its type and link count 1, under the names of its path and changes where no other list of names leads; the path then leads to m unless it is "/"; one that returns 0 changes no name, type, size or byte, and was refused or ran out of blocks |
| Mknod.MknodConsistent | fs/fs.c:448-491 | creation keeps a file system consistent |
| RootName.CreationExactly | fs/fs.c:424-491 | a creation is found again, and keeps names non-empty, if and only if its path is not "/" |
| RootName.SlashCreation | fs/fs.c:424-491 | at "/" a new inode is made unless the disk is full; "/" leads to the root and "//" to the new inode |
| RootName.RunProper | fs/fs.c:424-491 | a run leaves an empty name behind if and only if one of its calls made an inode at "/" |
| Runs.WriteKeepsInv | fs/fs.c:312-365 | a write to a file that is not a directory keeps the whole invariant and every block where it was |
| Runs.StepKeepsInv | fs/fs.c:312-491 | so does every call a client may make |
| Runs.FormatConsistent | fs/fs.c:511-537 | formatting a partition that is zero or gets cleared behind its superblock gives a consistent file system with an empty root that `fs_init` accepts |
| Runs.FormatExactly | fs/fs.c:511-537 | formatting gives an empty, consistent file system if and only if its clearing leaves inodes 0 and 1 free, the others zero, and no allocatable block marked or written |
| Runs.ReserveExactly | fs/fs.c:532-535 | reserving the first two inodes gives an empty file system if and only if the partition was blank |
| Runs.FormatClears | fs/fs.c:513-516 | a data block is zero after formatting exactly when it was zero or lay in the range of the old superblock |
| Runs.FormatGeometry | fs/fs.c:517-531 | formatting n sectors lays out a superblock, 30 log blocks, 25 inode blocks for 200 inodes, a bitmap block and n - 57 data blocks up to the last sector, and writes that down |
| Budget.FormatRoom | fs/fs.c:511-537 | formatting a blank partition leaves exactly 8 * ((n - 57) / 8) blocks to take, so the disk is full only if that is none |
| Runs.InitExactly | fs/fs.c:500-508 | `fs_init` accepts exactly the magic number, so not a zero block |
| Runs.FormatThenInit | fs/fs.c:493-537 | the superblock of a format is always accepted |
| Runs.RunKeepsInv | fs/fs.c:312-491 | every sequence of creations, reads, lookups and writes to non-directories keeps the invariant |
| Runs.FormattedRun | fs/fs.c:312-537 | every such sequence from a partition that formatting left blank ends in a consistent file system |
| Persistence.StepKeepsPath | fs/fs.c:312-491 | no call makes a path that leads to an inode lead elsewhere or nowhere |
| Persistence.RunKeepsPath | fs/fs.c:312-491 | over every sequence of calls, a path keeps leading to the inode it led to |
| Persistence.StepKeepsFile | fs/fs.c:312-491 | a call that does not write a file keeps its type, link count, size and every byte |
| Persistence.RunKeepsFile | fs/fs.c:312-491 | over every sequence of calls, so does a file that none of them writes, whatever is created beside it and whether or not blocks run out |
| Abstraction.RunRefines | fs/fs.c:312-491 | over every run, each call returns what a model of names and bytes alone says it may, short writes and refusals included, and the disk at the end is the model's |
| Abstraction.StepRefines | fs/fs.c:312-491 | one call of such a run |
| Abstraction.MakeRefines | fs/fs.c:448-491 | a creation: refused exactly if the model refuses it, or the lowest free inode with its record, or a full disk |
| Abstraction.WriteRefines | fs/fs.c:312-365 | a write: all of it, or up to the capacity, or up to a block boundary of a full disk |
| Abstraction.ReadRefines | fs/fs.c:312-370 | a read that does not overshoot: the bytes of the file up to its size |
| Abstraction.NoSuchInode | fs/fs.c:85-88 | there are no inodes from 200 on |
| Abstraction.LookupIs | fs/fs.c:395-421 | a lookup: what the tree of names says |
| Abstraction.SameAnswers | fs/fs.c:312-491 | two disks with the same names and bytes answer every run alike unless blocks run out: where the blocks are cannot be seen |
| Abstraction.FullForEver | fs/fs.c:47-64 | a full disk stays full: no run frees a block |
| Meaning.NothingShared | fs/fs.c:253-293 | in a consistent file system no two pointers lead to the same block |
| Meaning.NothingLeaked | fs/fs.c:47-64 | and a bit is set exactly when some pointer leads to its block, free blocks being zero |
| Meaning.GapsAreZero | fs/fs.c:256-302 | a gap left by a write past the end reads as zero |
| Meaning.OnePath | fs/fs.c:395-491 | and every live inode is found at exactly one path, with link count 1 |
| Meaning.DirectoriesSmall | fs/fs.c:476-481 | and every directory fits its direct pointers |
| Meaning.RecordsAndInodes | fs/fs.c:183-209 | and all directories together hold two records fewer than there are live inodes |
| Memory.Memset | grab/util.c:72-78 | fills the range and nothing else |
| Memory.Memcpy | grab/util.c:80-87 | copies the range and nothing else |
| Memory.Strcmp | grab/util.c:30-44 | the order of two terminated strings; zero exactly when they are equal |
| Memory.CompareMeans | grab/util.c:30-44 | it is negative exactly if the first string ends first, or has the smaller signed character at the first difference |
| Memory.Strncpy | grab/util.c:5-13 | copies and pads with zeros |
| Memory.Strnlen | grab/util.c:22-28 | the length, capped |
| Memory.Strlen | grab/util.c:15-20 | the length |
| Memory.Getname | fs/fs.c:424-445 | the two scans and copies compute the split |
| Memory.ScanName | fs/fs.c:429-436 | the backward scans find the bounds of the last name |
| Memory.CopyOut | fs/fs.c:438-443 | copies a piece of the path and terminates it |
| Memory.CopyName | fs/fs.c:407-414 | copies one name within the 14-byte buffer, or finds it too long |
| Memory.NextName | fs/fs.c:405-417 | takes one name and the slashes behind it off the path |
| Memory.NewDirent | fs/fs.c:477-480 | the 16 bytes of the new record |
| FileSystem.Fs.BitmapAlloc | fs/fs.c:47-64 | the byte and bit loops take the lowest clear bit of the first nblock_dat / 8 bytes, or find none |
| FileSystem.Fs.RwInode | fs/fs.c:78-96 | reads or writes one inode, or reports the error |
| FileSystem.Fs.RecursiveRw | fs/fs.c:232-310 | the recursive procedure over the shared cursor computes `Rw` |
| FileSystem.Fs.VisitBlock | fs/fs.c:277-294 | its loop over an index block, with the write-back on success and on failure |
| FileSystem.Fs.FillHole | fs/fs.c:264-276 | its zero fill for a null pointer met while reading |
| FileSystem.Fs.TransferBlock | fs/fs.c:295-309 | its copy in or out of a data block |
| FileSystem.Fs.InodeRw | fs/fs.c:312-355 | the error returns, the unsigned size, of which -0x10000000 to -1 are refused, the clipping, the loop over the pointers and the final inode write, for every size and offset |
| FileSystem.Fs.SlotsLoop | fs/fs.c:342-343 | its loop over the pointers of the inode, with the early exit |
| FileSystem.Fs.FsWrite | fs/fs.c:362-365 | a write as a function of the old disk |
| FileSystem.Fs.FsRead | fs/fs.c:367-370 | a read as a function of the disk, which it leaves unchanged |
| FileSystem.Fs.AllocInode | fs/fs.c:183-209 | the loops over inode blocks find the first free inode |
| FileSystem.Fs.FreeInode | fs/fs.c:167-181 | frees an inode that has no blocks |
| FileSystem.Fs.DirLookup | fs/fs.c:375-392 | finds the record and its offset, and no assertion of the scan fails |
| FileSystem.Fs.FsLookup | fs/fs.c:395-421 | the loops over the path compute the lookup unless it overruns the name buffer |
| FileSystem.Fs.LookupStep | fs/fs.c:405-418 | one turn of its loop resolves one name |
| FileSystem.Fs.FsMknod | fs/fs.c:448-491 | the whole creation, and consistency afterwards |
| FileSystem.Fs.Link | fs/fs.c:476-490 | its part behind the checks, with the undo of a failed append |
| FileSystem.Fs.Init | fs/fs.c:493-509 | keeps the superblock it finds, and accepts it exactly if bytes 40 to 43 are ef be ad de |
| FileSystem.Fs.Format | fs/fs.c:511-537 | clears, writes the superblock of the whole partition, and reserves inodes 0 and 1 |
| FileSystem.Fs.Open | mkfs/mkfs.c:246-250 | keeps an existing file system, and makes an empty one over the whole partition exactly if formatting leaves it blank, as on a zero partition |
| Clients.CopyInHolds | mkfs/mkfs.c:103-110 | a copy without panic leaves exactly the host file; a panic means no blocks are left or the file is too large; names and all other files stay as they were |
| Clients.OneByte | mkfs/mkfs.c:108-109 | one turn of the loop appends one byte or finds no room |
| Clients.PutByte | mkfs/mkfs.c:108-109 | the write of one byte from a buffer |
| Clients.CopyOutIs | mkfs/mkfs.c:133-139 | copying out stops after exactly the file's bytes |
| Clients.MigrateRetrieve | mkfs/mkfs.c:82-141 | copying in and out again is the identity for every file whose copy does not panic |
| Clients.Migrate | mkfs/mkfs.c:103-110 | the loop over the host file |
| Clients.Retrieve | mkfs/mkfs.c:133-139 | the loop over the file |
| Clients.LoadKernel | grab/shell.c:207-217 | memory from the load address on holds the whole file, holes as zeros, and nothing else changes |
| Numbers.DigitsNumber | grab/printf.c:70-77 | the digits printed stand for the number |
| Numbers.PrintInt | grab/printf.c:57-79 | the two loops print, within the 11-byte buffer, a minus sign exactly for negative signed numbers and the digits of the magnitude, or of the value modulo 2^32, without leading zero; the count leaves out the sign |
| Numbers.PrintedMeans | grab/printf.c:57-79 | that, for every number, signed or not, in both bases |
| Numbers.DigitTable | grab/printf.c:35 | the sixteen digits |
| Numbers.FillDigits | grab/printf.c:70-73 | the digits least significant first, at most ten |
| Numbers.DrainDigits | grab/printf.c:76-77 | and the other way round |
| Numbers.Strncmp | grab/util.c:46-63 | compares whole strings for a positive count; that is right if and only if the prefixes differ or the strings are equal |
| Numbers.ComparePrefix | grab/util.c:46-63 | that condition, for all strings and counts |
| Numbers.Str2uint | grab/util.c:93-110 | the value of any non-empty string with the source's wrap-around, or the panic |
| Numbers.CountDigits | grab/util.c:96-100 | the number of digits and the weight of the first |
| Numbers.SumDigits | grab/util.c:106-109 | the wrapping sum over any characters is their weighted sum modulo 2^32 |
| Numbers.DigitsReading | grab/util.c:106-109 | which for digits is the number they stand for |
| Numbers.ReadingFront | grab/util.c:106-109 | every character counts with its power of ten |
| Numbers.CompareNumber | grab/util.c:105 | at equal length string order is numeric order |
| Numbers.ParseExactly | grab/util.c:93-110 | a string of up to ten digits is parsed exactly when its number fits in 32 bits |
| Numbers.ParseLong | grab/util.c:93-110 | of a longer string of digits the first ten are read, if they stand for less than 2^32 - 1; otherwise it panics |
| Numbers.ParsePrinted | grab/printf.c:57-79 | parsing what was printed gives back every 32-bit number |
| Editor.Press | grab/shell.c:313-352 | keys keep the cursor inside the text and the text printable and shorter than the buffer |
| Editor.BackspaceUndoes | grab/shell.c:313-352 | backspace undoes an inserted character at any cursor |
| Editor.TypeText | grab/shell.c:313-329 | typed keys appear at the cursor, in order, wherever it is |
| Editor.BackspacesUndo | grab/shell.c:313-352 | as many backspaces as keys typed give back the line |
| Editor.ArrowsUndo | grab/shell.c:330-335 | the arrow keys undo each other and leave the text |
| Editor.TypeAfterLefts | grab/shell.c:313-332 | characters typed after k left arrows stand k places before the old cursor, or at the start |
| Editor.TypeAfterRights | grab/shell.c:313-335 | and after k right arrows k places behind it, or at the end |
| Editor.LeftsMove | grab/shell.c:330-332 | left arrows stop at the start of the text |
| Editor.RightsMove | grab/shell.c:333-335 | right arrows stop at its end |
| Editor.BackspacesDelete | grab/shell.c:336-351 | k backspaces take the k characters before the cursor, or as many as there are |
| Editor.PressIgnored | grab/shell.c:313-352 | a line of 159 characters takes no more, and other keys do nothing |
| Editor.TypeExample | grab/shell.c:313-335 | a, b, left arrow, x give axb |
| Editor.Shell.ShiftRight | grab/shell.c:321-324 | the insert loop moves buffer and screen together |
| Editor.Shell.ShiftLeft | grab/shell.c:344-347 | and the delete loop likewise |
| Editor.Shell.Insert | grab/shell.c:313-329 | inserting in the buffer and on the screen inserts in the text |
| Editor.Shell.Delete | grab/shell.c:336-351 | deleting likewise, and the freed cell is blank |
| Editor.Shell.Key | grab/shell.c:305-352 | every key refines the text editor, arrow keys move the cursor, and only the command's cells are touched |
| Editor.Shell.Command | grab/shell.c:301-312 | over all keys of a command, buffer, screen and hardware cursor agree with the edited text |

## Left out

- FileSystem.Fs.FreeInode: modelled for inodes without blocks only. `free_indirect` and `bitmap_free` are left out, as no public call reaches them with a non-null pointer: `Mknod.NewInodePointerless` shows that `fs_mknod` frees only such inodes.
- Disk transfers that fail: a block number outside the disk reads as zeros and is not written; the drivers, port I/O, PCI and VGA registers are not part of this model.
- FileSystem.Fs.RecursiveRw: the pointer that the source updates through its address is passed in and handed back, and the caller stores it in its copy of the block; no other name refers to that copy.
- FileSystem.Fs.InodeRw: the buffer is required to hold as many bytes as the size says, read as unsigned.
- FileSystem.Fs.FsLookup: what happens once the name buffer is overrun.
- FileSystem.Fs.FsMknod: type 0 and paths of 64 bytes or more, which do not fit its buffers, are excluded.
- FileSystem.Fs.Init: the checks for missing driver functions are not modelled, as the disk is always there.
- Writes to directories through the `write` command of `mkfs`: the theorems about runs assume that clients write only to files that are not directories.
- Numbers.Str2uint: the empty string is excluded, as the source reads past its end.
- Clients.LoadKernel: the menu, the colours and the jump into the kernel are user interface and hardware.
- The format loop of `printf`, `_two` and `putchar`: a straightforward scan that would add easy members, and its block-local width buffer and count are read in later iterations without being set.
- Editor.Shell.Command: reading key events and running the finished command are outside; the text screen does not scroll while a command with room for 160 characters is typed.
- The keyboard automaton, `ide_list`, `getXY`, command dispatch, and the log blocks, which are reserved but unused.
