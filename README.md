# A verified model of the fs33 inode table, directories and shell parsing

This project models, in Dafny, the storage core of a small teaching file
system (the "fs33" volume of a CEG 433/633 course project) and the
command-line parsing slice of its shell, and proves properties of that model.

- **Inode table** (`inodes.cpp`, module `InodeTable`, file `inodes.dfy`).
  - An inode is a record of `iHeight` 32-bit words:
    - direct block numbers;
    - up to three indirect pointers;
    - a type tag at field `iHeight - 2`;
    - the file size at field `iHeight - 1`.
  - `inodesPerBlock` records are packed into each block of the inode table.
  - The class `Inodes` works on the disk in place: a method reads a block into the shared buffer `uintbuffer`, changes words and writes the block back.
  - Each method is proved against pure functions of the disk's value: `Field`, `WithField`, `ZeroedInode`, `RecBlockNumber`, `SetLastOnDisk`, `FileBlocks` and `Freed`.
- **Directory format** (`directory.cpp`, module `DirectoryFormat`, file `dirformat.dfy`).
  - A directory's file is a stream of packed records `name || NUL || i-number` (four little-endian bytes), with no padding.
  - `ReadRecord`/`ParseFrom` state what the reader sees.
  - `Encode` is their inverse.
  - `ScanFrom` and `Lookup` state what a search finds.
  - `AddLeaf` and `Splice` state insertion and deletion.
- **Directories** (`directory.cpp`, module `Directories`, file `directory.dfy`).
  - The class `Directory` keeps an open read cursor (`dirf`) and the last record read (`dirEntry`).
  - Its methods loop over `nextName`; each method is proved against the format functions.
  - Volume-level effects are stated as pure predicates over before/after values: `NewFileMade` for `createFile` and `RecordCut` for `deleteFile`.
- **Shell parsing** (`shell.cpp`, module `Shell`, file `shell.dfy`): character classes, `toNum`, `strtok`-based `setArgsGiven` over arrays, the 20-row command table, `findCmd`, and the checks `invokeCmd` makes.
- **Collaborators** (module `FileVolumes`, file `volume.dfy`).
  - The superblock, the simulated disk (an array of word-blocks) and the two free bitmaps (arrays of `bool`, `true` = free).
  - The per-inode byte streams that `File` reads and writes.
  - Their sources are not part of this model; each is given the smallest behaviour the core relies on.
- **Machine types** (module `Fs33Types`, file `types.dfy`): 32-bit words with explicit wrap-around, bytes, the little-endian word codec and C strings.

Where the design of the file system describes behaviour the code does not have, the model follows the code:
- The indirect-block helpers are stubs that store nothing and report block 0. So indirect blocks are neither filled nor freed.
- `setLastBlockNumber(in, 0)` frees and clears slot `nu` (the current block count), not slot `nu - 1`.
- `moveFile` is a stub that returns 0.
- `deleteFile` does not check whether a directory is empty.
- `createFile` takes and types a free inode before `addLeafName` decides whether to add the name. A name that fails the syntax check, or whose truncation is already present, leaves that inode marked in use with no record naming it. `NewFileMade` states exactly this.

## Model

| member | source | states |
|---|---|---|
| InodeTable.IndirectLevels | inodes.cpp:19-24 | 0, 1, 2 or 3 indirect pointers exactly when `iHeight` is at most 4, 5, 6, or at least 7 |
| InodeTable.CreateAsWrittenMisplacesInodes | inodes.cpp:32-34 | as written, 128 three-word inodes in 512-byte blocks get a 3-block table while inode 127 lives in block 3 of it |
| InodeTable.BlocksOfInodesCoversTable | inodes.cpp:32-35 | the corrected table size holds the block of every inode and has no spare block |
| InodeTable.Inodes.Create | inodes.cpp:15-46 | records the derived geometry in the superblock, zero-fills and marks in use exactly the table's blocks, leaves every other block and bit alone, returns `nInodes` |
| InodeTable.InodeLocation | inodes.cpp:60-66 | every field of every inode lies inside the inode table and inside its block |
| InodeTable.LocationInjective | inodes.cpp:60-66 | two fields share a word only when they are the same field of the same inode |
| InodeTable.FieldAfterWithField | inodes.cpp:109-115 | setting field `x` of inode `in` changes that field and no field of any inode |
| InodeTable.FieldAfterZeroedInode | inodes.cpp:89-98 | clearing inode `in` zeroes its fields and no other inode's |
| InodeTable.WithFieldIsBlockWrite | inodes.cpp:109-115 | writing one field is writing back the inode's block with that one word changed |
| InodeTable.ZeroedInodeIsBlockWrite | inodes.cpp:92-95 | clearing a record is writing back its block with the record's `iHeight` words zeroed |
| InodeTable.Inodes.GetInode | inodes.cpp:60-73 | the buffer holds the inode's block, the record starts at `(in % inodesPerBlock) * iHeight`, `ne` is the file's block count |
| InodeTable.Inodes.PutInode | inodes.cpp:79-84 | the disk changes only in the inode's block, which becomes the buffer |
| InodeTable.Inodes.GetFree | inodes.cpp:89-98 | returns the lowest free inode; when none is free, returns 0 and changes nothing; otherwise marks it in use, zeroes exactly its record and empties its file |
| InodeTable.Inodes.ClearInode | inodes.cpp:92-96 | the memset and write-back: the disk becomes `ZeroedInode` of the old disk |
| InodeTable.Inodes.GetEntry | inodes.cpp:103-107 | returns field `x` of inode `in` |
| InodeTable.Inodes.SetEntry | inodes.cpp:109-115 | the disk becomes `WithField(.., in, x, tp)` and `tp` is returned |
| InodeTable.Inodes.GetType | inodes.cpp:117-120 | returns field `iHeight - 2` |
| InodeTable.Inodes.SetType | inodes.cpp:122-125 | sets field `iHeight - 2` only, returns the type |
| InodeTable.Inodes.GetFileSize | inodes.cpp:130-133 | returns field `iHeight - 1` |
| InodeTable.Inodes.SetFileSize | inodes.cpp:135-138 | sets field `iHeight - 1` only, returns the size |
| InodeTable.Inodes.IncFileSize | inodes.cpp:140-146 | the size becomes `(size + inc) mod 2^32`, which is returned; nothing else changes |
| InodeTable.BlockCountIsCeiling | inodes.cpp:68-71 | without wrap-around the block count is the ceiling of `size / bsz`, and 0 for an empty file |
| InodeTable.DispatchesAgree | inodes.cpp:165-189 | without wrap-around the top-down and bottom-up range dispatches pick the same slot, and nothing is reached from the capacity on |
| InodeTable.DispatchPosition | inodes.cpp:225-245 | every index below the capacity lands in an existing slot whose region offset gives the index back |
| InodeTable.SlotRoundTrip | inodes.cpp:225-245 | every existing slot is reached from exactly one logical index |
| InodeTable.FileCapacity | inodes.cpp:19-35 | with seven or more fields an inode has `iHeight - 5` direct slots, and a logical block lies beyond the file exactly when it is at or past the direct slots plus three levels of `bsz / 4` numbers each |
| InodeTable.SetLastOnDiskSpec | inodes.cpp:165-192 | appending changes the inode's record as `RecSetLast` says and no other inode |
| InodeTable.AppendThenGet | inodes.cpp:165-192 | in the direct range, after an append and a size increase by one block: every earlier block number is kept, the new last block is `bn`, and the index after it reads 0 |
| InodeTable.FreedSpec | inodes.cpp:255-265 | freeing a list of blocks frees exactly those blocks and keeps the rest of the bitmap |
| InodeTable.Inodes.SetLastBlockNumber | inodes.cpp:165-192 | writes `bn` into the direct slot the block count selects (freeing the old block when `bn` is 0); stores nothing for the indirect ranges or beyond; returns 1 |
| InodeTable.Inodes.SetDirect | inodes.cpp:183-187 | the direct case: one field is written, and the old block is freed exactly when `bn` is 0 |
| InodeTable.Inodes.AddBlockNumber | inodes.cpp:194-201 | returns 0 and changes nothing for inode 0, an out-of-range inode, block 0 or an out-of-range block; otherwise appends as `SetLastOnDisk` says and returns 1 |
| InodeTable.Inodes.GetBlockNumber | inodes.cpp:225-248 | returns 0 past the file's end, the direct slot in the direct range, and the stubs' 0 in the indirect ranges |
| InodeTable.Inodes.SetFree | inodes.cpp:255-265 | frees every block of the file and the inode itself, leaves the record, returns the block count |
| FileVolumes.GetFreeBit | inodes.cpp:91 | returns the lowest free index from 1 on and marks it in use, or 0 and no change when none is free |
| FileVolumes.SetBit | inodes.cpp:43 | sets one bit; an out-of-range index is ignored |
| FileVolumes.File.GetNextByte | directory.cpp:49-50 | yields the byte under the cursor and advances, or 0 at the end without moving |
| FileVolumes.File.AppendBytes | directory.cpp:140-141 | the file becomes its old content followed by the bytes |
| FileVolumes.File.DeletePrecedingBytes | directory.cpp:197-198 | removes the `k` bytes before the cursor (at most the cursor's worth) and moves the cursor back over them |
| Fs33Types.WordBytesRoundTrip | directory.cpp:8 | the i-number bytes of a record read back as the i-number written |
| Fs33Types.WordOfRoundTrip | directory.cpp:54-55 | four bytes read as an i-number are written back as the same four bytes |
| Fs33Types.CStrOfTerminated | directory.cpp:95-97 | a NUL-free name followed by its NUL is read back as itself |
| DirectoryFormat.ReadRecordSpec | directory.cpp:40-57 | a read stops exactly at a NUL or the end of the stream; otherwise it yields the maximal NUL-free name, the four i-number reads after its NUL (0 past the end) and the cursor after them |
| DirectoryFormat.Padded | directory.cpp:54-55 | reads past the end of the stream yield 0 |
| DirectoryFormat.ParseFromNamesOk | directory.cpp:40-57 | every record read has a non-empty NUL-free name |
| DirectoryFormat.ParseEncode | directory.cpp:40-57 | round trip: parsing the encoding of records with good names gives those records, so the encoding is well-formed |
| DirectoryFormat.AppendRecord | directory.cpp:137-142 | appending a record to a well-formed stream adds exactly that record at the end of its list |
| DirectoryFormat.FirstHit | directory.cpp:96-101 | the index of the first record hit, with no hit before it |
| DirectoryFormat.ScanIsLookup | directory.cpp:90-103 | the `nextName` loop finds a record exactly when `Lookup` does, and the same one |
| DirectoryFormat.MemMatchesIffSameName | directory.cpp:95-97 | comparing `strlen + 1` bytes of a record with the name holds exactly when the record's name is the name |
| DirectoryFormat.Truncate | directory.cpp:131-135 | a name is cut to its first `limit` bytes and kept whole when it fits |
| DirectoryFormat.AddLeafAbsent | directory.cpp:125-144 | inserting an absent name appends exactly its record; the name then resolves to the new inode, every other name resolves as before, and names stay unique |
| DirectoryFormat.AddLeafPresent | directory.cpp:137 | inserting a name that is present with a real inode leaves the stream unchanged |
| DirectoryFormat.SeedEmpty | directory.cpp:15-28 | a new directory over an empty stream holds exactly "." for itself and ".." for its parent |
| DirectoryFormat.ScanFindsRecord | directory.cpp:96-101 | a successful scan from the start stops right after the first record with the name |
| DirectoryFormat.SpliceRecord | directory.cpp:197-198 | cutting the bytes of the `i`-th record leaves the encoding of the other records |
| DirectoryFormat.DeleteSplice | directory.cpp:190-202 | the delete removes exactly the first record with the name: the stream stays well-formed and lists the other records in order |
| DirectoryFormat.OthersCountOfSeeded | directory.cpp:150-164 | the count of a directory holding ".", ".." and others is the number of the others |
| Directories.OkNameSyntax | directory.cpp:112-120 | an accepted name is non-empty and holds no slash |
| Directories.SyntaxSurvivesTruncation | directory.cpp:130-135 | an acceptable name cut to a positive length stays acceptable and storable |
| Directories.SeededEmpty | directory.cpp:15-28 | a new directory over an empty file lists "." then "..", is well-formed, and counts no other file |
| Directories.CreatedNameResolves | directory.cpp:125-144 | creating an absent short name keeps the directory well-formed, unique and free of inode 0; the name resolves to the new inode and the others are unchanged |
| Directories.ReadName | directory.cpp:48-50 | the first loop of `nextName` reads the bytes up to the next NUL and consumes it |
| Directories.ReadBytes | directory.cpp:54-55 | the second loop reads `iWidth` bytes, 0 past the end |
| Directories.Directory.Open | directory.cpp:15-22 | `parent == 0`: a closed cursor and nothing changed on the volume |
| Directories.Directory.NextName | directory.cpp:40-57 | reads the record `ReadRecord` gives at the cursor and fills `dirEntry` with its image, or a lone NUL at the end; the records read in turn are those of `ParseFrom` |
| Directories.Directory.NamesEnd | directory.cpp:61-69 | closes the cursor (the destructor at 30-33 does the same) |
| Directories.Directory.ScanStep | directory.cpp:78-81 | one turn of a scan moves it as `ScanFrom` says and never moves the cursor back |
| Directories.Directory.NameOf | directory.cpp:75-84 | returns the first record from the cursor with the given i-number, or none; `dirEntry` holds it (or a lone NUL); the cursor is closed |
| Directories.Directory.SetDirEntry | directory.cpp:90-103 | returns the i-number of the first record named `n` from the cursor (0 when there is none or `n` is empty) and leaves the cursor right after that record |
| Directories.Directory.INumberOf | directory.cpp:105-110 | as `SetDirEntry`, then the cursor is closed |
| Directories.Directory.AddLeafName | directory.cpp:125-144 | no change for inode 0 or an unacceptable name; otherwise the stream becomes `AddLeaf` of the truncated name and the cursor is closed |
| Directories.Directory.AddRecord | directory.cpp:137-143 | appends the record exactly when the scan finds no non-zero i-number |
| Directories.Directory.AppendEntry | directory.cpp:138-141 | the record image is built in `dirEntry` and appended to the file |
| Directories.Directory.Format | directory.cpp:15-28 | `parent != 0`: the inode is marked in use and typed a directory, and its file gets "." then ".." |
| Directories.Directory.AddDots | directory.cpp:26-27 | the stream becomes `Seeded` |
| Directories.Directory.AddOkName | directory.cpp:26-27 | one acceptable name into a closed directory changes the file as `AddLeaf` says |
| Directories.Directory.LsPrivate | directory.cpp:150-164 | returns the number of records less two, as a `uint` |
| Directories.Directory.Ls | directory.cpp:166-169 | returns this directory's count |
| Directories.Directory.CreateFile | directory.cpp:171-185 | an existing name returns its inode and changes nothing; otherwise the first free inode is taken; with none free, returns 0 and changes nothing; else the volume changes as `NewFileMade` says |
| Directories.Directory.NewFile | directory.cpp:175-182 | takes the lowest free inode and, when there is one, makes the file as `NewFileMade` says |
| Directories.Directory.NameAndType | directory.cpp:177-181 | adds the name, then seeds a subdirectory or types the inode ordinary |
| Directories.Directory.TypeNewInode | directory.cpp:178-181 | a directory under a real parent is formatted; one under parent 0 is left as is; an ordinary file is typed |
| Directories.NewFileSteps | directory.cpp:175-181 | `getFree` followed by the naming and typing makes the volume `NewFileMade` says |
| Directories.Named | directory.cpp:177 | naming changes the directory's stream only, and only when the name is acceptable |
| Directories.Directory.DeleteFile | directory.cpp:190-202 | "." and ".." return 0 and change nothing; otherwise returns the found i-number; an empty name leaves the stream and the record buffer where they were; any other name leaves the record buffer holding the record found (or a lone NUL) and, when nothing is deleted, the cursor just past the scan; when the i-number is non-zero the record's bytes are cut as `RecordCut` says, freeing the inode only on request |
| Directories.Directory.CutRecord | directory.cpp:196-200 | deletes `1 + len + iWidth` bytes before the cursor and frees the inode when asked |
| Directories.Directory.MoveFile | directory.cpp:208-211 | the stub returns 0 and changes nothing |
| Shell.AlphaNumDotClasses | shell.cpp:49-58 | every digit is alphanumeric-or-dot; the class holds no slash or control character; besides digits and the dot it is the ASCII letters |
| Shell.DigitRun | shell.cpp:60-63 | the maximal run of digits from a position |
| Shell.ToNumIsLeadingValue | shell.cpp:60-63 | `toNum` is 0 for a null or non-digit-led string, and otherwise the value of the leading digits |
| Shell.ToNumOfDecimal | shell.cpp:60-63 | round trip: `toNum` reads back every number written in decimal |
| Shell.TokSpec | shell.cpp:331-333 | a `strtok` token is the run `s[b..e]` reached across delimiters only; it is non-empty, free of delimiters and NUL, and maximal (ends at a delimiter, a NUL or the end); the next call resumes after the ending delimiter, which becomes NUL, and nothing else changes; with no token left only delimiters precede a NUL or the end |
| Shell.StrTok | shell.cpp:331-333 | `strtok` on the array returns the token and position `Tok` gives and leaves the buffer `Tok` gives |
| Shell.ArgTokensAreWords | shell.cpp:330-339 | every argument token is a non-empty word |
| Shell.ClearSlots | shell.cpp:324-327 | the first `nMax` argument strings are nulled and their types cleared; nothing else changes |
| Shell.TakeArg | shell.cpp:333-338 | a non-empty token fills slot `i` with its string, its `toNum` value and its type letter |
| Shell.FillSlots | shell.cpp:330-339 | the tokens fill the first slots; `nArgs` becomes their count when there is at least one; later slots are untouched |
| Shell.SetArgsGiven | shell.cpp:322-340 | after the command name, at most `nMax` tokens fill the slots in order with type `u` exactly when they start with a digit; the remaining slots are nulled; `types[nMax]` is NUL; `nArgs` is updated only when a token exists |
| Shell.TypesAreSignature | shell.cpp:325-336 | the `types` string left by `setArgsGiven` is the signature of the tokens |
| Shell.TableWellFormed | shell.cpp:252-273 | rows are distinct by name and signature together; signatures use only `s` and `u`; rows need no global, `v` or `m` |
| Shell.FirstCmdSpec | shell.cpp:347-356 | the row found matches on name and signature and no earlier row does; -1 exactly when no row matches |
| Shell.EveryRowReachable | shell.cpp:252-273 | every row is the one found for its own name and signature: no row is shadowed |
| Shell.FindCmd | shell.cpp:347-356 | the linear search returns `FirstCmd` |
| Shell.InvokeCmd | shell.cpp:289-315 | the handler is called exactly when the needed global is present and every required argument meets its type letter, and then it is the row's handler |
| Shell.MatchedArgsPass | shell.cpp:289-339 | when the row was found by the tokens' signature, every argument check of `invokeCmd` passes |

## Left out

- Output: `Inodes::show`, the listing lines of `lsPrivate`, the messages of `invokeCmd` and of the `TODO` stubs, and `usage`. All of it is `printf`.
- `Inodes::reCreate` (inodes.cpp:48-54): it only reattaches an existing volume and allocates an uninitialised buffer. It is outside the modelled operations.
- The shell's process plumbing (redirection, pipes, background jobs, `main`, `ourgets`) and the disk and volume commands (`doMakeDisk` … `doUmount`). These are OS I/O over code that is not part of this model.
- The free bitmaps, the simulated disk and the `File` stream are given minimal behaviour; their implementations are not part of this model. `getFreeBit` is taken to hand out the lowest free index from 1 on.
- A directory's byte stream is kept per inode in `FileVolume.files`. It is not tied to the inode's block numbers or size on the disk. The only link is that `getFree` empties the stream of the inode it clears.
- The type tags come from `fs33types.hpp`, which is not part of this model. They are taken as 1 (ordinary) and 2 (directory); only their being distinct is used.
- Null `char *` / `byte *` arguments: names are `seq<byte>` and cannot be null. An empty name, which the source treats like a null one, is modelled.
- `dirEntry` is a sequence, not the fixed buffer of `fileNameLengthMax + 1 + iWidth` bytes.
- The `iNumber` macro reads a `ulong` past the name; it is modelled as decoding the four i-number bytes.
- The indirect-block helpers are stubs in the source. They are modelled as storing nothing and reporting 0, with no invented semantics.
- Directories.Directory.AddLeafName: the truncation that writes a NUL into the caller's buffer is not modelled, because names are passed by value.
- Directories.Directory.AddLeafName: requires `fileNameLengthMax - 1` to be positive. With `fileNameLengthMax == 1` the source would append a record with an empty name, which ends the directory early.
- Directories.Directory.CreateFile: requires the directory's own inode to be marked in use, as every formatted directory's is. Otherwise `getFree` could hand out the directory's own inode.
- Directories.Directory.CreateFile: does not state `dirEntry` afterwards.
- Directories.Directory.DeleteFile: requires, when the inode is to be freed, that every record's i-number is below `nInodes`. Otherwise `setFree` would read outside the inode table.
- Directories.Directory.Format: does not state `dirEntry` afterwards.
- Directories.Directory.Format: requires `0 < in < nInodes`.
- Directories.Directory.LsPrivate: returns only the count. With printing on, the source also reads each entry's inode type into the shared buffer; that side effect and the `printfFlag` parameter are left out.
- Shell.ToNum: `atoi` overflow is not modelled; the value of the leading digits is unbounded.
- Shell.InvokeCmd: the handler call is reported as the result (the handler that would be called) instead of being made.
- Shell.SetArgsGiven: the global `nArgs` is a parameter and a result. The saved position of `strtok` is an explicit parameter of `StrTok`.
- InodeTable.AppendThenGet: requires the geometry's capacity to fit in 32 bits. With wrapped region bounds the top-down dispatch of `setLastBlockNumber` can skip a direct slot.
- InodeTable.Inodes.Create: uses the corrected size of the inode table (see Findings), and requires the table to fit on the disk.

## Findings

| source | as written | input that shows it | evidently intended | confidence | as-written member | corrected member |
|---|---|---|---|---|---|---|
| inodes.cpp:32-34 | `nBlocksOfInodes = (nInodes * iWidth * iHeight + bsz - 1) / bsz`, as if records could span blocks, while `getInode` places inode `in` in block `nBlockBeginInodes + in / inodesPerBlock` with `inodesPerBlock = bsz / iWidth / iHeight` whole records per block | `bsz = 512`, `iHeight = 3`, `nInodes = 128`: the table is 3 blocks, 42 records fit per block, and inode 127 is read from and written to block `nBlockBeginInodes + 3`, outside the table | `nBlocksOfInodes = ceil(nInodes / inodesPerBlock)` | high (not executed) | InodeTable.CreateAsWrittenMisplacesInodes | InodeTable.BlocksOfInodesCoversTable |
