# ToyFS: the simulated disk and the FAT bookkeeping, in Dafny

ToyFS is a small FAT-style filesystem over a simulated block device. The device
(`Disk`) is a host file of 128 sectors of 64 bytes (8192 bytes). The filesystem
engine (`FileSystem`) keeps an in-memory mirror of the file allocation table: one
signed byte per block. It loads the table from block 0 when it attaches to a disk.
Formatting (`initFileSystem`) does three things:

- it marks the table's own two blocks and the root directory's block occupied (-1);
- it marks blocks 23 and 49 bad (-2);
- it saves the table, marks the eight 8-byte root directory records empty (`'$'`)
  and writes the root block.

This project models both pieces.

- `disk.dfy`, module `BlockStore`: class `Disk`.
  - The host file is a byte array `data`.
  - The C++ file stream's state is one boolean, `good`. A failed seek (negative
    sector) or a short read clears it, and nothing in the device sets it again.
    This is how a stream with failbit set behaves until `clear()` is called.
  - `CreateDisk`, `IsValid`, `Read` and `Write` follow `disk.cc`.
  - The engine calls `read(buf, block, length)` and `write(buf, block, length)`, and
    compares the result with a byte count. `disk.h` declares only the one-sector
    forms, though its comments mention a length. `ReadBytes` and `WriteBytes` are
    those length-taking transfers starting at `64 * sector`. `Read` and `Write` are
    exactly their `length == 64` case.
- `filesystem.dfy`, module `FatFileSystem`:
  - the engine's constants and the layout derived from the disk geometry: 128
    entries, 2 table blocks, root at block 2;
  - the attribute and open-mode bitmasks;
  - the open-file record;
  - class `FileSystem`: its constructor, `LoadFat`, `SaveFat` and `InitFileSystem`.
    Each is stated against specification functions (`AttachedFat`, `Formatted`,
    `EmptyRoot`, `Splice`), and lemmas prove the properties of those functions.

The model follows the code in these points, where it is easy to expect otherwise:

- `CreateDisk` opens the file for output, which truncates an existing file; it does
  not refuse an existing one.
- A short load of the table still overwrites the leading entries it transferred.
  Only the entries that were not transferred stay free (0).
- Formatting writes `'$'` to the first byte of each root record only. It does not
  zero-fill the root block, and it does not flush the disk.
- The one-sector `read` reports success as a boolean, not as a byte count.

## Model

| member | source | states |
|---|---|---|
| `BlockStore.ReadCount` | disk.cc:49-55 | a read of `length` bytes transfers at most `length`; it transfers all of them iff the stream is good, the start is not negative and the range lies inside the file; anything it transfers lies inside the file |
| `BlockStore.Splice` | disk.cc:57-65 | overwriting from `start` keeps the length, puts exactly the chunk at the bytes from `start` on and leaves every other byte unchanged |
| `BlockStore.ReadBackWrittenSector` | disk.cc:49-65 | a sector read after it was written yields the bytes written |
| `BlockStore.WriteLeavesOtherSectors` | disk.cc:57-65 | writing one sector leaves every other sector's bytes unchanged |
| `BlockStore.Disk.constructor` | disk.cc:18-21 | attaching gives the file's bytes, and a stream that is good iff the file could be opened |
| `BlockStore.Disk.CreateDisk` | disk.cc:7-16 | succeeds iff the host file could be opened; a created image is exactly 8192 zero bytes |
| `BlockStore.Disk.IsValid` | disk.cc:28-47 | true iff the stream is good and the file is exactly 128 × 64 bytes long; changes nothing |
| `BlockStore.Disk.ReadBytes` | disk.cc:49-55 | fills `buf[0..count)` with the disk bytes from `64*sector` on, leaves the rest of `buf` alone, and returns the fstream transfer count; the stream stays good iff the seek was valid and the read was full |
| `BlockStore.Disk.WriteBytes` | disk.cc:57-65 | on a good stream with a non-negative sector, overwrites exactly `length` bytes from `64*sector` and returns `length`; otherwise writes nothing, returns 0 and leaves the stream failed |
| `BlockStore.Disk.Read` | disk.cc:49-55 | true iff the stream is good and all 64 bytes of the sector lie on the disk; then `buf[0..64)` holds that sector; after a short read the bytes transferred are in place and the rest of `buf` is unchanged; a sector at or past 128 on a valid disk reads false |
| `BlockStore.Disk.Write` | disk.cc:57-65 | true iff the stream is good and the sector is non-negative; then exactly that sector holds `buf[0..64)` and all else is unchanged; on false nothing changes |
| `BlockStore.WriteThenRead` | disk.cc:49-65 | after a successful write of a sector, reading it back succeeds and returns the bytes written |
| `FatFileSystem.Layout` | filesystem.cc:10-12 | block size equals sector size; 128 one-byte entries fill exactly the 2 table blocks; the root is block 2; the bad blocks lie past the root and inside the table |
| `FatFileSystem.AttributesIndependent` | filesystem.h:29-35 | ReadOnly, System, File and Directory are distinct single bits, so setting or clearing one never changes another |
| `FatFileSystem.OpenModesDistinct` | filesystem.h:37-41 | Read and Write are distinct single bits and together make 3 |
| `FatFileSystem.AttachedFat` | filesystem.cc:16-27 | after attaching, each entry holds the disk byte if the load reached it and is free (0) otherwise; a full load gives exactly the disk's first 128 bytes; a stream that is not good gives an all-free table |
| `FatFileSystem.MarkFatBlocks` | filesystem.cc:40-43 | the first `n` entries become occupied (-1) and the rest are unchanged |
| `FatFileSystem.Formatted` | filesystem.cc:40-45 | entries 0 and 1 (the table's blocks) and 2 (the root) are occupied (-1); entries 23 and 49 are bad (-2); every other entry is unchanged |
| `FatFileSystem.MarkRecordsEmpty` | filesystem.cc:51-54 | the first byte of each of the first `n` records becomes `'$'`; every other byte is unchanged |
| `FatFileSystem.EmptyRoot` | filesystem.cc:51-54 | all 8 root records are empty; bytes that do not start a record are unchanged |
| `FatFileSystem.FormatIdempotent` | filesystem.cc:36-60 | formatting twice leaves the same table and the same root block as formatting once |
| `FatFileSystem.FormattedCounts` | filesystem.cc:40-45 | formatting a table with no bad entries leaves exactly two bad entries; formatting an all-free table leaves 123 of 128 blocks free |
| `FatFileSystem.FormatPlacement` | filesystem.cc:47-59 | after both format writes, the disk's first 128 bytes are the table and block 2 is the root block |
| `FatFileSystem.FileSystem.constructor` | filesystem.cc:9-28 | the table starts all free and is then loaded from block 0 (the result is `AttachedFat`); the scratch buffer is one sector; the open-file table has 5 slots with no path |
| `FatFileSystem.FileSystem.LoadFat` | filesystem.cc:67-70 | true iff all 128 table bytes were read from byte 0; each entry the read reached holds the disk byte, the others keep their value |
| `FatFileSystem.FileSystem.SaveFat` | filesystem.cc:72-75 | true iff the stream is good; then the disk's first 128 bytes are the table and the rest is unchanged; on false the disk is unchanged |
| `FatFileSystem.FileSystem.InitFileSystem` | filesystem.cc:36-60 | the table becomes `Formatted` of the old one; if the table save fails it returns false with the root buffer and the disk untouched; otherwise the buffer holds 8 empty records, the disk holds the table and the root block, and it returns true |
| `FatFileSystem.FormatFreshDisk` | tests/testfilesystem.cc:12-18 | create a disk, attach, check it is valid, format (the test's steps), then re-attach, a step the model adds to observe the saved table: when the host file can be created every step succeeds, and the re-attached engine loads exactly the formatted all-free table |

## Left out

- `FileSystem::createFile`, `openFile`, `readFile`, `writeFile`, `closeFile`, `createDir`, `removeDir`, `listEntries`, `exist`, `getEntry`, `rootEntry`: declared in `filesystem.h:52-65`, but no definition exists in the source files. The same holds for every method of `Entry` (`filesystem.h:92-114`). They are not part of this model. The `OpenedFile` record and the open-file table are modelled as data only.
- `FileSystem::ls` (`filesystem.cc:62-65`): not declared in the header, and its body returns no value.
- `Disk::sync`, the destructors and the `std::mutex` member: durability, memory release and locking are outside the model.
- `BlockStore.Disk.WriteBytes`, `BlockStore.Disk.Write`, `FatFileSystem.FileSystem.SaveFat` and `FatFileSystem.FileSystem.InitFileSystem` require the written range to lie inside the backing file. A host file stream would instead grow the file when written past its end; that host-file behaviour is not modelled.
- `BlockStore.Disk.ReadBytes` and `BlockStore.Disk.WriteBytes` take a non-negative length, since every caller passes a positive one.
- `BlockStore.Disk.ReadBytes`, `BlockStore.Disk.WriteBytes`, `BlockStore.Disk.Read` and `BlockStore.Disk.Write` compute the byte offset `64 * sector` as an unbounded integer. In the source it is a C++ `int` product (`disk.cc:51`, `disk.cc:59`), which overflows once the magnitude of `sector` reaches 2^25; that is undefined behaviour, and a wrapped offset could reach an in-range sector. The model does not capture those sectors; for them its claims (a sector past 127 reads false, a negative sector fails) describe the intended arithmetic, not the overflowed one.
- The stream's read/write position is not modelled. Every transfer seeks to an absolute offset first, and `isValid` restores the position it found.
- Host I/O faults other than a stream that is not good (a full disk, say) are not modelled. On a good stream an in-range transfer always completes.
- The "cannot load FAT" message the constructor prints on a failed load is not modelled; the load result is computed and dropped.
- The scratch buffer's initial bytes are uninitialised heap memory in the source. No contract says anything about them.
- Attribute and open-mode masks are 32-bit bit-vectors standing for the C++ `int` masks.
