/**
  The FAT bookkeeping of the ToyFS engine: the layout derived from the disk
  geometry, the in-memory mirror of the file allocation table (one signed byte per
  block), its load from and save to the disk, and formatting (`InitFileSystem`).
 */
module FatFileSystem {
  import opened BlockStore

  /** A block is one disk sector. */
  const BlockSize: int := 64
  /** Bytes per allocation-table entry. */
  const FatEntrySize: int := 1
  /** Capacity of the open-file table. */
  const MaxOpenedFiles: int := 5

  // The layout the engine derives from the disk geometry when it is constructed;
  // `Layout` proves each value equal to its derivation.
  /** Number of allocation-table entries: one per block of the disk. */
  const FatSize: int := 128
  /** Number of blocks the allocation table occupies, from block 0 on. */
  const NumOfFatBlocks: int := 2
  /** The root directory's block, the first one after the allocation table. */
  const RootBlockNumber: int := 2

  /** Allocation-table entry values. */
  const Free: Byte := 0
  /** In use (also the end of a chain). */
  const Occupied: Byte := -1
  /** Permanently unusable. */
  const BadBlock: Byte := -2
  /** The two blocks formatting marks bad. */
  const FirstBadBlock: int := 23
  const SecondBadBlock: int := 49

  /** A directory block holds RecordsPerBlock records of RecordSize bytes each. */
  const RecordSize: int := 8
  const RecordsPerBlock: int := 8
  /** First byte of a directory record that is empty: the character '$'. */
  const EmptyRecordMark: Byte := 36

  /** The layout is the one derived from the disk geometry, and fits it. */
  lemma Layout()
    ensures FatSize == NumOfSector * SectorSize / BlockSize
    ensures NumOfFatBlocks == NumOfSector * SectorSize / BlockSize / BlockSize
    ensures RootBlockNumber == NumOfSector * SectorSize / BlockSize / BlockSize
    ensures BlockSize == SectorSize && FatEntrySize == 1 && FatSize == NumOfSector
    ensures FatSize * FatEntrySize == NumOfFatBlocks * BlockSize
    ensures RecordsPerBlock * RecordSize == BlockSize
    ensures (RootBlockNumber + 1) * BlockSize <= Capacity
    ensures RootBlockNumber < FirstBadBlock < SecondBadBlock < FatSize
  {
  }

  /** A set of file attributes, one bit each (a C++ `int` used as a mask). */
  type Attributes = bv32
  /** A set of open modes, one bit each. */
  type OpenModes = bv32

  const ReadOnly: Attributes := 1
  const System: Attributes := 2
  const File: Attributes := 4
  const Directory: Attributes := 8
  const AttributeBits: set<Attributes> := {ReadOnly, System, File, Directory}

  const Read: OpenModes := 1
  const Write: OpenModes := 2

  predicate SingleBit(b: bv32)
  {
    b != 0 && b & (b - 1) == 0
  }

  /** Setting bit `a` of `mask` sets it and clearing it clears it. */
  predicate Settable(mask: bv32, a: bv32)
  {
    (mask | a) & a == a && (mask & !a) & a == 0
  }

  /** Setting or clearing bit `a` of `mask` leaves bit `b` as it was. */
  predicate Untouched(mask: bv32, a: bv32, b: bv32)
  {
    (mask | a) & b == mask & b && (mask & !a) & b == mask & b
  }

  /**
    Each attribute is its own bit, so each can be set, cleared and queried in a mask
    without changing any other.
   */
  lemma AttributesIndependent(mask: Attributes)
    ensures SingleBit(ReadOnly) && SingleBit(System) && SingleBit(File) && SingleBit(Directory)
    ensures |AttributeBits| == 4
    ensures Settable(mask, ReadOnly) && Settable(mask, System) && Settable(mask, File) && Settable(mask, Directory)
    ensures Untouched(mask, ReadOnly, System) && Untouched(mask, ReadOnly, File) && Untouched(mask, ReadOnly, Directory)
    ensures Untouched(mask, System, ReadOnly) && Untouched(mask, System, File) && Untouched(mask, System, Directory)
    ensures Untouched(mask, File, ReadOnly) && Untouched(mask, File, System) && Untouched(mask, File, Directory)
    ensures Untouched(mask, Directory, ReadOnly) && Untouched(mask, Directory, System) && Untouched(mask, Directory, File)
  {
  }

  /** The two open modes are distinct bits; both together make the mask 3. */
  lemma OpenModesDistinct()
    ensures SingleBit(Read) && SingleBit(Write)
    ensures Read & Write == 0
    ensures Read | Write == 3
  {
  }

  /**
    An entry of the open-file table: the file's full path, its attributes, its
    first block, its length, the modes it was opened with, and separate get (read)
    and put (write) cursors.
   */
  datatype OpenedFile = OpenedFile(
    path: string,
    attributes: Attributes,
    blockNumber: int,
    length: int,
    modes: OpenModes,
    g: int,
    p: int)

  /** A slot of the open-file table as constructed: no path. */
  const UnusedSlot: OpenedFile := OpenedFile("", 0, 0, 0, 0, 0, 0)

  /**
    The allocation table right after attaching to a disk whose bytes are `image`:
    every entry the load transferred holds the disk's byte, every other entry is
    free. A load from a stream that is not good transfers nothing.
   */
  function AttachedFat(good: bool, image: seq<Byte>): (fat: seq<Byte>)
    ensures |fat| == FatSize
    ensures forall i :: 0 <= i < FatSize ==> fat[i] == if good && i < |image| then image[i] else Free
    ensures good && FatSize <= |image| ==> fat == image[..FatSize]
  {
    var n := ReadCount(good, 0, FatSize, |image|);
    Splice(Zeros(FatSize), 0, image[..n])
  }

  /** `fat` with its first `n` entries marked occupied, one after the other. */
  function MarkFatBlocks(fat: seq<Byte>, n: nat): (r: seq<Byte>)
    requires n <= |fat|
    ensures |r| == |fat|
    ensures forall i :: 0 <= i < n ==> r[i] == Occupied
    ensures forall i :: n <= i < |fat| ==> r[i] == fat[i]
  {
    if n == 0 then fat else MarkFatBlocks(fat, n - 1)[n - 1 := Occupied]
  }

  /** Whether formatting gives block `i` a fixed entry. */
  predicate IsSystemBlock(i: int)
  {
    0 <= i < NumOfFatBlocks || i == RootBlockNumber || i == FirstBadBlock || i == SecondBadBlock
  }

  /**
    The allocation table after formatting: the table's own blocks and the root
    directory's block are occupied, the two bad blocks are marked bad, and every
    other entry is as it was.
   */
  function Formatted(fat: seq<Byte>): (r: seq<Byte>)
    requires |fat| == FatSize
    ensures |r| == FatSize
    ensures forall i :: 0 <= i < NumOfFatBlocks ==> r[i] == Occupied
    ensures r[RootBlockNumber] == Occupied
    ensures r[FirstBadBlock] == BadBlock && r[SecondBadBlock] == BadBlock
    ensures forall i :: 0 <= i < FatSize && !IsSystemBlock(i) ==> r[i] == fat[i]
  {
    MarkFatBlocks(fat, NumOfFatBlocks)[SecondBadBlock := BadBlock][FirstBadBlock := BadBlock][RootBlockNumber := Occupied]
  }

  /** Whether record `k` of a directory block is empty. */
  predicate RecordIsEmpty(block: seq<Byte>, k: int)
    requires 0 <= k < RecordsPerBlock && |block| == BlockSize
  {
    block[k * RecordSize] == EmptyRecordMark
  }

  /** `block` with the first byte of each of its first `n` records set to the empty mark. */
  function MarkRecordsEmpty(block: seq<Byte>, n: nat): (r: seq<Byte>)
    requires |block| == BlockSize && n <= RecordsPerBlock
    ensures |r| == BlockSize
    ensures forall k :: 0 <= k < n ==> RecordIsEmpty(r, k)
    ensures forall i :: 0 <= i < BlockSize && (i % RecordSize != 0 || n * RecordSize <= i) ==> r[i] == block[i]
  {
    if n == 0 then block
    else
      var prev := MarkRecordsEmpty(block, n - 1);
      var r := prev[(n - 1) * RecordSize := EmptyRecordMark];
      assert forall k :: 0 <= k < n - 1 ==> RecordIsEmpty(prev, k) && r[k * RecordSize] == prev[k * RecordSize];
      r
  }

  /** An empty root directory block: every record empty. */
  function EmptyRoot(block: seq<Byte>): (r: seq<Byte>)
    requires |block| == BlockSize
    ensures |r| == BlockSize
    ensures forall k :: 0 <= k < RecordsPerBlock ==> RecordIsEmpty(r, k)
    ensures forall i :: 0 <= i < BlockSize && i % RecordSize != 0 ==> r[i] == block[i]
  {
    MarkRecordsEmpty(block, RecordsPerBlock)
  }

  /** Formatting twice leaves the same allocation table and the same root block as formatting once. */
  lemma {:induction false} FormatIdempotent(fat: seq<Byte>, root: seq<Byte>)
    requires |fat| == FatSize && |root| == BlockSize
    ensures Formatted(Formatted(fat)) == Formatted(fat)
    ensures EmptyRoot(EmptyRoot(root)) == EmptyRoot(root)
  {
    var f1 := Formatted(fat);
    var f2 := Formatted(f1);
    forall i | 0 <= i < FatSize ensures f2[i] == f1[i] {
    }
    var r1 := EmptyRoot(root);
    var r2 := EmptyRoot(r1);
    forall i | 0 <= i < BlockSize ensures r2[i] == r1[i] {
      if i % RecordSize == 0 {
        assert RecordIsEmpty(r1, i / RecordSize) && RecordIsEmpty(r2, i / RecordSize);
      }
    }
  }

  /**
    After a successful format the disk holds the allocation table in its first
    FatSize bytes and the root directory in block RootBlockNumber.
   */
  lemma FormatPlacement(image: seq<Byte>, fat: seq<Byte>, root: seq<Byte>)
    requires |fat| == FatSize && |root| == BlockSize && (RootBlockNumber + 1) * BlockSize <= |image|
    ensures var written := Splice(Splice(image, 0, fat), RootBlockNumber * BlockSize, root);
      written[..FatSize] == fat && written[RootBlockNumber * BlockSize .. (RootBlockNumber + 1) * BlockSize] == root
  {
  }

  /** The number of entries of `s` equal to `v`. */
  function Count(s: seq<Byte>, v: Byte): (n: nat)
    ensures n <= |s|
  {
    if s == [] then 0 else Count(s[..|s| - 1], v) + (if s[|s| - 1] == v then 1 else 0)
  }

  /** Count is zero exactly when no entry equals `v`, and |s| exactly when every entry does. */
  lemma {:induction false} CountExtremes(s: seq<Byte>, v: Byte)
    ensures Count(s, v) == 0 <==> forall i :: 0 <= i < |s| ==> s[i] != v
    ensures Count(s, v) == |s| <==> forall i :: 0 <= i < |s| ==> s[i] == v
  {
    if s != [] {
      CountExtremes(s[..|s| - 1], v);
    }
  }

  /** How overwriting one entry changes a count. */
  lemma {:induction false} CountUpdate(s: seq<Byte>, i: int, x: Byte, v: Byte)
    requires 0 <= i < |s|
    ensures Count(s[i := x], v) == Count(s, v) - (if s[i] == v then 1 else 0) + (if x == v then 1 else 0)
  {
    var t := s[i := x];
    if i < |s| - 1 {
      assert t[..|t| - 1] == s[..|s| - 1][i := x];
      CountUpdate(s[..|s| - 1], i, x, v);
    } else {
      assert t[..|t| - 1] == s[..|s| - 1];
    }
  }

  /**
    Formatting a table that has no bad entries leaves exactly two bad entries, and
    formatting an all-free table leaves every block free but the five it fixes.
   */
  lemma {:induction false} FormattedCounts(fat: seq<Byte>)
    requires |fat| == FatSize
    ensures Count(fat, BadBlock) == 0 ==> Count(Formatted(fat), BadBlock) == 2
    ensures Count(fat, Free) == FatSize ==> Count(Formatted(fat), Free) == FatSize - 5
  {
    var m0 := fat[0 := Occupied];
    var m1 := m0[1 := Occupied];
    assert MarkFatBlocks(fat, NumOfFatBlocks) == m1;
    var b1 := m1[SecondBadBlock := BadBlock];
    var b2 := b1[FirstBadBlock := BadBlock];
    var r := b2[RootBlockNumber := Occupied];
    assert Formatted(fat) == r;
    CountExtremes(fat, BadBlock);
    CountExtremes(fat, Free);
    CountUpdate(fat, 0, Occupied, BadBlock);
    CountUpdate(m0, 1, Occupied, BadBlock);
    CountUpdate(m1, SecondBadBlock, BadBlock, BadBlock);
    CountUpdate(b1, FirstBadBlock, BadBlock, BadBlock);
    CountUpdate(b2, RootBlockNumber, Occupied, BadBlock);
    CountUpdate(fat, 0, Occupied, Free);
    CountUpdate(m0, 1, Occupied, Free);
    CountUpdate(m1, SecondBadBlock, BadBlock, Free);
    CountUpdate(b1, FirstBadBlock, BadBlock, Free);
    CountUpdate(b2, RootBlockNumber, Occupied, Free);
  }

  /** The filesystem engine attached to one disk. */
  class FileSystem {
    const disk: Disk
    /** In-memory mirror of the allocation table. */
    const fat: array<Byte>
    /** Scratch buffer of one block. */
    const buffer: array<Byte>
    /** The open-file table. */
    const openedFiles: array<OpenedFile>

    ghost predicate Valid()
    {
      fat.Length == FatSize && buffer.Length == SectorSize && openedFiles.Length == MaxOpenedFiles &&
      fat != disk.data && buffer != disk.data && fat != buffer
    }

    /**
      Attaches to `disk`: allocates an all-free allocation table and the scratch
      buffer, then loads the table from the disk. A failed load is only reported;
      the entries it did not transfer stay free.
     */
    constructor (disk: Disk)
      modifies disk`good
      ensures Valid() && this.disk == disk
      ensures fresh(fat) && fresh(buffer) && fresh(openedFiles)
      ensures fat[..] == AttachedFat(old(disk.good), disk.data[..])
      ensures disk.good == (old(disk.good) && FatSize <= disk.data.Length)
      ensures forall k :: 0 <= k < MaxOpenedFiles ==> openedFiles[k].path == ""
    {
      this.disk := disk;
      var table := new Byte[FatSize];
      for i := 0 to FatSize
        modifies table
        invariant forall j :: 0 <= j < i ==> table[j] == Free
      {
        table[i] := Free;
      }
      fat := table;
      buffer := new Byte[SectorSize];
      openedFiles := new OpenedFile[MaxOpenedFiles](_ => UnusedSlot);
      new;
      var loaded := LoadFat();
      assert fat[..] == AttachedFat(old(disk.good), disk.data[..]);
    }

    /**
      Reads the allocation table from the start of the disk; true iff all FatSize
      bytes were transferred. Entries past what was transferred keep their value.
     */
    method LoadFat() returns (ok: bool)
      requires Valid()
      modifies fat, disk`good
      ensures ok == (old(disk.good) && FatSize <= disk.data.Length) && disk.good == ok
      ensures forall i :: 0 <= i < FatSize ==>
        fat[i] == if old(disk.good) && i < disk.data.Length then disk.data[i] else old(fat[i])
    {
      var count := disk.ReadBytes(fat, 0, FatSize);
      ok := count == FatSize;
    }

    /**
      Writes the allocation table to the start of the disk; true iff all FatSize
      bytes were written.
     */
    method SaveFat() returns (ok: bool)
      requires Valid() && FatSize <= disk.data.Length
      modifies disk`good, disk.data
      ensures ok == old(disk.good) && disk.good == ok
      ensures ok ==> disk.data[..] == Splice(old(disk.data[..]), 0, fat[..])
      ensures !ok ==> disk.data[..] == old(disk.data[..])
    {
      var count := disk.WriteBytes(fat, 0, FatSize);
      ok := count == FatSize;
    }

    /**
      Formats the disk: marks the table's own blocks and the root block occupied and
      the two bad blocks bad, saves the table, marks every root directory record
      empty and writes the root block. Returns false, without touching the root
      block, when the table cannot be saved; true iff both writes transfer their
      full length.
     */
    method InitFileSystem() returns (ok: bool)
      requires Valid() && (RootBlockNumber + 1) * BlockSize <= disk.data.Length
      modifies fat, buffer, disk`good, disk.data
      ensures fat[..] == Formatted(old(fat[..]))
      ensures ok == old(disk.good) && disk.good == ok
      ensures ok ==> buffer[..] == EmptyRoot(old(buffer[..]))
      ensures ok ==> disk.data[..] == Splice(Splice(old(disk.data[..]), 0, fat[..]), RootBlockNumber * BlockSize, buffer[..])
      ensures !ok ==> buffer[..] == old(buffer[..]) && disk.data[..] == old(disk.data[..])
    {
      ghost var before := fat[..];
      for i := 0 to NumOfFatBlocks
        modifies fat
        invariant fat[..] == MarkFatBlocks(before, i)
      {
        fat[i] := Occupied;
      }
      fat[SecondBadBlock] := BadBlock;
      fat[FirstBadBlock] := BadBlock;
      fat[RootBlockNumber] := Occupied;
      ghost var table := fat[..];
      assert table == Formatted(before);

      var saved := SaveFat();
      if !saved {
        return false;
      }
      ghost var withFat := disk.data[..];
      ghost var block := buffer[..];
      assert block == old(buffer[..]);

      for i := 0 to RecordsPerBlock
        modifies buffer
        invariant buffer[..] == MarkRecordsEmpty(block, i)
      {
        buffer[i * RecordSize] := EmptyRecordMark;
      }
      assert buffer[..] == EmptyRoot(block);
      assert buffer[..BlockSize] == buffer[..];
      var count := disk.WriteBytes(buffer, RootBlockNumber, BlockSize);
      ok := count == BlockSize;
    }
  }

  /**
    The opening of the engine's test: create a disk image, attach to it, check it
    is valid and format it. The model then attaches a second engine to the same disk,
    a step of its own that the test does not take, to observe the saved table. When
    the host can create the file, every step succeeds and the second engine loads
    exactly the formatted table.
   */
  method FormatFreshDisk(canCreate: bool) returns (created: bool, valid: bool, formatted: bool, reloaded: seq<Byte>)
    ensures created == canCreate
    ensures created ==> valid && formatted
    ensures created ==> reloaded == Formatted(Zeros(FatSize))
  {
    var image;
    created, image := Disk.CreateDisk(canCreate);
    var d := new Disk(image, created);
    valid := d.IsValid();
    if !created {
      return created, valid, false, [];
    }
    Layout();
    var fs := new FileSystem(d);
    assert fs.fat[..] == Zeros(FatSize);
    formatted := fs.InitFileSystem();
    FormatPlacement(image, fs.fat[..], fs.buffer[..]);
    var fs2 := new FileSystem(d);
    reloaded := fs2.fat[..];
  }
}
