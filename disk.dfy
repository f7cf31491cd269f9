/**
  The simulated block device of ToyFS: a host file holding NumOfSector sectors of
  SectorSize bytes, read and written one sector (or a run of bytes starting at a
  sector boundary) at a time.

  The host file is modelled as a byte array (`data`) and the state of the C++ file
  stream as one boolean (`good`). A failed seek or a short read puts the stream in a
  failed state that nothing in the device clears again, so `good` never goes back
  from false to true.
 */
module BlockStore {

  /** One byte of the backing file, a C++ `char`. */
  newtype Byte = x: int | -128 <= x < 128

  const NumOfSector: int := 128
  const SectorSize: int := 64
  /** Size in bytes of a usable disk image. */
  const Capacity: int := NumOfSector * SectorSize

  function Min(a: int, b: int): int { if a <= b then a else b }

  /** `n` zero bytes. */
  function Zeros(n: nat): (r: seq<Byte>)
    ensures |r| == n && forall i :: 0 <= i < n ==> r[i] == 0
  {
    seq(n, _ => 0)
  }

  /**
    The number of bytes a stream read of `length` bytes transfers after seeking to
    byte `start` of a file of `size` bytes: nothing if the stream is not good or the
    seek is negative, otherwise what is left of the file, at most `length`.
   */
  function ReadCount(good: bool, start: int, length: nat, size: nat): (n: nat)
    ensures n <= length
    ensures n == length <==> length == 0 || (good && 0 <= start && start + length <= size)
    ensures 0 < n ==> good && 0 <= start && start + n <= size
  {
    if !good || start < 0 || size <= start then 0 else Min(length, size - start)
  }

  /** `s` with the bytes from `start` on overwritten by `chunk`. */
  function Splice(s: seq<Byte>, start: nat, chunk: seq<Byte>): (r: seq<Byte>)
    requires start + |chunk| <= |s|
    ensures |r| == |s|
    ensures forall i :: 0 <= i < |s| ==> r[i] == if start <= i < start + |chunk| then chunk[i - start] else s[i]
  {
    s[..start] + chunk + s[start + |chunk|..]
  }

  /** A sector written and then read back yields the bytes written. */
  lemma ReadBackWrittenSector(image: seq<Byte>, sector: nat, chunk: seq<Byte>)
    requires |chunk| == SectorSize && SectorSize * (sector + 1) <= |image|
    ensures Splice(image, SectorSize * sector, chunk)[SectorSize * sector .. SectorSize * (sector + 1)] == chunk
  {
  }

  /** Writing one sector leaves every other sector as it was. */
  lemma WriteLeavesOtherSectors(image: seq<Byte>, written: nat, chunk: seq<Byte>, other: nat)
    requires |chunk| == SectorSize && SectorSize * (written + 1) <= |image|
    requires SectorSize * (other + 1) <= |image| && other != written
    ensures Splice(image, SectorSize * written, chunk)[SectorSize * other .. SectorSize * (other + 1)]
         == image[SectorSize * other .. SectorSize * (other + 1)]
  {
  }

  class Disk {
    /** The bytes of the backing host file. */
    const data: array<Byte>
    /** Whether the file stream is in a good state. */
    var good: bool

    /**
      Attaches to the host file whose bytes are `image`; `canOpen` says whether the
      host could open it for reading and writing. Attaching never fails loudly: a
      stream that could not be opened is simply not good.
     */
    constructor (image: seq<Byte>, canOpen: bool)
      ensures data[..] == image && good == canOpen
      ensures fresh(data)
    {
      data := new Byte[|image|](i requires 0 <= i < |image| => image[i]);
      good := canOpen;
    }

    /**
      Creates a disk image: writes Capacity zero bytes, one at a time, to a newly
      opened host file. `canOpen` says whether the host could open the file for
      writing; every write to a stream that is not open fails.
     */
    static method CreateDisk(canOpen: bool) returns (ok: bool, image: seq<Byte>)
      ensures ok == canOpen
      ensures ok ==> image == Zeros(Capacity)
      ensures !ok ==> image == []
    {
      image := [];
      for i := 0 to Capacity
        invariant |image| == if canOpen then i else 0
        invariant forall j :: 0 <= j < |image| ==> image[j] == 0
      {
        if canOpen {
          image := image + [0];
        }
      }
      ok := canOpen;
    }

    /**
      Whether the disk is usable: the stream is good and the file, measured by
      skipping from offset 0 to its end, is exactly Capacity bytes long. The stream
      position is restored afterwards, so the call changes nothing.
     */
    method IsValid() returns (valid: bool)
      ensures valid == (good && data.Length == Capacity)
    {
      if good {
        // Stands for seeking to the end and asking how far that is from offset 0.
        var skipped := 0;
        while skipped < data.Length
          invariant skipped <= data.Length
        {
          skipped := skipped + 1;
        }
        valid := skipped == Capacity;
      } else {
        valid := false;
      }
    }

    /**
      Reads up to `length` bytes starting at the first byte of `sector` into
      `buf[0..length)` and returns how many were transferred. A negative sector or a
      short read leaves the stream failed.
     */
    method ReadBytes(buf: array<Byte>, sector: int, length: nat) returns (count: nat)
      requires buf != data && length <= buf.Length
      modifies this`good, buf
      ensures count == ReadCount(old(good), SectorSize * sector, length, data.Length)
      ensures forall i :: 0 <= i < count ==> buf[i] == data[SectorSize * sector + i]
      ensures forall i :: count <= i < buf.Length ==> buf[i] == old(buf[i])
      ensures good == (old(good) && 0 <= sector && count == length)
    {
      var start := SectorSize * sector;
      count := ReadCount(good, start, length, data.Length);
      forall i | 0 <= i < count {
        buf[i] := data[start + i];
      }
      good := good && 0 <= sector && count == length;
    }

    /**
      Writes `buf[0..length)` over the disk bytes starting at the first byte of
      `sector` and returns how many bytes were written. A negative sector fails the
      stream and writes nothing; so does a stream that is not good.
     */
    method WriteBytes(buf: array<Byte>, sector: int, length: nat) returns (count: nat)
      requires buf != data && length <= buf.Length
      requires SectorSize * sector + length <= data.Length
      modifies this`good, data
      ensures good == (old(good) && 0 <= sector)
      ensures count == if good then length else 0
      ensures good ==> data[..] == Splice(old(data[..]), SectorSize * sector, buf[..length])
      ensures !good ==> data[..] == old(data[..])
    {
      var start := SectorSize * sector;
      if good && 0 <= start {
        forall i | 0 <= i < length {
          data[start + i] := buf[i];
        }
        count := length;
        assert data[..] == Splice(old(data[..]), start, buf[..length]);
      } else {
        good := false;
        count := 0;
      }
    }

    /**
      Reads exactly one sector into `buf[0..SectorSize)`; true iff all SectorSize
      bytes were transferred.
     */
    method Read(buf: array<Byte>, sector: int) returns (ok: bool)
      requires buf != data && SectorSize <= buf.Length
      modifies this`good, buf
      ensures ok == (old(good) && 0 <= sector && SectorSize * (sector + 1) <= data.Length)
      ensures ok ==> buf[..SectorSize] == data[SectorSize * sector .. SectorSize * (sector + 1)]
      ensures forall i :: 0 <= i < ReadCount(old(good), SectorSize * sector, SectorSize, data.Length) ==> buf[i] == data[SectorSize * sector + i]
      ensures forall i :: ReadCount(old(good), SectorSize * sector, SectorSize, data.Length) <= i < buf.Length ==> buf[i] == old(buf[i])
      ensures data.Length == Capacity && NumOfSector <= sector ==> !ok
      ensures good == ok
    {
      var count := ReadBytes(buf, sector, SectorSize);
      ok := count == SectorSize;
    }

    /**
      Overwrites exactly one sector with `buf[0..SectorSize)`, leaving every other
      byte of the disk as it was; true iff all SectorSize bytes were written.
     */
    method Write(buf: array<Byte>, sector: int) returns (ok: bool)
      requires buf != data && SectorSize <= buf.Length
      requires SectorSize * (sector + 1) <= data.Length
      modifies this`good, data
      ensures ok == (old(good) && 0 <= sector) && good == ok
      ensures ok ==> data[..] == Splice(old(data[..]), SectorSize * sector, buf[..SectorSize])
      ensures !ok ==> data[..] == old(data[..])
    {
      var count := WriteBytes(buf, sector, SectorSize);
      ok := count == SectorSize;
    }
  }

  /**
    A write of a sector followed by a read of the same sector: when the write
    succeeds, the read succeeds too and returns the bytes written.
   */
  method WriteThenRead(disk: Disk, src: array<Byte>, dst: array<Byte>, sector: int) returns (wrote: bool, read: bool)
    requires src != disk.data && dst != disk.data
    requires SectorSize <= src.Length && SectorSize <= dst.Length
    requires SectorSize * (sector + 1) <= disk.data.Length
    modifies disk, disk.data, dst
    ensures wrote == (old(disk.good) && 0 <= sector)
    ensures wrote ==> read && dst[..SectorSize] == old(src[..SectorSize])
  {
    ghost var chunk := src[..SectorSize];
    wrote := disk.Write(src, sector);
    read := disk.Read(dst, sector);
    if wrote {
      ReadBackWrittenSector(old(disk.data[..]), sector, chunk);
    }
  }
}
