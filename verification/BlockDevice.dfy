/** Byte-addressed access over a device that only reads and writes whole blocks: the RAM disk
    (common_service/rcore_sfsfdtab/ramdisk/driver_block/src/ramdisk.rs) under the adapters for ext4
    (common_service/ext4fdtab/src/ext4_apis.rs), which loops over blocks, and for SFS
    (common_service/rcore_sfsfdtab/src/sfs_apis.rs), which transfers at most to the end of a block. */
module BlockDevice {
  import opened Seqs
  import opened ByteSeqs

  const BLOCK_SIZE: nat := 4096

  // ----- The flat byte array both adapters should look like -----

  /** All of `len` bytes at `offset` lie on a device of the given size. */
  predicate Fits(size: nat, offset: nat, len: nat) {
    len == 0 || offset + len <= size
  }

  // ----- The RAM disk -----

  datatype DevResult = Ok | Io | InvalidParam

  /** The smallest multiple of the block size that is not below `val`. */
  function AlignUp(val: nat): (r: nat)
    ensures r % BLOCK_SIZE == 0 && val <= r < val + BLOCK_SIZE
  {
    (val + BLOCK_SIZE - 1) / BLOCK_SIZE * BLOCK_SIZE
  }

  class RamDisk {
    const data: array<u8>

    ghost predicate Valid() {
      data.Length % BLOCK_SIZE == 0
    }

    /** `RamDisk::from`: the image, padded with zeros to whole blocks. */
    constructor From(image: Bytes)
      ensures Valid() && fresh(data)
      ensures data[..] == image + Zeros(AlignUp(|image|) - |image|)
    {
      data := new u8[AlignUp(|image|)](_ => 0);
      new;
      CopyInto(data, 0, image);
    }

    method ReadBlock(blockId: nat, buf: array<u8>) returns (r: DevResult)
      requires buf != data
      modifies buf
      ensures r == if blockId * BLOCK_SIZE + buf.Length > data.Length then Io
                   else if buf.Length % BLOCK_SIZE != 0 then InvalidParam else Ok
      ensures r.Ok? ==> buf[..] == data[blockId * BLOCK_SIZE..blockId * BLOCK_SIZE + buf.Length]
      ensures !r.Ok? ==> buf[..] == old(buf[..])
    {
      var offset := blockId * BLOCK_SIZE;
      if offset + buf.Length > data.Length {
        return Io;
      }
      if buf.Length % BLOCK_SIZE != 0 {
        return InvalidParam;
      }
      CopyInto(buf, 0, data[offset..offset + buf.Length]);
      r := Ok;
    }

    method WriteBlock(blockId: nat, buf: Bytes) returns (r: DevResult)
      modifies data
      ensures r == if blockId * BLOCK_SIZE + |buf| > data.Length then Io
                   else if |buf| % BLOCK_SIZE != 0 then InvalidParam else Ok
      ensures r.Ok? ==> data[..] == Splice(old(data[..]), blockId * BLOCK_SIZE, buf)
      ensures !r.Ok? ==> data[..] == old(data[..])
    {
      var offset := blockId * BLOCK_SIZE;
      if offset + |buf| > data.Length {
        return Io;
      }
      if |buf| % BLOCK_SIZE != 0 {
        return InvalidParam;
      }
      CopyInto(data, offset, buf);
      r := Ok;
    }
  }

  // ----- One block, read, changed and written back -----

  function BlockOf(offset: nat): nat { offset / BLOCK_SIZE }

  function InBlock(offset: nat): nat { offset % BLOCK_SIZE }

  function Transfer(offset: nat, len: nat): (n: nat)
    ensures n <= len && n <= BLOCK_SIZE - InBlock(offset) && (len > 0 ==> n > 0)
  {
    if len <= BLOCK_SIZE - InBlock(offset) then len else BLOCK_SIZE - InBlock(offset)
  }

  /** A block is on the device exactly when its first byte of interest is. */
  lemma BlockOnDevice(size: nat, offset: nat)
    requires size % BLOCK_SIZE == 0
    ensures BlockOf(offset) * BLOCK_SIZE + BLOCK_SIZE <= size <==> offset < size
    ensures offset == BlockOf(offset) * BLOCK_SIZE + InBlock(offset)
  {
    var q := size / BLOCK_SIZE;
    assert size == q * BLOCK_SIZE;
  }

  /** Changing part of a block and writing the block back changes just that part of the device. */
  lemma ReadModifyWrite(s: Bytes, block: nat, within: nat, data: Bytes)
    requires block + BLOCK_SIZE <= |s| && within + |data| <= BLOCK_SIZE
    ensures Splice(s, block, Splice(s[block..block + BLOCK_SIZE], within, data)) == Splice(s, block + within, data)
  {
  }

  /** The step shared by both adapters: at most to the end of the block `offset` lies in. */
  method WriteWithinBlock(disk: RamDisk, offset: nat, data: Bytes) returns (ok: bool)
    requires disk.Valid() && InBlock(offset) + |data| <= BLOCK_SIZE
    modifies disk.data
    ensures ok <==> offset < disk.data.Length
    ensures ok ==> offset + |data| <= disk.data.Length && disk.data[..] == Splice(old(disk.data[..]), offset, data)
    ensures !ok ==> disk.data[..] == old(disk.data[..])
  {
    BlockOnDevice(disk.data.Length, offset);
    var blockBuf := new u8[BLOCK_SIZE];
    var r := disk.ReadBlock(BlockOf(offset), blockBuf);
    if !r.Ok? {
      return false;
    }
    ghost var before := disk.data[..];
    CopyInto(blockBuf, InBlock(offset), data);
    r := disk.WriteBlock(BlockOf(offset), blockBuf[..]);
    ReadModifyWrite(before, BlockOf(offset) * BLOCK_SIZE, InBlock(offset), data);
    ok := true;
  }

  method ReadWithinBlock(disk: RamDisk, offset: nat, len: nat) returns (r: Option<Bytes>)
    requires disk.Valid() && InBlock(offset) + len <= BLOCK_SIZE
    ensures r.Some? <==> offset < disk.data.Length
    ensures r.Some? ==> offset + len <= disk.data.Length && r.value == disk.data[offset..offset + len]
  {
    BlockOnDevice(disk.data.Length, offset);
    var blockBuf := new u8[BLOCK_SIZE];
    var res := disk.ReadBlock(BlockOf(offset), blockBuf);
    if !res.Ok? {
      return None;
    }
    ghost var block := BlockOf(offset) * BLOCK_SIZE;
    r := Some(blockBuf[InBlock(offset)..InBlock(offset) + len]);
    assert blockBuf[..][InBlock(offset)..InBlock(offset) + len]
        == disk.data[block..block + BLOCK_SIZE][InBlock(offset)..InBlock(offset) + len];
  }

  // ----- The ext4 adapter -----

  /** `write_offset`: what fits on the device is written, the rest dropped. */
  method WriteOffset(disk: RamDisk, offset: nat, data: Bytes)
    requires disk.Valid()
    modifies disk.data
    ensures disk.data[..] == Splice(old(disk.data[..]), offset, data)
  {
    ghost var start := disk.data[..];
    var written := 0;
    while written < |data|
      invariant 0 <= written <= |data|
      invariant written > 0 ==> offset + written <= disk.data.Length
      invariant disk.data[..] == Splice(start, offset, data[..written])
    {
      var absOffset := offset + written;
      var toCopy := Transfer(absOffset, |data| - written);
      var ok := WriteWithinBlock(disk, absOffset, data[written..written + toCopy]);
      if !ok {
        SpliceBeyond(start, offset, data, written);
        return;
      }
      SpliceFurther(start, offset, data, written, written + toCopy);
      written := written + toCopy;
    }
    SpliceBeyond(start, offset, data, written);
  }

  /** The length `read_offset` guesses its caller wants: the superblock or a whole block. */
  function ReadLength(offset: nat): nat {
    if offset == 1024 then 1024 else BLOCK_SIZE
  }

  /** `read_offset`: the bytes if all of them are on the device, otherwise zeros throughout. */
  method ReadOffset(disk: RamDisk, offset: nat) returns (buf: Bytes)
    requires disk.Valid()
    ensures var len := ReadLength(offset);
            buf == if offset + len <= disk.data.Length then disk.data[offset..offset + len] else Zeros(len)
  {
    var len := ReadLength(offset);
    buf := Zeros(len);
    var read := 0;
    while read < len
      invariant 0 <= read <= len && |buf| == len
      invariant read > 0 ==> offset + read <= disk.data.Length
      invariant forall k :: 0 <= k < read ==> buf[k] == disk.data[offset + k]
    {
      var absOffset := offset + read;
      var toCopy := Transfer(absOffset, len - read);
      var part := ReadWithinBlock(disk, absOffset, toCopy);
      if part.None? {
        return Zeros(len);
      }
      buf := Splice(buf, read, part.value);
      read := read + toCopy;
    }
  }

  // ----- The SFS adapter -----

  /** `write_at`: at most to the end of the block; the length written, or an error off the device. */
  method WriteAt(disk: RamDisk, offset: nat, buf: Bytes) returns (r: Option<nat>)
    requires disk.Valid()
    modifies disk.data
    ensures r.Some? <==> offset < disk.data.Length
    ensures r.Some? ==> r.value == Transfer(offset, |buf|) && offset + r.value <= disk.data.Length
                        && disk.data[..] == Splice(old(disk.data[..]), offset, buf[..r.value])
    ensures r.None? ==> disk.data[..] == old(disk.data[..])
  {
    var writeLen := Transfer(offset, |buf|);
    var ok := WriteWithinBlock(disk, offset, buf[..writeLen]);
    r := if ok then Some(writeLen) else None;
  }

  method ReadAt(disk: RamDisk, offset: nat, len: nat) returns (r: Option<Bytes>)
    requires disk.Valid()
    ensures r.Some? <==> offset < disk.data.Length
    ensures r.Some? ==> |r.value| == Transfer(offset, len) && offset + |r.value| <= disk.data.Length
                        && r.value == disk.data[offset..offset + |r.value|]
  {
    r := ReadWithinBlock(disk, offset, Transfer(offset, len));
  }

  /** A caller that repeats the short writes gets the same effect as the ext4 adapter, and an error
      exactly when not everything fitted. */
  method WriteFully(disk: RamDisk, offset: nat, data: Bytes) returns (ok: bool)
    requires disk.Valid()
    modifies disk.data
    ensures ok <==> Fits(disk.data.Length, offset, |data|)
    ensures disk.data[..] == Splice(old(disk.data[..]), offset, data)
  {
    ghost var start := disk.data[..];
    var written := 0;
    while written < |data|
      invariant 0 <= written <= |data|
      invariant written > 0 ==> offset + written <= disk.data.Length
      invariant disk.data[..] == Splice(start, offset, data[..written])
    {
      var n := WriteAt(disk, offset + written, data[written..]);
      if n.None? {
        SpliceBeyond(start, offset, data, written);
        return false;
      }
      assert data[written..][..n.value] == data[written..written + n.value];
      SpliceFurther(start, offset, data, written, written + n.value);
      written := written + n.value;
    }
    SpliceBeyond(start, offset, data, written);
    ok := true;
  }

  method ReadFully(disk: RamDisk, offset: nat, len: nat) returns (r: Option<Bytes>)
    requires disk.Valid()
    ensures r.Some? <==> Fits(disk.data.Length, offset, len)
    ensures r.Some? && len > 0 ==> r.value == disk.data[offset..offset + len]
  {
    var buf: Bytes := [];
    while |buf| < len
      invariant |buf| <= len
      invariant |buf| > 0 ==> offset + |buf| <= disk.data.Length && buf == disk.data[offset..offset + |buf|]
      decreases len - |buf|
    {
      var part := ReadAt(disk, offset + |buf|, len - |buf|);
      if part.None? {
        return None;
      }
      buf := buf + part.value;
    }
    r := Some(buf);
  }
}
