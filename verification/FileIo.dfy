/** `read_to_end` and `write_all` of as_std/src/io.rs over a file whose inode transfers as much as it
    likes, at least one byte at a time (`FileWrapper` of common_service/rcore_sfsfdtab/src/sfs_apis.rs). */
module FileIo {
  import opened Seqs
  import opened ByteSeqs

  /** The content after `data` was written at `offset`; a gap before it reads as zeros, and writing
      nothing changes nothing. */
  function WrittenAt(content: Bytes, offset: nat, data: Bytes): (r: Bytes)
    ensures |r| == if data != [] && |content| < offset + |data| then offset + |data| else |content|
    ensures forall i :: 0 <= i < |r| ==>
              r[i] == if offset <= i < offset + |data| then data[i - offset]
                      else if i < |content| then content[i] else 0
  {
    var size := if data != [] && |content| < offset + |data| then offset + |data| else |content|;
    seq(size, i requires 0 <= i < size =>
      if offset <= i < offset + |data| then data[i - offset] else if i < |content| then content[i] else 0)
  }

  /** A write that goes on where the last one stopped. */
  lemma WriteFurther(content: Bytes, offset: nat, data: Bytes, k: nat, n: nat)
    requires k + n <= |data|
    ensures WrittenAt(WrittenAt(content, offset, data[..k]), offset + k, data[k..][..n])
         == WrittenAt(content, offset, data[..k + n])
  {
  }

  lemma WriteEnds(content: Bytes, offset: nat, data: Bytes)
    ensures WrittenAt(content, offset, data[..0]) == content
    ensures WrittenAt(content, offset, data[..|data|]) == WrittenAt(content, offset, data)
  {
    assert data[..|data|] == data;
  }

  /** What a reader at `offset` sees afterwards: the data, and then what the file had beyond it. */
  lemma WrittenTail(content: Bytes, offset: nat, data: Bytes)
    requires data != []
    ensures WrittenAt(content, offset, data)[offset..]
         == data + if offset + |data| < |content| then content[offset + |data|..] else []
  {
  }

  /** How a loop over short transfers ends: with everything done, with an error, or with a panic. */
  datatype Ending = Done | Failed | Panicked

  class FileWrapper {
    var content: Bytes
    var offset: nat
    const readable: bool
    const writable: bool
    /** Whether the inode may return an error, or transfer nothing although it could. */
    const faulty: bool

    constructor (content: Bytes, readable: bool, writable: bool, faulty: bool)
      ensures this.content == content && offset == 0
      ensures this.readable == readable && this.writable == writable && this.faulty == faulty
    {
      this.content, offset := content, 0;
      this.readable, this.writable, this.faulty := readable, writable, faulty;
    }

    /** What there is to read from the cursor on. */
    ghost function Rest(): Bytes
      reads this
    {
      if offset <= |content| then content[offset..] else []
    }

    /** One write: some front part of the buffer. */
    method Write(buf: Bytes) returns (r: Option<nat>)
      modifies this`content, this`offset
      ensures !writable ==> r.None?
      ensures writable && !faulty ==> r.Some? && (buf != [] ==> r.value > 0)
      ensures r.None? ==> content == old(content) && offset == old(offset)
      ensures r.Some? ==> r.value <= |buf| && offset == old(offset) + r.value
                          && content == WrittenAt(old(content), old(offset), buf[..r.value])
    {
      if !writable {
        return None;
      }
      if faulty {
        if * {
          return None;
        }
      }
      var n: nat :| n <= |buf| && (faulty || buf == [] || n > 0);
      content := WrittenAt(content, offset, buf[..n]);
      offset := offset + n;
      r := Some(n);
    }

    /** One read into a buffer of `size` bytes. */
    method Read(size: nat) returns (r: Option<Bytes>)
      requires size > 0
      modifies this`offset
      ensures !readable ==> r.None?
      ensures readable && !faulty ==> r.Some? && (r.value == [] <==> old(offset) >= |content|)
      ensures r.None? ==> offset == old(offset)
      ensures r.Some? ==> |r.value| <= size && offset == old(offset) + |r.value|
      ensures r.Some? && r.value != [] ==> offset <= |content| && r.value == content[old(offset)..offset]
    {
      if !readable {
        return None;
      }
      if faulty {
        if * {
          return None;
        }
      }
      if offset >= |content| {
        return Some([]);
      }
      var limit := Min(size, |content| - offset);
      var n: nat :| n <= limit && (faulty || n > 0);
      r := Some(content[offset..offset + n]);
      offset := offset + n;
    }

    method Seek(pos: nat)
      modifies this`offset
      ensures offset == pos
    {
      offset := pos;
    }

    /** One round of `write_all`: the next part of the data. */
    method WriteOn(data: Bytes, done: nat, ghost start: Bytes, ghost first: nat) returns (n: Option<nat>)
      requires done < |data| && offset == first + done && content == WrittenAt(start, first, data[..done])
      modifies this`content, this`offset
      ensures !writable ==> n.None?
      ensures writable && !faulty ==> n.Some? && n.value > 0
      ensures n.None? ==> content == old(content) && offset == old(offset)
      ensures n.Some? ==> done + n.value <= |data| && offset == first + done + n.value
                          && content == WrittenAt(start, first, data[..done + n.value])
    {
      n := Write(data[done..]);
      if n.Some? { WriteFurther(start, first, data, done, n.value); }
    }

    /** `write_all`: however the inode cuts the transfers, the effect is that of one write, of everything or
        of what was written before the inode failed. */
    method WriteAll(data: Bytes) returns (r: Ending, ghost written: nat)
      modifies this`content, this`offset
      ensures written <= |data| && offset == old(offset) + written
      ensures content == WrittenAt(old(content), old(offset), data[..written])
      ensures r.Done? <==> written == |data|
      ensures data != [] && !writable ==> r.Failed? && written == 0
      ensures !faulty ==> (r.Done? <==> writable || data == [])
    {
      ghost var start, first := content, offset;
      WriteEnds(content, offset, data);
      var done := 0;
      while done < |data|
        invariant 0 <= done <= |data| && offset == first + done
        invariant done > 0 ==> writable
        invariant content == WrittenAt(start, first, data[..done])
        decreases |data| - done
      {
        var n := WriteOn(data, done, start, first);
        if n.None? {
          return Failed, done;
        }
        if n.value == 0 {
          return Panicked, done;
        }
        done := done + n.value;
      }
      r, written := Done, done;
    }

    /** `read_to_end`: everything from the cursor on, in chunks of at most 1024 bytes, or what was read
        before the inode failed. */
    method ReadToEnd() returns (ok: bool, buf: Bytes)
      modifies this`offset
      ensures buf <= old(Rest()) && offset == old(offset) + |buf|
      ensures !readable ==> !ok && buf == []
      ensures readable && !faulty ==> ok && buf == old(Rest())
    {
      ghost var first := offset;
      buf := [];
      while true
        invariant offset == first + |buf|
        invariant buf != [] ==> readable && offset <= |content| && buf == content[first..offset]
        decreases |content| - offset
      {
        var chunk := Read(1024);
        if chunk.None? {
          return false, buf;
        }
        if chunk.value == [] {
          break;
        }
        buf := buf + chunk.value;
      }
      ok := true;
    }

    /** Writing, seeking back and reading gives back what was written, and nothing more exactly when the
        write reaches the end of the file, as it does in a file that was empty. */
    method WriteThenRead(data: Bytes) returns (r: Bytes)
      requires readable && writable && !faulty
      modifies this`content, this`offset
      ensures data <= r
      ensures r == data <==> |old(content)| <= old(offset) + |data|
    {
      var start := offset;
      var _, _ := WriteAll(data);
      WriteEnds(old(content), start, data);
      Seek(start);
      if data != [] { WrittenTail(old(content), start, data); }
      var _, read := ReadToEnd();
      r := read;
    }
  }
}
