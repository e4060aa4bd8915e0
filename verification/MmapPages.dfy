/** File-backed memory: which bytes of a file end up in which page. A fault reads one page of the file
    into a buffer that is used again for every fault, and copies the buffer to the faulting page
    (common_service/mmap_file_backend/src/lib.rs, `fatfs_read` of common_service/fatfs/src/apis.rs,
    as_std/src/mm.rs). */
module MmapPages {
  import opened Seqs
  import opened ByteSeqs

  const PAGE_SIZE: nat := 4096

  function AlignDown(n: nat): (r: nat)
    ensures r <= n < r + PAGE_SIZE && r % PAGE_SIZE == 0
  {
    n / PAGE_SIZE * PAGE_SIZE
  }

  function AlignUp(n: nat): (r: nat)
    ensures n <= r < n + PAGE_SIZE && r % PAGE_SIZE == 0
  {
    (n + PAGE_SIZE - 1) / PAGE_SIZE * PAGE_SIZE
  }

  /** An open file of the FAT library: a read gives at least one byte unless the cursor is at the end. */
  class OpenFile {
    const content: Bytes
    var pos: nat

    constructor (content: Bytes)
      ensures this.content == content && pos == 0
    {
      this.content := content;
      pos := 0;
    }

    /** One `File::read` into `buf` from index `at` on, as long as the library likes. */
    method Read(buf: array<u8>, at: nat) returns (n: nat)
      requires at <= buf.Length
      modifies this`pos, buf
      ensures n <= buf.Length - at && old(pos) + n == pos
      ensures n > 0 ==> pos <= |content|
      ensures n == 0 ==> at == buf.Length || pos >= |content|
      ensures buf[..at] == old(buf[..at]) && buf[at + n..] == old(buf[at + n..])
      ensures n > 0 ==> buf[at..at + n] == content[old(pos)..pos]
    {
      if at == buf.Length || pos >= |content| {
        return 0;
      }
      var limit := Min(buf.Length - at, |content| - pos);
      var size: nat :| 1 <= size <= limit;
      n := size;
      CopyInto(buf, at, content[pos..pos + n]);
      pos := pos + n;
    }

    /** The fill loop of `fatfs_read`: short reads are repeated until the buffer is full or the file at
        its end, so the result does not depend on how the library cuts them. */
    method FatfsRead(buf: array<u8>) returns (readSize: nat)
      modifies this`pos, buf
      ensures readSize == if old(pos) >= |content| then 0 else Min(buf.Length, |content| - old(pos))
      ensures pos == old(pos) + readSize
      ensures readSize > 0 ==> buf[..readSize] == content[old(pos)..pos]
      ensures buf[readSize..] == old(buf[readSize..])
    {
      readSize := 0;
      while readSize < buf.Length
        invariant readSize <= buf.Length && pos == old(pos) + readSize
        invariant readSize > 0 ==> pos <= |content| && buf[..readSize] == content[old(pos)..pos]
        invariant buf[readSize..] == old(buf[..])[readSize..]
      {
        ghost var filled, rest, mid := buf[..readSize], buf[readSize..], pos;
        var size := Read(buf, readSize);
        if size == 0 {
          break;
        }
        assert buf[..readSize] == filled;
        assert buf[..readSize + size] == filled + buf[readSize..readSize + size];
        assert content[old(pos)..pos] == content[old(pos)..mid] + content[mid..pos];
        assert buf[readSize + size..] == rest[size..];
        readSize := readSize + size;
      }
      assert buf[readSize..] == old(buf[readSize..]);
    }

    /** `lseek`: the cursor does not go beyond the end. */
    method Seek(offset: nat)
      modifies this`pos
      ensures pos == Min(offset, |content|)
    {
      pos := if offset < |content| then offset else |content|;
    }
  }

  /** The page holds the file from `offset` on, as far as the file goes. */
  ghost predicate HoldsFile(page: Bytes, file: Bytes, offset: nat) {
    && |page| == PAGE_SIZE
    && (forall k :: 0 <= k < PAGE_SIZE && offset + k < |file| ==> page[k] == file[offset + k])
  }

  /** `read_at_offset`: bytes of the page beyond the end of the file keep what they held. */
  method ReadAtOffset(file: OpenFile, offset: nat, page: array<u8>)
    requires page.Length == PAGE_SIZE
    modifies file`pos, page
    ensures HoldsFile(page[..], file.content, offset)
  {
    file.Seek(offset);
    var readSize := file.FatfsRead(page);
    forall k | 0 <= k < PAGE_SIZE && offset + k < |file.content| ensures page[k] == file.content[offset + k] {
      assert page[..readSize][k] == file.content[offset..file.pos][k];
    }
  }

  /** A registered region: the file, where it starts, and the pages served so far by their address. */
  class Region {
    const file: OpenFile
    const start: nat
    var served: map<nat, Bytes>

    constructor (file: OpenFile, start: nat)
      ensures this.file == file && this.start == start && served == map[]
    {
      this.file, this.start, served := file, start, map[];
    }

    /** Every page served holds the file at the offset that is left of its own after truncation to 32
        bits. */
    ghost predicate Valid()
      reads this
    {
      && start % PAGE_SIZE == 0
      && (forall a :: a in served ==>
            a >= start && a % PAGE_SIZE == 0 && HoldsFile(served[a], file.content, (a - start) % U32_BOUND))
    }

    /** `do_page_fault`, for a fault at `addr`. Whatever the buffer held from earlier faults, the page is
        served with its own bytes; a page that is already there is refused. */
    method DoPageFault(page: array<u8>, addr: nat) returns (ok: bool)
      requires Valid() && page.Length == PAGE_SIZE && start <= addr
      modifies page, file`pos, this`served
      ensures Valid()
      ensures ok <==> AlignDown(addr) !in old(served)
      ensures !ok ==> served == old(served)
      ensures ok ==> AlignDown(addr) in served && served == old(served)[AlignDown(addr) := served[AlignDown(addr)]]
    {
      var offset := addr - start;
      var alignedOffset := AlignDown(offset);
      ReadAtOffset(file, alignedOffset % U32_BOUND, page);
      var dst := AlignDown(addr);
      SameAlignment(start, addr);
      if dst in served {
        return false;
      }
      served := served[dst := page[..]];
      ok := true;
    }

    /** `Mmap::as_ref`: the bytes a reader finds in the pages. */
    ghost function View(length: nat): (v: Bytes)
      requires Valid() && forall i :: 0 <= i < length ==> start + AlignDown(i) in served
      reads this
    {
      seq(length, i requires && 0 <= i < length && start + AlignDown(i) in served
                             && |served[start + AlignDown(i)]| == PAGE_SIZE
                    reads this => served[start + AlignDown(i)][i - AlignDown(i)])
    }

    /** Once every page of the mapping has been touched, the view is the file, for every file that does
        not exceed 4 GiB. */
    lemma ViewIsFile()
      requires Valid() && |file.content| <= U32_BOUND
      requires forall i :: 0 <= i < |file.content| ==> start + AlignDown(i) in served
      ensures View(|file.content|) == file.content
    {
      forall i | 0 <= i < |file.content| ensures View(|file.content|)[i] == file.content[i] {
        var a := start + AlignDown(i);
        assert HoldsFile(served[a], file.content, (a - start) % U32_BOUND);
        assert (a - start) % U32_BOUND == AlignDown(i);
      }
    }
  }

  /** No page is faulted twice, and none is there already. */
  ghost predicate FirstFaults(faults: seq<nat>, served: map<nat, Bytes>) {
    && (forall m :: 0 <= m < |faults| ==> AlignDown(faults[m]) !in served)
    && (forall m, n :: 0 <= m < n < |faults| ==> AlignDown(faults[m]) != AlignDown(faults[n]))
  }

  /** The pages of a sequence of faults. */
  ghost function Pages(faults: seq<nat>): set<nat> {
    set m | 0 <= m < |faults| :: AlignDown(faults[m])
  }

  /** A sequence of faults in the region, served with one and the same buffer. The first fault on a page
      that is there already makes the handler panic; the `n` faults before it are served. */
  method ServeFaults(region: Region, page: array<u8>, faults: seq<nat>) returns (n: nat)
    requires region.Valid() && page.Length == PAGE_SIZE
    requires forall m :: 0 <= m < |faults| ==> region.start <= faults[m]
    modifies page, region.file`pos, region`served
    ensures region.Valid()
    ensures n <= |faults| && (n == |faults| <==> FirstFaults(faults, old(region.served)))
    ensures n < |faults| ==> AlignDown(faults[n]) in region.served
    ensures region.served.Keys == old(region.served).Keys + Pages(faults[..n])
    ensures forall a :: a in old(region.served) ==> region.served[a] == old(region.served)[a]
  {
    ghost var before := region.served;
    n := 0;
    while n < |faults|
      invariant 0 <= n <= |faults| && region.Valid()
      invariant FirstFaults(faults[..n], before)
      invariant region.served.Keys == before.Keys + Pages(faults[..n])
      invariant forall a :: a in before ==> region.served[a] == before[a]
    {
      var ok := region.DoPageFault(page, faults[n]);
      PagesSnoc(faults, before, n);
      if !ok {
        return;
      }
      n := n + 1;
    }
    assert faults[..n] == faults;
  }

  /** One more fault: on a new page, or on one that is there. */
  lemma PagesSnoc(faults: seq<nat>, before: map<nat, Bytes>, n: nat)
    requires n < |faults| && FirstFaults(faults[..n], before)
    ensures Pages(faults[..n + 1]) == Pages(faults[..n]) + {AlignDown(faults[n])}
    ensures AlignDown(faults[n]) in before.Keys + Pages(faults[..n]) ==> !FirstFaults(faults, before)
    ensures AlignDown(faults[n]) !in before.Keys + Pages(faults[..n]) ==> FirstFaults(faults[..n + 1], before)
  {
    assert faults[..n + 1] == faults[..n] + [faults[n]];
    var page := AlignDown(faults[n]);
    if page in Pages(faults[..n]) {
      var m :| 0 <= m < n && page == AlignDown(faults[..n][m]);
      assert faults[..n][m] == faults[m];
    }
  }

  lemma SameAlignment(start: nat, addr: nat)
    requires start % PAGE_SIZE == 0 && start <= addr
    ensures AlignDown(addr) == start + AlignDown(addr - start)
  {
    var q := start / PAGE_SIZE;
    assert start == q * PAGE_SIZE;
    assert addr / PAGE_SIZE == q + (addr - start) / PAGE_SIZE;
  }

  /** Every page of a mapping starts inside the file. */
  lemma PagesStartInFile(length: nat, offset: nat)
    requires offset < AlignUp(length)
    ensures AlignDown(offset) < length
  {
  }

  // ----- Files over 4 GiB -----

  /** All pages of all files of a length hold their own bytes exactly when the length is at most 4 GiB. */
  lemma AllPagesRightIff(length: nat)
    ensures length <= U32_BOUND <==>
            forall file: Bytes, offset: nat, page: Bytes ::
              (&& |file| == length && offset % PAGE_SIZE == 0 && offset < length
               && HoldsFile(page, file, offset % U32_BOUND)) ==>
                HoldsFile(page, file, offset)
  {
    if length > U32_BOUND {
      var file: Bytes := seq(length, i => if i == U32_BOUND then 1 else 0);
      var page: Bytes := seq(PAGE_SIZE, _ => 0);
      assert HoldsFile(page, file, U32_BOUND % U32_BOUND);
      assert page[0] != file[U32_BOUND + 0];
      assert !HoldsFile(page, file, U32_BOUND);
    }
  }
}
