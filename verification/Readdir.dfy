/** `fd_readdir` of wasmtime_wasi_api/src/wasi.rs: the entries of a directory, listed and sorted anew on
    every call, are written as records one after the other until the guest's buffer is full, the last
    one cut off where it ends; the caller resumes from the `d_next` of the last complete record. */
module Readdir {
  import opened Seqs
  import opened ByteSeqs
  import opened DirListing

  // ----- Little-endian integers -----

  function LittleEndian(n: nat, k: nat): (r: Bytes)
    ensures |r| == k
    decreases k
  {
    if k == 0 then [] else [(n % 256) as u8] + LittleEndian(n / 256, k - 1)
  }

  function FromLittleEndian(b: Bytes): nat {
    if b == [] then 0 else b[0] as nat + 256 * FromLittleEndian(b[1..])
  }

  function Power256(k: nat): nat {
    if k == 0 then 1 else 256 * Power256(k - 1)
  }

  lemma {:induction false} LittleEndianRoundTrip(n: nat, k: nat)
    requires n < Power256(k)
    ensures FromLittleEndian(LittleEndian(n, k)) == n
    decreases k
  {
    if k > 0 {
      LittleEndianRoundTrip(n / 256, k - 1);
      assert LittleEndian(n, k)[1..] == LittleEndian(n / 256, k - 1);
    }
  }

  lemma Powers()
    ensures Power256(4) == U32_BOUND && Power256(8) == U64_BOUND
  {
    assert Power256(2) == 65536;
    assert Power256(3) == 16777216;
    assert Power256(4) == U32_BOUND;
    assert Power256(5) == 256 * U32_BOUND;
    assert Power256(6) == 65536 * U32_BOUND;
    assert Power256(7) == 16777216 * U32_BOUND;
  }

  // ----- Records -----

  /** The file type codes of WASI preview 1. */
  function TypeCode(kind: nat): u8 {
    match kind
    case 2 => 2
    case 4 => 3
    case 8 => 4
    case _ => 0
  }

  /** The three bytes of padding in the record header: whatever the stack held. */
  type Padding = p: Bytes | |p| == 3 witness [0, 0, 0]

  const HEADER: nat := 24

  /** The memory image of a `WasiDirent`. */
  function Dirent(e: DirEntry, next: nat, pad: Padding): (r: Bytes)
    ensures |r| == HEADER
  {
    LittleEndian(next, 8) + LittleEndian(0, 8) + LittleEndian(|e.name|, 4) + [TypeCode(e.kind)] + pad
  }

  /** How a record header is built from an entry and its `d_next`. */
  type HeaderOf = (DirEntry, nat) -> Bytes

  ghost predicate HeaderSized(header: HeaderOf) {
    forall e: DirEntry, next: nat :: |header(e, next)| == HEADER
  }

  /** The headers the code builds, for whatever padding it happens to find. */
  function Dirents(pad: nat -> Padding): HeaderOf {
    (e: DirEntry, next: nat) => Dirent(e, next, pad(next))
  }

  /** All records from entry `c` on. */
  function Records(entries: seq<DirEntry>, c: nat, header: HeaderOf): Bytes
    decreases |entries| - c
  {
    if c >= |entries| then [] else header(entries[c], c + 1) + entries[c].name + Records(entries, c + 1, header)
  }

  // ----- fd_readdir -----

  /** `memory.write`, which fails for a range that leaves the guest's memory. */
  method MemoryWrite(memory: array<u8>, offset: nat, data: Bytes) returns (ok: bool)
    modifies memory
    ensures ok <==> offset + |data| <= memory.Length
    ensures memory[..] == if ok then Splice(old(memory[..]), offset, data) else old(memory[..])
  {
    ok := offset + |data| <= memory.Length;
    if ok {
      CopyInto(memory, offset, data);
    }
  }

  /** One write at the cursor: after the first `k` bytes of the records come the next ones. */
  method WriteOn(memory: array<u8>, buf: nat, k: nat, data: Bytes, ghost all: Bytes, ghost start: Bytes)
    returns (ok: bool)
    requires k + |data| <= |all| && data == all[k..k + |data|]
    requires |start| == memory.Length && memory[..] == Splice(start, buf, all[..k])
    modifies memory
    ensures ok <==> buf + k + |data| <= |start|
    ensures ok ==> memory[..] == Splice(start, buf, all[..k + |data|])
    ensures !ok ==> memory[..] == old(memory[..])
  {
    SpliceFurther(start, buf, all, k, k + |data|);
    ok := MemoryWrite(memory, buf + k, data);
  }

  /** How a round of the loop ends: there is room for more, the buffer is full, or a write left the
      guest's memory and the call traps. */
  datatype Round = More | Full | Trap

  /** `used` bytes of the records are in the buffer, and those from entry `i` on follow. */
  ghost predicate Reached(all: Bytes, used: nat, entries: seq<DirEntry>, i: nat, header: HeaderOf) {
    used <= |all| && all[used..] == Records(entries, i, header)
  }

  /** Some of the records were written before the trap. */
  ghost predicate PartlyWritten(memory: Bytes, start: Bytes, buf: nat, all: Bytes, limit: nat) {
    exists n :: 0 <= n <= limit && n <= |all| && memory == Splice(start, buf, all[..n])
  }

  /** One round of the loop: the whole record if it fits, else as much of it as fits. */
  method EmitRecord(memory: array<u8>, entries: seq<DirEntry>, i: nat, header: HeaderOf, buf: nat, bufLen: nat,
                    used: nat, ghost all: Bytes, ghost start: Bytes) returns (r: Round)
    requires HeaderSized(header) && i < |entries| && used <= bufLen && |start| == memory.Length
    requires Reached(all, used, entries, i, header) && memory[..] == Splice(start, buf, all[..used])
    modifies memory
    ensures var next := used + HEADER + |entries[i].name|;
            && next <= |all|
            && (r.More? ==> next <= bufLen && buf + next <= |start| && Reached(all, next, entries, i + 1, header)
                            && memory[..] == Splice(start, buf, all[..next]))
            && (r.Full? ==> bufLen < next && buf + bufLen <= |start| && memory[..] == Splice(start, buf, all[..bufLen]))
    ensures r.Trap? ==> buf + Min(bufLen, |all|) > |start| && PartlyWritten(memory[..], start, buf, all, bufLen)
  {
    var item := entries[i];
    var dirent := header(item, i + 1);
    RecordsUnfold(entries, i, header, all, used);
    var ok: bool;
    if used + HEADER + |item.name| > bufLen {
      var partBuf := (dirent + item.name)[..bufLen - used];
      assert partBuf == all[used..bufLen];
      ok := WriteOn(memory, buf, used, partBuf, all, start);
      return if ok then Full else Trap;
    }
    ok := WriteOn(memory, buf, used, dirent, all, start);
    if ok {
      ok := WriteOn(memory, buf, used + HEADER, item.name, all, start);
    }
    r := if ok then More else Trap;
  }

  /** The used length goes to its cell last, over the page if they overlap. */
  ghost function WithUsed(start: Bytes, buf: nat, bufused: nat, page: Bytes): Bytes {
    Splice(Splice(start, buf, page), bufused, LittleEndian(|page|, 4))
  }

  /** The loop over the entries from the cookie on: how much of the buffer is used, unless a write leaves
      the guest's memory. */
  method WriteEntries(memory: array<u8>, entries: seq<DirEntry>, buf: nat, bufLen: nat, cookie: nat, header: HeaderOf)
    returns (used: Option<nat>)
    requires HeaderSized(header)
    modifies memory
    ensures var all := Records(entries, cookie, header);
            var n := Min(bufLen, |all|);
            && (used.Some? <==> all == [] || buf + n <= memory.Length)
            && (used.Some? ==> used.value == n && memory[..] == Splice(old(memory[..]), buf, all[..n]))
            && (used.None? ==> PartlyWritten(memory[..], old(memory[..]), buf, all, bufLen))
  {
    ghost var start, all := memory[..], Records(entries, cookie, header);
    var curCookie, bufusedLen := cookie, 0;
    WriteNothing(start, buf, all);
    while curCookie < |entries|
      invariant 0 <= bufusedLen <= bufLen && Reached(all, bufusedLen, entries, curCookie, header)
      invariant memory[..] == Splice(start, buf, all[..bufusedLen])
      invariant all != [] && curCookie >= |entries| ==> buf + bufusedLen <= |start|
      decreases |entries| - curCookie
    {
      var r := EmitRecord(memory, entries, curCookie, header, buf, bufLen, bufusedLen, all, start);
      match r {
        case Trap =>
          return None;
        case Full =>
          return Some(bufLen);
        case More =>
          bufusedLen := bufusedLen + HEADER + |entries[curCookie].name|;
          curCookie := curCookie + 1;
      }
    }
    assert |all[bufusedLen..]| == 0;
    used := Some(bufusedLen);
  }

  /** `fd_readdir`, where the length of the buffer plus one record fits 32 bits. The call traps exactly
      when the page or the cell for the used length does not lie in the guest's memory. */
  method FdReaddir(memory: array<u8>, listing: seq<DirEntry>, buf: nat, bufLen: nat, cookie: nat, bufused: nat,
                   header: HeaderOf) returns (ok: bool)
    requires HeaderSized(header)
    requires forall e :: e in listing + [Dot, DotDot] ==> bufLen + HEADER + |e.name| < U32_BOUND
    modifies memory
    ensures var all := Records(Listed(listing), cookie, header);
            var n := Min(bufLen, |all|);
            && (ok <==> (all == [] || buf + n <= memory.Length) && bufused + 4 <= memory.Length)
            && (ok ==> memory[..] == WithUsed(old(memory[..]), buf, bufused, all[..n]))
            && (!ok ==> PartlyWritten(memory[..], old(memory[..]), buf, all, bufLen))
  {
    var entries := Listed(listing);
    var used := WriteEntries(memory, entries, buf, bufLen, cookie, header);
    if used.None? {
      return false;
    }
    ok := MemoryWrite(memory, bufused, LittleEndian(used.value, 4));
  }

  lemma WriteNothing(start: Bytes, buf: nat, all: Bytes)
    ensures Splice(start, buf, all[..0]) == start && all[0..] == all
  {
  }

  lemma RecordsUnfold(entries: seq<DirEntry>, i: nat, header: HeaderOf, all: Bytes, used: nat)
    requires i < |entries| && used <= |all| && all[used..] == Records(entries, i, header)
    ensures var dirent, name := header(entries[i], i + 1), entries[i].name;
            var size := |dirent| + |name|;
            && used + size <= |all| && all[used..used + size] == dirent + name
            && all[used..used + |dirent|] == dirent && all[used + |dirent|..used + size] == name
            && all[used + size..] == Records(entries, i + 1, header)
  {
    var record := header(entries[i], i + 1) + entries[i].name;
    assert all == all[..used] + all[used..];
    assert all[used..] == record + Records(entries, i + 1, header);
  }

  // ----- What the caller makes of a page -----

  /** A complete record as the caller decodes it. */
  datatype Seen = Seen(next: nat, name: Bytes, kind: u8)

  /** The complete records at the front of a page. */
  function Decode(page: Bytes): seq<Seen> {
    if |page| < HEADER then []
    else
      var size := HEADER + FromLittleEndian(page[16..20]);
      if |page| < size then []
      else [Seen(FromLittleEndian(page[..8]), page[HEADER..size], page[20])] + Decode(page[size..])
  }

  function SeenOf(e: DirEntry, next: nat): Seen {
    Seen(next, e.name, TypeCode(e.kind))
  }

  /** `page` shows the entries from `c` on, each with its own `d_next`. */
  ghost predicate Sees(page: seq<Seen>, entries: seq<DirEntry>, c: nat) {
    c + |page| <= |entries| && forall i :: 0 <= i < |page| ==> page[i] == SeenOf(entries[c + i], c + i + 1)
  }

  /** How many whole records fit into `k` bytes, from entry `c` on. */
  function Whole(entries: seq<DirEntry>, c: nat, k: nat): (n: nat)
    requires c <= |entries|
    ensures c + n <= |entries|
    decreases |entries| - c
  {
    if c == |entries| || HEADER + |entries[c].name| > k then 0
    else 1 + Whole(entries, c + 1, k - HEADER - |entries[c].name|)
  }

  /** The header of a record is read back field by field. */
  lemma DirentFields(e: DirEntry, next: nat, pad: Padding)
    requires next < U64_BOUND && |e.name| < U32_BOUND
    ensures ReadableAt(Dirent(e, next, pad), e, next)
  {
    Powers();
    FieldSlices(LittleEndian(next, 8), LittleEndian(0, 8), LittleEndian(|e.name|, 4), TypeCode(e.kind), pad);
    LittleEndianRoundTrip(next, 8);
    LittleEndianRoundTrip(|e.name|, 4);
  }

  lemma FieldSlices(next: Bytes, ino: Bytes, len: Bytes, kind: u8, pad: Bytes)
    requires |next| == 8 && |ino| == 8 && |len| == 4
    ensures var d := next + ino + len + [kind] + pad;
            d[..8] == next && d[16..20] == len && d[20] == kind
  {
  }

  lemma DecodeFirst(d: Bytes, name: Bytes, rest: Bytes, seen: Seen)
    requires |d| == HEADER && FromLittleEndian(d[..8]) == seen.next && FromLittleEndian(d[16..20]) == |name|
    requires d[20] == seen.kind && name == seen.name
    ensures Decode(d + name + rest) == [seen] + Decode(rest)
  {
    var page := d + name + rest;
    assert page[16..20] == d[16..20] && page[..8] == d[..8];
    assert page[HEADER..HEADER + |name|] == name && page[HEADER + |name|..] == rest;
  }

  lemma DecodeNone(d: Bytes, name: Bytes, page: Bytes)
    requires |d| == HEADER && FromLittleEndian(d[16..20]) == |name| && page <= d + name && |page| < HEADER + |name|
    ensures Decode(page) == []
  {
    if |page| >= HEADER {
      assert page[..HEADER] == d;
      assert page[16..20] == d[16..20];
    }
  }

  /** The caller can read the headers. */
  ghost predicate Readable(header: HeaderOf, entries: seq<DirEntry>) {
    forall c :: 0 <= c < |entries| ==> ReadableAt(header(entries[c], c + 1), entries[c], c + 1)
  }

  ghost predicate ReadableAt(d: Bytes, e: DirEntry, next: nat) {
    && |d| == HEADER && FromLittleEndian(d[..8]) == next
    && FromLittleEndian(d[16..20]) == |e.name| && d[20] == TypeCode(e.kind)
  }

  lemma DirentsReadable(pad: nat -> Padding, entries: seq<DirEntry>)
    requires |entries| < U64_BOUND && forall i :: 0 <= i < |entries| ==> |entries[i].name| < U32_BOUND
    ensures Readable(Dirents(pad), entries) && HeaderSized(Dirents(pad))
  {
    forall c | 0 <= c < |entries| ensures ReadableAt(Dirents(pad)(entries[c], c + 1), entries[c], c + 1) {
      DirentFields(entries[c], c + 1, pad(c + 1));
    }
    DirentsSized(pad);
  }

  /** `page` shows exactly the whole records among the first `k` bytes of those from entry `c` on. */
  ghost predicate Shows(page: seq<Seen>, entries: seq<DirEntry>, c: nat, k: nat)
    requires c <= |entries|
  {
    Sees(page, entries, c) && |page| == Whole(entries, c, k)
  }

  lemma ShowsFirst(entries: seq<DirEntry>, c: nat, d: Bytes, rest: Bytes, k: nat)
    requires c < |entries| && ReadableAt(d, entries[c], c + 1) && k <= |d + entries[c].name + rest|
    requires var size := HEADER + |entries[c].name|;
             size <= k ==> Shows(Decode(rest[..k - size]), entries, c + 1, k - size)
    ensures Shows(Decode((d + entries[c].name + rest)[..k]), entries, c, k)
  {
    var e := entries[c];
    DecodeRecord(e, c + 1, d, rest, k);
    if HEADER + |e.name| <= k { SeesCons(entries, c, Decode(rest[..k - HEADER - |e.name|])); }
  }

  /** A page cut anywhere decodes to exactly the whole records in it. */
  lemma {:induction false} DecodePrefix(entries: seq<DirEntry>, c: nat, header: HeaderOf, k: nat)
    requires c <= |entries| && Readable(header, entries)
    requires k <= |Records(entries, c, header)|
    ensures Shows(Decode(Records(entries, c, header)[..k]), entries, c, k)
    decreases |entries| - c
  {
    if c < |entries| {
      var size, d := HEADER + |entries[c].name|, header(entries[c], c + 1);
      assert ReadableAt(d, entries[c], c + 1);
      if size <= k { DecodePrefix(entries, c + 1, header, k - size); }
      ShowsFirst(entries, c, d, Records(entries, c + 1, header), k);
    }
  }

  /** The first record of a page decodes to its entry if the page holds all of it, and to nothing if not. */
  lemma DecodeRecord(e: DirEntry, next: nat, d: Bytes, rest: Bytes, k: nat)
    requires ReadableAt(d, e, next) && k <= |d + e.name + rest|
    ensures var size, page := HEADER + |e.name|, (d + e.name + rest)[..k];
            Decode(page) == if k < size then [] else [SeenOf(e, next)] + Decode(rest[..k - size])
  {
    PrefixOfRecords(d, e.name, rest, k);
    if k < HEADER + |e.name| {
      DecodeNone(d, e.name, (d + e.name + rest)[..k]);
    } else {
      DecodeFirst(d, e.name, rest[..k - HEADER - |e.name|], SeenOf(e, next));
    }
  }

  lemma PrefixOfRecords(d: Bytes, name: Bytes, rest: Bytes, k: nat)
    requires k <= |d| + |name| + |rest|
    ensures k < |d| + |name| ==> (d + name + rest)[..k] <= d + name
    ensures k >= |d| + |name| ==> (d + name + rest)[..k] == d + name + rest[..k - |d| - |name|]
  {
  }

  lemma SeesCons(entries: seq<DirEntry>, c: nat, page: seq<Seen>)
    requires c < |entries| && Sees(page, entries, c + 1)
    ensures Sees([SeenOf(entries[c], c + 1)] + page, entries, c)
  {
  }

  lemma {:induction false} RecordsLength(entries: seq<DirEntry>, c: nat, header: HeaderOf, k: nat)
    requires HeaderSized(header) && c <= |entries|
    ensures k >= |Records(entries, c, header)| ==> c + Whole(entries, c, k) == |entries|
    ensures c < |entries| && HEADER + |entries[c].name| <= k ==> Whole(entries, c, k) >= 1
    decreases |entries| - c
  {
    if c < |entries| && HEADER + |entries[c].name| <= k {
      RecordsLength(entries, c + 1, header, k - HEADER - |entries[c].name|);
    }
  }

  lemma DirentsSized(pad: nat -> Padding)
    ensures HeaderSized(Dirents(pad))
  {
    forall e: DirEntry, next: nat ensures |Dirents(pad)(e, next)| == HEADER {
      assert Dirents(pad)(e, next) == Dirent(e, next, pad(next));
    }
  }

  /** The page and the cell for the used length lie in the caller's memory and do not overlap. */
  ghost predicate BufferFits(length: nat, buf: nat, bufLen: nat, bufused: nat) {
    && buf + bufLen <= length && bufused + 4 <= length
    && (buf + bufLen <= bufused || bufused + 4 <= buf)
  }

  /** The buffer holds every record. */
  ghost predicate RecordsFit(entries: seq<DirEntry>, bufLen: nat) {
    && 0 < bufLen && |entries| < U64_BOUND
    && (forall e :: e in entries ==> HEADER + |e.name| <= bufLen && bufLen + HEADER + |e.name| < U32_BOUND)
  }

  /** A caller that resumes from the last complete record and stops when a page comes back short sees
      every entry of the directory once, in order, if its buffer holds the largest record. Each call
      lists the directory anew, in whatever order, and finds its own padding. */
  method ListDirectory(memory: array<u8>, listing: nat -> seq<DirEntry>, buf: nat, bufLen: nat, bufused: nat,
                       pad: nat -> nat -> Padding) returns (seen: seq<Seen>)
    requires BufferFits(memory.Length, buf, bufLen, bufused)
    requires forall call: nat :: multiset(listing(call)) == multiset(listing(0))
    requires NamesTell(listing(0)) && RecordsFit(listing(0) + [Dot, DotDot], bufLen)
    modifies memory
    ensures |seen| == |listing(0)| + 2 && Sees(seen, Listed(listing(0)), 0)
  {
    seen := [];
    var cookie, call := 0, 0;
    ghost var entries := Listed(listing(0));
    StableSortPermutes(listing(0) + [Dot, DotDot]);
    while true
      invariant 0 <= cookie <= |entries| && 0 <= call
      invariant |seen| == cookie && Sees(seen, entries, 0)
      decreases |entries| - cookie
    {
      SameCall(listing(0), listing(call), bufLen);
      var used, page := ReadPage(memory, listing(call), buf, bufLen, cookie, bufused, pad(call));
      SeesAppend(seen, page, entries, cookie);
      seen := seen + page;
      if |page| > 0 {
        cookie := page[|page| - 1].next;
      }
      if used < bufLen {
        break;
      }
      call := call + 1;
    }
  }

  lemma SameCall(s: seq<DirEntry>, t: seq<DirEntry>, bufLen: nat)
    requires multiset(s) == multiset(t) && NamesTell(s) && RecordsFit(s + [Dot, DotDot], bufLen)
    ensures Listed(s) == Listed(t) && RecordsFit(t + [Dot, DotDot], bufLen)
  {
    SameEntriesEachCall(s, t);
    SameMembers(s, t);
  }

  lemma SeesAppend(seen: seq<Seen>, page: seq<Seen>, entries: seq<DirEntry>, c: nat)
    requires |seen| == c && Sees(seen, entries, 0) && Sees(page, entries, c)
    ensures Sees(seen + page, entries, 0) && (page != [] ==> page[|page| - 1].next == c + |page|)
  {
  }

  lemma SameMembers(s: seq<DirEntry>, t: seq<DirEntry>)
    requires multiset(s) == multiset(t)
    ensures |s| == |t| && forall e :: e in t ==> e in s
  {
    assert |multiset(s)| == |s| && |multiset(t)| == |t|;
    forall e | e in t ensures e in s {
      assert e in multiset(t);
    }
  }

  /** One call, and the bytes the caller finds. */
  method ReadBytes(memory: array<u8>, listing: seq<DirEntry>, buf: nat, bufLen: nat, cookie: nat, bufused: nat,
                   header: HeaderOf) returns (used: nat, bytes: Bytes)
    requires BufferFits(memory.Length, buf, bufLen, bufused) && bufLen < U32_BOUND && HeaderSized(header)
    requires forall e :: e in listing + [Dot, DotDot] ==> bufLen + HEADER + |e.name| < U32_BOUND
    modifies memory
    ensures var all := Records(Listed(listing), cookie, header);
            used == Min(bufLen, |all|) && bytes == all[..used]
  {
    ghost var start, all := memory[..], Records(Listed(listing), cookie, header);
    ghost var n := Min(bufLen, |all|);
    var _ := FdReaddir(memory, listing, buf, bufLen, cookie, bufused, header);
    PageReads(start, buf, bufused, all[..n], LittleEndian(n, 4));
    UsedLength(bufLen, n);
    used := FromLittleEndian(memory[bufused..bufused + 4]);
    bytes := memory[buf..buf + used];
  }

  /** One call and what the caller makes of it: at least one whole record if any entry is left, and all
      of them if the page is short. */
  method ReadPage(memory: array<u8>, listing: seq<DirEntry>, buf: nat, bufLen: nat, cookie: nat, bufused: nat,
                  pad: nat -> Padding) returns (used: nat, page: seq<Seen>)
    requires BufferFits(memory.Length, buf, bufLen, bufused) && RecordsFit(listing + [Dot, DotDot], bufLen)
    requires cookie <= |Listed(listing)|
    modifies memory
    ensures used <= bufLen && Sees(page, Listed(listing), cookie)
    ensures used < bufLen ==> cookie + |page| == |Listed(listing)|
    ensures used == bufLen ==> |page| > 0
  {
    ListedFits(listing, bufLen);
    DirentsReadable(pad, Listed(listing));
    assert Dot in listing + [Dot, DotDot];
    var bytes;
    used, bytes := ReadBytes(memory, listing, buf, bufLen, cookie, bufused, Dirents(pad));
    page := Decode(bytes);
    PageSeen(Listed(listing), cookie, Dirents(pad), bufLen, used, page);
  }

  lemma ListedFits(listing: seq<DirEntry>, bufLen: nat)
    requires RecordsFit(listing + [Dot, DotDot], bufLen)
    ensures RecordsFit(Listed(listing), bufLen)
  {
    StableSortPermutes(listing + [Dot, DotDot]);
    SameMembers(listing + [Dot, DotDot], Listed(listing));
  }

  /** A caller whose cell lies beside the page finds both. */
  lemma PageReads(start: Bytes, buf: nat, bufused: nat, page: Bytes, cell: Bytes)
    requires |cell| == 4 && BufferFits(|start|, buf, |page|, bufused)
    ensures var memory := Splice(Splice(start, buf, page), bufused, cell);
            memory[buf..buf + |page|] == page && memory[bufused..bufused + 4] == cell
  {
    var paged := Splice(start, buf, page);
    SpliceReads(start, buf, page, buf, |page|);
    SpliceReads(paged, bufused, cell, buf, |page|);
  }

  lemma UsedLength(bufLen: nat, used: nat)
    requires used <= bufLen < U32_BOUND
    ensures FromLittleEndian(LittleEndian(used, 4)) == used
  {
    Powers();
    LittleEndianRoundTrip(used, 4);
  }

  lemma PageSeen(entries: seq<DirEntry>, cookie: nat, header: HeaderOf, bufLen: nat, used: nat, page: seq<Seen>)
    requires cookie <= |entries| && Readable(header, entries) && HeaderSized(header)
    requires used == Min(bufLen, |Records(entries, cookie, header)|)
    requires forall e :: e in entries ==> HEADER + |e.name| <= bufLen
    requires page == Decode(Records(entries, cookie, header)[..used])
    ensures Sees(page, entries, cookie)
    ensures used < bufLen ==> cookie + |page| == |entries|
    ensures used == bufLen > 0 ==> |page| > 0
  {
    DecodePrefix(entries, cookie, header, used);
    RecordsLength(entries, cookie, header, used);
  }
}
