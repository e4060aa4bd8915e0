/** The two tables behind a descriptor: `FdTable` (common_service/fdtab/src/lib.rs), whose slots are
    reused lowest first, over `FatfsFileList` (common_service/fatfs/src/lib.rs), whose handles never
    are. */
module FdTable {
  import opened Seqs

  /** Where a descriptor leads: a handle of the FAT file list or of the socket set. */
  datatype DataSource = FatFS(handle: nat) | Net(socket: nat)

  datatype OpenMode = OpenMode(read: bool, write: bool)

  datatype File = File(mode: OpenMode, src: DataSource)

  type Slots = seq<Option<File>>

  const FIRST_FD: nat := 3

  /** The file a descriptor leads to; the numbers below 3 lead nowhere. */
  function Lookup(t: Slots, fd: nat): Option<File> {
    if FIRST_FD <= fd < FIRST_FD + |t| then t[fd - FIRST_FD] else None
  }

  /** The lowest slot that is free, or the end of the table. */
  function FirstFree(t: Slots): (k: nat)
    ensures k <= |t|
    ensures forall i :: 0 <= i < k ==> t[i].Some?
    ensures k < |t| ==> t[k].None?
  {
    if t == [] || t[0].None? then 0 else 1 + FirstFree(t[1..])
  }

  function Inserted(t: Slots, file: File): (r: Slots)
    ensures FirstFree(t) < |r| && |t| <= |r|
  {
    if FirstFree(t) < |t| then t[FirstFree(t) := Some(file)] else t + [Some(file)]
  }

  function Removed(t: Slots, fd: nat): (r: Slots)
    ensures |r| == |t|
  {
    if FIRST_FD <= fd < FIRST_FD + |t| then t[fd - FIRST_FD := None] else t
  }

  class Table {
    var inner: Slots

    constructor ()
      ensures inner == []
    {
      inner := [];
    }

    /** `add_file`: the first free slot is filled, or a slot is pushed. */
    method AddFile(file: File) returns (fd: nat)
      modifies this
      ensures inner == Inserted(old(inner), file)
      ensures fd == FirstFree(old(inner)) + FIRST_FD
    {
      var idx := 0;
      while idx < |inner|
        invariant 0 <= idx <= |inner| && inner == old(inner)
        invariant FirstFree(inner) == idx + FirstFree(inner[idx..])
      {
        if inner[idx].None? {
          inner := inner[idx := Some(file)];
          return idx + FIRST_FD;
        }
        assert inner[idx..][1..] == inner[idx + 1..];
        idx := idx + 1;
      }
      inner := inner + [Some(file)];
      fd := |inner| + 2;
    }

    /** `remove_file`: what was in the slot, if anything. */
    method RemoveFile(fd: nat) returns (r: Option<File>)
      requires fd >= FIRST_FD
      modifies this
      ensures r == Lookup(old(inner), fd)
      ensures inner == Removed(old(inner), fd)
    {
      if fd - FIRST_FD >= |inner| {
        return None;
      }
      r := inner[fd - FIRST_FD];
      inner := inner[fd - FIRST_FD := None];
    }

    /** `with_file_mut` as `accept` uses it: the listener's handle is exchanged in place, and the old
        one returned. A descriptor that is not a socket, or a backend that fails, changes nothing. */
    method ExchangeSocket(fd: nat, accepted: Option<nat>) returns (r: Option<nat>)
      requires fd >= FIRST_FD
      modifies this
      ensures forall f :: f != fd ==> Lookup(inner, f) == Lookup(old(inner), f)
      ensures r.None? ==> inner == old(inner)
      ensures r.Some? <==> accepted.Some? && Lookup(old(inner), fd).Some? && Lookup(old(inner), fd).value.src.Net?
      ensures r.Some? ==>
                && old(Lookup(inner, fd)).value.src == Net(r.value)
                && Lookup(inner, fd) == Some(old(Lookup(inner, fd)).value.(src := Net(accepted.value)))
    {
      if fd - FIRST_FD >= |inner| || inner[fd - FIRST_FD].None? {
        return None;
      }
      var file := inner[fd - FIRST_FD].value;
      if file.src.Net? && accepted.Some? {
        r := Some(file.src.socket);
        inner := inner[fd - FIRST_FD := Some(file.(src := Net(accepted.value)))];
      } else {
        r := None;
      }
    }
  }

  /** A new descriptor is the smallest number from 3 on that was not open; it leads to the new file and
      every other descriptor leads where it did. */
  lemma InsertedAtSmallest(t: Slots, file: File, f: nat)
    ensures var fd := FirstFree(t) + FIRST_FD;
            && Lookup(t, fd).None? && Lookup(Inserted(t, file), fd) == Some(file)
            && (FIRST_FD <= f < fd ==> Lookup(t, f).Some?)
            && (f != fd ==> Lookup(Inserted(t, file), f) == Lookup(t, f))
  {
  }

  lemma RemovedFrees(t: Slots, fd: nat, f: nat)
    ensures Lookup(Removed(t, fd), fd).None?
    ensures f != fd ==> Lookup(Removed(t, fd), f) == Lookup(t, f)
  {
  }

  /** Closing what was just opened gives every descriptor back. */
  lemma OpenThenClose(t: Slots, file: File, f: nat)
    ensures Lookup(Removed(Inserted(t, file), FirstFree(t) + FIRST_FD), f) == Lookup(t, f)
  {
    InsertedAtSmallest(t, file, f);
    RemovedFrees(Inserted(t, file), FirstFree(t) + FIRST_FD, f);
  }

  /** The list of open FAT files: a handle is an index, and its entry the address of the file. */
  class FatfsFileList {
    var table: seq<Option<nat>>

    constructor ()
      ensures table == []
    {
      table := [];
    }

    method AddFile(address: nat) returns (handle: nat)
      modifies this
      ensures table == old(table) + [Some(address)] && handle == |old(table)|
    {
      table := table + [Some(address)];
      handle := |table| - 1;
    }

    /** The address to free, or `None` for a handle that was never issued or is already released. */
    method RemoveFile(handle: nat) returns (freed: Option<nat>)
      modifies this
      ensures freed == if handle < |old(table)| then old(table)[handle] else None
      ensures table == if handle < |old(table)| then old(table)[handle := None] else old(table)
    {
      if handle < |table| {
        freed := table[handle];
        table := table[handle := None];
      } else {
        freed := None;
      }
    }
  }
}
