/** `open`, `close`, `connect`, `bind` and `accept` of common_service/fdtab/src/apis.rs as several
    separately locked steps, interleaved among any number of threads. A handle that has left one table
    and not yet reached the other is in flight in its thread. */
module FdProtocol {
  import opened Seqs
  import opened FdTable

  /** Between two locked steps a thread holds the file it will insert, or the handle it will release. */
  datatype Thread = Idle | Inserting(file: File) | Closing(src: DataSource)

  /** `fat` is the FAT file list; `sockets` are the open handles of the socket set and `issued` all it
      ever gave out, closed sockets staying in the set. */
  datatype State = State(fds: Slots, fat: seq<Option<nat>>, sockets: set<nat>, issued: set<nat>, threads: seq<Thread>)

  datatype Step =
    | OpenBackend(t: nat, address: nat, mode: OpenMode)
    | SocketBackend(t: nat, socket: nat, mode: OpenMode)
    | AcceptExchange(t: nat, fd: nat, socket: nat)
    | Insert(t: nat)
    | CloseRemove(t: nat, fd: nat)
    | CloseBackend(t: nat)
    | Access(t: nat, fd: nat)

  function Init(threads: nat): State {
    State([], [], {}, {}, seq(threads, _ => Idle))
  }

  ghost predicate LiveAddress(s: State, address: nat) {
    exists h :: 0 <= h < |s.fat| && s.fat[h] == Some(address)
  }

  /** Backends give out what is not in use: the heap a fresh block, the socket set a fresh handle. A
      failing backend, a bad descriptor or a missing permission changes nothing and is no step. */
  ghost predicate Enabled(s: State, step: Step) {
    step.t < |s.threads| &&
    var thread := s.threads[step.t];
    match step
    case OpenBackend(_, address, _) => thread.Idle? && !LiveAddress(s, address)
    case SocketBackend(_, socket, _) => thread.Idle? && socket !in s.issued
    case AcceptExchange(_, fd, socket) =>
      thread.Idle? && socket !in s.issued && Lookup(s.fds, fd).Some? && Lookup(s.fds, fd).value.src.Net?
    case Insert(_) => thread.Inserting?
    case CloseRemove(_, fd) => thread.Idle? && Lookup(s.fds, fd).Some?
    case CloseBackend(_) => thread.Closing?
    case Access(_, fd) => thread.Idle? && Lookup(s.fds, fd).Some?
  }

  function ReadWrite(): OpenMode {
    OpenMode(true, true)
  }

  ghost function Apply(s: State, step: Step): State
    requires Enabled(s, step)
  {
    var thread := s.threads[step.t];
    match step
    case OpenBackend(t, address, mode) =>
      s.(fat := s.fat + [Some(address)], threads := s.threads[t := Inserting(File(mode, FatFS(|s.fat|)))])
    case SocketBackend(t, socket, mode) =>
      s.(sockets := s.sockets + {socket}, issued := s.issued + {socket},
         threads := s.threads[t := Inserting(File(mode, Net(socket)))])
    case AcceptExchange(t, fd, socket) =>
      var listener := s.fds[fd - FIRST_FD].value;
      s.(fds := s.fds[fd - FIRST_FD := Some(listener.(src := Net(socket)))],
         sockets := s.sockets + {socket}, issued := s.issued + {socket},
         threads := s.threads[t := Inserting(File(ReadWrite(), listener.src))])
    case Insert(t) => s.(fds := Inserted(s.fds, thread.file), threads := s.threads[t := Idle])
    case CloseRemove(t, fd) =>
      s.(fds := Removed(s.fds, fd), threads := s.threads[t := Closing(Lookup(s.fds, fd).value.src)])
    case CloseBackend(t) =>
      (match thread.src
       case FatFS(h) => s.(fat := if h < |s.fat| then s.fat[h := None] else s.fat)
       case Net(k) => s.(sockets := s.sockets - {k})).(threads := s.threads[t := Idle])
    case Access(_, _) => s
  }

  ghost predicate IsRun(s: State, steps: seq<Step>, r: State)
    decreases |steps|
  {
    if steps == [] then s == r
    else
      var n := |steps| - 1;
      exists m :: IsRun(s, steps[..n], m) && Enabled(m, steps[n]) && r == Apply(m, steps[n])
  }

  // ----- Who holds a handle -----

  ghost predicate Live(s: State, src: DataSource) {
    match src
    case FatFS(h) => h < |s.fat| && s.fat[h].Some?
    case Net(k) => k in s.sockets
  }

  ghost predicate SlotHolds(s: State, i: int, src: DataSource) {
    0 <= i < |s.fds| && s.fds[i].Some? && s.fds[i].value.src == src
  }

  ghost predicate ThreadHolds(s: State, t: int, src: DataSource) {
    0 <= t < |s.threads| &&
    match s.threads[t]
    case Idle => false
    case Inserting(file) => file.src == src
    case Closing(c) => c == src
  }

  ghost predicate Held(s: State, src: DataSource) {
    (exists i :: SlotHolds(s, i, src)) || (exists t :: ThreadHolds(s, t, src))
  }

  /** Every handle, FAT or socket, has at most one holder, and the live ones are exactly the held ones. */
  ghost predicate Conserved(s: State) {
    && (forall src :: Live(s, src) <==> Held(s, src))
    && (forall i, j, src :: SlotHolds(s, i, src) && SlotHolds(s, j, src) ==> i == j)
    && (forall t, u, src :: ThreadHolds(s, t, src) && ThreadHolds(s, u, src) ==> t == u)
    && (forall i, t, src :: !(SlotHolds(s, i, src) && ThreadHolds(s, t, src)))
  }

  ghost predicate Inv(s: State) {
    && Conserved(s)
    && s.sockets <= s.issued
    && (forall g, h :: 0 <= g < h < |s.fat| && s.fat[g].Some? ==> s.fat[g] != s.fat[h])
  }

  lemma InvInit(threads: nat)
    ensures Inv(Init(threads))
  {
    var s := Init(threads);
    forall src ensures !Held(s, src) && !Live(s, src) {
    }
  }

  /** Held handles after a step, when each holder's handle is described by what it held before. */
  lemma HeldMoves(s: State, r: State, lost: set<DataSource>, gained: set<DataSource>)
    requires forall x :: x !in lost && Held(s, x) ==> Held(r, x)
    requires forall x :: x in gained ==> Held(r, x)
    requires forall x :: Held(r, x) ==> x in gained || (x !in lost && Held(s, x))
    requires forall x :: Live(r, x) <==> (Live(s, x) && x !in lost) || x in gained
    requires forall x :: Live(s, x) <==> Held(s, x)
    ensures forall x :: Live(r, x) <==> Held(r, x)
  {
  }

  /** A thread takes hold of a handle that nobody held and that has just become live. */
  lemma Acquire(s: State, t: nat, file: File, r: State)
    requires Conserved(s) && t < |s.threads| && s.threads[t].Idle? && !Held(s, file.src)
    requires r.threads == s.threads[t := Inserting(file)] && r.fds == s.fds
    requires forall x :: Live(r, x) <==> Live(s, x) || x == file.src
    ensures Conserved(r)
  {
    forall i, x ensures SlotHolds(r, i, x) == SlotHolds(s, i, x) {
    }
    forall u, x ensures ThreadHolds(r, u, x) <==> (u == t && x == file.src) || ThreadHolds(s, u, x) {
    }
    assert ThreadHolds(r, t, file.src);
    forall x | Held(s, x) ensures Held(r, x) {
      if i :| SlotHolds(s, i, x) { assert SlotHolds(r, i, x); }
      if u :| ThreadHolds(s, u, x) { assert ThreadHolds(r, u, x); }
    }
    HeldMoves(s, r, {}, {file.src});
  }

  lemma OpenKeeps(s: State, t: nat, address: nat, mode: OpenMode)
    requires Inv(s) && Enabled(s, OpenBackend(t, address, mode))
    ensures Inv(Apply(s, OpenBackend(t, address, mode)))
  {
    var r := Apply(s, OpenBackend(t, address, mode));
    var src := FatFS(|s.fat|);
    assert !Live(s, src);
    forall x ensures Live(r, x) <==> Live(s, x) || x == src {
    }
    Acquire(s, t, File(mode, src), r);
  }

  lemma SocketKeeps(s: State, t: nat, socket: nat, mode: OpenMode)
    requires Inv(s) && Enabled(s, SocketBackend(t, socket, mode))
    ensures Inv(Apply(s, SocketBackend(t, socket, mode)))
  {
    var r := Apply(s, SocketBackend(t, socket, mode));
    assert !Live(s, Net(socket));
    forall x ensures Live(r, x) <==> Live(s, x) || x == Net(socket) {
    }
    Acquire(s, t, File(mode, Net(socket)), r);
  }

  /** The listener's slot gets the fresh handle and the thread its old one. */
  lemma AcceptKeeps(s: State, t: nat, fd: nat, socket: nat)
    requires Inv(s) && Enabled(s, AcceptExchange(t, fd, socket))
    ensures Inv(Apply(s, AcceptExchange(t, fd, socket)))
  {
    var r := Apply(s, AcceptExchange(t, fd, socket));
    var i, old', new' := fd - FIRST_FD, s.fds[fd - FIRST_FD].value.src, Net(socket);
    assert SlotHolds(s, i, old');
    assert !Live(s, new') && Live(s, old');
    forall j, x ensures SlotHolds(r, j, x) <==> (j == i && x == new') || (j != i && SlotHolds(s, j, x)) {
    }
    forall u, x ensures ThreadHolds(r, u, x) <==> (u == t && x == old') || ThreadHolds(s, u, x) {
    }
    forall x | Held(s, x) ensures Held(r, x) {
      if j :| SlotHolds(s, j, x) {
        if j != i { assert SlotHolds(r, j, x); } else { assert ThreadHolds(r, t, x); }
      }
      if u :| ThreadHolds(s, u, x) { assert ThreadHolds(r, u, x); }
    }
    assert SlotHolds(r, i, new');
    HeldMoves(s, r, {}, {new'});
  }

  lemma InsertKeeps(s: State, t: nat)
    requires Inv(s) && Enabled(s, Insert(t))
    ensures Inv(Apply(s, Insert(t)))
  {
    var r := Apply(s, Insert(t));
    var k, src := FirstFree(s.fds), s.threads[t].file.src;
    assert ThreadHolds(s, t, src);
    forall i, x ensures SlotHolds(r, i, x) <==> (i == k && x == src) || SlotHolds(s, i, x) {
    }
    forall u, x ensures ThreadHolds(r, u, x) <==> u != t && ThreadHolds(s, u, x) {
    }
    forall x | Held(s, x) ensures Held(r, x) {
      if i :| SlotHolds(s, i, x) { assert SlotHolds(r, i, x); }
      if u :| ThreadHolds(s, u, x) {
        if u != t { assert ThreadHolds(r, u, x); } else { assert SlotHolds(r, k, x); }
      }
    }
    HeldMoves(s, r, {}, {});
  }

  lemma CloseRemoveKeeps(s: State, t: nat, fd: nat)
    requires Inv(s) && Enabled(s, CloseRemove(t, fd))
    ensures Inv(Apply(s, CloseRemove(t, fd)))
  {
    var r := Apply(s, CloseRemove(t, fd));
    var i, src := fd - FIRST_FD, Lookup(s.fds, fd).value.src;
    assert SlotHolds(s, i, src);
    forall j, x ensures SlotHolds(r, j, x) <==> j != i && SlotHolds(s, j, x) {
    }
    forall u, x ensures ThreadHolds(r, u, x) <==> (u == t && x == src) || ThreadHolds(s, u, x) {
    }
    forall x | Held(s, x) ensures Held(r, x) {
      if j :| SlotHolds(s, j, x) {
        if j != i { assert SlotHolds(r, j, x); } else { assert ThreadHolds(r, t, x); }
      }
      if u :| ThreadHolds(s, u, x) { assert ThreadHolds(r, u, x); }
    }
    HeldMoves(s, r, {}, {});
  }

  lemma CloseBackendKeeps(s: State, t: nat)
    requires Inv(s) && Enabled(s, CloseBackend(t))
    ensures Inv(Apply(s, CloseBackend(t)))
  {
    var r := Apply(s, CloseBackend(t));
    var src := s.threads[t].src;
    assert ThreadHolds(s, t, src);
    assert Live(s, src);
    forall x ensures Live(r, x) <==> Live(s, x) && x != src {
    }
    forall i, x ensures SlotHolds(r, i, x) == SlotHolds(s, i, x) {
    }
    forall u, x ensures ThreadHolds(r, u, x) <==> u != t && ThreadHolds(s, u, x) {
    }
    forall x | x != src && Held(s, x) ensures Held(r, x) {
      if i :| SlotHolds(s, i, x) { assert SlotHolds(r, i, x); }
      if u :| ThreadHolds(s, u, x) { assert ThreadHolds(r, u, x); }
    }
    HeldMoves(s, r, {src}, {});
  }

  lemma StepKeeps(s: State, step: Step)
    requires Inv(s) && Enabled(s, step)
    ensures Inv(Apply(s, step))
  {
    match step
    case OpenBackend(t, address, mode) => OpenKeeps(s, t, address, mode);
    case SocketBackend(t, socket, mode) => SocketKeeps(s, t, socket, mode);
    case AcceptExchange(t, fd, socket) => AcceptKeeps(s, t, fd, socket);
    case Insert(t) => InsertKeeps(s, t);
    case CloseRemove(t, fd) => CloseRemoveKeeps(s, t, fd);
    case CloseBackend(t) => CloseBackendKeeps(s, t);
    case Access(_, _) =>
  }

  // ----- Results -----

  /** In every interleaving the live handles are exactly those in the table plus those in flight, each
      in one place only. */
  lemma {:induction false} HandlesConserved(threads: nat, steps: seq<Step>, s: State)
    requires IsRun(Init(threads), steps, s)
    ensures Inv(s)
    decreases |steps|
  {
    if steps == [] {
      InvInit(threads);
    } else {
      var n := |steps| - 1;
      var m :| IsRun(Init(threads), steps[..n], m) && Enabled(m, steps[n]) && s == Apply(m, steps[n]);
      HandlesConserved(threads, steps[..n], m);
      StepKeeps(m, steps[n]);
    }
  }

  /** No read, write or seek through a descriptor reaches a released handle. */
  lemma AccessIsLive(threads: nat, steps: seq<Step>, s: State, t: nat, fd: nat)
    requires IsRun(Init(threads), steps, s) && Enabled(s, Access(t, fd))
    ensures Live(s, Lookup(s.fds, fd).value.src)
  {
    HandlesConserved(threads, steps, s);
    assert SlotHolds(s, fd - FIRST_FD, Lookup(s.fds, fd).value.src);
  }

  /** The second half of a close always finds its handle live, releases it, and leaves nobody with it:
      no handle is released twice. */
  lemma ReleasedOnce(threads: nat, steps: seq<Step>, s: State, t: nat)
    requires IsRun(Init(threads), steps, s) && Enabled(s, CloseBackend(t))
    ensures var src, r := s.threads[t].src, Apply(s, CloseBackend(t));
            Live(s, src) && !Live(r, src) && !Held(r, src)
  {
    HandlesConserved(threads, steps, s);
    assert ThreadHolds(s, t, s.threads[t].src);
    CloseBackendKeeps(s, t);
  }

  /** A FAT handle that was released never comes back to life. */
  lemma {:induction false} ReleasedForGood(s: State, steps: seq<Step>, r: State, h: nat)
    requires IsRun(s, steps, r) && h < |s.fat| && s.fat[h].None?
    ensures h < |r.fat| && r.fat[h].None?
    decreases |steps|
  {
    if steps != [] {
      var n := |steps| - 1;
      var m :| IsRun(s, steps[..n], m) && Enabled(m, steps[n]) && r == Apply(m, steps[n]);
      ReleasedForGood(s, steps[..n], m, h);
    }
  }

  /** A successful accept: the listener keeps its descriptor and mode with a fresh handle, and when the
      thread inserts, its old handle is found under a descriptor that was free, whatever the other
      threads did in between. */
  lemma {:induction false} AcceptMovesHandle(s: State, t: nat, fd: nat, socket: nat, between: seq<Step>, m: State)
    requires Enabled(s, AcceptExchange(t, fd, socket))
    requires IsRun(Apply(s, AcceptExchange(t, fd, socket)), between, m)
    requires forall k :: 0 <= k < |between| ==> between[k].t != t
    ensures var listener, r := Lookup(s.fds, fd).value, Apply(s, AcceptExchange(t, fd, socket));
            && Lookup(r.fds, fd) == Some(listener.(src := Net(socket)))
            && (forall f :: f != fd ==> Lookup(r.fds, f) == Lookup(s.fds, f))
            && Enabled(m, Insert(t))
            && Lookup(m.fds, FirstFree(m.fds) + FIRST_FD).None?
            && Lookup(Apply(m, Insert(t)).fds, FirstFree(m.fds) + FIRST_FD) == Some(File(ReadWrite(), listener.src))
  {
    var r := Apply(s, AcceptExchange(t, fd, socket));
    OthersLeaveAlone(r, between, m, t);
    InsertedAtSmallest(m.fds, m.threads[t].file, 0);
  }

  lemma {:induction false} OthersLeaveAlone(s: State, steps: seq<Step>, r: State, t: nat)
    requires IsRun(s, steps, r) && t < |s.threads| && forall k :: 0 <= k < |steps| ==> steps[k].t != t
    ensures |r.threads| == |s.threads| && r.threads[t] == s.threads[t]
    decreases |steps|
  {
    if steps != [] {
      var n := |steps| - 1;
      var m :| IsRun(s, steps[..n], m) && Enabled(m, steps[n]) && r == Apply(m, steps[n]);
      forall k | 0 <= k < n ensures steps[..n][k].t != t { assert steps[..n][k] == steps[k]; }
      OthersLeaveAlone(s, steps[..n], m, t);
    }
  }
}
