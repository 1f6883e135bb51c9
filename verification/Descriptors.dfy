/** The guest descriptor table: shared open file descriptions, closed with their last descriptor. */
module Descriptors {
  import opened Common
  import opened Streams

  /** A descriptor names one of these; equality is identity, as for the source's `is`. */
  datatype FileIO = Stdio(number: int) | Pipe(io: PipeIO) | Socket(socket: SocketIO)

  datatype FileDescriptor = FileDescriptor(handle: FileIO, cloexec: bool)

  type Table = map<int, FileDescriptor>

  datatype Command = DupFd | DupFdCloexec | GetFd | SetFd | OtherCommand | UnknownCommand

  datatype Listener = NoListener | KnownSocket | WithHandler

  datatype Answer = Value(n: int) | Pair(first: int, second: int) | Failed(errno: Errno) | Unsupported | FromHandle

  /** Some descriptor names this file. */
  ghost predicate Names(fds: Table, x: FileIO) {
    exists fd :: fd in fds && fds[fd].handle == x
  }

  lemma NamesAfterInstall(fds: Table, fd: int, d: FileDescriptor, y: FileIO)
    requires fd !in fds
    ensures Names(fds[fd := d], y) <==> y == d.handle || Names(fds, y)
  {
    var after := fds[fd := d];
    assert after[fd].handle == d.handle;
    if Names(fds, y) {
      var k :| k in fds && fds[k].handle == y;
      assert after[k].handle == y;
    }
  }

  lemma NamesAfterRemoval(fds: Table, fd: int, y: FileIO)
    requires fd in fds
    ensures y != fds[fd].handle ==> (Names(fds - {fd}, y) <==> Names(fds, y))
    ensures Names(fds, fds[fd].handle)
  {
    var after := fds - {fd};
    if y != fds[fd].handle && Names(fds, y) {
      var k :| k in fds && fds[k].handle == y;
      assert k in after && after[k].handle == y;
    }
  }

  ghost predicate Known(fds: Table, pipes: set<PipeIO>, sockets: set<SocketIO>) {
    forall fd :: fd in fds ==> IsKnown(fds[fd].handle, pipes, sockets)
  }

  ghost predicate IsKnown(x: FileIO, pipes: set<PipeIO>, sockets: set<SocketIO>) {
    (x.Pipe? ==> x.io in pipes) && (x.Socket? ==> x.socket in sockets)
  }

  /** Every file but the pending ones is open exactly while some descriptor names it. */
  ghost predicate Tracked(fds: Table, pipes: set<PipeIO>, sockets: set<SocketIO>, pending: set<FileIO>)
    reads pipes, sockets
  {
    && (forall h :: h in pipes ==> (h.closed <==> !Names(fds, Pipe(h)) && Pipe(h) !in pending))
    && (forall s :: s in sockets ==> (s.closed <==> !Names(fds, Socket(s)) && Socket(s) !in pending))
  }

  /** Every pipe knows exactly its open ends, and counts them. */
  ghost predicate Counted(pipes: set<PipeIO>, states: set<PipeState>)
    reads pipes, states
  {
    && (forall h :: h in pipes ==> h.state in states && (h in h.state.OpenEnds(h.readable) <==> !h.closed))
    && (forall p :: p in states ==> p.Consistent() && OwnsEnds(p, pipes))
  }

  ghost predicate OwnsEnds(p: PipeState, pipes: set<PipeIO>)
    reads p
  {
    && (forall h :: h in p.openReaders ==> h in pipes && h.state == p && h.readable)
    && (forall h :: h in p.openWriters ==> h in pipes && h.state == p && !h.readable)
  }

  ghost predicate Paired(sockets: set<SocketIO>)
    reads sockets
  {
    forall s :: s in sockets ==> (s.peer != null ==> s.peer in sockets) && s.Linked() && s.Fifo()
  }

  lemma TrackedInstall(fds: Table, fd: int, d: FileDescriptor, pipes: set<PipeIO>, sockets: set<SocketIO>,
                       pending: set<FileIO>)
    requires Tracked(fds, pipes, sockets, pending) && fd !in fds && d.handle in pending
    ensures Tracked(fds[fd := d], pipes, sockets, pending - {d.handle})
  {
    hide Names;
    var after := fds[fd := d];
    forall h | h in pipes ensures h.closed <==> !Names(after, Pipe(h)) && Pipe(h) !in pending - {d.handle} {
      NamesAfterInstall(fds, fd, d, Pipe(h));
    }
    forall s | s in sockets ensures s.closed <==> !Names(after, Socket(s)) && Socket(s) !in pending - {d.handle} {
      NamesAfterInstall(fds, fd, d, Socket(s));
    }
  }

  /** Dropping a descriptor leaves its file pending, unless another descriptor names it. */
  lemma TrackedRemoval(fds: Table, fd: int, pipes: set<PipeIO>, sockets: set<SocketIO>, pending: set<FileIO>)
    requires Tracked(fds, pipes, sockets, {}) && fd in fds
    requires pending == if Names(fds - {fd}, fds[fd].handle) then {} else {fds[fd].handle}
    ensures Tracked(fds - {fd}, pipes, sockets, pending)
  {
    hide Names;
    var after := fds - {fd};
    forall h | h in pipes ensures h.closed <==> !Names(after, Pipe(h)) && Pipe(h) !in pending {
      NamesAfterRemoval(fds, fd, Pipe(h));
    }
    forall s | s in sockets ensures s.closed <==> !Names(after, Socket(s)) && Socket(s) !in pending {
      NamesAfterRemoval(fds, fd, Socket(s));
    }
  }

  lemma TrackedNewEnd(fds: Table, pipes: set<PipeIO>, sockets: set<SocketIO>, h: PipeIO)
    requires Known(fds, pipes, sockets) && Tracked(fds, pipes, sockets, {}) && h !in pipes && !h.closed
    ensures Tracked(fds, pipes + {h}, sockets, {Pipe(h)})
  {
    NotNamed(fds, pipes, sockets, h);
  }

  lemma NotNamed(fds: Table, pipes: set<PipeIO>, sockets: set<SocketIO>, h: PipeIO)
    requires Known(fds, pipes, sockets) && h !in pipes
    ensures !Names(fds, Pipe(h))
  {
  }

  lemma SocketNotNamed(fds: Table, pipes: set<PipeIO>, sockets: set<SocketIO>, s: SocketIO)
    requires Known(fds, pipes, sockets) && s !in sockets
    ensures !Names(fds, Socket(s))
  {
  }

  /** Another descriptor for a file that already has one changes no file. */
  lemma TrackedShare(fds: Table, fd: int, newFd: int, cloexec: bool, pipes: set<PipeIO>, sockets: set<SocketIO>)
    requires Tracked(fds, pipes, sockets, {}) && fd in fds && newFd !in fds
    ensures Tracked(fds[newFd := FileDescriptor(fds[fd].handle, cloexec)], pipes, sockets, {})
  {
    hide Names;
    var d := FileDescriptor(fds[fd].handle, cloexec);
    var after := fds[newFd := d];
    NamesAfterRemoval(fds, fd, d.handle);
    forall h | h in pipes ensures h.closed <==> !Names(after, Pipe(h)) {
      NamesAfterInstall(fds, newFd, d, Pipe(h));
    }
    forall s | s in sockets ensures s.closed <==> !Names(after, Socket(s)) {
      NamesAfterInstall(fds, newFd, d, Socket(s));
    }
  }

  lemma TrackedFlag(fds: Table, fd: int, cloexec: bool, pipes: set<PipeIO>, sockets: set<SocketIO>)
    requires Tracked(fds, pipes, sockets, {}) && fd in fds
    ensures Tracked(fds[fd := FileDescriptor(fds[fd].handle, cloexec)], pipes, sockets, {})
  {
    hide Names;
    var after := fds[fd := FileDescriptor(fds[fd].handle, cloexec)];
    forall h | h in pipes ensures h.closed <==> !Names(after, Pipe(h)) { NamesAfterFlag(fds, fd, cloexec, Pipe(h)); }
    forall s | s in sockets ensures s.closed <==> !Names(after, Socket(s)) {
      NamesAfterFlag(fds, fd, cloexec, Socket(s));
    }
  }

  lemma NamesAfterFlag(fds: Table, fd: int, cloexec: bool, y: FileIO)
    requires fd in fds
    ensures Names(fds[fd := FileDescriptor(fds[fd].handle, cloexec)], y) <==> Names(fds, y)
  {
    var after := fds[fd := FileDescriptor(fds[fd].handle, cloexec)];
    if Names(fds, y) {
      var k :| k in fds && fds[k].handle == y;
      assert k in after && after[k].handle == y;
    }
    if Names(after, y) {
      var k :| k in after && after[k].handle == y;
      assert k in fds && fds[k].handle == y;
    }
  }

  ghost function InstalledEnds(fds: Table, pipes: set<PipeIO>, p: PipeState, readEnd: bool): set<PipeIO> {
    set h | h in pipes && h.state == p && h.readable == readEnd && Names(fds, Pipe(h))
  }

  /** A pipe's endpoint counts are the numbers of its read and write handles some descriptor still names. */
  lemma EndCounts(fds: Table, pipes: set<PipeIO>, states: set<PipeState>, sockets: set<SocketIO>, p: PipeState)
    requires Tracked(fds, pipes, sockets, {}) && Counted(pipes, states) && p in states
    ensures p.readers == |InstalledEnds(fds, pipes, p, true)| && p.writers == |InstalledEnds(fds, pipes, p, false)|
    ensures p.readers == 0 <==> InstalledEnds(fds, pipes, p, true) == {}
    ensures p.writers == 0 <==> InstalledEnds(fds, pipes, p, false) == {}
  {
    hide Names;
    assert InstalledEnds(fds, pipes, p, true) == p.openReaders;
    assert InstalledEnds(fds, pipes, p, false) == p.openWriters;
  }

  method MakeEnd(state: PipeState, readEnd: bool, ghost pipes: set<PipeIO>, ghost states: set<PipeState>)
    returns (h: PipeIO)
    requires Counted(pipes, states) && state in states
    modifies state`readers, state`writers, state`openReaders, state`openWriters
    ensures Counted(pipes + {h}, states)
    ensures fresh(h) && h.state == state && h.readable == readEnd && !h.closed
  {
    h := new PipeIO(state, readEnd);
    var all := pipes + {h};
    forall g | g in all ensures g.state in states && (g in g.state.OpenEnds(g.readable) <==> !g.closed) {
      if g != h {
        assert g in g.state.OpenEnds(g.readable) <==> g in old(g.state.OpenEnds(g.readable));
      }
    }
    forall p | p in states ensures p.Consistent() && OwnsEnds(p, all) {
      if p != state {
        assert old(OwnsEnds(p, pipes));
      }
    }
  }

  class AndroidFileSystem {
    var fds: Table
    ghost var pipes: set<PipeIO>
    ghost var states: set<PipeState>
    ghost var sockets: set<SocketIO>

    ghost predicate Inv(pending: set<FileIO>)
      reads this, pipes, states, sockets
    {
      && Known(fds, pipes, sockets)
      && Tracked(fds, pipes, sockets, pending)
      && Counted(pipes, states)
      && Paired(sockets)
    }

    ghost predicate Valid()
      reads this, pipes, states, sockets
    {
      Inv({})
    }

    constructor ()
      ensures Valid() && fds.Keys == {0, 1, 2} && pipes == {} && sockets == {}
    {
      fds := map fd | fd in {0, 1, 2} :: FileDescriptor(Stdio(fd), false);
      pipes, states, sockets := {}, {}, {};
    }

    /** The least descriptor number, from `from` up, that is not in use. */
    method LeastFree(from: int) returns (fd: int)
      ensures fd >= from && fd !in fds
      ensures forall i :: from <= i < fd ==> i in fds
    {
      fd := from;
      ghost var left := fds.Keys;
      while fd in fds
        invariant from <= fd && forall i :: from <= i < fd ==> i in fds
        invariant left <= fds.Keys && forall i :: i in fds && i >= fd ==> i in left
        decreases left
      {
        left := left - {fd};
        fd := fd + 1;
      }
    }

    ghost predicate IsLeastFree(was: Table, from: int, fd: int) {
      fd >= from && fd !in was && forall i :: from <= i < fd ==> i in was
    }

    /** A pending file becomes an ordinary one under the least free number from 3 up. */
    method Install(x: FileIO, cloexec: bool, ghost pending: set<FileIO>) returns (fd: int)
      requires Inv(pending) && x in pending
      requires IsKnown(x, pipes, sockets)
      modifies this`fds
      ensures Inv(pending - {x})
      ensures IsLeastFree(old(fds), 3, fd)
      ensures fds == old(fds)[fd := FileDescriptor(x, cloexec)]
    {
      hide Tracked, Counted, Paired;
      fd := LeastFree(3);
      TrackedInstall(fds, fd, FileDescriptor(x, cloexec), pipes, sockets, pending);
      fds := fds[fd := FileDescriptor(x, cloexec)];
    }

    method ClosePipe(io: PipeIO)
      requires Inv({Pipe(io)}) && !Names(fds, Pipe(io)) && io in pipes
      modifies pipes`closed, states`readers, states`writers, states`openReaders, states`openWriters
      ensures Valid()
    {
      hide Names, Paired, Known;
      io.Close();
      assert Tracked(fds, pipes, sockets, {}) by {
        hide Counted, OwnsEnds;
      }
      hide Tracked;
      assert OwnsEnds(io.state, pipes);
      assert forall p :: p in states && p != io.state ==> p.Consistent() && OwnsEnds(p, pipes);
      hide OwnsEnds;
    }

    method CloseSocket(s: SocketIO)
      requires Inv({Socket(s)}) && !Names(fds, Socket(s)) && s in sockets
      modifies sockets`closed, sockets`peer, sockets`peerClosed
      ensures Valid() && (old(s.peer) != null ==> old(s.peer).peerClosed)
    {
      hide Names, Counted;
      s.Close();
    }

    method CloseHandle(x: FileIO)
      requires Inv({x}) && !Names(fds, x) && IsKnown(x, pipes, sockets)
      modifies pipes`closed, states`readers, states`writers, states`openReaders, states`openWriters
      modifies sockets`closed, sockets`peer, sockets`peerClosed
      ensures Valid() && (x.Socket? && old(x.socket.peer) != null ==> old(x.socket.peer).peerClosed)
    {
      hide Names, Counted, Paired;
      match x {
        case Stdio(_) =>
        case Pipe(io) => ClosePipe(io);
        case Socket(s) => CloseSocket(s);
      }
    }

    /** The file goes with its last descriptor. */
    method Close(fd: int) returns (r: Answer)
      requires Valid()
      modifies this`fds, pipes`closed, states`readers, states`writers, states`openReaders, states`openWriters
      modifies sockets`closed, sockets`peer, sockets`peerClosed
      ensures Valid()
      ensures r == if fd in old(fds) then Value(0) else Failed(EBADF)
      ensures fds == old(fds) - {fd}
      // A socket that goes tells its peer.
      ensures fd in old(fds) && old(fds)[fd].handle.Socket? && !Names(fds, old(fds)[fd].handle) ==>
                var peer := old(fds[fd].handle.socket.peer); peer != null ==> peer.peerClosed
    {
      hide Tracked, Counted, Paired;
      if fd !in fds {
        return Failed(EBADF);
      }
      var x := fds[fd].handle;
      ghost var was := fds;
      fds := fds - {fd};
      if forall k :: k in fds ==> fds[k].handle != x {
        TrackedRemoval(was, fd, pipes, sockets, {x});
        CloseHandle(x);
      } else {
        TrackedRemoval(was, fd, pipes, sockets, {});
      }
      return Value(0);
    }

    /** One pipe end, created and waiting for its descriptor. */
    method NewEnd(state: PipeState, readEnd: bool) returns (h: PipeIO)
      requires Valid() && state in states
      modifies this`pipes, state`readers, state`writers, state`openReaders, state`openWriters
      ensures Inv({Pipe(h)})
      ensures fresh(h) && h.state == state && h.readable == readEnd && pipes == old(pipes) + {h}
    {
      hide Names, Tracked, Counted, Paired;
      h := MakeEnd(state, readEnd, pipes, states);
      TrackedNewEnd(fds, pipes, sockets, h);
      pipes := pipes + {h};
    }

    method NewState() returns (state: PipeState)
      requires Valid()
      modifies this`states
      ensures Valid() && fresh(state) && states == old(states) + {state} && state.buffer == []
    {
      hide Names;
      state := new PipeState();
      states := states + {state};
    }

    method OpenPipe(cloexec: bool) returns (first: int, second: int, ghost reader: PipeIO, ghost writer: PipeIO)
      requires Valid()
      modifies this
      ensures Valid()
      ensures fresh(reader) && fresh(writer) && reader.state == writer.state && reader.readable && !writer.readable
      ensures reader.state.buffer == []
      ensures IsLeastFree(old(fds), 3, first) && second != first
      ensures IsLeastFree(old(fds)[first := FileDescriptor(Pipe(reader), cloexec)], 3, second)
      ensures fds == old(fds)[first := FileDescriptor(Pipe(reader), cloexec)]
                             [second := FileDescriptor(Pipe(writer), cloexec)]
    {
      hide Tracked, Counted, Paired;
      var state := NewState();
      var r := NewEnd(state, true);
      first := Install(Pipe(r), cloexec, {Pipe(r)});
      assert Inv({}) by { assert {Pipe(r)} - {Pipe(r)} == {}; }
      var w := NewEnd(state, false);
      second := Install(Pipe(w), cloexec, {Pipe(w)});
      assert Inv({}) by { assert {Pipe(w)} - {Pipe(w)} == {}; }
      reader, writer := r, w;
    }

    method OpenSocket(domain: int, cloexec: bool) returns (r: Answer, ghost s: SocketIO?)
      requires Valid()
      modifies this
      ensures Valid()
      ensures if domain != 1 then r == Unsupported && fds == old(fds)
              else r.Value? && s != null && fresh(s) && s.peer == null && s.inbox == [] && IsLeastFree(old(fds), 3, r.n)
                   && fds == old(fds)[r.n := FileDescriptor(Socket(s), cloexec)]
    {
      hide Tracked, Counted, Paired;
      s := null;
      if domain != 1 {
        return Unsupported, null;
      }
      var handle := new SocketIO();
      RegisterSockets({handle}, {Socket(handle)});
      var fd := Install(Socket(handle), cloexec, {Socket(handle)});
      assert Inv({}) by { assert {Socket(handle)} - {Socket(handle)} == {}; }
      return Value(fd), handle;
    }

    /** Fresh, properly linked sockets join the bookkeeping, all waiting for their descriptors. */
    ghost method RegisterSockets(added: set<SocketIO>, waiting: set<FileIO>)
      requires Valid() && sockets !! added
      requires forall s :: s in added ==> Socket(s) in waiting
      requires forall x :: x in waiting ==> x.Socket? && x.socket in added
      requires forall s :: s in added ==> !s.closed && s.Fifo() && s.Linked() && (s.peer != null ==> s.peer in added)
      modifies this`sockets
      ensures sockets == old(sockets) + added
      ensures Inv(waiting)
    {
      hide Names, Counted;
      forall s | s in added ensures !Names(fds, Socket(s)) {
        SocketNotNamed(fds, pipes, sockets, s);
      }
      sockets := sockets + added;
    }

    method SocketPair(domain: int, cloexec: bool) returns (r: Answer, ghost left: SocketIO?, ghost right: SocketIO?)
      requires Valid()
      modifies this
      ensures Valid()
      ensures if domain != 1 then r == Unsupported && fds == old(fds)
              else r.Pair? && left != null && right != null && fresh(left) && fresh(right)
                   && left.peer == right && right.peer == left && left.inbox == [] && right.inbox == []
                   && IsLeastFree(old(fds), 3, r.first)
                   && IsLeastFree(old(fds)[r.first := FileDescriptor(Socket(left), cloexec)], 3, r.second)
                   && fds == old(fds)[r.first := FileDescriptor(Socket(left), cloexec)]
                                     [r.second := FileDescriptor(Socket(right), cloexec)]
    {
      hide Tracked, Counted, Paired;
      left, right := null, null;
      if domain != 1 {
        return Unsupported, null, null;
      }
      var l := new SocketIO();
      var k := new SocketIO();
      l.peer, k.peer := k, l;
      RegisterSockets({l, k}, {Socket(l), Socket(k)});
      var first := Install(Socket(l), cloexec, {Socket(l), Socket(k)});
      assert {Socket(l), Socket(k)} - {Socket(l)} == {Socket(k)};
      var second := Install(Socket(k), cloexec, {Socket(k)});
      assert {Socket(k)} - {Socket(k)} == {};
      return Pair(first, second), l, k;
    }

    ghost function SocketAt(fd: int): set<SocketIO>
      reads this
    {
      if fd in fds && fds[fd].handle.Socket? then {fds[fd].handle.socket} else {}
    }

    /** `listener` says whether the path has a handler or is at least a known system socket. */
    method Connect(fd: int, listener: Listener) returns (r: Answer)
      requires Valid()
      modifies SocketAt(fd)`handler
      ensures Valid()
      ensures r == if fd !in fds || !fds[fd].handle.Socket? then Failed(ENOTSOCK)
                   else if listener == NoListener then Failed(ECONNREFUSED) else Value(0)
      ensures r == Value(0) ==>
                var s := fds[fd].handle.socket;
                s.handler == (listener == WithHandler) && s.peer == old(s.peer)
    {
      if fd !in fds || !fds[fd].handle.Socket? {
        return Failed(ENOTSOCK);
      }
      if listener == NoListener {
        return Failed(ECONNREFUSED);
      }
      fds[fd].handle.socket.handler := listener == WithHandler;
      return Value(0);
    }

    /** The new descriptor shares the file; it is the least free number from `minFd` up, even a negative one. */
    method Dup(fd: int, minFd: int) returns (r: Answer)
      requires Valid()
      modifies this`fds
      ensures Valid()
      ensures if fd !in old(fds) then r == Failed(EBADF) && fds == old(fds)
              else r.Value? && IsLeastFree(old(fds), minFd, r.n)
                   && fds == old(fds)[r.n := FileDescriptor(old(fds)[fd].handle, false)]
    {
      hide Tracked, Counted, Paired;
      if fd !in fds {
        return Failed(EBADF);
      }
      var newFd := LeastFree(minFd);
      TrackedShare(fds, fd, newFd, false, pipes, sockets);
      fds := fds[newFd := FileDescriptor(fds[fd].handle, false)];
      return Value(newFd);
    }

    method DupTo(oldFd: int, newFd: int, cloexec: bool) returns (r: Answer)
      requires Valid()
      modifies this`fds, pipes`closed, states`readers, states`writers, states`openReaders, states`openWriters
      modifies sockets`closed, sockets`peer, sockets`peerClosed
      ensures Valid()
      ensures if oldFd !in old(fds) then r == Failed(EBADF) && fds == old(fds)
              else r == Value(newFd)
                   && fds == if oldFd == newFd then old(fds)
                             else old(fds)[newFd := FileDescriptor(old(fds)[oldFd].handle, cloexec)]
    {
      hide Tracked, Counted, Paired;
      if oldFd !in fds {
        return Failed(EBADF);
      }
      var descriptor := fds[oldFd];
      if oldFd == newFd {
        return Value(newFd);
      }
      var _ := Close(newFd);
      TrackedShare(fds, oldFd, newFd, cloexec, pipes, sockets);
      fds := fds[newFd := FileDescriptor(descriptor.handle, cloexec)];
      return Value(newFd);
    }

    method Fcntl(fd: int, command: Command, arg: int) returns (r: Answer)
      requires Valid()
      modifies this`fds
      ensures Valid()
      ensures fd !in old(fds) ==> r == Failed(EBADF) && fds == old(fds)
      ensures fd in old(fds) && command.UnknownCommand? ==> r == Failed(EINVAL) && fds == old(fds)
      ensures fd in old(fds) && (command.DupFd? || command.DupFdCloexec?) ==>
                && r.Value? && IsLeastFree(old(fds), arg, r.n)
                // A negative answer is taken for an error, so such a duplicate never gets its flag.
                && fds == old(fds)[r.n := FileDescriptor(old(fds)[fd].handle, command.DupFdCloexec? && r.n >= 0)]
                && (r.n < 0 <==> exists k :: arg <= k < 0 && k !in old(fds))
      ensures fd in old(fds) && command.GetFd? ==> r == Value(if old(fds)[fd].cloexec then 1 else 0) && fds == old(fds)
      ensures fd in old(fds) && command.SetFd? ==>
                r == Value(0) && fds == old(fds)[fd := FileDescriptor(old(fds)[fd].handle, arg % 2 == 1)]
      ensures fd in old(fds) && command.OtherCommand? ==> r == FromHandle && fds == old(fds)
    {
      hide Tracked, Counted, Paired;
      if fd !in fds {
        return Failed(EBADF);
      }
      if command == UnknownCommand {
        return Failed(EINVAL);
      }
      if command == DupFd || command == DupFdCloexec {
        r := Dup(fd, arg);
        if r.n >= 0 && command == DupFdCloexec {
          SetCloexec(r.n, true);
        }
        return;
      }
      if command == GetFd {
        return Value(if fds[fd].cloexec then 1 else 0);
      }
      if command == SetFd {
        SetCloexec(fd, arg % 2 == 1);
        return Value(0);
      }
      return FromHandle;
    }

    method SetCloexec(fd: int, cloexec: bool)
      requires Valid() && fd in fds
      modifies this`fds
      ensures Valid() && fds == old(fds)[fd := FileDescriptor(old(fds)[fd].handle, cloexec)]
    {
      hide Tracked, Counted, Paired;
      TrackedFlag(fds, fd, cloexec, pipes, sockets);
      fds := fds[fd := FileDescriptor(fds[fd].handle, cloexec)];
    }

    /** Closes every descriptor of the range, whatever the order, and counts them. */
    method CloseRange(first: int, last: int) returns (count: int)
      requires Valid()
      modifies this`fds, pipes`closed, states`readers, states`writers, states`openReaders, states`openWriters
      modifies sockets`closed, sockets`peer, sockets`peerClosed
      ensures Valid()
      ensures forall fd :: fd in fds <==> fd in old(fds) && !(first <= fd <= last)
      ensures forall fd :: fd in fds ==> fds[fd] == old(fds)[fd]
      ensures count == |set fd | fd in old(fds) && first <= fd <= last|
    {
      hide Tracked, Counted, Paired;
      ghost var was := fds;
      var targets := set fd | fd in fds && first <= fd <= last;
      count := |targets|;
      while targets != {}
        invariant Valid() && targets <= was.Keys
        invariant pipes == old(pipes) && states == old(states) && sockets == old(sockets)
        invariant forall fd :: fd in targets ==> first <= fd <= last
        invariant forall fd :: fd in fds <==> fd in was && (first <= fd <= last ==> fd in targets)
        invariant forall fd :: fd in fds ==> fds[fd] == was[fd]
        decreases targets
      {
        ghost var one := Pick(targets);
        var fd :| fd in targets;
        var _ := Close(fd);
        targets := targets - {fd};
      }
    }

    /** End of file on a pipe means exactly that nothing is buffered and no write end has a descriptor left. */
    method Read(fd: int, count: int) returns (r: IoResult)
      requires Valid() && fd in fds && fds[fd].handle.Pipe? && fds[fd].handle.io.readable
      modifies fds[fd].handle.io.state`buffer, fds[fd].handle.io.state`taken
      ensures Valid() && fds == old(fds)
      ensures var p := fds[fd].handle.io.state;
        && p.taken == old(p.taken) + (if r.Data? then r.bytes else [])
        && r == (if count < 0 then Error(EINVAL)
                 else if count == 0 then Data([])
                 else if old(p.buffer) != [] then Data(Prefix(old(p.buffer), Min(count, MAX_RW)))
                 else if InstalledEnds(fds, pipes, p, false) == {} then Data([])
                 else Error(EAGAIN))
    {
      hide Names, InstalledEnds;
      var io := fds[fd].handle.io;
      NamesAfterRemoval(fds, fd, Pipe(io));
      EndCounts(fds, pipes, states, sockets, io.state);
      r := io.Read(count);
    }

    /** A write is refused as broken exactly when no read end has a descriptor left. */
    method Write(fd: int, data: seq<Byte>) returns (r: IoResult)
      requires Valid() && fd in fds && fds[fd].handle.Pipe? && !fds[fd].handle.io.readable
      modifies fds[fd].handle.io.state`buffer, fds[fd].handle.io.state`sent
      ensures Valid() && fds == old(fds)
      ensures var p := fds[fd].handle.io.state;
        && (r.Count? ==> 0 <= r.n <= |data| && p.sent == old(p.sent) + data[..r.n])
        && (!r.Count? ==> p.sent == old(p.sent))
        && r == (if data == [] then Count(0)
                 else if InstalledEnds(fds, pipes, p, true) == {} then Error(EPIPE)
                 else Count(Min(|data|, MAX_RW)))
    {
      hide Names, InstalledEnds;
      var io := fds[fd].handle.io;
      NamesAfterRemoval(fds, fd, Pipe(io));
      EndCounts(fds, pipes, states, sockets, io.state);
      r := io.Write(data);
    }
  }
}
