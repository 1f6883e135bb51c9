/** Pipe ends and sockets: open file descriptions with shared buffers. */
module Streams {
  import opened Common

  const MAX_RW := 0x7FFF_F000  // Linux MAX_RW_COUNT

  datatype Errno = EBADF | EAGAIN | EINVAL | EPIPE | ENOTSOCK | ECONNREFUSED

  datatype IoResult = Data(bytes: seq<Byte>) | Count(n: int) | Error(errno: Errno)

  function Prefix(data: seq<Byte>, n: int): (p: seq<Byte>)
    requires n >= 0
    ensures p <= data && |p| == Min(|data|, n)
  {
    if |data| <= n then data else data[..n]
  }

  /** The buffer and endpoint counts both ends of a pipe share; ghosts record its open ends and its traffic. */
  class PipeState {
    var buffer: seq<Byte>
    var readers: int
    var writers: int
    ghost var sent: seq<Byte>
    ghost var taken: seq<Byte>
    ghost var openReaders: set<PipeIO>
    ghost var openWriters: set<PipeIO>

    constructor ()
      ensures Consistent() && buffer == [] && openReaders == {} && openWriters == {}
    {
      buffer, readers, writers, sent, taken, openReaders, openWriters := [], 0, 0, [], [], {}, {};
    }

    /** Everything accepted has either been read or is still buffered, in order. */
    ghost predicate Fifo()
      reads this
    {
      sent == taken + buffer
    }

    ghost predicate Consistent()
      reads this
    {
      Fifo() && readers == |openReaders| && writers == |openWriters|
    }

    ghost function OpenEnds(readEnd: bool): set<PipeIO>
      reads this
    {
      if readEnd then openReaders else openWriters
    }
  }

  class PipeIO {
    const state: PipeState
    const readable: bool
    var closed: bool

    constructor (shared: PipeState, readEnd: bool)
      requires shared.Consistent()
      modifies shared`readers, shared`writers, shared`openReaders, shared`openWriters
      ensures shared.Consistent() && state == shared && readable == readEnd && !closed
      ensures shared.OpenEnds(readEnd) == old(shared.OpenEnds(readEnd)) + {this}
      ensures shared.OpenEnds(!readEnd) == old(shared.OpenEnds(!readEnd))
    {
      state, readable, closed := shared, readEnd, false;
      new;
      if readable {
        state.readers := state.readers + 1;
        state.openReaders := state.openReaders + {this};
      } else {
        state.writers := state.writers + 1;
        state.openWriters := state.openWriters + {this};
      }
    }

    method Read(count: int) returns (r: IoResult)
      requires state.Fifo()
      modifies state`buffer, state`taken
      ensures state.Fifo()
      ensures r.Data? ==>
                readable && !closed && count >= 0 && |r.bytes| <= count && state.taken == old(state.taken) + r.bytes
      ensures r.Data? && count > 0 && r.bytes == [] ==> state.buffer == [] && state.writers == 0
      ensures r.Data? ==> r.bytes == (if count == 0 then [] else Prefix(old(state.buffer), Min(count, MAX_RW)))
      ensures !r.Data? ==> r.Error? && state.taken == old(state.taken)
      ensures r == Error(EBADF) <==> !readable || closed
      ensures r == Error(EAGAIN) <==> readable && !closed && count > 0 && old(state.buffer) == [] && state.writers != 0
      ensures r == Error(EINVAL) <==> readable && !closed && count < 0
      ensures r.Error? ==> r.errno in {EBADF, EINVAL, EAGAIN}
    {
      if !readable || closed {
        return Error(EBADF);
      }
      if count < 0 {
        return Error(EINVAL);
      }
      if count == 0 {
        return Data([]);
      }
      if state.buffer == [] {
        return if state.writers == 0 then Data([]) else Error(EAGAIN);
      }
      var chunk := Prefix(state.buffer, Min(count, MAX_RW));
      state.buffer := state.buffer[|chunk|..];
      state.taken := state.taken + chunk;
      return Data(chunk);
    }

    method Write(data: seq<Byte>) returns (r: IoResult)
      requires state.Fifo()
      modifies state`buffer, state`sent
      ensures state.Fifo()
      ensures r.Count? ==> !readable && !closed && 0 <= r.n <= |data| && state.sent == old(state.sent) + data[..r.n]
      ensures r.Count? && data != [] ==> r.n == Min(|data|, MAX_RW) && state.readers != 0
      ensures !r.Count? ==> r.Error? && state.sent == old(state.sent)
      ensures r == Error(EBADF) <==> readable || closed
      ensures r == Error(EPIPE) <==> !readable && !closed && data != [] && state.readers == 0
      ensures r.Error? ==> r.errno == EBADF || r.errno == EPIPE
    {
      if readable || closed {
        return Error(EBADF);
      }
      if data == [] {
        return Count(0);
      }
      if state.readers == 0 {
        return Error(EPIPE);
      }
      var accepted := Prefix(data, MAX_RW);
      state.buffer := state.buffer + accepted;
      state.sent := state.sent + accepted;
      return Count(|accepted|);
    }

    method Close()
      requires state.Consistent() && (this in state.OpenEnds(readable) <==> !closed)
      modifies this`closed, state`readers, state`writers, state`openReaders, state`openWriters
      ensures closed && state.Consistent()
      ensures state.OpenEnds(readable) == old(state.OpenEnds(readable)) - {this}
      ensures state.OpenEnds(!readable) == old(state.OpenEnds(!readable))
    {
      if closed {
        return;
      }
      closed := true;
      if readable {
        state.readers := state.readers - 1;
        state.openReaders := state.openReaders - {this};
      } else {
        state.writers := state.writers - 1;
        state.openWriters := state.openWriters - {this};
      }
    }
  }

  /** A local socket; `delivered` and `taken` record what entered and what left its inbox. */
  class SocketIO {
    var peer: SocketIO?
    var handler: bool
    var inbox: seq<Byte>
    var peerClosed: bool
    var closed: bool
    ghost var delivered: seq<Byte>
    ghost var taken: seq<Byte>

    constructor ()
      ensures peer == null && !handler && inbox == [] && !peerClosed && !closed && delivered == [] && taken == []
    {
      peer, handler, inbox, peerClosed, closed, delivered, taken := null, false, [], false, false, [], [];
    }

    ghost predicate Fifo()
      reads this
    {
      delivered == taken + inbox
    }

    /** A link is mutual and joins two different open sockets. */
    ghost predicate Linked()
      reads this, peer
    {
      peer != null ==> peer != this && peer.peer == this && !closed && !peer.closed && !peerClosed
    }

    /** The linked socket, if there is one. */
    ghost function Other(): set<SocketIO>
      reads this
    {
      if peer == null then {} else {peer}
    }

    method Deliver(data: seq<Byte>)
      requires Fifo()
      modifies this`inbox, this`delivered
      ensures Fifo() && delivered == old(delivered) + (if closed then [] else Prefix(data, MAX_RW))
    {
      if !closed {
        inbox := inbox + Prefix(data, MAX_RW);
        delivered := delivered + Prefix(data, MAX_RW);
      }
    }

    /** Nothing but the inbox and its history changed. */
    twostate predicate SameStatus(s: SocketIO)
      reads s
    {
      s.peer == old(s.peer) && s.handler == old(s.handler) && s.peerClosed == old(s.peerClosed)
      && s.closed == old(s.closed) && s.taken == old(s.taken)
    }

    /** `reply` is what a named-socket handler, when there is one, answers to the data. */
    method SendTo(data: seq<Byte>, reply: seq<Byte>) returns (r: IoResult)
      requires Fifo() && Linked() && (peer != null ==> peer.Fifo())
      modifies this`inbox, this`delivered, if peer == null then {} else {peer}
      ensures Fifo() && (peer != null ==> peer.Fifo() && SameStatus(peer))
      ensures r == if closed then Error(EBADF) else if peerClosed then Error(EPIPE) else Count(|Prefix(data, MAX_RW)|)
      // Every byte counted as sent on a linked socket is in its peer's inbox.
      ensures peer != null && !handler ==> peer.delivered == old(peer.delivered) + Prefix(data, MAX_RW)
      ensures peer != null && handler ==> peer.delivered == old(peer.delivered)
      ensures delivered == old(delivered) + (if r.Count? && handler then Prefix(reply, MAX_RW) else [])
    {
      if closed {
        return Error(EBADF);
      }
      var sent := Prefix(data, MAX_RW);
      if peerClosed {
        return Error(EPIPE);
      }
      if handler {
        if reply != [] {
          inbox := inbox + Prefix(reply, MAX_RW);
          delivered := delivered + Prefix(reply, MAX_RW);
        }
      } else if peer != null {
        r := SendToPeer(sent);
        return;
      }
      return Count(|sent|);
    }

    /** The branch of sendto that reaches the peer; its closed-peer answer depends on the peer alone. */
    method SendToPeer(sent: seq<Byte>) returns (r: IoResult)
      requires peer != null && peer.Fifo() && |sent| <= MAX_RW
      modifies peer`inbox, peer`delivered
      ensures peer.Fifo()
      ensures r == if peer.closed then Error(EPIPE) else Count(|sent|)
      ensures peer.delivered == old(peer.delivered) + (if peer.closed then [] else sent)
    {
      if peer.closed {
        return Error(EPIPE);
      }
      peer.Deliver(sent);
      return Count(|sent|);
    }

    /** With MSG_PEEK the bytes stay in the inbox. */
    method RecvFrom(count: int, peek: bool) returns (r: IoResult)
      requires Fifo()
      modifies this`inbox, this`taken
      ensures Fifo()
      ensures r.Data? ==> !closed && count >= 0 && |r.bytes| <= count && r.bytes <= old(inbox)
      ensures r.Data? ==> r.bytes == if count == 0 then [] else Prefix(old(inbox), Min(count, MAX_RW))
      ensures taken == old(taken) + (if r.Data? && !peek then r.bytes else [])
      ensures r.Data? && count > 0 && r.bytes == [] ==> inbox == [] && peerClosed
      ensures r == Error(EBADF) <==> closed
      ensures r == Error(EINVAL) <==> !closed && count < 0
      ensures r == Error(EAGAIN) <==> !closed && count > 0 && old(inbox) == [] && !peerClosed
      ensures r.Data? || (r.Error? && r.errno in {EBADF, EINVAL, EAGAIN})
    {
      if closed {
        return Error(EBADF);
      }
      if count < 0 {
        return Error(EINVAL);
      }
      if count == 0 {
        return Data([]);
      }
      if inbox == [] {
        return if peerClosed then Data([]) else Error(EAGAIN);
      }
      var chunk := Prefix(inbox, Min(count, MAX_RW));
      if !peek {
        inbox := inbox[|chunk|..];
        taken := taken + chunk;
      }
      return Data(chunk);
    }

    method Close()
      requires Linked()
      modifies this`closed, this`peer, Other()`peer, Other()`peerClosed
      ensures closed && peer == null
      ensures old(peer) != null ==> var p := old(peer);
                p.closed == old(p.closed) && p.inbox == old(p.inbox) && p.delivered == old(p.delivered)
                && p.taken == old(p.taken) && p.handler == old(p.handler)
      ensures old(closed) ==> old(peer) == null
      ensures old(peer) != null ==> old(peer).peerClosed && old(peer).peer == null
    {
      if closed {
        return;
      }
      closed := true;
      if peer != null {
        peer.peerClosed := true;
        peer.peer := null;
        peer := null;
      }
    }
  }
}
