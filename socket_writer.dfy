/**
 * SocketWriter: bytes are collected in a fixed buffer, which is sent as a
 * whole each time it fills up, and on flush.
 */
module SocketWriter {
  import opened Sockets

  /**
   * SocketWriter::WriteError and FlushError: the code returns
   * kConnectionClosed, a name neither enum in the header declares.
   */
  datatype WriteError = WriteOk | WriteConnectionClosed
  datatype FlushError = FlushOk | FlushConnectionClosed

  class SocketWriter {
    const socket: Socket
    const buffer: array<char>
    var saved: nat

    ghost predicate Valid()
      reads this
    {
      0 < buffer.Length && saved <= buffer.Length
    }

    /** Everything written so far: what the socket took, then what waits in the buffer. */
    ghost function Stream(): seq<char>
      reads this, socket, buffer
      requires Valid()
    {
      socket.sent + buffer[..saved]
    }

    /** The socket is open and every coming send goes through. */
    ghost predicate Healthy()
      reads socket
    {
      !socket.closed && AllSucceed(socket.sendOutcomes)
    }

    /** A zero-length buffer would make write spin for ever, so the buffer must have room. */
    constructor(socket: Socket, buffer: array<char>)
      requires buffer.Length > 0
      ensures Valid() && this.socket == socket && this.buffer == buffer && saved == 0
    {
      this.socket := socket;
      this.buffer := buffer;
      saved := 0;
    }

    /**
     * SocketWriter::write (both overloads): the data is appended to the
     * stream; a send happens only when the buffer is full, so the socket
     * only ever gets whole buffers from it. On a failed send the socket is
     * closed and what was written is a prefix of the intended stream.
     */
    method Write(data: seq<char>) returns (error: WriteError, ghost sends: nat, ghost attempts: nat)
      requires Valid()
      modifies this`saved, buffer, socket`sent, socket`sendOutcomes, socket`closed
      ensures Valid()
      ensures socket.sendOutcomes == AfterSends(old(socket.sendOutcomes), attempts)
      ensures error == WriteOk <==> SendsGo(old(socket.closed), old(socket.sendOutcomes), attempts)
      ensures error == WriteConnectionClosed ==>
                0 < attempts && SendsGo(old(socket.closed), old(socket.sendOutcomes), attempts - 1)
      ensures error == WriteOk ==> attempts == sends && socket.closed == old(socket.closed)
      ensures error == WriteOk ==> Stream() == old(Stream()) + data && saved < buffer.Length
      ensures error == WriteConnectionClosed ==>
                socket.closed && old(Stream()) <= Stream() <= old(Stream()) + data
      ensures old(Healthy()) ==> error == WriteOk && Healthy()
      ensures old(socket.sent) <= socket.sent
      ensures |socket.sent| == |old(socket.sent)| + sends * buffer.Length
      ensures old(socket.closed) ==> socket.closed
    {
      ghost var start := Stream();
      ghost var sent0 := socket.sent;
      ghost var outcomes0 := socket.sendOutcomes;
      var done := 0;
      sends, attempts := 0, 0;
      while true
        invariant Valid() && done <= |data|
        invariant attempts == sends && socket.closed == old(socket.closed)
        invariant socket.sendOutcomes == AfterSends(outcomes0, attempts)
        invariant SendsGo(old(socket.closed), outcomes0, attempts)
        invariant Stream() == start + data[..done]
        invariant sent0 <= socket.sent && |socket.sent| == |sent0| + sends * buffer.Length
        invariant old(socket.closed) ==> socket.closed
        invariant old(Healthy()) ==> Healthy()
        invariant saved < buffer.Length || done == 0
        decreases 2 * (|data| - done) + (if saved == buffer.Length then 1 else 0)
      {
        var n := if buffer.Length - saved < |data| - done then buffer.Length - saved else |data| - done;
        assert data[..done + n] == data[..done] + data[done..done + n];
        var ok, flushed := Put(data[done..done + n], old(socket.closed), outcomes0, attempts);
        done := done + n;
        if flushed {
          attempts := attempts + 1;
        }
        if !ok {
          PrefixOfWritten(start, data, done);
          return WriteConnectionClosed, sends, attempts;
        }
        if flushed {
          assert (sends + 1) * buffer.Length == sends * buffer.Length + buffer.Length;
          sends := sends + 1;
        }
        if done == |data| {
          break;
        }
      }
      error := WriteOk;
    }

    /**
     * One pass of write's loop: `chunk` goes into the buffer, and a buffer
     * that is then full is flushed as send number `attempts` since the
     * outcomes were `outcomes`; the pass goes through exactly when all
     * sends so far have.
     */
    method Put(chunk: seq<char>, ghost closed: bool, ghost outcomes: seq<bool>, ghost attempts: nat)
      returns (ok: bool, flushed: bool)
      requires Valid() && saved + |chunk| <= buffer.Length
      requires socket.closed == closed && socket.sendOutcomes == AfterSends(outcomes, attempts)
      requires SendsGo(closed, outcomes, attempts)
      modifies this`saved, buffer, socket`sent, socket`sendOutcomes, socket`closed
      ensures Valid() && Stream() == old(Stream()) + chunk
      ensures flushed <==> old(saved) + |chunk| == buffer.Length
      ensures var n := if flushed then attempts + 1 else attempts;
        socket.sendOutcomes == AfterSends(outcomes, n) && (ok <==> SendsGo(closed, outcomes, n))
      ensures ok ==> socket.closed == closed && saved < buffer.Length
      ensures !ok ==> socket.closed
      ensures old(socket.sent) <= socket.sent
      ensures |socket.sent| == |old(socket.sent)| + if flushed && ok then buffer.Length else 0
      ensures old(Healthy()) ==> ok && Healthy()
    {
      Append(chunk);
      ok, flushed := true, false;
      if saved == buffer.Length {
        ghost var now := socket.sendOutcomes;
        var flushError := Flush();
        OneMoreSend(closed, outcomes, attempts, now, flushError == FlushOk);
        ok, flushed := flushError == FlushOk, true;
      }
    }

    /** The copy step of write: `chunk` goes into the buffer after the saved bytes. */
    method Append(chunk: seq<char>)
      requires Valid() && saved + |chunk| <= buffer.Length
      modifies this`saved, buffer
      ensures Valid() && saved == old(saved) + |chunk|
      ensures Stream() == old(Stream()) + chunk
    {
      ghost var held := buffer[..saved];
      Copy(chunk, buffer, saved);
      saved := saved + |chunk|;
      assert buffer[..saved] == held + chunk by {
        assert buffer[..saved] == buffer[..][..saved];
      }
    }

    /**
     * SocketWriter::flush: an empty buffer sends nothing; otherwise the
     * buffered bytes go out in one send and the buffer is emptied, or the
     * send fails, the socket is closed and the buffer is kept. Either way
     * the stream is what it was.
     */
    method Flush() returns (error: FlushError)
      requires Valid()
      modifies this`saved, socket`sent, socket`sendOutcomes, socket`closed
      ensures Valid() && Stream() == old(Stream())
      ensures old(saved) == 0 ==> error == FlushOk && socket.sent == old(socket.sent)
                                  && socket.sendOutcomes == old(socket.sendOutcomes)
                                  && socket.closed == old(socket.closed)
      ensures error == FlushOk ==> saved == 0 && socket.sent == old(socket.sent) + old(buffer[..saved])
      ensures error == FlushConnectionClosed ==>
                socket.closed && saved == old(saved) && socket.sent == old(socket.sent)
      ensures old(saved) > 0 ==>
                (error == FlushOk <==> !old(socket.closed) && SendGoes(old(socket.sendOutcomes), 0))
                && socket.sendOutcomes == AfterSends(old(socket.sendOutcomes), 1)
      ensures error == FlushOk ==> socket.closed == old(socket.closed)
      ensures old(Healthy()) ==> error == FlushOk && Healthy()
      ensures old(socket.closed) ==> socket.closed
    {
      if saved == 0 {
        return FlushOk;
      }
      var ok := socket.Send(buffer[..saved]);
      if !ok {
        socket.Close();
        return FlushConnectionClosed;
      }
      saved := 0;
      error := FlushOk;
    }
  }

  lemma {:induction false} PrefixOfWritten(start: seq<char>, data: seq<char>, k: nat)
    requires k <= |data|
    ensures start <= start + data[..k] <= start + data
  {
    assert (start + data)[..|start| + k] == start + data[..k];
  }
}
