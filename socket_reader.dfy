/**
 * SocketReader: bytes from the socket accumulate in a fixed buffer; every
 * read reports the whole accumulated prefix, and advance moves the
 * unconsumed bytes to the front of the buffer.
 */
module SocketReader {
  import opened Sockets

  /** SocketReader::ReadResult, with the bytes it points at taken as a value. */
  datatype ReadResult = ReadResult(data: seq<char>, isCompleted: bool)

  /**
   * SocketReader::ReadError. The failure path of read assigns kUnknown,
   * a name the header does not declare; it is the second value here.
   */
  datatype ReadError = ReadOk | ReadUnknown

  datatype AdvanceError = AdvanceOk | OutOfBounds

  /** The buffer after advance(k) with `received` bytes held: bytes k..received first, the rest as it was. */
  function Shifted(buffer: seq<char>, k: nat, received: nat): (r: seq<char>)
    requires k <= received <= |buffer|
    ensures |r| == |buffer|
    ensures r[..received - k] == buffer[k..received]
    ensures r[received - k..] == buffer[received - k..]
  {
    buffer[k..received] + buffer[received - k..]
  }

  /**
   * What read returns to a reader holding `held` in a buffer of
   * `capacity` bytes, and the socket's input it leaves: on success the
   * held bytes followed by what arrived, complete exactly when nothing
   * arrived; on an error an empty result.
   */
  function ReaderRead(held: seq<char>, incoming: seq<Arrival>, capacity: nat): (r: ((ReadResult, ReadError), seq<Arrival>))
    requires |held| <= capacity
    ensures var (result, error) := r.0;
      (error == ReadOk ==>
         |held| <= |result.data| <= capacity && result.data[..|held|] == held
         && (result.isCompleted <==> |result.data| == |held|))
      && (error != ReadOk ==> result == ReadResult([], false))
    ensures |r.1| <= |incoming|
  {
    var (bytes, ok, rest) := Receive(incoming, capacity - |held|);
    (if ok then (ReadResult(held + bytes, |bytes| == 0), ReadOk) else (ReadResult([], false), ReadUnknown), rest)
  }

  class SocketReader {
    const socket: Socket
    const buffer: array<char>
    var received: nat

    ghost predicate Valid()
      reads this
    {
      received <= buffer.Length
    }

    constructor(socket: Socket, buffer: array<char>)
      ensures Valid() && this.socket == socket && this.buffer == buffer && received == 0
    {
      this.socket := socket;
      this.buffer := buffer;
      received := 0;
    }

    /**
     * SocketReader::read: the socket may fill the room left after the
     * received bytes; the result is the whole accumulated buffer, complete
     * exactly when this read got no bytes. On an error nothing is kept and
     * the result is empty.
     */
    method Read() returns (result: ReadResult, error: ReadError)
      requires Valid()
      modifies this`received, buffer, socket`incoming
      ensures Valid()
      ensures var r := Receive(old(socket.incoming), buffer.Length - old(received));
        socket.incoming == r.2
        && (r.1 ==> error == ReadOk && received == old(received) + |r.0|
                    && buffer[..] == old(buffer[..received]) + r.0 + old(buffer[received + |r.0|..])
                    && result == ReadResult(buffer[..received], |r.0| == 0))
        && (!r.1 ==> error == ReadUnknown && result == ReadResult([], false)
                     && received == old(received) && buffer[..] == old(buffer[..]))
      ensures error == ReadOk && !result.isCompleted ==> |result.data| > 0
      ensures ((result, error), socket.incoming) == ReaderRead(old(buffer[..received]), old(socket.incoming), buffer.Length)
    {
      var bytes, ok := socket.Read(buffer.Length - received);
      if !ok {
        return ReadResult([], false), ReadUnknown;
      }
      Copy(bytes, buffer, received);
      received := received + |bytes|;
      var isCompleted := |bytes| == 0;
      result, error := ReadResult(buffer[..received], isCompleted), ReadOk;
    }

    /**
     * SocketReader::advance(consumed): past the received bytes it fails
     * and changes nothing; otherwise it moves the bytes after `consumed`
     * to the front. The count of received bytes is left as it was.
     */
    method Advance(consumed: nat) returns (error: AdvanceError)
      requires Valid()
      modifies buffer
      ensures consumed > received ==> error == OutOfBounds && buffer[..] == old(buffer[..])
      ensures consumed <= received ==> error == AdvanceOk && buffer[..] == Shifted(old(buffer[..]), consumed, received)
    {
      if consumed > received {
        return OutOfBounds;
      }
      var n := received - consumed;
      for k := 0 to n
        invariant forall j :: 0 <= j < buffer.Length ==>
                    buffer[j] == if j < k then old(buffer[consumed + j]) else old(buffer[j])
      {
        buffer[k] := buffer[consumed + k];
      }
      assert buffer[..] == Shifted(old(buffer[..]), consumed, received);
      error := AdvanceOk;
    }

    /**
     * advance(consumed) as evidently intended: as advance, and the count
     * of received bytes drops by `consumed`, so what the reader holds is
     * exactly the bytes not yet consumed, and the next read reports them
     * followed by the bytes it receives.
     */
    method AdvanceDropping(consumed: nat) returns (error: AdvanceError)
      requires Valid()
      modifies this`received, buffer
      ensures Valid()
      ensures consumed > old(received) ==>
                error == OutOfBounds && received == old(received) && buffer[..] == old(buffer[..])
      ensures consumed <= old(received) ==>
                error == AdvanceOk && received == old(received) - consumed
                && buffer[..received] == old(buffer[consumed..received])
                && buffer[..] == Shifted(old(buffer[..]), consumed, old(received))
    {
      error := Advance(consumed);
      if error == AdvanceOk {
        received := received - consumed;
      }
    }
  }

  /**
   * Because advance keeps the count of received bytes, what the next read
   * reports after advance(k) ends with the k bytes just before the old
   * end of the data, which were there before: bytes already seen come back.
   */
  lemma {:induction false} AdvanceRepeatsTail(buffer: seq<char>, k: nat, received: nat)
    requires k <= received <= |buffer|
    ensures Shifted(buffer, k, received)[..received] == buffer[k..received] + buffer[received - k..received]
  {
    var r := Shifted(buffer, k, received);
    assert r[..received] == r[..received - k] + r[received - k..received];
    assert r[received - k..received] == r[received - k..][..k];
  }
}
