/**
 * ZeroMessageBody: the body of a request that has none. Reading it checks
 * that nothing follows the head; the caller's buffer is never touched.
 */
module ZeroMessageBody {
  import opened Sockets
  import opened SocketReader
  import opened MessageBody

  /**
   * The outcome of one read of an empty body, from the arrivals the reader
   * will see, the room in its buffer and the bytes it already holds: a
   * reader failure closes the connection, and any byte at all is bad syntax.
   */
  function EmptyBodyOutcome(incoming: seq<Arrival>, room: nat, held: nat): (error: BodyReadError)
    ensures error == BodyOk <==> Receive(incoming, room).1 && held + |Receive(incoming, room).0| == 0
    ensures error == BodyConnectionClosed <==> !Receive(incoming, room).1
  {
    var (data, ok, _) := Receive(incoming, room);
    if !ok then BodyConnectionClosed
    else if held + |data| != 0 then BodyBadSyntax
    else BodyOk
  }

  class ZeroMessageBody {
    const input: SocketReader

    constructor(input: SocketReader)
      ensures this.input == input
    {
      this.input := input;
    }

    /** ZeroMessageBody::read: 0 with kOk when the reader reports no bytes; -1 (size_t) otherwise. */
    method Read(buffer: array?<char>, length: nat) returns (count: nat, error: BodyReadError)
      requires input.Valid()
      modifies input`received, input.buffer, input.socket`incoming
      ensures input.Valid()
      ensures error == EmptyBodyOutcome(old(input.socket.incoming), old(input.buffer.Length - input.received),
                                        old(input.received))
      ensures count == if error == BodyOk then 0 else SizeMax
    {
      var result, readError := input.Read();
      if readError != ReadOk {
        return SizeMax, BodyConnectionClosed;
      }
      if |result.data| != 0 {
        return SizeMax, BodyBadSyntax;
      }
      count, error := 0, BodyOk;
    }

    /** ZeroMessageBody::consume: the error of one read. */
    method Consume() returns (error: BodyReadError)
      requires input.Valid()
      modifies input`received, input.buffer, input.socket`incoming
      ensures input.Valid()
      ensures error == EmptyBodyOutcome(old(input.socket.incoming), old(input.buffer.Length - input.received),
                                        old(input.received))
    {
      var count;
      count, error := Read(null, 0);
    }
  }
}
