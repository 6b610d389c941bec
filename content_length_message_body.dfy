/**
 * ContentLengthMessageBody: a body of a known length, read from the
 * socket reader, with the count of bytes still to come.
 */
module ContentLengthMessageBody {
  import opened Wrappers
  import opened Sockets
  import opened SocketReader
  import opened MessageBody

  function Min(a: nat, b: nat): nat
  {
    if a < b then a else b
  }

  // ---------------------------------------------------------------------
  // read, pass by pass

  /**
   * read's counters after some passes: the body bytes still to come, the
   * room left in the caller's buffer, the bytes copied so far, and the
   * error once a pass has ended the loop.
   */
  datatype ReadProgress = ReadProgress(remaining: nat, left: nat, bytes: seq<char>, stopped: Option<BodyReadError>)

  /** read's loop goes on while no pass stopped it and there are room and bytes to come. */
  predicate Reading(p: ReadProgress)
  {
    p.stopped.None? && p.left != 0 && p.remaining != 0
  }

  /**
   * One pass of read's loop on what the reader returned: a failed read
   * closes the connection; a result longer than what remains, or a
   * completed stream shorter than it, is bad syntax; a completed stream
   * with no bytes ends the loop; otherwise the leading bytes, as many as
   * there is room for, are copied and counted off.
   */
  function ReadPass(p: ReadProgress, read: (ReadResult, ReadError)): ReadProgress
    requires Reading(p)
  {
    var (result, readError) := read;
    if readError != ReadOk then p.(stopped := Some(BodyConnectionClosed))
    else if |result.data| > p.remaining then p.(stopped := Some(BodyBadSyntax))
    else if result.isCompleted && |result.data| < p.remaining then p.(stopped := Some(BodyBadSyntax))
    else if result.isCompleted && |result.data| == 0 then p.(stopped := Some(BodyOk))
    else
      var consumed := Min(|result.data|, p.left);
      ReadProgress(p.remaining - consumed, p.left - consumed, p.bytes + result.data[..consumed], None)
  }

  /**
   * read's passes over the reader's results in turn, from `remaining`
   * bytes to come and room for `length`: every byte copied is counted off
   * both the remaining bytes and the room.
   */
  function ReadPasses(remaining: nat, length: nat, results: seq<(ReadResult, ReadError)>): (p: ReadProgress)
    ensures p.remaining + |p.bytes| == remaining && p.left + |p.bytes| == length
    decreases |results|
  {
    if |results| == 0 then ReadProgress(remaining, length, [], None)
    else
      var p := ReadPasses(remaining, length, results[..|results| - 1]);
      if Reading(p) then ReadPass(p, results[|results| - 1]) else p
  }

  /** Each of `results` was made while the loop was still going. */
  ghost predicate ReadMade(remaining: nat, length: nat, results: seq<(ReadResult, ReadError)>)
  {
    forall k :: 0 <= k < |results| ==> Reading(ReadPasses(remaining, length, results[..k]))
  }

  /**
   * The completed-and-empty exit of read's loop is never taken: while
   * bytes remain, a completed stream with none is already bad syntax.
   */
  lemma {:induction false} ReadPassNeverBreaks(p: ReadProgress, read: (ReadResult, ReadError))
    requires Reading(p)
    ensures ReadPass(p, read).stopped != Some(BodyOk)
  {
    var (result, readError) := read;
    if readError == ReadOk && |result.data| <= p.remaining && result.isCompleted && |result.data| == 0 {
      assert |result.data| < p.remaining;
    }
  }

  /**
   * How read ends, from the last of the results it made: kConnectionClosed
   * exactly when that read failed; kBadSyntax exactly when its result was
   * longer than what remained, or a completed stream shorter than it; and
   * kOk having filled the room or the body.
   */
  lemma {:induction false} ReadVerdict(remaining: nat, length: nat, results: seq<(ReadResult, ReadError)>)
    requires ReadMade(remaining, length, results) && !Reading(ReadPasses(remaining, length, results))
    ensures var p := ReadPasses(remaining, length, results);
      (p.stopped.None? || p.stopped == Some(BodyOk) ==> p.left == 0 || p.remaining == 0)
      && (p.stopped == Some(BodyOk) ==> false)
    ensures |results| > 0 ==>
      var p := ReadPasses(remaining, length, results);
      var q := ReadPasses(remaining, length, results[..|results| - 1]);
      var (result, readError) := results[|results| - 1];
      (p.stopped == Some(BodyConnectionClosed) <==> readError != ReadOk)
      && (p.stopped == Some(BodyBadSyntax) <==>
            readError == ReadOk && (|result.data| > q.remaining || (result.isCompleted && |result.data| < q.remaining)))
    ensures |results| == 0 ==> length == 0 || remaining == 0
  {
    if |results| > 0 {
      var n := |results| - 1;
      assert results[..n] == results[..|results| - 1];
      var q := ReadPasses(remaining, length, results[..n]);
      assert Reading(q);
      ReadPassNeverBreaks(q, results[n]);
    }
  }

  // ---------------------------------------------------------------------
  // consume, pass by pass

  /** consume's count of bytes still to come, and the error once a pass has ended the loop. */
  datatype ConsumeProgress = ConsumeProgress(remaining: nat, stopped: Option<BodyReadError>)

  predicate Consuming(p: ConsumeProgress)
  {
    p.stopped.None? && p.remaining != 0
  }

  /** One pass of consume's loop: read's checks, and then the whole result is counted off. */
  function ConsumePass(p: ConsumeProgress, read: (ReadResult, ReadError)): ConsumeProgress
    requires Consuming(p)
  {
    var (result, readError) := read;
    if readError != ReadOk then p.(stopped := Some(BodyConnectionClosed))
    else if |result.data| > p.remaining then p.(stopped := Some(BodyBadSyntax))
    else if result.isCompleted && |result.data| < p.remaining then p.(stopped := Some(BodyBadSyntax))
    else ConsumeProgress(p.remaining - |result.data|, None)
  }

  /**
   * consume's passes over the reader's results in turn: the count of
   * bytes to come never grows, and a pass stops the loop only while some
   * bytes are still to come.
   */
  function ConsumePasses(remaining: nat, results: seq<(ReadResult, ReadError)>): (p: ConsumeProgress)
    ensures p.remaining <= remaining
    ensures p.stopped.Some? ==> p.remaining != 0
    decreases |results|
  {
    if |results| == 0 then ConsumeProgress(remaining, None)
    else
      var p := ConsumePasses(remaining, results[..|results| - 1]);
      if Consuming(p) then ConsumePass(p, results[|results| - 1]) else p
  }

  /** Each of `results` was made while the loop was still going. */
  ghost predicate ConsumeMade(remaining: nat, results: seq<(ReadResult, ReadError)>)
  {
    forall k :: 0 <= k < |results| ==> Consuming(ConsumePasses(remaining, results[..k]))
  }

  /** The bytes of every successful read, added up. */
  function Total(results: seq<(ReadResult, ReadError)>): nat
  {
    if |results| == 0 then 0
    else
      var (result, readError) := results[|results| - 1];
      Total(results[..|results| - 1]) + if readError == ReadOk then |result.data| else 0
  }

  /**
   * A consume that is not stopped has counted off every byte of every
   * result it read.
   */
  lemma {:induction false} ConsumeCounts(remaining: nat, results: seq<(ReadResult, ReadError)>)
    requires ConsumeMade(remaining, results)
    ensures ConsumePasses(remaining, results).stopped.None? ==>
              ConsumePasses(remaining, results).remaining + Total(results) == remaining
    decreases |results|
  {
    if |results| > 0 {
      var n := |results| - 1;
      var front := results[..n];
      assert ConsumeMade(remaining, front) by {
        forall k | 0 <= k < |front| ensures Consuming(ConsumePasses(remaining, front[..k])) {
          assert front[..k] == results[..k];
        }
      }
      ConsumeCounts(remaining, front);
      assert Consuming(ConsumePasses(remaining, results[..n]));
    }
  }

  /**
   * How consume ends, from the last of the results it made: kConnectionClosed
   * exactly when that read failed; kBadSyntax exactly when its result was
   * longer than what remained, or a completed stream shorter than it; and
   * kOk exactly when the results held all the bytes that were to come.
   */
  lemma {:induction false} ConsumeVerdict(remaining: nat, results: seq<(ReadResult, ReadError)>)
    requires ConsumeMade(remaining, results) && !Consuming(ConsumePasses(remaining, results))
    ensures var p := ConsumePasses(remaining, results);
      p.stopped.None? <==> Total(results) == remaining
    ensures |results| > 0 ==>
      var p := ConsumePasses(remaining, results);
      var q := ConsumePasses(remaining, results[..|results| - 1]);
      var (result, readError) := results[|results| - 1];
      (p.stopped == Some(BodyConnectionClosed) <==> readError != ReadOk)
      && (p.stopped == Some(BodyBadSyntax) <==>
            readError == ReadOk && (|result.data| > q.remaining || (result.isCompleted && |result.data| < q.remaining)))
    ensures |results| == 0 <==> remaining == 0
  {
    ConsumeCounts(remaining, results);
    if |results| > 0 {
      var n := |results| - 1;
      var front := results[..n];
      assert ConsumeMade(remaining, front) by {
        forall k | 0 <= k < |front| ensures Consuming(ConsumePasses(remaining, front[..k])) {
          assert front[..k] == results[..k];
        }
      }
      ConsumeCounts(remaining, front);
      var q := ConsumePasses(remaining, front);
      assert Consuming(q);
      assert q.remaining + Total(front) == remaining;
      var (result, readError) := results[n];
      if ConsumePasses(remaining, results).stopped.Some? {
        // a stopped pass counts nothing off, and some bytes were still to come
        assert Total(results) == Total(front) + if readError == ReadOk then |result.data| else 0;
      }
    } else {
      assert ConsumePasses(remaining, results) == ConsumeProgress(remaining, None);
    }
  }

  /**
   * read with the advance as written, which keeps the reader's count of
   * received bytes. A body of n bytes arrives in one read and the first
   * call has room for k < n of them: that pass copies k bytes and leaves
   * n - k to come. The next read, on a stream that has then ended,
   * reports all n kept bytes, more than the n - k still to come, and the
   * body is refused as bad syntax. With the count dropped by k, the same
   * read reports exactly the n - k bytes still to come and is accepted.
   */
  lemma {:induction false} KeptCountRefusesBodyAsWritten(buffer: seq<char>, n: nat, k: nat, room: nat)
    requires 0 < k < n <= |buffer| && 0 < room
    ensures ReadPass(ReadProgress(n, k, [], None), (ReadResult(buffer[..n], false), ReadOk))
         == ReadProgress(n - k, 0, buffer[..k], None)
    ensures ReadPass(ReadProgress(n - k, room, [], None), (ReadResult(Shifted(buffer, k, n)[..n], true), ReadOk)).stopped
         == Some(BodyBadSyntax)
    ensures ReadPass(ReadProgress(n - k, room, [], None), (ReadResult(Shifted(buffer, k, n)[..n - k], true), ReadOk)).stopped
         == None
  {
  }

  // ---------------------------------------------------------------------
  // the loops run against the reader

  /**
   * A run of one of the loops against the reader: the results the reader
   * returned, the socket's input still to come, and the bytes the reader
   * still holds.
   */
  datatype ReaderRun = ReaderRun(results: seq<(ReadResult, ReadError)>, incoming: seq<Arrival>, held: seq<char>)

  function Prefixed(results: seq<(ReadResult, ReadError)>, run: ReaderRun): ReaderRun
  {
    run.(results := results + run.results)
  }

  /**
   * `next` could have come from the reader with a buffer of `capacity`
   * bytes: a successful result fits the buffer, and one that is not
   * complete holds some bytes.
   */
  predicate Possible(next: ((ReadResult, ReadError), seq<Arrival>), capacity: nat)
  {
    var (result, error) := next.0;
    error == ReadOk ==> |result.data| <= capacity && (!result.isCompleted ==> |result.data| > 0)
  }

  /**
   * read's loop run against a reader holding `held` in a buffer of
   * `capacity` bytes, with the socket's `incoming` input: while the loop
   * goes on, every pass reads once and goes on as ReadRunFrom says. The
   * run only takes from the socket's input.
   */
  function ReadRun(p: ReadProgress, held: seq<char>, incoming: seq<Arrival>, capacity: nat): (run: ReaderRun)
    requires |held| <= capacity
    ensures |run.incoming| <= |incoming|
    ensures |run.results| == 0 <==> !Reading(p)
    decreases p.left, 1
  {
    if !Reading(p) then ReaderRun([], incoming, held)
    else ReadRunFrom(p, held, ReaderRead(held, incoming, capacity), capacity)
  }

  /**
   * The rest of read's run once the reader returned `next`, the result
   * and the input left: a pass that stops leaves the reader holding what
   * it read, or, when the read failed, what it held before; a pass that
   * goes on advances past the bytes it copied, dropping them from the
   * count of received bytes, and the run goes on.
   */
  function ReadRunFrom(p: ReadProgress, held: seq<char>, next: ((ReadResult, ReadError), seq<Arrival>), capacity: nat)
    : (run: ReaderRun)
    requires |held| <= capacity && Reading(p) && Possible(next, capacity)
    ensures |run.incoming| <= |next.1|
    ensures |run.results| > 0 && run.results[0] == next.0
    decreases p.left, 0
  {
    var (read, rest) := next;
    var q := ReadPass(p, read);
    if q.stopped.Some? then ReaderRun([read], rest, if read.1 == ReadOk then read.0.data else held)
    else Prefixed([read], ReadRun(q, read.0.data[p.left - q.left..], rest, capacity))
  }

  /** consume's loop run against the reader in the same way. */
  function ConsumeRun(p: ConsumeProgress, held: seq<char>, incoming: seq<Arrival>, capacity: nat): (run: ReaderRun)
    requires |held| <= capacity
    ensures |run.incoming| <= |incoming|
    ensures |run.results| == 0 <==> !Consuming(p)
    decreases p.remaining, 1
  {
    if !Consuming(p) then ReaderRun([], incoming, held)
    else ConsumeRunFrom(p, held, ReaderRead(held, incoming, capacity), capacity)
  }

  /**
   * The rest of consume's run once the reader returned `next`: a pass
   * that goes on advances past the whole result, so the reader then
   * holds nothing.
   */
  function ConsumeRunFrom(p: ConsumeProgress, held: seq<char>, next: ((ReadResult, ReadError), seq<Arrival>), capacity: nat)
    : (run: ReaderRun)
    requires |held| <= capacity && Consuming(p) && Possible(next, capacity)
    ensures |run.incoming| <= |next.1|
    ensures |run.results| > 0 && run.results[0] == next.0
    decreases p.remaining, 0
  {
    var (read, rest) := next;
    var q := ConsumePass(p, read);
    if q.stopped.Some? then ReaderRun([read], rest, if read.1 == ReadOk then read.0.data else held)
    else Prefixed([read], ConsumeRun(q, [], rest, capacity))
  }

  /**
   * A body that arrives whole, in one piece the reader's buffer and the
   * caller's room can take, is read in one pass: the socket's input is
   * used up and the reader is left holding nothing.
   */
  lemma WholeBodyInOneRead(body: seq<char>, length: nat, capacity: nat)
    requires 0 < |body| <= length && |body| <= capacity
    ensures ReadRun(ReadProgress(|body|, length, [], None), [], [Bytes(body)], capacity)
            == ReaderRun([(ReadResult(body, false), ReadOk)], [], [])
  {
    var read := (ReadResult(body, false), ReadOk);
    assert ReaderRead([], [Bytes(body)], capacity) == (read, []);
    var q := ReadPass(ReadProgress(|body|, length, [], None), read);
    assert q == ReadProgress(0, length - |body|, body, None);
    assert body[|body|..] == [];
    assert ReadRun(q, [], [], capacity) == ReaderRun([], [], []);
  }

  /** What one pass of read's loop ends with. */
  datatype PieceStep = Taken | Finished | Failed(error: BodyReadError)

  class ContentLengthMessageBody {
    const input: SocketReader
    var remaining: nat

    constructor(input: SocketReader, length: nat)
      ensures this.input == input && remaining == length
    {
      this.input := input;
      remaining := length;
    }

    /**
     * ContentLengthMessageBody::read: fills `buffer` with up to `length`
     * bytes, each piece the leading bytes of one reader result, and counts
     * them off the remaining bytes. With no room or nothing remaining the
     * reader is not used. A reader failure closes the connection; a result
     * longer than what remains, or a completed stream shorter than it, is
     * bad syntax; both return -1 (size_t). `results` are the reader's results.
     */
    method Read(buffer: array<char>, length: nat)
      returns (count: nat, error: BodyReadError, ghost results: seq<(ReadResult, ReadError)>)
      requires input.Valid() && length <= buffer.Length && buffer != input.buffer
      modifies this`remaining, input`received, input.buffer, input.socket`incoming, buffer
      ensures input.Valid() && remaining <= old(remaining)
      ensures var p := ReadPasses(old(remaining), length, results);
        ReadMade(old(remaining), length, results) && !Reading(p)
        && remaining == p.remaining && error == (if p.stopped.Some? then p.stopped.value else BodyOk)
        && buffer[..|p.bytes|] == p.bytes && buffer[|p.bytes|..] == old(buffer[|p.bytes|..])
        && count == if error == BodyOk then |p.bytes| else SizeMax
      ensures error == BodyOk ==> count <= length && remaining + count == old(remaining)
      ensures error == BodyOk ==> count == length || remaining == 0
      ensures length == 0 || old(remaining) == 0 ==>
                error == BodyOk && count == 0 && results == [] && input.received == old(input.received)
                && input.socket.incoming == old(input.socket.incoming)
      ensures ReadRun(ReadProgress(old(remaining), length, [], None), old(input.buffer[..input.received]),
                      old(input.socket.incoming), input.buffer.Length)
              == ReaderRun(results, input.socket.incoming, input.buffer[..input.received])
    {
      var offset, stopped;
      offset, stopped, results := ReadLoop(buffer, length);
      ReadSoFarEnds(old(remaining), length, old(input.buffer[..input.received]), old(input.socket.incoming),
                    input.buffer.Length, results, ReadProgress(remaining, length - offset, buffer[..offset], stopped),
                    input.buffer[..input.received], input.socket.incoming);
      ReadVerdict(old(remaining), length, results);
      if stopped.Some? {
        return SizeMax, stopped.value, results;
      }
      count, error := offset, BodyOk;
      assert |input.buffer[..input.received]| == input.received;
    }

    /**
     * read's loop: passes go on while there are room and bytes to come,
     * and one that fails ends it with its error. The loop leaves `offset`
     * bytes copied, and ReadSoFar holds of where it stopped.
     */
    method ReadLoop(buffer: array<char>, length: nat)
      returns (offset: nat, stopped: Option<BodyReadError>, ghost results: seq<(ReadResult, ReadError)>)
      requires input.Valid() && length <= buffer.Length && buffer != input.buffer
      modifies this`remaining, input`received, input.buffer, input.socket`incoming, buffer
      ensures input.Valid() && offset <= length
      ensures var p := ReadProgress(remaining, length - offset, buffer[..offset], stopped);
        !Reading(p)
        && ReadSoFar(old(remaining), length, old(input.buffer[..input.received]), old(input.socket.incoming),
                     input.buffer.Length, results, p, input.buffer[..input.received], input.socket.incoming)
      ensures buffer[offset..] == old(buffer[offset..])
    {
      offset, stopped := 0, None;
      var left: nat := length;
      results := [];
      ghost var original := buffer[..];
      while left != 0 && remaining != 0
        invariant input.Valid() && offset + left == length
        invariant buffer[offset..] == original[offset..]
        invariant ReadSoFar(old(remaining), length, old(input.buffer[..input.received]), old(input.socket.incoming),
                            input.buffer.Length, results, ReadProgress(remaining, left, buffer[..offset], None),
                            input.buffer[..input.received], input.socket.incoming)
        decreases left
      {
        var stop, piece, read := ReadStep(buffer, offset, left, old(remaining), length, old(input.buffer[..input.received]),
                                          old(input.socket.incoming), results);
        results := results + [read];
        if stop.Some? {
          stopped := stop;
          break;
        }
        assert original[offset..][|piece|..] == original[offset + |piece|..];
        left, offset := left - |piece|, offset + |piece|;
      }
    }

    /**
     * One pass of read's loop, as ReadPiece makes it, seen against the
     * run from the start: ReadSoFar holds after it of the results with
     * `read` added.
     */
    method ReadStep(buffer: array<char>, offset: nat, left: nat, ghost remaining0: nat, ghost length: nat,
                    ghost held0: seq<char>, ghost incoming0: seq<Arrival>, ghost results: seq<(ReadResult, ReadError)>)
      returns (stopped: Option<BodyReadError>, piece: seq<char>, ghost read: (ReadResult, ReadError))
      requires input.Valid() && offset + left <= buffer.Length && buffer != input.buffer
      requires 0 < left && 0 < remaining
      requires ReadSoFar(remaining0, length, held0, incoming0, input.buffer.Length, results,
                         ReadProgress(remaining, left, buffer[..offset], None), input.buffer[..input.received], input.socket.incoming)
      modifies this`remaining, input`received, input.buffer, input.socket`incoming, buffer
      ensures input.Valid()
      ensures stopped.None? ==>
                0 < |piece| <= left && remaining == old(remaining) - |piece|
                && buffer[offset + |piece|..] == old(buffer[offset..])[|piece|..]
                && ReadSoFar(remaining0, length, held0, incoming0, input.buffer.Length, results + [read],
                             ReadProgress(remaining, left - |piece|, buffer[..offset + |piece|], None),
                             input.buffer[..input.received], input.socket.incoming)
      ensures stopped.Some? ==>
                buffer[..] == old(buffer[..]) && remaining == old(remaining)
                && ReadSoFar(remaining0, length, held0, incoming0, input.buffer.Length, results + [read],
                             ReadProgress(remaining, left, buffer[..offset], stopped),
                             input.buffer[..input.received], input.socket.incoming)
    {
      ghost var before := buffer[..];
      ghost var held, incoming := input.buffer[..input.received], input.socket.incoming;
      ghost var p := ReadProgress(remaining, left, buffer[..offset], None);
      var step;
      step, piece, read := ReadPiece(buffer, offset, left);
      ghost var q := if step.Failed? then ReadProgress(remaining, left, buffer[..offset], Some(step.error))
                     else ReadProgress(remaining, left - |piece|, buffer[..offset + |piece|], None);
      ReadSoFarStep(remaining0, length, held0, incoming0, input.buffer.Length, results, p, held, incoming,
                    read, input.socket.incoming, q, input.buffer[..input.received]);
      if step.Failed? {
        return Some(step.error), [], read;
      }
      assert buffer[offset + |piece|..] == before[offset..][|piece|..];
      stopped := None;
    }

    /**
     * One pass of read's loop: the reader is read, the result is checked
     * against the remaining bytes, and its leading bytes, as many as there
     * is room for, are copied after `offset`, counted off the remaining
     * bytes and advanced past, which moves the reader's unconsumed bytes
     * to the front of its buffer. `read` is what the reader returned.
     */
    method ReadPiece(buffer: array<char>, offset: nat, left: nat)
      returns (step: PieceStep, piece: seq<char>, ghost read: (ReadResult, ReadError))
      requires input.Valid() && offset + left <= buffer.Length && buffer != input.buffer
      requires 0 < left && 0 < remaining
      modifies this`remaining, input`received, input.buffer, input.socket`incoming, buffer
      ensures input.Valid()
      ensures (read, input.socket.incoming) == ReaderRead(old(input.buffer[..input.received]), old(input.socket.incoming), input.buffer.Length)
      ensures step != Finished
      ensures step == Taken ==>
                0 < |piece| <= left && |piece| <= old(remaining) && |piece| <= |read.0.data|
                && remaining == old(remaining) - |piece|
                && ReadPass(ReadProgress(old(remaining), left, old(buffer[..offset]), None), read)
                   == ReadProgress(remaining, left - |piece|, old(buffer[..offset]) + piece, None)
                && buffer[..offset + |piece|] == old(buffer[..offset]) + piece
                && buffer[offset + |piece|..] == old(buffer[offset + |piece|..])
                && input.received == |read.0.data| - |piece| && input.buffer[..input.received] == read.0.data[|piece|..]
      ensures step.Failed? ==>
                remaining == old(remaining)
                && ReadPass(ReadProgress(remaining, left, old(buffer[..offset]), None), read)
                   == ReadProgress(remaining, left, old(buffer[..offset]), Some(step.error))
                && buffer[..] == old(buffer[..])
                && input.buffer[..input.received] == if read.1 == ReadOk then read.0.data else old(input.buffer[..input.received])
    {
      ghost var p := ReadProgress(remaining, left, buffer[..offset], None);
      var result, readError := input.Read();
      read := (result, readError);
      if readError != ReadOk {
        return Failed(BodyConnectionClosed), [], read;
      }
      if |result.data| > remaining {
        return Failed(BodyBadSyntax), [], read;
      }
      if result.isCompleted && |result.data| < remaining {
        return Failed(BodyBadSyntax), [], read;
      }
      if result.isCompleted && |result.data| == 0 {
        assert false;
        return Finished, [], read;
      }
      var consumed := if |result.data| < left then |result.data| else left;
      piece := TakeLeading(result.data, consumed, buffer, offset);
      assert ReadPass(p, read) == ReadProgress(remaining - consumed, left - consumed, p.bytes + piece, None);
      remaining := remaining - consumed;
      step := Taken;
    }

    /** The copy of the first `consumed` received bytes after `offset`, and the advance past them. */
    method TakeLeading(data: seq<char>, consumed: nat, buffer: array<char>, offset: nat) returns (piece: seq<char>)
      requires input.Valid() && data == input.buffer[..input.received] && buffer != input.buffer
      requires consumed <= |data| && offset + consumed <= buffer.Length
      modifies input`received, input.buffer, buffer
      ensures input.Valid()
      ensures piece == data[..consumed]
      ensures buffer[..offset + consumed] == old(buffer[..offset]) + piece
      ensures buffer[offset + consumed..] == old(buffer[offset + consumed..])
      ensures input.received == |data| - consumed && input.buffer[..input.received] == data[consumed..]
    {
      piece := data[..consumed];
      CopyPiece(piece, buffer, offset);
      var advanceError := input.AdvanceDropping(consumed);
    }

    /**
     * ContentLengthMessageBody::consume: results and drops what remains, by
     * read's checks. `results` are the reader's results.
     */
    method Consume() returns (error: BodyReadError, ghost results: seq<(ReadResult, ReadError)>)
      requires input.Valid()
      modifies this`remaining, input`received, input.buffer, input.socket`incoming
      ensures input.Valid() && remaining <= old(remaining)
      ensures var p := ConsumePasses(old(remaining), results);
        ConsumeMade(old(remaining), results) && !Consuming(p)
        && remaining == p.remaining && error == (if p.stopped.Some? then p.stopped.value else BodyOk)
      ensures error == BodyOk <==> remaining == 0
      ensures old(remaining) == 0 ==> error == BodyOk && results == [] && input.received == old(input.received)
      ensures ConsumeRun(ConsumeProgress(old(remaining), None), old(input.buffer[..input.received]),
                         old(input.socket.incoming), input.buffer.Length)
              == ReaderRun(results, input.socket.incoming, input.buffer[..input.received])
    {
      results := [];
      while remaining != 0
        invariant input.Valid()
        invariant ConsumeSoFar(old(remaining), old(input.buffer[..input.received]), old(input.socket.incoming),
                               input.buffer.Length, results, ConsumeProgress(remaining, None),
                               input.buffer[..input.received], input.socket.incoming)
        decreases remaining
      {
        var stopped, read := ConsumeStep(old(remaining), old(input.buffer[..input.received]), old(input.socket.incoming),
                                         results);
        results := results + [read];
        if stopped.Some? {
          ConsumeSoFarEnds(old(remaining), old(input.buffer[..input.received]), old(input.socket.incoming),
                           input.buffer.Length, results, ConsumeProgress(remaining, stopped),
                           input.buffer[..input.received], input.socket.incoming);
          return stopped.value, results;
        }
      }
      ConsumeSoFarEnds(old(remaining), old(input.buffer[..input.received]), old(input.socket.incoming),
                       input.buffer.Length, results, ConsumeProgress(remaining, None),
                       input.buffer[..input.received], input.socket.incoming);
      error := BodyOk;
      assert |input.buffer[..input.received]| == input.received;
    }

    /**
     * One pass of consume's loop, as ConsumePiece makes it, seen against
     * the run from the start: ConsumeSoFar holds after it of the results
     * with `read` added.
     */
    method ConsumeStep(ghost remaining0: nat, ghost held0: seq<char>, ghost incoming0: seq<Arrival>,
                       ghost results: seq<(ReadResult, ReadError)>)
      returns (stopped: Option<BodyReadError>, ghost read: (ReadResult, ReadError))
      requires input.Valid() && 0 < remaining
      requires ConsumeSoFar(remaining0, held0, incoming0, input.buffer.Length, results, ConsumeProgress(remaining, None),
                            input.buffer[..input.received], input.socket.incoming)
      modifies this`remaining, input`received, input.buffer, input.socket`incoming
      ensures input.Valid() && (stopped.None? ==> remaining < old(remaining))
      ensures ConsumeSoFar(remaining0, held0, incoming0, input.buffer.Length, results + [read], ConsumeProgress(remaining, stopped),
                           input.buffer[..input.received], input.socket.incoming)
    {
      ghost var p, held, incoming := ConsumeProgress(remaining, None), input.buffer[..input.received], input.socket.incoming;
      stopped, read := ConsumePiece();
      ConsumeSoFarStep(remaining0, held0, incoming0, input.buffer.Length, results, p, held, incoming,
                       read, input.socket.incoming, ConsumeProgress(remaining, stopped), input.buffer[..input.received]);
    }

    /**
     * One pass of consume's loop: the reader is read, the result is
     * checked against the remaining bytes, and then counted off and
     * advanced past, so that the reader holds nothing. `read` is what the
     * reader returned; `stopped` is the error that ends the loop, if any.
     */
    method ConsumePiece() returns (stopped: Option<BodyReadError>, ghost read: (ReadResult, ReadError))
      requires input.Valid() && 0 < remaining
      modifies this`remaining, input`received, input.buffer, input.socket`incoming
      ensures input.Valid()
      ensures (read, input.socket.incoming) == ReaderRead(old(input.buffer[..input.received]), old(input.socket.incoming), input.buffer.Length)
      ensures ConsumePass(ConsumeProgress(old(remaining), None), read) == ConsumeProgress(remaining, stopped)
      ensures stopped.None? ==> remaining < old(remaining)
      ensures input.buffer[..input.received]
              == if stopped.None? then [] else if read.1 == ReadOk then read.0.data else old(input.buffer[..input.received])
    {
      var result, readError := input.Read();
      read := (result, readError);
      if readError != ReadOk {
        return Some(BodyConnectionClosed), read;
      }
      if |result.data| > remaining {
        return Some(BodyBadSyntax), read;
      }
      if result.isCompleted && |result.data| < remaining {
        return Some(BodyBadSyntax), read;
      }
      remaining := remaining - |result.data|;
      var advanceError := input.AdvanceDropping(|result.data|);
      stopped := None;
    }
  }

  /**
   * consume's loop so far: `results` were made while it was going and
   * leave it at `p`, and the run from the start is those results followed
   * by the run from the reader's present state.
   */
  ghost predicate ConsumeSoFar(remaining: nat, held0: seq<char>, incoming0: seq<Arrival>, capacity: nat,
                               results: seq<(ReadResult, ReadError)>, p: ConsumeProgress, held: seq<char>, incoming: seq<Arrival>)
  {
    |held0| <= capacity && |held| <= capacity
    && ConsumeMade(remaining, results) && ConsumePasses(remaining, results) == p
    && ConsumeRun(ConsumeProgress(remaining, None), held0, incoming0, capacity)
       == Prefixed(results, ConsumeRun(p, held, incoming, capacity))
  }

  /** One pass of consume's loop keeps ConsumeSoFar. */
  lemma ConsumeSoFarStep(remaining: nat, held0: seq<char>, incoming0: seq<Arrival>, capacity: nat,
                         results: seq<(ReadResult, ReadError)>, p: ConsumeProgress, held: seq<char>, incoming: seq<Arrival>,
                         read: (ReadResult, ReadError), rest: seq<Arrival>, q: ConsumeProgress, after: seq<char>)
    requires ConsumeSoFar(remaining, held0, incoming0, capacity, results, p, held, incoming) && Consuming(p)
    requires (read, rest) == ReaderRead(held, incoming, capacity) && q == ConsumePass(p, read)
    requires after == if q.stopped.None? then [] else if read.1 == ReadOk then read.0.data else held
    ensures ConsumeSoFar(remaining, held0, incoming0, capacity, results + [read], q, after, rest)
  {
    ConsumeStepTaken(remaining, results, read);
    ConsumeRunStep(p, held, incoming, capacity, read, rest, q, after);
    PrefixedAppend(results, read, ConsumeRun(q, after, rest, capacity));
  }

  /** When consume's loop is over, the run from the start is exactly its results. */
  lemma ConsumeSoFarEnds(remaining: nat, held0: seq<char>, incoming0: seq<Arrival>, capacity: nat,
                         results: seq<(ReadResult, ReadError)>, p: ConsumeProgress, held: seq<char>, incoming: seq<Arrival>)
    requires ConsumeSoFar(remaining, held0, incoming0, capacity, results, p, held, incoming) && !Consuming(p)
    ensures ConsumeMade(remaining, results) && ConsumePasses(remaining, results) == p
    ensures ConsumeRun(ConsumeProgress(remaining, None), held0, incoming0, capacity)
            == ReaderRun(results, incoming, held)
  {
  }

  lemma PrefixedAppend(results: seq<(ReadResult, ReadError)>, read: (ReadResult, ReadError), run: ReaderRun)
    ensures Prefixed(results, Prefixed([read], run)) == Prefixed(results + [read], run)
  {
    assert results + ([read] + run.results) == results + [read] + run.results;
  }

  /**
   * read's loop so far: `results` were made while it was going and leave
   * it at `p`, and the run from the start is those results followed by
   * the run from the reader's present state.
   */
  ghost predicate ReadSoFar(remaining: nat, length: nat, held0: seq<char>, incoming0: seq<Arrival>, capacity: nat,
                            results: seq<(ReadResult, ReadError)>, p: ReadProgress, held: seq<char>, incoming: seq<Arrival>)
  {
    |held0| <= capacity && |held| <= capacity
    && ReadMade(remaining, length, results) && ReadPasses(remaining, length, results) == p
    && ReadRun(ReadProgress(remaining, length, [], None), held0, incoming0, capacity)
       == Prefixed(results, ReadRun(p, held, incoming, capacity))
  }

  /**
   * One pass of read's loop keeps ReadSoFar: a pass that goes on leaves
   * the reader holding what follows the copied bytes; a pass that stops
   * ends the run.
   */
  lemma ReadSoFarStep(remaining: nat, length: nat, held0: seq<char>, incoming0: seq<Arrival>, capacity: nat,
                      results: seq<(ReadResult, ReadError)>, p: ReadProgress, held: seq<char>, incoming: seq<Arrival>,
                      read: (ReadResult, ReadError), rest: seq<Arrival>, q: ReadProgress, after: seq<char>)
    requires ReadSoFar(remaining, length, held0, incoming0, capacity, results, p, held, incoming) && Reading(p)
    requires (read, rest) == ReaderRead(held, incoming, capacity) && q == ReadPass(p, read)
    requires q.stopped.None? ==> p.left - q.left <= |read.0.data| && after == read.0.data[p.left - q.left..]
    requires q.stopped.Some? ==> after == if read.1 == ReadOk then read.0.data else held
    ensures ReadSoFar(remaining, length, held0, incoming0, capacity, results + [read], q, after, rest)
  {
    ReadStepTaken(remaining, length, results, read);
    assert ReadRun(p, held, incoming, capacity) == ReadRunFrom(p, held, (read, rest), capacity);
    PrefixedAppend(results, read, ReadRun(q, after, rest, capacity));
  }

  /** When read's loop is over, the run from the start is exactly its results. */
  lemma ReadSoFarEnds(remaining: nat, length: nat, held0: seq<char>, incoming0: seq<Arrival>, capacity: nat,
                      results: seq<(ReadResult, ReadError)>, p: ReadProgress, held: seq<char>, incoming: seq<Arrival>)
    requires ReadSoFar(remaining, length, held0, incoming0, capacity, results, p, held, incoming) && !Reading(p)
    ensures ReadMade(remaining, length, results) && ReadPasses(remaining, length, results) == p
    ensures ReadRun(ReadProgress(remaining, length, [], None), held0, incoming0, capacity)
            == ReaderRun(results, incoming, held)
  {
  }

  /** One pass of ConsumeRun, given what the reader returned and the input it left. */
  lemma ConsumeRunStep(p: ConsumeProgress, held: seq<char>, incoming: seq<Arrival>, capacity: nat,
                       read: (ReadResult, ReadError), rest: seq<Arrival>, q: ConsumeProgress, after: seq<char>)
    requires |held| <= capacity && Consuming(p) && (read, rest) == ReaderRead(held, incoming, capacity)
    requires q == ConsumePass(p, read)
    requires after == if q.stopped.None? then [] else if read.1 == ReadOk then read.0.data else held
    ensures ConsumeRun(p, held, incoming, capacity)
            == if q.stopped.Some? then ReaderRun([read], rest, after) else Prefixed([read], ConsumeRun(q, after, rest, capacity))
  {
    assert ConsumeRun(p, held, incoming, capacity) == ConsumeRunFrom(p, held, (read, rest), capacity);
  }

  /** A read made while read's loop is going is one more pass; every earlier read stays made. */
  lemma {:induction false} ReadStepTaken(remaining: nat, length: nat, results: seq<(ReadResult, ReadError)>,
                                         read: (ReadResult, ReadError))
    requires ReadMade(remaining, length, results) && Reading(ReadPasses(remaining, length, results))
    ensures ReadMade(remaining, length, results + [read])
    ensures ReadPasses(remaining, length, results + [read]) == ReadPass(ReadPasses(remaining, length, results), read)
  {
    var all := results + [read];
    assert all[..|all| - 1] == results;
    forall k | 0 <= k < |all| ensures Reading(ReadPasses(remaining, length, all[..k])) {
      assert all[..k] == results[..k] || k == |results|;
      if k == |results| {
        assert all[..k] == results;
      } else {
        assert all[..k] == results[..k];
      }
    }
  }

  /** A read made while consume's loop is going is one more pass; every earlier read stays made. */
  lemma {:induction false} ConsumeStepTaken(remaining: nat, results: seq<(ReadResult, ReadError)>, read: (ReadResult, ReadError))
    requires ConsumeMade(remaining, results) && Consuming(ConsumePasses(remaining, results))
    ensures ConsumeMade(remaining, results + [read])
    ensures ConsumePasses(remaining, results + [read]) == ConsumePass(ConsumePasses(remaining, results), read)
  {
    var all := results + [read];
    assert all[..|all| - 1] == results;
    forall k | 0 <= k < |all| ensures Consuming(ConsumePasses(remaining, all[..k])) {
      if k == |results| {
        assert all[..k] == results;
      } else {
        assert all[..k] == results[..k];
      }
    }
  }

  /** The std::copy of one piece after the bytes already in `buffer`. */
  method CopyPiece(piece: seq<char>, buffer: array<char>, offset: nat)
    requires offset + |piece| <= buffer.Length
    modifies buffer
    ensures buffer[..offset + |piece|] == old(buffer[..offset]) + piece
    ensures buffer[offset + |piece|..] == old(buffer[offset + |piece|..])
  {
    ghost var before := buffer[..];
    Copy(piece, buffer, offset);
    assert buffer[..offset + |piece|] == before[..offset] + piece;
  }
}
