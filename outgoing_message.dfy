/**
 * OutgoingMessage: the response. The head (status line and headers) goes
 * out once, before any data; end flushes the writer once.
 */
module OutgoingMessage {
  import opened Sockets
  import opened SocketWriter
  import opened HttpHeaders
  import opened HttpRequestData

  datatype WriteHeadError = HeadOk | HeadConnectionClosed | AlreadySent
  datatype OutgoingWriteError = Written | NotWritten
  datatype EndError = EndOk | EndConnectionClosed

  // ---------------------------------------------------------------------
  // The text of the head

  function StatusLine(code: string, message: string): string
  {
    "HTTP/1.0 " + code + " " + message + "\r\n"
  }

  /** `name: value` lines for the values, in order. */
  function ValueLines(name: string, values: seq<string>): string
  {
    if |values| == 0 then []
    else ValueLines(name, values[..|values| - 1]) + name + ": " + values[|values| - 1] + "\r\n"
  }

  /** The lines of the entries, in the order given. */
  function HeaderLines(entries: seq<Entry>): string
  {
    if |entries| == 0 then []
    else HeaderLines(entries[..|entries| - 1]) + ValueLines(entries[|entries| - 1].name, entries[|entries| - 1].values)
  }

  /** The head writeHead sends for HTTP/1.0 and 1.1: status line, header lines, empty line. */
  function HeadText(code: string, message: string, entries: seq<Entry>): string
  {
    StatusLine(code, message) + HeaderLines(entries) + "\r\n"
  }

  /** The lines of consecutive entries are the lines of each part, one after the other. */
  lemma {:induction false} HeaderLinesAppend(a: seq<Entry>, b: seq<Entry>)
    ensures HeaderLines(a + b) == HeaderLines(a) + HeaderLines(b)
    decreases |b|
  {
    if |b| == 0 {
      assert a + b == a;
    } else {
      var b' := b[..|b| - 1];
      assert (a + b)[..|a + b| - 1] == a + b';
      HeaderLinesAppend(a, b');
    }
  }

  lemma {:induction false} ValueLinesAppend(name: string, a: seq<string>, b: seq<string>)
    ensures ValueLines(name, a + b) == ValueLines(name, a) + ValueLines(name, b)
    decreases |b|
  {
    if |b| == 0 {
      assert a + b == a;
    } else {
      var b' := b[..|b| - 1];
      assert (a + b)[..|a + b| - 1] == a + b';
      ValueLinesAppend(name, a, b');
    }
  }

  /**
   * The headers come out in the order of the map, each name with its
   * values in the order they were added: the lines of entry i sit between
   * those of the entries before it and those after it.
   */
  lemma {:induction false} HeaderLinesAt(entries: seq<Entry>, i: nat)
    requires i < |entries|
    ensures HeaderLines(entries) == HeaderLines(entries[..i])
                                    + ValueLines(entries[i].name, entries[i].values)
                                    + HeaderLines(entries[i + 1..])
  {
    var before, e, after := entries[..i], entries[i], entries[i + 1..];
    assert entries == before + [e] + after;
    HeaderLinesAppend(before + [e], after);
    HeaderLinesAppend(before, [e]);
    HeaderLinesOne(e);
  }

  lemma {:induction false} HeaderLinesOne(e: Entry)
    ensures HeaderLines([e]) == ValueLines(e.name, e.values)
  {
    assert [e][..0] == [];
  }

  /** One value of a name is one line `name: value`. */
  lemma {:induction false} ValueLinesAt(name: string, values: seq<string>, j: nat)
    requires j < |values|
    ensures ValueLines(name, values) == ValueLines(name, values[..j]) + name + ": " + values[j] + "\r\n"
                                        + ValueLines(name, values[j + 1..])
  {
    assert values == values[..j] + [values[j]] + values[j + 1..];
    ValueLinesAppend(name, values[..j] + [values[j]], values[j + 1..]);
    ValueLinesAppend(name, values[..j], [values[j]]);
    assert ValueLines(name, [values[j]]) == name + ": " + values[j] + "\r\n" by {
      assert [values[j]][..0] == [];
    }
  }

  // ---------------------------------------------------------------------
  // The object

  class OutgoingMessage {
    const requestData: HttpRequestData
    const output: SocketWriter
    const headers: HttpHeaders
    var headSent: bool
    var ended: bool

    ghost predicate Valid()
      reads this, output, headers
    {
      output.Valid() && headers.Valid()
    }

    constructor(requestData: HttpRequestData, output: SocketWriter)
      requires output.Valid()
      ensures Valid() && this.requestData == requestData && this.output == output
      ensures fresh(headers) && headers.entries == [] && !headSent && !ended
    {
      this.requestData := requestData;
      this.output := output;
      headers := new HttpHeaders();
      headSent := false;
      ended := false;
    }

    /**
     * OutgoingMessage::writeHead: only once. For HTTP/0.9 it marks the head
     * sent and emits nothing; otherwise it writes the status line and the
     * headers. A failed write closes the connection.
     */
    method WriteHead(code: string, message: string) returns (error: WriteHeadError)
      requires Valid()
      modifies this`headSent, output`saved, output.buffer, output.socket
      ensures Valid() && headSent && output.socket.incoming == old(output.socket.incoming)
      ensures old(headSent) ==> error == AlreadySent && unchanged(output, output.buffer, output.socket)
      ensures !old(headSent) && requestData.httpVersion == Http09 ==>
                error == HeadOk && unchanged(output, output.buffer, output.socket)
      ensures !old(headSent) && requestData.httpVersion != Http09 ==>
                (error == HeadOk ==> output.Stream() == old(output.Stream()) + HeadText(code, message, headers.entries))
                && (error != HeadOk ==> error == HeadConnectionClosed && output.socket.closed)
                && (old(output.Healthy()) ==> error == HeadOk && output.Healthy())
      ensures old(output.Stream()) <= output.Stream()
    {
      if headSent {
        return AlreadySent;
      }
      headSent := true;
      if requestData.httpVersion == Http09 {
        return HeadOk;
      }
      var ok := WriteHeadText(code, message);
      error := if ok then HeadOk else HeadConnectionClosed;
    }

    /** The status line and then the headers, as writeHead sends them. */
    method WriteHeadText(code: string, message: string) returns (ok: bool)
      requires Valid()
      modifies output`saved, output.buffer, output.socket
      ensures Valid() && output.socket.incoming == old(output.socket.incoming)
      ensures ok ==> output.Stream() == old(output.Stream()) + HeadText(code, message, headers.entries)
      ensures !ok ==> output.socket.closed
      ensures old(output.Healthy()) ==> ok && output.Healthy()
      ensures old(output.Stream()) <= output.Stream()
    {
      var responseLine := "HTTP/1.0 " + code + " " + message + "\r\n";
      var writeError, sends, attempts := output.Write(responseLine);
      if writeError != WriteOk {
        return false;
      }
      var headersError := WriteHeaders();
      ok := headersError == Written;
    }

    /**
     * OutgoingMessage::write (both overloads): before the head is sent an
     * implicit "200 OK" head goes first; then the data.
     */
    method Write(data: seq<char>) returns (error: OutgoingWriteError)
      requires Valid()
      modifies this`headSent, output`saved, output.buffer, output.socket
      ensures Valid() && headSent && output.socket.incoming == old(output.socket.incoming)
      ensures error == Written ==>
                output.Stream() == old(output.Stream())
                                   + (if !old(headSent) && requestData.httpVersion != Http09
                                      then HeadText("200", "OK", headers.entries) else [])
                                   + data
      ensures error == NotWritten ==> output.socket.closed
      ensures old(output.Healthy()) ==> error == Written && output.Healthy()
      ensures old(output.Stream()) <= output.Stream()
    {
      if !headSent {
        var headError := WriteHead("200", "OK");
        if headError != HeadOk {
          return NotWritten;
        }
      }
      var writeError, sends, attempts := output.Write(data);
      error := if writeError == WriteOk then Written else NotWritten;
    }

    /** OutgoingMessage::end: the first call marks the message ended, then flushes; later calls do nothing. */
    method End() returns (error: EndError)
      requires Valid()
      modifies this`ended, output`saved, output.socket
      ensures Valid() && ended && output.socket.incoming == old(output.socket.incoming)
      ensures old(ended) ==> error == EndOk && unchanged(output, output.socket)
      ensures !old(ended) ==> output.Stream() == old(output.Stream())
                              && (error == EndOk ==> output.saved == 0 && output.socket.sent == old(output.Stream()))
                              && (error != EndOk ==> output.socket.closed)
                              && (old(output.Healthy()) ==> error == EndOk && output.Healthy())
      ensures !old(ended) ==>
                var n := if old(output.saved) > 0 then 1 else 0;
                output.socket.sendOutcomes == AfterSends(old(output.socket.sendOutcomes), n)
                && (error == EndOk <==> SendsGo(old(output.socket.closed), old(output.socket.sendOutcomes), n))
    {
      if ended {
        return EndOk;
      }
      ended := true;
      var flushError := Flush();
      error := if flushError == Written then EndOk else EndConnectionClosed;
    }

    /** OutgoingMessage::flush: the writer's flush. */
    method Flush() returns (error: OutgoingWriteError)
      requires Valid()
      modifies output`saved, output.socket
      ensures Valid() && output.Stream() == old(output.Stream())
      ensures output.socket.incoming == old(output.socket.incoming)
      ensures error == Written ==> output.saved == 0 && output.socket.sent == old(output.Stream())
      ensures error == NotWritten ==> output.socket.closed
      ensures old(output.Healthy()) ==> error == Written && output.Healthy()
      ensures var n := if old(output.saved) > 0 then 1 else 0;
        output.socket.sendOutcomes == AfterSends(old(output.socket.sendOutcomes), n)
        && (error == Written <==> SendsGo(old(output.socket.closed), old(output.socket.sendOutcomes), n))
    {
      var flushError := output.Flush();
      error := if flushError == FlushOk then Written else NotWritten;
    }

    /**
     * OutgoingMessage::writeHeaders: `name: value` for every value of every
     * name, in the map's order, then the empty line.
     */
    method WriteHeaders() returns (error: OutgoingWriteError)
      requires Valid()
      modifies output`saved, output.buffer, output.socket
      ensures Valid() && output.socket.incoming == old(output.socket.incoming)
      ensures error == Written ==> output.Stream() == old(output.Stream()) + HeaderLines(headers.entries) + "\r\n"
      ensures error == NotWritten ==> output.socket.closed
      ensures old(output.Healthy()) ==> error == Written && output.Healthy()
      ensures old(output.Stream()) <= output.Stream()
    {
      var entries := headers.entries;
      ghost var start := output.Stream();
      for i := 0 to |entries|
        invariant Valid() && output.socket.incoming == old(output.socket.incoming)
        invariant output.Stream() == start + HeaderLines(entries[..i])
        invariant old(output.Healthy()) ==> output.Healthy()
      {
        var ok := WriteEntry(entries[i].name, entries[i].values);
        if !ok {
          return NotWritten;
        }
        assert entries[..i + 1][..i] == entries[..i];
      }
      assert entries == entries[..|entries|];
      var writeError, sends, attempts := output.Write("\r\n");
      if writeError != WriteOk {
        return NotWritten;
      }
      error := Written;
    }

    /** The inner loop of writeHeaders: one line per value of `name`. */
    method WriteEntry(name: string, values: seq<string>) returns (ok: bool)
      requires Valid()
      modifies output`saved, output.buffer, output.socket
      ensures Valid() && output.socket.incoming == old(output.socket.incoming)
      ensures ok ==> output.Stream() == old(output.Stream()) + ValueLines(name, values)
      ensures !ok ==> output.socket.closed
      ensures old(output.Healthy()) ==> ok && output.Healthy()
      ensures old(output.Stream()) <= output.Stream()
    {
      ghost var start := output.Stream();
      for j := 0 to |values|
        invariant Valid() && output.socket.incoming == old(output.socket.incoming)
        invariant output.Stream() == start + ValueLines(name, values[..j])
        invariant old(output.Healthy()) ==> output.Healthy()
      {
        ok := WriteLine(name, values[j]);
        if !ok {
          return false;
        }
        assert values[..j + 1][..j] == values[..j];
      }
      assert values == values[..|values|];
      ok := true;
    }

    /** The four writes of one header line of writeHeaders. */
    method WriteLine(name: string, value: string) returns (ok: bool)
      requires Valid()
      modifies output`saved, output.buffer, output.socket
      ensures Valid() && output.socket.incoming == old(output.socket.incoming)
      ensures ok ==> output.Stream() == old(output.Stream()) + name + ": " + value + "\r\n"
      ensures !ok ==> output.socket.closed
      ensures old(output.Healthy()) ==> ok && output.Healthy()
      ensures old(output.Stream()) <= output.Stream()
    {
      ok := WriteTwo(name, ": ");
      if !ok {
        return false;
      }
      ok := WriteTwo(value, "\r\n");
    }

    /** Two of those writes in a row, the second only when the first went through. */
    method WriteTwo(first: string, second: string) returns (ok: bool)
      requires Valid()
      modifies output`saved, output.buffer, output.socket
      ensures Valid() && output.socket.incoming == old(output.socket.incoming)
      ensures ok ==> output.Stream() == old(output.Stream()) + first + second
      ensures !ok ==> output.socket.closed
      ensures old(output.Healthy()) ==> ok && output.Healthy()
      ensures old(output.Stream()) <= output.Stream()
    {
      var writeError, sends, attempts := output.Write(first);
      if writeError != WriteOk {
        return false;
      }
      writeError, sends, attempts := output.Write(second);
      ok := writeError == WriteOk;
    }
  }
}
