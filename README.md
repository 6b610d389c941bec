# simple_http core, modelled in Dafny

This project models the request-handling core of the simple_http library. That core consists of:

- the parsers: BaseParser's literal matching, HttpParser's request line and header line, and HttpUriParser's origin-form and absolute-form URIs;
- the header map HttpHeaders;
- the buffered socket reader and writer;
- the two message bodies, ZeroMessageBody and ContentLengthMessageBody;
- OutgoingMessage, which serialises a response head and headers;
- the HttpConnection state machine, which reads a request line, then header lines, then chooses a body;
- the file-extension to MIME type table.

Each source file is one Dafny module.

- **Parsers.** They keep the source's cursor, a `State` of an index and a malformed flag.
  - Every parse routine that loops is a method, proved equal to a recursive specification function.
  - The properties (round trips, shapes of accepted text, error conditions) are lemmas about those functions.
- **Classes.** Objects whose fields change are classes with `modifies` frames: the header map, the reader, the writer, the bodies, the outgoing message and the connection.
- **Header map.** The `std::map` of HttpHeaders is a sorted association list. Its order is `std::string`'s `operator<`, so the serialisation in OutgoingMessage follows the map's iteration order.
- **Sockets.** The operating-system socket is replaced by a scripted `Socket`. It holds:
  - the arrivals the peer will deliver;
  - the outcomes of the coming sends;
  - a record of every byte sent;
  - a closed flag.
- **Integers and characters.**
  - size_t's `-1` is `SizeMax`. FindCRLF's `length - 1` is computed modulo 2^64.
  - A Dafny `char` stands for one byte of the request, 0 to 255.
  - `IsChar` tests `c as int <= 127`. This is `symbol >= 0 && symbol <= 127` (simple_http/lib/http_parser.cc:17) whether `char` is signed or unsigned. With a signed char, bytes 128 to 255 are negative. With an unsigned char, they are above 127. Either way they fail the test.
  - `tolower`/`toupper` are ASCII only.
  - `std::stoll` and `from_chars` give the natural value of a digit string.

## Model

| member | source | states |
|---|---|---|
| BaseParser.ParseLiteral | simple_http/lib/base_parser.cc:13-33 | succeeds exactly when the text at the cursor equals the literal ignoring ASCII case; the cursor advances over the matched characters; the malformed mark is set when some but not all of the literal matched |
| BaseParser.ParseSymbol | simple_http/lib/base_parser.cc:7-11 | the one-character literal: same outcome as ParseLiteral on that character |
| BaseParser.FullMatchIsEqualIgnoringCase | simple_http/lib/base_parser.cc:17-20 | a full match of the literal means the text under the cursor equals the literal ignoring case |
| BaseParser.LiteralPresent | simple_http/lib/base_parser.cc:13-33 | conversely, text under the cursor equal to the literal ignoring case is matched in full and the cursor moves past it |
| Ascii.Lower | simple_http/lib/http_headers.cc:16-17 | std::transform with tolower: the same length, and each character mapped to its ASCII lowercase |
| Ascii.Upper | simple_http/lib/http_connection.cc:183-186 | std::transform with toupper: the same length, and each character mapped to its ASCII uppercase |
| Scanning.Span | simple_http/lib/http_parser.cc:237-241 | the end of the run of characters with a property: every character before it has it, the one at it does not |
| Scanning.StripZeros | simple_http/lib/http_parser.cc:177-190 | leading zeros dropped: a suffix of the digits, non-empty when they are, with no leading '0' unless it is "0" |
| HttpParser.SkipSpaces | simple_http/lib/http_parser.cc:237-241 | the cursor moves to the end of the run of SP at it |
| HttpParser.SkipWhiteSpaces | simple_http/lib/http_parser.cc:243-248 | the cursor moves to the end of the run of SP/HT at it |
| HttpParser.ParseToken | simple_http/lib/http_parser.cc:219-235 | the maximal run of token characters; fails exactly when the next character is not a token character or the line has ended |
| HttpParser.ParseNumber | simple_http/lib/http_parser.cc:167-193 | consumes every digit; fails exactly when there is none; the result has its leading zeros dropped |
| HttpParser.ParseHeaderValue | simple_http/lib/http_parser.cc:200-217 | always succeeds and consumes the rest of the line; the value is a prefix of it, without trailing SP/HT, followed only by SP/HT |
| HttpParser.ParseUri | simple_http/lib/http_parser.cc:121-135 | agrees with the URI scan: "/" or "http://" in any case, then up to the next SP |
| HttpParser.ParseVersion | simple_http/lib/http_parser.cc:137-165 | agrees with the version scan: "HTTP/" in any case, a number, '.', a number |
| HttpParser.ParseRequestLine | simple_http/lib/http_parser.cc:29-81 | agrees with the request-line function; a request line is produced exactly when the error is kOk |
| HttpParser.SimpleRequestRoundTrip | simple_http/lib/http_parser.cc:54-58 | "method SP+ uri" ending the line parses back to its method and URI, without a version |
| HttpParser.FullRequestRoundTrip | simple_http/lib/http_parser.cc:29-81 | "method SP+ uri SP+ HTTP/major.minor SP*" parses back to its parts, the numbers without leading zeros |
| HttpParser.MalformedMethodIff | simple_http/lib/http_parser.cc:34-38 | kMalformedMethod is reported exactly when the line is empty or does not begin with a token character |
| HttpParser.UriShape | simple_http/lib/http_parser.cc:121-135 | an accepted URI is exactly the text between the two cursors, starts with "/" or "http://", and holds no SP |
| HttpParser.RequestLineParts | simple_http/lib/http_parser.cc:29-81 | a parsed method is a token prefix of the line, the URI has no SP, and an HTTP/0.9 line ends with its URI |
| HttpParser.UriHead | simple_http/lib/http_parser.cc:121-129 | the literal "/" or "http://" spans a URI start without SP |
| HttpParser.UriTail | simple_http/lib/http_parser.cc:130-134 | the rest of the URI up to the next SP keeps that shape |
| HttpParser.ParseRequestHeader | simple_http/lib/http_parser.cc:83-114 | agrees with the header-line function; the caller's error variable is assigned only on failure |
| HttpParser.HeaderFailsIff | simple_http/lib/http_parser.cc:83-114 | a header line fails exactly when it does not start with a token immediately followed by ':'; failure and assigning an error go together; kMalformedValue is never reported |
| HttpParser.HeaderRoundTrip | simple_http/lib/http_parser.cc:83-114 | "name:" then SP/HT then a value parses back to the name and the value without its trailing SP/HT |
| HttpParser.TrimEnd | simple_http/lib/http_parser.cc:200-217 | the trimmed text is a prefix ending in a non-white character, and only SP/HT follow it |
| HttpUriParser.ParseEncodedSymbol | simple_http/lib/http_uri_parser.cc:331-345 | succeeds exactly on '%' followed by two hex digits, and then moves three places |
| HttpUriParser.ScanRun | simple_http/lib/http_uri_parser.cc:194-220 | the loop shared by parseHostname, parseSegment and parseQuery agrees with its recursive definition |
| HttpUriParser.RunEncoded | simple_http/lib/http_uri_parser.cc:194-220 | what that loop takes, when not malformed, is allowed characters and percent escapes, and it stops at a character that is neither |
| HttpUriParser.ParseHostname | simple_http/lib/http_uri_parser.cc:194-220 | agrees with the hostname scan |
| HttpUriParser.HostnameShape | simple_http/lib/http_uri_parser.cc:194-220 | an accepted host name is the text between the cursors; it starts with a non-digit and is encoded host characters |
| HttpUriParser.ParseDecimal | simple_http/lib/http_uri_parser.cc:177-192 | agrees with the decimal scan |
| HttpUriParser.ParseIPv4Address | simple_http/lib/http_uri_parser.cc:131-175 | agrees with the IPv4 scan |
| HttpUriParser.ParseOctet | simple_http/lib/http_uri_parser.cc:140-172 | agrees with the octet scan inside the address loop |
| HttpUriParser.OctetSound | simple_http/lib/http_uri_parser.cc:140-172 | an accepted octet is the text it spans, and a decimal from 0 to 255 without a leading zero |
| HttpUriParser.OctetAt | simple_http/lib/http_uri_parser.cc:140-172 | conversely, such a decimal not followed by a digit is accepted as exactly that octet |
| HttpUriParser.IPv4Sound | simple_http/lib/http_uri_parser.cc:131-175 | an accepted address is four decimal octets (0 to 255, no leading zero) joined by '.' |
| HttpUriParser.IPv4At | simple_http/lib/http_uri_parser.cc:131-175 | conversely, four decimal octets joined by '.' and not followed by a digit are accepted as that address |
| HttpUriParser.ParsePort | simple_http/lib/http_uri_parser.cc:222-265 | agrees with the port scan |
| HttpUriParser.ScanPortDigits | simple_http/lib/http_uri_parser.cc:222-250 | the digit loop of parsePort: ends after the digit run and keeps the digits after the leading zeros |
| HttpUriParser.PortShape | simple_http/lib/http_uri_parser.cc:222-265 | an accepted port is the digit run at the cursor, without leading zeros, at most 5 digits, value at most 65535 |
| HttpUriParser.EmptyPortMalformed | simple_http/lib/http_uri_parser.cc:96-103 | a ':' after the host with no digit after it makes the URI malformed |
| HttpUriParser.ParseSegment | simple_http/lib/http_uri_parser.cc:284-303 | scans segment characters and percent escapes; reports whether the scan was well formed and consumed something |
| HttpUriParser.ParseAbsolutePath | simple_http/lib/http_uri_parser.cc:267-282 | agrees with the path scan |
| HttpUriParser.SegmentsShape | simple_http/lib/http_uri_parser.cc:267-282 | the segment loop takes nothing without a '/', and otherwise '/' and encoded path characters up to the first character a path cannot hold |
| HttpUriParser.AbsolutePathShape | simple_http/lib/http_uri_parser.cc:267-282 | an accepted path is the text between the cursors, an absolute path, and stops before the first character a path cannot hold |
| HttpUriParser.SegmentsOver | simple_http/lib/http_uri_parser.cc:267-303 | conversely, an absolute path followed by a character a path cannot hold is scanned exactly to its end |
| HttpUriParser.ParseQuery | simple_http/lib/http_uri_parser.cc:305-329 | agrees with the query scan |
| HttpUriParser.QueryShape | simple_http/lib/http_uri_parser.cc:305-329 | an accepted query follows a '?', is the text between the cursors after it, and is encoded query characters |
| HttpUriParser.NoQuery | simple_http/lib/http_uri_parser.cc:305-329 | without a '?' there is no query and the cursor stays |
| HttpUriParser.ParseAbsoluteUri | simple_http/lib/http_uri_parser.cc:72-129 | agrees with the absolute-form function |
| HttpUriParser.ParseAfterPort | simple_http/lib/http_uri_parser.cc:105-126 | agrees with the function for the part after the port |
| HttpUriParser.ParseUri | simple_http/lib/http_uri_parser.cc:39-70 | agrees with UriOf: the absolute form, else the origin form unless the absolute attempt left the cursor malformed |
| HttpUriParser.AbsoluteFailsCleanly | simple_http/lib/http_uri_parser.cc:39-70 | an absolute attempt that fails without the malformed mark leaves the cursor where it began |
| HttpUriParser.AbsoluteHasHost | simple_http/lib/http_uri_parser.cc:72-129 | an absolute-form URI always has a host |
| HttpUriParser.OriginForm | simple_http/lib/http_uri_parser.cc:50-69 | a URI without host has no port, has an absolute path, and has an encoded query when it has one |
| HttpUriParser.OriginRoundTrip | simple_http/lib/http_uri_parser.cc:50-69 | an absolute path, with an optional '?' and encoded query, parses back to that path and query |
| HttpUriParser.AfterPortShape | simple_http/lib/http_uri_parser.cc:105-126 | after the port, the rest of the line is exactly the path and query of the result |
| HttpUriParser.AfterHostShape | simple_http/lib/http_uri_parser.cc:96-126 | after the host: nothing or ':' and port digits, then the path and query, and nothing else |
| HttpUriParser.AbsoluteForm | simple_http/lib/http_uri_parser.cc:72-129 | an absolute URI is "http://" in any case, a host (IPv4 address or encoded host name), optional ':' and port, optional path and query, and nothing else |
| HttpUriParser.AbsoluteRoundTrip | simple_http/lib/http_uri_parser.cc:72-129 | conversely, "http://" in any case, then a dotted IPv4 address or a host name that does not start with a digit, an optional ':' and port of value at most 65535, an optional absolute path and an optional encoded query is accepted and parses back to the host, the port without its leading zeros, the path and the query |
| HttpUriParser.IPv4HostAt | simple_http/lib/http_uri_parser.cc:76-86 | "http://" then four dotted dec-octets and a ':', '/', '?' or the end: the address is taken as the host |
| HttpUriParser.QuadFrom | simple_http/lib/http_uri_parser.cc:131-192 | four dotted dec-octets not followed by a digit are read as the IPv4 address |
| HttpUriParser.NameHostAt | simple_http/lib/http_uri_parser.cc:76-93 | "http://" then a host name that does not start with a digit: the IPv4 parse yields nothing and the name is taken as the host |
| HttpUriParser.AfterHostAt | simple_http/lib/http_uri_parser.cc:96-128 | after the host, an optional ':' and port and an optional path and query that end the line are accepted with exactly those parts |
| HttpUriParser.PortAt | simple_http/lib/http_uri_parser.cc:222-265 | digits of value at most 65535, followed by no digit, are read as the port without its leading zeros |
| HttpUriParser.AfterPortAt | simple_http/lib/http_uri_parser.cc:105-128 | after the port, an optional absolute path and an optional encoded query that end the line are accepted with exactly those parts |
| HttpUriParser.UriIsAbsolute | simple_http/lib/http_uri_parser.cc:39-70 | a URI with a host came from the absolute form |
| HttpUriParser.StripZerosValue | simple_http/lib/http_uri_parser.cc:222-265 | dropping leading zeros keeps a digit string's value |
| HttpHeaders.HttpHeaders.Add | simple_http/lib/http_headers.cc:14-39 | the value goes last in the list under the lowercased name, which is created when missing; every other name keeps its list; the map stays sorted and well formed |
| HttpHeaders.HttpHeaders.Get | simple_http/lib/http_headers.cc:41-49 | finds a list exactly when an entry has exactly that name, and then it is that entry's list |
| HttpHeaders.HttpHeaders.constructor | simple_http/lib/http_headers.h:35 | a header map starts empty |
| HttpHeaders.Find | simple_http/lib/http_headers.cc:41-49 | finds a list exactly when some entry has the name, and it is that entry's list |
| HttpHeaders.SortedFind | simple_http/lib/http_headers.h:35 | in a map with keys in ascending order, find gives the list stored with a key |
| HttpHeaders.LessTotal | simple_http/lib/http_headers.h:35 | any two different names are ordered one way or the other |
| HttpHeaders.LessTransitive | simple_http/lib/http_headers.h:35 | the key order is transitive |
| HttpHeaders.InsertSorted | simple_http/lib/http_headers.cc:26 | insert keeps the keys ascending |
| HttpHeaders.InsertFind | simple_http/lib/http_headers.cc:26 | a name that was absent gets the inserted list |
| HttpHeaders.InsertOther | simple_http/lib/http_headers.cc:26 | insert leaves every other name's list alone |
| HttpHeaders.PushBackFind | simple_http/lib/http_headers.cc:20-22 | push_back puts the value last in that name's list |
| HttpHeaders.PushBackOther | simple_http/lib/http_headers.cc:20-22 | push_back leaves every other name's list alone |
| HttpHeaders.NotLowerNotFound | simple_http/lib/http_headers.cc:14-27 | a name with a capital letter is never found in a map that add has built |
| HttpHeaders.GetIsCaseSensitive | simple_http/lib/http_headers.cc:41-49 | after adding Content-Length, get finds it under "content-length" and not under "Content-Length" |
| Sockets.Socket.Read | simple_http/lib/socket.h:43 | the next arrival, cut to the room given (the rest stays queued), zero bytes once the peer has nothing more, or a failure |
| Sockets.Socket.constructor | simple_http/lib/socket.h:39 | a socket is open and has sent nothing |
| Sockets.Receive | simple_http/lib/socket.h:43 | a read never returns more than the room given, and a failed read returns no bytes |
| Sockets.Socket.Send | simple_http/lib/socket.h:45 | all the data goes out or none does; a closed socket sends nothing |
| Sockets.Socket.Close | simple_http/lib/socket.h:49 | the socket is closed |
| Sockets.Copy | simple_http/lib/socket_writer.cc:32 | std::copy: the destination holds the source at the offset and is unchanged elsewhere |
| SocketWriter.SocketWriter.Write | simple_http/lib/socket_writer.cc:17-47 | on success the stream grows by the data and the buffer is not full; on failure the socket is closed and what was written is a prefix of the intended stream; it fails exactly when one of the sends it tried does not go through (the socket was closed, or that send was scripted to fail), and then it was the last send tried; each send tried uses up one scripted outcome; a healthy socket always succeeds; the socket only receives whole buffers |
| SocketWriter.SocketWriter.Put | simple_http/lib/socket_writer.cc:26-43 | one pass of write's loop: the chunk joins the stream; a buffer that becomes full is sent, using up one scripted outcome; the pass goes through exactly when every send so far has |
| SocketWriter.SocketWriter.Flush | simple_http/lib/socket_writer.cc:49-62 | keeps the stream; an empty buffer sends nothing; otherwise the buffered bytes go out in one send and the buffer empties, or the send fails, the socket closes and the buffer is kept; with bytes buffered it fails exactly when the socket was closed or the next send was scripted to fail, and that send's outcome is used up |
| Sockets.OneMoreSend | simple_http/lib/socket_writer.cc:38-43 | after n sends that went through, the next send goes through exactly when all n + 1 do, and it uses up the next outcome |
| Sockets.SendsGoNext | simple_http/lib/socket_writer.cc:25-44 | n + 1 sends go through exactly when the first n do and then the next one does |
| SocketWriter.SocketWriter.Append | simple_http/lib/socket_writer.cc:32 | the chunk goes into the buffer after the saved bytes, and the stream grows by it |
| SocketWriter.SocketWriter.constructor | simple_http/lib/socket_writer.h:19-20 | the writer sits on its socket and buffer with nothing buffered |
| SocketReader.SocketReader.Read | simple_http/lib/socket_reader.cc:7-24 | the socket fills the room after the received bytes; the result is the whole accumulated buffer, complete exactly when the read got no bytes; on an error nothing is kept and the result is empty; result, error and the socket's input left are exactly ReaderRead of the bytes held before and the socket's input |
| SocketReader.ReaderRead | simple_http/lib/socket_reader.cc:7-24 | what one read gives from the bytes held and the socket's input: on success the held bytes come first, the data fits the buffer and is complete exactly when nothing new came; on an error an empty result; the socket's input never grows |
| SocketReader.SocketReader.Advance | simple_http/lib/socket_reader.cc:26-36 | past the received bytes it fails and changes nothing; otherwise the bytes after the consumed ones move to the front and the rest of the buffer is unchanged |
| SocketReader.SocketReader.AdvanceDropping | simple_http/lib/socket_reader.cc:26-36 | advance with the received count lowered by the bytes consumed: past the received bytes it fails and changes nothing; otherwise the unconsumed bytes move to the front and are exactly what the reader holds |
| SocketReader.SocketReader.constructor | simple_http/lib/socket_reader.h:44-45 | the reader sits on its socket and buffer with nothing received |
| SocketReader.Shifted | simple_http/lib/socket_reader.cc:26-36 | the buffer after advance: the unconsumed bytes at the front, the rest as it was, the same length |
| SocketReader.AdvanceRepeatsTail | simple_http/lib/socket_reader.cc:26-36 | because the received count is kept, the data after advance(k) ends with k bytes already seen before |
| ZeroMessageBody.ZeroMessageBody.Read | simple_http/lib/zero_message_body.cc:12-27 | 0 with kOk when the reader reports no bytes; size_t's -1 with a connection error or bad syntax otherwise |
| ZeroMessageBody.EmptyBodyOutcome | simple_http/lib/zero_message_body.cc:12-27 | kOk exactly when the read succeeds and nothing is held; kConnectionClosed exactly when the read fails |
| ZeroMessageBody.ZeroMessageBody.Consume | simple_http/lib/zero_message_body.cc:29-33 | the error of one read |
| ZeroMessageBody.ZeroMessageBody.constructor | simple_http/lib/zero_message_body.h:16 | the body reads from the given reader |
| ContentLengthMessageBody.ContentLengthMessageBody.Read | simple_http/lib/content_length_message_body.cc:13-52 | read's passes over the reader results it got, each made while the loop was still going: the error is the pass that stopped the loop (kConnectionClosed after a failed read; kBadSyntax on a result longer than the remainder, or completed and shorter), otherwise kOk with the room or the body used up; the buffer holds the bytes copied and nothing after them changes; the bytes copied are taken off the remainder; size_t's -1 on an error; no reader call when nothing is asked or nothing remains; and the results it got, the socket's input left and the bytes the reader then holds are exactly what ReadRun gives from the remainder, the length asked, the bytes the reader held and the socket's input at the call |
| ContentLengthMessageBody.ReadRun | simple_http/lib/content_length_message_body.cc:16-48 | read's loop run against the reader: it asks the reader nothing exactly when nothing is asked or nothing remains, and takes only from the socket's input |
| ContentLengthMessageBody.ReadRunFrom | simple_http/lib/content_length_message_body.cc:16-48 | the loop from a given result on: that result comes first and the loop goes on only while read's pass lets it |
| ContentLengthMessageBody.WholeBodyInOneRead | simple_http/lib/content_length_message_body.cc:13-52 | a body that arrives whole in one read, with room for it, is read in one call with one reader result and nothing left on the socket or in the reader |
| ContentLengthMessageBody.ContentLengthMessageBody.ReadLoop | simple_http/lib/content_length_message_body.cc:16-48 | the while loop of read: it ends when the room or the body is used up or a pass stops it, the results it got are those ReadRun predicts, and the buffer after the bytes copied is unchanged |
| ContentLengthMessageBody.ContentLengthMessageBody.ReadStep | simple_http/lib/content_length_message_body.cc:17-47 | one pass of the loop: a piece that goes on takes at least one byte, at most the room, off the remainder, and the results so far, with this one, still agree with ReadRun |
| ContentLengthMessageBody.ReadSoFarStep | simple_http/lib/content_length_message_body.cc:17-47 | one more reader result, judged by read's pass, keeps the results so far agreeing with ReadRun |
| ContentLengthMessageBody.ContentLengthMessageBody.Consume | simple_http/lib/content_length_message_body.cc:54-75 | consume's passes over the reader results it got, each made while the loop was still going: the error is the pass that stopped the loop, and kOk exactly when nothing remains; no reader call when nothing remained; and the results it got, the socket's input left and the bytes the reader then holds are exactly what ConsumeRun gives from the remainder, the bytes the reader held and the socket's input at the call |
| ContentLengthMessageBody.ConsumeRun | simple_http/lib/content_length_message_body.cc:54-75 | consume's loop run against the reader: it asks the reader nothing exactly when nothing remains, and takes only from the socket's input |
| ContentLengthMessageBody.ConsumeRunFrom | simple_http/lib/content_length_message_body.cc:54-75 | the loop from a given result on: that result comes first and the loop goes on only while consume's pass lets it |
| ContentLengthMessageBody.ContentLengthMessageBody.ConsumeStep | simple_http/lib/content_length_message_body.cc:55-71 | one pass of consume's loop: a pass that goes on lowers the remainder, and the results so far, with this one, still agree with ConsumeRun |
| ContentLengthMessageBody.ContentLengthMessageBody.ConsumePiece | simple_http/lib/content_length_message_body.cc:55-71 | one read, exactly ReaderRead on the reader's state, judged as consume's pass judges it; a pass that goes on lowers the remainder and leaves the reader holding nothing |
| ContentLengthMessageBody.ConsumeSoFarStep | simple_http/lib/content_length_message_body.cc:55-71 | one more reader result, judged by consume's pass, keeps the results so far agreeing with ConsumeRun |
| ContentLengthMessageBody.CopyPiece | simple_http/lib/content_length_message_body.cc:42 | one more piece is copied after the pieces already in the buffer |
| ContentLengthMessageBody.ContentLengthMessageBody.constructor | simple_http/lib/content_length_message_body.h:16-17 | the body reads from the given reader and has its whole length left |
| ContentLengthMessageBody.ContentLengthMessageBody.ReadPiece | simple_http/lib/content_length_message_body.cc:17-47 | one pass of the read loop: one read from the reader, exactly ReaderRead on the reader's state, whose result is judged as ReadPass judges it: kConnectionClosed when the read fails; kBadSyntax when the result is longer than the remainder, or completed and shorter; otherwise at least one leading byte, as many as fit the room, is copied after the earlier pieces, advanced past and counted off the remainder, and the rest of the result is what the reader holds at the front of its buffer; the break on an empty completed result is never taken while bytes remain |
| ContentLengthMessageBody.ReadPasses | simple_http/lib/content_length_message_body.cc:16-48 | the passes keep count: the bytes copied plus the bytes still to come are the old remainder, and the bytes copied plus the room left are the length asked |
| ContentLengthMessageBody.ReadPassNeverBreaks | simple_http/lib/content_length_message_body.cc:29-36 | the break on a completed, empty result is never taken while bytes remain, because that result is already bad syntax |
| ContentLengthMessageBody.ReadVerdict | simple_http/lib/content_length_message_body.cc:16-51 | read's verdict from the last result it got: kConnectionClosed exactly when that read failed; kBadSyntax exactly when that result was longer than what remained, or completed and shorter; otherwise the room or the body is used up; no result at all only when nothing was asked or nothing remained |
| ContentLengthMessageBody.ConsumeCounts | simple_http/lib/content_length_message_body.cc:55-71 | while consume goes on, the bytes of every successful result have been counted off the remainder |
| ContentLengthMessageBody.ConsumeVerdict | simple_http/lib/content_length_message_body.cc:54-75 | consume's verdict: kOk exactly when the successful results add up to the remainder; kConnectionClosed exactly when the last read failed; kBadSyntax exactly when its result was longer than what remained, or completed and shorter; no result at all exactly when nothing remained |
| ContentLengthMessageBody.KeptCountRefusesBodyAsWritten | simple_http/lib/content_length_message_body.cc:24-44 | with advance keeping the received count, a body that arrives in one read and is read in two calls is refused as bad syntax on the second call; with the count lowered, the same second read is accepted |
| OutgoingMessage.OutgoingMessage.WriteHead | simple_http/lib/outgoing_message.cc:10-34 | at most once (kAlreadySent later); nothing is written for HTTP/0.9; otherwise the stream grows by the status line, the header lines in map order and the empty line |
| OutgoingMessage.OutgoingMessage.Write | simple_http/lib/outgoing_message.cc:36-55 | an implicit "200 OK" head first when none was sent, then the data; failure closes the socket; a healthy socket succeeds |
| OutgoingMessage.OutgoingMessage.End | simple_http/lib/outgoing_message.cc:57-68 | the first call flushes and keeps the stream; with bytes buffered it fails exactly when the socket was closed or the next send was scripted to fail, and that send's outcome is used up; later calls do nothing |
| OutgoingMessage.OutgoingMessage.Flush | simple_http/lib/outgoing_message.cc:70-76 | the writer's flush: everything written reaches the socket, or the socket is closed; with bytes buffered it fails exactly when the socket was closed or the next send was scripted to fail, and that send's outcome is used up |
| OutgoingMessage.OutgoingMessage.WriteHeaders | simple_http/lib/outgoing_message.cc:78-113 | the stream grows by one "name: value" line per value, entries in map order, then the empty line |
| OutgoingMessage.OutgoingMessage.WriteEntry | simple_http/lib/outgoing_message.cc:83-104 | the lines of one name, one per value, in order |
| OutgoingMessage.OutgoingMessage.WriteLine | simple_http/lib/outgoing_message.cc:83-104 | one header line "name: value" CR LF |
| OutgoingMessage.OutgoingMessage.WriteTwo | simple_http/lib/outgoing_message.cc:83-104 | two writes in a row: the stream grows by both, or the socket is closed |
| OutgoingMessage.OutgoingMessage.WriteHeadText | simple_http/lib/outgoing_message.cc:22-33 | the status line, the header lines in map order and the empty line are written, or the socket is closed; a healthy socket succeeds |
| OutgoingMessage.OutgoingMessage.constructor | simple_http/lib/outgoing_message.h:38-39 | a response starts with an empty header map, no head sent and not ended |
| OutgoingMessage.HeaderLinesAppend | simple_http/lib/outgoing_message.cc:78-113 | the lines of consecutive entries are the lines of each part, one after the other |
| OutgoingMessage.ValueLinesAppend | simple_http/lib/outgoing_message.cc:83-104 | the lines of consecutive values of a name are the lines of each part, one after the other |
| OutgoingMessage.HeaderLinesOne | simple_http/lib/outgoing_message.cc:78-113 | one entry is written as the lines of its values |
| OutgoingMessage.HeaderLinesAt | simple_http/lib/outgoing_message.cc:78-113 | the lines of entry i follow the lines of the entries before it |
| OutgoingMessage.ValueLinesAt | simple_http/lib/outgoing_message.cc:83-104 | value j of a name is written as the line after the lines of the values before it |
| Mime.GetMimeType | simple_http/lib/utils.cc:31-73 | always a media type; the default exactly when the extension is not in the table |
| Mime.KnownTypesAreMediaTypes | simple_http/lib/utils.cc:32-65 | every type in the table is a media type and differs from the default |
| Mime.JpegSpellings | simple_http/lib/utils.cc:40-41 | .jpg and .jpeg both give image/jpeg |
| Mime.LookupIsCaseSensitive | simple_http/lib/utils.cc:67-72 | the lookup does not fold case: every extension with an upper-case letter gets the default; ".HTML" gets the default while ".html" gets text/html |
| Mime.KeysAreLowerCase | simple_http/lib/utils.cc:32-65 | every extension in the table is lower case |
| Mime.LookupNeedsDot | simple_http/lib/utils.cc:67-72 | the extension is looked up with its '.' |
| HttpConnection.FindCrlf | simple_http/lib/http_connection.cc:23-31 | the least index of CR followed by LF, or size_t's -1 when there is none |
| HttpConnection.FindCrlfAsWrittenOverruns | simple_http/lib/http_connection.cc:23-31 | for an empty result the bound `buffer_length - 1` wraps to size_t's maximum, so the loop admits i = 0 although neither buffer[0] nor buffer[1] exists |
| HttpConnection.FindCrlfBoundAgrees | simple_http/lib/http_connection.cc:23-31 | for a non-empty result the bound as written, `i < buffer_length - 1`, holds exactly when `i + 1 < buffer_length`, the bound FindCrlf uses |
| HttpConnection.IsEqualsCaseInsensitive | simple_http/lib/http_connection.cc:33-46 | equal lengths and equal characters after ASCII tolower |
| HttpConnection.IgnoreCaseUpper | simple_http/lib/http_connection.cc:33-46 | matching a word of capitals ignoring case is upper-casing to it |
| HttpConnection.VersionOfIff | simple_http/lib/http_connection.cc:159-176 | no version is HTTP/0.9; exactly "1"."0" is HTTP/1.0 and "1"."1" is HTTP/1.1; kNone never results |
| HttpConnection.VersionByValue | simple_http/lib/http_connection.cc:159-176 | with leading zeros stripped by the parser, the version is decided by the numbers' values: only 1.0 and 1.1 are accepted |
| HttpConnection.MethodOfShape | simple_http/lib/http_connection.cc:178-202 | HTTP/0.9 takes GET only; HTTP/1.x takes any method; the recorded name is the upper-cased method; kCustom exactly for names other than GET, HEAD and POST |
| HttpConnection.UriPathIsAbsolute | simple_http/lib/http_connection.cc:204-221 | every path recorded from a parsed URI starts with '/' |
| HttpConnection.RequestLineAccepted | simple_http/lib/http_connection.cc:157-224 | a request line is accepted exactly when its version, method and URI are; then the fields hold them, and the state is kParsed for HTTP/0.9 and kHeaders otherwise; a bad version changes nothing |
| HttpConnection.RequestLineStepConsumes | simple_http/lib/http_connection.cc:127-155 | an accepted request line advances the reader past the line and its CR LF and nothing more |
| HttpConnection.RequestLineStepWaits | simple_http/lib/http_connection.cc:127-155 | data without CR LF is kept whole for the next read and changes nothing; once the peer has finished it is a bad request |
| HttpConnection.RequestLineStepCalls | simple_http/lib/http_connection.cc:127-155 | the reader is called exactly when the step succeeds |
| HttpConnection.RequestLineStepForward | simple_http/lib/http_connection.cc:157-224 | the state stays or moves to kHeaders or kParsed |
| HttpConnection.HeaderRejectedAsWritten | simple_http/lib/http_connection.cc:245-250 | with the error variable left uninitialised, a well-formed header line can be rejected |
| HttpConnection.HeaderAcceptedIff | simple_http/lib/http_connection.cc:226-260 | with the variable set to kOk first, a header line is accepted exactly when it parses |
| HttpConnection.HeaderStepShape | simple_http/lib/http_connection.cc:226-260 | the empty line ends the headers; any other accepted line hands over exactly the header parsed from it and keeps the state; the reader is called exactly on success |
| HttpConnection.ContentLengthValue | simple_http/lib/http_connection.cc:285-300 | a value of more than 8 characters, with a non-digit, or empty is refused; otherwise its natural value |
| HttpConnection.EmptyContentLengthThrowsAsWritten | simple_http/lib/http_connection.cc:290-300 | as written, an empty value reaches std::stoll and throws; every other value is judged the same as in ContentLengthValue |
| HttpConnection.BodyOfContentLength | simple_http/lib/http_connection.cc:270-315 | a body of n bytes comes exactly from one value of 1 to 8 digits with value n > 0 in an HTTP/1.x request; a bad request exactly for several values or a refused one |
| HttpConnection.ContentLengthRoundTrip | simple_http/lib/http_connection.cc:270-315 | a Content-Length from 1 to 99999999, written in decimal, gives a body of that length |
| HttpConnection.DecimalValue | simple_http/lib/http_connection.cc:300 | the decimal text of n has value n |
| HttpConnection.ContentLengthNeverFoundAsWritten | simple_http/lib/http_connection.cc:277 | looking up "Content-Length" in a map built by add never finds it, so every body is a zero body |
| HttpConnection.ContentLengthFound | simple_http/lib/http_connection.cc:277 | looked up as "content-length", a header added as Content-Length: 12 gives a 12-byte body |
| HttpConnection.HttpConnection.ProcessRequestHead | simple_http/lib/http_connection.cc:48-72 | starting in kRequestLine, the new request fields, state, headers and reader calls are those of HeadRun over the reader's results, and the outcome is HeadOutcome: kOk with the body that Content-Length decides; kConnectionClosed only after a failed read; kBadSyntax with a 400 response and a closed socket on a parse error or a refused body; none when the results run out first; never kHandlerException; the socket is untouched unless the outcome is kBadSyntax |
| HttpConnection.HttpConnection.ReadAndParse | simple_http/lib/http_connection.cc:53-66 | a read error stops with kConnectionClosed and changes nothing; a parse error sends 400 and stops with kBadSyntax; the state never moves back |
| HttpConnection.HttpConnection.ParseHead | simple_http/lib/http_connection.cc:53-66 | the do-while loop: the new request fields, state, headers, stop and reader calls are those of HeadRun; a 400 response is sent and the socket closed exactly when the loop stops with kBadSyntax |
| HttpConnection.HttpConnection.FinishHead | simple_http/lib/http_connection.cc:68-71 | takeMessageBody after the loop: the outcome is HeadOutcome of the parsed head; on success the body is the one the content-length header decides; on failure a 400 response is sent and the socket closed |
| HttpConnection.HeadRunFacts | simple_http/lib/http_connection.cc:53-66 | the loop makes at most one reader call per result; it stops only with kConnectionClosed, after a failed read, or with kBadSyntax; a run whose results ran out before the head was parsed read them all without error |
| HttpConnection.GetHeadParses | simple_http/lib/http_connection.cc:48-72 | "GET <path> HTTP/1.0" with CR LF, then an empty line: the first pass advances past the request line, the second ends the headers, and the request is accepted with a zero-length body |
| HttpConnection.HttpConnection.ParseRequest | simple_http/lib/http_connection.cc:113-125 | dispatches on the state to the request-line or header step; kParsed is kOk and kInitial a bad request, both changing nothing |
| HttpConnection.HttpConnection.TakeRequestLine | simple_http/lib/http_connection.cc:127-155 | fields, state, error and reader call are those of the request-line step |
| HttpConnection.HttpConnection.ProcessRequestLine | simple_http/lib/http_connection.cc:157-224 | fields, state and error are those ApplyRequestLine gives, each field set in the order the code sets it |
| HttpConnection.HttpConnection.TakeHeader | simple_http/lib/http_connection.cc:226-260 | state, error and reader call are those of the header step, and the header map gets the header it hands over |
| HttpConnection.HttpConnection.ProcessHeader | simple_http/lib/http_connection.cc:262-268 | the header is added to the request's headers |
| HttpConnection.HttpConnection.TakeMessageBody | simple_http/lib/http_connection.cc:270-315 | the body and length are those BodyOf gives for the version and the "content-length" values; a bad request changes neither |
| HttpConnection.HttpConnection.SendBadRequest | simple_http/lib/http_connection.cc:317-325 | for HTTP/1.x, everything written and then the 400 response reach a healthy socket; nothing is written for other versions; the socket is closed |
| HttpConnection.HttpConnection.SendInternalError | simple_http/lib/http_connection.cc:327-335 | the same with the 500 response |
| HttpConnection.HttpConnection.SendError | simple_http/lib/http_connection.cc:317-335 | the part both senders share: the response is written and flushed only for HTTP/1.x, and the socket is closed in every case |
| HttpConnection.HttpConnection.constructor | simple_http/lib/http_connection.h:34-35 | a connection starts in kInitial with a fresh request of version kNone and no headers |
| HttpRequestData.HttpRequestData.constructor | simple_http/lib/http_request_data.h:17-27 | a request starts with version kNone, no body and an empty header map |

## Left out

- proccessRequest after the body is chosen (simple_http/lib/http_connection.cc:73-110) is not modelled. This is the part that calls the handler, catches its exceptions and consumes the body. The handler is foreign code, and exceptions have no Dafny counterpart.
- The reader-result loop does not drive a real SocketReader. ProcessRequestHead takes the reader's results as a script and returns the calls it would make on the reader (`ReaderCall`).
- The server, the thread pool, IncomingMessage, socket setup (bind, listen, accept, timeouts) and the I/O helpers are not part of this model. Socket is a scripted peer, not the operating-system socket.
- The two-argument `SocketReader::advance` is declared (simple_http/lib/socket_reader.h:49) but has no definition. The connection's call to it is recorded as `AdvanceKeeping(0, length)`.
- HttpRequestData is left uninitialised in the source. The model starts the version at kNone, the body at none and the text fields empty.
- kLimitsExceeded is declared and never returned. It is kept in the error type.
- SocketReader::read assigns kUnknown, and the writer's errors use kConnectionClosed; the enums do not declare these names. They are modelled as one failure value each.
- The copying and moving overloads of add, and the string and buffer overloads of write, do the same thing and are merged.
- SocketWriter.SocketWriter.constructor: requires a non-empty buffer, which the source does not check. With an empty buffer, write would loop for ever.
- MaxLengthDigits is 8, sizeof(size_t) on 64-bit targets.
- The two bodies use AdvanceDropping, the advance that lowers the received count (see Findings). The advance as written is modelled as SocketReader.SocketReader.Advance.
- SocketWriter.SocketWriter.Write states the exact new stream only on success. On failure it states a prefix and a closed socket; the number of bytes the failed send had taken is left open.
- OutgoingMessage.OutgoingMessage.Write: on failure it states a prefix and a closed socket, not which of its sends failed or how many scripted send outcomes were used up; the writer's Write and Flush state that.
- OutgoingMessage.OutgoingMessage.WriteHead: on failure it states a prefix and a closed socket, not which of its sends failed or how many scripted send outcomes were used up; the writer's Write and Flush state that.
- OutgoingMessage.OutgoingMessage.WriteHeadText: on failure it states a prefix and a closed socket, not which of its sends failed or how many scripted send outcomes were used up; the writer's Write and Flush state that.
- OutgoingMessage.OutgoingMessage.WriteHeaders: on failure it states a prefix and a closed socket, not which of its sends failed or how many scripted send outcomes were used up; the writer's Write and Flush state that.
- OutgoingMessage.OutgoingMessage.WriteEntry: on failure it states a prefix and a closed socket, not which of its sends failed or how many scripted send outcomes were used up; the writer's Write and Flush state that.
- OutgoingMessage.OutgoingMessage.WriteLine: on failure it states a prefix and a closed socket, not which of its sends failed or how many scripted send outcomes were used up; the writer's Write and Flush state that.
- OutgoingMessage.OutgoingMessage.WriteTwo: on failure it states a prefix and a closed socket, not which of its sends failed or how many scripted send outcomes were used up; the writer's Write and Flush state that.

## Findings

| source | as written | input that shows it | evidently intended | confidence | as-written member | corrected member |
|---|---|---|---|---|---|---|
| simple_http/lib/http_connection.cc:277 | takeMessageBody looks up "Content-Length", but add stores names lowercased | any request with a `Content-Length: 12` header: the lookup fails and the body is a zero body | look the header up as "content-length" | not executed | HttpConnection.ContentLengthNeverFoundAsWritten | HttpConnection.HttpConnection.TakeMessageBody |
| simple_http/lib/http_connection.cc:23-31 | the loop bound `buffer_length - 1` is unsigned and wraps for an empty result | a reader result of length 0, for example a peer that closes at once: the loop reads buffer[0] and buffer[1] | loop while `i + 1 < buffer_length` | not executed | HttpConnection.FindCrlfAsWrittenOverruns | HttpConnection.FindCrlf |
| simple_http/lib/http_connection.cc:290-300 | an empty Content-Length value passes the digit loop and reaches std::stoll | `Content-Length:` with an empty value, once the lookup of the first row uses the lowercased name (as written, the lookup never finds the header, so this line is not reached): std::stoll("") throws std::invalid_argument | refuse an empty value as a bad request | not executed | HttpConnection.EmptyContentLengthThrowsAsWritten | HttpConnection.ContentLengthValue |
| simple_http/lib/http_connection.cc:245-250 | the error variable passed to parseRequestHeader is not initialised, and a success leaves it unassigned | the well-formed header line `a:b` while the variable holds kMalformedName | initialise the variable to kOk | not executed | HttpConnection.HeaderRejectedAsWritten | HttpConnection.HeaderAcceptedIff |
| simple_http/lib/socket_reader.cc:26-36 | advance moves the unconsumed bytes to the front but leaves received_bytes_ as it was, so the next read reports the consumed bytes' count again, with stale bytes at the end | a 10-byte Content-Length body arriving in one segment, read by a caller with room for 4: the first read takes 4 bytes; the next read reports all 10 held bytes (and any new ones) against 6 remaining, and read fails with kBadSyntax | lower received_bytes_ by the bytes consumed | not executed | ContentLengthMessageBody.KeptCountRefusesBodyAsWritten | SocketReader.SocketReader.AdvanceDropping |
