/**
 * HttpConnection: the request state machine. Reader results come in one at
 * a time; the request line, then the header lines, are cut at CR LF,
 * parsed and recorded in the request data, and the reader is told how much
 * was consumed; then the message body is chosen from Content-Length.
 *
 * The reader itself is not driven here: its results are parameters, and
 * the calls the connection makes on it are returned as ReaderCall values.
 */
module HttpConnection {
  import opened Wrappers
  import opened Ascii
  import opened Sockets
  import opened SocketReader
  import opened SocketWriter
  import opened HttpHeaders
  import opened HttpParser
  import opened HttpUriParser
  import opened HttpRequestData
  import opened Scanning

  datatype ProcessRequestError = RequestOk | ConnectionClosed | BadSyntax | HandlerException

  datatype ProcessingState = Initial | RequestLinePhase | HeadersPhase | Parsed

  datatype ParseError = ParseOk | BadRequest | LimitsExceeded

  /**
   * A call the connection makes on its SocketReader: none, the two-argument
   * advance(0, length) on an incomplete line, or advance(consumed).
   */
  datatype ReaderCall = NoCall | AdvanceKeeping(consumed: nat, length: nat) | Advance(consumed: nat)

  /** The order of the processing states; the state never moves back. */
  function Rank(s: ProcessingState): nat
  {
    match s
    case Initial => 0
    case RequestLinePhase => 1
    case HeadersPhase => 2
    case Parsed => 3
  }

  // ---------------------------------------------------------------------
  // FindCRLF

  predicate CrlfAt(data: string, i: nat)
  {
    i + 1 < |data| && data[i] == '\r' && data[i + 1] == '\n'
  }

  /** The first CR LF at or after `from`. */
  function FirstCrlfFrom(data: string, from: nat): (r: Option<nat>)
    ensures r.Some? ==> from <= r.value && CrlfAt(data, r.value)
                        && forall j :: from <= j < r.value ==> !CrlfAt(data, j)
    ensures r.None? ==> forall j :: from <= j ==> !CrlfAt(data, j)
    decreases |data| - from
  {
    if from + 1 >= |data| then None
    else if CrlfAt(data, from) then Some(from)
    else FirstCrlfFrom(data, from + 1)
  }

  function FirstCrlf(data: string): Option<nat>
  {
    FirstCrlfFrom(data, 0)
  }

  /**
   * FindCRLF, with the loop bound written `i + 1 < length`: the least i
   * with CR at i and LF at i + 1, or size_t's -1 when there is none.
   */
  method FindCrlf(buffer: string) returns (index: nat)
    requires |buffer| <= SizeMax
    ensures index == if FirstCrlf(buffer).Some? then FirstCrlf(buffer).value else SizeMax
    ensures index != SizeMax ==> CrlfAt(buffer, index) && forall j :: 0 <= j < index ==> !CrlfAt(buffer, j)
    ensures index == SizeMax ==> forall j :: !CrlfAt(buffer, j)
  {
    var i := 0;
    while i + 1 < |buffer|
      invariant i <= |buffer| && FirstCrlfFrom(buffer, i) == FirstCrlf(buffer)
    {
      if buffer[i] == '\r' && buffer[i + 1] == '\n' {
        return i;
      }
      i := i + 1;
    }
    return SizeMax;
  }

  /** `buffer_length - 1` in size_t arithmetic: it wraps below zero. */
  function SizeMinusOne(length: nat): nat
    requires length <= SizeMax
  {
    (length + SizeMax) % (SizeMax + 1)
  }

  /** As written, FindCRLF's loop runs its iteration `i` while `i < buffer_length - 1` in size_t. */
  predicate AsWrittenRuns(length: nat, i: nat)
    requires length <= SizeMax
  {
    i < SizeMinusOne(length)
  }

  /**
   * For an empty result the bound as written wraps to size_t's maximum, so
   * the loop runs its first iteration, which reads buffer[0] and buffer[1]:
   * both lie past the end of the buffer.
   */
  lemma {:induction false} FindCrlfAsWrittenOverruns(buffer: string)
    requires |buffer| == 0
    ensures SizeMinusOne(|buffer|) == SizeMax
    ensures AsWrittenRuns(|buffer|, 0) && !(0 < |buffer|) && !(0 + 1 < |buffer|)
  {
  }

  /** For any non-empty result the loop as written runs exactly the iterations of FindCrlf. */
  lemma {:induction false} FindCrlfBoundAgrees(length: nat, i: nat)
    requires 1 <= length <= SizeMax
    ensures AsWrittenRuns(length, i) <==> i + 1 < length
  {
    assert SizeMinusOne(length) == length - 1;
  }

  // ---------------------------------------------------------------------
  // IsEqualsCaseInsensitive

  method IsEqualsCaseInsensitive(first: string, second: string) returns (equal: bool)
    ensures equal == EqualsIgnoreCase(first, second)
  {
    if |first| != |second| {
      return false;
    }
    for i := 0 to |first|
      invariant forall k :: 0 <= k < i ==> ToLower(first[k]) == ToLower(second[k])
    {
      if ToLower(first[i]) != ToLower(second[i]) {
        return false;
      }
    }
    return true;
  }

  lemma {:induction false} IgnoreCaseChar(x: char, y: char)
    requires 'A' <= y <= 'Z'
    ensures ToLower(x) == ToLower(y) <==> ToUpper(x) == y
  {
  }

  /** For a word of capitals, matching it ignoring case is upper-casing to it. */
  lemma {:induction false} IgnoreCaseUpper(a: string, b: string)
    requires forall i :: 0 <= i < |b| ==> 'A' <= b[i] <= 'Z'
    ensures EqualsIgnoreCase(a, b) <==> Upper(a) == b
  {
    if |a| == |b| {
      forall i | 0 <= i < |a| ensures ToLower(a[i]) == ToLower(b[i]) <==> Upper(a)[i] == b[i] {
        IgnoreCaseChar(a[i], b[i]);
      }
    }
  }

  // ---------------------------------------------------------------------
  // proccessRequestLine

  /** The request fields the request line sets. */
  datatype Request = Request(httpMethod: HttpMethod, methodName: string, href: string,
                             path: string, query: string, httpVersion: HttpVersion)

  ghost function Snapshot(d: HttpRequestData): Request
    reads d
  {
    Request(d.httpMethod, d.methodName, d.href, d.path, d.query, d.httpVersion)
  }

  /** The version of a parsed request line; none is a bad request. */
  function VersionOf(version: Option<RequestVersion>): Option<HttpVersion>
  {
    match version
    case None => Some(Http09)
    case Some(v) =>
      if |v.major| > 1 || |v.minor| > 1 then None
      else if v.major == "1" && v.minor == "0" then Some(Http10)
      else if v.major == "1" && v.minor == "1" then Some(Http11)
      else None
  }

  /** The method and its recorded name for a request of `version`; none is a bad request. */
  function MethodOf(version: HttpVersion, name: string): Option<(HttpMethod, string)>
  {
    if version == Http09 then
      if EqualsIgnoreCase(name, "GET") then Some((Get, "GET")) else None
    else if EqualsIgnoreCase(name, "GET") then Some((Get, "GET"))
    else if EqualsIgnoreCase(name, "HEAD") then Some((Head, "HEAD"))
    else if EqualsIgnoreCase(name, "POST") then Some((Post, "POST"))
    else Some((Custom, Upper(name)))
  }

  function PathOf(parts: UriParts): string
  {
    if parts.path.Some? then parts.path.value else "/"
  }

  function QueryOf(parts: UriParts): string
  {
    if parts.query.Some? then parts.query.value else ""
  }

  /**
   * proccessRequestLine on the request fields and the processing state:
   * each field is set in the order the code sets it, and a rejection keeps
   * whatever was set before it.
   */
  function ApplyRequestLine(r: Request, phase: ProcessingState, line: RequestLine): (Request, ProcessingState, ParseError)
  {
    var version := VersionOf(line.version);
    if version.None? then (r, phase, BadRequest)
    else
      var r1 := r.(httpVersion := version.value);
      var phase1 := if line.version.None? then Parsed else HeadersPhase;
      var m := MethodOf(version.value, line.methodName);
      if m.None? then (r1, phase1, BadRequest)
      else
        var r2 := r1.(httpMethod := m.value.0, methodName := m.value.1, href := line.uri);
        var parts := UriOf(line.uri);
        if parts.None? then (r2, phase1, BadRequest)
        else (r2.(path := PathOf(parts.value), query := QueryOf(parts.value)), phase1, ParseOk)
  }

  /** Versions 1.0 and 1.1 only, by their text; no version is HTTP/0.9. */
  lemma {:induction false} VersionOfIff(version: Option<RequestVersion>)
    ensures VersionOf(version) == Some(Http09) <==> version.None?
    ensures VersionOf(version) == Some(Http10) <==> version == Some(RequestVersion("1", "0"))
    ensures VersionOf(version) == Some(Http11) <==> version == Some(RequestVersion("1", "1"))
    ensures VersionOf(version) != Some(VersionNone)
  {
  }

  /** A digit string that does not start with '0' and has two digits or more is at least 10. */
  lemma {:induction false} ValueOfLong(s: string)
    requires AllDigits(s) && |s| >= 1 && s[0] != '0'
    ensures Value(s) >= 1 && (|s| >= 2 ==> Value(s) >= 10)
    decreases |s|
  {
    if |s| >= 2 {
      var t := s[..|s| - 1];
      assert AllDigits(t) by {
        forall k | 0 <= k < |t| ensures IsDigit(t[k]) { assert t[k] == s[k]; }
      }
      ValueOfLong(t);
    }
  }

  /** The value of a digit string of at most one digit is that digit. */
  lemma {:induction false} ValueOfShort(s: string)
    requires AllDigits(s) && |s| == 1
    ensures Value(s) == s[0] as int - '0' as int
    ensures Value(s) == 0 <==> s == "0"
    ensures Value(s) == 1 <==> s == "1"
  {
    assert s[..0] == [];
  }

  /**
   * The parser strips leading zeros from the version numbers, so the
   * version is decided by the numbers' values: HTTP/01.1 is 1.1, while
   * 1.10 and 2.0 are rejected.
   */
  lemma {:induction false} VersionByValue(major: string, minor: string)
    requires AllDigits(major) && AllDigits(minor) && |major| > 0 && |minor| > 0
    ensures var v := VersionOf(Some(RequestVersion(StripZeros(major), StripZeros(minor))));
      (v == Some(Http10) <==> Value(major) == 1 && Value(minor) == 0)
      && (v == Some(Http11) <==> Value(major) == 1 && Value(minor) == 1)
      && (v.None? <==> !(Value(major) == 1 && Value(minor) <= 1))
  {
    var ma, mi := StripZeros(major), StripZeros(minor);
    StripZerosValue(major);
    StripZerosValue(minor);
    if |ma| >= 2 { ValueOfLong(ma); } else { ValueOfShort(ma); }
    if |mi| >= 2 { ValueOfLong(mi); } else { ValueOfShort(mi); }
  }

  /**
   * HTTP/0.9 takes GET only; HTTP/1.x takes any method, GET, HEAD and POST
   * by name, any other as kCustom. The recorded name is always the
   * upper-cased method.
   */
  lemma {:induction false} MethodOfShape(version: HttpVersion, name: string)
    ensures MethodOf(version, name).None? <==> version == Http09 && Upper(name) != "GET"
    ensures MethodOf(version, name).Some? ==> MethodOf(version, name).value.1 == Upper(name)
    ensures MethodOf(version, name).Some? ==>
              (MethodOf(version, name).value.0 == Custom <==> Upper(name) !in {"GET", "HEAD", "POST"})
    ensures version == Http09 && MethodOf(version, name).Some? ==> MethodOf(version, name).value.0 == Get
  {
    IgnoreCaseUpper(name, "GET");
    IgnoreCaseUpper(name, "HEAD");
    IgnoreCaseUpper(name, "POST");
  }

  /** Every path the URI parser gives starts with '/'. */
  lemma {:induction false} UriPathIsAbsolute(uri: string)
    requires UriOf(uri).Some?
    ensures |PathOf(UriOf(uri).value)| > 0 && PathOf(UriOf(uri).value)[0] == '/'
  {
    if UriOf(uri).value.path.Some? {
      if UriOf(uri).value.host.None? {
        OriginForm(uri);
      } else {
        var portText := AbsoluteForm(uri);
      }
    }
  }

  /**
   * A request line is accepted exactly when its version, its method and
   * its URI are; then the fields hold the version, the upper-cased method,
   * the URI and a path starting with '/', and the state is kParsed for
   * HTTP/0.9 and kHeaders otherwise. A bad version changes nothing.
   */
  lemma {:induction false} RequestLineAccepted(r: Request, phase: ProcessingState, line: RequestLine)
    ensures var (r', phase', e) := ApplyRequestLine(r, phase, line);
      var version := VersionOf(line.version);
      (e == ParseOk <==> version.Some? && MethodOf(version.value, line.methodName).Some? && UriOf(line.uri).Some?)
      && (e == ParseOk ==>
            r'.httpVersion == version.value && r'.methodName == Upper(line.methodName) && r'.href == line.uri
            && |r'.path| > 0 && r'.path[0] == '/'
            && (phase' == Parsed <==> r'.httpVersion == Http09)
            && (phase' != Parsed ==> phase' == HeadersPhase))
      && (version.None? ==> r' == r && phase' == phase)
  {
    var version := VersionOf(line.version);
    if version.Some? {
      MethodOfShape(version.value, line.methodName);
      if UriOf(line.uri).Some? {
        UriPathIsAbsolute(line.uri);
      }
    }
  }

  /** takeRequestLine on the request fields and the state, with the reader call it makes. */
  function RequestLineStep(r: Request, phase: ProcessingState, result: ReadResult): (Request, ProcessingState, ParseError, ReaderCall)
  {
    var crlf := FirstCrlf(result.data);
    if crlf.None? then
      if result.isCompleted then (r, phase, BadRequest, NoCall)
      else (r, phase, ParseOk, AdvanceKeeping(0, |result.data|))
    else
      var (line, error) := RequestLineOf(result.data[..crlf.value]);
      if line.None? || error != RequestLineOk then (r, phase, BadRequest, NoCall)
      else
        var (r', phase', e) := ApplyRequestLine(r, phase, line.value);
        if e != ParseOk then (r', phase', e, NoCall)
        else (r', phase', ParseOk, Advance(crlf.value + 2))
  }

  /** Consuming n bytes takes the first line of `data` and its CR LF, and nothing more. */
  predicate ConsumesLine(data: string, n: nat)
  {
    2 <= n <= |data| && data[n - 2..n] == "\r\n" && forall j :: 0 <= j < n - 2 ==> !CrlfAt(data, j)
  }

  /**
   * An accepted request line moves the reader past the line and its CR LF
   * and nothing more.
   */
  lemma {:induction false} RequestLineStepConsumes(r: Request, phase: ProcessingState, result: ReadResult)
    ensures var (r', phase', e, call) := RequestLineStep(r, phase, result);
      call.Advance? ==> e == ParseOk && ConsumesLine(result.data, call.consumed)
  {
    StepAdvancesPastCrlf(r, phase, result);
    if FirstCrlf(result.data).Some? {
      CrlfConsumed(result.data);
    }
  }

  lemma {:induction false} StepAdvancesPastCrlf(r: Request, phase: ProcessingState, result: ReadResult)
    ensures var (r', phase', e, call) := RequestLineStep(r, phase, result);
      call.Advance? ==> e == ParseOk && FirstCrlf(result.data).Some?
                        && call.consumed == FirstCrlf(result.data).value + 2
  {
  }

  /** The first CR LF of `data` ends its first line. */
  lemma {:induction false} CrlfConsumed(data: string)
    requires FirstCrlf(data).Some?
    ensures ConsumesLine(data, FirstCrlf(data).value + 2)
  {
    var n := FirstCrlf(data).value + 2;
    assert data[n - 2..n] == "\r\n";
  }

  /**
   * A result without CR LF is kept whole for the next read, and is a bad
   * request once the peer has finished.
   */
  lemma {:induction false} RequestLineStepWaits(r: Request, phase: ProcessingState, result: ReadResult)
    ensures var (r', phase', e, call) := RequestLineStep(r, phase, result);
      (call.AdvanceKeeping? <==> !result.isCompleted && forall j :: !CrlfAt(result.data, j))
      && (call.AdvanceKeeping? ==> e == ParseOk && r' == r && phase' == phase && call == AdvanceKeeping(0, |result.data|))
  {
  }

  /** takeRequestLine calls the reader exactly when it succeeds. */
  lemma {:induction false} RequestLineStepCalls(r: Request, phase: ProcessingState, result: ReadResult)
    ensures var (r', phase', e, call) := RequestLineStep(r, phase, result);
      e == ParseOk <==> call != NoCall
  {
  }

  /** proccessRequestLine leaves the state where it was or moves it to kHeaders or kParsed. */
  lemma {:induction false} ApplyRequestLineForward(r: Request, phase: ProcessingState, line: RequestLine)
    ensures var p := ApplyRequestLine(r, phase, line).1; p == phase || p == HeadersPhase || p == Parsed
  {
  }

  lemma {:induction false} RequestLineStepForward(r: Request, phase: ProcessingState, result: ReadResult)
    ensures var p := RequestLineStep(r, phase, result).1; p == phase || p == HeadersPhase || p == Parsed
  {
    var crlf := FirstCrlf(result.data);
    if crlf.Some? {
      var (line, error) := RequestLineOf(result.data[..crlf.value]);
      if line.Some? && error == RequestLineOk {
        ApplyRequestLineForward(r, phase, line.value);
        assert RequestLineStep(r, phase, result).1 == ApplyRequestLine(r, phase, line.value).1;
      }
    }
  }

  // ---------------------------------------------------------------------
  // takeHeader

  /**
   * takeHeader's test of parseRequestHeader: a header came back and the
   * error variable, holding `initial` before the call, says kOk.
   */
  predicate HeaderAccepted(line: string, initial: ParseRequestHeaderError)
  {
    var (header, reported) := RequestHeaderOf(line);
    header.Some? && (if reported.Some? then reported.value else initial) == HeaderOk
  }

  /**
   * As written, takeHeader declares its error variable without a value
   * and parseRequestHeader assigns it only on failure, so a well-formed
   * header line is rejected whenever the variable happens to hold another
   * value.
   */
  lemma {:induction false} HeaderRejectedAsWritten()
    ensures RequestHeaderOf("a:b").0 == Some(RequestHeader("a", "b"))
    ensures !HeaderAccepted("a:b", MalformedName)
  {
    assert "a:b" == "a" + ":" + "" + "b";
    assert IsTokenChar('a');
    HeaderRoundTrip("a", "", "b");
    assert TrimEnd("b") == "b" by {
      assert !IsWhite('b');
    }
  }

  /** With the variable set to kOk first, a header line is accepted exactly when it parses. */
  lemma {:induction false} HeaderAcceptedIff(line: string)
    ensures HeaderAccepted(line, HeaderOk) <==> RequestHeaderOf(line).0.Some?
  {
    HeaderFailsIff(line);
  }

  /**
   * takeHeader on the state, with the reader call it makes and the header
   * it hands to proccessHeader.
   */
  function HeaderStep(phase: ProcessingState, result: ReadResult): (ProcessingState, ParseError, ReaderCall, Option<RequestHeader>)
  {
    var crlf := FirstCrlf(result.data);
    if crlf.None? then
      if result.isCompleted then (phase, BadRequest, NoCall, None)
      else (phase, ParseOk, AdvanceKeeping(0, |result.data|), None)
    else if crlf.value == 0 then (Parsed, ParseOk, Advance(2), None)
    else
      var line := result.data[..crlf.value];
      if !HeaderAccepted(line, HeaderOk) then (phase, BadRequest, NoCall, None)
      else (phase, ParseOk, Advance(crlf.value + 2), RequestHeaderOf(line).0)
  }

  /**
   * The empty line ends the headers; any other accepted line adds one
   * header and keeps the state; the state never moves back.
   */
  lemma {:induction false} HeaderStepShape(phase: ProcessingState, result: ReadResult)
    ensures var (phase', e, call, header) := HeaderStep(phase, result);
      (phase' == phase || phase' == Parsed)
      && (phase' != phase ==> |result.data| >= 2 && result.data[..2] == "\r\n" && call == Advance(2) && header.None?)
      && (header.Some? ==> e == ParseOk && call.Advance? && call.consumed > 2
                           && RequestHeaderOf(result.data[..call.consumed - 2]).0 == header)
      && (e == ParseOk <==> call != NoCall)
  {
    var crlf := FirstCrlf(result.data);
    if crlf.Some? && crlf.value > 0 {
      var line := result.data[..crlf.value];
      if HeaderAccepted(line, HeaderOk) {
        var n := crlf.value + 2;
        assert HeaderStep(phase, result) == (phase, ParseOk, Advance(n), RequestHeaderOf(line).0);
        assert result.data[..n - 2] == line;
      } else {
        assert HeaderStep(phase, result) == (phase, BadRequest, NoCall, None);
      }
    } else if crlf.Some? {
      assert result.data[..2] == "\r\n";
    }
  }

  // ---------------------------------------------------------------------
  // takeMessageBody

  /** sizeof(size_t) on the 64-bit targets: the longest Content-Length value accepted. */
  const MaxLengthDigits: nat := 8

  /** A Content-Length value: at most 8 characters, all digits, not empty. */
  function ContentLengthOf(header: string): Option<nat>
  {
    if |header| > MaxLengthDigits || !AllDigits(header) || |header| == 0 then None
    else Some(Value(header))
  }

  /** The checks of takeMessageBody on the Content-Length value, then std::stoll. */
  method ContentLengthValue(header: string) returns (length: Option<nat>)
    ensures length == ContentLengthOf(header)
  {
    if |header| > MaxLengthDigits {
      return None;
    }
    for i := 0 to |header|
      invariant forall k :: 0 <= k < i ==> IsDigit(header[k])
    {
      if header[i] < '0' || header[i] > '9' {
        return None;
      }
    }
    if |header| == 0 {
      return None;
    }
    length := Some(Value(header));
  }

  /** takeMessageBody's checks as written, where an empty value reaches std::stoll. */
  datatype ValueCheck = ValueLength(n: nat) | ValueRejected | ValueThrows

  function ContentLengthOfAsWritten(header: string): ValueCheck
  {
    if |header| > MaxLengthDigits || !AllDigits(header) then ValueRejected
    else if |header| == 0 then ValueThrows
    else ValueLength(Value(header))
  }

  /**
   * As written, an empty value passes the digit loop and std::stoll("")
   * throws std::invalid_argument, which nothing catches; every other value
   * is judged as ContentLengthOf judges it. The value only reaches this
   * check once the Content-Length lookup finds the lowercased name (see
   * ContentLengthNeverFoundAsWritten); as written, an empty value is never
   * looked at.
   */
  lemma {:induction false} EmptyContentLengthThrowsAsWritten(header: string)
    ensures ContentLengthOfAsWritten("") == ValueThrows
    ensures header != "" ==>
              (ContentLengthOf(header).Some? <==> ContentLengthOfAsWritten(header).ValueLength?)
              && (ContentLengthOf(header).Some? ==> ContentLengthOfAsWritten(header).n == ContentLengthOf(header).value)
  {
  }

  /**
   * The body takeMessageBody chooses from the version and the values found
   * under Content-Length; none is a bad request.
   */
  function BodyOf(version: HttpVersion, values: Option<seq<string>>): Option<Body>
    requires values.Some? ==> |values.value| > 0
  {
    if version == Http09 || values.None? then Some(ZeroBody)
    else if |values.value| > 1 then None
    else
      var n := ContentLengthOf(values.value[0]);
      if n.None? then None
      else if n.value > 0 then Some(ContentLengthBody(n.value))
      else Some(ZeroBody)
  }

  /**
   * A ContentLengthMessageBody of n bytes comes exactly from one value
   * of 1 to 8 digits whose value is n > 0, in an HTTP/1.x request.
   */
  lemma {:induction false} BodyOfContentLength(version: HttpVersion, values: Option<seq<string>>, n: nat)
    requires values.Some? ==> |values.value| > 0
    ensures BodyOf(version, values) == Some(ContentLengthBody(n)) <==>
              version != Http09 && values.Some? && |values.value| == 1
              && 0 < |values.value[0]| <= 8 && AllDigits(values.value[0])
              && Value(values.value[0]) == n && n > 0
    ensures BodyOf(version, values).None? <==>
              version != Http09 && values.Some? && (|values.value| > 1 || ContentLengthOf(values.value[0]).None?)
  {
  }

  /** The decimal text of n. */
  function DecimalText(n: nat): (s: string)
    ensures |s| > 0 && AllDigits(s)
  {
    if n < 10 then [('0' as int + n) as char]
    else DecimalText(n / 10) + [('0' as int + n % 10) as char]
  }

  function Pow10(k: nat): nat
  {
    if k == 0 then 1 else 10 * Pow10(k - 1)
  }

  lemma {:induction false} DecimalValue(n: nat)
    ensures Value(DecimalText(n)) == n
    decreases n
  {
    var s := DecimalText(n);
    if n < 10 {
      assert s[..0] == [];
    } else {
      DecimalValue(n / 10);
      assert s[..|s| - 1] == DecimalText(n / 10);
    }
  }

  lemma {:induction false} DecimalLength(n: nat, k: nat)
    requires 1 <= k && n < Pow10(k)
    ensures |DecimalText(n)| <= k
    decreases k
  {
    if n >= 10 {
      assert k >= 2;
      assert n / 10 < Pow10(k - 1);
      DecimalLength(n / 10, k - 1);
    }
  }

  /** A client's Content-Length of 1 to 99999999 is read back as that length. */
  lemma {:induction false} ContentLengthRoundTrip(version: HttpVersion, n: nat)
    requires version != Http09 && 0 < n < 100000000
    ensures BodyOf(version, Some([DecimalText(n)])) == Some(ContentLengthBody(n))
  {
    DecimalValue(n);
    assert Pow10(8) == 100000000;
    DecimalLength(n, 8);
  }

  /**
   * As written, takeMessageBody looks up "Content-Length"; the map only
   * holds lowercased names, so the lookup always fails and every request
   * gets a zero-length body.
   */
  lemma {:induction false} ContentLengthNeverFoundAsWritten(entries: seq<Entry>, version: HttpVersion)
    requires AllWellFormed(entries)
    ensures Find(entries, "Content-Length").None?
    ensures BodyOf(version, Find(entries, "Content-Length")) == Some(ZeroBody)
  {
    assert ToLower("Content-Length"[0]) != "Content-Length"[0];
    NotLowerNotFound(entries, "Content-Length");
  }

  /** Looked up as "content-length", a header added as Content-Length: 12 gives a 12-byte body. */
  lemma {:induction false} ContentLengthFound(entries: seq<Entry>)
    requires Find(entries, "content-length").None?
    ensures var added := Insert(entries, Entry(Lower("Content-Length"), ["12"]));
      Find(added, "content-length") == Some(["12"])
      && BodyOf(Http11, Find(added, "content-length")) == Some(ContentLengthBody(12))
  {
    assert Lower("Content-Length") == "content-length";
    InsertFind(entries, Entry("content-length", ["12"]));
    assert Value("12") == 12 by {
      assert "12"[..1] == "1" && "1"[..0] == [];
    }
  }

  // ---------------------------------------------------------------------
  // Error responses

  const BadRequestText: string := "HTTP/1.0 400 Bad Request\r\n\r\n"
  const InternalErrorText: string := "HTTP/1.0 500 Internal Server Error\r\n\r\n"

  /** Error responses are written for HTTP/1.0 and 1.1 only. */
  predicate Responds(version: HttpVersion)
  {
    version != VersionNone && version != Http09
  }

  // ---------------------------------------------------------------------
  // The request head, pass by pass

  /** What parsing has built so far: the request fields, the state and the headers map. */
  datatype Progress = Progress(request: Request, phase: ProcessingState, entries: seq<Entry>)

  /** parseRequest on one reader result: the new head, the parse error and the reader call. */
  function ParseStep(h: Progress, result: ReadResult): (Progress, ParseError, ReaderCall)
  {
    match h.phase
    case RequestLinePhase =>
      var (r, phase, e, call) := RequestLineStep(h.request, h.phase, result);
      (Progress(r, phase, h.entries), e, call)
    case HeadersPhase =>
      var (phase, e, call, header) := HeaderStep(h.phase, result);
      var entries := if header.Some? then AddEntry(h.entries, header.value.name, header.value.value) else h.entries;
      (Progress(h.request, phase, entries), e, call)
    case Parsed => (h, ParseOk, NoCall)
    case Initial => (h, BadRequest, NoCall)
  }

  /** One pass of proccessRequest's loop, after the reader returned `result` and `readError`. */
  function HeadStep(h: Progress, result: ReadResult, readError: ReadError): (Progress, Option<ProcessRequestError>, ReaderCall)
  {
    if readError != ReadOk then (h, Some(ConnectionClosed), NoCall)
    else
      var (h', e, call) := ParseStep(h, result);
      (h', if e != ParseOk then Some(BadSyntax) else None, call)
  }

  /**
   * proccessRequest's loop over the reader's results in turn: it stops at
   * the first pass that ends the request, or once the head is parsed, or
   * when the results run out; with the reader calls of the passes made.
   */
  function HeadRun(h: Progress, script: seq<(ReadResult, ReadError)>): (Progress, Option<ProcessRequestError>, seq<ReaderCall>)
    decreases |script|
  {
    if |script| == 0 || h.phase == Parsed then (h, None, [])
    else
      var (h', stop, call) := HeadStep(h, script[0].0, script[0].1);
      if stop.Some? then (h', stop, [call])
      else
        var (h'', stop', calls) := HeadRun(h', script[1..]);
        (h'', stop', [call] + calls)
  }

  /** A run that is not over takes one pass, then goes on with the rest unless the pass stopped it. */
  lemma {:induction false} HeadRunCons(h: Progress, rest: seq<(ReadResult, ReadError)>)
    requires |rest| > 0 && h.phase != Parsed
    ensures var (h', stop, call) := HeadStep(h, rest[0].0, rest[0].1);
      var r := HeadRun(h', rest[1..]);
      HeadRun(h, rest) == if stop.Some? then (h', stop, [call]) else (r.0, r.1, [call] + r.2)
  {
  }

  /**
   * One more pass of a run: when the prefix of `script` before `k` has led
   * to `before`, the pass on `script[k]` either ends the run or leaves the
   * rest of the run to the remaining results.
   */
  lemma {:induction false} HeadRunPass(h0: Progress, script: seq<(ReadResult, ReadError)>, k: nat, calls: seq<ReaderCall>,
                                       before: Progress, after: Progress, stop: Option<ProcessRequestError>, call: ReaderCall)
    requires k < |script| && before.phase != Parsed
    requires var r := HeadRun(before, script[k..]); HeadRun(h0, script) == (r.0, r.1, calls + r.2)
    requires (after, stop, call) == HeadStep(before, script[k].0, script[k].1)
    ensures stop.Some? ==> HeadRun(h0, script) == (after, stop, calls + [call])
    ensures stop.None? && after.phase == Parsed ==> HeadRun(h0, script) == (after, None, calls + [call])
    ensures stop.None? ==>
      var r := HeadRun(after, script[k + 1..]); HeadRun(h0, script) == (r.0, r.1, (calls + [call]) + r.2)
  {
    var rest := script[k..];
    assert rest[0] == script[k];
    assert rest[1..] == script[k + 1..];
    HeadRunCons(before, rest);
    var r := HeadRun(after, script[k + 1..]);
    if stop.None? {
      assert HeadRun(before, rest) == (r.0, r.1, [call] + r.2);
      assert calls + ([call] + r.2) == (calls + [call]) + r.2;
      if after.phase == Parsed {
        assert r == (after, None, []);
        assert (calls + [call]) + [] == calls + [call];
      }
    } else {
      assert HeadRun(before, rest) == (after, stop, [call]);
    }
  }

  /**
   * A run makes at most one reader call per result; it ends with
   * kConnectionClosed only after a failed read, with kBadSyntax or with no
   * verdict otherwise, and when it runs out before the head is parsed every
   * read went through.
   */
  lemma {:induction false} HeadRunFacts(h: Progress, script: seq<(ReadResult, ReadError)>)
    ensures var (h', stop, calls) := HeadRun(h, script);
      |calls| <= |script|
      && (stop.None? || stop == Some(ConnectionClosed) || stop == Some(BadSyntax))
      && (stop == Some(ConnectionClosed) ==> exists k :: 0 <= k < |script| && script[k].1 == ReadUnknown)
      && (stop.None? && h'.phase != Parsed ==> forall k :: 0 <= k < |script| ==> script[k].1 == ReadOk)
    decreases |script|
  {
    if |script| > 0 && h.phase != Parsed {
      var (h1, stop, call) := HeadStep(h, script[0].0, script[0].1);
      assert stop.None? || stop == Some(ConnectionClosed) || stop == Some(BadSyntax);
      assert stop == Some(ConnectionClosed) <==> script[0].1 == ReadUnknown;
      if stop.None? {
        var rest := script[1..];
        HeadRunFacts(h1, rest);
        var (h', stop', calls) := HeadRun(h1, rest);
        assert HeadRun(h, script) == (h', stop', [call] + calls);
        if stop' == Some(ConnectionClosed) {
          var k :| 0 <= k < |rest| && rest[k].1 == ReadUnknown;
          assert script[k + 1].1 == ReadUnknown;
        }
        if stop'.None? && h'.phase != Parsed {
          forall k | 0 <= k < |script| ensures script[k].1 == ReadOk {
            if k > 0 {
              assert script[k] == rest[k - 1];
            }
          }
        }
      }
    }
  }

  /**
   * How the head ends: the pass that stopped it, or none when the results
   * ran out first, or else takeMessageBody's verdict on the parsed head.
   */
  function HeadOutcome(h: Progress, stop: Option<ProcessRequestError>): Option<ProcessRequestError>
    requires AllWellFormed(h.entries)
  {
    if stop.Some? then stop
    else if h.phase != Parsed then None
    else
      FindWellFormed(h.entries, "content-length");
      if BodyOf(h.request.httpVersion, Find(h.entries, "content-length")).Some? then Some(RequestOk) else Some(BadSyntax)
  }

  /** Path characters and percent-escapes hold no space and no CR. */
  lemma {:induction false} EncodedPathPlain(s: string)
    requires Encoded(s, IsPathChar)
    ensures forall i :: 0 <= i < |s| ==> s[i] != SP && s[i] != '\r'
    decreases |s|
  {
    if |s| > 0 {
      if IsPathChar(s[0]) && Encoded(s[1..], IsPathChar) {
        EncodedPathPlain(s[1..]);
        assert forall i :: 1 <= i < |s| ==> s[i] == s[1..][i - 1];
      } else {
        EncodedPathPlain(s[3..]);
        assert forall i :: 3 <= i < |s| ==> s[i] == s[3..][i - 3];
      }
    }
  }

  /** The first CR LF of a line with no CR in it, followed by CR LF, is right after the line. */
  lemma {:induction false} CrlfAfterLine(data: string, n: nat, from: nat)
    requires from <= n && n + 1 < |data| && data[n] == '\r' && data[n + 1] == '\n'
    requires forall i :: 0 <= i < n ==> data[i] != '\r'
    ensures FirstCrlfFrom(data, from) == Some(n)
    decreases n - from
  {
    if from < n {
      CrlfAfterLine(data, n, from + 1);
    }
  }

  /** The request line "GET <path> HTTP/1.0" for an absolute path. */
  function GetLine(path: string): string
  {
    "GET" + " " + path + " " + "HTTP/" + "1" + "." + "0"
  }

  /** "GET <path> HTTP/1.0" is read as a method GET, the URI <path> and the version 1.0. */
  lemma {:induction false} GetLineParses(path: string)
    requires IsAbsolutePath(path)
    ensures RequestLineOf(GetLine(path)) == (Some(RequestLine("GET", path, Some(RequestVersion("1", "0")))), RequestLineOk)
  {
    EncodedPathPlain(path[1..]);
    assert NoSpace(path) by {
      forall i | 0 <= i < |path| ensures path[i] != SP {
        if i > 0 {
          assert path[i] == path[1..][i - 1];
        }
      }
    }
    assert IsToken("GET") by {
      assert IsTokenChar('G') && IsTokenChar('E') && IsTokenChar('T');
    }
    assert EqualsIgnoreCase("HTTP/", "HTTP/");
    FullRequestRoundTrip("GET", 1, path, 1, "HTTP/", "1", "0", 0);
    assert Spaces(1) == " " && Spaces(0) == "";
    assert GetLine(path) + Spaces(0) == GetLine(path);
    assert StripZeros("1") == "1" && StripZeros("0") == "0";
  }

  /** The request fields that line sets: an HTTP/1.0 GET of <path> with no query. */
  function GetRequest(r: Request, path: string): Request
  {
    r.(httpVersion := Http10, httpMethod := Get, methodName := "GET", href := path, path := path, query := "")
  }

  /** Applying "GET <path> HTTP/1.0" moves on to the headers with those fields. */
  lemma {:induction false} GetLineApplies(r: Request, path: string)
    requires IsAbsolutePath(path)
    ensures ApplyRequestLine(r, RequestLinePhase, RequestLine("GET", path, Some(RequestVersion("1", "0"))))
         == (GetRequest(r, path), HeadersPhase, ParseOk)
  {
    OriginRoundTrip(path, None);
    assert path + QueryText(None) == path;
    assert EqualsIgnoreCase("GET", "GET");
  }

  /** No CR occurs in "GET <path> HTTP/1.0". */
  lemma {:induction false} GetLinePlain(path: string)
    requires IsAbsolutePath(path)
    ensures forall i :: 0 <= i < |GetLine(path)| ==> GetLine(path)[i] != '\r'
  {
    EncodedPathPlain(path[1..]);
    var line := GetLine(path);
    forall i | 0 <= i < |line| ensures line[i] != '\r' {
      if 4 <= i < 4 + |path| && i > 4 {
        assert line[i] == path[1..][i - 5];
      }
    }
  }

  /** The pass on a result that starts with "GET <path> HTTP/1.0" and CR LF. */
  lemma {:induction false} GetFirstPass(h: Progress, path: string, first: ReadResult, rest: string)
    requires h.phase == RequestLinePhase && IsAbsolutePath(path)
    requires first.data == GetLine(path) + "\r\n" + rest
    ensures HeadStep(h, first, ReadOk) == (Progress(GetRequest(h.request, path), HeadersPhase, h.entries), None, Advance(|path| + 15))
  {
    var line := GetLine(path);
    GetLinePlain(path);
    CrlfAfterLine(first.data, |line|, 0);
    assert first.data[..|line|] == line;
    GetLineParses(path);
    GetLineApplies(h.request, path);
  }

  /** A result that starts with the empty line ends the headers, and the run with it. */
  lemma {:induction false} EmptyLinePass(h: Progress, second: ReadResult)
    requires h.phase == HeadersPhase
    requires |second.data| >= 2 && second.data[..2] == "\r\n"
    ensures HeadRun(h, [(second, ReadOk)]) == (h.(phase := Parsed), None, [Advance(2)])
  {
    var tail := [(second, ReadOk)];
    assert CrlfAt(second.data, 0);
    assert FirstCrlf(second.data) == Some(0);
    assert HeadStep(h, second, ReadOk) == (h.(phase := Parsed), None, Advance(2));
    assert tail[1..] == [];
    assert HeadRun(h.(phase := Parsed), tail[1..]) == (h.(phase := Parsed), None, []);
    assert [Advance(2)] + [] == [Advance(2)];
    HeadRunCons(h, tail);
  }

  /**
   * A fresh connection reading "GET <path> HTTP/1.0" and an empty line:
   * after advance past the request line the next result starts with the
   * empty line, so the second pass ends the headers, and the request goes
   * to the handler with a zero-length body.
   */
  lemma {:induction false} GetHeadParses(h: Progress, path: string, first: ReadResult, rest: string, second: ReadResult)
    requires h.phase == RequestLinePhase && h.entries == [] && IsAbsolutePath(path)
    requires first.data == GetLine(path) + "\r\n" + rest
    requires |second.data| >= 2 && second.data[..2] == "\r\n"
    ensures var done := Progress(GetRequest(h.request, path), Parsed, []);
      HeadRun(h, [(first, ReadOk), (second, ReadOk)]) == (done, None, [Advance(|path| + 15), Advance(2)])
      && HeadOutcome(done, None) == Some(RequestOk)
      && BodyOf(Http10, Find([], "content-length")) == Some(ZeroBody)
  {
    var script := [(first, ReadOk), (second, ReadOk)];
    GetFirstPass(h, path, first, rest);
    var h1 := Progress(GetRequest(h.request, path), HeadersPhase, []);
    EmptyLinePass(h1, second);
    assert script[1..] == [(second, ReadOk)];
    assert [Advance(|path| + 15)] + [Advance(2)] == [Advance(|path| + 15), Advance(2)];
    HeadRunCons(h, script);
  }

  // ---------------------------------------------------------------------
  // The object

  class HttpConnection {
    const socket: Socket
    const output: SocketWriter
    const requestData: HttpRequestData
    var state: ProcessingState

    ghost predicate Valid()
      reads this, output, requestData, requestData.headers
    {
      output.Valid() && output.socket == socket && requestData.headers.Valid()
    }

    /** The head parsing has built: the request fields, the state and the headers map. */
    ghost function Current(): Progress
      reads this, requestData, requestData.headers
    {
      Progress(Snapshot(requestData), state, requestData.headers.entries)
    }

    constructor(socket: Socket, output: SocketWriter)
      requires output.Valid() && output.socket == socket
      ensures Valid() && state == Initial && this.socket == socket && this.output == output
      ensures fresh(requestData) && fresh(requestData.headers)
      ensures requestData.httpVersion == VersionNone && requestData.headers.entries == []
    {
      this.socket := socket;
      this.output := output;
      requestData := new HttpRequestData();
      state := Initial;
    }

    /**
     * The part of proccessRequest before the handler runs: requests are
     * parsed from the reader's results in turn until the headers end and
     * the body is chosen. A read error ends it with kConnectionClosed, a
     * parse error with a 400 response and kBadSyntax. `script` is what the
     * reader returns; when it runs out first the outcome is none.
     */
    method ProcessRequestHead(script: seq<(ReadResult, ReadError)>) returns (outcome: Option<ProcessRequestError>, calls: seq<ReaderCall>)
      requires Valid() && state == Initial
      requires forall k :: 0 <= k < |script| ==> |script[k].0.data| <= SizeMax
      modifies this`state, requestData, requestData.headers, output`saved, output.buffer, socket
      ensures Valid() && state != Initial && |calls| <= |script|
      ensures var (h, stop, run) := HeadRun(old(Current()).(phase := RequestLinePhase), script);
        Current() == h && calls == run && outcome == HeadOutcome(h, stop)
      ensures outcome == Some(RequestOk) ==>
                state == Parsed
                && BodyOf(requestData.httpVersion, requestData.headers.Get("content-length")) == Some(requestData.body)
      ensures outcome == Some(ConnectionClosed) ==> exists k :: 0 <= k < |script| && script[k].1 == ReadUnknown
      ensures outcome.None? ==> state != Parsed && forall k :: 0 <= k < |script| ==> script[k].1 == ReadOk
      ensures outcome != Some(HandlerException)
      ensures outcome != Some(BadSyntax) ==>
                unchanged(socket) && output.saved == old(output.saved) && output.buffer[..] == old(output.buffer[..])
      ensures outcome == Some(BadSyntax) ==> socket.closed && socket.incoming == old(socket.incoming)
      ensures outcome == Some(BadSyntax) && Responds(requestData.httpVersion) && old(output.Healthy()) ==>
                socket.sent == old(output.Stream()) + BadRequestText && output.saved == 0
    {
      state := RequestLinePhase;
      ghost var h0 := Current();
      assert h0 == old(Current()).(phase := RequestLinePhase);
      HeadRunFacts(h0, script);
      var stop;
      stop, calls := ParseHead(script);
      if stop.Some? {
        return stop, calls;
      }
      if state != Parsed {
        return None, calls;
      }
      outcome := FinishHead();
    }

    /** After the loop: takeMessageBody, and a 400 response with kBadSyntax when it fails. */
    method FinishHead() returns (outcome: Option<ProcessRequestError>)
      requires Valid() && state == Parsed
      modifies requestData`body, requestData`contentLength, output`saved, output.buffer, socket
      ensures Valid() && Current() == old(Current())
      ensures outcome == HeadOutcome(Current(), None)
      ensures outcome == Some(RequestOk) ==>
                BodyOf(requestData.httpVersion, requestData.headers.Get("content-length")) == Some(requestData.body)
      ensures outcome != Some(BadSyntax) ==>
                unchanged(socket) && output.saved == old(output.saved) && output.buffer[..] == old(output.buffer[..])
      ensures outcome == Some(BadSyntax) ==> socket.closed && socket.incoming == old(socket.incoming)
      ensures outcome == Some(BadSyntax) && Responds(requestData.httpVersion) && old(output.Healthy()) ==>
                socket.sent == old(output.Stream()) + BadRequestText && output.saved == 0
    {
      ghost var verdict := HeadOutcome(Current(), None);
      var bodyError := TakeMessageBody();
      assert Current() == old(Current());
      assert bodyError == ParseOk <==> verdict == Some(RequestOk);
      if bodyError != ParseOk {
        SendBadRequest();
        return Some(BadSyntax);
      }
      outcome := Some(RequestOk);
    }

    /** proccessRequest's do-while loop over the reader's results, until the state is kParsed. */
    method ParseHead(script: seq<(ReadResult, ReadError)>) returns (stop: Option<ProcessRequestError>, calls: seq<ReaderCall>)
      requires Valid() && state == RequestLinePhase
      requires forall k :: 0 <= k < |script| ==> |script[k].0.data| <= SizeMax
      modifies this`state, requestData`httpMethod, requestData`methodName, requestData`href,
               requestData`path, requestData`query, requestData`httpVersion, requestData.headers,
               output`saved, output.buffer, socket
      ensures Valid() && state != Initial
      ensures (Current(), stop, calls) == HeadRun(old(Current()), script)
      ensures stop != Some(BadSyntax) ==>
                unchanged(socket) && output.saved == old(output.saved) && output.buffer[..] == old(output.buffer[..])
      ensures stop == Some(BadSyntax) ==> socket.closed && socket.incoming == old(socket.incoming)
      ensures stop == Some(BadSyntax) && Responds(requestData.httpVersion) && old(output.Healthy()) ==>
                socket.sent == old(output.Stream()) + BadRequestText && output.saved == 0
    {
      ghost var h0 := Current();
      calls := [];
      var k := 0;
      assert script[k..] == script;
      assert calls + HeadRun(h0, script).2 == HeadRun(h0, script).2;
      while true
        invariant Valid() && state != Initial && state != Parsed && k <= |script|
        invariant var r := HeadRun(Current(), script[k..]); HeadRun(h0, script) == (r.0, r.1, calls + r.2)
        invariant unchanged(socket) && output.saved == old(output.saved) && output.buffer[..] == old(output.buffer[..])
        decreases |script| - k
      {
        if k == |script| {
          assert calls + [] == calls;
          return None, calls;
        }
        ghost var before := Current();
        var call;
        stop, call := ReadAndParse(script[k].0, script[k].1);
        HeadRunPass(h0, script, k, calls, before, Current(), stop, call);
        calls := calls + [call];
        k := k + 1;
        if stop.Some? {
          return stop, calls;
        }
        if state == Parsed {
          return None, calls;
        }
      }
    }

    /**
     * One pass of proccessRequest's loop: a read error ends the request
     * with kConnectionClosed; a result that does not parse, with a 400
     * response and kBadSyntax.
     */
    method ReadAndParse(result: ReadResult, readError: ReadError) returns (stop: Option<ProcessRequestError>, call: ReaderCall)
      requires Valid() && state != Initial && |result.data| <= SizeMax
      modifies this`state, requestData`httpMethod, requestData`methodName, requestData`href,
               requestData`path, requestData`query, requestData`httpVersion, requestData.headers,
               output`saved, output.buffer, socket
      ensures Valid() && Rank(old(state)) <= Rank(state)
      ensures (Current(), stop, call) == HeadStep(old(Current()), result, readError)
      ensures readError != ReadOk ==> stop == Some(ConnectionClosed) && call == NoCall && state == old(state)
      ensures readError == ReadOk ==> stop.None? || stop == Some(BadSyntax)
      ensures stop != Some(BadSyntax) ==>
                unchanged(socket) && output.saved == old(output.saved) && output.buffer[..] == old(output.buffer[..])
      ensures stop == Some(BadSyntax) ==> socket.closed && socket.incoming == old(socket.incoming)
      ensures stop == Some(BadSyntax) && Responds(requestData.httpVersion) && old(output.Healthy()) ==>
                socket.sent == old(output.Stream()) + BadRequestText && output.saved == 0
    {
      if readError != ReadOk {
        return Some(ConnectionClosed), NoCall;
      }
      var parseError;
      parseError, call := ParseRequest(result);
      if parseError != ParseOk {
        SendBadRequest();
        return Some(BadSyntax), call;
      }
      stop := None;
    }

    /** parseRequest: dispatch on the state; kInitial falls through to kBadRequest. */
    method ParseRequest(result: ReadResult) returns (error: ParseError, call: ReaderCall)
      requires Valid() && |result.data| <= SizeMax
      modifies this`state, requestData`httpMethod, requestData`methodName, requestData`href,
               requestData`path, requestData`query, requestData`httpVersion, requestData.headers
      ensures Valid() && Rank(old(state)) <= Rank(state)
      ensures (Current(), error, call) == ParseStep(old(Current()), result)
      ensures old(state) == HeadersPhase ==>
                var header := HeaderStep(old(state), result).3;
                header.Some? ==> AddedTo(old(requestData.headers.entries), requestData.headers.entries,
                                         header.value.name, header.value.value)
    {
      ghost var h := Current();
      match state
      case RequestLinePhase =>
        RequestLineStepForward(Snapshot(requestData), state, result);
        error, call := TakeRequestLine(result);
        ghost var (r, phase, e, c) := RequestLineStep(h.request, h.phase, result);
        assert Current() == Progress(r, phase, h.entries) && error == e && call == c;
      case HeadersPhase =>
        HeaderStepShape(state, result);
        error, call := TakeHeader(result);
        ghost var (phase, e, c, header) := HeaderStep(h.phase, result);
        ghost var entries := if header.Some? then AddEntry(h.entries, header.value.name, header.value.value) else h.entries;
        assert Current() == Progress(h.request, phase, entries) && error == e && call == c;
      case Parsed =>
        error, call := ParseOk, NoCall;
      case Initial =>
        error, call := BadRequest, NoCall;
    }

    /** takeRequestLine */
    method TakeRequestLine(result: ReadResult) returns (error: ParseError, call: ReaderCall)
      requires Valid() && |result.data| <= SizeMax
      modifies this`state, requestData`httpMethod, requestData`methodName, requestData`href,
               requestData`path, requestData`query, requestData`httpVersion
      ensures Valid()
      ensures (Snapshot(requestData), state, error, call) == RequestLineStep(old(Snapshot(requestData)), old(state), result)
    {
      var crlfIndex := FindCrlf(result.data);
      if crlfIndex == SizeMax {
        if result.isCompleted {
          return BadRequest, NoCall;
        }
        return ParseOk, AdvanceKeeping(0, |result.data|);
      }
      var line := result.data[..crlfIndex];
      var requestLine, parseError := ParseRequestLine(line);
      if requestLine.None? || parseError != RequestLineOk {
        return BadRequest, NoCall;
      }
      error := ProcessRequestLine(requestLine.value);
      if error != ParseOk {
        return error, NoCall;
      }
      call := Advance(|line| + 2);
    }

    /** proccessRequestLine */
    method ProcessRequestLine(line: RequestLine) returns (error: ParseError)
      requires Valid()
      modifies this`state, requestData`httpMethod, requestData`methodName, requestData`href,
               requestData`path, requestData`query, requestData`httpVersion
      ensures Valid()
      ensures (Snapshot(requestData), state, error) == ApplyRequestLine(old(Snapshot(requestData)), old(state), line)
    {
      if line.version.Some? {
        var version := line.version.value;
        if |version.major| > 1 || |version.minor| > 1 {
          return BadRequest;
        }
        if version.major == "1" && version.minor == "0" {
          requestData.httpVersion := Http10;
        } else if version.major == "1" && version.minor == "1" {
          requestData.httpVersion := Http11;
        } else {
          return BadRequest;
        }
        state := HeadersPhase;
      } else {
        state := Parsed;
        requestData.httpVersion := Http09;
      }

      var isGet := IsEqualsCaseInsensitive(line.methodName, "GET");
      if requestData.httpVersion == Http09 {
        if isGet {
          requestData.httpMethod := Get;
          requestData.methodName := "GET";
        } else {
          return BadRequest;
        }
      } else if isGet {
        requestData.httpMethod := Get;
        requestData.methodName := "GET";
      } else {
        var isHead := IsEqualsCaseInsensitive(line.methodName, "HEAD");
        if isHead {
          requestData.httpMethod := Head;
          requestData.methodName := "HEAD";
        } else {
          var isPost := IsEqualsCaseInsensitive(line.methodName, "POST");
          if isPost {
            requestData.httpMethod := Post;
            requestData.methodName := "POST";
          } else {
            requestData.httpMethod := Custom;
            requestData.methodName := Upper(line.methodName);
          }
        }
      }

      requestData.href := line.uri;
      var parts := HttpUriParser.ParseUri(line.uri);
      if parts.None? {
        return BadRequest;
      }
      requestData.path := PathOf(parts.value);
      requestData.query := QueryOf(parts.value);
      error := ParseOk;
    }

    /** takeHeader, with its error variable set to kOk before the parse. */
    method TakeHeader(result: ReadResult) returns (error: ParseError, call: ReaderCall)
      requires Valid() && |result.data| <= SizeMax
      modifies this`state, requestData.headers
      ensures Valid()
      ensures var (phase, e, c, header) := HeaderStep(old(state), result);
        state == phase && error == e && call == c
        && (header.None? ==> requestData.headers.entries == old(requestData.headers.entries))
        && (header.Some? ==> requestData.headers.entries
                               == AddEntry(old(requestData.headers.entries), header.value.name, header.value.value)
                             && AddedTo(old(requestData.headers.entries), requestData.headers.entries,
                                        header.value.name, header.value.value))
    {
      var crlfIndex := FindCrlf(result.data);
      if crlfIndex == SizeMax {
        if result.isCompleted {
          return BadRequest, NoCall;
        }
        return ParseOk, AdvanceKeeping(0, |result.data|);
      }
      if crlfIndex == 0 {
        state := Parsed;
        return ParseOk, Advance(2);
      }
      var line := result.data[..crlfIndex];
      var header, parseError := ParseRequestHeader(line, HeaderOk);
      if header.None? || parseError != HeaderOk {
        return BadRequest, NoCall;
      }
      error := ProcessHeader(header.value);
      if error != ParseOk {
        return error, NoCall;
      }
      call := Advance(|line| + 2);
    }

    /** proccessHeader: the header goes into the request's headers. */
    method ProcessHeader(header: RequestHeader) returns (error: ParseError)
      requires Valid()
      modifies requestData.headers
      ensures Valid() && error == ParseOk
      ensures requestData.headers.entries == AddEntry(old(requestData.headers.entries), header.name, header.value)
      ensures AddedTo(old(requestData.headers.entries), requestData.headers.entries, header.name, header.value)
    {
      requestData.headers.Add(header.name, header.value);
      error := ParseOk;
    }

    /**
     * takeMessageBody, looking Content-Length up under its stored,
     * lowercased name.
     */
    method TakeMessageBody() returns (error: ParseError)
      requires Valid()
      modifies requestData`body, requestData`contentLength
      ensures Valid()
      ensures var b := BodyOf(requestData.httpVersion, requestData.headers.Get("content-length"));
        (b.None? ==> error == BadRequest && requestData.body == old(requestData.body)
                     && requestData.contentLength == old(requestData.contentLength))
        && (b.Some? ==> error == ParseOk && requestData.body == b.value
                        && requestData.contentLength == if b.value.ContentLengthBody? then b.value.length else 0)
    {
      if requestData.httpVersion == Http09 {
        requestData.body := ZeroBody;
        requestData.contentLength := 0;
        return ParseOk;
      }
      var found := requestData.headers.Get("content-length");
      if found.None? {
        requestData.body := ZeroBody;
        requestData.contentLength := 0;
        return ParseOk;
      }
      var values := found.value;
      assert |values| > 0 by {
        var i :| 0 <= i < |requestData.headers.entries|
                 && requestData.headers.entries[i] == Entry("content-length", values);
        assert WellFormed(requestData.headers.entries[i]);
      }
      if |values| > 1 {
        return BadRequest;
      }
      var length := ContentLengthValue(values[0]);
      if length.None? {
        return BadRequest;
      }
      var contentLength := length.value;
      if contentLength > 0 {
        requestData.body := ContentLengthBody(contentLength);
        requestData.contentLength := contentLength;
        return ParseOk;
      }
      requestData.body := ZeroBody;
      requestData.contentLength := 0;
      error := ParseOk;
    }

    /** sendBadRequest */
    method SendBadRequest()
      requires Valid()
      modifies output`saved, output.buffer, socket
      ensures Valid() && socket.closed && socket.incoming == old(socket.incoming)
      ensures old(socket.sent) <= socket.sent
      ensures !Responds(requestData.httpVersion) ==>
                socket.sent == old(socket.sent) && output.saved == old(output.saved)
                && output.buffer[..] == old(output.buffer[..])
      ensures Responds(requestData.httpVersion) && old(output.Healthy()) ==>
                socket.sent == old(output.Stream()) + BadRequestText && output.saved == 0
    {
      SendError(BadRequestText);
    }

    /** sendInternalError */
    method SendInternalError()
      requires Valid()
      modifies output`saved, output.buffer, socket
      ensures Valid() && socket.closed && socket.incoming == old(socket.incoming)
      ensures old(socket.sent) <= socket.sent
      ensures !Responds(requestData.httpVersion) ==>
                socket.sent == old(socket.sent) && output.saved == old(output.saved)
                && output.buffer[..] == old(output.buffer[..])
      ensures Responds(requestData.httpVersion) && old(output.Healthy()) ==>
                socket.sent == old(output.Stream()) + InternalErrorText && output.saved == 0
    {
      SendError(InternalErrorText);
    }

    /** What sendBadRequest and sendInternalError both do, with the status text each writes. */
    method SendError(text: string)
      requires Valid()
      modifies output`saved, output.buffer, socket
      ensures Valid() && socket.closed && socket.incoming == old(socket.incoming)
      ensures old(socket.sent) <= socket.sent
      ensures !Responds(requestData.httpVersion) ==>
                socket.sent == old(socket.sent) && output.saved == old(output.saved)
                && output.buffer[..] == old(output.buffer[..])
      ensures Responds(requestData.httpVersion) && old(output.Healthy()) ==>
                socket.sent == old(output.Stream()) + text && output.saved == 0
    {
      if requestData.httpVersion != VersionNone && requestData.httpVersion != Http09 {
        var writeError, sends, attempts := output.Write(text);
        var flushError := output.Flush();
      }
      socket.Close();
    }
  }
}
