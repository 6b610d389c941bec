/**
 * HttpParser: the Request-Line and header-line parser of the library
 * (the grammar of sections 2.2, 4.1 and 5.1 of RFC 1945).
 *
 * Every parse and skip helper advances the cursor of BaseParser in a loop;
 * each is a method proved equal to a specification function of this module,
 * and the properties of the parser are lemmas about those functions.
 */
module HttpParser {
  import opened Wrappers
  import opened Ascii
  import opened BaseParser
  import opened Scanning

  const SP: char := ' '
  const HT: char := '\t'

  // ---------------------------------------------------------------------
  // Character classes

  /** IsChar: bytes 0 to 127. Bytes above 127 fail whether char is signed (they are negative) or unsigned. */
  predicate IsChar(c: char) { c as int <= 127 }

  predicate IsCTL(c: char) { c as int <= 31 || c as int == 127 }

  predicate IsTspecials(c: char) {
    c == '(' || c == ')' || c == '<' || c == '>' || c == '@' || c == ',' || c == ';' || c == ':'
    || c == '\\' || c == '"' || c == '/' || c == '[' || c == ']' || c == '?' || c == '=' || c == '{'
    || c == '}' || c == SP || c == HT
  }

  predicate IsTokenChar(c: char) { IsChar(c) && !IsCTL(c) && !IsTspecials(c) }

  predicate IsSpace(c: char) { c == SP }

  predicate IsNotSpace(c: char) { c != SP }

  predicate IsWhite(c: char) { c == SP || c == HT }

  /** A token: one or more token characters. */
  predicate IsToken(s: string) {
    |s| > 0 && forall i :: 0 <= i < |s| ==> IsTokenChar(s[i])
  }

  function Spaces(n: nat): (r: string)
    ensures |r| == n && forall i :: 0 <= i < n ==> r[i] == SP
  {
    seq(n, i => SP)
  }

  // ---------------------------------------------------------------------
  // Scanning

  /** std::string_view(line.data() + start, 0) in the model: empty when `start` is past the end. */
  function Slice(line: string, i: nat, j: nat): string
  {
    if i <= j <= |line| then line[i..j] else []
  }

  /** The end of the trimmed value: one past the last non-SP/HT character in [start, j), or start. */
  function TrimmedEnd(line: string, start: nat, j: nat): (e: nat)
    requires start <= j <= |line|
    ensures start <= e <= j
    ensures e == start || !IsWhite(line[e - 1])
    ensures forall k :: e <= k < j ==> IsWhite(line[k])
    decreases j - start
  {
    if j == start then start
    else if !IsWhite(line[j - 1]) then j
    else TrimmedEnd(line, start, j - 1)
  }

  lemma {:induction false} TrimmedEndAt(line: string, start: nat, e: nat, j: nat)
    requires start <= e <= j <= |line|
    requires e == start || !IsWhite(line[e - 1])
    requires forall k :: e <= k < j ==> IsWhite(line[k])
    ensures TrimmedEnd(line, start, j) == e
    decreases j - start
  {
    if j > e {
      TrimmedEndAt(line, start, e, j - 1);
    }
  }

  // ---------------------------------------------------------------------
  // Specification functions of the helpers: (result, new cursor)

  function Token(line: string, st: State): (Option<string>, State)
  {
    var e := Span(line, st.index, IsTokenChar);
    (if e == st.index then None else Some(line[st.index..e]), st.(index := e))
  }

  function Number(line: string, st: State): (Option<string>, State)
  {
    var e := Span(line, st.index, IsDigit);
    (if e == st.index then None else Some(StripZeros(line[st.index..e])), st.(index := e))
  }

  function HeaderValue(line: string, st: State): (Option<string>, State)
    requires st.index <= |line|
  {
    var e := TrimmedEnd(line, st.index, |line|);
    (Some(line[st.index..e]), st.(index := |line|))
  }

  /** HttpParser::parseUri: a leading '/' or a case-insensitive "http://", then up to the first SP. */
  function Uri(line: string, st: State): (Option<string>, State)
  {
    var (slash, st1) := Literal("/", line, st);
    var (ok, st2) := if slash then (true, st1) else Literal("http://", line, st1);
    if !ok then (None, st2)
    else
      var e := Span(line, st2.index, IsNotSpace);
      (Some(Slice(line, st.index, e)), st2.(index := e))
  }

  datatype RequestVersion = RequestVersion(major: string, minor: string)

  function Version(line: string, st: State): (Option<RequestVersion>, State)
  {
    var (http, st1) := Literal("HTTP/", line, st);
    if !http then (None, st1)
    else
      var (major, st2) := Number(line, st1);
      if major.None? then (None, st2.(isMalformed := true))
      else
        var (dot, st3) := Literal(".", line, st2);
        if !dot then (None, st3.(isMalformed := true))
        else
          var (minor, st4) := Number(line, st3);
          if minor.None? then (None, st4.(isMalformed := true))
          else (Some(RequestVersion(major.value, minor.value)), st4)
  }

  // ---------------------------------------------------------------------
  // The helpers

  /** HttpParser::skipSpaces */
  method SkipSpaces(line: string, state: State) returns (state': State)
    ensures state' == state.(index := Span(line, state.index, IsSpace))
  {
    state' := state;
    while state'.index < |line| && line[state'.index] == SP
      invariant state' == state.(index := state'.index) && state.index <= state'.index
      invariant Span(line, state'.index, IsSpace) == Span(line, state.index, IsSpace)
      decreases |line| - state'.index
    {
      state' := state'.(index := state'.index + 1);
    }
  }

  /** HttpParser::skipWhiteSpaces */
  method SkipWhiteSpaces(line: string, state: State) returns (state': State)
    ensures state' == state.(index := Span(line, state.index, IsWhite))
  {
    state' := state;
    while state'.index < |line| && (line[state'.index] == SP || line[state'.index] == HT)
      invariant state' == state.(index := state'.index) && state.index <= state'.index
      invariant Span(line, state'.index, IsWhite) == Span(line, state.index, IsWhite)
      decreases |line| - state'.index
    {
      state' := state'.(index := state'.index + 1);
    }
  }

  /**
   * HttpParser::parseToken (also parseMethod and parseHeaderName, which only
   * forward to it): the maximal run of token characters; fails iff it is empty.
   */
  method ParseToken(line: string, state: State) returns (token: Option<string>, state': State)
    ensures (token, state') == Token(line, state)
    ensures token.None? <==> state.index >= |line| || !IsTokenChar(line[state.index])
    ensures token.Some? ==> IsToken(token.value)
  {
    var start := state.index;
    var index := state.index;
    while index < |line| && IsChar(line[index]) && !IsCTL(line[index]) && !IsTspecials(line[index])
      invariant start <= index
      invariant Span(line, index, IsTokenChar) == Span(line, start, IsTokenChar)
      decreases |line| - index
    {
      index := index + 1;
    }
    state' := state.(index := index);
    if index == start {
      return None, state';
    }
    token := Some(line[start..index]);
  }

  /**
   * HttpParser::parseNumber: consumes every digit; fails iff there is none;
   * the result drops leading zeros and is "0" for an all-zero run.
   */
  method ParseNumber(line: string, state: State) returns (number: Option<string>, state': State)
    ensures (number, state') == Number(line, state)
    ensures number.None? <==> state.index >= |line| || !IsDigit(line[state.index])
  {
    var start := state.index;
    var index := state.index;
    var firstNonZero: Option<nat> := None;
    while index < |line| && IsDigit(line[index])
      invariant start <= index
      invariant index > start ==> index <= |line|
      invariant Span(line, index, IsDigit) == Span(line, start, IsDigit)
      invariant forall k :: start <= k < index ==> IsDigit(line[k])
      invariant firstNonZero.None? ==> forall k :: start <= k < index ==> line[k] == '0'
      invariant firstNonZero.Some? ==>
                  start <= firstNonZero.value < index && line[firstNonZero.value] != '0'
                  && forall k :: start <= k < firstNonZero.value ==> line[k] == '0'
      decreases |line| - index
    {
      if line[index] != '0' && firstNonZero.None? {
        firstNonZero := Some(index);
      }
      index := index + 1;
    }
    state' := state.(index := index);
    if index == start {
      return None, state';
    }
    if firstNonZero.None? {
      StripRunOfZeros(line, start, index);
      return Some(line[index - 1..index]), state';
    }
    var f := firstNonZero.value;
    StripRunToFirstNonZero(line, start, f, index);
    number := Some(line[f..index]);
  }

  /**
   * HttpParser::parseHeaderValue: always succeeds, consumes the rest of the
   * line, and returns it without its trailing SP/HT.
   */
  method ParseHeaderValue(line: string, state: State) returns (value: Option<string>, state': State)
    requires state.index <= |line|
    ensures (value, state') == HeaderValue(line, state)
    ensures value.Some? && state'.index == |line|
    ensures value.value <= line[state.index..]
    ensures |value.value| == 0 || !IsWhite(value.value[|value.value| - 1])
    ensures forall k :: state.index + |value.value| <= k < |line| ==> IsWhite(line[k])
  {
    var start := state.index;
    state' := state;
    var lastNonEmpty: Option<nat> := None;
    while state'.index < |line|
      invariant state' == state.(index := state'.index)
      invariant start <= state'.index <= |line|
      invariant lastNonEmpty.None? ==> forall k :: start <= k < state'.index ==> IsWhite(line[k])
      invariant lastNonEmpty.Some? ==>
                  start <= lastNonEmpty.value < state'.index && !IsWhite(line[lastNonEmpty.value])
                  && forall k :: lastNonEmpty.value < k < state'.index ==> IsWhite(line[k])
    {
      if line[state'.index] != SP && line[state'.index] != HT {
        lastNonEmpty := Some(state'.index);
      }
      state' := state'.(index := state'.index + 1);
    }
    if lastNonEmpty.None? {
      TrimmedEndAt(line, start, start, |line|);
      return Some(line[start..start]), state';
    }
    TrimmedEndAt(line, start, lastNonEmpty.value + 1, |line|);
    value := Some(line[start..lastNonEmpty.value + 1]);
  }

  /** HttpParser::parseUri */
  method ParseUri(line: string, state: State) returns (uri: Option<string>, state': State)
    ensures (uri, state') == Uri(line, state)
  {
    var start := state.index;
    var slash, ok;
    slash, state' := ParseSymbol('/', line, state);
    ok := slash;
    if !slash {
      ok, state' := ParseLiteral("http://", line, state');
    }
    if !ok {
      return None, state';
    }
    ghost var mid := state'.index;
    while state'.index < |line| && line[state'.index] != SP
      invariant mid <= state'.index
      invariant state'.index > mid ==> state'.index <= |line|
      invariant Span(line, state'.index, IsNotSpace) == Span(line, mid, IsNotSpace)
      invariant state'.isMalformed == Uri(line, state).1.isMalformed
      decreases |line| - state'.index
    {
      state' := state'.(index := state'.index + 1);
    }
    uri := Some(Slice(line, start, state'.index));
  }

  /** HttpParser::parseVersion: "HTTP/" (any case), a number, '.', a number. */
  method ParseVersion(line: string, state: State) returns (version: Option<RequestVersion>, state': State)
    ensures (version, state') == Version(line, state)
  {
    var ok;
    ok, state' := ParseLiteral("HTTP/", line, state);
    if !ok {
      return None, state';
    }
    var major;
    major, state' := ParseNumber(line, state');
    if major.None? {
      return None, state'.(isMalformed := true);
    }
    ok, state' := ParseSymbol('.', line, state');
    if !ok {
      return None, state'.(isMalformed := true);
    }
    var minor;
    minor, state' := ParseNumber(line, state');
    if minor.None? {
      return None, state'.(isMalformed := true);
    }
    version := Some(RequestVersion(major.value, minor.value));
  }

  // ---------------------------------------------------------------------
  // Request-Line

  datatype RequestLine = RequestLine(methodName: string, uri: string, version: Option<RequestVersion>)

  datatype ParseRequestLineError =
    | RequestLineOk | MalformedMethod | MalformedUri | MalformedVersion | RequestMalformedLine

  /** The outcome of parseRequestLine: the request line or none, and the error code it assigns. */
  function RequestLineOf(line: string): (Option<RequestLine>, ParseRequestLineError)
  {
    var (methodName, st1) := Token(line, State(0, false));
    if methodName.None? then (None, MalformedMethod)
    else AfterMethod(line, methodName.value, st1)
  }

  /** parseRequestLine after the method token: SP, spaces, the URI. */
  function AfterMethod(line: string, methodName: string, st1: State): (Option<RequestLine>, ParseRequestLineError)
  {
    var (sp, st2) := Literal([SP], line, st1);
    if !sp then (None, RequestMalformedLine)
    else
      var (uri, st4) := Uri(line, st2.(index := Span(line, st2.index, IsSpace)));
      if uri.None? then (None, MalformedUri)
      else AfterUri(line, methodName, uri.value, st4)
  }

  /** parseRequestLine after the URI: the end of the line (HTTP/0.9), or SP, spaces, the version, spaces. */
  function AfterUri(line: string, methodName: string, uri: string, st4: State): (Option<RequestLine>, ParseRequestLineError)
  {
    if st4.index == |line| then (Some(RequestLine(methodName, uri, None)), RequestLineOk)
    else
      var (sp, st5) := Literal([SP], line, st4);
      if !sp then (None, RequestMalformedLine)
      else
        var (version, st7) := Version(line, st5.(index := Span(line, st5.index, IsSpace)));
        if version.None? then (None, MalformedVersion)
        else if Span(line, st7.index, IsSpace) != |line| then (None, RequestMalformedLine)
        else (Some(RequestLine(methodName, uri, version)), RequestLineOk)
  }

  /** HttpParser::parseRequestLine */
  method ParseRequestLine(line: string) returns (requestLine: Option<RequestLine>, error: ParseRequestLineError)
    ensures (requestLine, error) == RequestLineOf(line)
    ensures requestLine.Some? <==> error == RequestLineOk
  {
    var state := State(0, false);
    var methodName;
    methodName, state := ParseToken(line, state);
    if methodName.None? {
      return None, MalformedMethod;
    }
    var ok;
    ok, state := ParseSymbol(SP, line, state);
    if !ok {
      return None, RequestMalformedLine;
    }
    state := SkipSpaces(line, state);
    var uri;
    uri, state := ParseUri(line, state);
    if uri.None? {
      return None, MalformedUri;
    }
    if state.index == |line| {
      return Some(RequestLine(methodName.value, uri.value, None)), RequestLineOk;
    }
    ok, state := ParseSymbol(SP, line, state);
    if !ok {
      return None, RequestMalformedLine;
    }
    state := SkipSpaces(line, state);
    var version;
    version, state := ParseVersion(line, state);
    if version.None? {
      return None, MalformedVersion;
    }
    state := SkipSpaces(line, state);
    if state.index != |line| {
      return None, RequestMalformedLine;
    }
    return Some(RequestLine(methodName.value, uri.value, version)), RequestLineOk;
  }

  /** The start of a request URI: '/' or "http://" in any case. */
  predicate StartsUri(u: string) {
    (|u| > 0 && u[0] == '/') || (|u| >= 7 && EqualsIgnoreCase(u[..7], "http://"))
  }

  predicate NoSpace(u: string) {
    forall i :: 0 <= i < |u| ==> u[i] != SP
  }

  /** The token scan at the start of a line whose first m characters are a token. */
  lemma {:induction false} TokenAtStart(line: string, m: nat)
    requires m <= |line| && IsToken(line[..m])
    requires m == |line| || !IsTokenChar(line[m])
    ensures Token(line, State(0, false)) == (Some(line[..m]), State(m, false))
  {
    assert forall k :: 0 <= k < m ==> line[..m][k] == line[k];
    SpanAt(line, 0, m, IsTokenChar);
  }

  /** The URI scan of the request line over the text line[i..e]. */
  lemma {:induction false} UriAt(line: string, i: nat, e: nat)
    requires i <= e <= |line| && StartsUri(line[i..e]) && NoSpace(line[i..e])
    requires e == |line| || line[e] == SP
    ensures Uri(line, State(i, false)) == (Some(line[i..e]), State(e, false))
  {
    var u := line[i..e];
    var st := State(i, false);
    var (slash, st1) := Literal("/", line, st);
    assert line[i] == u[0];
    if !slash {
      assert line[i..i + 7] == u[..7];
      FullMatchIsEqualIgnoringCase("http://", line, i);
    }
    var (ok, st2) := if slash then (true, st1) else Literal("http://", line, st1);
    assert ok && !st2.isMalformed;
    assert i < st2.index <= e;
    forall k | st2.index <= k < e ensures IsNotSpace(line[k]) {
      assert line[k] == u[k - i];
    }
    SpanAt(line, st2.index, e, IsNotSpace);
  }

  /** A run of n >= 1 spaces at `i` is consumed by parseSymbol(SP) then skipSpaces. */
  lemma {:induction false} SpacesAt(line: string, i: nat, n: nat)
    requires n >= 1 && i + n <= |line|
    requires forall k :: i <= k < i + n ==> line[k] == SP
    requires i + n == |line| || line[i + n] != SP
    ensures Literal([SP], line, State(i, false)) == (true, State(i + 1, false))
    ensures Span(line, i + 1, IsSpace) == i + n
  {
    SpanAt(line, i + 1, i + n, IsSpace);
  }

  /** The HTTP/0.9 Simple-Request over a line: line[..m] a token, n spaces, then the URI to the end. */
  lemma {:induction false} SimpleRequestAt(line: string, m: nat, n: nat)
    requires n >= 1 && m + n <= |line| && IsToken(line[..m])
    requires forall k :: m <= k < m + n ==> line[k] == SP
    requires StartsUri(line[m + n..]) && NoSpace(line[m + n..])
    ensures RequestLineOf(line) == (Some(RequestLine(line[..m], line[m + n..], None)), RequestLineOk)
  {
    assert line[m + n] == line[m + n..][0];
    MethodPartAt(line, m, n);
    assert line[m + n..|line|] == line[m + n..];
    UriAt(line, m + n, |line|);
    SimpleRequestFromSteps(line, m, n, line[..m], line[m + n..]);
  }

  lemma {:induction false} SimpleRequestFromSteps(line: string, m: nat, n: nat, methodName: string, uri: string)
    requires Token(line, State(0, false)) == (Some(methodName), State(m, false))
    requires Literal([SP], line, State(m, false)) == (true, State(m + 1, false))
    requires Span(line, m + 1, IsSpace) == m + n
    requires Uri(line, State(m + n, false)) == (Some(uri), State(|line|, false))
    ensures RequestLineOf(line) == (Some(RequestLine(methodName, uri, None)), RequestLineOk)
  {
    AfterMethodSteps(line, m, n, |line|, methodName, uri);
  }

  /**
   * HTTP/0.9 Simple-Request: "method SP+ uri" with nothing after the URI
   * parses back to its parts, without a version.
   */
  lemma {:induction false} SimpleRequestRoundTrip(methodName: string, n: nat, uri: string)
    requires IsToken(methodName) && n >= 1 && StartsUri(uri) && NoSpace(uri)
    ensures RequestLineOf(methodName + Spaces(n) + uri) == (Some(RequestLine(methodName, uri, None)), RequestLineOk)
  {
    var line := methodName + Spaces(n) + uri;
    var m := |methodName|;
    assert line[..m] == methodName;
    assert line[m + n..] == uri;
    SimpleRequestAt(line, m, n);
  }

  /** The digit run line[i..e] is read as the number text StripZeros(line[i..e]). */
  lemma {:induction false} NumberAt(line: string, i: nat, e: nat)
    requires i < e <= |line| && AllDigits(line[i..e])
    requires e == |line| || !IsDigit(line[e])
    ensures Number(line, State(i, false)) == (Some(StripZeros(line[i..e])), State(e, false))
  {
    forall k | i <= k < e ensures IsDigit(line[k]) {
      assert line[k] == line[i..e][k - i];
    }
    SpanAt(line, i, e, IsDigit);
  }

  /** The version "HTTP/" major "." minor over line[v..end], the prefix in any case. */
  lemma {:induction false} VersionAt(line: string, v: nat, dot: nat, end: nat)
    requires v + 5 < dot < end <= |line|
    requires EqualsIgnoreCase(line[v..v + 5], "HTTP/")
    requires AllDigits(line[v + 5..dot]) && line[dot] == '.' && AllDigits(line[dot + 1..end])
    requires dot + 1 < end
    requires end == |line| || !IsDigit(line[end])
    ensures Version(line, State(v, false))
         == (Some(RequestVersion(StripZeros(line[v + 5..dot]), StripZeros(line[dot + 1..end]))), State(end, false))
  {
    VersionHead(line, v, dot);
    VersionMinor(line, dot, end);
    VersionFromSteps(line, v, dot, end, StripZeros(line[v + 5..dot]), StripZeros(line[dot + 1..end]));
  }

  lemma {:induction false} VersionHead(line: string, v: nat, dot: nat)
    requires v + 5 < dot < |line|
    requires EqualsIgnoreCase(line[v..v + 5], "HTTP/")
    requires AllDigits(line[v + 5..dot]) && line[dot] == '.'
    ensures Literal("HTTP/", line, State(v, false)) == (true, State(v + 5, false))
    ensures Number(line, State(v + 5, false)) == (Some(StripZeros(line[v + 5..dot])), State(dot, false))
  {
    LiteralPresent("HTTP/", line, v, false);
    NumberAt(line, v + 5, dot);
  }

  lemma {:induction false} VersionMinor(line: string, dot: nat, end: nat)
    requires dot + 1 < end <= |line|
    requires line[dot] == '.' && AllDigits(line[dot + 1..end])
    requires end == |line| || !IsDigit(line[end])
    ensures Literal(".", line, State(dot, false)) == (true, State(dot + 1, false))
    ensures Number(line, State(dot + 1, false)) == (Some(StripZeros(line[dot + 1..end])), State(end, false))
  {
    SymbolPresent('.', line, dot, false);
    assert Literal(".", line, State(dot, false)) == Literal(['.'], line, State(dot, false));
    NumberAt(line, dot + 1, end);
  }

  lemma {:induction false} VersionFromSteps(line: string, v: nat, dot: nat, end: nat, major: string, minor: string)
    requires Literal("HTTP/", line, State(v, false)) == (true, State(v + 5, false))
    requires Number(line, State(v + 5, false)) == (Some(major), State(dot, false))
    requires Literal(".", line, State(dot, false)) == (true, State(dot + 1, false))
    requires Number(line, State(dot + 1, false)) == (Some(minor), State(end, false))
    ensures Version(line, State(v, false)) == (Some(RequestVersion(major, minor)), State(end, false))
  {
  }

  /**
   * Full Request-Line over a line: a token, a spaces, the URI, b spaces, the
   * version at v, then only spaces.
   */
  lemma {:induction false} FullRequestAt(line: string, m: nat, a: nat, e: nat, b: nat, dot: nat, end: nat)
    requires a >= 1 && b >= 1 && m + a < e && e + b + 5 < dot && dot + 1 < end <= |line|
    requires IsToken(line[..m])
    requires forall k :: m <= k < m + a ==> line[k] == SP
    requires StartsUri(line[m + a..e]) && NoSpace(line[m + a..e])
    requires forall k :: e <= k < e + b ==> line[k] == SP
    requires EqualsIgnoreCase(line[e + b..e + b + 5], "HTTP/")
    requires AllDigits(line[e + b + 5..dot]) && line[dot] == '.' && AllDigits(line[dot + 1..end])
    requires forall k :: end <= k < |line| ==> line[k] == SP
    ensures RequestLineOf(line)
         == (Some(RequestLine(line[..m], line[m + a..e],
                              Some(RequestVersion(StripZeros(line[e + b + 5..dot]), StripZeros(line[dot + 1..end]))))),
             RequestLineOk)
  {
    MethodAndUriAt(line, m, a, e);
    VersionPartAt(line, e, e + b, dot, end);
    FullRequestFromSteps(line, m, a, e, b, end, line[..m], line[m + a..e],
                         RequestVersion(StripZeros(line[e + b + 5..dot]), StripZeros(line[dot + 1..end])));
  }

  lemma {:induction false} MethodPartAt(line: string, m: nat, a: nat)
    requires a >= 1 && m + a < |line|
    requires IsToken(line[..m])
    requires forall k :: m <= k < m + a ==> line[k] == SP
    requires line[m + a] != SP
    ensures Token(line, State(0, false)) == (Some(line[..m]), State(m, false))
    ensures Literal([SP], line, State(m, false)) == (true, State(m + 1, false))
    ensures Span(line, m + 1, IsSpace) == m + a
  {
    TokenAtStart(line, m);
    SpacesAt(line, m, a);
  }

  lemma {:induction false} MethodAndUriAt(line: string, m: nat, a: nat, e: nat)
    requires a >= 1 && m + a < e < |line|
    requires IsToken(line[..m])
    requires forall k :: m <= k < m + a ==> line[k] == SP
    requires StartsUri(line[m + a..e]) && NoSpace(line[m + a..e])
    requires line[e] == SP
    ensures Token(line, State(0, false)) == (Some(line[..m]), State(m, false))
    ensures Literal([SP], line, State(m, false)) == (true, State(m + 1, false))
    ensures Span(line, m + 1, IsSpace) == m + a
    ensures Uri(line, State(m + a, false)) == (Some(line[m + a..e]), State(e, false))
  {
    UriAt(line, m + a, e);
    assert line[m + a] == line[m + a..e][0];
    MethodPartAt(line, m, a);
  }

  lemma {:induction false} VersionPartAt(line: string, e: nat, v: nat, dot: nat, end: nat)
    requires e < v && v + 5 < dot && dot + 1 < end <= |line|
    requires forall k :: e <= k < v ==> line[k] == SP
    requires EqualsIgnoreCase(line[v..v + 5], "HTTP/")
    requires AllDigits(line[v + 5..dot]) && line[dot] == '.' && AllDigits(line[dot + 1..end])
    requires forall k :: end <= k < |line| ==> line[k] == SP
    ensures Literal([SP], line, State(e, false)) == (true, State(e + 1, false))
    ensures Span(line, e + 1, IsSpace) == v
    ensures Version(line, State(v, false))
         == (Some(RequestVersion(StripZeros(line[v + 5..dot]), StripZeros(line[dot + 1..end]))), State(end, false))
    ensures Span(line, end, IsSpace) == |line|
  {
    assert line[v] == line[v..v + 5][0];
    SpacesAt(line, e, v - e);
    assert end == |line| || !IsDigit(line[end]) by {
      if end < |line| { assert line[end] == SP; }
    }
    VersionAt(line, v, dot, end);
    SpanAt(line, end, |line|, IsSpace);
  }

  lemma {:induction false} FullRequestFromSteps(line: string, m: nat, a: nat, e: nat, b: nat, end: nat,
                             methodName: string, uri: string, version: RequestVersion)
    requires Token(line, State(0, false)) == (Some(methodName), State(m, false))
    requires Literal([SP], line, State(m, false)) == (true, State(m + 1, false))
    requires Span(line, m + 1, IsSpace) == m + a
    requires Uri(line, State(m + a, false)) == (Some(uri), State(e, false))
    requires e != |line|
    requires Literal([SP], line, State(e, false)) == (true, State(e + 1, false))
    requires Span(line, e + 1, IsSpace) == e + b
    requires Version(line, State(e + b, false)) == (Some(version), State(end, false))
    requires Span(line, end, IsSpace) == |line|
    ensures RequestLineOf(line) == (Some(RequestLine(methodName, uri, Some(version))), RequestLineOk)
  {
    AfterUriSteps(line, e, b, end, methodName, uri, version);
    AfterMethodSteps(line, m, a, e, methodName, uri);
  }

  lemma {:induction false} AfterMethodSteps(line: string, m: nat, a: nat, e: nat, methodName: string, uri: string)
    requires Literal([SP], line, State(m, false)) == (true, State(m + 1, false))
    requires Span(line, m + 1, IsSpace) == m + a
    requires Uri(line, State(m + a, false)) == (Some(uri), State(e, false))
    ensures AfterMethod(line, methodName, State(m, false)) == AfterUri(line, methodName, uri, State(e, false))
  {
    var (sp, st2) := Literal([SP], line, State(m, false));
    assert sp && st2 == State(m + 1, false);
    var st3 := st2.(index := Span(line, st2.index, IsSpace));
    assert st3 == State(m + a, false);
    var (uri', st4) := Uri(line, st3);
    assert uri' == Some(uri) && st4 == State(e, false);
  }

  lemma {:induction false} AfterUriSteps(line: string, e: nat, b: nat, end: nat, methodName: string, uri: string, version: RequestVersion)
    requires e != |line|
    requires Literal([SP], line, State(e, false)) == (true, State(e + 1, false))
    requires Span(line, e + 1, IsSpace) == e + b
    requires Version(line, State(e + b, false)) == (Some(version), State(end, false))
    requires Span(line, end, IsSpace) == |line|
    ensures AfterUri(line, methodName, uri, State(e, false)) == (Some(RequestLine(methodName, uri, Some(version))), RequestLineOk)
  {
    var (sp, st5) := Literal([SP], line, State(e, false));
    assert sp && st5 == State(e + 1, false);
    var st6 := st5.(index := Span(line, st5.index, IsSpace));
    assert st6 == State(e + b, false);
    var (version', st7) := Version(line, st6);
    assert version' == Some(version) && st7 == State(end, false);
  }

  /**
   * Full Request-Line: "method SP+ uri SP+ HTTP/major.minor SP*" (the "HTTP/"
   * in any case) parses back to its parts, numbers without leading zeros.
   */
  lemma {:induction false} FullRequestRoundTrip(methodName: string, a: nat, uri: string, b: nat, http: string,
                             major: string, minor: string, c: nat)
    requires IsToken(methodName) && a >= 1 && StartsUri(uri) && NoSpace(uri) && b >= 1
    requires EqualsIgnoreCase(http, "HTTP/")
    requires |major| > 0 && AllDigits(major) && |minor| > 0 && AllDigits(minor)
    ensures RequestLineOf(methodName + Spaces(a) + uri + Spaces(b) + http + major + "." + minor + Spaces(c))
         == (Some(RequestLine(methodName, uri, Some(RequestVersion(StripZeros(major), StripZeros(minor))))),
             RequestLineOk)
  {
    var line := methodName + Spaces(a) + uri + Spaces(b) + http + major + "." + minor + Spaces(c);
    var m := |methodName|;
    var e := m + a + |uri|;
    var v := e + b;
    var dot := v + 5 + |major|;
    var end := dot + 1 + |minor|;
    assert line[..m] == methodName;
    assert line[m + a..e] == uri;
    assert line[v..v + 5] == http;
    assert line[v + 5..dot] == major;
    assert line[dot + 1..end] == minor;
    FullRequestAt(line, m, a, e, b, dot, end);
  }

  /** parseRequestLine reports kMalformedMethod exactly when the line does not start with a token character. */
  lemma {:induction false} MalformedMethodIff(line: string)
    ensures RequestLineOf(line).1 == MalformedMethod <==> |line| == 0 || !IsTokenChar(line[0])
  {
  }

  /** A URI accepted by parseUri is the text between the two cursors: it starts like a URI and has no SP. */
  lemma {:induction false} UriShape(line: string, st: State)
    requires st.index <= |line| && Uri(line, st).0.Some?
    ensures var (u, st') := Uri(line, st);
      st.index < st'.index <= |line| && u.value == line[st.index..st'.index]
      && StartsUri(u.value) && NoSpace(u.value)
  {
    var (slash, st1) := Literal("/", line, st);
    var (ok, st2) := if slash then (true, st1) else Literal("http://", line, st1);
    UriHead(line, st);
    UriTail(line, st.index, st2.index);
  }

  /** The "/" or "http://" that parseUri demands: a start of a URI without SP. */
  lemma {:induction false} UriHead(line: string, st: State)
    requires st.index <= |line|
    ensures var (slash, st1) := Literal("/", line, st);
      var (ok, st2) := if slash then (true, st1) else Literal("http://", line, st1);
      ok ==> st.index < st2.index <= |line|
             && StartsUri(line[st.index..st2.index]) && NoSpace(line[st.index..st2.index])
  {
    var i := st.index;
    var (slash, st1) := Literal("/", line, st);
    FullMatchIsEqualIgnoringCase("/", line, i);
    if slash {
      assert ToLower(line[i..i + 1][0]) == '/';
    } else {
      var (ok, st2) := Literal("http://", line, st1);
      FullMatchIsEqualIgnoringCase("http://", line, i);
      if ok {
        var u := line[i..i + 7];
        assert u[..7] == u;
        forall k | 0 <= k < 7 ensures u[k] != SP {
          assert ToLower(u[k]) == ToLower("http://"[k]);
        }
      }
    }
  }

  /** The SP-free run after the start of a URI extends it, still without SP. */
  lemma {:induction false} UriTail(line: string, i: nat, j: nat)
    requires i < j <= |line| && StartsUri(line[i..j]) && NoSpace(line[i..j])
    ensures var e := Span(line, j, IsNotSpace);
      j <= e <= |line| && StartsUri(line[i..e]) && NoSpace(line[i..e])
  {
    var e := Span(line, j, IsNotSpace);
    var u := line[i..e];
    assert u[..j - i] == line[i..j];
    assert u[0] == line[i..j][0];
    if |line[i..j]| >= 7 {
      assert u[..7] == line[i..j][..7];
    }
    forall k | 0 <= k < |u| ensures u[k] != SP {
      if k < j - i {
        assert u[k] == line[i..j][k];
      } else {
        assert u[k] == line[k + i];
      }
    }
  }

  /** What a parsed request line is made of: a token prefix, then a URI without SP; an HTTP/0.9 line ends with the URI. */
  lemma {:induction false} RequestLineParts(line: string)
    requires RequestLineOf(line).0.Some?
    ensures var r := RequestLineOf(line).0.value;
      IsToken(r.methodName) && r.methodName <= line
      && StartsUri(r.uri) && NoSpace(r.uri)
      && (r.version.None? ==> |r.uri| <= |line| && line[|line| - |r.uri|..] == r.uri)
  {
    var (methodName, st1) := Token(line, State(0, false));
    var (sp, st2) := Literal([SP], line, st1);
    var st3 := st2.(index := Span(line, st2.index, IsSpace));
    assert st3.index <= |line|;
    UriShape(line, st3);
  }

  // ---------------------------------------------------------------------
  // Header line

  datatype RequestHeader = RequestHeader(name: string, value: string)

  datatype ParseRequestHeaderError = HeaderOk | MalformedName | MalformedValue | HeaderMalformedLine

  /**
   * The outcome of parseRequestHeader: the header or none, and the error
   * code it assigns, if any (on success it assigns none).
   */
  function RequestHeaderOf(line: string): (Option<RequestHeader>, Option<ParseRequestHeaderError>)
  {
    var (name, st1) := Token(line, State(0, false));
    if name.None? then (None, Some(MalformedName))
    else
      var (colon, st2) := Literal(":", line, st1);
      if !colon then (None, Some(HeaderMalformedLine))
      else
        var st3 := st2.(index := Span(line, st2.index, IsWhite));
        var (value, st4) := HeaderValue(line, st3);
        if value.None? then (None, Some(MalformedValue))
        else if st4.index != |line| then (None, Some(HeaderMalformedLine))
        else (Some(RequestHeader(name.value, value.value)), None)
  }

  /** HttpParser::parseRequestHeader; `error` is the caller's variable, untouched on success. */
  method ParseRequestHeader(line: string, error: ParseRequestHeaderError)
    returns (header: Option<RequestHeader>, error': ParseRequestHeaderError)
    ensures header == RequestHeaderOf(line).0
    ensures error' == if RequestHeaderOf(line).1.Some? then RequestHeaderOf(line).1.value else error
  {
    var state := State(0, false);
    var name;
    name, state := ParseToken(line, state);
    if name.None? {
      return None, MalformedName;
    }
    var ok;
    ok, state := ParseSymbol(':', line, state);
    if !ok {
      return None, HeaderMalformedLine;
    }
    state := SkipWhiteSpaces(line, state);
    var value;
    value, state := ParseHeaderValue(line, state);
    if value.None? {
      return None, MalformedValue;
    }
    if state.index != |line| {
      return None, HeaderMalformedLine;
    }
    return Some(RequestHeader(name.value, value.value)), error;
  }

  /** A header line fails exactly when it does not start with a token immediately followed by ':'. */
  lemma {:induction false} HeaderFailsIff(line: string)
    ensures var e := Span(line, 0, IsTokenChar);
      RequestHeaderOf(line).0.None? <==> e == 0 || e == |line| || line[e] != ':'
    ensures RequestHeaderOf(line).0.None? <==> RequestHeaderOf(line).1.Some?
    ensures RequestHeaderOf(line).1 != Some(MalformedValue)
  {
  }

  /** The trimmed header value: its text without trailing SP/HT. */
  function TrimEnd(s: string): (r: string)
    ensures r <= s && (|r| == 0 || !IsWhite(r[|r| - 1]))
    ensures forall k :: |r| <= k < |s| ==> IsWhite(s[k])
  {
    s[..TrimmedEnd(s, 0, |s|)]
  }

  /**
   * "name:" then SP/HT, then a value parses back to the name and the value
   * without its trailing SP/HT.
   */
  lemma {:induction false} HeaderRoundTrip(name: string, white: string, value: string)
    requires IsToken(name)
    requires forall i :: 0 <= i < |white| ==> IsWhite(white[i])
    requires |value| == 0 || !IsWhite(value[0])
    ensures RequestHeaderOf(name + ":" + white + value) == (Some(RequestHeader(name, TrimEnd(value))), None)
  {
    var line := name + ":" + white + value;
    var n := |name|;
    var v := n + 1 + |white|;
    assert line[..n] == name && line[n] == ':';
    HeaderNameAt(line, name);
    forall k | n + 1 <= k < v ensures IsWhite(line[k]) {
      assert line[k] == white[k - n - 1];
    }
    if v < |line| {
      assert line[v] == value[0];
    }
    SpanAt(line, n + 1, v, IsWhite);
    assert line[v..] == value;
    HeaderValueAt(line, v, value);
    HeaderFromSteps(line, n, v, name, TrimEnd(value));
  }

  /** A token name then ':' at the start of a header line. */
  lemma {:induction false} HeaderNameAt(line: string, name: string)
    requires IsToken(name) && |name| < |line| && line[..|name|] == name && line[|name|] == ':'
    ensures Token(line, State(0, false)) == (Some(name), State(|name|, false))
    ensures Literal(":", line, State(|name|, false)) == (true, State(|name| + 1, false))
  {
    TokenAtStart(line, |name|);
    SymbolPresent(':', line, |name|, false);
    assert ":" == [':'];
  }

  /** The value at the end of a header line is read without its trailing SP/HT. */
  lemma {:induction false} HeaderValueAt(line: string, v: nat, value: string)
    requires v <= |line| && line[v..] == value
    ensures HeaderValue(line, State(v, false)) == (Some(TrimEnd(value)), State(|line|, false))
  {
    var t := TrimmedEnd(value, 0, |value|);
    forall k | v + t <= k < |line| ensures IsWhite(line[k]) {
      assert line[k] == value[k - v];
    }
    if t > 0 {
      assert line[v + t - 1] == value[t - 1];
    }
    TrimmedEndAt(line, v, v + t, |line|);
    assert line[v..v + t] == value[..t];
  }

  lemma {:induction false} HeaderFromSteps(line: string, n: nat, v: nat, name: string, value: string)
    requires v <= |line|
    requires Token(line, State(0, false)) == (Some(name), State(n, false))
    requires Literal(":", line, State(n, false)) == (true, State(n + 1, false))
    requires Span(line, n + 1, IsWhite) == v
    requires HeaderValue(line, State(v, false)) == (Some(value), State(|line|, false))
    ensures RequestHeaderOf(line) == (Some(RequestHeader(name, value)), None)
  {
  }
}
