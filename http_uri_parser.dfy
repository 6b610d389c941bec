/**
 * HttpUriParser: splits a Request-URI into host, port, path and query.
 * Two forms are accepted: the absolute form "http://host[:port][/path][?query]"
 * and the origin form "/path[?query]", with the character classes of
 * RFC 3986 (pct-encoded, section 2.1; sub-delims, 2.2; unreserved, 2.3;
 * IPv4address and dec-octet, 3.2.2; port, 3.2.3; path, 3.3; query, 3.4).
 *
 * Each parse helper is a method over the BaseParser cursor, proved equal
 * to a specification function of this module; the grammar the parser
 * accepts is stated as lemmas about those functions.
 */
module HttpUriParser {
  import opened Wrappers
  import opened Ascii
  import opened BaseParser
  import opened Scanning

  // ---------------------------------------------------------------------
  // Character classes

  predicate IsAlpha(c: char) { ('a' <= c <= 'z') || ('A' <= c <= 'Z') }

  predicate IsSubDelims(c: char) {
    c == '!' || c == '$' || c == '&' || c == '\'' || c == '(' || c == ')'
    || c == '*' || c == '+' || c == ',' || c == ';' || c == '='
  }

  predicate IsUnreserved(c: char) {
    IsAlpha(c) || IsDigit(c) || c == '-' || c == '.' || c == '_' || c == '~'
  }

  predicate IsHex(c: char) { IsDigit(c) || ('a' <= c <= 'f') || ('A' <= c <= 'F') }

  /** The characters parseHostname takes as they are. */
  predicate IsHostChar(c: char) { IsUnreserved(c) || IsSubDelims(c) }

  /** parseSegment adds ':' and '@' to the host characters. */
  predicate IsSegmentChar(c: char) { IsHostChar(c) || c == ':' || c == '@' }

  /** parseQuery adds '/' and '?' to the segment characters. */
  predicate IsQueryChar(c: char) { IsSegmentChar(c) || c == '/' || c == '?' }

  /** A whole absolute path after its leading '/': segments joined by '/'. */
  predicate IsPathChar(c: char) { IsSegmentChar(c) || c == '/' }

  /**
   * A string made of `allowed` characters and pct-encoded triples
   * ('%' and two hex digits), the grammar the scanning loops accept.
   */
  predicate Encoded(s: string, allowed: char -> bool)
    decreases |s|
  {
    |s| == 0
    || (allowed(s[0]) && Encoded(s[1..], allowed))
    || (|s| >= 3 && s[0] == '%' && IsHex(s[1]) && IsHex(s[2]) && Encoded(s[3..], allowed))
  }

  /** A dec-octet of section 3.2.2 of RFC 3986: 0 to 255 without leading zeros. */
  predicate IsDecOctet(s: string) {
    (|s| == 1 && s[0] == '0') || (1 <= |s| <= 3 && AllDigits(s) && s[0] != '0' && Value(s) <= 255)
  }

  /** An absolute path: '/' followed by segments separated by '/'. */
  predicate IsAbsolutePath(p: string) {
    |p| > 0 && p[0] == '/' && Encoded(p[1..], IsPathChar)
  }

  datatype UriParts = UriParts(host: Option<string>, port: Option<string>,
                               path: Option<string>, query: Option<string>)

  // ---------------------------------------------------------------------
  // Specification functions: (result, new cursor)

  /** parseEncodedSymbol: '%' and two hex digits; a '%' without them is malformed. */
  function EncodedSymbol(line: string, st: State): (bool, State)
  {
    var (pct, st1) := Literal("%", line, st);
    if !pct then (false, st1)
    else if |line| - st1.index < 2 || !IsHex(line[st1.index]) || !IsHex(line[st1.index + 1])
    then (false, st1.(isMalformed := true))
    else (true, st1.(index := st1.index + 2))
  }

  /**
   * The loop shared by parseHostname, parseSegment and parseQuery: take
   * `allowed` characters and pct-encoded triples until anything else.
   */
  function Run(line: string, st: State, allowed: char -> bool): (r: State)
    ensures st.index <= r.index
    ensures r.index == st.index || r.index <= |line|
    ensures st.isMalformed ==> r.isMalformed
    decreases |line| - st.index
  {
    if st.index >= |line| then st
    else if allowed(line[st.index]) then Run(line, st.(index := st.index + 1), allowed)
    else
      var (ok, st1) := EncodedSymbol(line, st);
      if ok then Run(line, st1, allowed) else st1
  }

  function Hostname(line: string, st: State): (Option<string>, State)
  {
    if st.index >= |line| || IsDigit(line[st.index]) then (None, st)
    else
      var st1 := Run(line, st, IsHostChar);
      if st1.isMalformed then (None, st1)
      else if st1.index == st.index then (None, st1)
      else (Some(line[st.index..st1.index]), st1)
  }

  /** parseDecimal: a run of digits that does not start with '0'. */
  function Decimal(line: string, st: State): (Option<string>, State)
  {
    if st.index < |line| && IsDigit(line[st.index]) && line[st.index] != '0' then
      var e := Span(line, st.index, IsDigit);
      (Some(line[st.index..e]), st.(index := e))
    else (None, st)
  }

  /** One dec-octet of parseIPv4Address: a decimal of at most 3 digits and value 255, or a '0'. */
  function Octet(line: string, st: State): (r: State)
    ensures st.index <= r.index
    ensures st.index <= |line| ==> r.index <= |line|
  {
    var (d, st1) := Decimal(line, st);
    if st1.isMalformed then st1
    else if d.Some? then
      if |d.value| > 3 || Value(d.value) > 255 then st1.(isMalformed := true) else st1
    else
      var (zero, st2) := Literal("0", line, st1);
      if !zero then st2.(isMalformed := true) else st2
  }

  /** Iterations i, ..., 3 of the loop of parseIPv4Address; a '.' follows every octet but the last. */
  function OctetsFrom(line: string, st: State, i: nat): (r: State)
    requires i <= 4
    ensures st.index <= r.index
    ensures st.index <= |line| ==> r.index <= |line|
    decreases 4 - i
  {
    if i == 4 then st
    else
      var st1 := Octet(line, st);
      if st1.isMalformed then st1
      else if i + 1 != 4 then
        var (dot, st2) := Literal(".", line, st1);
        if !dot then st2.(isMalformed := true) else OctetsFrom(line, st2, i + 1)
      else OctetsFrom(line, st1, i + 1)
  }

  function IPv4(line: string, st: State): (Option<string>, State)
  {
    if st.index >= |line| || !IsDigit(line[st.index]) then (None, st)
    else
      var st1 := OctetsFrom(line, st, 0);
      if st1.isMalformed then (None, st1) else (Some(line[st.index..st1.index]), st1)
  }

  /** parsePort: every digit is consumed; leading zeros are dropped; at most 5 digits and 65535. */
  function Port(line: string, st: State): (Option<string>, State)
  {
    var e := Span(line, st.index, IsDigit);
    var st1 := st.(index := e);
    if e == st.index then (None, st1)
    else
      var token := StripZeros(line[st.index..e]);
      if |token| > 5 || Value(token) > 65535 then (None, st1.(isMalformed := true))
      else (Some(token), st1)
  }

  /** The loop of parseAbsolutePath: while a '/' follows, a segment. */
  function Segments(line: string, st: State): (r: State)
    ensures st.index <= r.index
    ensures r.index == st.index || r.index <= |line|
    decreases |line| - st.index
  {
    var (slash, st1) := Literal("/", line, st);
    if !slash then st1
    else
      var st2 := Run(line, st1, IsSegmentChar);
      if st2.isMalformed then st2 else Segments(line, st2)
  }

  function AbsolutePath(line: string, st: State): (Option<string>, State)
  {
    var st1 := Segments(line, st);
    if st1.isMalformed then (None, st1)
    else if st1.index == st.index then (None, st1)
    else (Some(line[st.index..st1.index]), st1)
  }

  /** parseQuery: '?' and the query after it, which may be empty. */
  function Query(line: string, st: State): (Option<string>, State)
  {
    var (mark, st1) := Literal("?", line, st);
    if !mark then (None, st1)
    else
      var st2 := Run(line, st1, IsQueryChar);
      if st2.isMalformed then (None, st2) else (Some(line[st1.index..st2.index]), st2)
  }

  /** parseAbsoluteUri: "http://" (any case), then an IPv4 address or a hostname. */
  function AbsoluteUri(line: string, st: State): (Option<UriParts>, State)
  {
    var (http, st1) := Literal("http://", line, st);
    if !http then (None, st1)
    else
      var (address, st2) := IPv4(line, st1);
      if st2.isMalformed then (None, st2)
      else if address.Some? then AfterHost(line, address.value, st2)
      else
        var (name, st3) := Hostname(line, st2);
        if name.None? then (None, st3.(isMalformed := true))
        else AfterHost(line, name.value, st3)
  }

  /** parseAbsoluteUri after the host: an optional ':' and port, which must then be present. */
  function AfterHost(line: string, host: string, st: State): (Option<UriParts>, State)
  {
    var (colon, st1) := Literal(":", line, st);
    if !colon then AfterPort(line, host, None, st1)
    else
      var (port, st2) := Port(line, st1);
      if port.None? then (None, st2.(isMalformed := true))
      else AfterPort(line, host, port, st2)
  }

  /** parseAbsoluteUri after the port: an optional path and query, then the end of the line. */
  function AfterPort(line: string, host: string, port: Option<string>, st: State): (Option<UriParts>, State)
  {
    var (path, st1) := AbsolutePath(line, st);
    if st1.isMalformed then (None, st1)
    else
      var (query, st2) := Query(line, st1);
      if st2.isMalformed then (None, st2)
      else if st2.index != |line| then (None, st2.(isMalformed := true))
      else (Some(UriParts(Some(host), port, path, query)), st2)
  }

  /** HttpUriParser::parseUri: the absolute form, else (when not malformed) the origin form. */
  function UriOf(line: string): Option<UriParts>
  {
    var (absolute, st) := AbsoluteUri(line, State(0, false));
    if absolute.Some? then absolute
    else if st.isMalformed then None
    else OriginUri(line, st)
  }

  /** The origin form of parseUri: an absolute path, an optional query, then the end of the line. */
  function OriginUri(line: string, st: State): Option<UriParts>
  {
    var (path, st1) := AbsolutePath(line, st);
    if path.None? then None
    else
      var (query, st2) := Query(line, st1);
      if st2.isMalformed then None
      else if st2.index != |line| then None
      else Some(UriParts(None, None, path, query))
  }

  // ---------------------------------------------------------------------
  // The parser

  /** HttpUriParser::parseEncodedSymbol */
  method ParseEncodedSymbol(line: string, state: State) returns (ok: bool, state': State)
    ensures (ok, state') == EncodedSymbol(line, state)
    ensures ok <==> state.index + 2 < |line| && line[state.index] == '%'
                    && IsHex(line[state.index + 1]) && IsHex(line[state.index + 2])
    ensures ok ==> state'.index == state.index + 3
    ensures state'.isMalformed <==>
              state.isMalformed || (state.index < |line| && line[state.index] == '%' && !ok)
  {
    ok, state' := ParseSymbol('%', line, state);
    if !ok {
      return;
    }
    if |line| - state'.index < 2 || !IsHex(line[state'.index]) || !IsHex(line[state'.index + 1]) {
      return false, state'.(isMalformed := true);
    }
    state' := state'.(index := state'.index + 2);
  }

  /** The scanning loop of parseHostname, parseSegment and parseQuery. */
  method ScanRun(line: string, state: State, allowed: char -> bool) returns (state': State)
    ensures state' == Run(line, state, allowed)
  {
    state' := state;
    while state'.index < |line|
      invariant Run(line, state', allowed) == Run(line, state, allowed)
      decreases |line| - state'.index
    {
      if allowed(line[state'.index]) {
        state' := state'.(index := state'.index + 1);
      } else {
        var ok;
        ok, state' := ParseEncodedSymbol(line, state');
        if !ok {
          break;
        }
      }
    }
  }

  /** HttpUriParser::parseHostname */
  method ParseHostname(line: string, state: State) returns (host: Option<string>, state': State)
    ensures (host, state') == Hostname(line, state)
  {
    var start := state.index;
    if state.index >= |line| || IsDigit(line[state.index]) {
      return None, state;
    }
    state' := ScanRun(line, state, IsHostChar);
    if state'.isMalformed {
      return None, state';
    }
    if start == state'.index {
      return None, state';
    }
    host := Some(line[start..state'.index]);
  }

  /** HttpUriParser::parseDecimal */
  method ParseDecimal(line: string, state: State) returns (decimal: Option<string>, state': State)
    ensures (decimal, state') == Decimal(line, state)
  {
    var start := state.index;
    var index := state.index;
    while index < |line| && IsDigit(line[index]) && (line[index] != '0' || start != index)
      invariant start <= index
      invariant index > start ==> index <= |line| && IsDigit(line[start]) && line[start] != '0'
                                  && Span(line, index, IsDigit) == Span(line, start, IsDigit)
      decreases |line| - index
    {
      index := index + 1;
    }
    if index == start {
      return None, state;
    }
    state' := state.(index := index);
    decimal := Some(line[start..index]);
  }

  /** HttpUriParser::parseIPv4Address: four dec-octets separated by '.'. */
  method ParseIPv4Address(line: string, state: State) returns (address: Option<string>, state': State)
    ensures (address, state') == IPv4(line, state)
  {
    if state.index >= |line| || !IsDigit(line[state.index]) {
      return None, state;
    }
    var start := state.index;
    state' := state;
    for i := 0 to 4
      invariant OctetsFrom(line, state', i) == OctetsFrom(line, state, 0)
      invariant start <= state'.index <= |line|
      invariant i > 0 ==> !state'.isMalformed
    {
      var st := state';
      state' := ParseOctet(line, state');
      if state'.isMalformed {
        return None, state';
      }
      if i + 1 != 4 {
        var dot;
        dot, state' := ParseSymbol('.', line, state');
        assert Literal(".", line, Octet(line, st)) == Literal(['.'], line, Octet(line, st));
        if !dot {
          return None, state'.(isMalformed := true);
        }
      }
    }
    address := Some(line[start..state'.index]);
  }

  /** One pass of the loop of parseIPv4Address up to its '.': a decimal of at most 3 digits and 255, or a '0'. */
  method ParseOctet(line: string, state: State) returns (state': State)
    ensures state' == Octet(line, state)
  {
    var decimal;
    decimal, state' := ParseDecimal(line, state);
    if state'.isMalformed {
      return;
    }
    if decimal.Some? {
      if |decimal.value| > 3 {
        return state'.(isMalformed := true);
      }
      if Value(decimal.value) > 255 {
        return state'.(isMalformed := true);
      }
    } else {
      var zero;
      ghost var st1 := state';
      zero, state' := ParseSymbol('0', line, state');
      assert Literal("0", line, st1) == Literal(['0'], line, st1);
      if !zero {
        return state'.(isMalformed := true);
      }
    }
  }

  /** HttpUriParser::parsePort */
  method ParsePort(line: string, state: State) returns (port: Option<string>, state': State)
    ensures (port, state') == Port(line, state)
  {
    var index, token := ScanPortDigits(line, state.index);
    state' := state.(index := index);
    if index == state.index {
      return None, state';
    }
    StripZerosDigits(line[state.index..index]);
    if |token| > 5 {
      return None, state'.(isMalformed := true);
    }
    if Value(token) > 65535 {
      return None, state'.(isMalformed := true);
    }
    port := Some(token);
  }

  /**
   * The digit loop of parsePort: the end of the digit run and the token
   * from its first non-zero digit, or its last digit when all are '0'.
   */
  method ScanPortDigits(line: string, start: nat) returns (index: nat, token: string)
    ensures index == Span(line, start, IsDigit)
    ensures index > start ==> index <= |line| && AllDigits(line[start..index])
                              && token == StripZeros(line[start..index])
  {
    index := start;
    var firstNonZero: Option<nat> := None;
    while index < |line| && IsDigit(line[index])
      invariant start <= index
      invariant index > start ==> index <= |line|
      invariant Span(line, index, IsDigit) == Span(line, start, IsDigit)
      invariant forall k :: start <= k < index ==> IsDigit(line[k])
      invariant firstNonZero.None? ==> forall k :: start <= k < index ==> line[k] == '0'
      invariant firstNonZero.Some? ==>
                  start <= firstNonZero.value < index && line[firstNonZero.value] != '0'
                  && forall k :: start <= k < firstNonZero.value ==> line[k] == '0'
      decreases |line| - index
    {
      if line[index] != '0' && firstNonZero.None? {
        firstNonZero := Some(index);
      }
      index := index + 1;
    }
    if index == start {
      return index, [];
    }
    DigitRun(line, start, index);
    if firstNonZero.None? {
      StripRunOfZeros(line, start, index);
      token := line[index - 1..index];
    } else {
      StripRunToFirstNonZero(line, start, firstNonZero.value, index);
      token := line[firstNonZero.value..index];
    }
  }

  /**
   * HttpUriParser::parseSegment: the cursor after the segment, and whether
   * it is non-empty and well formed (a flag parseAbsolutePath ignores).
   */
  method ParseSegment(line: string, state: State) returns (nonEmpty: bool, state': State)
    ensures state' == Run(line, state, IsSegmentChar)
    ensures nonEmpty <==> !state'.isMalformed && state'.index != state.index
  {
    state' := ScanRun(line, state, IsSegmentChar);
    if state'.isMalformed {
      return false, state';
    }
    nonEmpty := state'.index != state.index;
  }

  /** HttpUriParser::parseAbsolutePath */
  method ParseAbsolutePath(line: string, state: State) returns (path: Option<string>, state': State)
    ensures (path, state') == AbsolutePath(line, state)
  {
    var start := state.index;
    state' := state;
    while true
      invariant Segments(line, state') == Segments(line, state)
      invariant start <= state'.index
      invariant state'.index == start || state'.index <= |line|
      invariant state'.index != start ==> !state'.isMalformed
      decreases |line| - state'.index
    {
      var slash;
      slash, state' := ParseSymbol('/', line, state');
      if !slash {
        break;
      }
      var nonEmpty;
      nonEmpty, state' := ParseSegment(line, state');
      if state'.isMalformed {
        return None, state';
      }
    }
    if start == state'.index {
      return None, state';
    }
    path := Some(line[start..state'.index]);
  }

  /** HttpUriParser::parseQuery */
  method ParseQuery(line: string, state: State) returns (query: Option<string>, state': State)
    ensures (query, state') == Query(line, state)
  {
    var mark;
    mark, state' := ParseSymbol('?', line, state);
    if !mark {
      return None, state';
    }
    var start := state'.index;
    state' := ScanRun(line, state', IsQueryChar);
    if state'.isMalformed {
      return None, state';
    }
    query := Some(line[start..state'.index]);
  }

  /** HttpUriParser::parseAbsoluteUri */
  method ParseAbsoluteUri(line: string, state: State) returns (parts: Option<UriParts>, state': State)
    ensures (parts, state') == AbsoluteUri(line, state)
  {
    var http;
    http, state' := ParseLiteral("http://", line, state);
    if !http {
      return None, state';
    }
    var host;
    host, state' := ParseIPv4Address(line, state');
    if state'.isMalformed {
      return None, state';
    }
    if host.None? {
      host, state' := ParseHostname(line, state');
      if host.None? {
        return None, state'.(isMalformed := true);
      }
    }
    var colon, port;
    colon, state' := ParseSymbol(':', line, state');
    if colon {
      port, state' := ParsePort(line, state');
      if port.None? {
        return None, state'.(isMalformed := true);
      }
    } else {
      port := None;
    }
    parts, state' := ParseAfterPort(line, host.value, port, state');
  }

  /** The tail of parseAbsoluteUri: path, query, end of line. */
  method ParseAfterPort(line: string, host: string, port: Option<string>, state: State)
    returns (parts: Option<UriParts>, state': State)
    ensures (parts, state') == AfterPort(line, host, port, state)
  {
    var path, query;
    path, state' := ParseAbsolutePath(line, state);
    if state'.isMalformed {
      return None, state';
    }
    query, state' := ParseQuery(line, state');
    if state'.isMalformed {
      return None, state';
    }
    if state'.index != |line| {
      return None, state'.(isMalformed := true);
    }
    parts := Some(UriParts(Some(host), port, path, query));
  }

  /** HttpUriParser::parseUri */
  method ParseUri(line: string) returns (parts: Option<UriParts>)
    ensures parts == UriOf(line)
  {
    var state := State(0, false);
    var absolute;
    absolute, state := ParseAbsoluteUri(line, state);
    if absolute.Some? {
      return absolute;
    } else if state.isMalformed {
      return None;
    }
    var path, query;
    path, state := ParseAbsolutePath(line, state);
    if path.None? {
      return None;
    }
    query, state := ParseQuery(line, state);
    if state.isMalformed {
      return None;
    }
    if state.index != |line| {
      return None;
    }
    parts := Some(UriParts(None, None, path, query));
  }

  // ---------------------------------------------------------------------
  // The grammar the scanning loop accepts

  /**
   * What the scanning loop consumes, when it does not end malformed, is an
   * Encoded string, and it stops at the end of the line or at a character
   * that is neither allowed nor '%'.
   */
  lemma {:induction false} RunEncoded(line: string, st: State, allowed: char -> bool)
    requires st.index <= |line|
    requires !Run(line, st, allowed).isMalformed
    ensures var r := Run(line, st, allowed);
      Encoded(line[st.index..r.index], allowed)
      && (r.index == |line| || (!allowed(line[r.index]) && line[r.index] != '%'))
    decreases |line| - st.index
  {
    var r := Run(line, st, allowed);
    var i := st.index;
    if i < |line| {
      if allowed(line[i]) {
        RunEncoded(line, st.(index := i + 1), allowed);
        assert line[i..r.index][1..] == line[i + 1..r.index];
      } else {
        var (ok, st1) := EncodedSymbol(line, st);
        if ok {
          RunEncoded(line, st1, allowed);
          assert line[i..r.index][3..] == line[i + 3..r.index];
        }
      }
    }
  }

  /** A '%' and two hex digits are one pct-encoded triple. */
  lemma {:induction false} EncodedSymbolAt(line: string, i: nat, malformed: bool)
    requires i + 2 < |line| && line[i] == '%' && IsHex(line[i + 1]) && IsHex(line[i + 2])
    ensures EncodedSymbol(line, State(i, malformed)) == (true, State(i + 3, malformed))
  {
    SymbolPresent('%', line, i, malformed);
  }

  /** Without a '%' at the cursor parseEncodedSymbol consumes nothing and marks nothing. */
  lemma {:induction false} EncodedSymbolAbsent(line: string, i: nat, malformed: bool)
    requires i < |line| && line[i] != '%'
    ensures EncodedSymbol(line, State(i, malformed)) == (false, State(i, malformed))
  {
    assert MatchFrom("%", line, i, 0) == 0;
  }

  /** Conversely, the loop consumes an Encoded stretch exactly, when '%' is not itself allowed. */
  lemma {:induction false} RunOver(line: string, i: nat, e: nat, malformed: bool, allowed: char -> bool)
    requires i <= e <= |line| && !allowed('%')
    requires Encoded(line[i..e], allowed)
    requires e == |line| || (!allowed(line[e]) && line[e] != '%')
    ensures Run(line, State(i, malformed), allowed) == State(e, malformed)
    decreases e - i
  {
    if i < e {
      var u := line[i..e];
      assert u[0] == line[i];
      if allowed(line[i]) {
        assert u[1..] == line[i + 1..e];
        RunOver(line, i + 1, e, malformed, allowed);
      } else {
        assert line[i + 1] == u[1] && line[i + 2] == u[2];
        assert u[3..] == line[i + 3..e];
        RunOver(line, i + 3, e, malformed, allowed);
      }
    }
  }

  /** A hostname is non-empty, does not start with a digit, and is Encoded over the host characters. */
  lemma {:induction false} HostnameShape(line: string, st: State)
    requires st.index <= |line| && Hostname(line, st).0.Some?
    ensures var (h, st') := Hostname(line, st);
      st.index < st'.index <= |line| && h.value == line[st.index..st'.index] && !st'.isMalformed
      && !IsDigit(h.value[0]) && Encoded(h.value, IsHostChar)
  {
    RunEncoded(line, st, IsHostChar);
  }

  /** A leading '0' does not change the value of a digit string. */
  lemma {:induction false} ValueLeadingZero(s: string)
    requires AllDigits(s)
    ensures AllDigits(['0'] + s) && Value(['0'] + s) == Value(s)
    decreases |s|
  {
    var z := ['0'] + s;
    assert AllDigits(z) by {
      forall k | 0 <= k < |z| ensures IsDigit(z[k]) {
        if k > 0 { assert z[k] == s[k - 1]; }
      }
    }
    if |s| > 0 {
      var t := s[..|s| - 1];
      assert z[..|z| - 1] == ['0'] + t;
      assert AllDigits(t) by {
        forall k | 0 <= k < |t| ensures IsDigit(t[k]) { assert t[k] == s[k]; }
      }
      ValueLeadingZero(t);
    }
  }

  /** Stripping leading zeros keeps the value. */
  lemma {:induction false} StripZerosValue(d: string)
    requires AllDigits(d)
    ensures AllDigits(StripZeros(d)) && Value(StripZeros(d)) == Value(d)
    decreases |d|
  {
    StripZerosDigits(d);
    if |d| > 1 && d[0] == '0' {
      LeadingZeroStep(d);
      StripZerosValue(d[1..]);
    }
  }

  /** One leading zero less: the digits and the value stay. */
  lemma {:induction false} LeadingZeroStep(d: string)
    requires AllDigits(d) && |d| > 1 && d[0] == '0'
    ensures AllDigits(d[1..]) && Value(d[1..]) == Value(d) && StripZeros(d) == StripZeros(d[1..])
  {
    var t := d[1..];
    assert AllDigits(t) by {
      forall k | 0 <= k < |t| ensures IsDigit(t[k]) { assert t[k] == d[k + 1]; }
    }
    assert d == ['0'] + t;
    ValueLeadingZero(t);
  }

  /**
   * An accepted port is the digit run after the cursor without its leading
   * zeros: 1 to 5 digits, no leading zero, and its value, which is that of
   * the whole run, is at most 65535.
   */
  lemma {:induction false} PortShape(line: string, st: State)
    requires Port(line, st).0.Some?
    ensures var (p, st') := Port(line, st);
      st.index < st'.index <= |line| && st'.isMalformed == st.isMalformed
      && AllDigits(line[st.index..st'.index]) && p.value == StripZeros(line[st.index..st'.index])
      && 1 <= |p.value| <= 5 && AllDigits(p.value) && (|p.value| > 1 ==> p.value[0] != '0')
      && Value(p.value) == Value(line[st.index..st'.index]) <= 65535
      && (st'.index == |line| || !IsDigit(line[st'.index]))
  {
    var e := Span(line, st.index, IsDigit);
    DigitRun(line, st.index, e);
    StripZerosValue(line[st.index..e]);
  }

  /** A ':' after the host without a port digit makes the URI malformed. */
  lemma {:induction false} EmptyPortMalformed(line: string, host: string, st: State)
    requires st.index < |line| && line[st.index] == ':'
    requires st.index + 1 == |line| || !IsDigit(line[st.index + 1])
    ensures AfterHost(line, host, st).0.None? && AfterHost(line, host, st).1.isMalformed
  {
    LiteralPresent(":", line, st.index, st.isMalformed);
    assert Span(line, st.index + 1, IsDigit) == st.index + 1;
  }

  // ---------------------------------------------------------------------
  // IPv4 addresses

  /** What one accepted octet consumes is a dec-octet. */
  lemma {:induction false} OctetSound(line: string, st: State) returns (o: string)
    requires st.index <= |line| && !Octet(line, st).isMalformed
    ensures o == line[st.index..Octet(line, st).index] && IsDecOctet(o)
    ensures !st.isMalformed
  {
    var i := st.index;
    var (d, st1) := Decimal(line, st);
    o := line[i..Octet(line, st).index];
    if d.Some? {
      var e := Span(line, i, IsDigit);
      assert o == d.value && o[0] == line[i];
      assert AllDigits(o) by {
        forall k | 0 <= k < |o| ensures IsDigit(o[k]) { assert o[k] == line[i + k]; }
      }
    } else {
      assert o == [line[i]];
    }
  }

  /** A dec-octet at `i` that is not followed by a digit is one accepted octet. */
  lemma {:induction false} OctetAt(line: string, i: nat, o: string)
    requires IsDecOctet(o) && i + |o| <= |line| && line[i..i + |o|] == o
    requires i + |o| == |line| || !IsDigit(line[i + |o|])
    ensures Octet(line, State(i, false)) == State(i + |o|, false)
  {
    assert o[0] == line[i];
    if o[0] == '0' {
      assert line[i..i + 1] == "0";
      LiteralPresent("0", line, i, false);
    } else {
      assert forall k :: i <= k < i + |o| ==> line[k] == o[k - i];
      SpanAt(line, i, i + |o|, IsDigit);
    }
  }

  lemma {:induction false} SliceJoin(line: string, i: nat, j: nat, k: nat)
    requires i <= j <= k <= |line|
    ensures line[i..k] == line[i..j] + line[j..k]
  {
  }

  /** An accepted IPv4 address is four dec-octets separated by '.'. */
  lemma {:induction false} IPv4Sound(line: string, st: State) returns (a: string, b: string, c: string, d: string)
    requires st.index <= |line| && IPv4(line, st).0.Some?
    ensures IPv4(line, st).0.value == a + "." + b + "." + c + "." + d
    ensures IsDecOctet(a) && IsDecOctet(b) && IsDecOctet(c) && IsDecOctet(d)
  {
    var p1, p2, p3, p4 := IPv4Indices(line, st);
    a := OctetSound(line, st);
    b := OctetSound(line, State(p1 + 1, false));
    c := OctetSound(line, State(p2 + 1, false));
    d := OctetSound(line, State(p3 + 1, false));
    DottedJoin(line, st.index, p1, p2, p3, p4, a, b, c, d);
  }

  /** Where the four octets of an accepted IPv4 address end. */
  lemma {:induction false} IPv4Indices(line: string, st: State) returns (p1: nat, p2: nat, p3: nat, p4: nat)
    requires st.index <= |line| && IPv4(line, st).0.Some?
    ensures st.index <= p1 && p1 + 1 <= p2 && p2 + 1 <= p3 && p3 + 1 <= p4 <= |line|
    ensures line[p1] == '.' && line[p2] == '.' && line[p3] == '.'
    ensures Octet(line, st) == State(p1, false)
    ensures Octet(line, State(p1 + 1, false)) == State(p2, false)
    ensures Octet(line, State(p2 + 1, false)) == State(p3, false)
    ensures Octet(line, State(p3 + 1, false)) == State(p4, false)
    ensures IPv4(line, st).0.value == line[st.index..p4]
  {
    var target := OctetsFrom(line, st, 0);
    p1 := OctetStep(line, st, 0, 1, target);
    p2 := OctetStep(line, State(p1 + 1, false), 1, 2, target);
    p3 := OctetStep(line, State(p2 + 1, false), 2, 3, target);
    OctetLast(line, State(p3 + 1, false), target);
    p4 := target.index;
  }

  /** One octet and its '.' in iterations 0 to 2 of the loop of parseIPv4Address. */
  lemma {:induction false} OctetStep(line: string, st: State, i: nat, next: nat, target: State)
    returns (p: nat)
    requires i < 3 && next == i + 1 && st.index <= |line|
    requires OctetsFrom(line, st, i) == target && !target.isMalformed
    ensures Octet(line, st) == State(p, false) && st.index <= p < |line| && line[p] == '.'
    ensures OctetsFrom(line, State(p + 1, false), next) == target
  {
    var s1 := Octet(line, st);
    p := s1.index;
    SymbolLiteral('.', line, s1);
    assert Literal(".", line, s1) == Literal(['.'], line, s1);
  }

  /** The last octet: iteration 3 of the loop of parseIPv4Address. */
  lemma {:induction false} OctetLast(line: string, st: State, target: State)
    requires OctetsFrom(line, st, 3) == target && !target.isMalformed
    ensures Octet(line, st) == target && st.index <= target.index
  {
    assert OctetsFrom(line, Octet(line, st), 4) == Octet(line, st);
  }

  /** The text of four '.'-separated stretches. */
  lemma {:induction false} DottedJoin(line: string, i: nat, p1: nat, p2: nat, p3: nat, p4: nat,
                                      a: string, b: string, c: string, d: string)
    requires i <= p1 && p1 + 1 <= p2 && p2 + 1 <= p3 && p3 + 1 <= p4 <= |line|
    requires line[p1] == '.' && line[p2] == '.' && line[p3] == '.'
    requires a == line[i..p1] && b == line[p1 + 1..p2] && c == line[p2 + 1..p3] && d == line[p3 + 1..p4]
    ensures line[i..p4] == a + "." + b + "." + c + "." + d
  {
    assert line[i..p1 + 1] == line[i..p1] + ".";
    assert line[i..p2] == line[i..p1 + 1] + line[p1 + 1..p2];
    assert line[i..p2 + 1] == line[i..p2] + ".";
    assert line[i..p3] == line[i..p2 + 1] + line[p2 + 1..p3];
    assert line[i..p3 + 1] == line[i..p3] + ".";
    assert line[i..p4] == line[i..p3 + 1] + line[p3 + 1..p4];
  }

  /**
   * Conversely, four dec-octets separated by '.' and not followed by a
   * digit are accepted as they are.
   */
  lemma {:induction false} IPv4At(line: string, i: nat, p1: nat, p2: nat, p3: nat, p4: nat)
    requires i <= p1 < p2 < p3 < p4 <= |line|
    requires IsDecOctet(line[i..p1]) && line[p1] == '.' && IsDecOctet(line[p1 + 1..p2]) && line[p2] == '.'
    requires IsDecOctet(line[p2 + 1..p3]) && line[p3] == '.' && IsDecOctet(line[p3 + 1..p4])
    requires p4 == |line| || !IsDigit(line[p4])
    ensures IPv4(line, State(i, false)) == (Some(line[i..p4]), State(p4, false))
  {
    QuadAt(line, i, p1, p2, p3, p4);
    DecOctetLeads(line, i, p1);
  }

  lemma {:induction false} DecOctetLeads(line: string, i: nat, e: nat)
    requires i <= e <= |line| && IsDecOctet(line[i..e])
    ensures i < e && IsDigit(line[i])
  {
    assert line[i] == line[i..e][0];
  }

  lemma {:induction false} QuadAt(line: string, i: nat, p1: nat, p2: nat, p3: nat, p4: nat)
    requires i <= p1 < p2 < p3 < p4 <= |line|
    requires IsDecOctet(line[i..p1]) && line[p1] == '.' && IsDecOctet(line[p1 + 1..p2]) && line[p2] == '.'
    requires IsDecOctet(line[p2 + 1..p3]) && line[p3] == '.' && IsDecOctet(line[p3 + 1..p4])
    requires p4 == |line| || !IsDigit(line[p4])
    ensures OctetsFrom(line, State(i, false), 0) == State(p4, false)
  {
    OctetsFromOne(line, p1, p2, p3, p4);
    OctetsStep(line, i, p1, 0, p4);
  }

  lemma {:induction false} OctetsFromOne(line: string, p1: nat, p2: nat, p3: nat, p4: nat)
    requires p1 < p2 < p3 < p4 <= |line|
    requires IsDecOctet(line[p1 + 1..p2]) && line[p2] == '.'
    requires IsDecOctet(line[p2 + 1..p3]) && line[p3] == '.' && IsDecOctet(line[p3 + 1..p4])
    requires p4 == |line| || !IsDigit(line[p4])
    ensures OctetsFrom(line, State(p1 + 1, false), 1) == State(p4, false)
  {
    OctetsFromTwo(line, p2, p3, p4);
    OctetsStep(line, p1 + 1, p2, 1, p4);
  }

  lemma {:induction false} OctetsFromTwo(line: string, p2: nat, p3: nat, p4: nat)
    requires p2 < p3 < p4 <= |line|
    requires IsDecOctet(line[p2 + 1..p3]) && line[p3] == '.' && IsDecOctet(line[p3 + 1..p4])
    requires p4 == |line| || !IsDigit(line[p4])
    ensures OctetsFrom(line, State(p2 + 1, false), 2) == State(p4, false)
  {
    LastOctet(line, p3, p4);
    OctetsStep(line, p2 + 1, p3, 2, p4);
  }

  lemma {:induction false} LastOctet(line: string, p3: nat, p4: nat)
    requires p3 < p4 <= |line| && IsDecOctet(line[p3 + 1..p4])
    requires p4 == |line| || !IsDigit(line[p4])
    ensures OctetsFrom(line, State(p3 + 1, false), 3) == State(p4, false)
  {
    OctetAt(line, p3 + 1, line[p3 + 1..p4]);
    assert OctetsFrom(line, State(p4, false), 4) == State(p4, false);
  }

  /** One more separated octet in front of iterations k + 1, ..., 3. */
  lemma {:induction false} OctetsStep(line: string, j: nat, e: nat, k: nat, end: nat)
    requires k < 3 && j <= e < |line| && IsDecOctet(line[j..e]) && line[e] == '.'
    requires OctetsFrom(line, State(e + 1, false), k + 1) == State(end, false)
    ensures OctetsFrom(line, State(j, false), k) == State(end, false)
  {
    DottedOctetAt(line, j, e);
  }

  lemma {:induction false} DottedOctetAt(line: string, i: nat, e: nat)
    requires i <= e < |line| && IsDecOctet(line[i..e]) && line[e] == '.'
    ensures Octet(line, State(i, false)) == State(e, false)
    ensures Literal(".", line, State(e, false)) == (true, State(e + 1, false))
    ensures i < e && IsDigit(line[i])
  {
    assert line[i] == line[i..e][0];
    OctetAt(line, i, line[i..e]);
    assert line[e..e + 1] == ".";
    LiteralPresent(".", line, e, false);
  }

  // ---------------------------------------------------------------------
  // Paths and queries

  lemma {:induction false} EncodedSegmentIsPath(s: string)
    requires Encoded(s, IsSegmentChar)
    ensures Encoded(s, IsPathChar)
    decreases |s|
  {
    if |s| > 0 {
      if IsSegmentChar(s[0]) {
        EncodedSegmentIsPath(s[1..]);
      } else {
        EncodedSegmentIsPath(s[3..]);
      }
    }
  }

  lemma {:induction false} EncodedConcat(a: string, b: string, allowed: char -> bool)
    requires Encoded(a, allowed) && Encoded(b, allowed)
    ensures Encoded(a + b, allowed)
    decreases |a|
  {
    if |a| > 0 {
      if allowed(a[0]) && Encoded(a[1..], allowed) {
        EncodedConcat(a[1..], b, allowed);
        assert (a + b)[0] == a[0] && (a + b)[1..] == a[1..] + b;
      } else {
        EncodedConcat(a[3..], b, allowed);
        assert (a + b)[0] == a[0] && (a + b)[1] == a[1] && (a + b)[2] == a[2];
        assert (a + b)[3..] == a[3..] + b;
      }
    } else {
      assert a + b == b;
    }
  }

  /**
   * The loop of parseAbsolutePath, when not malformed, consumes nothing, or
   * a '/' followed by an Encoded stretch of path characters; then comes the
   * end of the line or a character that is not a path character nor '%'.
   */
  lemma {:induction false} SegmentsShape(line: string, st: State)
    requires st.index <= |line| && !Segments(line, st).isMalformed
    ensures var r := Segments(line, st);
      (r.index == st.index && (st.index == |line| || line[st.index] != '/'))
      || (st.index < r.index && line[st.index] == '/' && Encoded(line[st.index + 1..r.index], IsPathChar)
          && (r.index == |line| || (!IsPathChar(line[r.index]) && line[r.index] != '%')))
  {
    if st.index < |line| && line[st.index] == '/' {
      SegmentsAfterSlash(line, st);
    } else {
      SymbolLiteral('/', line, st);
    }
  }

  /** From just after the '/' at `i`, an Encoded stretch of path characters ends at `e`, where nothing more can be taken. */
  predicate SlashRun(line: string, i: nat, e: nat) {
    i < e <= |line| && Encoded(line[i + 1..e], IsPathChar)
    && (e == |line| || (!IsPathChar(line[e]) && line[e] != '%'))
  }

  lemma {:induction false} SegmentsAfterSlash(line: string, st: State)
    requires st.index < |line| && line[st.index] == '/' && !Segments(line, st).isMalformed
    ensures SlashRun(line, st.index, Segments(line, st).index)
    decreases |line| - st.index
  {
    var next := SegmentStep(line, st);
    if next.index < |line| && line[next.index] == '/' {
      SegmentsAfterSlash(line, next);
      SlashRunJoin(line, st.index, next.index, Segments(line, next).index);
    } else {
      SegmentsStop(line, next);
      SlashRunStop(line, st.index, next.index);
    }
  }

  /** Without a '/' at the cursor the loop of parseAbsolutePath stops at once. */
  lemma {:induction false} SegmentsStop(line: string, st: State)
    requires st.index >= |line| || line[st.index] != '/'
    ensures Segments(line, st) == st
  {
    SymbolLiteral('/', line, st);
  }

  lemma {:induction false} SlashRunJoin(line: string, i: nat, j: nat, e: nat)
    requires i < j < |line| && line[j] == '/' && Encoded(line[i + 1..j], IsPathChar)
    requires SlashRun(line, j, e)
    ensures SlashRun(line, i, e)
  {
    SegmentsJoin(line, i, j, e);
  }

  lemma {:induction false} SlashRunStop(line: string, i: nat, j: nat)
    requires i < j <= |line| && Encoded(line[i + 1..j], IsPathChar)
    requires j == |line| || (!IsSegmentChar(line[j]) && line[j] != '%' && line[j] != '/')
    ensures SlashRun(line, i, j)
  {
  }

  /** One "/" segment of parseAbsolutePath's loop: the cursor after it, and what it spans. */
  lemma {:induction false} SegmentStep(line: string, st: State) returns (next: State)
    requires st.index < |line| && line[st.index] == '/' && !Segments(line, st).isMalformed
    ensures st.index < next.index <= |line| && !next.isMalformed
    ensures Segments(line, st) == Segments(line, next)
    ensures Encoded(line[st.index + 1..next.index], IsPathChar)
    ensures next.index == |line| || (!IsSegmentChar(line[next.index]) && line[next.index] != '%')
  {
    var i := st.index;
    SymbolLiteral('/', line, st);
    var st1 := st.(index := i + 1);
    next := Run(line, st1, IsSegmentChar);
    assert Segments(line, st) == (if next.isMalformed then next else Segments(line, next));
    RunEncoded(line, st1, IsSegmentChar);
    EncodedSegmentIsPath(line[i + 1..next.index]);
  }

  /** An Encoded stretch, a '/' and another Encoded stretch make one Encoded stretch of path characters. */
  lemma {:induction false} SegmentsJoin(line: string, i: nat, j: nat, e: nat)
    requires i < j < e <= |line| && line[j] == '/'
    requires Encoded(line[i + 1..j], IsPathChar) && Encoded(line[j + 1..e], IsPathChar)
    ensures Encoded(line[i + 1..e], IsPathChar)
  {
    assert Encoded(line[j..e], IsPathChar) by {
      assert line[j..e][1..] == line[j + 1..e];
    }
    EncodedConcat(line[i + 1..j], line[j..e], IsPathChar);
    assert line[i + 1..j] + line[j..e] == line[i + 1..e];
  }

  /** An accepted absolute path is '/' then Encoded path characters, read from the line. */
  lemma {:induction false} AbsolutePathShape(line: string, st: State)
    requires st.index <= |line| && AbsolutePath(line, st).0.Some?
    ensures var (p, st') := AbsolutePath(line, st);
      st.index < st'.index <= |line| && p.value == line[st.index..st'.index] && IsAbsolutePath(p.value)
      && !st'.isMalformed && (st'.index == |line| || (!IsPathChar(line[st'.index]) && line[st'.index] != '%'))
  {
    SegmentsShape(line, st);
    var r := Segments(line, st);
    assert line[st.index..r.index][1..] == line[st.index + 1..r.index];
  }

  /** An accepted query follows a '?' and is Encoded over the query characters, which add '/' and '?'. */
  lemma {:induction false} QueryShape(line: string, st: State)
    requires st.index <= |line| && Query(line, st).0.Some?
    ensures var (q, st') := Query(line, st);
      st.index < |line| && line[st.index] == '?' && st.index < st'.index <= |line|
      && q.value == line[st.index + 1..st'.index] && Encoded(q.value, IsQueryChar) && !st'.isMalformed
      && (st'.index == |line| || (!IsQueryChar(line[st'.index]) && line[st'.index] != '%'))
  {
    var (mark, st1) := Literal("?", line, st);
    RunEncoded(line, st1, IsQueryChar);
  }

  /** Without a '?' at the cursor parseQuery returns nothing and leaves the cursor alone. */
  lemma {:induction false} NoQuery(line: string, st: State)
    requires st.index >= |line| || line[st.index] != '?'
    ensures Query(line, st) == (None, st)
  {
  }

  /**
   * Where parseSegment's loop over an Encoded stretch of path characters
   * ending at `e` may stop: unmarked, at `e` or at a '/' that starts the
   * rest of the stretch.
   */
  predicate StopsAtSlash(line: string, r: State, e: nat)
    requires e <= |line|
  {
    r == State(r.index, false) && r.index <= e
    && (r.index == e || (line[r.index] == '/' && Encoded(line[r.index + 1..e], IsPathChar)))
  }

  /**
   * The loop of parseSegment over an Encoded stretch of path characters
   * stops at its first '/' (or its end) without a malformed mark.
   */
  lemma {:induction false} RunToSlash(line: string, k: nat, e: nat)
    requires k <= e <= |line| && Encoded(line[k..e], IsPathChar)
    requires e == |line| || (!IsPathChar(line[e]) && line[e] != '%')
    ensures StopsAtSlash(line, Run(line, State(k, false), IsSegmentChar), e)
    decreases e - k
  {
    if k < e {
      if IsSegmentChar(line[k]) {
        RunSkipsChar(line, k, e);
        RunToSlash(line, k + 1, e);
      } else if line[k] == '/' {
        RunStopsAtSlash(line, k, e);
      } else {
        RunSkipsTriple(line, k, e);
        RunToSlash(line, k + 3, e);
      }
    } else {
      RunAtEnd(line, e);
    }
  }

  lemma {:induction false} RunAtEnd(line: string, e: nat)
    requires e <= |line|
    requires e == |line| || (!IsPathChar(line[e]) && line[e] != '%')
    ensures Run(line, State(e, false), IsSegmentChar) == State(e, false)
  {
    if e < |line| {
      EncodedSymbolAbsent(line, e, false);
    }
  }

  lemma {:induction false} RunSkipsChar(line: string, k: nat, e: nat)
    requires k < e <= |line| && Encoded(line[k..e], IsPathChar) && IsSegmentChar(line[k])
    ensures Encoded(line[k + 1..e], IsPathChar)
    ensures Run(line, State(k, false), IsSegmentChar) == Run(line, State(k + 1, false), IsSegmentChar)
  {
    var u := line[k..e];
    assert u[0] == line[k] && u[1..] == line[k + 1..e];
  }

  lemma {:induction false} RunStopsAtSlash(line: string, k: nat, e: nat)
    requires k < e <= |line| && Encoded(line[k..e], IsPathChar) && line[k] == '/'
    ensures Encoded(line[k + 1..e], IsPathChar)
    ensures Run(line, State(k, false), IsSegmentChar) == State(k, false)
  {
    var u := line[k..e];
    assert u[0] == line[k] && u[1..] == line[k + 1..e];
    EncodedSymbolAbsent(line, k, false);
  }

  lemma {:induction false} RunSkipsTriple(line: string, k: nat, e: nat)
    requires k < e <= |line| && Encoded(line[k..e], IsPathChar)
    requires !IsSegmentChar(line[k]) && line[k] != '/'
    ensures k + 3 <= e && Encoded(line[k + 3..e], IsPathChar)
    ensures Run(line, State(k, false), IsSegmentChar) == Run(line, State(k + 3, false), IsSegmentChar)
  {
    var u := line[k..e];
    assert u[0] == line[k];
    assert line[k + 1] == u[1] && line[k + 2] == u[2];
    assert u[3..] == line[k + 3..e];
    EncodedSymbolAt(line, k, false);
  }

  /** Conversely, the loop of parseAbsolutePath consumes an absolute path exactly. */
  lemma {:induction false} SegmentsOver(line: string, i: nat, e: nat)
    requires i < e <= |line| && IsAbsolutePath(line[i..e])
    requires e == |line| || (!IsPathChar(line[e]) && line[e] != '%')
    ensures Segments(line, State(i, false)) == State(e, false)
    decreases e - i
  {
    assert line[i] == line[i..e][0];
    assert line[i..e][1..] == line[i + 1..e];
    LiteralPresent("/", line, i, false);
    RunToSlash(line, i + 1, e);
    var r := Run(line, State(i + 1, false), IsSegmentChar);
    if r.index < e {
      assert line[r.index..e][1..] == line[r.index + 1..e];
      SegmentsOver(line, r.index, e);
    }
  }

  // ---------------------------------------------------------------------
  // The two forms of a URI

  /** The text of an optional path. */
  function PathText(path: Option<string>): string
  {
    if path.Some? then path.value else ""
  }

  /** The text of an optional query, with its '?'. */
  function QueryText(query: Option<string>): string
  {
    if query.Some? then "?" + query.value else ""
  }

  /** parseAbsoluteUri fails without the malformed mark only when not even an 'h' of "http://" matched. */
  lemma {:induction false} AbsoluteFailsCleanly(line: string, st: State)
    requires !st.isMalformed
    requires AbsoluteUri(line, st).0.None? && !AbsoluteUri(line, st).1.isMalformed
    ensures AbsoluteUri(line, st).1 == st
  {
    var (http, st1) := Literal("http://", line, st);
    if http {
      var (address, st2) := IPv4(line, st1);
      if !st2.isMalformed && address.None? {
        var (name, st3) := Hostname(line, st2);
        if name.Some? {
          AfterHostFailsMarked(line, name.value, st3);
        }
      } else if !st2.isMalformed {
        AfterHostFailsMarked(line, address.value, st2);
      }
    }
  }

  lemma {:induction false} AfterHostFailsMarked(line: string, host: string, st: State)
    ensures AfterHost(line, host, st).0.None? ==> AfterHost(line, host, st).1.isMalformed
  {
    var (colon, st1) := Literal(":", line, st);
    if colon {
      var (port, st2) := Port(line, st1);
      if port.Some? {
        AfterPortFailsMarked(line, host, port, st2);
      }
    } else {
      AfterPortFailsMarked(line, host, None, st1);
    }
  }

  /** Whatever parseAbsoluteUri accepts has a host. */
  lemma {:induction false} AbsoluteHasHost(line: string, st: State)
    ensures AbsoluteUri(line, st).0.Some? ==> AbsoluteUri(line, st).0.value.host.Some?
  {
    var (http, st1) := Literal("http://", line, st);
    if http {
      var (address, st2) := IPv4(line, st1);
      if !st2.isMalformed && address.None? {
        var (name, st3) := Hostname(line, st2);
        if name.Some? {
          AfterHostHasHost(line, name.value, st3);
        }
      } else if !st2.isMalformed {
        AfterHostHasHost(line, address.value, st2);
      }
    }
  }

  lemma {:induction false} AfterHostHasHost(line: string, host: string, st: State)
    ensures AfterHost(line, host, st).0.Some? ==> AfterHost(line, host, st).0.value.host == Some(host)
  {
    var (colon, st1) := Literal(":", line, st);
    if colon {
      var (port, st2) := Port(line, st1);
      if port.Some? {
        AfterPortHasHost(line, host, port, st2);
      }
    } else {
      AfterPortHasHost(line, host, None, st1);
    }
  }

  lemma {:induction false} AfterPortHasHost(line: string, host: string, port: Option<string>, st: State)
    ensures AfterPort(line, host, port, st).0.Some? ==> AfterPort(line, host, port, st).0.value.host == Some(host)
  {
  }

  lemma {:induction false} AfterPortFailsMarked(line: string, host: string, port: Option<string>, st: State)
    ensures AfterPort(line, host, port, st).0.None? ==> AfterPort(line, host, port, st).1.isMalformed
  {
  }

  /**
   * The origin form: a URI without a host has no port either; it is an
   * absolute path, then the optional '?' and query, and nothing else.
   */
  lemma {:induction false} OriginForm(line: string)
    requires UriOf(line).Some? && UriOf(line).value.host.None?
    ensures var p := UriOf(line).value;
      p.port.None? && p.path.Some? && IsAbsolutePath(p.path.value)
      && (p.query.Some? ==> Encoded(p.query.value, IsQueryChar))
      && line == p.path.value + QueryText(p.query)
  {
    var st0 := State(0, false);
    AbsoluteHasHost(line, st0);
    var (absolute, st) := AbsoluteUri(line, st0);
    assert absolute.None? && !st.isMalformed;
    AbsoluteFailsCleanly(line, st0);
    OriginShape(line, st0);
    assert line[0..] == line;
  }

  lemma {:induction false} OriginShape(line: string, st: State)
    requires st.index <= |line| && OriginUri(line, st).Some?
    ensures var p := OriginUri(line, st).value;
      p.host.None? && p.port.None? && p.path.Some? && IsAbsolutePath(p.path.value)
      && (p.query.Some? ==> Encoded(p.query.value, IsQueryChar))
      && line[st.index..] == p.path.value + QueryText(p.query)
  {
    var (path, st1) := AbsolutePath(line, st);
    PathPart(line, st);
    QueryPart(line, st1);
    PathQueryJoin(line, st.index, st1.index, path, Query(line, st1).0);
  }

  lemma {:induction false} OriginHasNoHost(line: string, st: State)
    ensures OriginUri(line, st).Some? ==> OriginUri(line, st).value.host.None?
  {
  }

  /** Conversely, an absolute path with an optional Encoded query is accepted as the origin form. */
  lemma {:induction false} OriginRoundTrip(path: string, query: Option<string>)
    requires IsAbsolutePath(path)
    requires query.Some? ==> Encoded(query.value, IsQueryChar)
    ensures UriOf(path + QueryText(query)) == Some(UriParts(None, None, Some(path), query))
  {
    var line := path + QueryText(query);
    var st0 := State(0, false);
    assert line[0] == '/';
    assert MatchLength("http://", line, 0) == 0;
    assert AbsoluteUri(line, st0) == (None, st0);
    OriginAt(line, path, query);
  }

  lemma {:induction false} OriginAt(line: string, path: string, query: Option<string>)
    requires IsAbsolutePath(path)
    requires query.Some? ==> Encoded(query.value, IsQueryChar)
    requires line == path + QueryText(query)
    ensures OriginUri(line, State(0, false)) == Some(UriParts(None, None, Some(path), query))
  {
    var e := |path|;
    assert line[..e] == path;
    assert line[0..e] == path;
    assert e == |line| || line[e] == '?';
    SegmentsOver(line, 0, e);
    assert AbsolutePath(line, State(0, false)) == (Some(path), State(e, false));
    if query.Some? {
      QueryAt(line, e, query.value);
    } else {
      NoQuery(line, State(e, false));
    }
  }

  lemma {:induction false} QueryAt(line: string, e: nat, query: string)
    requires e < |line| && line[e] == '?' && line[e + 1..] == query && Encoded(query, IsQueryChar)
    ensures Query(line, State(e, false)) == (Some(query), State(|line|, false))
  {
    assert line[e..e + 1] == "?";
    LiteralPresent("?", line, e, false);
    assert line[e + 1..|line|] == query;
    assert !IsQueryChar('%');
    RunOver(line, e + 1, |line|, false, IsQueryChar);
  }

  /** The text of the path and the query of a parsed URI, as they stand in the line. */
  function PathAndQuery(p: UriParts): string
  {
    PathText(p.path) + QueryText(p.query)
  }

  /** parseAbsoluteUri after the port: an optional path and an optional query make up the rest of the line. */
  lemma {:induction false} AfterPortShape(line: string, host: string, port: Option<string>, st: State)
    requires st.index <= |line| && AfterPort(line, host, port, st).0.Some?
    ensures var p := AfterPort(line, host, port, st).0.value;
      p.host == Some(host) && p.port == port
      && line[st.index..] == PathAndQuery(p)
      && (p.path.Some? ==> IsAbsolutePath(p.path.value))
      && (p.query.Some? ==> Encoded(p.query.value, IsQueryChar))
  {
    var (path, st1) := AbsolutePath(line, st);
    PathPart(line, st);
    QueryPart(line, st1);
    PathQueryJoin(line, st.index, st1.index, path, Query(line, st1).0);
  }

  lemma {:induction false} PathQueryJoin(line: string, i: nat, j: nat, path: Option<string>, query: Option<string>)
    requires i <= j <= |line| && line[i..j] == PathText(path) && line[j..] == QueryText(query)
    ensures line[i..] == PathText(path) + QueryText(query)
  {
    assert line[i..] == line[i..j] + line[j..];
  }

  /** The optional path after the port, as it stands in the line. */
  lemma {:induction false} PathPart(line: string, st: State)
    requires st.index <= |line| && !AbsolutePath(line, st).1.isMalformed
    ensures var (path, st1) := AbsolutePath(line, st);
      st.index <= st1.index <= |line| && line[st.index..st1.index] == PathText(path)
      && (path.Some? ==> IsAbsolutePath(path.value))
  {
    if AbsolutePath(line, st).0.Some? {
      AbsolutePathShape(line, st);
    }
  }

  /** The optional query that ends the line, as it stands in the line. */
  lemma {:induction false} QueryPart(line: string, st: State)
    requires st.index <= |line| && !Query(line, st).1.isMalformed && Query(line, st).1.index == |line|
    ensures var query := Query(line, st).0;
      line[st.index..] == QueryText(query) && (query.Some? ==> Encoded(query.value, IsQueryChar))
  {
    var query := Query(line, st).0;
    if query.Some? {
      QueryShape(line, st);
      assert line[st.index..] == [line[st.index]] + line[st.index + 1..];
    } else {
      SymbolLiteral('?', line, st);
    }
  }

  /**
   * What parseAbsoluteUri makes of the text from `i` on, after the host:
   * the optional ':' and port digits, as written, then the path and the
   * query.
   */
  predicate TailShape(line: string, i: nat, host: string, p: UriParts, portText: string)
    requires i <= |line|
  {
    p.host == Some(host)
    && line[i..] == portText + PathAndQuery(p)
    && (p.port.None? ==> portText == [])
    && (p.port.Some? ==> |portText| >= 2 && portText[0] == ':' && AllDigits(portText[1..])
                         && p.port.value == StripZeros(portText[1..]))
    && (p.path.Some? ==> IsAbsolutePath(p.path.value))
    && (p.query.Some? ==> Encoded(p.query.value, IsQueryChar))
  }

  /** parseAbsoluteUri after the host. */
  lemma {:induction false} AfterHostShape(line: string, host: string, st: State) returns (portText: string, p: UriParts)
    requires st.index <= |line| && AfterHost(line, host, st).0.Some?
    ensures AfterHost(line, host, st).0 == Some(p) && TailShape(line, st.index, host, p, portText)
  {
    if st.index < |line| && line[st.index] == ':' {
      portText, p := AfterColonShape(line, host, st);
    } else {
      portText, p := AfterNoColonShape(line, host, st);
    }
  }

  lemma {:induction false} AfterNoColonShape(line: string, host: string, st: State) returns (portText: string, p: UriParts)
    requires st.index <= |line| && (st.index == |line| || line[st.index] != ':')
    requires AfterHost(line, host, st).0.Some?
    ensures AfterHost(line, host, st).0 == Some(p) && TailShape(line, st.index, host, p, portText)
  {
    portText := [];
    assert MatchLength(":", line, st.index) == 0;
    assert AfterHost(line, host, st) == AfterPort(line, host, None, st);
    AfterPortShape(line, host, None, st);
    p := AfterPort(line, host, None, st).0.value;
    assert portText + PathAndQuery(p) == PathAndQuery(p);
  }

  /** A ':' after the host: the port digits that follow it, then the path and query. */
  lemma {:induction false} AfterColonShape(line: string, host: string, st: State) returns (portText: string, p: UriParts)
    requires st.index < |line| && line[st.index] == ':' && AfterHost(line, host, st).0.Some?
    ensures AfterHost(line, host, st).0 == Some(p) && TailShape(line, st.index, host, p, portText)
  {
    assert line[st.index..st.index + 1] == ":";
    LiteralPresent(":", line, st.index, st.isMalformed);
    var st1 := State(st.index + 1, st.isMalformed);
    PortShape(line, st1);
    var port, st2 := Port(line, st1).0.value, Port(line, st1).1;
    p := AfterHost(line, host, st).0.value;
    portText := ColonPortShape(line, host, st.index, port, st2, p);
  }

  lemma {:induction false} ColonPortShape(line: string, host: string, i: nat, port: string, st: State, p: UriParts)
    returns (portText: string)
    requires i + 1 < st.index <= |line| && line[i] == ':'
    requires AllDigits(line[i + 1..st.index]) && port == StripZeros(line[i + 1..st.index])
    requires AfterPort(line, host, Some(port), st).0 == Some(p)
    ensures TailShape(line, i, host, p, portText)
  {
    AfterPortShape(line, host, Some(port), st);
    portText := PortText(line, i, st.index);
  }

  lemma {:induction false} PortText(line: string, i: nat, e: nat) returns (portText: string)
    requires i < e <= |line| && line[i] == ':'
    ensures portText == line[i..e] && |portText| == e - i && portText[0] == ':'
    ensures portText[1..] == line[i + 1..e] && line[i..] == portText + line[e..]
  {
    portText := line[i..e];
    assert portText[1..] == line[i + 1..e];
    assert line[i..] == portText + line[e..];
  }

  /**
   * The absolute form: "http://" in any case, the host (an IPv4 address
   * when it starts with a digit, else an Encoded hostname), the optional
   * ':' and port digits, the optional path and query, and nothing else.
   */
  lemma {:induction false} AbsoluteForm(line: string) returns (portText: string)
    requires UriOf(line).Some? && UriOf(line).value.host.Some?
    ensures var p := UriOf(line).value;
      var host := p.host.value;
      7 <= |line| && EqualsIgnoreCase(line[..7], "http://")
      && line[7..] == host + (portText + PathAndQuery(p))
      && |host| > 0
      && (IsDigit(host[0]) ==> IPv4(line, State(7, false)).0 == Some(host))
      && (!IsDigit(host[0]) ==> Encoded(host, IsHostChar))
      && (p.port.None? ==> portText == [])
      && (p.port.Some? ==> |portText| >= 2 && portText[0] == ':' && AllDigits(portText[1..])
                           && p.port.value == StripZeros(portText[1..]))
      && (p.path.Some? ==> IsAbsolutePath(p.path.value))
      && (p.query.Some? ==> Encoded(p.query.value, IsQueryChar))
  {
    UriIsAbsolute(line);
    var host, st := AbsoluteHost(line);
    var parts;
    portText, parts := AfterHostShape(line, host, st);
    HostJoin(line, st.index, host, portText + PathAndQuery(parts));
  }

  lemma {:induction false} HostJoin(line: string, e: nat, host: string, rest: string)
    requires 7 <= e <= |line| && host == line[7..e] && line[e..] == rest
    ensures line[7..] == host + rest
  {
    assert line[7..] == line[7..e] + line[e..];
  }

  lemma {:induction false} UriIsAbsolute(line: string)
    requires UriOf(line).Some? && UriOf(line).value.host.Some?
    ensures AbsoluteUri(line, State(0, false)).0 == UriOf(line)
  {
    var (absolute, st1) := AbsoluteUri(line, State(0, false));
    OriginHasNoHost(line, st1);
  }

  /** parseAbsoluteUri up to the host: "http://" in any case, then the host text. */
  lemma {:induction false} AbsoluteHost(line: string) returns (host: string, st: State)
    requires AbsoluteUri(line, State(0, false)).0.Some?
    ensures 7 <= st.index <= |line| && EqualsIgnoreCase(line[..7], "http://")
    ensures host == line[7..st.index] && |host| > 0
    ensures AfterHost(line, host, st) == AbsoluteUri(line, State(0, false))
    ensures IsDigit(host[0]) ==> IPv4(line, State(7, false)).0 == Some(host)
    ensures !IsDigit(host[0]) ==> Encoded(host, IsHostChar)
  {
    var (http, st1) := Literal("http://", line, State(0, false));
    FullMatchIsEqualIgnoringCase("http://", line, 0);
    assert st1 == State(7, false);
    var (address, st2) := IPv4(line, st1);
    if address.Some? {
      host, st := address.value, st2;
    } else {
      assert st2 == st1;
      var (name, st3) := Hostname(line, st2);
      HostnameShape(line, st2);
      host, st := name.value, st3;
    }
  }

  // ---------------------------------------------------------------------
  // The absolute form, conversely

  /** The host of an absolute-form URI: four dec-octets, or a registered name. */
  datatype Host = IPv4Host(a: string, b: string, c: string, d: string) | NameHost(name: string)

  function HostText(h: Host): string
  {
    match h
    case IPv4Host(a, b, c, d) => a + "." + b + "." + c + "." + d
    case NameHost(name) => name
  }

  /** An IPv4 host is four dec-octets; a name does not start with a digit and is Encoded host characters. */
  predicate ValidHost(h: Host)
  {
    match h
    case IPv4Host(a, b, c, d) => IsDecOctet(a) && IsDecOctet(b) && IsDecOctet(c) && IsDecOctet(d)
    case NameHost(name) => |name| > 0 && !IsDigit(name[0]) && Encoded(name, IsHostChar)
  }

  /** A port as written after the host: digits whose value is at most 65535. */
  predicate IsPortDigits(d: string)
  {
    |d| > 0 && AllDigits(d) && Value(d) <= 65535
  }

  /** The optional ':' and port digits, as written. */
  function PortSuffix(digits: Option<string>): string
  {
    if digits.Some? then ":" + digits.value else ""
  }

  /** The port parseAbsoluteUri reports for those digits: without leading zeros. */
  function PortOf(digits: Option<string>): Option<string>
  {
    if digits.Some? then Some(StripZeros(digits.value)) else None
  }

  function Pow10(n: nat): nat
  {
    if n == 0 then 1 else 10 * Pow10(n - 1)
  }

  /** A digit string without a leading zero has at least the value of its lowest number of that length. */
  lemma {:induction false} ValueAtLeast(s: string)
    requires |s| > 0 && AllDigits(s) && s[0] != '0'
    ensures Value(s) >= Pow10(|s| - 1)
    decreases |s|
  {
    if |s| > 1 {
      var t := s[..|s| - 1];
      assert t[0] == s[0];
      assert AllDigits(t) by {
        forall k | 0 <= k < |t| ensures IsDigit(t[k]) { assert t[k] == s[k]; }
      }
      ValueAtLeast(t);
    }
  }

  /** Port digits of value at most 65535 keep at most 5 digits once their leading zeros go. */
  lemma {:induction false} PortDigitsShort(d: string)
    requires IsPortDigits(d)
    ensures AllDigits(StripZeros(d)) && |StripZeros(d)| <= 5 && Value(StripZeros(d)) <= 65535
  {
    var r := StripZeros(d);
    StripZerosValue(d);
    if |r| > 5 {
      ValueAtLeast(r);
      assert Pow10(5) == 100000;
      assert Pow10(|r| - 1) >= Pow10(5) by { PowGrows(5, |r| - 1); }
    }
  }

  lemma {:induction false} PowGrows(m: nat, n: nat)
    requires m <= n
    ensures Pow10(m) <= Pow10(n)
    decreases n - m
  {
    if m < n {
      PowGrows(m, n - 1);
    }
  }

  /** Port digits at `i` that are not followed by a digit are one accepted port. */
  lemma {:induction false} PortAt(line: string, i: nat, d: string)
    requires i + |d| <= |line| && line[i..i + |d|] == d && IsPortDigits(d)
    requires i + |d| == |line| || !IsDigit(line[i + |d|])
    ensures Port(line, State(i, false)) == (Some(StripZeros(d)), State(i + |d|, false))
  {
    assert forall k :: i <= k < i + |d| ==> line[k] == d[k - i];
    SpanAt(line, i, i + |d|, IsDigit);
    PortDigitsShort(d);
  }

  /** Where `a + b` stands from `i` on, `a` ends at `i + |a|` and `b` follows it. */
  lemma {:induction false} SplitAt(line: string, i: nat, a: string, b: string)
    requires i <= |line| && line[i..] == a + b
    ensures i + |a| <= |line| && line[i..i + |a|] == a && line[i + |a|..] == b
  {
    assert line[i..][..|a|] == a;
    assert line[i..][|a|..] == b;
  }

  /** An optional absolute path from `i` to `m`, followed by the end or a '?', is what parseAbsolutePath takes. */
  lemma {:induction false} PathAt(line: string, i: nat, m: nat, path: Option<string>)
    requires i <= m <= |line| && line[i..m] == PathText(path) && (m == |line| || line[m] == '?')
    requires path.Some? ==> IsAbsolutePath(path.value)
    ensures AbsolutePath(line, State(i, false)) == (path, State(m, false))
  {
    if path.Some? {
      assert !IsPathChar('?');
      SegmentsOver(line, i, m);
    } else {
      assert MatchLength("/", line, i) == 0;
    }
  }

  /** An optional query that ends the line is what parseQuery takes. */
  lemma {:induction false} QueryEnd(line: string, m: nat, query: Option<string>)
    requires m <= |line| && line[m..] == QueryText(query)
    requires query.Some? ==> Encoded(query.value, IsQueryChar)
    ensures Query(line, State(m, false)) == (query, State(|line|, false))
  {
    if query.Some? {
      assert line[m] == '?' && line[m + 1..] == query.value;
      QueryAt(line, m, query.value);
    } else {
      NoQuery(line, State(m, false));
    }
  }

  /** An optional absolute path and an optional Encoded query that end the line are accepted after the port. */
  lemma {:induction false} AfterPortAt(line: string, i: nat, host: string, port: Option<string>,
                                       path: Option<string>, query: Option<string>)
    requires i <= |line| && line[i..] == PathText(path) + QueryText(query)
    requires path.Some? ==> IsAbsolutePath(path.value)
    requires query.Some? ==> Encoded(query.value, IsQueryChar)
    ensures AfterPort(line, host, port, State(i, false)) == (Some(UriParts(Some(host), port, path, query)), State(|line|, false))
  {
    SplitAt(line, i, PathText(path), QueryText(query));
    var m := i + |PathText(path)|;
    assert m == |line| || line[m] == '?';
    PathAt(line, i, m, path);
    QueryEnd(line, m, query);
  }

  /** A ':' at `i` and port digits from `j` on, followed by the end, a '/' or a '?', are accepted as the port. */
  lemma {:induction false} ColonPortAt(line: string, i: nat, j: nat, d: string)
    requires j == i + 1 && j + |d| <= |line| && line[i] == ':' && line[j..j + |d|] == d && IsPortDigits(d)
    requires j + |d| == |line| || line[j + |d|] == '/' || line[j + |d|] == '?'
    ensures Literal(":", line, State(i, false)) == (true, State(j, false))
    ensures Port(line, State(j, false)) == (Some(StripZeros(d)), State(j + |d|, false))
  {
    assert line[i..j] == ":";
    LiteralPresent(":", line, i, false);
    PortAt(line, j, d);
  }

  /** Where ':', digits and the rest stand from `i` on. */
  lemma {:induction false} ColonSplit(line: string, i: nat, d: string, rest: string)
    requires i <= |line| && line[i..] == (":" + d) + rest
    ensures i + 1 + |d| <= |line| && line[i] == ':' && line[i + 1..i + 1 + |d|] == d && line[i + 1 + |d|..] == rest
  {
    assert line[i..][0] == ':';
    assert line[i..][1..1 + |d|] == d;
    assert line[i..][1 + |d|..] == rest;
  }

  /** An optional path and query start with a '/' or a '?', if with anything. */
  lemma {:induction false} RestStart(line: string, e: nat, path: Option<string>, query: Option<string>)
    requires e <= |line| && line[e..] == PathText(path) + QueryText(query)
    requires path.Some? ==> IsAbsolutePath(path.value)
    ensures e == |line| || line[e] == '/' || line[e] == '?'
  {
    if e < |line| {
      assert line[e] == line[e..][0];
    }
  }

  /** A ':', port digits, then an optional path and query that end the line, are accepted after the host. */
  lemma {:induction false} AfterColonAt(line: string, i: nat, j: nat, e: nat, host: string, d: string,
                                        path: Option<string>, query: Option<string>)
    requires j == i + 1 && e == j + |d| <= |line| && line[i] == ':' && line[j..e] == d && IsPortDigits(d)
    requires line[e..] == PathText(path) + QueryText(query)
    requires path.Some? ==> IsAbsolutePath(path.value)
    requires query.Some? ==> Encoded(query.value, IsQueryChar)
    ensures AfterHost(line, host, State(i, false))
         == (Some(UriParts(Some(host), Some(StripZeros(d)), path, query)), State(|line|, false))
  {
    RestStart(line, e, path, query);
    ColonPortAt(line, i, j, d);
    AfterPortAt(line, e, host, Some(StripZeros(d)), path, query);
    assert State(j + |d|, false) == State(e, false);
  }

  /** The optional ':' and port, then an optional path and query that end the line, are accepted after the host. */
  lemma {:induction false} AfterHostAt(line: string, i: nat, host: string, digits: Option<string>,
                                       path: Option<string>, query: Option<string>)
    requires i <= |line| && line[i..] == PortSuffix(digits) + (PathText(path) + QueryText(query))
    requires digits.Some? ==> IsPortDigits(digits.value)
    requires path.Some? ==> IsAbsolutePath(path.value)
    requires query.Some? ==> Encoded(query.value, IsQueryChar)
    ensures AfterHost(line, host, State(i, false))
         == (Some(UriParts(Some(host), PortOf(digits), path, query)), State(|line|, false))
  {
    var rest := PathText(path) + QueryText(query);
    if digits.Some? {
      var d := digits.value;
      ColonSplit(line, i, d, rest);
      AfterColonAt(line, i, i + 1, i + 1 + |d|, host, d, path, query);
    } else {
      NoPortAt(line, i, host, path, query);
    }
  }

  /** Without a ':', an optional path and query that end the line are accepted after the host. */
  lemma {:induction false} NoPortAt(line: string, i: nat, host: string, path: Option<string>, query: Option<string>)
    requires i <= |line| && line[i..] == PathText(path) + QueryText(query)
    requires path.Some? ==> IsAbsolutePath(path.value)
    requires query.Some? ==> Encoded(query.value, IsQueryChar)
    ensures AfterHost(line, host, State(i, false))
         == (Some(UriParts(Some(host), None, path, query)), State(|line|, false))
  {
    RestStart(line, i, path, query);
    assert MatchLength(":", line, i) == 0;
    AfterPortAt(line, i, host, None, path, query);
  }

  /** What may follow the host: nothing, or a ':', a '/' or a '?'. */
  predicate EndsHost(line: string, e: nat)
  {
    e == |line| || (e < |line| && (line[e] == ':' || line[e] == '/' || line[e] == '?'))
  }

  /** "http://" in any case, then a registered name: parseAbsoluteUri goes on after the name. */
  lemma {:induction false} NameHostAt(line: string, name: string, e: nat)
    requires 7 <= |line| && EqualsIgnoreCase(line[..7], "http://")
    requires e == 7 + |name| <= |line| && line[7..e] == name && ValidHost(NameHost(name)) && EndsHost(line, e)
    ensures AbsoluteUri(line, State(0, false)) == AfterHost(line, name, State(e, false))
  {
    assert line[0..7] == line[..7];
    LiteralPresent("http://", line, 0, false);
    assert line[7] == name[0];
    assert IPv4(line, State(7, false)) == (None, State(7, false));
    assert !IsHostChar('%') && !IsHostChar(':') && !IsHostChar('/') && !IsHostChar('?');
    RunOver(line, 7, e, false, IsHostChar);
  }

  /** Where the four octets of a dotted address stand from `i` on. */
  lemma {:induction false} QuadSplit(line: string, i: nat, e: nat, h: Host)
    requires h.IPv4Host? && i <= e <= |line| && line[i..e] == HostText(h)
    ensures var p1 := i + |h.a|; var p2 := p1 + 1 + |h.b|; var p3 := p2 + 1 + |h.c|;
      p3 + 1 + |h.d| == e
      && line[i..p1] == h.a && line[p1] == '.' && line[p1 + 1..p2] == h.b && line[p2] == '.'
      && line[p2 + 1..p3] == h.c && line[p3] == '.' && line[p3 + 1..e] == h.d
  {
    var ab := h.a + "." + h.b;
    var abc := ab + "." + h.c;
    DotIn(line, i, e, abc, h.d);
    DotIn(line, i, i + |abc|, ab, h.c);
    DotIn(line, i, i + |ab|, h.a, h.b);
  }

  /** Where the '.' between `x` and `y` stands in a slice that reads x + "." + y. */
  lemma {:induction false} DotIn(line: string, i: nat, e: nat, x: string, y: string)
    requires i <= e <= |line| && line[i..e] == x + "." + y
    ensures var m := i + |x|; m + 1 + |y| == e && line[i..m] == x && line[m] == '.' && line[m + 1..e] == y
  {
    var t := line[i..e];
    var m := |x|;
    assert t[..m] == x && t[m] == '.' && t[m + 1..] == y;
  }

  /** "http://" in any case, then four dotted dec-octets: parseAbsoluteUri goes on after the address. */
  lemma {:induction false} IPv4HostAt(line: string, h: Host, e: nat)
    requires h.IPv4Host? && ValidHost(h)
    requires 7 <= |line| && EqualsIgnoreCase(line[..7], "http://")
    requires e == 7 + |HostText(h)| <= |line| && line[7..e] == HostText(h) && EndsHost(line, e)
    ensures AbsoluteUri(line, State(0, false)) == AfterHost(line, HostText(h), State(e, false))
  {
    assert line[0..7] == line[..7];
    LiteralPresent("http://", line, 0, false);
    QuadFrom(line, h, 7, e);
  }

  /** Four dotted dec-octets from `i` on, followed by no digit, are read as the IPv4 address. */
  lemma {:induction false} QuadFrom(line: string, h: Host, i: nat, e: nat)
    requires h.IPv4Host? && ValidHost(h)
    requires i <= e <= |line| && line[i..e] == HostText(h) && EndsHost(line, e)
    ensures IPv4(line, State(i, false)) == (Some(HostText(h)), State(e, false))
  {
    QuadSplit(line, i, e, h);
    var p1 := i + |h.a|;
    var p2 := p1 + 1 + |h.b|;
    var p3 := p2 + 1 + |h.c|;
    assert e == |line| || !IsDigit(line[e]);
    IPv4At(line, i, p1, p2, p3, e);
  }

  /**
   * Conversely to AbsoluteForm: "http://" in any case, a host, an optional
   * ':' and port of value at most 65535, an optional absolute path and an
   * optional Encoded query are accepted as the absolute form, with the
   * port's leading zeros dropped.
   */
  lemma {:induction false} AbsoluteRoundTrip(scheme: string, h: Host, digits: Option<string>,
                                             path: Option<string>, query: Option<string>)
    requires |scheme| == 7 && EqualsIgnoreCase(scheme, "http://") && ValidHost(h)
    requires digits.Some? ==> IsPortDigits(digits.value)
    requires path.Some? ==> IsAbsolutePath(path.value)
    requires query.Some? ==> Encoded(query.value, IsQueryChar)
    ensures UriOf(scheme + HostText(h) + (PortSuffix(digits) + (PathText(path) + QueryText(query))))
         == Some(UriParts(Some(HostText(h)), PortOf(digits), path, query))
  {
    var host := HostText(h);
    var rest := PortSuffix(digits) + (PathText(path) + QueryText(query));
    var line := scheme + host + rest;
    var e := 7 + |host|;
    assert line[..7] == scheme && line[7..e] == host && line[e..] == rest;
    assert |rest| == 0 || rest[0] == ':' || rest[0] == '/' || rest[0] == '?';
    assert EndsHost(line, e);
    if h.IPv4Host? {
      IPv4HostAt(line, h, e);
    } else {
      NameHostAt(line, h.name, e);
    }
    AfterHostAt(line, e, host, digits, path, query);
  }
}
