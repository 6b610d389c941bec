/**
 * BaseParser: the cursor shared by the request-line / header parser and the
 * URI parser. A cursor is the pair State{index, is_malformed}; the C++ code
 * passes it by reference, which the model turns into an in-parameter and a
 * returned new State.
 */
module BaseParser {
  import opened Ascii

  datatype State = State(index: nat, isMalformed: bool)

  /**
   * How many characters of `literal`, counted from position `k` of the
   * literal, match `line` from `start + k` on, case-insensitively; the result
   * is the position in `literal` where matching stops.
   */
  function MatchFrom(literal: string, line: string, start: nat, k: nat): (n: nat)
    requires k <= |literal|
    ensures k <= n <= |literal|
    ensures n > k ==> start + n <= |line|
    decreases |literal| - k
  {
    if k < |literal| && start + k < |line| && ToLower(literal[k]) == ToLower(line[start + k])
    then MatchFrom(literal, line, start, k + 1)
    else k
  }

  /** The length of the longest case-insensitively matching prefix of `literal` at `start`. */
  function MatchLength(literal: string, line: string, start: nat): nat
  {
    MatchFrom(literal, line, start, 0)
  }

  /** The effect of parseLiteral on the cursor, as a value: (returned flag, new state). */
  function Literal(literal: string, line: string, state: State): (bool, State)
  {
    var n := MatchLength(literal, line, state.index);
    (n == |literal|, State(state.index + n, state.isMalformed || (0 < n < |literal|)))
  }

  /**
   * What MatchFrom compares: the characters before the stop agree ignoring
   * case, and the one at the stop, when both texts have one, does not.
   */
  lemma {:induction false} MatchFromFacts(literal: string, line: string, start: nat, k: nat)
    requires k <= |literal|
    ensures var n := MatchFrom(literal, line, start, k);
      (forall j :: k <= j < n ==> ToLower(literal[j]) == ToLower(line[start + j]))
      && (n < |literal| && start + n < |line| ==> ToLower(literal[n]) != ToLower(line[start + n]))
    decreases |literal| - k
  {
    if k < |literal| && start + k < |line| && ToLower(literal[k]) == ToLower(line[start + k]) {
      MatchFromFacts(literal, line, start, k + 1);
    }
  }

  /** A full match of `literal` at `start` means the text there equals it ignoring case. */
  lemma {:induction false} FullMatchIsEqualIgnoringCase(literal: string, line: string, start: nat)
    ensures MatchLength(literal, line, start) == |literal| <==>
            |literal| == 0
            || (start + |literal| <= |line| && EqualsIgnoreCase(line[start..start + |literal|], literal))
  {
    MatchFromFacts(literal, line, start, 0);
    var n := MatchLength(literal, line, start);
    if start + |literal| <= |line| {
      var t := line[start..start + |literal|];
      assert forall j :: 0 <= j < |literal| ==> t[j] == line[start + j];
      if n < |literal| {
        assert ToLower(t[n]) != ToLower(literal[n]);
      }
    }
  }

  /** A literal present at `i` (in any case) is matched in full; the malformed flag is kept. */
  lemma {:induction false} LiteralPresent(literal: string, line: string, i: nat, malformed: bool)
    requires i + |literal| <= |line| && EqualsIgnoreCase(line[i..i + |literal|], literal)
    ensures Literal(literal, line, State(i, malformed)) == (true, State(i + |literal|, malformed))
  {
    FullMatchIsEqualIgnoringCase(literal, line, i);
  }

  /** A symbol present at `i` is matched; the malformed flag is kept. */
  lemma {:induction false} SymbolPresent(symbol: char, line: string, i: nat, malformed: bool)
    requires i < |line| && line[i] == symbol
    ensures Literal([symbol], line, State(i, malformed)) == (true, State(i + 1, malformed))
  {
    assert MatchFrom([symbol], line, i, 1) == 1;
  }

  /** parseLiteral of one character that is not a letter: it matches exactly that character. */
  lemma SymbolLiteral(symbol: char, line: string, state: State)
    requires !('A' <= symbol <= 'Z') && !('a' <= symbol <= 'z')
    ensures Literal([symbol], line, state)
         == if state.index < |line| && line[state.index] == symbol then (true, state.(index := state.index + 1))
            else (false, state)
  {
    if state.index < |line| && line[state.index] != symbol {
      assert ToLower(line[state.index]) != ToLower(symbol);
    }
    assert MatchFrom([symbol], line, state.index, 1) == 1;
  }

  /** BaseParser::parseLiteral */
  method ParseLiteral(literal: string, line: string, state: State) returns (ok: bool, state': State)
    ensures (ok, state') == Literal(literal, line, state)
    ensures ok <==> |literal| == 0
                    || (state.index + |literal| <= |line|
                        && EqualsIgnoreCase(line[state.index..state.index + |literal|], literal))
    ensures state'.index == state.index + MatchLength(literal, line, state.index)
    ensures state'.isMalformed <==>
              state.isMalformed || (state'.index != state.index && !ok)
    ensures state.index <= |line| ==> state'.index <= |line|
  {
    var start := state.index;
    var index := state.index;
    while index < |line| && index - start < |literal|
          && ToLower(literal[index - start]) == ToLower(line[index])
      invariant start <= index
      invariant index - start <= |literal|
      invariant MatchFrom(literal, line, start, index - start) == MatchLength(literal, line, start)
    {
      index := index + 1;
    }
    state' := state.(index := index);
    ok := true;
    if index - start != |literal| {
      if index - start != 0 {
        state' := state'.(isMalformed := true);
      }
      ok := false;
    }
    FullMatchIsEqualIgnoringCase(literal, line, start);
  }

  /** BaseParser::parseSymbol: parseLiteral of the one-character string [symbol]. */
  method ParseSymbol(symbol: char, line: string, state: State) returns (ok: bool, state': State)
    ensures (ok, state') == Literal([symbol], line, state)
    ensures ok <==> state.index < |line| && ToLower(line[state.index]) == ToLower(symbol)
    ensures state'.index == if ok then state.index + 1 else state.index
    ensures state'.isMalformed == state.isMalformed
  {
    ok, state' := ParseLiteral([symbol], line, state);
  }
}
