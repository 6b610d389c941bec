/**
 * Scanning helpers shared by the two cursor parsers: the maximal run of
 * characters of a class, and the leading-zero stripping of a digit run
 * that parseNumber and parsePort both perform.
 */
module Scanning {
  import opened Ascii

  /** The end of the maximal run of characters satisfying `p` that starts at `i`. */
  function Span(line: string, i: nat, p: char -> bool): (r: nat)
    ensures i <= r
    ensures r > i ==> r <= |line|
    ensures forall j :: i <= j < r ==> p(line[j])
    ensures r < |line| ==> !p(line[r])
    decreases |line| - i
  {
    if i < |line| && p(line[i]) then Span(line, i + 1, p) else i
  }

  /** A run of `p`-characters from `i` to `j` that stops at `j` is the maximal one. */
  lemma {:induction false} SpanAt(line: string, i: nat, j: nat, p: char -> bool)
    requires i <= j <= |line|
    requires forall k :: i <= k < j ==> p(line[k])
    requires j == |line| || !p(line[j])
    ensures Span(line, i, p) == j
    decreases j - i
  {
    if i < j {
      SpanAt(line, i + 1, j, p);
    }
  }

  /** Leading zeros stripped, keeping a single "0" for an all-zero run. */
  function StripZeros(d: string): (r: string)
    ensures |d| > 0 ==> |r| > 0
    ensures |r| <= |d| && r == d[|d| - |r|..]
    ensures |r| > 1 ==> r[0] != '0'
  {
    if |d| > 1 && d[0] == '0' then StripZeros(d[1..]) else d
  }

  lemma {:induction false} StripAllZeros(d: string)
    requires |d| > 0 && forall k :: 0 <= k < |d| ==> d[k] == '0'
    ensures StripZeros(d) == d[|d| - 1..]
  {
    if |d| > 1 {
      StripAllZeros(d[1..]);
      assert d[1..][|d| - 2..] == d[|d| - 1..];
    }
  }

  lemma {:induction false} StripToFirstNonZero(d: string, f: nat)
    requires f < |d| && d[f] != '0' && forall k :: 0 <= k < f ==> d[k] == '0'
    ensures StripZeros(d) == d[f..]
  {
    if f > 0 {
      StripToFirstNonZero(d[1..], f - 1);
      assert d[1..][f - 1..] == d[f..];
    }
  }

  /** Digits at every position of line[start..end] make it a digit string. */
  lemma {:induction false} DigitRun(line: string, start: nat, end: nat)
    requires start <= end <= |line| && forall k :: start <= k < end ==> IsDigit(line[k])
    ensures AllDigits(line[start..end])
  {
    var d := line[start..end];
    forall k | 0 <= k < |d| ensures IsDigit(d[k]) {
      assert d[k] == line[start + k];
    }
  }

  /** StripAllZeros over the run line[start..end] of a longer text. */
  lemma {:induction false} StripRunOfZeros(line: string, start: nat, end: nat)
    requires start < end <= |line| && forall k :: start <= k < end ==> line[k] == '0'
    ensures StripZeros(line[start..end]) == line[end - 1..end]
  {
    var d := line[start..end];
    assert forall k :: 0 <= k < |d| ==> d[k] == line[start + k];
    StripAllZeros(d);
    assert d[|d| - 1..] == line[end - 1..end];
  }

  /** StripToFirstNonZero over the run line[start..end] of a longer text. */
  lemma {:induction false} StripRunToFirstNonZero(line: string, start: nat, f: nat, end: nat)
    requires start <= f < end <= |line| && line[f] != '0'
    requires forall k :: start <= k < f ==> line[k] == '0'
    ensures StripZeros(line[start..end]) == line[f..end]
  {
    var d := line[start..end];
    forall k | 0 <= k < f - start ensures d[k] == '0' {
      assert d[k] == line[start + k];
    }
    assert d[f - start] == line[f];
    StripToFirstNonZero(d, f - start);
    assert d[f - start..] == line[f..end];
  }

  lemma {:induction false} StripZerosDigits(d: string)
    requires AllDigits(d)
    ensures AllDigits(StripZeros(d))
  {
    var r := StripZeros(d);
    forall k | 0 <= k < |r| ensures IsDigit(r[k]) {
      assert r[k] == d[|d| - |r| + k];
    }
  }
}
