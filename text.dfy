/**
 * The few string operations of Python the resolver relies on:
 * `str.split(",")`, `",".join(...)`, `str.lower()` compared with "srv",
 * `str.rstrip(".")` and `str(int)`.
 */
module Text {
  import opened Wrappers

  /** Position of the first occurrence of `c` in `s` (Python's `str.find`, with None for -1). */
  function IndexOf(s: string, c: char): (r: Option<nat>)
    ensures r.Some? ==> r.value < |s| && s[r.value] == c && c !in s[..r.value]
    ensures r.None? ==> c !in s
  {
    if s == [] then None
    else if s[0] == c then Some(0)
    else
      match IndexOf(s[1..], c)
      case None => None
      case Some(i) =>
        assert s[1..][..i] == s[1..i + 1];
        Some(i + 1)
  }

  /** The first occurrence is unique: a split point `a + [c] + b` with `c` not in `a` is found at `|a|`. */
  lemma IndexOfFirst(a: string, c: char, b: string)
    requires c !in a
    ensures IndexOf(a + [c] + b, c) == Some(|a|)
  {
    assert (a + [c] + b)[|a|] == c;
  }

  /**
   * Python's `",".join(parts)`: the first piece comes first, and the result
   * is free of commas exactly when there is at most one piece and it is.
   */
  function Join(parts: seq<string>): (r: string)
    ensures parts == [] ==> r == ""
    ensures parts != [] ==> parts[0] <= r
    ensures ',' !in r <==> |parts| <= 1 && (|parts| == 1 ==> ',' !in parts[0])
  {
    if |parts| == 0 then ""
    else if |parts| == 1 then parts[0]
    else
      var r := parts[0] + "," + Join(parts[1..]);
      assert r[|parts[0]|] == ',';
      r
  }

  /** Python's `s.split(",")`: never empty, pieces hold no comma, joining them gives `s` back. */
  function Split(s: string): (r: seq<string>)
    ensures |r| >= 1
    ensures forall k :: 0 <= k < |r| ==> ',' !in r[k]
    ensures Join(r) == s
    decreases |s|
  {
    match IndexOf(s, ',')
    case None => [s]
    case Some(i) =>
      var rest := Split(s[i + 1..]);
      assert s == s[..i] + "," + s[i + 1..];
      assert ([s[..i]] + rest)[1..] == rest;
      [s[..i]] + rest
  }

  /** No piece of `parts` holds a comma. */
  predicate CommaFree(parts: seq<string>)
  {
    forall k :: 0 <= k < |parts| ==> ',' !in parts[k]
  }

  /** Splitting a join of comma-free pieces gives the pieces back. */
  lemma {:induction false} SplitOfJoin(parts: seq<string>)
    requires |parts| >= 1
    requires CommaFree(parts)
    ensures Split(Join(parts)) == parts
    decreases |parts|
  {
    if |parts| == 1 {
      assert ',' !in parts[0];
    } else {
      var tail := Join(parts[1..]);
      IndexOfFirst(parts[0], ',', tail);
      var s := parts[0] + [','] + tail;
      assert Join(parts) == s;
      assert s[..|parts[0]|] == parts[0];
      assert s[|parts[0]| + 1..] == tail;
      SplitOfJoin(parts[1..]);
    }
  }

  /** Lower-casing of one character, restricted to ASCII. */
  function LowerChar(c: char): char
  {
    if 'A' <= c <= 'Z' then (c as int + 32) as char else c
  }

  /** `s.lower()` over ASCII letters: upper-case letters become lower-case, nothing else changes. */
  function Lower(s: string): (r: string)
    ensures |r| == |s|
    ensures forall k :: 0 <= k < |s| ==> !('A' <= r[k] <= 'Z')
    ensures forall k :: 0 <= k < |s| && !('A' <= s[k] <= 'Z') ==> r[k] == s[k]
    ensures forall k :: 0 <= k < |s| && 'A' <= s[k] <= 'Z' ==> r[k] as int == s[k] as int + 32
  {
    seq(|s|, k requires 0 <= k < |s| => LowerChar(s[k]))
  }

  /** `port.lower() == "srv"`. */
  predicate IsSrvPort(port: string)
  {
    Lower(port) == "srv"
  }

  /** The ports that ask for SRV lookup are exactly the eight spellings of "srv" in mixed case. */
  lemma SrvPortCases(port: string)
    ensures IsSrvPort(port) <==>
      |port| == 3 && port[0] in "sS" && port[1] in "rR" && port[2] in "vV"
  {
    if |port| == 3 {
      assert Lower(port)[0] == LowerChar(port[0]);
      assert Lower(port)[1] == LowerChar(port[1]);
      assert Lower(port)[2] == LowerChar(port[2]);
    }
  }

  /** Python's `s.rstrip(".")`: the longest prefix of `s` that does not end with a dot, all of the rest being dots. */
  function RStripDots(s: string): (r: string)
    ensures |r| <= |s| && r == s[..|r|]
    ensures forall k :: |r| <= k < |s| ==> s[k] == '.'
    ensures r == [] || r[|r| - 1] != '.'
    decreases |s|
  {
    if s != [] && s[|s| - 1] == '.' then RStripDots(s[..|s| - 1]) else s
  }

  predicate IsDigit(c: char)
  {
    '0' <= c <= '9'
  }

  predicate AllDigits(s: string)
  {
    forall k :: 0 <= k < |s| ==> IsDigit(s[k])
  }

  /** Decimal value of a string of digits. */
  function ParseDecimal(s: string): nat
    requires AllDigits(s)
  {
    if s == [] then 0
    else ParseDecimal(s[..|s| - 1]) * 10 + (s[|s| - 1] as int - '0' as int)
  }

  /** Python's `str(n)` for a non-negative integer: decimal digits, no leading zero, and reading it back gives `n`. */
  function NatToString(n: nat): (r: string)
    ensures |r| >= 1 && AllDigits(r)
    ensures r[0] == '0' ==> n == 0 && r == "0"
    ensures ParseDecimal(r) == n
    decreases n
  {
    if n < 10 then [('0' as int + n) as char]
    else
      var prefix := NatToString(n / 10);
      var r := prefix + [('0' as int + n % 10) as char];
      assert r[..|r| - 1] == prefix;
      r
  }

  /** The text of a decimal number never holds a comma. */
  lemma NatToStringCommaFree(n: nat)
    ensures ',' !in NatToString(n)
  {
  }
}
