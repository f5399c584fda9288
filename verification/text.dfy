/**
 * The JavaScript string primitives the reading-notes component relies on:
 * `trim`, `toLowerCase`, `includes` and `Number.prototype.toString`.
 * Strings are sequences of Unicode scalar values.
 */
module Text {

  /** White space and line terminators as `String.prototype.trim` strips them. */
  predicate IsJsWhitespace(c: char)
  {
    c == '\t' || c == '\n' || c == '\U{B}' || c == '\U{C}' || c == '\r' || c == ' '
    || c == '\U{A0}' || c == '\U{1680}' || ('\U{2000}' <= c <= '\U{200A}')
    || c == '\U{2028}' || c == '\U{2029}' || c == '\U{202F}' || c == '\U{205F}'
    || c == '\U{3000}' || c == '\U{FEFF}'
  }

  /** True when every character of `s` is white space (the empty string included). */
  predicate AllWhitespace(s: string)
  {
    forall k :: 0 <= k < |s| ==> IsJsWhitespace(s[k])
  }

  /** Drops leading white space: the result is the longest suffix starting with a non-blank. */
  function TrimStart(s: string): (r: string)
    ensures |r| <= |s| && r == s[|s| - |r|..]
    ensures AllWhitespace(s[..|s| - |r|])
    ensures r == [] || !IsJsWhitespace(r[0])
    decreases |s|
  {
    if s != [] && IsJsWhitespace(s[0]) then TrimStart(s[1..]) else s
  }

  /** White space followed by one more blank is still white space. */
  lemma WhitespaceThenBlank(w: string, c: char)
    requires AllWhitespace(w) && IsJsWhitespace(c)
    ensures AllWhitespace(w + [c])
  {
    assert forall k :: 0 <= k < |w| ==> (w + [c])[k] == w[k];
  }

  /** Drops trailing white space: the result is the longest prefix ending with a non-blank. */
  function TrimEnd(s: string): (r: string)
    ensures |r| <= |s| && r == s[..|r|]
    ensures AllWhitespace(s[|r|..])
    ensures r == [] || !IsJsWhitespace(r[|r| - 1])
    decreases |s|
  {
    if s != [] && IsJsWhitespace(s[|s| - 1]) then
      var r := TrimEnd(s[..|s| - 1]);
      assert s[..|s| - 1][..|r|] == s[..|r|];
      assert s[|r|..] == s[..|s| - 1][|r|..] + [s[|s| - 1]];
      WhitespaceThenBlank(s[..|s| - 1][|r|..], s[|s| - 1]);
      r
    else
      s
  }

  /**
   * `s.trim()`: the piece of `s` left after removing the white space at both
   * ends; what is removed before and after it is all white space, and the
   * piece neither starts nor ends with white space.
   */
  function Trim(s: string): (r: string)
    ensures |r| <= |s|
    ensures PaddedBy(s, r)
    ensures r == [] <==> AllWhitespace(s)
    ensures r != [] ==> !IsJsWhitespace(r[0]) && !IsJsWhitespace(r[|r| - 1])
  {
    var t := TrimStart(s);
    var r := TrimEnd(t);
    TrimmedPiece(s, |s| - |t|, r);
    r
  }

  /** `s` is `r` with nothing but white space added before and after it. */
  ghost predicate PaddedBy(s: string, r: string)
  {
    exists i: nat :: OccursAt(s, r, i) && AllWhitespace(s[..i]) && AllWhitespace(s[i + |r|..])
  }

  /** A piece cut out of `s` at `i`, with only white space before it and after it. */
  lemma TrimmedPiece(s: string, i: nat, r: string)
    requires i <= |s| && |r| <= |s| - i
    requires AllWhitespace(s[..i])
    requires r == s[i..][..|r|] && AllWhitespace(s[i..][|r|..])
    ensures OccursAt(s, r, i) && AllWhitespace(s[i + |r|..])
    ensures r == [] ==> AllWhitespace(s)
  {
    assert s[i..][..|r|] == s[i..i + |r|];
    assert s[i..][|r|..] == s[i + |r|..];
    if r == [] {
      assert forall k :: 0 <= k < |s| ==> (k < i ==> s[k] == s[..i][k]) && (i <= k ==> s[k] == s[i..][k - i]);
    }
  }

  /** `!s.trim()`: the test for an empty or blank input; the empty string is blank. */
  predicate IsBlank(s: string)
    ensures s == [] ==> IsBlank(s)
  {
    AllWhitespace(s)
  }

  /** Blank means that trimming leaves nothing. */
  lemma IsBlankIffTrimEmpty(s: string)
    ensures IsBlank(s) <==> Trim(s) == []
  {
  }

  /** `toLowerCase` on one character; only the ASCII letters are mapped. */
  function LowerChar(c: char): char
  {
    if 'A' <= c <= 'Z' then (c as int + 32) as char else c
  }

  /** `s.toLowerCase()`, character by character. */
  function Lower(s: string): (r: string)
    ensures |r| == |s|
    ensures forall i :: 0 <= i < |s| ==> r[i] == LowerChar(s[i])
  {
    if s == [] then [] else [LowerChar(s[0])] + Lower(s[1..])
  }

  /** Lowering is idempotent and never turns a blank string into a non-blank one or back. */
  lemma LowerKeepsBlankness(s: string)
    ensures Lower(Lower(s)) == Lower(s)
    ensures IsBlank(Lower(s)) <==> IsBlank(s)
  {
    assert forall k :: 0 <= k < |s| ==> (IsJsWhitespace(Lower(s)[k]) <==> IsJsWhitespace(s[k]));
  }

  /** `q` occurs in `s` starting at index `i`. */
  predicate OccursAt(s: string, q: string, i: nat)
  {
    i + |q| <= |s| && s[i..i + |q|] == q
  }

  /** `q` is a prefix of `s`, compared character by character; that is, `q` occurs in `s` at 0. */
  predicate StartsWith(s: string, q: string)
    ensures StartsWith(s, q) <==> OccursAt(s, q, 0)
    decreases |q|
  {
    if |q| <= |s| && q != [] then
      assert s[..|q|] == [s[0]] + s[1..][..|q| - 1];
      assert q == [q[0]] + q[1..];
      s[0] == q[0] && StartsWith(s[1..], q[1..])
    else
      |q| <= |s|
  }

  /**
   * `s.includes(q)`, scanning start positions from the left: the empty query
   * is always included, and a query longer than the text never is.
   */
  predicate Includes(s: string, q: string)
    ensures q == [] ==> Includes(s, q)
    ensures Includes(s, q) ==> |q| <= |s|
    decreases |s|
  {
    StartsWith(s, q) || (0 < |s| && Includes(s[1..], q))
  }

  /** The scan agrees with the declarative meaning: some start position holds `q`. */
  lemma {:induction false} IncludesIff(s: string, q: string)
    ensures Includes(s, q) <==> exists i: nat :: OccursAt(s, q, i)
    decreases |s|
  {
    if OccursAt(s, q, 0) {
    } else if 0 < |s| {
      IncludesIff(s[1..], q);
      forall i: nat ensures OccursAt(s, q, i + 1) <==> OccursAt(s[1..], q, i) {
        if i + 1 + |q| <= |s| { assert s[1..][i..i + |q|] == s[i + 1..i + 1 + |q|]; }
      }
      if Includes(s, q) {
        var j: nat :| OccursAt(s[1..], q, j);
        assert OccursAt(s, q, j + 1);
      } else {
        forall i: nat ensures !OccursAt(s, q, i) {
          if i > 0 { assert !OccursAt(s[1..], q, i - 1); }
        }
      }
    } else {
      assert forall i: nat :: !OccursAt(s, q, i);
    }
  }

  /** One decimal digit. */
  function Digit(d: nat): char
    requires d < 10
  {
    ('0' as int + d) as char
  }

  /** The number a string of decimal digits spells, most significant digit first. */
  function DecimalValue(r: string): nat
  {
    if r == [] then 0
    else
      var c := r[|r| - 1];
      10 * DecimalValue(r[..|r| - 1]) + (if '0' <= c <= '9' then c as int - '0' as int else 0)
  }

  /**
   * `n.toString()` for a natural number: the digits that spell `n`, with no
   * leading zero, so different numbers get different strings.
   */
  function NatToString(n: nat): (r: string)
    ensures |r| > 0
    ensures forall k :: 0 <= k < |r| ==> '0' <= r[k] <= '9'
    ensures DecimalValue(r) == n
    ensures |r| > 1 ==> r[0] != '0'
    ensures |r| == 1 <==> n < 10
  {
    if n < 10 then [Digit(n)]
    else
      var p := NatToString(n / 10);
      var r := p + [Digit(n % 10)];
      assert r[..|r| - 1] == p;
      r
  }
}
