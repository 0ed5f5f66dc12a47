/**
 * Strings as the task list sees them: the whitespace that JavaScript's
 * String.prototype.trim removes, trimming itself, and the decimal rendering
 * of the clock value that task ids are built from.
 */
module Text {

  /** The ECMAScript WhiteSpace and LineTerminator code points (Zs as of Unicode 15). */
  predicate IsWhitespace(c: char) {
    c == '\t' || c == '\n' || c == '\U{B}' || c == '\U{C}' || c == '\r' || c == ' '
    || c == '\U{A0}' || c == '\U{1680}' || ('\U{2000}' <= c <= '\U{200A}')
    || c == '\U{2028}' || c == '\U{2029}' || c == '\U{202F}' || c == '\U{205F}'
    || c == '\U{3000}' || c == '\U{FEFF}'
  }

  predicate AllWhitespace(s: string) {
    forall i :: 0 <= i < |s| ==> IsWhitespace(s[i])
  }

  /** A string that trimming leaves alone: empty, or neither end is whitespace. */
  predicate Trimmed(s: string) {
    s == [] || (!IsWhitespace(s[0]) && !IsWhitespace(s[|s| - 1]))
  }

  /** The length of the longest all-whitespace prefix of s. */
  function LeadingSpace(s: string): (k: nat)
    ensures k <= |s|
    ensures forall i :: 0 <= i < k ==> IsWhitespace(s[i])
    ensures k < |s| ==> !IsWhitespace(s[k])
  {
    if |s| > 0 && IsWhitespace(s[0]) then
      LeadingSpace(s[1..]) + 1
    else
      0
  }

  /** The length of the longest all-whitespace suffix of s. */
  function TrailingSpace(s: string): (k: nat)
    ensures k <= |s|
    ensures forall i :: |s| - k <= i < |s| ==> IsWhitespace(s[i])
    ensures k < |s| ==> !IsWhitespace(s[|s| - 1 - k])
  {
    if |s| > 0 && IsWhitespace(s[|s| - 1]) then
      TrailingSpace(s[..|s| - 1]) + 1
    else
      0
  }

  /** String.prototype.trim: drop the leading and the trailing whitespace. */
  function Trim(s: string): (r: string)
    ensures Trimmed(r)
    ensures r == [] <==> AllWhitespace(s)
    ensures |r| <= |s|
  {
    var front := s[LeadingSpace(s)..];
    assert AllWhitespace(s) ==> front == [];
    front[..|front| - TrailingSpace(front)]
  }

  /** Whitespace in front of a non-whitespace character is exactly the leading space. */
  lemma {:induction false} LeadingSpacePadded(pre: string, rest: string)
    requires AllWhitespace(pre) && rest != [] && !IsWhitespace(rest[0])
    ensures LeadingSpace(pre + rest) == |pre|
  {
    if pre != [] {
      assert (pre + rest)[1..] == pre[1..] + rest;
      LeadingSpacePadded(pre[1..], rest);
    } else {
      assert pre + rest == rest;
    }
  }

  /** Whitespace after a non-whitespace character is exactly the trailing space. */
  lemma {:induction false} TrailingSpacePadded(rest: string, post: string)
    requires rest != [] && !IsWhitespace(rest[|rest| - 1]) && AllWhitespace(post)
    ensures TrailingSpace(rest + post) == |post|
  {
    var s := rest + post;
    if post != [] {
      assert s[..|s| - 1] == rest + post[..|post| - 1];
      TrailingSpacePadded(rest, post[..|post| - 1]);
    } else {
      assert s == rest;
    }
  }

  /**
   * Trimming is determined by what it keeps: a trimmed core padded on both
   * sides with whitespace trims to that core. Every string has this shape
   * (see TrimSplits), so this fixes Trim completely.
   */
  lemma TrimPadded(pre: string, core: string, post: string)
    requires AllWhitespace(pre) && AllWhitespace(post) && Trimmed(core)
    ensures Trim(pre + core + post) == core
  {
    var s := pre + core + post;
    if core == [] {
      assert s == pre + post;
      assert AllWhitespace(s) by {
        forall i | 0 <= i < |s| ensures IsWhitespace(s[i]) {
          if i < |pre| { assert s[i] == pre[i]; } else { assert s[i] == post[i - |pre|]; }
        }
      }
    } else {
      assert s == pre + (core + post);
      LeadingSpacePadded(pre, core + post);
      var front := s[|pre|..];
      assert front == core + post;
      TrailingSpacePadded(core, post);
      assert front[..|front| - |post|] == core;
    }
  }

  /** Cutting a string in three and gluing the pieces gives it back. */
  lemma ThreePieces(s: string, i: nat, j: nat)
    requires i + j <= |s|
    ensures s == s[..i] + s[i..][..|s| - i - j] + s[i..][|s| - i - j..]
  {
    var front := s[i..];
    assert front == front[..|front| - j] + front[|front| - j..];
    assert s == s[..i] + front;
  }

  /** The leading space, cut off, is all whitespace. */
  lemma LeadingSpaceCut(s: string)
    ensures AllWhitespace(s[..LeadingSpace(s)])
  {
    var k := LeadingSpace(s);
    forall m | 0 <= m < k ensures IsWhitespace(s[..k][m]) {
      assert s[..k][m] == s[m];
    }
  }

  /** The trailing space, cut off, is all whitespace. */
  lemma TrailingSpaceCut(s: string)
    ensures AllWhitespace(s[|s| - TrailingSpace(s)..])
  {
    var k := TrailingSpace(s);
    var tail := s[|s| - k..];
    forall m | 0 <= m < k ensures IsWhitespace(tail[m]) {
      assert tail[m] == s[|s| - k + m];
    }
  }

  /** Three pieces with whitespace outside witness the split. */
  lemma SplitWitness(s: string, pre: string, core: string, post: string)
    requires AllWhitespace(pre) && AllWhitespace(post) && s == pre + core + post
    ensures exists p, q :: AllWhitespace(p) && AllWhitespace(q) && s == p + core + q
  {
  }

  /** Every string is its trim with whitespace on either side. */
  lemma TrimSplits(s: string)
    ensures exists pre, post :: AllWhitespace(pre) && AllWhitespace(post) && s == pre + Trim(s) + post
  {
    var i := LeadingSpace(s);
    var front := s[i..];
    var j := TrailingSpace(front);
    var core := front[..|front| - j];
    assert core == Trim(s);
    ThreePieces(s, i, j);
    LeadingSpaceCut(s);
    TrailingSpaceCut(front);
    SplitWitness(s, s[..i], core, front[|front| - j..]);
  }

  /** A string without whitespace at its ends trims to itself. */
  lemma TrimmedIsFixed(s: string)
    requires Trimmed(s)
    ensures Trim(s) == s
  {
    TrimPadded([], s, []);
    assert [] + s + [] == s;
  }

  /** Trimming twice is trimming once. */
  lemma TrimIdempotent(s: string)
    ensures Trim(Trim(s)) == Trim(s)
  {
    TrimmedIsFixed(Trim(s));
  }

  /** The decimal digit character for d. */
  function DigitChar(d: nat): (c: char)
    requires d < 10
    ensures '0' <= c <= '9'
  {
    (('0' as int) + d) as char
  }

  /** The decimal rendering of n, as JavaScript's string concatenation gives it. */
  function Decimal(n: nat): (s: string)
    ensures |s| >= 1
    ensures forall i :: 0 <= i < |s| ==> '0' <= s[i] <= '9'
    ensures s[0] == '0' ==> n == 0
  {
    if n < 10 then [DigitChar(n)] else Decimal(n / 10) + [DigitChar(n % 10)]
  }

  /** Distinct numbers have distinct renderings. */
  lemma {:induction false} DecimalInjective(a: nat, b: nat)
    requires Decimal(a) == Decimal(b)
    ensures a == b
  {
    if a >= 10 && b >= 10 {
      var da, db := Decimal(a), Decimal(b);
      assert da[|da| - 1] == DigitChar(a % 10);
      assert db[|db| - 1] == DigitChar(b % 10);
      assert da[..|da| - 1] == Decimal(a / 10);
      assert db[..|db| - 1] == Decimal(b / 10);
      DecimalInjective(a / 10, b / 10);
    } else if a < 10 && b < 10 {
      assert Decimal(a)[0] == DigitChar(a);
    }
  }

  /** The number a string of decimal digits denotes, most significant digit first. */
  function DigitsValue(s: string): nat
    requires forall i :: 0 <= i < |s| ==> '0' <= s[i] <= '9'
  {
    if s == [] then 0 else DigitsValue(s[..|s| - 1]) * 10 + (s[|s| - 1] as int - '0' as int)
  }

  /** Reading the rendering of n back as a decimal number gives n. */
  lemma {:induction false} DecimalValue(n: nat)
    ensures DigitsValue(Decimal(n)) == n
  {
    var s := Decimal(n);
    if n >= 10 {
      assert s[..|s| - 1] == Decimal(n / 10);
      DecimalValue(n / 10);
    }
  }
}
