/**
 The JavaScript string built-ins that the URL checker relies on: `String.prototype.trim`,
 the case folding of ASCII letters by a regular expression with the `i` flag,
 `String.prototype.includes`, and the decimal rendering of a non-negative integer in a
 template literal.

 A JavaScript string is a sequence of UTF-16 code units; here it is a `string`, one `char`
 per code unit. That reading holds for strings whose characters all lie below U+10000 and
 outside the surrogate range: a Dafny `char` is a Unicode scalar value.
 */
module JsText {

  datatype Option<T> = None | Some(value: T)

  // ---------------------------------------------------------------------------
  // Whitespace and trim
  // ---------------------------------------------------------------------------

  /** The characters `trim` removes: ECMAScript's WhiteSpace (tab, vertical tab, form feed,
      the byte order mark and every space separator) and LineTerminator. */
  predicate IsWhitespace(c: char) {
    c == '\t' || c == '\U{B}' || c == '\U{C}' || c == '\U{FEFF}'
    || c == ' ' || c == '\U{A0}' || c == '\U{1680}' || ('\U{2000}' <= c <= '\U{200A}')
    || c == '\U{202F}' || c == '\U{205F}' || c == '\U{3000}'
    || c == '\n' || c == '\r' || c == '\U{2028}' || c == '\U{2029}'
  }

  predicate AllWhitespace(s: string) {
    forall i :: 0 <= i < |s| ==> IsWhitespace(s[i])
  }

  /** Drops the leading whitespace. */
  function TrimStart(s: string): (r: string)
    ensures |r| <= |s|
  {
    if s != [] && IsWhitespace(s[0]) then TrimStart(s[1..]) else s
  }

  /** Drops the trailing whitespace. */
  function TrimEnd(s: string): (r: string)
    ensures |r| <= |s|
  {
    if s != [] && IsWhitespace(s[|s| - 1]) then TrimEnd(s[..|s| - 1]) else s
  }

  /** `s.trim()`. */
  function Trim(s: string): (r: string)
    ensures |r| <= |s|
  {
    TrimEnd(TrimStart(s))
  }

  /** `TrimStart` keeps the longest suffix that does not start with whitespace, and
      everything it drops is whitespace. */
  lemma {:induction false} TrimStartSpec(s: string)
    ensures var r := TrimStart(s);
            r == s[|s| - |r|..] && AllWhitespace(s[..|s| - |r|]) && (r == [] || !IsWhitespace(r[0]))
  {
    if s != [] && IsWhitespace(s[0]) {
      var r := TrimStart(s[1..]);
      TrimStartSpec(s[1..]);
      assert s[1..][..|s[1..]| - |r|] == s[1..|s| - |r|];
      assert s[1..][|s[1..]| - |r|..] == s[|s| - |r|..];
    }
  }

  /** `TrimEnd` keeps the longest prefix that does not end with whitespace, and everything
      it drops is whitespace. */
  lemma {:induction false} TrimEndSpec(s: string)
    ensures var r := TrimEnd(s);
            r == s[..|r|] && AllWhitespace(s[|r|..]) && (r == [] || !IsWhitespace(r[|r| - 1]))
  {
    if s != [] && IsWhitespace(s[|s| - 1]) {
      var r := TrimEnd(s[..|s| - 1]);
      TrimEndSpec(s[..|s| - 1]);
      assert s[..|s| - 1][|r|..] == s[|r|..|s| - 1];
      assert s[..|s| - 1][..|r|] == s[..|r|];
    }
  }

  /** `trim` returns the slice of `s` between its leading and its trailing whitespace, and
      the slice neither starts nor ends with whitespace. */
  lemma TrimSpec(s: string)
    ensures var r := Trim(s);
            (exists i :: 0 <= i <= |s| - |r| && r == s[i..i + |r|]
                         && AllWhitespace(s[..i]) && AllWhitespace(s[i + |r|..]))
            && (r == [] || (!IsWhitespace(r[0]) && !IsWhitespace(r[|r| - 1])))
  {
    var t := TrimStart(s);
    var r := TrimEnd(t);
    TrimStartSpec(s);
    TrimEndSpec(t);
    var i := |s| - |t|;
    assert s[i..i + |r|] == r;
    assert s[i + |r|..] == t[|r|..];
    assert AllWhitespace(s[..i]);
    assert AllWhitespace(s[i + |r|..]);
    assert r != [] ==> r[0] == t[0];
  }

  /** `trim` leaves nothing exactly of a string made only of whitespace. */
  lemma TrimEmptyIff(s: string)
    ensures Trim(s) == [] <==> AllWhitespace(s)
  {
    var t := TrimStart(s);
    TrimStartSpec(s);
    TrimEndSpec(t);
    var i := |s| - |t|;
    assert s == s[..i] + t;
    if Trim(s) == [] {
      assert TrimEnd(t) == [];
      assert t[0..] == t;
    } else {
      assert Trim(s)[0] == t[0];
    }
  }

  /** Trimming twice is trimming once. */
  lemma TrimIdempotent(s: string)
    ensures Trim(Trim(s)) == Trim(s)
  {
    var r := Trim(s);
    TrimSpec(s);
    if r != [] {
      assert TrimStart(r) == r;
      assert TrimEnd(r) == r;
    }
  }

  lemma {:induction false} TrimStartPadded(w: string, u: string)
    requires AllWhitespace(w)
    requires u == [] || !IsWhitespace(u[0])
    ensures TrimStart(w + u) == u
  {
    if w != [] {
      assert (w + u)[1..] == w[1..] + u;
      TrimStartPadded(w[1..], u);
    }
  }

  lemma {:induction false} TrimEndPadded(u: string, w: string)
    requires AllWhitespace(w)
    requires u == [] || !IsWhitespace(u[|u| - 1])
    ensures TrimEnd(u + w) == u
  {
    if w != [] {
      assert (u + w)[..|u + w| - 1] == u + w[..|w| - 1];
      TrimEndPadded(u, w[..|w| - 1]);
    }
  }

  /** Whitespace around a value that neither starts nor ends with whitespace is exactly what
      `trim` removes. */
  lemma TrimPadded(w1: string, u: string, w2: string)
    requires AllWhitespace(w1) && AllWhitespace(w2)
    requires u == [] || (!IsWhitespace(u[0]) && !IsWhitespace(u[|u| - 1]))
    ensures Trim(w1 + u + w2) == u
  {
    assert w1 + u + w2 == w1 + (u + w2);
    if u == [] {
      assert w1 + u + w2 == w1 + w2;
      assert AllWhitespace(w1 + w2);
      assert TrimStart(w1 + w2) == [] by {
        assert w1 + w2 == (w1 + w2) + [];
        TrimStartPadded(w1 + w2, []);
      }
    } else {
      TrimStartPadded(w1, u + w2);
      TrimEndPadded(u, w2);
    }
  }

  // ---------------------------------------------------------------------------
  // Case folding
  // ---------------------------------------------------------------------------

  /** The case folding of a non-Unicode regular expression with the `i` flag, restricted to
      the ASCII letters: no other character folds onto an ASCII letter in that mode. */
  function LowerAscii(c: char): (d: char)
    ensures 'A' <= c <= 'Z' ==> d as int == c as int + 32
    ensures !('A' <= c <= 'Z') ==> d == c
  {
    if 'A' <= c <= 'Z' then (c as int + 32) as char else c
  }

  /** Two characters match under the folding exactly when they are equal, or one is an
      ASCII capital and the other its lower-case letter. */
  lemma LowerAsciiSame(c: char, d: char)
    ensures LowerAscii(c) == LowerAscii(d)
            <==> c == d || ('A' <= c <= 'Z' && d as int == c as int + 32)
                 || ('A' <= d <= 'Z' && c as int == d as int + 32)
  {
  }

  /** `s` begins with `p`, comparing characters with the ASCII case folding. */
  predicate StartsWithIgnoringCase(s: string, p: string) {
    |p| <= |s| && forall i :: 0 <= i < |p| ==> LowerAscii(s[i]) == LowerAscii(p[i])
  }

  /** `s` ends with `p`, comparing characters with the ASCII case folding. */
  predicate EndsWithIgnoringCase(s: string, p: string) {
    |p| <= |s| && forall i :: 0 <= i < |p| ==> LowerAscii(s[|s| - |p| + i]) == LowerAscii(p[i])
  }

  // ---------------------------------------------------------------------------
  // includes
  // ---------------------------------------------------------------------------

  /** `part` occurs in `s` starting at position `i`. */
  predicate OccursAt(s: string, part: string, i: int) {
    0 <= i <= |s| - |part| && s[i..i + |part|] == part
  }

  /** `s.includes(part)`: `part` occurs in `s` at some position. The empty part is in every
      string, and a part longer than the string is in none. */
  function Contains(s: string, part: string): (b: bool)
    ensures part == [] ==> b
    ensures b ==> |part| <= |s|
  {
    assert part == [] ==> OccursAt(s, part, 0);
    exists i :: 0 <= i <= |s| - |part| && OccursAt(s, part, i)
  }

  /** A string lacking some character of `part` does not contain `part`. */
  lemma MissingCharNotContained(s: string, part: string, c: char)
    requires c in part && c !in s
    ensures !Contains(s, part)
  {
    var k :| 0 <= k < |part| && part[k] == c;
    forall i | 0 <= i <= |s| - |part|
      ensures !OccursAt(s, part, i)
    {
      assert s[i..i + |part|][k] == s[i + k];
      assert s[i + k] in s;
    }
  }

  // ---------------------------------------------------------------------------
  // Decimal numerals
  // ---------------------------------------------------------------------------

  predicate IsDigit(c: char) {
    '0' <= c <= '9'
  }

  predicate AllDigits(s: string) {
    forall i :: 0 <= i < |s| ==> IsDigit(s[i])
  }

  function DigitChar(d: nat): (c: char)
    requires d < 10
    ensures IsDigit(c) && c as int - '0' as int == d
  {
    ('0' as int + d) as char
  }

  /** The text of `${n}` for a non-negative integer `n`: its decimal numeral, without
      leading zeros. */
  function Decimal(n: nat): (s: string)
    ensures s != [] && AllDigits(s)
    ensures s[0] == '0' ==> n == 0 && s == "0"
  {
    if n < 10 then [DigitChar(n)] else Decimal(n / 10) + [DigitChar(n % 10)]
  }

  /** Reads a string of digits back as a number. */
  function ParseDecimal(s: string): nat
    requires AllDigits(s)
  {
    if s == [] then 0
    else ParseDecimal(s[..|s| - 1]) * 10 + (s[|s| - 1] as int - '0' as int)
  }

  lemma {:induction false} ParseDecimalOfDecimal(n: nat)
    ensures ParseDecimal(Decimal(n)) == n
  {
    if n >= 10 {
      var s := Decimal(n);
      assert s[..|s| - 1] == Decimal(n / 10);
      ParseDecimalOfDecimal(n / 10);
    }
  }

  /** Distinct numbers have distinct numerals. */
  lemma DecimalInjective(m: nat, n: nat)
    requires Decimal(m) == Decimal(n)
    ensures m == n
  {
    ParseDecimalOfDecimal(m);
    ParseDecimalOfDecimal(n);
  }

  /** A run of digits followed by a non-digit can be split off only one way. */
  lemma DigitRunSplit(a: string, x: string, b: string, y: string)
    requires AllDigits(a) && AllDigits(b)
    requires x != [] && !IsDigit(x[0]) && y != [] && !IsDigit(y[0])
    requires a + x == b + y
    ensures a == b && x == y
  {
    var z := a + x;
    assert !IsDigit(z[|a|]);
    assert forall k :: 0 <= k < |a| ==> IsDigit(z[k]);
    assert forall k :: 0 <= k < |b| ==> IsDigit(z[k]) by {
      assert z == b + y;
    }
    assert !IsDigit(z[|b|]) by {
      assert z == b + y;
    }
    assert |a| == |b|;
    assert a == z[..|a|] && b == (b + y)[..|b|];
    assert x == z[|a|..] && y == (b + y)[|b|..];
  }
}
