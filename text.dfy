/**
  String helpers the widget relies on through JavaScript: the characters that
  `String.prototype.trim` removes and that the regular-expression class `\s`
  matches (ECMAScript's WhiteSpace and LineTerminator), `trim` itself, and
  decimal rendering of numbers as template literals and `toDateString` print them.
*/
module Text {

  /** ECMAScript WhiteSpace (including the space separators) and LineTerminator. */
  predicate IsSpace(c: char) {
    if c <= '\U{007F}' then
      c == ' ' || '\t' <= c <= '\r'
    else
      c == '\U{00A0}' || c == '\U{1680}' || '\U{2000}' <= c <= '\U{200A}'
      || c == '\U{2028}' || c == '\U{2029}' || c == '\U{202F}' || c == '\U{205F}'
      || c == '\U{3000}' || c == '\U{FEFF}'
  }

  predicate AllSpace(s: string) {
    forall k | 0 <= k < |s| :: IsSpace(s[k])
  }

  predicate NoSpace(s: string) {
    forall k | 0 <= k < |s| :: !IsSpace(s[k])
  }

  /** The number of white-space characters `s` starts with. */
  function LeadingSpaces(s: string): (n: nat)
    ensures n <= |s| && AllSpace(s[..n])
    ensures n < |s| ==> !IsSpace(s[n])
  {
    if |s| > 0 && IsSpace(s[0]) then
      var n := LeadingSpaces(s[1..]);
      assert s[..n + 1] == [s[0]] + s[1..][..n];
      n + 1
    else 0
  }

  /** The length of `s` without the white space it ends with. */
  function ContentEnd(s: string): (n: nat)
    ensures n <= |s| && AllSpace(s[n..])
    ensures n > 0 ==> !IsSpace(s[n - 1])
  {
    if |s| > 0 && IsSpace(s[|s| - 1]) then
      var n := ContentEnd(s[..|s| - 1]);
      assert s[n..] == s[..|s| - 1][n..] + [s[|s| - 1]];
      n
    else |s|
  }

  /** `String.prototype.trim`: white space is removed from the start, then from the end. */
  function Trim(s: string): (r: string)
    ensures |r| <= |s|
    ensures r == [] || (!IsSpace(r[0]) && !IsSpace(r[|r| - 1]))
    ensures exists i, j | 0 <= i <= j <= |s| :: r == s[i..j] && AllSpace(s[..i]) && AllSpace(s[j..])
  {
    var i := LeadingSpaces(s);
    var t := s[i..];
    var j := i + ContentEnd(t);
    assert t[..ContentEnd(t)] == s[i..j] && s[j..] == t[ContentEnd(t)..];
    t[..ContentEnd(t)]
  }

  /**
    `trim` is determined by what it promises: a slice of `s` with only white
    space around it and no white space at its own ends is the trimmed value.
  */
  lemma TrimUnique(s: string, r: string, i: int, j: int)
    requires 0 <= i <= j <= |s| && r == s[i..j] && AllSpace(s[..i]) && AllSpace(s[j..])
    requires r == [] || (!IsSpace(r[0]) && !IsSpace(r[|r| - 1]))
    ensures Trim(s) == r
  {
    if r == [] {
      assert forall k | 0 <= k < |s| :: IsSpace(s[k]) by {
        forall k | 0 <= k < |s| ensures IsSpace(s[k]) {
          if k < i { assert s[..i][k] == s[k]; } else { assert s[j..][k - j] == s[k]; }
        }
      }
      TrimEmptyIff(s);
    } else {
      var a := LeadingSpaces(s);
      assert s[i] == r[0];
      assert a == i;
      var t := s[i..];
      var b := ContentEnd(t);
      assert t[j - i - 1] == r[|r| - 1];
      assert b == j - i;
    }
  }

  lemma AllSpaceAppend(a: string, b: string)
    requires AllSpace(a) && AllSpace(b)
    ensures AllSpace(a + b)
  {
  }

  /** A trimmed slice of `s` stays the trimmed value when more white space is put around `s`. */
  lemma TrimSliceInPadding(p: string, s: string, q: string, r: string, i: int, j: int)
    requires AllSpace(p) && AllSpace(q)
    requires 0 <= i <= j <= |s| && r == s[i..j] && AllSpace(s[..i]) && AllSpace(s[j..])
    requires r == [] || (!IsSpace(r[0]) && !IsSpace(r[|r| - 1]))
    ensures Trim(p + s + q) == r
  {
    var u := p + s + q;
    assert u[|p| + i..|p| + j] == r;
    assert u[..|p| + i] == p + s[..i];
    assert u[|p| + j..] == s[j..] + q;
    AllSpaceAppend(p, s[..i]);
    AllSpaceAppend(s[j..], q);
    TrimUnique(u, r, |p| + i, |p| + j);
  }

  /** White space added around a value does not change what `trim` returns. */
  lemma TrimPadding(p: string, s: string, q: string)
    requires AllSpace(p) && AllSpace(q)
    ensures Trim(p + s + q) == Trim(s)
  {
    var r := Trim(s);
    var i, j :| 0 <= i <= j <= |s| && r == s[i..j] && AllSpace(s[..i]) && AllSpace(s[j..]);
    TrimSliceInPadding(p, s, q, r, i, j);
  }

  /** A value trims to the empty string exactly when it consists of white space only. */
  lemma TrimEmptyIff(s: string)
    ensures Trim(s) == [] <==> AllSpace(s)
  {
    var i := LeadingSpaces(s);
    if i < |s| {
      var t := s[i..];
      assert t[0] == s[i] && t[0..][0] == t[0];
      assert ContentEnd(t) > 0;
    } else {
      assert s[..i] == s;
    }
  }

  /** Trimming leaves a value without surrounding white space unchanged. */
  lemma TrimIdempotent(s: string)
    ensures Trim(Trim(s)) == Trim(s)
  {
    var r := Trim(s);
    assert LeadingSpaces(r) == 0;
    assert r[0..] == r;
    if r != [] {
      assert ContentEnd(r) == |r|;
    }
  }

  // ---------------------------------------------------------------------------
  // Decimal rendering

  function DigitChar(n: int): (c: char)
    requires 0 <= n < 10
    ensures '0' <= c <= '9'
  {
    "0123456789"[n]
  }

  predicate IsDigit(c: char) {
    '0' <= c <= '9'
  }

  /** The digits of a natural number in base ten, without leading zeros. */
  function NatToString(n: nat): (s: string)
    ensures |s| >= 1 && forall k | 0 <= k < |s| :: IsDigit(s[k])
    ensures n >= 10 ==> s[0] != '0'
    decreases n
  {
    if n < 10 then [DigitChar(n)] else NatToString(n / 10) + [DigitChar(n % 10)]
  }

  /** A template literal `${n}` for an integer. */
  function IntToString(n: int): (s: string)
    ensures |s| >= 1
    ensures s[0] == '-' <==> n < 0
  {
    if n < 0 then "-" + NatToString(-n) else NatToString(n)
  }

  /** ECMAScript's ToZeroPaddedDecimalString: `n` in decimal, left-padded with zeros to `width`. */
  function ZeroPadded(n: nat, width: nat): (s: string)
    ensures |s| >= width
    ensures forall k | 0 <= k < |s| :: IsDigit(s[k])
  {
    var d := NatToString(n);
    if |d| < width then seq(width - |d|, _ => '0') + d else d
  }

  /** The value of a string of decimal digits. */
  function DecimalValue(s: string): nat
    requires forall k | 0 <= k < |s| :: IsDigit(s[k])
  {
    if s == [] then 0 else assert IsDigit(s[|s| - 1]); 10 * DecimalValue(s[..|s| - 1]) + (s[|s| - 1] as int - '0' as int)
  }

  lemma {:induction false} NatToStringValue(n: nat)
    ensures DecimalValue(NatToString(n)) == n
    decreases n
  {
    if n >= 10 {
      var s := NatToString(n);
      NatToStringValue(n / 10);
      assert s[..|s| - 1] == NatToString(n / 10);
    }
  }

  lemma {:induction false} LeadingZerosValue(z: nat, s: string)
    requires forall k | 0 <= k < |s| :: IsDigit(s[k])
    ensures DecimalValue(seq(z, _ => '0') + s) == DecimalValue(s)
    decreases |s|
  {
    var t := seq(z, _ => '0') + s;
    if s == [] {
      assert t == seq(z, _ => '0');
      ZerosValue(z);
    } else {
      assert t[..|t| - 1] == seq(z, _ => '0') + s[..|s| - 1];
      LeadingZerosValue(z, s[..|s| - 1]);
    }
  }

  lemma {:induction false} ZerosValue(z: nat)
    ensures DecimalValue(seq(z, _ => '0')) == 0
  {
    if z > 0 {
      assert seq(z, _ => '0')[..z - 1] == seq(z - 1, _ => '0');
      ZerosValue(z - 1);
    }
  }

  /** Zero padding can be read back: the padded string still spells `n`. */
  lemma ZeroPaddedValue(n: nat, width: nat)
    ensures DecimalValue(ZeroPadded(n, width)) == n
  {
    var d := NatToString(n);
    NatToStringValue(n);
    if |d| < width {
      LeadingZerosValue(width - |d|, d);
    }
  }
}
