/**
 * String operations the queries and formats rely on: ASCII lower-casing,
 * substring containment, SQL `LIKE` matching, zero-padded decimal numbers,
 * and the blank test of bean validation.
 */
module Text {

  // ---------------------------------------------------------------------
  // Case folding (ASCII letters only)
  // ---------------------------------------------------------------------

  function LowerChar(c: char): char {
    if 'A' <= c <= 'Z' then (c as int + 32) as char else c
  }

  /** SQL LOWER / Java toLowerCase, restricted to ASCII letters. */
  function Lower(s: string): (r: string)
    ensures |r| == |s| && forall i :: 0 <= i < |s| ==> r[i] == LowerChar(s[i])
  {
    if s == [] then [] else [LowerChar(s[0])] + Lower(s[1..])
  }

  lemma {:induction false} LowerAppend(a: string, b: string)
    ensures Lower(a + b) == Lower(a) + Lower(b)
  {
    assert |Lower(a + b)| == |Lower(a) + Lower(b)|;
    forall i | 0 <= i < |a + b|
      ensures Lower(a + b)[i] == (Lower(a) + Lower(b))[i]
    {
    }
  }

  // ---------------------------------------------------------------------
  // Containment and LIKE
  // ---------------------------------------------------------------------

  predicate IsPrefix(p: string, s: string) {
    |p| <= |s| && s[..|p|] == p
  }

  /** `needle` occurs in `s` at some position. */
  predicate Contains(s: string, needle: string)
    decreases |s|
  {
    IsPrefix(needle, s) || (s != [] && Contains(s[1..], needle))
  }

  lemma {:induction false} ContainsAt(s: string, needle: string, i: int)
    requires 0 <= i <= |s| && IsPrefix(needle, s[i..])
    ensures Contains(s, needle)
    decreases i
  {
    if i > 0 {
      assert s[1..][i - 1..] == s[i..];
      ContainsAt(s[1..], needle, i - 1);
    }
  }

  /** The SQL wildcards of a LIKE pattern. */
  predicate NoWildcards(p: string) {
    forall i :: 0 <= i < |p| ==> p[i] != '%' && p[i] != '_'
  }

  /**
   * SQL `t LIKE p` without an escape character: `%` matches any run of
   * characters, `_` any single character, every other character itself.
   */
  predicate Like(t: string, p: string)
    decreases |t| + |p|
  {
    if p == [] then t == []
    else if p[0] == '%' then Like(t, p[1..]) || (t != [] && Like(t[1..], p))
    else t != [] && (p[0] == '_' || p[0] == t[0]) && Like(t[1..], p[1..])
  }

  lemma {:induction false} LikePercentMatchesAll(t: string)
    ensures Like(t, "%")
    decreases |t|
  {
    if t != [] {
      LikePercentMatchesAll(t[1..]);
    }
  }

  /** For a wildcard-free `p`, `t LIKE p%` holds exactly when `p` is a prefix of `t`. */
  lemma {:induction false} LikeTrailingPercent(t: string, p: string)
    requires NoWildcards(p)
    ensures Like(t, p + "%") <==> IsPrefix(p, t)
    decreases |p|
  {
    if p == [] {
      assert p + "%" == "%";
      LikePercentMatchesAll(t);
    } else {
      assert (p + "%")[0] == p[0];
      assert (p + "%")[1..] == p[1..] + "%";
      if t != [] {
        LikeTrailingPercent(t[1..], p[1..]);
        if IsPrefix(p, t) {
          assert t[1..][..|p| - 1] == t[..|p|][1..];
        }
        if IsPrefix(p[1..], t[1..]) && p[0] == t[0] {
          assert t[..|p|] == [t[0]] + t[1..][..|p| - 1];
        }
      }
    }
  }

  /** For a wildcard-free keyword, `t LIKE %kw%` is substring containment. */
  lemma {:induction false} LikeIsContains(t: string, kw: string)
    requires NoWildcards(kw)
    ensures Like(t, "%" + kw + "%") <==> Contains(t, kw)
    decreases |t|
  {
    var p := "%" + kw + "%";
    assert p[0] == '%' && p[1..] == kw + "%";
    LikeTrailingPercent(t, kw);
    if t != [] {
      LikeIsContains(t[1..], kw);
    }
  }

  // ---------------------------------------------------------------------
  // Decimal numbers
  // ---------------------------------------------------------------------

  predicate IsDigit(c: char) {
    '0' <= c <= '9'
  }

  predicate AllDigits(s: string) {
    forall i :: 0 <= i < |s| ==> IsDigit(s[i])
  }

  function DigitChar(d: int): char
    requires 0 <= d < 10
  {
    ('0' as int + d) as char
  }

  /** The decimal digits of `n`, without leading zeros ("0" for zero). */
  function Decimal(n: nat): (s: string)
    ensures |s| >= 1 && AllDigits(s)
    ensures n < 10 <==> |s| == 1
  {
    if n < 10 then [DigitChar(n)] else Decimal(n / 10) + [DigitChar(n % 10)]
  }

  /** Zeros in front of `s` until it is at least `width` long. */
  function PadZeros(s: string, width: nat): (r: string)
    ensures |r| == if |s| >= width then |s| else width
    ensures r[|r| - |s|..] == s
    ensures forall i :: 0 <= i < |r| - |s| ==> r[i] == '0'
    decreases width - |s|
  {
    if |s| >= width then s else PadZeros("0" + s, width)
  }

  /** Java's `%0<width>d` for a non-negative number. */
  function FormatPadded(n: nat, width: nat): (s: string)
    ensures AllDigits(s) && |s| >= width
  {
    PadZeros(Decimal(n), width)
  }

  /** The value of a string of decimal digits. */
  function ParseDecimal(s: string): nat
    requires AllDigits(s)
  {
    if s == [] then 0
    else ParseDecimal(s[..|s| - 1]) * 10 + (s[|s| - 1] as int - '0' as int)
  }

  lemma {:induction false} ParseDecimalOfDecimal(n: nat)
    ensures ParseDecimal(Decimal(n)) == n
  {
    if n >= 10 {
      var s := Decimal(n);
      assert s[..|s| - 1] == Decimal(n / 10);
      ParseDecimalOfDecimal(n / 10);
    }
  }

  /** Leading zeros do not change the value. */
  lemma {:induction false} ParseDecimalLeadingZeros(z: string, s: string)
    requires AllDigits(s) && forall i :: 0 <= i < |z| ==> z[i] == '0'
    ensures AllDigits(z + s) && ParseDecimal(z + s) == ParseDecimal(s)
    decreases |s|
  {
    if s == [] {
      assert z + s == z;
      ParseOfZeros(z);
    } else {
      assert (z + s)[..|z + s| - 1] == z + s[..|s| - 1];
      ParseDecimalLeadingZeros(z, s[..|s| - 1]);
    }
  }

  lemma {:induction false} ParseOfZeros(z: string)
    requires forall i :: 0 <= i < |z| ==> z[i] == '0'
    ensures AllDigits(z) && ParseDecimal(z) == 0
  {
    if z != [] {
      ParseOfZeros(z[..|z| - 1]);
    }
  }

  /** Reading back a zero-padded number gives the number. */
  lemma FormatPaddedRoundTrip(n: nat, width: nat)
    ensures ParseDecimal(FormatPadded(n, width)) == n
  {
    var s := Decimal(n);
    var r := PadZeros(s, width);
    var z := r[..|r| - |s|];
    assert r == z + s;
    ParseDecimalLeadingZeros(z, s);
    ParseDecimalOfDecimal(n);
  }

  // ---------------------------------------------------------------------
  // Blank strings
  // ---------------------------------------------------------------------

  /**
   * @NotBlank: the string is not null and something other than whitespace is
   * left after String.trim(), which strips every character up to U+0020.
   */
  predicate NotBlank(s: string) {
    exists i :: 0 <= i < |s| && s[i] > ' '
  }
}
