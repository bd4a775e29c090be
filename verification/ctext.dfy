/**
 * The C library text conversions the parser relies on: `atoi` (used for
 * every control count and for the TSG `min`/`max`/`reps` attributes) and
 * the `%d` / `%04d` decimal formats (used for element indices and for the
 * X12 release number).  Integers are unbounded here; the overflow of `atoi`
 * on an out-of-range number is undefined in C and is not modelled.
 */
module CText {

  predicate IsDigit(c: char) { '0' <= c <= '9' }

  /** The characters C's `isspace` accepts in the "C" locale. */
  predicate IsSpace(c: char) {
    c == ' ' || c == '\t' || c == '\n' || c == '\r' || c as int == 11 || c as int == 12
  }

  predicate AllDigits(s: string) {
    forall i :: 0 <= i < |s| ==> IsDigit(s[i])
  }

  function DigitValue(c: char): (d: nat)
    requires IsDigit(c)
    ensures d < 10
  {
    c as int - '0' as int
  }

  function DigitChar(d: nat): (c: char)
    requires d < 10
    ensures IsDigit(c) && DigitValue(c) == d
  {
    ('0' as int + d) as char
  }

  /** Decimal value of a digit string, most significant digit first. */
  function Value(s: string): nat
    requires AllDigits(s)
  {
    if |s| == 0 then 0 else Value(s[..|s| - 1]) * 10 + DigitValue(s[|s| - 1])
  }

  /** The longest prefix of `s` made only of digits. */
  function LeadingDigits(s: string): (d: string)
    ensures AllDigits(d) && d <= s
    ensures |d| < |s| ==> !IsDigit(s[|d|])
  {
    if |s| > 0 && IsDigit(s[0]) then [s[0]] + LeadingDigits(s[1..]) else []
  }

  /** `s` without its leading white space. */
  function SkipSpace(s: string): (t: string)
    ensures |t| <= |s| && t == s[|s| - |t|..]
    ensures |t| > 0 ==> !IsSpace(t[0])
    ensures forall i :: 0 <= i < |s| - |t| ==> IsSpace(s[i])
  {
    if |s| > 0 && IsSpace(s[0]) then SkipSpace(s[1..]) else s
  }

  /**
   * C `atoi`: leading white space is skipped, one optional sign is read,
   * then as many decimal digits as follow; anything after them is ignored
   * and a string with no digits there yields 0.
   */
  function Atoi(s: string): int
  {
    var t := SkipSpace(s);
    if |t| > 0 && t[0] == '-' then 0 - Value(LeadingDigits(t[1..]))
    else if |t| > 0 && t[0] == '+' then Value(LeadingDigits(t[1..]))
    else Value(LeadingDigits(t))
  }

  /** The digits of `n` with no leading zero (`"%u"`). */
  function NatDigits(n: nat): (s: string)
    ensures AllDigits(s) && |s| >= 1
  {
    if n < 10 then [DigitChar(n)] else NatDigits(n / 10) + [DigitChar(n % 10)]
  }

  function Zeros(k: nat): (z: string)
    ensures |z| == k && AllDigits(z)
    ensures forall i :: 0 <= i < k ==> z[i] == '0'
  {
    if k == 0 then [] else Zeros(k - 1) + ['0']
  }

  /** `printf("%0*d", width, n)`: the sign, then zeros up to `width` characters, then the digits. */
  function FormatPadded(n: int, width: nat): (s: string)
    ensures |s| >= width
  {
    if n < 0 then
      var d := NatDigits(-n);
      "-" + Zeros(if |d| + 1 < width then width - 1 - |d| else 0) + d
    else
      var d := NatDigits(n);
      Zeros(if |d| < width then width - |d| else 0) + d
  }

  /** `printf("%d", n)`. */
  function FormatInt(n: int): (s: string)
  {
    FormatPadded(n, 0)
  }

  lemma {:induction false} NatDigitsValue(n: nat)
    ensures Value(NatDigits(n)) == n
    decreases n
  {
    var s := NatDigits(n);
    if n >= 10 {
      NatDigitsValue(n / 10);
      assert s[..|s| - 1] == NatDigits(n / 10);
    }
  }

  lemma {:induction false} ZerosPrefixValue(k: nat, s: string)
    requires AllDigits(s)
    ensures AllDigits(Zeros(k) + s) && Value(Zeros(k) + s) == Value(s)
    decreases |s|
  {
    var z := Zeros(k) + s;
    assert AllDigits(z);
    if |s| == 0 {
      assert z == Zeros(k);
      ZerosValue(k);
    } else {
      assert z[..|z| - 1] == Zeros(k) + s[..|s| - 1];
      ZerosPrefixValue(k, s[..|s| - 1]);
    }
  }

  lemma {:induction false} ZerosValue(k: nat)
    ensures Value(Zeros(k)) == 0
    decreases k
  {
    if k > 0 {
      assert Zeros(k)[..k - 1] == Zeros(k - 1);
      ZerosValue(k - 1);
    }
  }

  lemma {:induction false} LeadingDigitsOfDigits(s: string)
    requires AllDigits(s)
    ensures LeadingDigits(s) == s
    decreases |s|
  {
    if |s| > 0 {
      LeadingDigitsOfDigits(s[1..]);
      assert [s[0]] + s[1..] == s;
    }
  }

  /** `atoi` of a digit string with no sign reads its value. */
  lemma AtoiOfDigits(s: string)
    requires AllDigits(s) && |s| > 0
    ensures Atoi(s) == Value(s)
  {
    assert !IsSpace(s[0]);
    assert SkipSpace(s) == s;
    LeadingDigitsOfDigits(s);
  }

  /** `atoi` of a minus sign followed by digits reads the negated value. */
  lemma AtoiOfNegated(s: string)
    requires AllDigits(s)
    ensures Atoi("-" + s) == 0 - Value(s)
  {
    var t := "-" + s;
    assert SkipSpace(t) == t;
    assert t[1..] == s;
    LeadingDigitsOfDigits(s);
  }

  /** `atoi` reads back every number `"%0Nd"` writes, whatever the width. */
  lemma AtoiFormatPadded(n: int, width: nat)
    ensures Atoi(FormatPadded(n, width)) == n
  {
    if n < 0 {
      AtoiPaddedNegative(n, width);
    } else {
      AtoiPaddedNatural(n, width);
    }
  }

  lemma AtoiPaddedNegative(n: int, width: nat)
    requires n < 0
    ensures Atoi(FormatPadded(n, width)) == n
  {
    var d := NatDigits(-n);
    var z := Zeros(if |d| + 1 < width then width - 1 - |d| else 0);
    assert FormatPadded(n, width) == "-" + (z + d);
    PaddedValue(-n, z, d);
    AtoiOfNegated(z + d);
  }

  lemma AtoiPaddedNatural(n: int, width: nat)
    requires n >= 0
    ensures Atoi(FormatPadded(n, width)) == n
  {
    var d := NatDigits(n);
    var z := Zeros(if |d| < width then width - |d| else 0);
    assert FormatPadded(n, width) == z + d;
    PaddedValue(n, z, d);
    AtoiOfDigits(z + d);
  }

  /** Zeros in front of the digits of `n` leave a digit string of value `n`. */
  lemma PaddedValue(n: nat, z: string, d: string)
    requires d == NatDigits(n) && z == Zeros(|z|)
    ensures AllDigits(z + d) && |z + d| > 0 && Value(z + d) == n
  {
    ZerosPrefixValue(|z|, d);
    NatDigitsValue(n);
  }

  /** `atoi` reads back what `"%d"` writes. */
  lemma AtoiFormatInt(n: int)
    ensures Atoi(FormatInt(n)) == n
  {
    AtoiFormatPadded(n, 0);
  }

  /** Whatever follows the digits does not change what `atoi` reads. */
  lemma {:induction false} AtoiStopsAtNonDigit(d: string, rest: string)
    requires AllDigits(d)
    requires |rest| == 0 || !IsDigit(rest[0])
    requires |d| > 0
    ensures Atoi(d + rest) == Value(d)
    decreases |d|
  {
    LeadingDigitsAppend(d, rest);
    assert (d + rest)[0] == d[0];
  }

  lemma {:induction false} LeadingDigitsAppend(d: string, rest: string)
    requires AllDigits(d)
    requires |rest| == 0 || !IsDigit(rest[0])
    ensures LeadingDigits(d + rest) == d
    decreases |d|
  {
    if |d| == 0 {
      assert d + rest == rest;
    } else {
      assert (d + rest)[1..] == d[1..] + rest;
      LeadingDigitsAppend(d[1..], rest);
      assert [d[0]] + d[1..] == d;
    }
  }

  /** The character C sees at index `i` of a NUL-terminated copy of `s`. */
  function CharAt(s: string, i: nat): char {
    if i < |s| then s[i] else 0 as char
  }

  predicate NulFree(s: string) {
    forall i :: 0 <= i < |s| ==> s[i] != 0 as char
  }

  /** The C string a character array holds: everything before its first NUL. */
  function Str(s: string): (r: string)
    ensures r <= s && NulFree(r)
    ensures |r| < |s| ==> s[|r|] == 0 as char
    ensures NulFree(s) ==> r == s
    decreases |s|
  {
    if s == [] || s[0] == 0 as char then []
    else [s[0]] + Str(s[1..])
  }

  /**
   * C `strncmp` on NUL-terminated copies of `a` and `b`, as a sign: compares
   * at most `n` characters and stops after a common NUL.
   */
  function StrNCmp(a: string, b: string, n: nat): (r: int)
    ensures -1 <= r <= 1
    decreases n
  {
    if n == 0 then 0
    else if CharAt(a, 0) < CharAt(b, 0) then -1
    else if CharAt(a, 0) > CharAt(b, 0) then 1
    else if CharAt(a, 0) == 0 as char then 0
    else StrNCmp(a[1..], b[1..], n - 1)
  }

  /** Comparing a NUL-free string over the length of `b` finds equality exactly when `b` is a prefix of it. */
  lemma {:induction false} StrNCmpPrefix(a: string, b: string)
    requires NulFree(a) && NulFree(b)
    ensures StrNCmp(a, b, |b|) == 0 <==> b <= a
    decreases |b|
  {
    if |b| > 0 {
      if |a| == 0 {
        assert CharAt(a, 0) == 0 as char && CharAt(b, 0) != 0 as char;
      } else if a[0] == b[0] {
        StrNCmpPrefix(a[1..], b[1..]);
        assert b <= a <==> b[1..] <= a[1..];
      }
    }
  }

  /**
   * C's `/` on integers truncates toward zero (C99 section 6.5.5): the
   * quotient of a negative dividend is rounded up, and the remainder takes
   * the dividend's sign.
   */
  function TruncDiv(a: int, b: nat): (q: int)
    requires b > 0
    ensures a >= 0 ==> 0 <= a - q * b < b
    ensures a < 0 ==> 0 - b < a - q * b <= 0
  {
    if a >= 0 then a / b else -((-a) / b)
  }
}
