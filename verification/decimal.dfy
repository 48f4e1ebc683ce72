/** Decimal text of 32-bit signed integers: how Rust's `str::parse::<i32>`
    reads a delay string and how `Display for i32` writes a number back. */
module Decimal {
  import opened Wrappers

  const I32Min: int := -0x8000_0000
  const I32Max: int := 0x7FFF_FFFF

  predicate InI32(n: int) {
    I32Min <= n <= I32Max
  }

  predicate IsDigit(c: char) {
    '0' <= c <= '9'
  }

  predicate AllDigits(s: string) {
    forall i :: 0 <= i < |s| ==> IsDigit(s[i])
  }

  function DigitValue(c: char): (d: nat)
    requires IsDigit(c)
    ensures d < 10
  {
    c as int - '0' as int
  }

  function DigitChar(d: nat): (c: char)
    requires d < 10
    ensures IsDigit(c) && DigitValue(c) == d
  {
    ('0' as int + d) as char
  }

  /** The value of a string of decimal digits, most significant digit first. */
  function DigitsValue(s: string): nat
    requires AllDigits(s)
  {
    if |s| == 0 then 0 else 10 * DigitsValue(s[..|s| - 1]) + DigitValue(s[|s| - 1])
  }

  /** The shortest decimal spelling of `n`: never empty, and no leading zero
      unless `n` is 0 itself. */
  function ShowNat(n: nat): (s: string)
    ensures |s| > 0 && AllDigits(s)
    ensures |s| > 1 ==> s[0] != '0'
    decreases n
  {
    if n < 10 then [DigitChar(n)] else ShowNat(n / 10) + [DigitChar(n % 10)]
  }

  /** `Display for i32`: a minus sign for negatives, never a plus sign,
      and the magnitude in its shortest spelling (no padding zeros). */
  function ShowInt(n: int): (s: string)
    ensures |s| > 0
    ensures s[0] == '-' <==> n < 0
    ensures s[0] != '+'
    ensures SpelledWith(s, n, 0)
  {
    if n < 0 then
      assert Zeros(0) + ShowNat(-n) == ShowNat(-n);
      "-" + ShowNat(-n)
    else
      assert Zeros(0) + ShowNat(n) == ShowNat(n);
      ShowNat(n)
  }

  function Zeros(k: nat): (z: string)
    ensures |z| == k && forall i :: 0 <= i < k ==> z[i] == '0'
  {
    if k == 0 then "" else "0" + Zeros(k - 1)
  }

  /** The canonical digits of `m` behind `k` leading zeros. */
  function Padded(k: nat, m: nat): string {
    Zeros(k) + ShowNat(m)
  }

  /** `s` spells `n` with `k` leading zeros: an optional sign (a minus only
      for values <= 0), `k` zeros, then the canonical digits of the magnitude. */
  ghost predicate SpelledWith(s: string, n: int, k: nat) {
    || (0 <= n && s == Padded(k, n))
    || (0 <= n && s == "+" + Padded(k, n))
    || (n <= 0 && s == "-" + Padded(k, -n))
  }

  /** `s` is one of the spellings of `n` that the parser accepts. */
  ghost predicate Spells(s: string, n: int) {
    exists k: nat :: SpelledWith(s, n, k)
  }

  /** Rust's `str::parse::<i32>`: the empty string and a lone sign are
      rejected, one leading '+' or '-' is allowed, every other character must
      be an ASCII digit, and the value must fit in 32 bits. */
  function ParseI32(s: string): (r: Option<int>)
    ensures r.Some? ==> InI32(r.value)
    ensures r.Some? ==> |s| > 0
  {
    if |s| == 0 then None
    else if s[0] == '+' || s[0] == '-' then
      if |s| == 1 then None else ParseMagnitude(s[1..], s[0] == '-')
    else ParseMagnitude(s, false)
  }

  /** The digits after the sign: all ASCII digits, and in range once negated
      if the sign was a minus. */
  function ParseMagnitude(digits: string, negative: bool): (r: Option<int>)
    requires |digits| > 0
    ensures r.Some? <==> AllDigits(digits) && InI32(if negative then 0 - DigitsValue(digits) else DigitsValue(digits))
    ensures r.Some? ==> r.value == if negative then 0 - DigitsValue(digits) else DigitsValue(digits)
  {
    if !AllDigits(digits) then None
    else
      var v: int := if negative then 0 - DigitsValue(digits) else DigitsValue(digits);
      if InI32(v) then Some(v) else None
  }

  lemma {:induction false} DigitsValueOfShowNat(n: nat)
    ensures DigitsValue(ShowNat(n)) == n
    decreases n
  {
    if n >= 10 {
      var s := ShowNat(n);
      assert s[..|s| - 1] == ShowNat(n / 10);
      DigitsValueOfShowNat(n / 10);
    }
  }

  lemma {:induction false} DigitsValueZeroPrefix(x: string)
    requires AllDigits(x)
    ensures AllDigits("0" + x) && DigitsValue("0" + x) == DigitsValue(x)
    decreases |x|
  {
    var y := "0" + x;
    if |x| > 0 {
      assert y[..|y| - 1] == "0" + x[..|x| - 1];
      DigitsValueZeroPrefix(x[..|x| - 1]);
    }
  }

  lemma {:induction false} DigitsValueZeros(k: nat, x: string)
    requires AllDigits(x)
    ensures AllDigits(Zeros(k) + x) && DigitsValue(Zeros(k) + x) == DigitsValue(x)
    decreases k
  {
    if k == 0 {
      assert Zeros(k) + x == x;
    } else {
      assert Zeros(k) + x == "0" + (Zeros(k - 1) + x);
      DigitsValueZeros(k - 1, x);
      DigitsValueZeroPrefix(Zeros(k - 1) + x);
    }
  }

  lemma {:induction false} DigitsValuePositive(d: string)
    requires |d| > 0 && AllDigits(d) && d[0] != '0'
    ensures DigitsValue(d) >= 1
    decreases |d|
  {
    if |d| > 1 {
      DigitsValuePositive(d[..|d| - 1]);
    }
  }

  /** A digit string without a leading zero is exactly the canonical spelling of its value. */
  lemma {:induction false} CanonicalDigits(d: string)
    requires |d| > 0 && AllDigits(d)
    requires |d| == 1 || d[0] != '0'
    ensures ShowNat(DigitsValue(d)) == d
    decreases |d|
  {
    var n := DigitsValue(d);
    if |d| == 1 {
      assert d[..0] == "";
    } else {
      var d' := d[..|d| - 1];
      CanonicalDigits(d');
      DigitsValuePositive(d');
      assert n / 10 == DigitsValue(d') && n % 10 == DigitValue(d[|d| - 1]);
      assert DigitChar(n % 10) == d[|d| - 1];
      assert d == d' + [d[|d| - 1]];
    }
  }

  /** Every non-empty digit string is some leading zeros followed by the
      canonical spelling of its value. */
  lemma {:induction false} StripLeadingZeros(d: string) returns (k: nat)
    requires |d| > 0 && AllDigits(d)
    ensures d == Padded(k, DigitsValue(d))
    decreases |d|
  {
    if |d| == 1 || d[0] != '0' {
      CanonicalDigits(d);
      k := 0;
      assert Zeros(0) + d == d;
    } else {
      var rest := d[1..];
      var k' := StripLeadingZeros(rest);
      assert d == "0" + rest;
      DigitsValueZeroPrefix(rest);
      k := k' + 1;
      assert Padded(k, DigitsValue(d)) == "0" + Padded(k', DigitsValue(rest));
    }
  }

  /** Digits the parser accepts are the padded spelling of the magnitude it reads. */
  lemma MagnitudeSpelled(d: string, negative: bool, n: int) returns (k: nat)
    requires |d| > 0 && ParseMagnitude(d, negative) == Some(n)
    ensures negative ==> n <= 0 && d == Padded(k, -n)
    ensures !negative ==> n >= 0 && d == Padded(k, n)
  {
    k := StripLeadingZeros(d);
  }

  /** What the parser accepts is an in-range spelling of the number it returns. */
  lemma ParsedIsSpelled(s: string, n: int)
    requires ParseI32(s) == Some(n)
    ensures InI32(n) && Spells(s, n)
  {
    if s[0] == '+' || s[0] == '-' {
      var d := s[1..];
      assert s == [s[0]] + d;
      ParseSigned(s[0], d);
      var k := MagnitudeSpelled(d, s[0] == '-', n);
      assert SpelledWith(s, n, k);
    } else {
      ParseUnsigned(s);
      var k := MagnitudeSpelled(s, false, n);
      assert SpelledWith(s, n, k);
    }
  }

  lemma ParseUnsigned(d: string)
    requires |d| > 0 && IsDigit(d[0])
    ensures ParseI32(d) == ParseMagnitude(d, false)
  {
  }

  lemma ParseSigned(sign: char, d: string)
    requires sign == '+' || sign == '-'
    requires |d| > 0
    ensures ParseI32([sign] + d) == ParseMagnitude(d, sign == '-')
  {
    var s := [sign] + d;
    assert s[0] == sign && |s| > 1;
    assert s[1..] == d;
  }

  lemma PaddedDigits(k: nat, m: nat)
    ensures |Padded(k, m)| > 0 && AllDigits(Padded(k, m)) && IsDigit(Padded(k, m)[0])
    ensures DigitsValue(Padded(k, m)) == m
  {
    DigitsValueOfShowNat(m);
    DigitsValueZeros(k, ShowNat(m));
  }

  /** Every in-range spelling of a number is accepted and read as that number. */
  lemma SpelledIsParsed(s: string, n: int)
    requires InI32(n) && Spells(s, n)
    ensures ParseI32(s) == Some(n)
  {
    var k: nat :| SpelledWith(s, n, k);
    if 0 <= n && s == Padded(k, n) {
      ParsePadded(k, n);
    } else if 0 <= n && s == "+" + Padded(k, n) {
      ParsePlusPadded(k, n);
    } else {
      ParseMinusPadded(k, -n);
    }
  }

  lemma ParsePadded(k: nat, m: nat)
    requires InI32(m)
    ensures ParseI32(Padded(k, m)) == Some(m)
  {
    PaddedDigits(k, m);
    ParseUnsigned(Padded(k, m));
  }

  lemma ParsePlusPadded(k: nat, m: nat)
    requires InI32(m)
    ensures ParseI32("+" + Padded(k, m)) == Some(m)
  {
    PaddedDigits(k, m);
    ParseSigned('+', Padded(k, m));
  }

  lemma ParseMinusPadded(k: nat, m: nat)
    requires InI32(-(m as int))
    ensures ParseI32("-" + Padded(k, m)) == Some(-(m as int))
  {
    PaddedDigits(k, m);
    ParseSigned('-', Padded(k, m));
  }

  /** The parser accepts exactly the in-range spellings, and reads each as the
      number it spells. */
  lemma ParseSpells(s: string, n: int)
    ensures ParseI32(s) == Some(n) <==> InI32(n) && Spells(s, n)
  {
    if ParseI32(s) == Some(n) {
      ParsedIsSpelled(s, n);
    }
    if InI32(n) && Spells(s, n) {
      SpelledIsParsed(s, n);
    }
  }

  /** Printing a 32-bit value and parsing the text gives the value back. */
  lemma ParseShowInt(n: int)
    requires InI32(n)
    ensures ParseI32(ShowInt(n)) == Some(n)
  {
    SpelledIsParsed(ShowInt(n), n);
  }
}
