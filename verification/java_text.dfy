/**
 * The two pieces of the Java library that cache keys are built from:
 * the decimal rendering of an int (`StringBuffer.append(int)`,
 * `String.valueOf(int)`) and `String.hashCode()`; plus splitting a key at
 * its separator and parsing decimals back, which the key lemmas use as the
 * inverse of the rendering.
 */
module JavaText {
  import opened Wrappers
  import JavaInt

  predicate IsDigit(c: char) {
    '0' <= c <= '9'
  }

  predicate AllDigits(s: string) {
    forall i :: 0 <= i < |s| ==> IsDigit(s[i])
  }

  function DigitChar(d: nat): (c: char)
    requires d < 10
    ensures IsDigit(c) && c as int - '0' as int == d
  {
    (d + '0' as int) as char
  }

  /** The digits of `n`, most significant first, with no leading zero. */
  function NatDigits(n: nat): (s: string)
    ensures |s| >= 1 && AllDigits(s)
    ensures |s| > 1 ==> s[0] != '0'
    decreases n
  {
    if n < 10 then [DigitChar(n)] else NatDigits(n / 10) + [DigitChar(n % 10)]
  }

  /** Java's decimal rendering of an integer: a minus sign for negatives, then the digits. */
  function Decimal(i: int): (s: string)
    ensures |s| >= 1
    ensures forall k :: 0 <= k < |s| ==> IsDigit(s[k]) || (k == 0 && s[k] == '-')
  {
    if i < 0 then "-" + NatDigits(-i) else NatDigits(i)
  }

  /** The value of a string of digits, read most significant first. */
  function DigitsValue(s: string): nat
    requires AllDigits(s)
  {
    if |s| == 0 then 0 else DigitsValue(s[..|s| - 1]) * 10 + (s[|s| - 1] as int - '0' as int)
  }

  /** The inverse of `Decimal`: an optional minus sign followed by at least one digit. */
  function ParseDecimal(s: string): Option<int> {
    if |s| >= 2 && s[0] == '-' && AllDigits(s[1..]) then
      var magnitude: int := DigitsValue(s[1..]);
      Some(-magnitude)
    else if |s| >= 1 && AllDigits(s) then Some(DigitsValue(s) as int)
    else None
  }

  lemma {:induction false} NatDigitsRoundTrip(n: nat)
    ensures DigitsValue(NatDigits(n)) == n
    decreases n
  {
    if n >= 10 {
      var s := NatDigits(n);
      assert s[..|s| - 1] == NatDigits(n / 10);
      NatDigitsRoundTrip(n / 10);
    }
  }

  /** Rendering an int and parsing it back gives the int: the decimal form is injective. */
  lemma DecimalRoundTrip(i: int)
    ensures ParseDecimal(Decimal(i)) == Some(i)
  {
    var s := Decimal(i);
    if i < 0 {
      var digits := NatDigits(-i);
      assert s[1..] == digits && AllDigits(digits);
      NatDigitsRoundTrip(-i);
      assert DigitsValue(s[1..]) == -i;
    } else {
      assert s == NatDigits(i) && AllDigits(s) && s[0] != '-';
      NatDigitsRoundTrip(i);
    }
  }

  /** s[0]*31^(n-1) + ... + s[n-1] on unbounded integers. */
  function Poly(s: string): int {
    if |s| == 0 then 0 else 31 * Poly(s[..|s| - 1]) + s[|s| - 1] as int
  }

  /** `String.hashCode()`: the 31-polynomial of the characters, in wrapping int arithmetic. */
  function HashCode(s: string): (h: int)
    ensures JavaInt.IsInt(h)
    ensures (h - Poly(s)) % JavaInt.MODULUS == 0
  {
    if |s| == 0 then 0
    else
      var prefix := s[..|s| - 1];
      var x := 31 * HashCode(prefix) + s[|s| - 1] as int;
      CongruentStep(x, JavaInt.Wrap(x), HashCode(prefix) - Poly(prefix));
      assert Poly(s) == x - 31 * (HashCode(prefix) - Poly(prefix));
      JavaInt.Wrap(x)
  }

  /** Narrowing x to w, after a step that multiplied a difference d by 31, keeps the congruence. */
  lemma CongruentStep(x: int, w: int, d: int)
    requires (x - w) % JavaInt.MODULUS == 0 && d % JavaInt.MODULUS == 0
    ensures (w - (x - 31 * d)) % JavaInt.MODULUS == 0
  {
    var m := JavaInt.MODULUS;
    var k, j := (x - w) / m, d / m;
    assert x - w == m * k;
    assert d == m * j;
    assert w - (x - 31 * d) == m * (31 * j - k);
  }

  /** The fields of `s` between occurrences of `sep` (empty fields kept). */
  function Split(s: string, sep: char): (fields: seq<string>)
    ensures |fields| >= 1
  {
    if |s| == 0 then [""]
    else if s[0] == sep then [""] + Split(s[1..], sep)
    else
      var rest := Split(s[1..], sep);
      [[s[0]] + rest[0]] + rest[1..]
  }

  lemma {:induction false} SplitWithoutSeparator(s: string, sep: char)
    requires sep !in s
    ensures Split(s, sep) == [s]
  {
    if |s| > 0 {
      SplitWithoutSeparator(s[1..], sep);
      assert [s[0]] + s[1..] == s;
    }
  }

  /** A field free of the separator, the separator, then the rest: the field comes off first. */
  lemma {:induction false} SplitAfterField(a: string, sep: char, b: string)
    requires sep !in a
    ensures Split(a + [sep] + b, sep) == [a] + Split(b, sep)
  {
    var s := a + [sep] + b;
    if |a| == 0 {
      assert s[1..] == b;
    } else {
      assert s[1..] == a[1..] + [sep] + b;
      SplitAfterField(a[1..], sep, b);
      assert [a[0]] + a[1..] == a;
    }
  }
}
