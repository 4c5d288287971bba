/**
 * Java's decimal integer parsing (Long.parseLong, Integer.parseInt), decimal printing
 * (Integer.toString, also what string concatenation does with an int) and int arithmetic.
 */
module JavaNumbers {
  import opened Wrappers

  const INT_MIN: int := -0x8000_0000
  const INT_MAX: int := 0x7fff_ffff
  const LONG_MIN: int := -0x8000_0000_0000_0000
  const LONG_MAX: int := 0x7fff_ffff_ffff_ffff

  /** A Java int. */
  type Int32 = x: int | INT_MIN <= x <= INT_MAX

  /** Two's-complement wrap-around of a Java int result. */
  function Wrap32(x: int): (r: Int32)
    ensures (r - x) % 0x1_0000_0000 == 0
  {
    (x - INT_MIN) % 0x1_0000_0000 + INT_MIN
  }

  lemma Wrap32InRange(x: int)
    requires INT_MIN <= x <= INT_MAX
    ensures Wrap32(x) == x
  {
  }

  /** Two wrapped additions are one wrapped addition of the sum. */
  lemma Wrap32AddOne(x: int)
    ensures Wrap32(Wrap32(x) + 1) == Wrap32(x + 1)
  {
    var m := 0x1_0000_0000;
    var a := x - INT_MIN;
    var q, r := a / m, a % m;
    assert a == q * m + r;
    assert Wrap32(x) + 1 - INT_MIN == r + 1;
    if r + 1 < m {
      assert (a + 1) == q * m + (r + 1);
      assert (a + 1) % m == r + 1;
    } else {
      assert (a + 1) == (q + 1) * m;
      assert (a + 1) % m == 0;
    }
  }

  /** Java's + on two ints: the exact sum, brought back by 2^32 when it leaves the int range. */
  function AddInt32(a: Int32, b: Int32): (r: Int32)
    ensures INT_MIN <= a + b <= INT_MAX ==> r == a + b
    ensures r == a + b || r == a + b - 0x1_0000_0000 || r == a + b + 0x1_0000_0000
  {
    var sum := a + b;
    if sum > INT_MAX then sum - 0x1_0000_0000
    else if sum < INT_MIN then sum + 0x1_0000_0000
    else sum
  }

  /** The int sum is the two's-complement wrap-around of the exact sum. */
  lemma AddInt32Wraps(a: Int32, b: Int32)
    ensures AddInt32(a, b) == Wrap32(a + b)
  {
    var m := 0x1_0000_0000;
    var d := a + b - INT_MIN;
    if a + b > INT_MAX {
      assert m <= d < 2 * m;
      assert d == 1 * m + (d - m);
      assert d % m == d - m;
    } else if a + b < INT_MIN {
      assert -m <= d < 0;
      assert d == -1 * m + (d + m);
      assert d % m == d + m;
    } else {
      Wrap32InRange(a + b);
    }
  }

  /** Java's % on ints: the remainder of the division truncated toward zero, with the sign of a. */
  function JavaRem(a: int, b: int): (r: int)
    requires b > 0
    ensures a >= 0 ==> r == a % b
    ensures a < 0 ==> -b < r <= 0
  {
    if a >= 0 then a % b else -((-a) % b)
  }

  predicate IsDigit(c: char) {
    '0' <= c <= '9'
  }

  predicate AllDigits(s: string) {
    forall k :: 0 <= k < |s| ==> IsDigit(s[k])
  }

  /** The value of a string of decimal digits, most significant first; leading zeros allowed. */
  function DigitsValue(s: string): nat
    requires AllDigits(s)
  {
    if s == [] then 0
    else DigitsValue(s[..|s| - 1]) * 10 + (s[|s| - 1] - '0') as nat
  }

  /**
   * Long.parseLong / Integer.parseInt with radix 10: an optional '-' or '+', then at
   * least one digit, and the value must lie in [lo, hi]; anything else is a
   * NumberFormatException (None).
   */
  function ParseDecimal(s: string, lo: int, hi: int): (r: Option<int>)
    ensures r.Some? ==> lo <= r.value <= hi
  {
    if |s| == 0 then None
    else
      var negative := s[0] == '-';
      var digits := if s[0] == '-' || s[0] == '+' then s[1..] else s;
      if |digits| == 0 || !AllDigits(digits) then None
      else
        var v: int := if negative then -(DigitsValue(digits) as int) else DigitsValue(digits);
        if lo <= v <= hi then Some(v) else None
  }

  function ParseLong(s: string): (r: Option<int>)
    ensures r.Some? ==> LONG_MIN <= r.value <= LONG_MAX
  {
    ParseDecimal(s, LONG_MIN, LONG_MAX)
  }

  /** Integer.parseInt: the same grammar as Long.parseLong, at the int bounds. */
  function ParseInt(s: string): (r: Option<Int32>)
    ensures r.Some? <==> ParseDecimal(s, INT_MIN, INT_MAX).Some?
    ensures r.Some? ==> r.value as int == ParseDecimal(s, INT_MIN, INT_MAX).value
  {
    match ParseDecimal(s, INT_MIN, INT_MAX)
    case None => None
    case Some(v) => Some(v)
  }

  /** Integer.parseInt accepts exactly the texts Long.parseLong reads as a value in the int range. */
  lemma ParseIntIsParseLongInRange(s: string)
    ensures ParseInt(s).Some? <==> ParseLong(s).Some? && INT_MIN <= ParseLong(s).value <= INT_MAX
    ensures ParseInt(s).Some? ==> ParseLong(s) == Some(ParseInt(s).value as int)
  {
  }

  function DigitChar(d: nat): (c: char)
    requires d < 10
    ensures IsDigit(c) && (c - '0') as nat == d
  {
    ('0' as int + d) as char
  }

  /** The shortest decimal digits of n. */
  function NatToDecimal(n: nat): (s: string)
    ensures |s| >= 1 && AllDigits(s)
  {
    if n < 10 then [DigitChar(n)] else NatToDecimal(n / 10) + [DigitChar(n % 10)]
  }

  /** Integer.toString / Long.toString: a '-' for negative values, then the digits. */
  function ToDecimal(n: int): (s: string)
    ensures |s| >= 1
    ensures forall k :: 0 <= k < |s| ==> IsDigit(s[k]) || (k == 0 && s[k] == '-')
    ensures s[0] == '-' <==> n < 0
    ensures n < 0 ==> |s| >= 2
    ensures s[if n < 0 then 1 else 0] == '0' ==> n == 0
  {
    NatToDecimalLeadingDigit(if n < 0 then -n else n);
    if n < 0 then "-" + NatToDecimal(-n) else NatToDecimal(n)
  }

  /** The shortest digits start with '0' only for zero. */
  lemma {:induction false} NatToDecimalLeadingDigit(n: nat)
    ensures NatToDecimal(n)[0] == '0' <==> n == 0
  {
    if n >= 10 {
      NatToDecimalLeadingDigit(n / 10);
    }
  }

  lemma {:induction false} DigitsValueOfNatToDecimal(n: nat)
    ensures DigitsValue(NatToDecimal(n)) == n
  {
    var s := NatToDecimal(n);
    if n >= 10 {
      DigitsValueOfNatToDecimal(n / 10);
      assert s[..|s| - 1] == NatToDecimal(n / 10);
    }
  }

  /**
   * Parsing what ToDecimal prints gives the number back when it is in range, and is a
   * NumberFormatException when it is not (so "2147483648" is a long but not an int).
   */
  lemma ParseDecimalToDecimal(n: int, lo: int, hi: int)
    ensures ParseDecimal(ToDecimal(n), lo, hi) == if lo <= n <= hi then Some(n) else None
  {
    if n < 0 {
      DigitsValueOfNatToDecimal(-n);
      ParseDecimalSigned("-", NatToDecimal(-n), -n, lo, hi);
    } else {
      DigitsValueOfNatToDecimal(n);
      ParseDecimalSigned("", NatToDecimal(n), n, lo, hi);
      assert "" + NatToDecimal(n) == ToDecimal(n);
    }
  }

  lemma ParseLongToDecimal(n: int)
    ensures ParseLong(ToDecimal(n)) == if LONG_MIN <= n <= LONG_MAX then Some(n) else None
  {
    ParseDecimalToDecimal(n, LONG_MIN, LONG_MAX);
  }

  lemma ParseIntToDecimal(n: int)
    ensures ParseInt(ToDecimal(n)) == if INT_MIN <= n <= INT_MAX then Some(n) else None
  {
    ParseDecimalToDecimal(n, INT_MIN, INT_MAX);
  }

  /** The string is made of '0' characters only. */
  predicate Zeros(z: string) {
    forall k :: 0 <= k < |z| ==> z[k] == '0'
  }

  /** A leading '0' does not change the value of a digit string. */
  lemma {:induction false} DigitsValueLeadingZero(t: string)
    requires AllDigits(t)
    ensures AllDigits("0" + t) && DigitsValue("0" + t) == DigitsValue(t)
  {
    if t != [] {
      var u := "0" + t;
      assert u[..|u| - 1] == "0" + t[..|t| - 1];
      DigitsValueLeadingZero(t[..|t| - 1]);
    }
  }

  /** Leading zeros do not change the value of a digit string. */
  lemma {:induction false} DigitsValueLeadingZeros(zeros: string, t: string)
    requires Zeros(zeros) && AllDigits(t)
    ensures AllDigits(zeros + t) && DigitsValue(zeros + t) == DigitsValue(t)
  {
    if zeros != [] {
      DigitsValueLeadingZeros(zeros[1..], t);
      DigitsValueLeadingZero(zeros[1..] + t);
      assert zeros + t == "0" + (zeros[1..] + t);
    } else {
      assert zeros + t == t;
    }
  }

  /** Appending a digit multiplies the value by ten and adds the digit. */
  lemma DigitsValueAppend(p: string, ch: char)
    requires AllDigits(p) && IsDigit(ch)
    ensures AllDigits(p + [ch]) && DigitsValue(p + [ch]) == DigitsValue(p) * 10 + (ch - '0') as nat
  {
    var d := p + [ch];
    assert d[..|d| - 1] == p;
  }

  /** The shortest digits of q * 10 + c, for q > 0, are those of q followed by c. */
  lemma NatToDecimalAppend(q: nat, c: nat)
    requires q >= 1 && c < 10
    ensures NatToDecimal(q * 10 + c) == NatToDecimal(q) + [DigitChar(c)]
  {
    var n := q * 10 + c;
    assert n / 10 == q && n % 10 == c;
  }

  /**
   * The position in d of the first digit at or after i that is not a leading zero; the
   * last digit is never skipped.
   */
  function SkipZeros(d: string, i: nat): (z: nat)
    requires i < |d|
    ensures i <= z < |d|
    ensures forall k :: i <= k < z ==> d[k] == '0'
    ensures z < |d| - 1 ==> d[z] != '0'
    decreases |d| - i
  {
    if i < |d| - 1 && d[i] == '0' then SkipZeros(d, i + 1) else i
  }

  /** A digit string without a leading zero is the shortest spelling of its value. */
  lemma {:induction false} NoLeadingZeroCanonical(d: string)
    requires |d| >= 1 && AllDigits(d)
    requires |d| == 1 || d[0] != '0'
    ensures NatToDecimal(DigitsValue(d)) == d
  {
    var p := d[..|d| - 1];
    var last := d[|d| - 1];
    var c := (last - '0') as nat;
    assert d == p + [last];
    assert DigitChar(c) == last;
    DigitsValueAppend(p, last);
    if |d| > 1 {
      assert p[0] == d[0];
      NoLeadingZeroCanonical(p);
      assert NatToDecimal(0) == "0";
      NatToDecimalAppend(DigitsValue(p), c);
    } else {
      assert p == [];
      assert DigitsValue(d) == c;
    }
  }

  /** A digit string is its prefix followed by its suffix, and both are digit strings. */
  lemma DigitsSplit(d: string, z: nat)
    requires z <= |d| && AllDigits(d)
    ensures d == d[..z] + d[z..]
    ensures AllDigits(d[..z]) && AllDigits(d[z..])
  {
  }

  /** Every digit string is zeros followed by the shortest digits of its value. */
  lemma DigitsCanonical(d: string, i: nat)
    requires i < |d| && AllDigits(d[i..])
    ensures d[SkipZeros(d, i)..] == NatToDecimal(DigitsValue(d[i..]))
  {
    var t := d[i..];
    var z := SkipZeros(d, i);
    DigitsSplit(t, z - i);
    assert t[z - i..] == d[z..];
    assert Zeros(t[..z - i]);
    DigitsValueLeadingZeros(t[..z - i], d[z..]);
    NoLeadingZeroCanonical(d[z..]);
  }

  /** The facts ParseDecimal checks before it accepts s. */
  lemma ParseDecimalDigits(s: string, lo: int, hi: int)
    requires ParseDecimal(s, lo, hi).Some?
    ensures var i := if s[0] == '-' || s[0] == '+' then 1 else 0;
      && i < |s| && AllDigits(s[i..])
      && ParseDecimal(s, lo, hi).value == if s[0] == '-' then -(DigitsValue(s[i..]) as int) else DigitsValue(s[i..])
  {
  }

  /**
   * What ParseDecimal accepts: an optional sign ('-' only for a value that is not
   * positive), then digits that are zeros followed by the shortest digits of the
   * value's magnitude.
   */
  lemma ParseDecimalAccepted(s: string, lo: int, hi: int)
    requires ParseDecimal(s, lo, hi).Some?
    ensures var v := ParseDecimal(s, lo, hi).value;
      var i := if s[0] == '-' || s[0] == '+' then 1 else 0;
      && (s[0] == '-' ==> v <= 0)
      && (s[0] != '-' ==> v >= 0)
      && i < |s| && AllDigits(s[i..])
      && s[SkipZeros(s, i)..] == NatToDecimal(if v < 0 then -v else v)
  {
    ParseDecimalDigits(s, lo, hi);
    var i := if s[0] == '-' || s[0] == '+' then 1 else 0;
    DigitsCanonical(s, i);
  }

  /** A sign followed by digits of value m denotes m, negated after a '-'. */
  lemma ParseDecimalSigned(sign: string, t: string, m: nat, lo: int, hi: int)
    requires sign == "" || sign == "+" || sign == "-"
    requires |t| >= 1 && AllDigits(t) && DigitsValue(t) == m
    ensures var v: int := if sign == "-" then -(m as int) else m;
      ParseDecimal(sign + t, lo, hi) == if lo <= v <= hi then Some(v) else None
  {
    var s := sign + t;
    if sign == "" {
      assert s == t;
      assert IsDigit(t[0]);
    } else {
      assert s[0] == sign[0];
      assert s[1..] == t;
    }
  }

  /**
   * Conversely, every such text parses: a sign, zeros and the digits of n denote n or
   * -n, accepted exactly when that value is in range.
   */
  lemma ParseDecimalSpelled(sign: string, zeros: string, n: nat, lo: int, hi: int)
    requires sign == "" || sign == "+" || sign == "-"
    requires Zeros(zeros)
    ensures var v: int := if sign == "-" then -(n as int) else n;
      ParseDecimal(sign + (zeros + NatToDecimal(n)), lo, hi) == if lo <= v <= hi then Some(v) else None
  {
    DigitsValueOfNatToDecimal(n);
    DigitsValueLeadingZeros(zeros, NatToDecimal(n));
    ParseDecimalSigned(sign, zeros + NatToDecimal(n), n, lo, hi);
  }

  /** Signs alone, the empty string, blanks and letters are rejected. */
  lemma ParseRejectsMalformed(lo: int, hi: int)
    ensures ParseDecimal("", lo, hi) == None
    ensures ParseDecimal("-", lo, hi) == None
    ensures ParseDecimal("+", lo, hi) == None
    ensures ParseDecimal(" 1", lo, hi) == None
    ensures ParseDecimal("1a", lo, hi) == None
  {
    assert !IsDigit(" 1"[0]);
    assert !IsDigit("1a"[1]);
  }
}
