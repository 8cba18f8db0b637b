/**
 * Decimal numerals as Python reads and writes them: `int(text)`, `str(n)`,
 * `str.zfill` and the zero-padded fields of `strftime`.
 */
module Numerals {
  import opened Wrappers
  import Text

  predicate IsDigit(c: char) {
    '0' <= c <= '9'
  }

  predicate AllDigits(s: string) {
    forall i :: 0 <= i < |s| ==> IsDigit(s[i])
  }

  function DigitChar(d: nat): char
    requires d < 10
  {
    ('0' as int + d) as char
  }

  /** The value of a string of decimal digits, most significant first. */
  function DigitsValue(s: string): nat
    requires AllDigits(s)
    decreases |s|
  {
    if |s| == 0 then 0
    else DigitsValue(s[..|s| - 1]) * 10 + (s[|s| - 1] as int - '0' as int)
  }

  /** `str(n)` for a natural number: no leading zero except for 0 itself. */
  function NatToString(n: nat): (s: string)
    ensures |s| >= 1 && AllDigits(s)
    ensures |s| > 1 ==> s[0] != '0'
    decreases n
  {
    if n < 10 then [DigitChar(n)]
    else NatToString(n / 10) + [DigitChar(n % 10)]
  }

  /** `str(i)` for any integer. */
  function IntToString(i: int): string {
    if i < 0 then "-" + NatToString(-i) else NatToString(i)
  }

  /** A non-empty run of digits, as `int()` accepts after its sign. */
  function ParseNat(s: string): Option<nat> {
    if |s| > 0 && AllDigits(s) then Some(DigitsValue(s)) else None
  }

  /** An optional sign followed by a non-empty run of digits, nothing else. */
  function ParseSigned(t: string): Option<int> {
    if |t| > 0 && (t[0] == '+' || t[0] == '-') then
      match ParseNat(t[1..])
      case None => None
      case Some(n) => Some(if t[0] == '-' then -(n as int) else n as int)
    else
      match ParseNat(t)
      case None => None
      case Some(n) => Some(n as int)
  }

  /** Text `int()` accepts once stripped: an optional sign, then at least one digit. */
  predicate IsIntText(t: string) {
    if |t| > 0 && (t[0] == '+' || t[0] == '-') then |t| > 1 && AllDigits(t[1..])
    else |t| > 0 && AllDigits(t)
  }

  /** The value of such text: its digits, negated after a '-'. */
  function SignedValue(t: string): int
    requires IsIntText(t)
  {
    if t[0] == '-' then -(DigitsValue(t[1..]) as int)
    else if t[0] == '+' then DigitsValue(t[1..]) as int
    else DigitsValue(t) as int
  }

  /**
   * `int(text)`: surrounding whitespace, an optional sign, then at least one
   * digit; anything else raises `ValueError`, modelled as `None`.
   */
  function ParseInt(text: string): (r: Option<int>)
    ensures ParseNat(text).Some? ==> r == Some(ParseNat(text).value as int)
  {
    if |text| > 0 && AllDigits(text) then
      DigitNotSpace(text[0]);
      DigitNotSpace(text[|text| - 1]);
      ParseSigned(text)
    else ParseSigned(Text.Strip(text))
  }

  /**
   * `int()` reads a value exactly when the stripped text is an optional sign
   * and at least one digit, and that value is the digits', negated after '-'.
   */
  lemma ParseIntExactly(text: string)
    ensures ParseInt(text) == if IsIntText(Text.Strip(text)) then Some(SignedValue(Text.Strip(text))) else None
  {
  }

  lemma DigitNotSpace(c: char)
    requires IsDigit(c)
    ensures !Text.IsSpace(c)
  {
  }

  lemma {:induction false} DigitsValueOfNatToString(n: nat)
    ensures DigitsValue(NatToString(n)) == n
    decreases n
  {
    var s := NatToString(n);
    if n >= 10 {
      DigitsValueOfNatToString(n / 10);
      assert s[..|s| - 1] == NatToString(n / 10);
    }
  }

  /** `int(str(n)) == n` */
  lemma {:induction false} ParseNatToString(n: nat)
    ensures ParseNat(NatToString(n)) == Some(n)
    ensures ParseInt(NatToString(n)) == Some(n)
  {
    DigitsValueOfNatToString(n);
  }

  /** `int("-" + digits)` reads the digits negated. */
  lemma {:induction false} ParseNegative(d: string, n: nat)
    requires ParseNat(d) == Some(n)
    ensures ParseInt("-" + d) == Some(-(n as int))
  {
    var s := "-" + d;
    assert s[1..] == d;
    assert !AllDigits(s) by { assert !IsDigit(s[0]); }
    DigitNotSpace(s[|s| - 1]);
    assert Text.Strip(s) == s;
  }

  /** `int(str(i)) == i` for every integer, negative ones included. */
  lemma {:induction false} ParseIntToString(i: int)
    ensures ParseInt(IntToString(i)) == Some(i)
  {
    if i < 0 {
      ParseNatToString(-i);
      ParseNegative(NatToString(-i), -i);
    } else {
      ParseNatToString(i);
    }
  }

  function Zeros(k: nat): (z: string)
    ensures |z| == k && forall i :: 0 <= i < k ==> z[i] == '0'
  {
    seq(k, _ => '0')
  }

  lemma {:induction false} LeadingZerosValue(k: nat, s: string)
    requires AllDigits(s)
    ensures AllDigits(Zeros(k) + s)
    ensures DigitsValue(Zeros(k) + s) == DigitsValue(s)
    decreases |s|
  {
    var z := Zeros(k) + s;
    if |s| == 0 {
      assert z == Zeros(k);
      ZerosValue(k);
    } else {
      LeadingZerosValue(k, s[..|s| - 1]);
      assert z[..|z| - 1] == Zeros(k) + s[..|s| - 1];
    }
  }

  lemma {:induction false} ZerosValue(k: nat)
    ensures DigitsValue(Zeros(k)) == 0
    decreases k
  {
    if k > 0 {
      ZerosValue(k - 1);
      assert Zeros(k)[..k - 1] == Zeros(k - 1);
    }
  }

  function Pow10(k: nat): (p: nat)
    ensures p >= 1
  {
    if k == 0 then 1 else 10 * Pow10(k - 1)
  }

  /** A number below `10^k` takes at most `k` digits. */
  lemma {:induction false} NatToStringWidth(n: nat, k: nat)
    ensures 0 < k && n < Pow10(k) ==> |NatToString(n)| <= k
    decreases n
  {
    if 0 < k && n < Pow10(k) && n >= 10 {
      assert k >= 2;
      NatToStringWidth(n / 10, k - 1);
    }
  }

  /** A string of `k` digits reads as a number below `10^k`. */
  lemma {:induction false} DigitsValueBound(s: string)
    requires AllDigits(s)
    ensures DigitsValue(s) < Pow10(|s|)
    decreases |s|
  {
    if |s| > 0 {
      DigitsValueBound(s[..|s| - 1]);
    }
  }

  /** `s.zfill(width)`: zeros inserted after any leading sign up to `width`. */
  function ZFill(s: string, width: nat): (r: string)
    ensures |r| == if |s| >= width then |s| else width
    ensures |s| >= width ==> r == s
  {
    if |s| >= width then s
    else if |s| > 0 && (s[0] == '+' || s[0] == '-') then
      [s[0]] + Zeros(width - |s|) + s[1..]
    else Zeros(width - |s|) + s
  }

  /** A `%02d`-style field: `n` in decimal, zero-padded to `width` digits. */
  function ZeroPad(n: nat, width: nat): (s: string)
    ensures |s| >= width && AllDigits(s)
    ensures ParseNat(s) == Some(n)
    ensures 0 < width && n < Pow10(width) ==> |s| == width
  {
    var d := NatToString(n);
    DigitsValueOfNatToString(n);
    NatToStringWidth(n, width);
    if |d| >= width then d
    else
      LeadingZerosValue(width - |d|, d);
      Zeros(width - |d|) + d
  }

  lemma {:induction false} ZFillNegative(d: string, n: nat, width: nat)
    requires d == NatToString(n) && n > 0 && 1 + |d| < width
    ensures ParseInt(ZFill("-" + d, width)) == Some(-(n as int))
  {
    var s := "-" + d;
    var k := width - |s|;
    assert s[0] == '-' && s[1..] == d;
    assert ZFill(s, width) == "-" + (Zeros(k) + d);
    DigitsValueOfNatToString(n);
    LeadingZerosValue(k, d);
    ParseNegative(Zeros(k) + d, n);
  }

  lemma {:induction false} ZFillNonNegative(d: string, n: nat, width: nat)
    requires d == NatToString(n) && |d| < width
    ensures ParseInt(ZFill(d, width)) == Some(n as int)
  {
    var k := width - |d|;
    assert d[0] != '+' && d[0] != '-';
    assert ZFill(d, width) == Zeros(k) + d;
    DigitsValueOfNatToString(n);
    LeadingZerosValue(k, d);
  }

  /** `int(str(n).zfill(w)) == n`: padding never changes the value read back. */
  lemma {:induction false} ZFillParses(n: int, width: nat)
    ensures ParseInt(ZFill(IntToString(n), width)) == Some(n)
  {
    var s := IntToString(n);
    if |s| >= width {
      assert ZFill(s, width) == s;
      ParseIntToString(n);
    } else if n < 0 {
      assert s == "-" + NatToString(-n);
      ZFillNegative(NatToString(-n), -n, width);
    } else {
      assert s == NatToString(n);
      ZFillNonNegative(NatToString(n), n, width);
    }
  }
}
