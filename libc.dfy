/**
 * The parts of the C library (ctype.h, stdlib.h, printf's "%d") that the
 * modelled code relies on, for the "C" locale.
 */
module LibC {

  /** unsigned char / uint8_t. */
  newtype Byte = b: int | 0 <= b < 256

  /** n zero bytes: a zero-filled buffer, or NUL chars. */
  function Zeros(n: nat): (z: seq<Byte>)
    ensures |z| == n && forall i :: 0 <= i < n ==> z[i] == 0
  {
    seq(n, _ => 0)
  }

  /** isspace(): space, tab, newline, vertical tab, form feed, carriage return. */
  predicate IsSpace(c: char) {
    c == ' ' || c == '\t' || c == '\n' || c == '\U{000B}' || c == '\U{000C}' || c == '\r'
  }

  predicate IsDigit(c: char) {
    '0' <= c <= '9'
  }

  predicate IsUpper(c: char) {
    'A' <= c <= 'Z'
  }

  predicate IsLower(c: char) {
    'a' <= c <= 'z'
  }

  /** tolower(): maps 'A'..'Z' to 'a'..'z' and leaves every other character alone. */
  function ToLower(c: char): (r: char)
    ensures IsUpper(c) ==> IsLower(r) && r as int == c as int + 32
    ensures !IsUpper(c) ==> r == c
  {
    if IsUpper(c) then (c as int + 32) as char else c
  }

  /** toupper(): maps 'a'..'z' to 'A'..'Z' and leaves every other character alone. */
  function ToUpper(c: char): (r: char)
    ensures IsLower(c) ==> IsUpper(r) && r as int == c as int - 32
    ensures !IsLower(c) ==> r == c
  {
    if IsLower(c) then (c as int - 32) as char else c
  }

  /** A string with every character passed through tolower(). */
  function LowerCase(s: string): (r: string)
    ensures |r| == |s|
    ensures forall i :: 0 <= i < |s| ==> r[i] == ToLower(s[i])
  {
    if s == [] then [] else [ToLower(s[0])] + LowerCase(s[1..])
  }

  /** A string with every character passed through toupper(). */
  function UpperCase(s: string): (r: string)
    ensures |r| == |s|
    ensures forall i :: 0 <= i < |s| ==> r[i] == ToUpper(s[i])
  {
    if s == [] then [] else [ToUpper(s[0])] + UpperCase(s[1..])
  }

  function DigitValue(c: char): (d: nat)
    requires IsDigit(c)
    ensures d < 10
  {
    c as int - '0' as int
  }

  function DigitChar(d: nat): (c: char)
    requires d < 10
    ensures IsDigit(c) && DigitValue(c) == d
  {
    ('0' as int + d) as char
  }

  /** The value of the run of digits at the front of s, accumulated onto acc. */
  function LeadingDigits(s: string, acc: nat): nat {
    if |s| > 0 && IsDigit(s[0]) then LeadingDigits(s[1..], acc * 10 + DigitValue(s[0])) else acc
  }

  /**
   * atoi(): skip leading white space, take an optional sign, then the longest
   * run of decimal digits. The C function's behaviour on overflow is undefined;
   * here integers are unbounded.
   */
  function Atoi(s: string): int {
    var k := SpacePrefix(s);
    var t := s[k..];
    if |t| > 0 && t[0] == '-' then 0 - LeadingDigits(t[1..], 0) as int
    else if |t| > 0 && t[0] == '+' then LeadingDigits(t[1..], 0)
    else LeadingDigits(t, 0)
  }

  /**
   * Conversion of an int to short: the value modulo 2^16, read as a signed
   * 16-bit number (what GCC does for out-of-range values).
   */
  function ToShort(n: int): (r: int)
    ensures -0x8000 <= r < 0x8000
    ensures (r - n) % 0x1_0000 == 0
    ensures -0x8000 <= n < 0x8000 ==> r == n
  {
    (n + 0x8000) % 0x1_0000 - 0x8000
  }

  /** Number of white-space characters at the front of s. */
  function SpacePrefix(s: string): (k: nat)
    ensures k <= |s|
    ensures forall j :: 0 <= j < k ==> IsSpace(s[j])
    ensures k < |s| ==> !IsSpace(s[k])
  {
    if |s| > 0 && IsSpace(s[0]) then 1 + SpacePrefix(s[1..]) else 0
  }

  /** The decimal digits of n, most significant first, without leading zeros. */
  function Digits(n: nat): (r: string)
    ensures |r| > 0
    ensures forall i :: 0 <= i < |r| ==> IsDigit(r[i])
  {
    if n < 10 then [DigitChar(n)] else Digits(n / 10) + [DigitChar(n % 10)]
  }

  /** printf("%d", n). */
  function Decimal(n: int): (r: string)
    ensures |r| > 0
  {
    if n < 0 then "-" + Digits(-n) else Digits(n)
  }

  lemma {:induction false} LeadingDigitsAppend(a: string, b: string, acc: nat)
    requires forall i :: 0 <= i < |a| ==> IsDigit(a[i])
    ensures LeadingDigits(a + b, acc) == LeadingDigits(b, LeadingDigits(a, acc))
    decreases |a|
  {
    if a != [] {
      assert (a + b)[0] == a[0];
      assert (a + b)[1..] == a[1..] + b;
      var acc' := acc * 10 + DigitValue(a[0]);
      LeadingDigitsAppend(a[1..], b, acc');
      assert LeadingDigits(a + b, acc) == LeadingDigits(a[1..] + b, acc');
      assert LeadingDigits(a, acc) == LeadingDigits(a[1..], acc');
    } else {
      assert a + b == b;
    }
  }

  lemma {:induction false} LeadingDigitsOfDigits(n: nat, acc: nat)
    ensures LeadingDigits(Digits(n), acc) == acc * Power10(|Digits(n)|) + n
    decreases n
  {
    if n < 10 {
      assert Digits(n)[1..] == [];
    } else {
      var d := Digits(n / 10);
      var c := DigitChar(n % 10);
      LeadingDigitsAppend(d, [c], acc);
      LeadingDigitsOfDigits(n / 10, acc);
      assert [c][1..] == [];
      assert |Digits(n)| == |d| + 1;
      assert Power10(|d| + 1) == Power10(|d|) * 10;
    }
  }

  function Power10(k: nat): (p: nat)
    ensures p >= 1
  {
    if k == 0 then 1 else 10 * Power10(k - 1)
  }

  /** atoi() reads back what printf("%d") wrote. */
  lemma AtoiOfDecimal(n: int)
    ensures Atoi(Decimal(n)) == n
  {
    var s := Decimal(n);
    assert SpacePrefix(s) == 0 by {
      if n < 0 { assert s[0] == '-'; } else { assert IsDigit(s[0]); }
    }
    assert s[0..] == s;
    if n < 0 {
      assert s[1..] == Digits(-n);
      LeadingDigitsOfDigits(-n, 0);
    } else {
      LeadingDigitsOfDigits(n, 0);
    }
  }
}
