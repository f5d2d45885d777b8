/** Decimal strings as `snprintf` writes them and `strtol` and `strtoull` read them. */
module Decimal {
  import opened Bytes

  predicate IsDigit(c: char) {
    '0' <= c <= '9'
  }

  /** `%d` and `%zu` of a number that is not negative. */
  function Print(n: nat): (s: string)
    ensures s != ""
  {
    if n < 10 then [Digit(n)] else Print(n / 10) + [Digit(n % 10)]
  }

  function Digit(n: nat): (c: char)
    requires n < 10
    ensures IsDigit(c) && (c - '0') as int == n
  {
    '0' + n as char
  }

  /** What a buffer of `size` characters holds after `snprintf`: the text up to the room for the final null. */
  function Fitted(s: string, size: nat): string
    requires size > 0
  {
    s[..Min(|s|, size - 1)]
  }

  function LeadingDigits(s: string): (n: nat)
    ensures n <= |s|
  {
    if s == "" || !IsDigit(s[0]) then 0 else 1 + LeadingDigits(s[1..])
  }

  function Value(digits: string): nat
    requires forall i :: 0 <= i < |digits| ==> IsDigit(digits[i])
  {
    if digits == "" then 0
    else
      var last := digits[|digits| - 1];
      assert IsDigit(last);
      10 * Value(digits[..|digits| - 1]) + (last - '0') as int
  }

  lemma {:induction false} LeadingAreDigits(s: string)
    ensures forall i :: 0 <= i < LeadingDigits(s) ==> IsDigit(s[i])
  {
    if s != "" && IsDigit(s[0]) {
      LeadingAreDigits(s[1..]);
    }
  }

  predicate IsSpace(c: char) {
    c == ' ' || 9 as char <= c <= 13 as char
  }

  function SkipSpaces(s: string): string {
    if s != "" && IsSpace(s[0]) then SkipSpaces(s[1..]) else s
  }

  /** An optional sign and digits after white space: the signed value and the rest; all of it without a digit. */
  function Signed(s: string): (int, string) {
    var t := SkipSpaces(s);
    var negative := t != "" && t[0] == '-';
    var u := if t != "" && (t[0] == '-' || t[0] == '+') then t[1..] else t;
    var n := LeadingDigits(u);
    LeadingAreDigits(u);
    var value: int := Value(u[..n]);
    if n == 0 then (0, s) else (if negative then -value else value, u[n..])
  }

  const LONG_MIN: int := -0x8000_0000_0000_0000
  const LONG_MAX: int := 0x7FFF_FFFF_FFFF_FFFF
  const ULLONG_MAX: int := 0xFFFF_FFFF_FFFF_FFFF

  /** `strtol(s, &end, 10)`: the value, held within a `long`, and the text at `end`. */
  function Strtol(s: string): (int, string) {
    var (v, rest) := Signed(s);
    (Max(LONG_MIN, Min(v, LONG_MAX)), rest)
  }

  /** `strtoull(s, &end, 10)`: a minus sign negates the value modulo 2^64; what does not fit gives the largest value. */
  function Strtoull(s: string): (int, string) {
    var (v, rest) := Signed(s);
    (if v > ULLONG_MAX || v < -ULLONG_MAX then ULLONG_MAX else if v < 0 then v + ULLONG_MAX + 1 else v, rest)
  }

  // ---- Reading back ----

  lemma {:induction false} PrintIsDigits(n: nat)
    ensures forall i :: 0 <= i < |Print(n)| ==> IsDigit(Print(n)[i])
    ensures Value(Print(n)) == n
  {
    if n >= 10 {
      PrintIsDigits(n / 10);
      assert Print(n)[..|Print(n)| - 1] == Print(n / 10);
    } else {
      assert Print(n)[..0] == "";
    }
  }

  lemma {:induction false} AllLeading(s: string)
    requires forall i :: 0 <= i < |s| ==> IsDigit(s[i])
    ensures LeadingDigits(s) == |s|
  {
    if s != "" {
      AllLeading(s[1..]);
    }
  }

  lemma SignedReadsBack(n: nat)
    ensures Signed(Print(n)) == (n, "")
  {
    var s := Print(n);
    PrintIsDigits(n);
    AllLeading(s);
    assert IsDigit(s[0]) && SkipSpaces(s) == s;
    assert s[..|s|] == s && s[|s|..] == "";
  }

  /** A `long` that is not negative and a `size_t` read back as they were printed. */
  lemma ReadsBack(n: nat)
    ensures n <= LONG_MAX ==> Strtol(Print(n)) == (n, "")
    ensures n <= ULLONG_MAX ==> Strtoull(Print(n)) == (n, "")
  {
    SignedReadsBack(n);
  }

  function Pow10(k: nat): (p: int)
    ensures p > 0
  {
    if k == 0 then 1 else 10 * Pow10(k - 1)
  }

  /** Below 10^k there are k digits at most. */
  lemma {:induction false} PrintIsShort(n: nat, k: nat)
    requires k > 0 && n < Pow10(k)
    ensures |Print(n)| <= k
    decreases k
  {
    if n >= 10 {
      assert k > 1;
      PrintIsShort(n / 10, k - 1);
    }
  }

  /** An `int` up to 1024 fits 16 characters, a `size_t` fits 32. */
  lemma BuffersAreLargeEnough(n: nat)
    ensures n <= 1024 ==> Fitted(Print(n), 16) == Print(n)
    ensures n <= ULLONG_MAX ==> Fitted(Print(n), 32) == Print(n)
  {
    assert Pow10(4) == 10_000;
    assert Pow10(8) == 10_000 * Pow10(4) && Pow10(12) == 10_000 * Pow10(8);
    assert Pow10(16) == 10_000 * Pow10(12) && Pow10(20) == 10_000 * Pow10(16);
    if n <= 1024 {
      PrintIsShort(n, 4);
    }
    if n <= ULLONG_MAX {
      PrintIsShort(n, 20);
    }
  }
}
