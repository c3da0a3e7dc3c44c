/** Base-10 text of integers: Go's `strconv.FormatInt`, `ParseUint` and `Atoi`. */
module Decimal {
  import opened Prelude

  function Digit(d: nat): char
    requires d < 10
  {
    ('0' as int + d) as char
  }

  predicate IsDigit(c: char) {
    '0' <= c <= '9'
  }

  predicate AllDigits(s: string) {
    forall i :: 0 <= i < |s| ==> IsDigit(s[i])
  }

  function FormatNat(n: nat): string {
    if n < 10 then [Digit(n)] else FormatNat(n / 10) + [Digit(n % 10)]
  }

  function FormatInt(n: int): string {
    if n < 0 then "-" + FormatNat(-n) else FormatNat(n)
  }

  /** The number a string of digits denotes, most significant digit first. */
  function Value(s: string): nat
    requires AllDigits(s)
  {
    if s == [] then 0
    else Value(s[..|s| - 1]) * 10 + (s[|s| - 1] as int - '0' as int)
  }

  /** `strconv.ParseUint(s, 10, 64)`: digits only, no sign, and an error on overflow. */
  function ParseUint(s: string): Option<UInt64> {
    if s == [] || !AllDigits(s) || Value(s) >= TWO_TO_THE_64 then None else Some(Value(s))
  }

  /** `strconv.Atoi` on a 64-bit platform: an optional sign, then digits within int64. */
  function Atoi(s: string): Option<Int64> {
    var negative := s != [] && s[0] == '-';
    var digits := if s != [] && (s[0] == '-' || s[0] == '+') then s[1..] else s;
    if digits == [] || !AllDigits(digits) then None
    else
      var magnitude: int := Value(digits);
      var n := if negative then -magnitude else magnitude;
      if -TWO_TO_THE_63 <= n < TWO_TO_THE_63 then Some(n) else None
  }

  lemma {:induction false} ValueOfFormat(n: nat)
    ensures FormatNat(n) != "" && AllDigits(FormatNat(n)) && Value(FormatNat(n)) == n
  {
    if n < 10 {
    } else {
      ValueOfFormat(n / 10);
      var s := FormatNat(n);
      assert s[..|s| - 1] == FormatNat(n / 10);
    }
  }

  lemma DigitOfValue(c: char)
    requires IsDigit(c)
    ensures 0 <= c as int - '0' as int < 10 && Digit(c as int - '0' as int) == c
  {
  }

  lemma {:induction false} LeadingDigitCounts(s: string)
    requires s != "" && AllDigits(s) && s[0] != '0'
    ensures Value(s) > 0
  {
    if |s| > 1 {
      LeadingDigitCounts(s[..|s| - 1]);
    } else {
      assert s[..0] == "";
    }
  }

  lemma {:induction false} PrintedIsCanonical(n: nat)
    requires n > 0
    ensures FormatNat(n) != "" && FormatNat(n)[0] != '0'
  {
    if n < 10 {
    } else {
      PrintedIsCanonical(n / 10);
    }
  }

  lemma {:induction false} CanonicalIsPrinted(s: string)
    requires s != "" && AllDigits(s) && (|s| > 1 ==> s[0] != '0')
    ensures s == FormatNat(Value(s))
  {
    var last := |s| - 1;
    DigitOfValue(s[last]);
    assert s == s[..last] + [s[last]];
    if last > 0 {
      CanonicalIsPrinted(s[..last]);
      LeadingDigitCounts(s[..last]);
    } else {
      assert s[..0] == "";
    }
  }

  /** A number prints as the one string of digits without leading zeros that denotes it. */
  lemma FormatNatIff(s: string, n: nat)
    ensures s == FormatNat(n) <==> s != "" && AllDigits(s) && Value(s) == n && (|s| > 1 ==> s[0] != '0')
  {
    ValueOfFormat(n);
    if n > 0 {
      PrintedIsCanonical(n);
    }
    if s != "" && AllDigits(s) && (|s| > 1 ==> s[0] != '0') {
      CanonicalIsPrinted(s);
    }
  }

  /** `n` without its last `i` digits. */
  function DropDigits(n: nat, i: nat): nat {
    if i == 0 then n else DropDigits(n / 10, i - 1)
  }

  /** Base-10 layout: the `i`-th character from the right is the `i`-th digit from the right. */
  lemma {:induction false} FormatNatLayout(n: nat, i: nat)
    requires i < |FormatNat(n)|
    ensures FormatNat(n)[|FormatNat(n)| - 1 - i] == "0123456789"[DropDigits(n, i) % 10]
  {
    if i == 0 {
    } else {
      FormatNatLayout(n / 10, i - 1);
    }
  }

  /** Signed text is a minus before the magnitude of negative integers, and nothing before the others. */
  lemma FormatIntLayout(n: nat)
    ensures FormatInt(n) == FormatNat(n)
    ensures n > 0 ==> FormatInt(0 - n as int) == "-" + FormatNat(n)
  {
  }

  function Zeros(k: nat): (s: string)
    ensures |s| == k
  {
    seq(k, _ => '0')
  }

  lemma {:induction false} LeadingZeros(k: nat, s: string)
    requires AllDigits(s)
    ensures AllDigits(Zeros(k) + s) && Value(Zeros(k) + s) == Value(s)
  {
    if s != "" {
      var n := |s| - 1;
      LeadingZeros(k, s[..n]);
      assert (Zeros(k) + s)[..k + n] == Zeros(k) + s[..n];
    } else if k > 0 {
      LeadingZeros(k - 1, s);
      assert (Zeros(k) + s)[..k - 1] == Zeros(k - 1) + s;
    }
  }

  /** A string of digits is some zeros before the printed form of what it denotes. */
  lemma {:induction false} DigitsAreZerosAndNumber(s: string) returns (k: nat)
    requires s != "" && AllDigits(s)
    ensures s == Zeros(k) + FormatNat(Value(s))
  {
    if |s| == 1 || s[0] != '0' {
      k := 0;
      CanonicalIsPrinted(s);
      assert Zeros(0) + s == s;
    } else {
      k := DigitsAreZerosAndNumber(s[1..]);
      LeadingZeros(1, s[1..]);
      assert s == Zeros(1) + s[1..];
      assert Zeros(1) + Zeros(k) == Zeros(k + 1);
      k := k + 1;
    }
  }

  /** `s` is the number `n`, possibly after zeros. */
  ghost predicate Denotes(s: string, n: nat) {
    exists k: nat :: s == Zeros(k) + FormatNat(n)
  }

  lemma DenotesIff(s: string, n: nat)
    ensures Denotes(s, n) <==> s != "" && AllDigits(s) && Value(s) == n
  {
    if k: nat :| s == Zeros(k) + FormatNat(n) {
      ValueOfFormat(n);
      LeadingZeros(k, FormatNat(n));
    }
    if s != "" && AllDigits(s) && Value(s) == n {
      var k := DigitsAreZerosAndNumber(s);
    }
  }

  /** An unsigned number is read exactly from its printed form after any number of zeros, below 2^64. */
  lemma ParseUintIff(s: string, n: UInt64)
    ensures ParseUint(s) == Some(n) <==> Denotes(s, n)
  {
    DenotesIff(s, n);
  }

  /** `s` is the integer `n`: its magnitude, possibly after zeros, and before it a minus, a plus or nothing. */
  ghost predicate DenotesInt(s: string, n: int) {
    || (n >= 0 && Denotes(s, n))
    || (n >= 0 && s != "" && s[0] == '+' && Denotes(s[1..], n))
    || (n <= 0 && s != "" && s[0] == '-' && Denotes(s[1..], -n))
  }

  /** A signed number is read exactly from such a string, within int64. */
  lemma AtoiIff(s: string, n: int)
    ensures Atoi(s) == Some(n) <==> -TWO_TO_THE_63 <= n < TWO_TO_THE_63 && DenotesInt(s, n)
  {
    hide Denotes, Value;
    var magnitude: nat := if n < 0 then -n else n;
    if s != "" && (s[0] == '-' || s[0] == '+') {
      assert !IsDigit(s[0]);
      DenotesIff(s[1..], magnitude);
      DenotesIff(s, magnitude);
    } else {
      DenotesIff(s, magnitude);
    }
  }

  /** Printing then parsing is the identity exactly on the unsigned 64-bit range. */
  lemma ParseUintOfFormat(n: nat)
    ensures ParseUint(FormatNat(n)) == if n < TWO_TO_THE_64 then Some(n) else None
  {
    ValueOfFormat(n);
  }

  lemma AtoiOfFormat(n: int)
    ensures Atoi(FormatInt(n)) == if -TWO_TO_THE_63 <= n < TWO_TO_THE_63 then Some(n) else None
  {
    var magnitude: nat := if n < 0 then -n else n;
    ValueOfFormat(magnitude);
    var s := FormatInt(n);
    if n < 0 {
      assert s[1..] == FormatNat(magnitude);
    } else {
      assert IsDigit(s[0]);
    }
  }

  /** The integer a signed decimal text denotes; the inverse of `FormatInt`, without a width. */
  function Meaning(s: string): int {
    if s != [] && s[0] == '-' then
      if AllDigits(s[1..]) then (var magnitude: int := Value(s[1..]); -magnitude) else 0
    else
      if AllDigits(s) then Value(s) else 0
  }

  lemma MeaningOfFormat(n: int)
    ensures Meaning(FormatInt(n)) == n
  {
    var s := FormatInt(n);
    if n < 0 {
      ValueOfFormat(-n);
      assert s[1..] == FormatNat(-n);
    } else {
      ValueOfFormat(n);
      assert IsDigit(s[0]);
    }
  }

  /** Signed printing never repeats: two integers with the same text are the same integer. */
  lemma FormatIntInjective(m: int, n: int)
    requires FormatInt(m) == FormatInt(n)
    ensures m == n
  {
    MeaningOfFormat(m);
    MeaningOfFormat(n);
  }

  /** The characters of a printed integer are digits and at most a leading minus. */
  lemma FormatIntCharacters(n: int, c: char)
    requires c in FormatInt(n)
    ensures IsDigit(c) || c == '-'
  {
    ValueOfFormat(if n < 0 then -n else n);
  }
}
