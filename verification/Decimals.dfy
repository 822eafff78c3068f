/** Decimal numbers in names, as ASCII bytes. */
module Decimals {
  import opened Common
  import opened Lex

  const PLUS: Byte := 43
  const ZERO: Byte := 48

  predicate IsDigit(c: Byte) { ZERO <= c <= ZERO + 9 }

  /** Decimal digits without leading zeros. */
  function Decimal(n: nat): (s: Bytes)
    ensures s != [] && forall i | 0 <= i < |s| :: IsDigit(s[i])
  {
    if n < 10 then [ZERO + n] else Decimal(n / 10) + [ZERO + n % 10]
  }

  /** `{:04}`: at least four digits. */
  function Padded(n: nat): (s: Bytes)
    ensures s != [] && forall i | 0 <= i < |s| :: IsDigit(s[i])
  {
    Zeros(if |Decimal(n)| < 4 then 4 - |Decimal(n)| else 0) + Decimal(n)
  }

  function Zeros(n: nat): (s: Bytes)
    ensures |s| == n && forall i | 0 <= i < |s| :: s[i] == ZERO
  {
    if n == 0 then [] else [ZERO] + Zeros(n - 1)
  }

  function Value(s: Bytes): int {
    if s == [] then 0 else 10 * Value(s[..|s| - 1]) + (s[|s| - 1] - ZERO)
  }

  /** `str::parse::<usize>`: an optional plus sign, then digits only, at least one, and a value of 64 bits. */
  function ParseUsize(s: Bytes): Option<nat> {
    var digits := if |s| > 1 && s[0] == PLUS then s[1..] else s;
    if digits != [] && (forall i | 0 <= i < |digits| :: IsDigit(digits[i])) && 0 <= Value(digits) < U64_LIMIT
    then Some(Value(digits)) else None
  }

  lemma {:induction false} ValueOfDecimal(n: nat)
    ensures Value(Decimal(n)) == n
  {
    if n >= 10 {
      var s := Decimal(n / 10);
      assert (s + [ZERO + n % 10])[..|s|] == s;
      ValueOfDecimal(n / 10);
    } else {
      assert Decimal(n)[..0] == [];
    }
  }

  lemma {:induction false} ValueOfZeros(n: nat, s: Bytes)
    ensures Value(Zeros(n) + s) == Value(s)
    decreases n + |s|
  {
    var z := Zeros(n);
    if s != [] {
      assert (z + s)[..|z + s| - 1] == z + s[..|s| - 1];
      ValueOfZeros(n, s[..|s| - 1]);
    } else if n > 0 {
      assert z + s == z;
      assert z[..n - 1] == Zeros(n - 1) + [];
      ValueOfZeros(n - 1, []);
    } else {
      assert z + s == s;
    }
  }

  /** Padding never changes the number read back. */
  lemma ParsePadded(n: nat)
    requires n < U64_LIMIT
    ensures ParseUsize(Padded(n)) == Some(n) && ParseUsize(Decimal(n)) == Some(n)
  {
    ValueOfDecimal(n);
    ValueOfZeros(if |Decimal(n)| < 4 then 4 - |Decimal(n)| else 0, Decimal(n));
    assert IsDigit(Padded(n)[0]) && IsDigit(Decimal(n)[0]);
  }

  ghost predicate Digits(s: Bytes) { forall i | 0 <= i < |s| :: IsDigit(s[i]) }

  /** Of two numerals of one width, the one that is smaller at the first difference is the smaller number. */
  lemma {:induction false} ValueOrder(s: Bytes, t: Bytes, i: nat)
    requires |s| == |t| && Digits(s) && Digits(t) && PartsAt(s, t, i)
    ensures Value(s) < Value(t)
    decreases |s|
  {
    var n := |s| - 1;
    if i == n {
      assert s[..n] == t[..n];
    } else {
      assert s[..n][..i] == s[..i] && t[..n][..i] == t[..i];
      ValueOrder(s[..n], t[..n], i);
    }
  }

  /** Padding makes names sort like their numbers, as long as both have the same width. */
  lemma PaddedOrder(a: nat, b: nat)
    requires a < b && |Padded(a)| == |Padded(b)|
    ensures Less(Padded(a), Padded(b))
  {
    var s, t := Padded(a), Padded(b);
    PaddedValue(a);
    PaddedValue(b);
    Trichotomy(s, t);
    if Less(t, s) {
      LessMeans(t, s);
      var i: nat :| PartsAt(t, s, i);
      ValueOrder(t, s, i);
    }
  }

  lemma PaddedValue(n: nat)
    ensures Value(Padded(n)) == n
  {
    ValueOfDecimal(n);
    ValueOfZeros(if |Decimal(n)| < 4 then 4 - |Decimal(n)| else 0, Decimal(n));
  }

  /** Four digits reach up to 9999. */
  lemma PaddedWidth(n: nat)
    ensures |Padded(n)| >= 4 && (|Padded(n)| == 4 <==> n < 10000)
  {
    var d := Decimal(n);
    DecimalWidth(n);
    DecimalWidth(n / 10);
    DecimalWidth(n / 100);
    DecimalWidth(n / 1000);
    assert n / 10 / 10 == n / 100 && n / 100 / 10 == n / 1000;
  }

  lemma DecimalWidth(n: nat)
    ensures |Decimal(n)| == if n < 10 then 1 else 1 + |Decimal(n / 10)|
  {
  }
}
