/** Decimal printing and parsing of integers: strconv.Itoa and strconv.Atoi. */
module Decimal {
  import opened Api

  const MAX_INT64: int := 0x7fff_ffff_ffff_ffff
  const MIN_INT64: int := -0x8000_0000_0000_0000

  predicate FitsInt64(n: int) { MIN_INT64 <= n <= MAX_INT64 }

  predicate IsDigit(c: char) { '0' <= c <= '9' }

  predicate AllDigits(s: string) { forall i :: 0 <= i < |s| ==> IsDigit(s[i]) }

  function DigitValue(c: char): int
    requires IsDigit(c)
  {
    c as int - '0' as int
  }

  function DigitChar(d: nat): (c: char)
    requires d < 10
    ensures IsDigit(c) && DigitValue(c) == d
  {
    ('0' as int + d) as char
  }

  function Digits(n: nat): (s: string)
    ensures |s| > 0 && AllDigits(s)
  {
    if n < 10 then [DigitChar(n)] else Digits(n / 10) + [DigitChar(n % 10)]
  }

  function Itoa(n: int): string {
    if n < 0 then "-" + Digits(-n) else Digits(n)
  }

  function Value(s: string): nat
    requires AllDigits(s)
  {
    if s == "" then 0 else 10 * Value(s[..|s| - 1]) + DigitValue(s[|s| - 1])
  }

  /** An optional sign, at least one digit and nothing else, within 64 bits. */
  function Atoi(s: string): Option<int> {
    var signed := |s| > 0 && (s[0] == '-' || s[0] == '+');
    var body := if signed then s[1..] else s;
    if body == "" || !AllDigits(body) then None
    else
      var v: int := Value(body);
      var n := if signed && s[0] == '-' then -v else v;
      if FitsInt64(n) then Some(n) else None
  }

  lemma {:induction false} ValueOfDigits(n: nat)
    ensures Value(Digits(n)) == n
  {
    if n < 10 {
      assert Digits(n)[..0] == "";
    } else {
      ValueOfDigits(n / 10);
      assert Digits(n)[..|Digits(n)| - 1] == Digits(n / 10);
    }
  }

  /** `v` shifted left by `k` decimal places. */
  function Shifted(v: nat, k: nat): nat {
    if k == 0 then v else 10 * Shifted(v, k - 1)
  }

  lemma {:induction false} ValueOfConcat(a: string, b: string)
    requires AllDigits(a) && AllDigits(b)
    ensures AllDigits(a + b) && Value(a + b) == Shifted(Value(a), |b|) + Value(b)
  {
    if b == "" {
      assert a + b == a;
    } else {
      var init := b[..|b| - 1];
      ValueOfConcat(a, init);
      assert (a + b)[..|a + b| - 1] == a + init;
    }
  }

  lemma {:induction false} ValuePositive(s: string)
    requires AllDigits(s) && s != "" && s[0] != '0'
    ensures Value(s) > 0
  {
    if |s| == 1 {
      assert s[..0] == "";
    } else {
      ValuePositive(s[..|s| - 1]);
    }
  }

  lemma {:induction false} NoLeadingZero(n: nat)
    ensures Digits(n)[0] == '0' <==> n == 0
  {
    if n < 10 {
    } else {
      NoLeadingZero(n / 10);
    }
  }

  /** Digits without a leading zero are the decimal form of their value. */
  lemma {:induction false} DigitsOfValue(s: string)
    requires AllDigits(s) && s != "" && (|s| == 1 || s[0] != '0')
    ensures Digits(Value(s)) == s
  {
    var init, c := s[..|s| - 1], s[|s| - 1];
    if |s| == 1 {
      assert init == "";
    } else {
      ValuePositive(init);
      DigitsOfValue(init);
      assert Value(s) / 10 == Value(init) && Value(s) % 10 == DigitValue(c);
    }
  }

  /** The decimal form of a number is the one text of digits without a leading zero
      that has its value. */
  lemma PrintedExactly(n: nat, s: string)
    ensures Digits(n) == s <==> AllDigits(s) && s != "" && (|s| == 1 || s[0] != '0') && Value(s) == n
  {
    ValueOfDigits(n);
    NoLeadingZero(n);
    if AllDigits(s) && s != "" && (|s| == 1 || s[0] != '0') {
      DigitsOfValue(s);
    }
  }

  lemma ItoaInjective(m: int, n: int)
    ensures Itoa(m) == Itoa(n) <==> m == n
  {
    if Itoa(m) == Itoa(n) {
      assert Itoa(m)[0] == Itoa(n)[0];
      assert m < 0 ==> Itoa(m)[1..] == Digits(-m);
      assert n < 0 ==> Itoa(n)[1..] == Digits(-n);
      ValueOfDigits(if m < 0 then -m else m);
      ValueOfDigits(if n < 0 then -n else n);
    }
  }

  /** Printing then parsing gives the number back exactly when it has 64 bits. */
  lemma AtoiOfItoa(n: int)
    ensures Atoi(Itoa(n)) == if FitsInt64(n) then Some(n) else None
  {
    var s := Itoa(n);
    ValueOfDigits(if n < 0 then -n else n);
    if n < 0 {
      assert s[1..] == Digits(-n);
    } else {
      assert IsDigit(s[0]);
    }
  }

  /** `s` writes `n` as digits after an optional sign. */
  predicate Writes(s: string, n: int, digits: string) {
    && digits != "" && AllDigits(digits)
    && (((s == digits || s == "+" + digits) && n == Value(digits)) || (s == "-" + digits && n == 0 - Value(digits)))
  }

  /** A text is read as a number exactly when it writes it and the number has 64 bits. */
  lemma AtoiExactly(s: string, n: int)
    ensures Atoi(s) == Some(n) <==> FitsInt64(n) && exists digits :: Writes(s, n, digits)
  {
    if Atoi(s) == Some(n) {
      var signed := s[0] == '-' || s[0] == '+';
      var digits := if signed then s[1..] else s;
      assert s == if signed then [s[0]] + digits else digits;
      assert Writes(s, n, digits);
    }
    if digits :| Writes(s, n, digits) {
      assert IsDigit(digits[0]);
      assert s != digits ==> s[1..] == digits;
    }
  }
}
