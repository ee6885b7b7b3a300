/** Decimal numbers as Rust prints and parses them. */
module Numbers {
  import opened Prelude

  const U64_LIMIT: nat := 0x1_0000_0000_0000_0000

  predicate IsDigit(c: char) { '0' <= c <= '9' }

  function DigitChar(d: nat): (c: char)
    requires d < 10
    ensures IsDigit(c) && DigitValue(c) == d
  {
    ['0', '1', '2', '3', '4', '5', '6', '7', '8', '9'][d]
  }

  function DigitValue(c: char): nat
    requires IsDigit(c)
  {
    c as int - '0' as int
  }

  predicate AllDigits(s: string) {
    forall i :: 0 <= i < |s| ==> IsDigit(s[i])
  }

  function Decimal(n: nat): (s: string)
    ensures s != [] && AllDigits(s)
  {
    if n < 10 then [DigitChar(n)] else Decimal(n / 10) + [DigitChar(n % 10)]
  }

  function Value(s: string): nat
    requires AllDigits(s)
  {
    if s == [] then 0 else 10 * Value(s[..|s| - 1]) + DigitValue(s[|s| - 1])
  }

  /** `str::parse::<u64>`: an optional plus sign, then at least one digit, without overflow. */
  function ParseU64(s: string): Option<nat> {
    var digits := if |s| > 1 && s[0] == '+' then s[1..] else s;
    if digits != [] && AllDigits(digits) && Value(digits) < U64_LIMIT then Some(Value(digits)) else None
  }

  lemma {:induction false} ValueOfDecimal(n: nat)
    ensures Value(Decimal(n)) == n
  {
    if n >= 10 {
      ValueOfDecimal(n / 10);
      var s := Decimal(n);
      assert s[..|s| - 1] == Decimal(n / 10);
    }
  }

  lemma ParseOfDecimal(n: nat)
    requires n < U64_LIMIT
    ensures ParseU64(Decimal(n)) == Some(n)
  {
    ValueOfDecimal(n);
    assert IsDigit(Decimal(n)[0]);
  }

  /** Exactly the numbers below 2^64 are read: digits, perhaps after a plus sign. */
  lemma ParseU64Iff(s: string, k: nat)
    ensures ParseU64(s) == Some(k) <==>
            k < U64_LIMIT && exists digits: string ::
              digits != [] && AllDigits(digits) && Value(digits) == k && (s == digits || s == "+" + digits)
  {
    if digits: string :| digits != [] && AllDigits(digits) && (s == digits || s == "+" + digits) {
      if s == digits {
        assert IsDigit(s[0]);
      } else {
        assert s[1..] == digits;
      }
    }
    if ParseU64(s) == Some(k) && |s| > 1 && s[0] == '+' {
      assert s == "+" + s[1..];
    }
  }

  // ----- ten digits to a ten

  /** One more digit, written last. */
  lemma DecimalStep(n: nat, d: nat)
    requires n > 0 && d < 10
    ensures Decimal(10 * n + d) == Decimal(n) + ["0123456789"[d]]
  {
    assert (10 * n + d) / 10 == n && (10 * n + d) % 10 == d;
  }

  lemma DecimalOfDigit(d: nat)
    requires d < 10
    ensures Decimal(d) == ["0123456789"[d]]
  {
  }

  /** One more digit read. */
  lemma ValueStep(s: string, d: nat)
    requires AllDigits(s) && d < 10
    ensures AllDigits(s + ["0123456789"[d]]) && Value(s + ["0123456789"[d]]) == 10 * Value(s) + d
  {
    assert (s + ["0123456789"[d]])[..|s|] == s;
  }
}
