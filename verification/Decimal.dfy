/** Decimal numbers as `printf` writes them and `atoi` reads them. */
module Decimal {
  function DigitChar(d: nat): char
    requires d < 10
  {
    '0' + d as char
  }

  predicate IsDigit(c: char) {
    '0' <= c <= '9'
  }

  ghost predicate AllDigits(s: string) {
    forall k :: 0 <= k < |s| ==> IsDigit(s[k])
  }

  function Digits(n: nat): (s: string)
    ensures s != "" && AllDigits(s)
  {
    if n < 10 then [DigitChar(n)] else Digits(n / 10) + [DigitChar(n % 10)]
  }

  /** `%d` and its relatives. */
  function Dec(n: int): (s: string)
    ensures s != "" && forall k :: 0 <= k < |s| ==> IsDigit(s[k]) || s[k] == '-'
  {
    if n < 0 then "-" + Digits(-n) else Digits(n)
  }

  function Pow10(k: nat): nat {
    if k == 0 then 1 else 10 * Pow10(k - 1)
  }

  lemma IntegerWidths()
    ensures Pow10(10) > 0x1_0000_0000 && Pow10(19) > 0x8000_0000_0000_0000
  {
    assert Pow10(4) == 10 * Pow10(3) == 10_000;
    assert Pow10(7) == 10_000_000;
    assert Pow10(10) == 10_000_000_000;
    assert Pow10(13) == 10_000_000_000_000;
    assert Pow10(16) == 10_000_000_000_000_000;
    assert Pow10(19) == 10_000_000_000_000_000_000;
  }

  lemma {:induction false} DigitsLength(n: nat, k: nat)
    requires k > 0 && n < Pow10(k)
    ensures |Digits(n)| <= k
  {
    assert Pow10(1) == 10 * Pow10(0) == 10;
    if n >= 10 {
      DigitsLength(n / 10, k - 1);
    }
  }

  /** Reads digits onto `acc` until something else comes. */
  function ReadDigits(s: string, acc: nat): nat {
    if s == "" || !IsDigit(s[0]) then acc
    else ReadDigits(s[1..], 10 * acc + (s[0] - '0') as nat)
  }

  function Atoi(s: string): int {
    if s == "" then 0
    else if s[0] == ' ' || '\t' <= s[0] <= '\r' then Atoi(s[1..])
    else if s[0] == '-' then -(ReadDigits(s[1..], 0) as int)
    else if s[0] == '+' then ReadDigits(s[1..], 0)
    else ReadDigits(s, 0)
  }

  lemma {:induction false} ReadLastDigit(s: string, acc: nat, d: nat)
    requires d < 10 && AllDigits(s)
    ensures ReadDigits(s + [DigitChar(d)], acc) == 10 * ReadDigits(s, acc) + d
  {
    var t := s + [DigitChar(d)];
    if s == "" {
      assert t[1..] == "";
    } else {
      assert t[1..] == s[1..] + [DigitChar(d)];
      ReadLastDigit(s[1..], 10 * acc + (s[0] - '0') as nat, d);
    }
  }

  lemma {:induction false} ReadBack(n: nat)
    ensures ReadDigits(Digits(n), 0) == n
  {
    if n >= 10 {
      ReadBack(n / 10);
      ReadLastDigit(Digits(n / 10), 0, n % 10);
    }
  }

  lemma AtoiOfDec(n: int)
    ensures Atoi(Dec(n)) == n
  {
    if n < 0 {
      ReadBack(-n);
      assert Dec(n)[1..] == Digits(-n);
    } else {
      ReadBack(n);
    }
  }

  /** Decimal digits, the leading minus, and nothing else. */
  lemma DecMeans(n: nat, d: nat)
    requires d < 10
    ensures Dec(d) == ["0123456789"[d]]
    ensures n > 0 ==> Dec(10 * n + d) == Dec(n) + ["0123456789"[d]] && Dec(0 - n) == "-" + Dec(n)
  {
    assert (10 * n + d) / 10 == n && (10 * n + d) % 10 == d;
  }
}
