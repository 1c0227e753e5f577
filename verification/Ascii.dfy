/** Decimal numbers in text, as atoi reads them and printf writes them. */
module Ascii {
  import opened Bytes

  const SPACE: Byte := 32
  const PLUS: Byte := 43
  const MINUS: Byte := 45
  const DIGIT_0: Byte := 48

  predicate IsDigit(b: Byte) { DIGIT_0 <= b < DIGIT_0 + 10 }

  predicate IsSpace(b: Byte) { b == SPACE || 9 <= b <= 13 }

  /** The digits at the front of the text, after the number read so far. */
  function Digits(s: Octets, acc: nat): nat {
    if s == [] || !IsDigit(s[0]) then acc else Digits(s[1..], 10 * acc + (s[0] - DIGIT_0))
  }

  function Atoi(s: Octets): int {
    if s == [] then 0
    else if IsSpace(s[0]) then Atoi(s[1..])
    else if s[0] == MINUS then 0 - Digits(s[1..], 0)
    else if s[0] == PLUS then Digits(s[1..], 0)
    else Digits(s, 0)
  }

  function Dec(n: nat): (s: Octets)
    ensures s != [] && forall i :: 0 <= i < |s| ==> IsDigit(s[i])
  {
    if n < 10 then [DIGIT_0 + n] else Dec(n / 10) + [DIGIT_0 + n % 10]
  }

  lemma {:induction false} DigitsOfDec(n: nat, rest: Octets)
    requires rest == [] || !IsDigit(rest[0])
    ensures Digits(Dec(n) + rest, 0) == n
  {
    DigitsThen(Dec(n), rest, 0);
    DecValue(n);
  }

  lemma {:induction false} DigitsThen(s: Octets, rest: Octets, acc: nat)
    requires forall i :: 0 <= i < |s| ==> IsDigit(s[i])
    requires rest == [] || !IsDigit(rest[0])
    ensures Digits(s + rest, acc) == Digits(s, acc)
    decreases |s|
  {
    if s == [] {
      assert s + rest == rest;
    } else {
      DigitsThen(s[1..], rest, 10 * acc + (s[0] - DIGIT_0));
      assert (s + rest)[1..] == s[1..] + rest;
    }
  }

  lemma {:induction false} DigitsLast(s: Octets, d: Byte, acc: nat)
    requires IsDigit(d) && forall i :: 0 <= i < |s| ==> IsDigit(s[i])
    ensures Digits(s + [d], acc) == 10 * Digits(s, acc) + (d - DIGIT_0)
    decreases |s|
  {
    if s == [] {
      assert s + [d] == [d] && [d][1..] == [];
    } else {
      DigitsLast(s[1..], d, 10 * acc + (s[0] - DIGIT_0));
      assert (s + [d])[1..] == s[1..] + [d];
    }
  }

  lemma {:induction false} DecValue(n: nat)
    ensures Digits(Dec(n), 0) == n
  {
    if n < 10 {
      assert Dec(n)[1..] == [];
    } else {
      DecValue(n / 10);
      DigitsLast(Dec(n / 10), DIGIT_0 + n % 10, 0);
    }
  }

  /** A printed number is read back, up to whatever byte follows that is no digit. */
  lemma AtoiOfDec(n: nat)
    ensures Atoi(Dec(n)) == n
    ensures forall rest: Octets :: rest != [] && !('0' as int <= rest[0] <= '9' as int) ==> Atoi(Dec(n) + rest) == n
  {
    DecValue(n);
    forall rest: Octets | rest != [] && !('0' as int <= rest[0] <= '9' as int) ensures Atoi(Dec(n) + rest) == n {
      DigitsOfDec(n, rest);
    }
  }

  /** Blanks in front of the number are skipped, and one sign is heeded. */
  lemma {:induction false} AtoiSigned(blanks: Octets, n: nat)
    requires forall i :: 0 <= i < |blanks| ==> blanks[i] == ' ' as int || '\t' as int <= blanks[i] <= '\r' as int
    ensures Atoi(blanks + Dec(n)) == n
    ensures Atoi(blanks + ['-' as int] + Dec(n)) == 0 - n
    ensures Atoi(blanks + ['+' as int] + Dec(n)) == n
    decreases |blanks|
  {
    hide Dec, Digits;
    if blanks == [] {
      AtoiOfDec(n);
      DecValue(n);
      assert [] + Dec(n) == Dec(n);
      assert ([] + ['-' as int] + Dec(n))[1..] == Dec(n) && ([] + ['+' as int] + Dec(n))[1..] == Dec(n);
    } else {
      AtoiSigned(blanks[1..], n);
      assert (blanks + Dec(n))[1..] == blanks[1..] + Dec(n);
      assert (blanks + ['-' as int] + Dec(n))[1..] == blanks[1..] + ['-' as int] + Dec(n);
      assert (blanks + ['+' as int] + Dec(n))[1..] == blanks[1..] + ['+' as int] + Dec(n);
    }
  }

  lemma {:induction false} DecLength(n: nat, k: nat)
    requires k > 0 && n < Pow10(k)
    ensures |Dec(n)| <= k
  {
    if n < 10 {
    } else {
      DecLength(n / 10, k - 1);
    }
  }

  lemma TenDigits(n: nat)
    requires n < 0x1_0000_0000
    ensures |Dec(n)| <= 10
  {
    hide Dec;
    assert Pow10(4) == 10_000;
    assert Pow10(7) == 10_000_000;
    assert Pow10(10) == 10_000_000_000;
    DecLength(n, 10);
  }
}
