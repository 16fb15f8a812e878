/** Decimal numbers: how the program prints them and how it reads them back in wrapping 32-bit arithmetic. */
module Numbers {
  import opened Basics

  /** Unchecked 32-bit arithmetic wraps around. */
  function Wrap32(x: int): int32 { (x + 0x8000_0000) % 0x1_0000_0000 - 0x8000_0000 }

  predicate IsDigit(c: char) { '0' <= c <= '9' }

  predicate AllDigits(s: string) { forall c <- s :: IsDigit(c) }

  function Digit(c: char): nat
    requires IsDigit(c)
  {
    c as int - '0' as int
  }

  /** The number a string of digits denotes; the empty string denotes zero. */
  function Value(s: string): nat
    requires AllDigits(s)
  {
    if s == [] then 0 else 10 * Value(s[..|s| - 1]) + Digit(s[|s| - 1])
  }

  /** What the reading loop computes: nothing for other characters, else the value modulo 2^32. */
  function Number(s: string): Option<int32> {
    if AllDigits(s) then Some(Wrap32(Value(s))) else None
  }

  // ---- reading ----

  function Power10(n: nat): nat { if n == 0 then 1 else 10 * Power10(n - 1) }

  lemma {:induction false} ValuePrepends(c: char, s: string)
    requires IsDigit(c) && AllDigits(s)
    ensures Value([c] + s) == Digit(c) * Power10(|s|) + Value(s)
  {
    if s != [] {
      var front := s[..|s| - 1];
      assert ([c] + s)[..|s|] == [c] + front;
      ValuePrepends(c, front);
    }
  }

  lemma WrapPeriod(x: int, k: int)
    ensures Wrap32(x + k * 0x1_0000_0000) == Wrap32(x)
  {}

  /** Wrapping before the sum and the product does not change the wrapped result. */
  lemma WrapStep(value: int, digit: nat, power: int)
    ensures Wrap32(Wrap32(value) + Wrap32(digit * Wrap32(power))) == Wrap32(value + digit * power)
    ensures Wrap32(Wrap32(power) * 10) == Wrap32(power * 10)
  {
    var v := (value + 0x8000_0000) / 0x1_0000_0000;
    var p := (power + 0x8000_0000) / 0x1_0000_0000;
    var low: int := Wrap32(power);
    assert Wrap32(value) == value - v * 0x1_0000_0000 && low == power - p * 0x1_0000_0000;
    WrapPeriod(low * 10, 10 * p);
    var d := (digit * low + 0x8000_0000) / 0x1_0000_0000;
    assert Wrap32(digit * low) == digit * low - d * 0x1_0000_0000;
    Distribute(digit, power, p);
    WrapPeriod(value + digit * power, -(v + d + digit * p));
  }

  lemma Distribute(digit: nat, power: int, p: int)
    ensures digit * (power - p * 0x1_0000_0000) == digit * power - (digit * p) * 0x1_0000_0000
  {}

  /** Reads from the last digit to the first; both the sum and the multiplier may wrap around. */
  method TryParseSpanToNumber(data: string) returns (ok: bool, result: int32)
    ensures ok == Number(data).Some?
    ensures ok ==> Some(result) == Number(data)
  {
    var multip: int32 := 1;
    result := 0;
    var i := |data| - 1;
    while i >= 0
      invariant -1 <= i < |data|
      invariant AllDigits(data[i + 1..])
      invariant result == Wrap32(Value(data[i + 1..]))
      invariant multip == Wrap32(Power10(|data| - 1 - i))
    {
      var ch := data[i];
      ghost var rest := data[i + 1..];
      assert data[i..] == [ch] + rest;
      if ch >= '0' && ch <= '9' {
        WrapStep(Value(rest), Digit(ch), Power10(|rest|));
        ValuePrepends(ch, rest);
        result := Wrap32(result + Wrap32((ch as int - '0' as int) * multip));
      } else {
        assert ch in data;
        return false, result;
      }
      multip := Wrap32(multip * 10);
      i := i - 1;
    }
    assert data[0..] == data;
    return true, result;
  }

  // ---- printing ----

  function Decimal(n: nat): string {
    if n < 10 then [('0' as int + n) as char] else Decimal(n / 10) + [('0' as int + n % 10) as char]
  }

  function Print(x: int): string {
    if x < 0 then "-" + Decimal(-x) else Decimal(x)
  }

  lemma {:induction false} DecimalDenotes(n: nat)
    ensures Decimal(n) != [] && AllDigits(Decimal(n)) && Value(Decimal(n)) == n
  {
    if n < 10 {
      assert Decimal(n)[..0] == [];
      assert Value([]) == 0;
    } else {
      DecimalDenotes(n / 10);
      assert Decimal(n)[..|Decimal(n)| - 1] == Decimal(n / 10);
    }
  }

  /** Exactly the non-negative numbers are read back, and then as what was printed. */
  lemma PrintedNumber(x: int32)
    ensures Number(Print(x)) == if x >= 0 then Some(x) else None
  {
    if x >= 0 {
      DecimalDenotes(x);
    } else {
      assert Print(x)[0] in Print(x);
    }
  }
}
