/** Decimal text of natural numbers. */
module Decimals {
  function Digit(d: nat): char
    requires d < 10
  {
    '0' + d as char
  }

  function Decimal(n: nat): (text: string)
    ensures |text| > 0 && forall i :: 0 <= i < |text| ==> '0' <= text[i] <= '9'
  {
    if n < 10 then [Digit(n)] else Decimal(n / 10) + [Digit(n % 10)]
  }

  /** Decimal text of any integer. */
  function Number(n: int): string
  {
    if n < 0 then "-" + Decimal(-n) else Decimal(n)
  }

  /** The value a 64-bit signed integer holds after overflow. */
  function Wrapped(n: int): int
  {
    (n + 0x8000_0000_0000_0000) % 0x1_0000_0000_0000_0000 - 0x8000_0000_0000_0000
  }

  /** Numbers that begin with 1 are unbounded. */
  lemma BeginsWithOne(bound: nat) returns (n: nat)
    ensures n > bound && Decimal(n)[0] == '1'
  {
    n := 1;
    while n <= bound
      invariant n >= 1 && Decimal(n)[0] == '1'
      decreases bound - n
    {
      assert 10 * n / 10 == n;
      n := 10 * n;
    }
  }
}
