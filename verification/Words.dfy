/** The machine words of the library: 32-bit digits, their 16-bit halves and
    bytes, with wrap-around written out. */
module Words {
  import opened Arith

  const BASE: int := 0x1_0000_0000
  const HALF_BASE: int := 0x1_0000
  const DIGIT_BITS: nat := 32

  type Digit = x: int | 0 <= x < BASE
  type HalfDigit = x: int | 0 <= x < HALF_BASE
  type Byte = x: int | 0 <= x < 256

  const MAX_DIGIT: Digit := 0xffff_ffff
  const MAX_HALF_DIGIT: HalfDigit := 0xffff

  /** The result of an unsigned 32-bit operation whose exact value is x. */
  function Wrap(x: int): Digit {
    x % BASE
  }

  function LowHalf(x: Digit): HalfDigit {
    x % HALF_BASE
  }

  function HighHalf(x: Digit): HalfDigit {
    x / HALF_BASE
  }

  function ToHighHalf(x: int): Digit {
    Wrap(x * HALF_BASE)
  }

  // ---------- bitwise or ----------

  function Or(x: nat, y: nat): nat
    decreases x + y
  {
    if x == 0 && y == 0 then 0
    else (if x % 2 == 1 || y % 2 == 1 then 1 else 0) + 2 * Or(x / 2, y / 2)
  }

  /** An or of numbers whose set bits do not meet is their sum. */
  lemma {:induction false} OrDisjoint(x: nat, y: nat, k: nat)
    requires 0 < Pow(2, k)
    requires x % Pow(2, k) == 0 && y < Pow(2, k)
    ensures Or(x, y) == x + y
    decreases k
  {
    var m := Pow(2, k);
    if k == 0 {
      OrZero(x);
    } else {
      var h := Pow(2, k - 1);
      PowPositive(2, k - 1);
      var q := x / m;
      assert x == q * m == (q * h) * 2;
      assert x % 2 == 0 && x / 2 == q * h;
      ModMultipleIsZero(q, h);
      OrDisjoint(x / 2, y / 2, k - 1);
    }
  }

  lemma {:induction false} OrZero(x: nat)
    ensures Or(x, 0) == x
  {
    if x != 0 { OrZero(x / 2); }
  }
}
