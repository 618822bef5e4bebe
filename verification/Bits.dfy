/** Machine-word operations of the driver, given their arithmetic meaning: the bitwise and
    that the C code uses for masks and power-of-two tests, powers of two, `fls`, and the
    round-up-to-a-power-of-two helper built from shifts. */
module Bits {

  const U32 := 0x1_0000_0000

  /** Subtraction of 32-bit unsigned numbers. */
  function Sub32(a: nat, b: nat): (d: nat)
    ensures b <= a ==> a == d + b
    ensures a < U32 && b < U32 ==> d < U32
  {
    if b <= a then a - b else (a - b) % U32
  }

  function Pow2(k: nat): (p: nat)
    ensures p > 0
  {
    if k == 0 then 1 else 2 * Pow2(k - 1)
  }

  ghost predicate IsPow2(x: int) {
    exists k: nat :: x == Pow2(k)
  }

  /** C's `x & y` on non-negative operands, bit by bit. */
  function And(x: nat, y: nat): nat {
    if x == 0 || y == 0 then 0
    else 2 * And(x / 2, y / 2) + (if x % 2 == 1 && y % 2 == 1 then 1 else 0)
  }

  /** Masking with 2^k - 1 keeps the remainder modulo 2^k. */
  lemma {:induction false} AndMask(x: nat, k: nat)
    ensures And(x, Pow2(k) - 1) == x % Pow2(k)
  {
    if k == 0 {
      ModUnique(x, x, 0, 1);
    } else if x == 0 {
      ModUnique(0, 0, 0, Pow2(k));
    } else {
      hide And;
      AndMask(x / 2, k - 1);
      AndOdd(x, Pow2(k - 1));
      DoubleMod(x / 2, Pow2(k - 1), x % 2);
      assert Pow2(k) == 2 * Pow2(k - 1) && x == 2 * (x / 2) + x % 2;
    }
  }

  lemma AndOdd(x: nat, p: nat)
    requires x > 0 && p > 0
    ensures And(x, 2 * p - 1) == 2 * And(x / 2, p - 1) + x % 2
  {
    ModUnique(2 * p - 1, p - 1, 1, 2);
  }

  lemma DoubleMod(h: nat, p: nat, b: nat)
    requires p > 0 && b < 2
    ensures (2 * h + b) % (2 * p) == 2 * (h % p) + b
  {
    var q := h / p;
    assert 2 * h + b == q * (2 * p) + (2 * (h % p) + b) by {
      assert h == q * p + h % p;
      assert q * (2 * p) == 2 * (q * p);
    }
    ModUnique(2 * h + b, q, 2 * (h % p) + b, 2 * p);
  }

  lemma ModUnique(n: int, q: int, r: int, d: int)
    requires d > 0 && 0 <= r < d && n == q * d + r
    ensures n % d == r && n / d == q
  {
    var q', r' := n / d, n % d;
    assert (q - q') * d == r' - r;
    if q > q' {
      MulMono(1, q - q', d);
      assert false;
    } else if q < q' {
      MulMono(q - q', -1, d);
      assert false;
    }
  }

  lemma MulMono(a: int, b: int, d: int)
    requires a <= b && d >= 0
    ensures a * d <= b * d
  {
  }

  /** `(x & (x - 1)) == 0` is the driver's test for "zero or a power of two". */
  lemma {:induction false} AndPredecessor(x: nat)
    requires x > 0
    ensures And(x, x - 1) == 0 <==> IsPow2(x)
  {
    if x == 1 {
      assert Pow2(0) == 1;
    } else if x % 2 == 1 {
      assert (x - 1) / 2 == x / 2;
      AndSelf(x / 2);
      forall k: nat ensures x != Pow2(k) { if k > 0 { assert Pow2(k) % 2 == 0; } }
    } else {
      AndPredecessor(x / 2);
      assert (x - 1) / 2 == x / 2 - 1;
      if k: nat :| x / 2 == Pow2(k) { assert x == Pow2(k + 1); }
      if k: nat :| x == Pow2(k) { assert x / 2 == Pow2(k - 1); }
    }
  }

  lemma {:induction false} AndSelf(x: nat)
    ensures And(x, x) == x
  {
    if x > 0 { AndSelf(x / 2); }
  }

  /** Linux `fls`: the position of the highest set bit, counting from one. */
  function Fls(x: nat): nat {
    if x == 0 then 0 else 1 + Fls(x / 2)
  }

  lemma {:induction false} FlsBounds(x: nat)
    requires x > 0
    ensures Fls(x) > 0 && Pow2(Fls(x) - 1) <= x < Pow2(Fls(x))
  {
    if x > 1 { FlsBounds(x / 2); }
  }

  lemma {:induction false} Pow2Monotone(a: nat, b: nat)
    requires a < b
    ensures 2 * Pow2(a) <= Pow2(b)
  {
    if a + 1 < b { Pow2Monotone(a, b - 1); }
  }

  /** `get_next_powof2`: mask and shifts with the number of bits below the highest one. */
  function GetNextPowof2(value: nat): nat
    requires value > 0
  {
    FlsBounds(value);
    var unit := Pow2(Fls(value) - 1);
    QuotientNat(value + (unit - 1), unit);
    var units: nat := (value + (unit - 1)) / unit;
    units * unit
  }

  lemma QuotientNat(n: nat, d: nat)
    requires d > 0
    ensures n / d >= 0 && n / d * d >= 0
  {
  }

  lemma NextPowof2Is(value: nat)
    requires value > 0
    ensures Fls(value) > 0
    ensures var n := Fls(value) - 1;
            && Pow2(n) <= value < Pow2(n + 1)
            && GetNextPowof2(value) == if value == Pow2(n) then Pow2(n) else Pow2(n + 1)
  {
    hide Fls;
    FlsBounds(value);
    var unit := Pow2(Fls(value) - 1);
    assert Pow2(Fls(value)) == 2 * unit;
    if value == unit {
      ModUnique(value + (unit - 1), 1, unit - 1, unit);
    } else {
      ModUnique(value + (unit - 1), 2, value - unit - 1, unit);
    }
  }

  lemma LeastPow2(value: nat, n: nat, p: nat)
    requires IsPow2(p) && Pow2(n) <= value < Pow2(n + 1) && value <= p
    ensures Pow2(n) <= p && (value > Pow2(n) ==> Pow2(n + 1) <= p)
  {
    hide Pow2;
    var k: nat :| p == Pow2(k);
    if k < n { Pow2Monotone(k, n); }
    if n + 1 < k { Pow2Monotone(n + 1, k); }
  }

  /** The helper returns the least power of two that is not below its argument. */
  lemma NextPowof2IsLeast(value: nat)
    requires value > 0
    ensures IsPow2(GetNextPowof2(value)) && value <= GetNextPowof2(value)
    ensures forall p: nat :: IsPow2(p) && value <= p ==> GetNextPowof2(value) <= p
  {
    NextPowof2Is(value);
    hide Pow2, Fls, GetNextPowof2;
    var n := Fls(value) - 1;
    forall p: nat | IsPow2(p) && value <= p ensures GetNextPowof2(value) <= p {
      LeastPow2(value, n, p);
    }
  }
}
