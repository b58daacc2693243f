// Powers of two, bitwise or, and facts about integer division that the solver does not find by itself.
module Arith {

  lemma MulAtLeast(a: int, d: int)
    requires a >= 1 && d > 0
    ensures a * d >= d
  {
  }

  /** Quotient and remainder are unique. */
  lemma DivModUnique(x: int, q: int, r: int, d: int)
    requires d > 0 && 0 <= r < d && x == q * d + r
    ensures x % d == r && x / d == q
  {
    var p, t := x / d, x % d;
    assert (p - q) * d == r - t && (q - p) * d == t - r;
    if p > q {
      MulAtLeast(p - q, d);
    } else if p < q {
      MulAtLeast(q - p, d);
    }
  }

  lemma ModShift(x: int, m: int, d: int)
    requires d > 0
    ensures (x + m * d) % d == x % d
  {
    assert (x / d + m) * d == x / d * d + m * d;
    DivModUnique(x + m * d, x / d + m, x % d, d);
  }

  /** Reduction modulo a multiple of `d` first makes no difference. */
  lemma ModOfMod(x: int, d: int, m: int)
    requires d > 0 && m > 0
    ensures d * m > 0 && (x % (d * m)) % d == x % d
  {
    MulAtLeast(m, d);
    var e := d * m;
    var k := x / e;
    assert x == x % e + k * e;
    assert k * e == (k * m) * d by { assert k * (d * m) == (k * m) * d; }
    ModShift(x % e, k * m, d);
  }

  lemma ModAddMod(x: int, y: int, d: int)
    requires d > 0
    ensures (x % d + y) % d == (x + y) % d
  {
    ModShift(x % d + y, x / d, d);
  }

  function Pow2(k: nat): (p: nat) ensures p > 0 { if k == 0 then 1 else 2 * Pow2(k - 1) }

  lemma Pow2Next(k: nat)
    ensures Pow2(k + 1) == 2 * Pow2(k)
  {
  }

  lemma {:induction false} Pow2Grows(a: nat, b: nat)
    requires a <= b
    ensures Pow2(a) <= Pow2(b)
    decreases b - a
  {
    if a == b {
    } else {
      Pow2Grows(a, b - 1);
    }
  }

  lemma {:induction false} Pow2Multiple(from: nat, k: nat) returns (q: nat)
    requires from <= k
    ensures Pow2(k) == q * Pow2(from) && q > 0
    decreases k
  {
    if from == k {
      q := 1;
    } else {
      var q' := Pow2Multiple(from, k - 1);
      q := 2 * q';
    }
  }

  /** Bitwise or. */
  function Or(x: nat, y: nat): nat
  {
    if x == 0 then y else if y == 0 then x
    else 2 * Or(x / 2, y / 2) + if x % 2 == 1 || y % 2 == 1 then 1 else 0
  }

  lemma {:induction false} OrWithZero(x: nat)
    ensures Or(x, 0) == x && Or(0, x) == x
  {
  }

  lemma OrDouble(z: nat, y: nat)
    ensures Or(2 * z, y) == 2 * Or(z, y / 2) + y % 2
  {
    OrWithZero(y);
    OrWithZero(z);
  }

  /** High and low parts that do not overlap add up. */
  lemma {:induction false} OrDisjoint(x: nat, k: nat, y: nat)
    requires y < Pow2(k)
    ensures Or(x * Pow2(k), y) == x * Pow2(k) + y
    decreases k
  {
    hide Or;
    if k == 0 {
      assert x * Pow2(0) == x;
      OrWithZero(x);
    } else {
      var z := x * Pow2(k - 1);
      assert x * Pow2(k) == 2 * z;
      OrDisjoint(x, k - 1, y / 2);
      OrDouble(z, y);
    }
  }

  lemma {:induction false} OrCommutes(x: nat, y: nat)
    ensures Or(x, y) == Or(y, x)
    decreases x
  {
    if x > 0 && y > 0 {
      OrCommutes(x / 2, y / 2);
    }
  }
}
