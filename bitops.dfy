/**
 * Unsigned C integer types and the C bit operators on them.
 *
 * The driver builds and takes apart bytes with `<<`, `>>`, `|` and `&`.
 * These are defined here on natural numbers, literally (Or and And bit by
 * bit), and the lemmas below say what they amount to when the operands
 * occupy disjoint bits or when a mask selects a field; every module that
 * models a bit expression of the source goes through them.
 */
module BitOps {

  type u8 = x: int | 0 <= x < 0x100
  type u16 = x: int | 0 <= x < 0x1_0000
  type u32 = x: int | 0 <= x < 0x1_0000_0000

  const U16_MAX: u16 := 0xFFFF
  const U32_MAX: u32 := 0xFFFF_FFFF

  function Pow2(n: nat): (r: nat)
    ensures r >= 1
  {
    if n == 0 then 1 else 2 * Pow2(n - 1)
  }

  /** `x << n` for an operand whose result does not overflow. */
  function Shl(x: nat, n: nat): nat
  {
    x * Pow2(n)
  }

  /** `x >> n` on an unsigned operand. */
  function Shr(x: nat, n: nat): nat
  {
    var d := Pow2(n);
    DivNonNegative(x, d);
    x / d
  }

  /** Bitwise `|`. */
  function Or(a: nat, b: nat): nat
    decreases a + b
  {
    if a == 0 then b
    else if b == 0 then a
    else 2 * Or(a / 2, b / 2) + (if a % 2 == 1 || b % 2 == 1 then 1 else 0)
  }

  /** Bitwise `&`. */
  function And(a: nat, b: nat): nat
    decreases a + b
  {
    if a == 0 || b == 0 then 0
    else 2 * And(a / 2, b / 2) + (if a % 2 == 1 && b % 2 == 1 then 1 else 0)
  }

  lemma Pow2Add(m: nat, n: nat)
    ensures Pow2(m + n) == Pow2(m) * Pow2(n)
  {
    if m > 0 {
      Pow2Add(m - 1, n);
    }
  }

  lemma Pow2Values()
    ensures Pow2(1) == 2 && Pow2(2) == 4 && Pow2(3) == 8 && Pow2(4) == 16
    ensures Pow2(8) == 0x100 && Pow2(12) == 0x1000 && Pow2(16) == 0x1_0000
    ensures Pow2(24) == 0x100_0000 && Pow2(32) == 0x1_0000_0000
  {
    Pow2Add(8, 4);
    Pow2Add(8, 8);
    Pow2Add(16, 8);
    Pow2Add(16, 16);
  }

  lemma {:induction false} OrComm(a: nat, b: nat)
    ensures Or(a, b) == Or(b, a)
    decreases a + b
  {
    if a != 0 && b != 0 {
      OrComm(a / 2, b / 2);
    }
  }

  /** When `b` fits below bit `k`, `(a << k) | b` is a sum. */
  lemma {:induction false} OrDisjoint(a: nat, k: nat, b: nat)
    requires b < Pow2(k)
    ensures Or(a * Pow2(k), b) == a * Pow2(k) + b
  {
    if k == 0 {
      assert b == 0;
    } else if a * Pow2(k) != 0 && b != 0 {
      var x := a * Pow2(k);
      assert x == 2 * (a * Pow2(k - 1));
      assert x / 2 == a * Pow2(k - 1) && x % 2 == 0;
      OrDisjoint(a, k - 1, b / 2);
    }
  }

  /** The same, with the low part written first: `b | (a << k)`. */
  lemma OrDisjointLowFirst(b: nat, a: nat, k: nat)
    requires b < Pow2(k)
    ensures Or(b, a * Pow2(k)) == a * Pow2(k) + b
  {
    OrComm(b, a * Pow2(k));
    OrDisjoint(a, k, b);
  }

  /**
   * A mask of m one-bits starting at bit k selects that field:
   * `x & (((1 << m) - 1) << k) == ((x >> k) mod 2^m) << k`.
   */
  lemma {:induction false} AndField(x: nat, m: nat, k: nat)
    ensures And(x, (Pow2(m) - 1) * Pow2(k)) == (x / Pow2(k)) % Pow2(m) * Pow2(k)
  {
    if k == 0 {
      assert Pow2(k) == 1;
      DivModUnique(x, 1, x, 0);
      AndLow(x, m);
    } else if m == 0 {
      assert Pow2(m) == 1;
      DivModUnique(x / Pow2(k), 1, x / Pow2(k), 0);
    } else if x == 0 {
      DivModUnique(0, Pow2(k), 0, 0);
      DivModUnique(0, Pow2(m), 0, 0);
    } else {
      var p := Pow2(k - 1);
      AndFieldStep(x, Pow2(m) - 1, p);
      AndField(x / 2, m, k - 1);
      DivDiv(x, 2, p);
      Twice((x / Pow2(k)) % Pow2(m), p);
    }
  }

  /** One bit of the mask walk: an even mask drops x's low bit. */
  lemma AndFieldStep(x: nat, ones: nat, p: nat)
    requires x > 0 && ones > 0 && p > 0
    ensures And(x, ones * (2 * p)) == 2 * And(x / 2, ones * p)
  {
    var half := ones * p;
    assert ones * (2 * p) == 2 * half;
    MulAtLeast(ones, p);
    DivModUnique(2 * half, 2, half, 0);
  }

  lemma Twice(f: int, p: int)
    ensures 2 * (f * p) == f * (2 * p)
  {
  }

  lemma {:induction false} AndLow(x: nat, m: nat)
    ensures And(x, Pow2(m) - 1) == x % Pow2(m)
  {
    if m == 0 {
      assert Pow2(m) == 1;
      DivModUnique(x, 1, x, 0);
      assert And(x, 0) == 0;
    } else if x == 0 {
      DivModUnique(0, Pow2(m), 0, 0);
      assert And(0, Pow2(m) - 1) == 0;
    } else {
      var p := Pow2(m - 1);
      assert Pow2(m) == 2 * p;
      var mask := 2 * (p - 1) + 1;
      DivModUnique(mask, 2, p - 1, 1);
      assert And(x, mask) == 2 * And(x / 2, p - 1) + x % 2;
      AndLow(x / 2, m - 1);
      assert And(x / 2, p - 1) == (x / 2) % p;
      ModSplit(x, p);
      assert And(x, mask) == x % (2 * p);
    }
  }

  /** Division is determined by any quotient/remainder decomposition. */
  lemma DivModUnique(x: int, d: int, q: int, r: int)
    requires d > 0 && 0 <= r < d && x == q * d + r
    ensures x / d == q && x % d == r
  {
    var q', r' := x / d, x % d;
    assert (q - q') * d == r' - r;
    if q > q' {
      MulAtLeast(q - q', d);
    } else if q < q' {
      MulAtLeast(q' - q, d);
    }
  }

  lemma DivNonNegative(x: int, d: int)
    requires x >= 0 && d > 0
    ensures x / d >= 0
  {
  }

  lemma MulAtLeast(a: int, d: int)
    requires a >= 1 && d > 0
    ensures a * d >= d
  {
    assert a * d == (a - 1) * d + d;
    assert (a - 1) * d >= 0;
  }

  lemma DivDiv(x: nat, a: nat, b: nat)
    requires a > 0 && b > 0
    ensures x / a / b == x / (a * b)
  {
    var q := x / (a * b);
    var r := x % (a * b);
    var s := r / a;
    assert r == s * a + r % a;
    assert x == q * (a * b) + r;
    assert q * (a * b) == (q * b) * a;
    assert x == (q * b + s) * a + r % a;
    DivModUnique(x, a, q * b + s, r % a);
    assert s < b;
    assert x / a == q * b + s;
    DivModUnique(x / a, b, q, s);
  }

  lemma ModSplit(x: nat, p: nat)
    requires p > 0
    ensures x % (2 * p) == 2 * ((x / 2) % p) + x % 2
  {
    var q := (x / 2) / p;
    var r := (x / 2) % p;
    assert x / 2 == q * p + r;
    assert x == 2 * (x / 2) + x % 2;
    assert x == q * (2 * p) + (2 * r + x % 2);
    DivModUnique(x, 2 * p, q, 2 * r + x % 2);
  }
}
