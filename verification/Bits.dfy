/** Bit-level arithmetic on unsigned words, read as natural numbers. */
module Bits {

  type uint32 = x: int | 0 <= x < 0x1_0000_0000
  type byte = x: int | 0 <= x < 0x100

  function Min(a: int, b: int): int {
    if a <= b then a else b
  }

  function Pow2(k: nat): (p: nat)
    ensures 1 <= p
  {
    if k == 0 then 1 else 2 * Pow2(k - 1)
  }

  ghost predicate IsPow2(n: nat) {
    exists k: nat :: n == Pow2(k)
  }

  /** Bitwise conjunction. */
  function And(a: nat, b: nat): (r: nat)
    ensures r <= b
  {
    if a == 0 || b == 0 then 0
    else 2 * And(a / 2, b / 2) + if a % 2 == 1 && b % 2 == 1 then 1 else 0
  }

  /** Bitwise disjunction. */
  function Or(a: nat, b: nat): nat {
    if a == 0 && b == 0 then 0
    else 2 * Or(a / 2, b / 2) + if a % 2 == 1 || b % 2 == 1 then 1 else 0
  }

  /** Position of the highest one-bit. */
  function MostSignificantBit(x: nat): (k: nat)
    requires 0 < x
    ensures Pow2(k) <= x < Pow2(k + 1)
  {
    if x == 1 then 0 else MostSignificantBit(x / 2) + 1
  }

  predicate HasExactlyOneBitSet(x: nat) {
    x != 0 && And(x, x - 1) == 0
  }

  lemma {:induction false} HalfOfRemainder(a: nat, p: nat)
    requires 0 < p
    ensures a % (2 * p) == 2 * ((a / 2) % p) + a % 2
  {
    var h := a / 2;
    var q, r := h / p, h % p;
    assert h == p * q + r;
    assert a == (2 * p) * q + (2 * r + a % 2);
    RemainderUnique(a, 2 * p, q, 2 * r + a % 2);
  }

  lemma ProductIsNonNegative(a: nat, b: nat)
    ensures 0 <= a * b
  {
  }

  lemma MultipleIsLarge(n: int, d: int)
    requires 0 < n && d != 0
    ensures n <= n * d || n * d <= -n
  {
    if d >= 1 {
      ProductIsNonNegative(n, d - 1);
      assert n * (d - 1) == n * d - n;
    } else {
      ProductIsNonNegative(n, -d - 1);
      assert n * (-d - 1) == -(n * d) - n;
    }
  }

  lemma {:induction false} RemainderUnique(a: nat, n: nat, q: int, r: nat)
    requires 0 < n && r < n && a == n * q + r
    ensures a % n == r && a / n == q
  {
    var q', r' := a / n, a % n;
    assert a == n * q' + r';
    assert n * (q' - q) == n * q' - n * q;
    if q' != q {
      MultipleIsLarge(n, q' - q);
    }
  }

  lemma DropOne(a: nat, n: nat)
    requires 0 < n
    ensures (n + a) % n == a % n
  {
    assert n * (a / n + 1) == n * (a / n) + n;
    RemainderUnique(n + a, n, a / n + 1, a % n);
  }

  lemma SmallRemainder(a: nat, n: nat)
    requires a < n
    ensures a % n == a
  {
  }

  lemma AddToRemainder(a: nat, m: nat, n: nat)
    requires 0 < n
    ensures (a % n + m) % n == (a + m) % n
  {
    var b := a % n + m;
    assert n * (a / n + b / n) == n * (a / n) + n * (b / n);
    RemainderUnique(a + m, n, a / n + b / n, b % n);
  }

  /** A mask of ones keeps the low bit and masks the rest. */
  lemma MaskHalves(a: nat, p: nat)
    requires 0 < p
    ensures And(a, 2 * p - 1) == 2 * And(a / 2, p - 1) + a % 2
  {
    assert (2 * p - 1) / 2 == p - 1 && (2 * p - 1) % 2 == 1;
  }

  /** Masking with 2^k - 1 is the remainder by 2^k. */
  lemma {:induction false} MaskIsRemainder(a: nat, k: nat)
    ensures And(a, Pow2(k) - 1) == a % Pow2(k)
  {
    if k > 0 {
      var p := Pow2(k - 1);
      MaskIsRemainder(a / 2, k - 1);
      HalfOfRemainder(a, p);
      MaskHalves(a, p);
    }
  }

  /** Stepping an index under a mask wraps exactly at the end of the table. */
  lemma {:induction false} MaskedStep(i: nat, k: nat)
    requires i < Pow2(k)
    ensures And(i + 1, Pow2(k) - 1) == if i + 1 == Pow2(k) then 0 else i + 1
  {
    MaskIsRemainder(i + 1, k);
    if i + 1 == Pow2(k) {
      RemainderUnique(i + 1, Pow2(k), 1, 0);
    } else {
      RemainderUnique(i + 1, Pow2(k), 0, i + 1);
    }
  }

  lemma {:induction false} AndSelf(a: nat)
    ensures And(a, a) == a
  {
    if a > 0 {
      AndSelf(a / 2);
    }
  }

  lemma {:induction false} OneBitIsPow2(x: nat)
    requires 0 < x
    ensures HasExactlyOneBitSet(x) <==> x == Pow2(MostSignificantBit(x))
  {
    if x > 1 {
      if x % 2 == 0 {
        OneBitIsPow2(x / 2);
        assert (x - 1) / 2 == x / 2 - 1 && (x - 1) % 2 == 1;
      } else {
        AndSelf(x / 2);
        assert (x - 1) / 2 == x / 2;
        assert Pow2(MostSignificantBit(x)) == 2 * Pow2(MostSignificantBit(x / 2));
      }
    }
  }

  lemma {:induction false} Pow2Monotone(j: nat, k: nat)
    requires j < k
    ensures 2 * Pow2(j) <= Pow2(k)
  {
    if j + 1 < k {
      Pow2Monotone(j, k - 1);
    }
  }

  lemma OrOfEven(h: nat, b: nat)
    ensures Or(2 * h, b) == 2 * Or(h, b / 2) + b % 2
  {
    assert (2 * h) / 2 == h && (2 * h) % 2 == 0;
  }

  lemma DoubleProduct(a: int, p: int)
    ensures a * (2 * p) == 2 * (a * p)
  {
  }

  /** Bits put below the lowest one-bit of a multiple of 2^k add to it. */
  lemma {:induction false} OrIsSum(a: nat, k: nat, b: nat)
    requires b < Pow2(k)
    ensures Or(a * Pow2(k), b) == a * Pow2(k) + b
  {
    if k > 0 {
      OrIsSum(a, k - 1, b / 2);
      DoubleProduct(a, Pow2(k - 1));
      OrOfEven(a * Pow2(k - 1), b);
    } else {
      OrZero(a);
    }
  }

  lemma {:induction false} OrZero(a: nat)
    ensures Or(a, 0) == a && Or(0, a) == a
  {
    if a > 0 {
      OrZero(a / 2);
    }
  }

  lemma AndOfEven(a: nat, h: nat)
    ensures And(a, 2 * h) == 2 * And(a / 2, h)
  {
    assert (2 * h) / 2 == h && (2 * h) % 2 == 0;
  }

  function ShiftRight(a: nat, k: nat): nat {
    if k == 0 then a else ShiftRight(a / 2, k - 1)
  }

  /** A mask whose `k` low bits are zero drops those bits. */
  lemma {:induction false} HighMask(a: nat, m: nat, k: nat)
    ensures And(a, m * Pow2(k)) == And(ShiftRight(a, k), m) * Pow2(k)
  {
    if k > 0 {
      var p := Pow2(k - 1);
      HighMask(a / 2, m, k - 1);
      DoubleProduct(m, p);
      AndOfEven(a, m * p);
      DoubleProduct(And(ShiftRight(a, k), m), p);
    }
  }
}
