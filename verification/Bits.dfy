/**
 Bitwise arithmetic on unbounded integers, negative ones in two's complement
 with endless sign bits, as Python defines it.
 */
module Bits {

  // Bit k of x; `/` rounds toward minus infinity here.
  predicate Bit(x: int, k: nat)
    decreases k
  {
    if k == 0 then x % 2 == 1 else Bit(x / 2, k - 1)
  }

  function Magnitude(x: int): nat {
    if x >= 0 then x else -x - 1
  }

  datatype Op = AndOp | OrOp | XorOp

  function Combine(op: Op, a: bool, b: bool): bool {
    match op
    case AndOp => a && b
    case OrOp => a || b
    case XorOp => a != b
  }

  function Bitwise(op: Op, x: int, y: int): int
    decreases Magnitude(x) + Magnitude(y)
  {
    if Magnitude(x) == 0 && Magnitude(y) == 0 then (if Combine(op, x == -1, y == -1) then -1 else 0)
    else 2 * Bitwise(op, x / 2, y / 2) + if Combine(op, x % 2 == 1, y % 2 == 1) then 1 else 0
  }

  function And(x: int, y: int): int {
    Bitwise(AndOp, x, y)
  }

  function Or(x: int, y: int): int {
    Bitwise(OrOp, x, y)
  }

  function Xor(x: int, y: int): int {
    Bitwise(XorOp, x, y)
  }

  function Not(x: int): int {
    -x - 1
  }

  function Shl(x: int, n: nat): int {
    if n == 0 then x else 2 * Shl(x, n - 1)
  }

  function Shr(x: int, n: nat): int
    decreases n
  {
    if n == 0 then x else Shr(x / 2, n - 1)
  }

  // n one bits.
  function Ones(n: nat): int {
    Shl(1, n) - 1
  }

  // ---------------------------------------------------------------- bit by bit

  lemma {:induction false} SignBits(x: int, k: nat)
    requires Magnitude(x) == 0
    ensures Bit(x, k) <==> x == -1
    decreases k
  {
    if k > 0 {
      SignBits(x / 2, k - 1);
    }
  }

  lemma {:induction false} BitwiseBit(op: Op, x: int, y: int, k: nat)
    ensures Bit(Bitwise(op, x, y), k) == Combine(op, Bit(x, k), Bit(y, k))
    decreases Magnitude(x) + Magnitude(y)
  {
    if Magnitude(x) == 0 && Magnitude(y) == 0 {
      SignBits(x, k);
      SignBits(y, k);
      SignBits(Bitwise(op, x, y), k);
    } else {
      var rest := Bitwise(op, x / 2, y / 2);
      var low := if Combine(op, x % 2 == 1, y % 2 == 1) then 1 else 0;
      assert Bitwise(op, x, y) == 2 * rest + low;
      assert (2 * rest + low) / 2 == rest && (2 * rest + low) % 2 == low;
      if k > 0 {
        BitwiseBit(op, x / 2, y / 2, k - 1);
      }
    }
  }

  lemma {:induction false} NotBit(x: int, k: nat)
    ensures Bit(Not(x), k) == !Bit(x, k)
    decreases k
  {
    if k > 0 {
      assert Not(x) / 2 == Not(x / 2);
      NotBit(x / 2, k - 1);
    }
  }

  lemma {:induction false} ShlBit(x: int, n: nat, k: nat)
    ensures Bit(Shl(x, n), k) == (k >= n && Bit(x, k - n))
  {
    if n > 0 {
      var half := Shl(x, n - 1);
      assert (2 * half) / 2 == half && (2 * half) % 2 == 0;
      if k > 0 {
        ShlBit(x, n - 1, k - 1);
      }
    }
  }

  lemma {:induction false} ShrBit(x: int, n: nat, k: nat)
    ensures Bit(Shr(x, n), k) == Bit(x, k + n)
    decreases n
  {
    if n > 0 {
      ShrBit(x / 2, n - 1, k);
    }
  }

  lemma {:induction false} OnesBit(n: nat, k: nat)
    ensures Bit(Ones(n), k) == (k < n)
  {
    if n == 0 {
      SignBits(0, k);
    } else {
      assert Ones(n) == 2 * Ones(n - 1) + 1;
      assert Ones(n) / 2 == Ones(n - 1) && Ones(n) % 2 == 1;
      if k > 0 {
        OnesBit(n - 1, k - 1);
      }
    }
  }

  /** An integer is determined by its bits. */
  lemma {:induction false} SameBits(x: int, y: int)
    requires forall k: nat :: Bit(x, k) == Bit(y, k)
    ensures x == y
    decreases Magnitude(x) + Magnitude(y)
  {
    assert Bit(x, 0) == Bit(y, 0);
    if Magnitude(x) + Magnitude(y) > 0 {
      forall k: nat ensures Bit(x / 2, k) == Bit(y / 2, k) {
        assert Bit(x, k + 1) == Bit(y, k + 1);
      }
      SameBits(x / 2, y / 2);
    }
  }

  // ---------------------------------------------------------------- ranges

  lemma {:induction false} PowerPositive(n: nat)
    ensures Shl(1, n) > 0
  {
    if n > 0 {
      PowerPositive(n - 1);
    }
  }

  lemma {:induction false} PowerMonotone(m: nat, n: nat)
    requires m <= n
    ensures 0 < Shl(1, m) <= Shl(1, n)
  {
    PowerPositive(m);
    if m < n {
      PowerMonotone(m, n - 1);
    }
  }

  lemma {:induction false} FitsHasZeros(x: int, n: nat, k: nat)
    requires 0 <= x < Shl(1, n) && k >= n
    ensures !Bit(x, k)
    decreases n
  {
    if n == 0 {
      SignBits(0, k);
    } else {
      FitsHasZeros(x / 2, n - 1, k - 1);
    }
  }

  // No bit from n on is set.
  ghost predicate ZerosFrom(x: int, n: nat) {
    forall k: nat :: k >= n ==> !Bit(x, k)
  }

  lemma {:induction false} ZerosFit(x: int, n: nat)
    requires ZerosFrom(x, n)
    ensures 0 <= x < Shl(1, n)
    decreases n
  {
    if n == 0 {
      forall k: nat ensures Bit(x, k) == Bit(0, k) {
        assert !Bit(x, k);
        SignBits(0, k);
      }
      SameBits(x, 0);
    } else {
      forall k: nat | k >= n - 1 ensures !Bit(x / 2, k) {
        assert !Bit(x, k + 1);
      }
      ZerosFit(x / 2, n - 1);
    }
  }

  /** x fits n bits exactly when every bit from n on is zero. */
  lemma FitsIff(x: int, n: nat)
    ensures 0 <= x < Shl(1, n) <==> ZerosFrom(x, n)
  {
    if 0 <= x < Shl(1, n) {
      forall k: nat | k >= n ensures !Bit(x, k) {
        FitsHasZeros(x, n, k);
      }
    }
    if ZerosFrom(x, n) {
      ZerosFit(x, n);
    }
  }

  lemma HalveLow(x: int, n: nat)
    requires n > 0
    ensures And(x, Ones(n)) == 2 * And(x / 2, Ones(n - 1)) + x % 2
  {
    assert Ones(n) == 2 * Ones(n - 1) + 1;
    assert Ones(n) / 2 == Ones(n - 1) && Ones(n) % 2 == 1;
    PowerPositive(n);
    PowerPositive(n - 1);
  }

  lemma {:induction false} AndNothing(x: int)
    ensures And(x, 0) == 0
    decreases Magnitude(x)
  {
    if Magnitude(x) > 0 {
      AndNothing(x / 2);
    }
  }

  lemma {:induction false} SplitBits(x: int, n: nat)
    ensures x == Shl(Shr(x, n), n) + And(x, Ones(n))
    decreases n
  {
    if n == 0 {
      AndNothing(x);
    } else {
      HalveLow(x, n);
      SplitBits(x / 2, n - 1);
    }
  }

  lemma {:induction false} ShlTimes(x: int, n: nat)
    ensures Shl(x, n) == x * Shl(1, n)
  {
    if n > 0 {
      ShlTimes(x, n - 1);
      assert 2 * (x * Shl(1, n - 1)) == x * (2 * Shl(1, n - 1));
    }
  }

  /** The low n bits are the remainder modulo two to the n. */
  lemma LowBits(x: int, n: nat)
    ensures Shl(1, n) > 0
    ensures And(x, Ones(n)) == x % Shl(1, n)
  {
    PowerPositive(n);
    var low := And(x, Ones(n));
    forall k: nat | k >= n ensures !Bit(low, k) {
      BitwiseBit(AndOp, x, Ones(n), k);
      OnesBit(n, k);
    }
    FitsIff(low, n);
    SplitBits(x, n);
    ShlTimes(Shr(x, n), n);
    ModUnique(x, low, Shl(1, n), Shr(x, n));
  }

  /** Shifting right divides, toward minus infinity. */
  lemma ShrDivides(x: int, n: nat)
    ensures Shl(1, n) > 0
    ensures Shr(x, n) == x / Shl(1, n)
  {
    LowBits(x, n);
    SplitBits(x, n);
    ShlTimes(Shr(x, n), n);
    DivUnique(x, And(x, Ones(n)), Shl(1, n), Shr(x, n));
  }

  lemma DivUnique(x: int, low: int, p: int, q: int)
    requires p > 0 && 0 <= low < p && x == q * p + low
    ensures q == x / p
  {
    assert x == p * (x / p) + x % p;
    assert p * (x / p - q) == p * (x / p) - q * p;
    SmallMultiple(p, x / p - q);
  }

  lemma ModUnique(x: int, low: int, p: int, q: int)
    requires p > 0 && 0 <= low < p && x == q * p + low
    ensures low == x % p
  {
    assert x == p * (x / p) + x % p;
    assert p * (x / p - q) == p * (x / p) - q * p;
    SmallMultiple(p, x / p - q);
  }

  lemma SmallMultiple(p: int, d: int)
    requires p > 0 && -p < p * d < p
    ensures d == 0
  {}
}
