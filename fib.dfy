/**
 * The fast-doubling Fibonacci generators of bn.c, each checked against the
 * linear definition F(0) = 0, F(1) = 1, F(n) = F(n - 1) + F(n - 2):
 * `bn_fib_fdoubling_nocpy`, `bn_fib_fdoubling` and
 * `bn_fib_fdoubling_Q_Matrix`.  The argument n is a 32-bit `unsigned int`;
 * the loops walk its bits from the top with a mask i = 2^j, and `n & i`
 * is bit j of n.
 */
module Fibonacci {
  import opened Limbs
  import opened Bignum
  import opened BitScan
  import opened AddSub
  import opened Mult

  /** One more than the largest `unsigned int`. */
  const UINT_LIMIT: nat := 0x1_0000_0000

  /** The Fibonacci numbers. */
  function Fib(n: nat): nat
  {
    if n < 2 then n else Fib(n - 1) + Fib(n - 2)
  }

  // ------------------------------------------------- Fibonacci identities

  /** The sequence never decreases, and is zero only at 0. */
  lemma {:induction false} FibGrowth(k: nat)
    ensures Fib(k) <= Fib(k + 1) && Fib(k + 1) >= 1
    ensures Fib(k) == 0 ==> k == 0 && Fib(k + 1) == 1
  {
    if k >= 1 {
      FibGrowth(k - 1);
    }
  }

  /**
   * The doubling formulas of `bn_fib_fdoubling_nocpy` and `bn_fib_fdoubling`:
   * F(2k) = F(k) (2 F(k + 1) - F(k)) and F(2k + 1) = F(k)^2 + F(k + 1)^2.
   */
  lemma {:induction false} DoublingFormulas(k: nat)
    ensures Fib(2 * k) == Fib(k) * (2 * Fib(k + 1) - Fib(k))
    ensures Fib(2 * k + 1) == Fib(k) * Fib(k) + Fib(k + 1) * Fib(k + 1)
  {
    if k >= 1 {
      DoublingFormulas(k - 1);
      assert 2 * (k - 1) == 2 * k - 2 && 2 * (k - 1) + 1 == 2 * k - 1;
      DoublingStep(Fib(k - 1), Fib(k), Fib(k + 1), Fib(2 * k - 2), Fib(2 * k - 1));
    }
  }

  /** One step of the doubling formulas: from (F(2k - 2), F(2k - 1)) to (F(2k), F(2k + 1)). */
  lemma {:induction false} DoublingStep(a: int, b: int, c: int, e: int, o: int)
    requires c == a + b && e == a * (2 * b - a) && o == a * a + b * b
    ensures o + e == b * (2 * c - b) && (o + e) + o == b * b + c * c
  {
  }

  /**
   * The formulas of `bn_fib_fdoubling_Q_Matrix`, for k >= 1:
   * F(2k - 1) = F(k)^2 + F(k - 1)^2 and F(2k) = F(k) (2 F(k - 1) + F(k)).
   */
  lemma {:induction false} QMatrixFormulas(k: nat)
    requires k >= 1
    ensures Fib(2 * k - 1) == Fib(k) * Fib(k) + Fib(k - 1) * Fib(k - 1)
    ensures Fib(2 * k) == Fib(k) * (2 * Fib(k - 1) + Fib(k))
  {
    DoublingFormulas(k - 1);
    assert 2 * (k - 1) + 1 == 2 * k - 1;
    DoublingFormulas(k);
    QMatrixArith(Fib(k), Fib(k - 1), Fib(k + 1));
  }

  lemma {:induction false} QMatrixArith(a: int, b: int, c: int)
    requires c == a + b
    ensures a * (2 * c - a) == a * (2 * b + a)
  {
  }

  // ------------------------------------------------------------ bits of n

  /** Bit j of n: `n & (1U << j)` is non-zero exactly when this is 1. */
  function Bit(n: nat, j: nat): nat
  {
    (n / Pow(2, j)) % 2
  }

  /** The bits of n from bit j up, `n >> j`: what the loops have consumed before bit j - 1. */
  function Prefix(n: nat, j: nat): nat
  {
    n / Pow(2, j)
  }

  /** Consuming bit j doubles the prefix and adds the bit. */
  lemma {:induction false} PrefixStep(n: nat, j: nat)
    ensures Prefix(n, j) == 2 * Prefix(n, j + 1) + Bit(n, j)
  {
    HalveDiv(n, Pow(2, j));
  }

  /** The mask of bit j, `1U << j`, and 0 once the bits are used up. */
  function Mask(j: int): nat
  {
    if j >= 0 then Pow(2, j) else 0
  }

  /** Testing bit j with the mask and halving the mask move to bit j - 1. */
  lemma {:induction false} MaskStep(n: nat, i: nat, j: int)
    requires j >= 0 && i == Mask(j)
    ensures Prefix(n, j) == if (n / i) % 2 == 1 then 2 * Prefix(n, j + 1) + 1 else 2 * Prefix(n, j + 1)
    ensures i / 2 == Mask(j - 1)
  {
    PrefixStep(n, j);
  }

  /** Once the mask is 0 every bit of n has been consumed. */
  lemma {:induction false} MaskEnd(n: nat, j: int)
    requires j >= -1 && Mask(j) == 0
    ensures j == -1 && Prefix(n, j + 1) == n
  {
  }

  /** `__builtin_clz(n)`: the zero bits above the highest set bit of a non-zero 32-bit n. */
  function Clz32(n: nat): (r: nat)
    requires 0 < n < UINT_LIMIT
    ensures r < 32 && Pow(2, 31 - r) <= n < Pow(2, 32 - r)
    ensures n >= 2 ==> r <= 30
  {
    Pow2Word();
    BitLenAtMost(n, 32);
    BitLenBounds(n);
    32 - BitLen(n)
  }

  /** Above the highest set bit nothing is left; from it up the prefix is 1. */
  lemma {:induction false} TopBit(n: nat)
    requires 0 < n < UINT_LIMIT
    ensures Prefix(n, 32 - Clz32(n)) == 0 && Prefix(n, 31 - Clz32(n)) == 1
  {
    var e := 31 - Clz32(n);
    DivModUnique(n, Pow(2, e + 1), 0, n);
    DivModUnique(n, Pow(2, e), 1, n - Pow(2, e));
  }

  /** A 32-bit n has no bits from bit 32 up. */
  lemma {:induction false} WordPrefix(n: nat)
    requires n < UINT_LIMIT
    ensures Prefix(n, 32) == 0
  {
    Pow2Word();
    DivModUnique(n, Pow(2, 32), 0, n);
  }

  // --------------------------------------------------- shapes of operands

  /** A trimmed s and a snug t with 2 t <= s compare correctly by size, in either order. */
  lemma {:induction false} SizedBelow(s: seq<nat>, t: seq<nat>)
    requires IsLimbs(s) && Trimmed(s) && Snug(t) && 2 * Nat(t) <= Nat(s)
    ensures SizedConsistently(s, t) && SizedConsistently(t, s)
  {
    NatBound(s);
    if |t| > |s| {
      WeightMono(|s|, |t| - 1);
    }
  }

  /** `bn_mult`'s result is snug, also when it is zero and the other operand is a single limb. */
  lemma {:induction false} ZeroProductSnug(s: seq<nat>, x: nat, y: nat)
    requires Nat(s) == x * y && |s| == ProductSize(BitLen(x), BitLen(y)) && (Nat(s) > 0 ==> Snug(s))
    requires x == 0 ==> y < BASE
    requires y == 0 ==> x < BASE
    ensures Snug(s)
  {
    if x == 0 || y == 0 {
      Pow2Base();
      BitLenAtMost(x, 64);
      BitLenAtMost(y, 64);
    } else {
      LowerMul(1, x, y);
    }
  }

  // ----------------------------------------------------- the working set

  /** Four `bn`s on four different limb buffers: f1, f2, k1 and k2 of the loops. */
  ghost predicate Scratch(a: Bn, b: Bn, c: Bn, d: Bn)
    reads a, b, c, d, a.number, b.number, c.number, d.number
  {
    a.Valid() && b.Valid() && c.Valid() && d.Valid() &&
    a.number != b.number && a.number != c.number && a.number != d.number &&
    b.number != c.number && b.number != d.number && c.number != d.number
  }

  /**
   * (f1, f2) hold (F(k), F(k + 1)) as the loops of `bn_fib_fdoubling_nocpy`
   * and `bn_fib_fdoubling` keep them: f2 trimmed and non-negative, f1 with
   * at most one spare top limb and a sign only when it is zero (dest's sign
   * is never cleared).
   */
  ghost predicate Pair(f1: Bn, f2: Bn, k: nat)
    reads f1, f2, f1.number, f2.number
  {
    f1.Valid() && f2.Valid() &&
    f1.Mag() == Fib(k) && Snug(f1.Limbs()) && (f1.sign ==> f1.Mag() == 0) &&
    f2.Mag() == Fib(k + 1) && Trimmed(f2.Limbs()) && !f2.sign
  }

  /**
   * (f1, f2) hold (F(k - 1), F(k)), k >= 1, as `bn_fib_fdoubling_Q_Matrix`
   * keeps them.  f2 is dest, whose sign is never cleared, so in the first
   * round f2 may be -1; from then on it is non-negative.
   */
  ghost predicate QPair(f1: Bn, f2: Bn, k: nat)
    reads f1, f2, f1.number, f2.number
  {
    k >= 1 && f1.Valid() && f2.Valid() &&
    f1.Mag() == Fib(k - 1) && !f1.sign && f2.Mag() == Fib(k) && Snug(f2.Limbs()) &&
    (f2.sign ==> k == 1 && f1.Limbs() == [0] && f2.Limbs() == [1])
  }

  /** `b->number[0] = x` on a one-limb `bn`. */
  method SetLimb(b: Bn, x: nat)
    requires b.Valid() && b.size == 1 && x < BASE
    modifies b.number
    ensures b.Valid() && b.Limbs() == [x] && b.Mag() == x
  {
    b.number[0] := x;
    assert b.Limbs() == [x];
    NatSingle(x);
  }

  // ------------------------------------------- arithmetic of one round

  /** The even term of a doubling round: (2 F(k + 1) - F(k)) F(k) = F(2k). */
  lemma {:induction false} EvenTerm(k: nat, x: nat)
    requires x == 2 * Fib(k + 1) - Fib(k)
    ensures x * Fib(k) == Fib(2 * k)
  {
    DoublingFormulas(k);
    Flip(x, Fib(k), Fib(2 * k));
  }

  /** Commuting a product named by z. */
  lemma {:induction false} Flip(x: int, y: int, z: int)
    requires z == y * x
    ensures x * y == z
  {
  }

  /** The odd term of a doubling round: F(k)^2 + F(k + 1)^2 = F(2k + 1). */
  lemma {:induction false} OddTerm(k: nat, x: nat, y: nat)
    requires x == Fib(k) * Fib(k) && y == Fib(k + 1) * Fib(k + 1)
    ensures x + y == Fib(2 * k + 1)
  {
    DoublingFormulas(k);
  }

  /**
   * The even term of a Q-matrix round: (2 F(k - 1) + w) w = F(2k) for
   * w = F(k), and also for the w = -1 that a negative dest gives at k = 1.
   */
  lemma {:induction false} QEvenTerm(k: nat, v: int, w: int)
    requires k >= 1 && v == 2 * Fib(k - 1) + w
    requires w == Fib(k) || (k == 1 && w == -1)
    ensures v * w == Fib(2 * k)
  {
    if w == -1 {
      assert Fib(2) == 1 && Fib(0) == 0;
    } else {
      QMatrixFormulas(k);
      Flip(v, w, Fib(2 * k));
    }
  }

  /** The odd term of a Q-matrix round: F(k - 1)^2 + F(k)^2 = F(2k - 1). */
  lemma {:induction false} QOddTerm(k: nat, x: nat, y: nat)
    requires k >= 1 && x == Fib(k - 1) * Fib(k - 1) && y == Fib(k) * Fib(k)
    ensures x + y == Fib(2 * k - 1)
  {
    QMatrixFormulas(k);
  }

  // ------------------------------------------------ steps shared by rounds

  /** `bn_mult(x, x, s); bn_swap(x, y)`: s = x^2, then x and y trade buffers. */
  method SquareSwap(x: Bn, s: Bn, y: Bn)
    requires x.Valid() && s.Valid() && y.Valid()
    requires x.number != s.number && x.number != y.number && s.number != y.number
    modifies x, s, s.number, y
    ensures x.Valid() && s.Valid() && y.Valid()
    ensures x.number == old(y.number) && y.number == old(x.number)
    ensures x.Limbs() == old(y.Limbs()) && x.sign == old(y.sign)
    ensures s.Mag() == old(x.Mag()) * old(x.Mag()) && !s.sign
    ensures s.number == old(s.number) || fresh(s.number)
  {
    Mult.Mult(x, x, s);
    Swap(x, y);
  }

  /**
   * `bn_swap(f1, f2); bn_add(f1, f2, f2)`, taken when the current bit of n
   * is set: (x, y) becomes (y, x + y).
   */
  method Advance(f1: Bn, f2: Bn)
    requires f1.Valid() && f2.Valid() && f1.number != f2.number && !f2.sign
    requires f1.sign ==> f1.Mag() == 0 && Snug(f1.Limbs()) && Trimmed(f2.Limbs())
    modifies f1, f2, f1.number
    ensures f1.Valid() && f2.Valid() && f1.number == old(f2.number)
    ensures f2.number == old(f1.number) || fresh(f2.number)
    ensures f1.Limbs() == old(f2.Limbs()) && !f1.sign
    ensures f2.Value() == old(f1.Value()) + old(f2.Value()) && !f2.sign && Trimmed(f2.Limbs())
  {
    Swap(f1, f2);
    if f2.sign {
      SizedBelow(f1.Limbs(), f2.Limbs());
    }
    Add(f1, f2, f2);
  }

  // ------------------------------------------- the round of the nocpy loop

  /** `bn_lshift2(f2, 1, k1); bn_sub(k1, f1, k1)`: k1 = 2 F(k + 1) - F(k). */
  method NoCpyGap(f1: Bn, f2: Bn, k1: Bn, ghost k: nat)
    requires f1.Valid() && f2.Valid() && k1.Valid()
    requires f1.number != f2.number && f1.number != k1.number && f2.number != k1.number
    requires Pair(f1, f2, k) && !k1.sign
    modifies f2, f2.number, k1, k1.number
    ensures f1.Valid() && f2.Valid() && k1.Valid()
    ensures f1.number != f2.number && f1.number != k1.number && f2.number != k1.number
    ensures f2.Mag() == Fib(k + 1) && !f2.sign
    ensures k1.Mag() == 2 * Fib(k + 1) - Fib(k) && !k1.sign
    ensures f2.number == old(f2.number) || fresh(f2.number)
    ensures k1.number == old(k1.number) || fresh(k1.number)
  {
    ghost var b := Fib(k + 1);
    FibGrowth(k);
    assert 1 % 64 == 1 && Pow(2, 1) == 2;
    Lshift2(f2, 1, k1);
    assert k1.Mag() == 2 * b;
    SizedBelow(k1.Limbs(), f1.Limbs());
    Sub(k1, f1, k1);
  }

  /** `bn_mult(k1, f1, k2)`: k2 = F(2k). */
  method NoCpyEven(f1: Bn, k1: Bn, k2: Bn, ghost k: nat)
    requires f1.Valid() && k1.Valid() && k2.Valid()
    requires f1.number != k2.number && f1.number != k1.number && k2.number != k1.number
    requires f1.Mag() == Fib(k) && (f1.sign ==> f1.Mag() == 0)
    requires k1.Mag() == 2 * Fib(k + 1) - Fib(k) && !k1.sign
    modifies k2, k2.number
    ensures f1.Valid() && k1.Valid() && k2.Valid()
    ensures f1.number != k2.number && k2.number != k1.number
    ensures k2.Mag() == Fib(2 * k) && Snug(k2.Limbs()) && (k2.sign ==> k2.Mag() == 0)
    ensures k2.number == old(k2.number) || fresh(k2.number)
  {
    FibGrowth(k);
    Mult.Mult(k1, f1, k2);
    EvenTerm(k, k1.Mag());
    ZeroProductSnug(k2.Limbs(), k1.Mag(), f1.Mag());
  }

  /** `bn_mult(f2, f2, k2); bn_add(k1, k2, f2)` with k1 = F(k)^2: f2 = F(2k + 1). */
  method NoCpyOdd(f2: Bn, k1: Bn, k2: Bn, ghost k: nat)
    requires f2.Valid() && k1.Valid() && k2.Valid()
    requires f2.number != k2.number && f2.number != k1.number && k2.number != k1.number
    requires f2.Mag() == Fib(k + 1) && !f2.sign
    requires k1.Mag() == Fib(k) * Fib(k) && !k1.sign
    modifies f2, f2.number, k2, k2.number
    ensures f2.Valid() && k1.Valid() && k2.Valid()
    ensures f2.number != k2.number && f2.number != k1.number && k2.number != k1.number
    ensures f2.Mag() == Fib(2 * k + 1) && Trimmed(f2.Limbs()) && !f2.sign
    ensures f2.number == old(f2.number) || fresh(f2.number)
    ensures k2.number == old(k2.number) || fresh(k2.number)
  {
    Mult.Mult(f2, f2, k2);
    OddTerm(k, k1.Mag(), k2.Mag());
    Add(k1, k2, f2);
  }

  /** The first half of a nocpy round: k1 = 2 f2 - f1 and k2 = k1 f1 = F(2k); f1 is untouched. */
  method NoCpyEvenHalf(f1: Bn, f2: Bn, k1: Bn, k2: Bn, ghost k: nat)
    requires Scratch(f1, f2, k1, k2) && Pair(f1, f2, k) && !k1.sign
    modifies f2, f2.number, k1, k1.number, k2, k2.number
    ensures Scratch(f1, f2, k1, k2)
    ensures f2.Mag() == Fib(k + 1) && !f2.sign
    ensures k2.Mag() == Fib(2 * k) && Snug(k2.Limbs()) && (k2.sign ==> k2.Mag() == 0)
    ensures f2.number == old(f2.number) || fresh(f2.number)
    ensures k1.number == old(k1.number) || fresh(k1.number)
    ensures k2.number == old(k2.number) || fresh(k2.number)
  {
    NoCpyGap(f1, f2, k1, k);
    NoCpyEven(f1, k1, k2, k);
  }

  /** The second half of a nocpy round: k1 = f1^2, swap f1 and k2, k2 = f2^2, f2 = k1 + k2. */
  method NoCpyOddHalf(f1: Bn, f2: Bn, k1: Bn, k2: Bn, ghost k: nat)
    requires Scratch(f1, f2, k1, k2)
    requires f1.Mag() == Fib(k) && (f1.sign ==> f1.Mag() == 0) && f2.Mag() == Fib(k + 1) && !f2.sign
    requires k2.Mag() == Fib(2 * k) && Snug(k2.Limbs()) && (k2.sign ==> k2.Mag() == 0)
    modifies f1, f1.number, f2, f2.number, k1, k1.number, k2
    ensures Scratch(f1, f2, k1, k2) && Pair(f1, f2, 2 * k) && !k1.sign
    ensures f1.number == old(k2.number)
    ensures f2.number == old(f2.number) || fresh(f2.number)
    ensures k1.number == old(k1.number) || fresh(k1.number)
    ensures k2.number == old(f1.number) || fresh(k2.number)
  {
    SquareSwap(f1, k1, k2);
    NoCpyOdd(f2, k1, k2, k);
  }

  /**
   * The round of `bn_fib_fdoubling_nocpy` up to the bit test:
   * k1 = 2 f2 - f1, k2 = k1 f1, k1 = f1^2, swap f1 and k2, k2 = f2^2,
   * f2 = k1 + k2.  (F(k), F(k + 1)) becomes (F(2k), F(2k + 1)).
   */
  method DoubleNoCpy(f1: Bn, f2: Bn, k1: Bn, k2: Bn, ghost k: nat)
    requires Scratch(f1, f2, k1, k2) && Pair(f1, f2, k) && !k1.sign
    modifies f1, f1.number, f2, f2.number, k1, k1.number, k2, k2.number
    ensures Scratch(f1, f2, k1, k2) && Pair(f1, f2, 2 * k) && !k1.sign
    ensures f1.number == old(k2.number) || fresh(f1.number)
    ensures f2.number == old(f2.number) || fresh(f2.number)
    ensures k1.number == old(k1.number) || fresh(k1.number)
    ensures k2.number == old(f1.number) || fresh(k2.number)
  {
    NoCpyEvenHalf(f1, f2, k1, k2, k);
    NoCpyOddHalf(f1, f2, k1, k2, k);
  }

  /**
   * One pass of the loop of `bn_fib_fdoubling_nocpy`: the round, then the
   * swap and add when the bit is set.  (F(k), F(k + 1)) becomes
   * (F(2k + b), F(2k + b + 1)) for the bit b.
   */
  method NoCpyStep(f1: Bn, f2: Bn, k1: Bn, k2: Bn, odd: bool, ghost k: nat)
    requires Scratch(f1, f2, k1, k2) && Pair(f1, f2, k) && !k1.sign
    modifies f1, f1.number, f2, f2.number, k1, k1.number, k2, k2.number
    ensures Scratch(f1, f2, k1, k2) && Pair(f1, f2, if odd then 2 * k + 1 else 2 * k) && !k1.sign
    ensures f1.number == old(f2.number) || f1.number == old(k2.number) || fresh(f1.number)
    ensures f2.number == old(f2.number) || f2.number == old(k2.number) || fresh(f2.number)
    ensures k1.number == old(k1.number) || fresh(k1.number)
    ensures k2.number == old(f1.number) || fresh(k2.number)
  {
    DoubleNoCpy(f1, f2, k1, k2, k);
    if odd {
      Advance(f1, f2);
      TrimmedSnug(f1.Limbs());
      assert Pair(f1, f2, 2 * k + 1);
    } else {
      assert Pair(f1, f2, 2 * k);
    }
  }

  /**
   * The loop of `bn_fib_fdoubling_nocpy`, entered with the mask top = 2^e
   * and (f1, f2) = (F(k), F(k + 1)) for the bits k of n above bit e; each
   * pass consumes one bit, and it ends with (F(n), F(n + 1)).
   */
  method NoCpyLoop(f1: Bn, f2: Bn, k1: Bn, k2: Bn, n: nat, top: nat, ghost e: int)
    requires e >= -1 && top == Mask(e)
    requires Scratch(f1, f2, k1, k2) && Pair(f1, f2, Prefix(n, e + 1)) && !k1.sign
    modifies f1, f1.number, f2, f2.number, k1, k1.number, k2, k2.number
    ensures Scratch(f1, f2, k1, k2) && Pair(f1, f2, n)
  {
    var i := top;
    ghost var j := e;
    ghost var k := Prefix(n, e + 1);
    ghost var A := {f1.number, f2.number, k1.number, k2.number};
    while i != 0
      invariant j >= -1 && i == Mask(j) && k == Prefix(n, j + 1)
      invariant Scratch(f1, f2, k1, k2) && Pair(f1, f2, k) && !k1.sign
      invariant f1.number in A || fresh(f1.number)
      invariant f2.number in A || fresh(f2.number)
      invariant k1.number in A || fresh(k1.number)
      invariant k2.number in A || fresh(k2.number)
      decreases i
    {
      var odd := (n / i) % 2 == 1;
      NoCpyStep(f1, f2, k1, k2, odd, k);
      MaskStep(n, i, j);
      k := if odd then 2 * k + 1 else 2 * k;
      i := i / 2;
      j := j - 1;
    }
    MaskEnd(n, j);
  }


  // ----------------------------------------- the round of the copying loop

  /** `bn_cpy(k1, f2); bn_lshift(k1, 1)`: k1 = 2 f2. */
  method CopyTwice(k1: Bn, f2: Bn)
    requires k1.Valid() && f2.Valid() && k1.number != f2.number
    modifies k1, k1.number
    ensures k1.Valid() && f2.Valid() && k1.number != f2.number
    ensures k1.Mag() == 2 * f2.Mag() && k1.sign == f2.sign
    ensures Trimmed(f2.Limbs()) ==> Trimmed(k1.Limbs())
    ensures k1.number == old(k1.number) || fresh(k1.number)
  {
    Cpy(k1, f2);
    assert 1 % 64 == 1 && Pow(2, 1) == 2;
    Lshift(k1, 1);
  }

  /** `bn_sub(k1, f1, k1); bn_mult(k1, f1, k1)` with k1 = 2 F(k + 1): k1 = F(2k). */
  method CopyEven(f1: Bn, k1: Bn, ghost k: nat)
    requires f1.Valid() && k1.Valid() && f1.number != k1.number
    requires f1.Mag() == Fib(k) && Snug(f1.Limbs()) && (f1.sign ==> f1.Mag() == 0)
    requires k1.Mag() == 2 * Fib(k + 1) && Trimmed(k1.Limbs()) && !k1.sign
    modifies k1, k1.number
    ensures f1.Valid() && k1.Valid() && f1.number != k1.number
    ensures k1.Mag() == Fib(2 * k) && Snug(k1.Limbs()) && (k1.sign ==> k1.Mag() == 0)
    ensures k1.number == old(k1.number) || fresh(k1.number)
  {
    FibGrowth(k);
    SizedBelow(k1.Limbs(), f1.Limbs());
    Sub(k1, f1, k1);
    ghost var x := k1.Mag();
    Mult.Mult(k1, f1, k1);
    EvenTerm(k, x);
    ZeroProductSnug(k1.Limbs(), x, f1.Mag());
  }

  /** `bn_mult(f1, f1, f1); bn_mult(f2, f2, f2)`: both squared in place. */
  method Squares(f1: Bn, f2: Bn)
    requires f1.Valid() && f2.Valid() && f1.number != f2.number
    modifies f1, f1.number, f2, f2.number
    ensures f1.Valid() && f2.Valid() && f1.number != f2.number
    ensures f1.Mag() == old(f1.Mag()) * old(f1.Mag()) && !f1.sign
    ensures f2.Mag() == old(f2.Mag()) * old(f2.Mag()) && !f2.sign
    ensures f1.number == old(f1.number) || fresh(f1.number)
    ensures f2.number == old(f2.number) || fresh(f2.number)
  {
    Mult.Mult(f1, f1, f1);
    Mult.Mult(f2, f2, f2);
  }

  /** `bn_cpy(k2, f1); bn_add(k2, f2, k2)`: k2 = f1 + f2 for non-negative f1 and f2. */
  method CopySum(k2: Bn, f1: Bn, f2: Bn)
    requires k2.Valid() && f1.Valid() && f2.Valid()
    requires k2.number != f1.number && k2.number != f2.number && f1.number != f2.number
    requires !f1.sign && !f2.sign
    modifies k2, k2.number
    ensures k2.Valid() && f1.Valid() && f2.Valid()
    ensures k2.number != f1.number && k2.number != f2.number
    ensures k2.Mag() == f1.Mag() + f2.Mag() && !k2.sign && Trimmed(k2.Limbs())
    ensures k2.number == old(k2.number) || fresh(k2.number)
  {
    Cpy(k2, f1);
    Add(k2, f2, k2);
  }

  /** The first half of a copying round: k1 = (2 f2 - f1) f1 = F(2k); f1 and f2 are untouched. */
  method CopyEvenHalf(f1: Bn, f2: Bn, k1: Bn, ghost k: nat)
    requires f1.Valid() && f2.Valid() && k1.Valid()
    requires f1.number != f2.number && f1.number != k1.number && f2.number != k1.number
    requires Pair(f1, f2, k)
    modifies k1, k1.number
    ensures f1.Valid() && f2.Valid() && k1.Valid()
    ensures f1.number != k1.number && f2.number != k1.number
    ensures k1.Mag() == Fib(2 * k) && Snug(k1.Limbs()) && (k1.sign ==> k1.Mag() == 0)
    ensures k1.number == old(k1.number) || fresh(k1.number)
  {
    CopyTwice(k1, f2);
    CopyEven(f1, k1, k);
  }

  /** The second half of a copying round: f1 = f1^2, f2 = f2^2, k2 = f1 + f2 = F(2k + 1). */
  method CopyOddHalf(f1: Bn, f2: Bn, k2: Bn, ghost k: nat)
    requires f1.Valid() && f2.Valid() && k2.Valid()
    requires f1.number != f2.number && f1.number != k2.number && f2.number != k2.number
    requires f1.Mag() == Fib(k) && f2.Mag() == Fib(k + 1)
    modifies f1, f1.number, f2, f2.number, k2, k2.number
    ensures f1.Valid() && f2.Valid() && k2.Valid()
    ensures f1.number != f2.number && f1.number != k2.number && f2.number != k2.number
    ensures k2.Mag() == Fib(2 * k + 1) && !k2.sign && Trimmed(k2.Limbs())
    ensures f1.number == old(f1.number) || fresh(f1.number)
    ensures f2.number == old(f2.number) || fresh(f2.number)
    ensures k2.number == old(k2.number) || fresh(k2.number)
  {
    Squares(f1, f2);
    CopySum(k2, f1, f2);
    OddTerm(k, f1.Mag(), f2.Mag());
  }

  /**
   * The round of `bn_fib_fdoubling` up to the bit test: k1 = (2 f2 - f1) f1
   * through copies and in-place operations, f1 = f1^2, f2 = f2^2,
   * k2 = f1 + f2.  (F(k), F(k + 1)) in (f1, f2) gives (F(2k), F(2k + 1)) in
   * (k1, k2).
   */
  method DoubleCopying(f1: Bn, f2: Bn, k1: Bn, k2: Bn, ghost k: nat)
    requires Scratch(f1, f2, k1, k2) && Pair(f1, f2, k)
    modifies f1, f1.number, f2, f2.number, k1, k1.number, k2, k2.number
    ensures Scratch(f1, f2, k1, k2) && Pair(k1, k2, 2 * k)
    ensures f1.number == old(f1.number) || fresh(f1.number)
    ensures f2.number == old(f2.number) || fresh(f2.number)
    ensures k1.number == old(k1.number) || fresh(k1.number)
    ensures k2.number == old(k2.number) || fresh(k2.number)
  {
    CopyEvenHalf(f1, f2, k1, k);
    CopyOddHalf(f1, f2, k2, k);
  }

  /** `bn_cpy(f2, k1); bn_add(f2, k2, f2)`: f2 = k1 + k2. */
  method CopyNext(f2: Bn, k1: Bn, k2: Bn)
    requires f2.Valid() && k1.Valid() && k2.Valid()
    requires f2.number != k1.number && f2.number != k2.number && k1.number != k2.number
    requires Snug(k1.Limbs()) && (k1.sign ==> k1.Mag() == 0) && Trimmed(k2.Limbs()) && !k2.sign
    modifies f2, f2.number
    ensures f2.Valid() && k1.Valid() && k2.Valid()
    ensures f2.number != k1.number && f2.number != k2.number
    ensures f2.Value() == k1.Value() + k2.Value() && !f2.sign && Trimmed(f2.Limbs())
    ensures f2.number == old(f2.number) || fresh(f2.number)
  {
    Cpy(f2, k1);
    if f2.sign {
      SizedBelow(k2.Limbs(), f2.Limbs());
    }
    Add(f2, k2, f2);
  }

  /**
   * The bit test of `bn_fib_fdoubling`: with (k1, k2) = (F(m), F(m + 1)),
   * (f1, f2) becomes (F(m + 1), F(m + 2)) when the bit is set and
   * (F(m), F(m + 1)) when it is not.
   */
  method CopyBack(f1: Bn, f2: Bn, k1: Bn, k2: Bn, odd: bool, ghost m: nat)
    requires Scratch(f1, f2, k1, k2) && Pair(k1, k2, m)
    modifies f1, f1.number, f2, f2.number
    ensures Scratch(f1, f2, k1, k2) && Pair(f1, f2, if odd then m + 1 else m)
    ensures f1.number == old(f1.number) || fresh(f1.number)
    ensures f2.number == old(f2.number) || fresh(f2.number)
  {
    if odd {
      CopyAhead(f1, f2, k1, k2, m);
    } else {
      Cpy(f1, k1);
      Cpy(f2, k2);
      assert Pair(f1, f2, m);
    }
  }

  /** `bn_cpy(f1, k2); bn_cpy(f2, k1); bn_add(f2, k2, f2)`: one step past (k1, k2). */
  method CopyAhead(f1: Bn, f2: Bn, k1: Bn, k2: Bn, ghost m: nat)
    requires Scratch(f1, f2, k1, k2) && Pair(k1, k2, m)
    modifies f1, f1.number, f2, f2.number
    ensures Scratch(f1, f2, k1, k2) && Pair(f1, f2, m + 1)
    ensures f1.number == old(f1.number) || fresh(f1.number)
    ensures f2.number == old(f2.number) || fresh(f2.number)
  {
    Cpy(f1, k2);
    CopyNext(f2, k1, k2);
    TrimmedSnug(f1.Limbs());
  }

  /**
   * One pass of the loop of `bn_fib_fdoubling`: the round, then the copies
   * of the bit test.  (F(k), F(k + 1)) becomes (F(2k + b), F(2k + b + 1))
   * for the bit b.
   */
  method CopyStep(f1: Bn, f2: Bn, k1: Bn, k2: Bn, odd: bool, ghost k: nat)
    requires Scratch(f1, f2, k1, k2) && Pair(f1, f2, k)
    modifies f1, f1.number, f2, f2.number, k1, k1.number, k2, k2.number
    ensures Scratch(f1, f2, k1, k2) && Pair(f1, f2, if odd then 2 * k + 1 else 2 * k)
    ensures f1.number == old(f1.number) || fresh(f1.number)
    ensures f2.number == old(f2.number) || fresh(f2.number)
    ensures k1.number == old(k1.number) || fresh(k1.number)
    ensures k2.number == old(k2.number) || fresh(k2.number)
  {
    DoubleCopying(f1, f2, k1, k2, k);
    CopyBack(f1, f2, k1, k2, odd, 2 * k);
  }

  /**
   * The loop of `bn_fib_fdoubling`, entered with the mask top = 2^e and
   * (f1, f2) = (F(k), F(k + 1)) for the bits k of n above bit e; it ends
   * with (F(n), F(n + 1)).
   */
  method CopyLoop(f1: Bn, f2: Bn, k1: Bn, k2: Bn, n: nat, top: nat, ghost e: int)
    requires e >= -1 && top == Mask(e)
    requires Scratch(f1, f2, k1, k2) && Pair(f1, f2, Prefix(n, e + 1))
    modifies f1, f1.number, f2, f2.number, k1, k1.number, k2, k2.number
    ensures Scratch(f1, f2, k1, k2) && Pair(f1, f2, n)
  {
    var i := top;
    ghost var j := e;
    ghost var k := Prefix(n, e + 1);
    ghost var A := {f1.number, f2.number, k1.number, k2.number};
    while i != 0
      invariant j >= -1 && i == Mask(j) && k == Prefix(n, j + 1)
      invariant Scratch(f1, f2, k1, k2) && Pair(f1, f2, k)
      invariant f1.number in A || fresh(f1.number)
      invariant f2.number in A || fresh(f2.number)
      invariant k1.number in A || fresh(k1.number)
      invariant k2.number in A || fresh(k2.number)
      decreases i
    {
      var odd := (n / i) % 2 == 1;
      CopyStep(f1, f2, k1, k2, odd, k);
      MaskStep(n, i, j);
      k := if odd then 2 * k + 1 else 2 * k;
      i := i / 2;
      j := j - 1;
    }
    MaskEnd(n, j);
  }


  // ---------------------------------------- the round of the Q-matrix loop

  /** `bn_lshift2(f1, 1, k1); bn_add(k1, f2, k1)`: k1 = 2 F(k - 1) + f2. */
  method QGap(f1: Bn, f2: Bn, k1: Bn, ghost k: nat)
    requires f1.Valid() && f2.Valid() && k1.Valid()
    requires f1.number != f2.number && f1.number != k1.number && f2.number != k1.number
    requires QPair(f1, f2, k) && !k1.sign
    modifies f1, f1.number, k1, k1.number
    ensures f1.Valid() && f2.Valid() && k1.Valid()
    ensures f1.number != f2.number && f1.number != k1.number && f2.number != k1.number
    ensures f1.Mag() == Fib(k - 1) && !f1.sign
    ensures k1.Value() == 2 * Fib(k - 1) + f2.Value()
    ensures f1.number == old(f1.number) || fresh(f1.number)
    ensures k1.number == old(k1.number) || fresh(k1.number)
  {
    NatSingle(0);
    assert 1 % 64 == 1 && Pow(2, 1) == 2;
    Lshift2(f1, 1, k1);
    Add(k1, f2, k1);
  }

  /** `bn_mult(k1, f2, k2)` with k1 = 2 F(k - 1) + f2: k2 = F(2k). */
  method QEven(f2: Bn, k1: Bn, k2: Bn, ghost k: nat)
    requires f2.Valid() && k1.Valid() && k2.Valid()
    requires f2.number != k1.number && f2.number != k2.number && k1.number != k2.number
    requires k >= 1 && f2.Mag() == Fib(k) && (f2.sign ==> k == 1)
    requires k1.Value() == 2 * Fib(k - 1) + f2.Value()
    modifies k2, k2.number
    ensures f2.Valid() && k1.Valid() && k2.Valid()
    ensures f2.number != k2.number && k1.number != k2.number
    ensures k2.Mag() == Fib(2 * k) && Snug(k2.Limbs()) && !k2.sign
    ensures k2.number == old(k2.number) || fresh(k2.number)
  {
    FibGrowth(2 * k - 1);
    Mult.Mult(k1, f2, k2);
    QEvenTerm(k, k1.Value(), f2.Value());
  }

  /** `bn_mult(f1, f1, k2); bn_add(k2, k1, f1)` with k1 = F(k)^2: f1 = F(2k - 1). */
  method QOdd(f1: Bn, k1: Bn, k2: Bn, ghost k: nat)
    requires f1.Valid() && k1.Valid() && k2.Valid()
    requires f1.number != k1.number && f1.number != k2.number && k1.number != k2.number
    requires k >= 1 && f1.Mag() == Fib(k - 1) && !f1.sign
    requires k1.Mag() == Fib(k) * Fib(k) && !k1.sign
    modifies f1, f1.number, k2, k2.number
    ensures f1.Valid() && k1.Valid() && k2.Valid()
    ensures f1.number != k1.number && f1.number != k2.number && k1.number != k2.number
    ensures f1.Mag() == Fib(2 * k - 1) && Trimmed(f1.Limbs()) && !f1.sign
    ensures f1.number == old(f1.number) || fresh(f1.number)
    ensures k2.number == old(k2.number) || fresh(k2.number)
  {
    Mult.Mult(f1, f1, k2);
    QOddTerm(k, k2.Mag(), k1.Mag());
    Add(k2, k1, f1);
  }

  /** The first half of a Q-matrix round: k1 = 2 f1 + f2 and k2 = k1 f2 = F(2k); f2 is untouched. */
  method QEvenHalf(f1: Bn, f2: Bn, k1: Bn, k2: Bn, ghost k: nat)
    requires Scratch(f1, f2, k1, k2) && QPair(f1, f2, k) && !k1.sign
    modifies f1, f1.number, k1, k1.number, k2, k2.number
    ensures Scratch(f1, f2, k1, k2)
    ensures f1.Mag() == Fib(k - 1) && !f1.sign
    ensures k2.Mag() == Fib(2 * k) && Snug(k2.Limbs()) && !k2.sign
    ensures f1.number == old(f1.number) || fresh(f1.number)
    ensures k1.number == old(k1.number) || fresh(k1.number)
    ensures k2.number == old(k2.number) || fresh(k2.number)
  {
    QGap(f1, f2, k1, k);
    QEven(f2, k1, k2, k);
  }

  /** The second half of a Q-matrix round: k1 = f2^2, swap f2 and k2, k2 = f1^2, f1 = k2 + k1. */
  method QOddHalf(f1: Bn, f2: Bn, k1: Bn, k2: Bn, ghost k: nat)
    requires Scratch(f1, f2, k1, k2) && k >= 1
    requires f1.Mag() == Fib(k - 1) && !f1.sign && f2.Mag() == Fib(k)
    requires k2.Mag() == Fib(2 * k) && Snug(k2.Limbs()) && !k2.sign
    modifies f1, f1.number, f2, f2.number, k1, k1.number, k2
    ensures Scratch(f1, f2, k1, k2) && !k1.sign
    ensures f1.Mag() == Fib(2 * k - 1) && !f1.sign && Trimmed(f1.Limbs())
    ensures f2.Mag() == Fib(2 * k) && !f2.sign && Snug(f2.Limbs())
    ensures f1.number == old(f1.number) || fresh(f1.number)
    ensures f2.number == old(k2.number)
    ensures k1.number == old(k1.number) || fresh(k1.number)
    ensures k2.number == old(f2.number) || fresh(k2.number)
  {
    SquareSwap(f2, k1, k2);
    QOdd(f1, k1, k2, k);
  }

  /**
   * The round of `bn_fib_fdoubling_Q_Matrix` up to the bit test:
   * k1 = 2 f1 + f2, k2 = k1 f2, k1 = f2^2, swap f2 and k2, k2 = f1^2,
   * f1 = k2 + k1.  (F(k - 1), F(k)) becomes (F(2k - 1), F(2k)).
   */
  method DoubleQMatrix(f1: Bn, f2: Bn, k1: Bn, k2: Bn, ghost k: nat)
    requires Scratch(f1, f2, k1, k2) && QPair(f1, f2, k) && !k1.sign
    modifies f1, f1.number, f2, f2.number, k1, k1.number, k2, k2.number
    ensures Scratch(f1, f2, k1, k2) && !k1.sign
    ensures f1.Mag() == Fib(2 * k - 1) && !f1.sign && Trimmed(f1.Limbs())
    ensures f2.Mag() == Fib(2 * k) && !f2.sign && Snug(f2.Limbs())
    ensures f1.number == old(f1.number) || fresh(f1.number)
    ensures f2.number == old(k2.number) || fresh(f2.number)
    ensures k1.number == old(k1.number) || fresh(k1.number)
    ensures k2.number == old(f2.number) || fresh(k2.number)
  {
    QEvenHalf(f1, f2, k1, k2, k);
    QOddHalf(f1, f2, k1, k2, k);
  }

  /**
   * One pass of the loop of `bn_fib_fdoubling_Q_Matrix`: the round, then
   * the swap and add when the bit is set.  (F(k - 1), F(k)) becomes
   * (F(2k + b - 1), F(2k + b)) for the bit b.
   */
  method QStep(f1: Bn, f2: Bn, k1: Bn, k2: Bn, odd: bool, ghost k: nat)
    requires Scratch(f1, f2, k1, k2) && QPair(f1, f2, k) && !k1.sign
    modifies f1, f1.number, f2, f2.number, k1, k1.number, k2, k2.number
    ensures Scratch(f1, f2, k1, k2) && QPair(f1, f2, if odd then 2 * k + 1 else 2 * k) && !k1.sign
    ensures f1.number == old(f1.number) || f1.number == old(k2.number) || fresh(f1.number)
    ensures f2.number == old(f1.number) || f2.number == old(k2.number) || fresh(f2.number)
    ensures k1.number == old(k1.number) || fresh(k1.number)
    ensures k2.number == old(f2.number) || fresh(k2.number)
  {
    DoubleQMatrix(f1, f2, k1, k2, k);
    if odd {
      Advance(f1, f2);
      TrimmedSnug(f2.Limbs());
      assert QPair(f1, f2, 2 * k + 1);
    } else {
      assert QPair(f1, f2, 2 * k);
    }
  }

  /**
   * The loop of `bn_fib_fdoubling_Q_Matrix`, entered with the mask
   * top = 2^e and (f1, f2) = (F(k - 1), F(k)) for the bits k of n above bit
   * e; it ends with (F(n - 1), F(n)).
   */
  method QLoop(f1: Bn, f2: Bn, k1: Bn, k2: Bn, n: nat, top: nat, ghost e: int)
    requires e >= -1 && top == Mask(e)
    requires Scratch(f1, f2, k1, k2) && QPair(f1, f2, Prefix(n, e + 1)) && !k1.sign
    modifies f1, f1.number, f2, f2.number, k1, k1.number, k2, k2.number
    ensures Scratch(f1, f2, k1, k2) && QPair(f1, f2, n)
  {
    var i := top;
    ghost var j := e;
    ghost var k := Prefix(n, e + 1);
    ghost var A := {f1.number, f2.number, k1.number, k2.number};
    while i != 0
      invariant j >= -1 && i == Mask(j) && k == Prefix(n, j + 1)
      invariant Scratch(f1, f2, k1, k2) && QPair(f1, f2, k) && !k1.sign
      invariant f1.number in A || fresh(f1.number)
      invariant f2.number in A || fresh(f2.number)
      invariant k1.number in A || fresh(k1.number)
      invariant k2.number in A || fresh(k2.number)
      decreases i
    {
      var odd := (n / i) % 2 == 1;
      QStep(f1, f2, k1, k2, odd, k);
      MaskStep(n, i, j);
      k := if odd then 2 * k + 1 else 2 * k;
      i := i / 2;
      j := j - 1;
    }
    MaskEnd(n, j);
  }

  // ------------------------------------------------------ the generators

  /**
   * `bn_fib_fdoubling_nocpy`: dest = F(n).  From the highest set bit of n
   * down, (f1, f2) = (F(k), F(k + 1)) for the prefix k of n consumed so
   * far, with f1 being dest itself.  For n < 2 dest becomes the single limb
   * n and keeps its sign.
   */
  method FibDoublingNoCpy(dest: Bn, n: nat)
    requires dest.Valid() && n < UINT_LIMIT
    modifies dest, dest.number
    ensures dest.Valid() && dest.Mag() == Fib(n)
    ensures n < 2 ==> dest.Limbs() == [n] && dest.sign == old(dest.sign)
    ensures n >= 2 ==> dest.Value() == Fib(n) && !dest.sign && Snug(dest.Limbs())
  {
    Resize(dest, 1);
    if n < 2 {
      SetLimb(dest, n);
      return;
    }
    var f1 := dest;
    var f2 := new Bn(1);
    SetLimb(f1, 0);
    SetLimb(f2, 1);
    var k1 := new Bn(1);
    var k2 := new Bn(1);
    TopBit(n);
    assert Mask(31 - Clz32(n)) == Pow(2, 31 - Clz32(n));
    NoCpyLoop(f1, f2, k1, k2, n, Pow(2, 31 - Clz32(n)), 31 - Clz32(n));
    FibGrowth(n - 1);
  }

  /**
   * `bn_fib_fdoubling`: dest = F(n), walking all 32 bits of n from bit 31
   * down; leading zero bits keep (f1, f2) at (F(0), F(1)).  Each round
   * computes (F(2k), F(2k + 1)) in (k1, k2) and copies the pair for the
   * next prefix back into (f1, f2), f1 being dest.  For n < 2 dest becomes
   * the single limb n and keeps its sign.
   */
  method FibDoubling(dest: Bn, n: nat)
    requires dest.Valid() && n < UINT_LIMIT
    modifies dest, dest.number
    ensures dest.Valid() && dest.Mag() == Fib(n)
    ensures n < 2 ==> dest.Limbs() == [n] && dest.sign == old(dest.sign)
    ensures n >= 2 ==> dest.Value() == Fib(n) && !dest.sign && Snug(dest.Limbs())
  {
    Resize(dest, 1);
    if n < 2 {
      SetLimb(dest, n);
      return;
    }
    var f1 := dest;
    var f2 := new Bn(1);
    SetLimb(f1, 0);
    SetLimb(f2, 1);
    var k1 := new Bn(1);
    var k2 := new Bn(1);
    WordPrefix(n);
    assert Mask(31) == Pow(2, 31);
    CopyLoop(f1, f2, k1, k2, n, Pow(2, 31), 31);
    FibGrowth(n - 1);
  }

  /**
   * `bn_fib_fdoubling_Q_Matrix`: dest = F(n), tracking
   * (f1, f2) = (F(k - 1), F(k)) with f2 being dest, from the bit below the
   * highest set bit of n down.  For n < 2 dest becomes the single limb n
   * and keeps its sign.
   */
  method FibDoublingQMatrix(dest: Bn, n: nat)
    requires dest.Valid() && n < UINT_LIMIT
    modifies dest, dest.number
    ensures dest.Valid() && dest.Mag() == Fib(n)
    ensures n < 2 ==> dest.Limbs() == [n] && dest.sign == old(dest.sign)
    ensures n >= 2 ==> dest.Value() == Fib(n) && !dest.sign && Snug(dest.Limbs())
  {
    Resize(dest, 1);
    if n < 2 {
      SetLimb(dest, n);
      return;
    }
    var f1 := new Bn(1);
    var f2 := dest;
    SetLimb(f1, 0);
    SetLimb(f2, 1);
    var k1 := new Bn(1);
    var k2 := new Bn(1);
    TopBit(n);
    assert Mask(30 - Clz32(n)) == Pow(2, 30 - Clz32(n));
    QLoop(f1, f2, k1, k2, n, Pow(2, 30 - Clz32(n)), 30 - Clz32(n));
  }
}
