/**
 * Long multiplication of bn.c: `bn_mult_add`, which adds a double word into
 * a number from a given limb on, and `bn_mult`, which sums the partial
 * products of every pair of limbs.
 */
module Mult {
  import opened Limbs
  import opened Bignum
  import opened BitScan

  /** The double-word product `(bn_data_tmp) a * b` of two limbs. */
  const DBASE: nat := BASE * BASE

  // ------------------------------------------------------------ bn_mult_add

  /**
   * The amount still to be added at limb i when x 2^(64 off) is added to Z
   * column by column: x at limb off, then the high word of each column sum.
   * (`bn_mult_add` keeps it as a carry plus what is left of x.)
   */
  function Pending(Z: seq<nat>, x: nat, off: nat, i: nat): nat
    requires off <= i <= |Z|
    decreases i - off
  {
    if i == off then x else (Z[i - 1] + Pending(Z, x, off, i - 1)) / BASE
  }

  /** Limb j of Z after adding x 2^(64 off) column by column. */
  function Column(Z: seq<nat>, x: nat, off: nat, j: nat): nat
    requires j < |Z|
  {
    if j < off then Z[j] else (Z[j] + Pending(Z, x, off, j)) % BASE
  }

  /** The limbs of Z after adding x 2^(64 off) column by column, dropping what passes the top. */
  function MultAdded(Z: seq<nat>, x: nat, off: nat): (r: seq<nat>)
    ensures |r| == |Z|
  {
    seq(|Z|, j requires 0 <= j < |Z| => Column(Z, x, off, j))
  }

  lemma {:induction false} PendingNext(Z: seq<nat>, x: nat, off: nat, i: nat)
    requires off <= i < |Z|
    ensures Pending(Z, x, off, i + 1) == (Z[i] + Pending(Z, x, off, i)) / BASE
  {
  }

  /**
   * One column of `bn_mult_add`: with carry c0 and x0 left of x, the column
   * sum s = c0 + Z[i] + (x0 mod 2^64) has the digit of the reference as its
   * low word, and its high word plus the rest of x is the amount pending at
   * the next column.
   */
  lemma {:induction false} MultAddColumn(Z: seq<nat>, X: nat, off: nat, i: nat, c0: int, x0: int, s: int)
    requires off <= i < |Z| && 0 <= c0 && 0 <= x0 && c0 + x0 == Pending(Z, X, off, i)
    requires s == c0 + Z[i] + x0 % BASE
    ensures s % BASE == Column(Z, X, off, i) && s / BASE + x0 / BASE == Pending(Z, X, off, i + 1)
    ensures 0 <= s / BASE && 0 <= x0 / BASE
  {
    SplitPending(Z[i], c0, x0);
    PendingNext(Z, X, off, i);
  }

  /** One column of the reference: digit v and pending p' take the place of column k and p. */
  lemma {:induction false} PendingColumn(lm: int, lz: int, p: nat, zk: nat, v: nat, p': nat, w: nat, rhs: int)
    requires lm + p * w == lz + rhs && v + p' * BASE == zk + p
    ensures (lm + v * w) + p' * (BASE * w) == (lz + zk * w) + rhs
  {
    MulAssoc(p', BASE, w);
    assert (v + p' * BASE) * w == (zk + p) * w;
  }

  /** The low i limbs of the reference and the amount pending at i add up to Z plus x 2^(64 off). */
  lemma {:induction false} MultAddedPrefix(Z: seq<nat>, x: nat, off: nat, i: nat)
    requires off <= i <= |Z|
    ensures Nat(MultAdded(Z, x, off)[..i]) + Pending(Z, x, off, i) * Weight(i)
            == Nat(Z[..i]) + x * Weight(off)
  {
    var M := MultAdded(Z, x, off);
    if i == off {
      assert M[..i] == Z[..i];
    } else {
      MultAddedPrefix(Z, x, off, i - 1);
      MultAddedStep(Z, x, off, i - 1);
    }
  }

  /** Column k of the reference moves from the pending amount into limb k. */
  lemma {:induction false} MultAddedStep(Z: seq<nat>, x: nat, off: nat, k: nat)
    requires off <= k < |Z|
    requires Nat(MultAdded(Z, x, off)[..k]) + Pending(Z, x, off, k) * Weight(k)
             == Nat(Z[..k]) + x * Weight(off)
    ensures Nat(MultAdded(Z, x, off)[..k + 1]) + Pending(Z, x, off, k + 1) * Weight(k + 1)
            == Nat(Z[..k + 1]) + x * Weight(off)
  {
    var M := MultAdded(Z, x, off);
    var p := Pending(Z, x, off, k);
    assert M[k] == (Z[k] + p) % BASE;
    PendingNext(Z, x, off, k);
    DigitSplit(Z[k] + p);
    PendingColumn(Nat(M[..k]), Nat(Z[..k]), p, Z[k], M[k], Pending(Z, x, off, k + 1), Weight(k),
                  x * Weight(off));
    NatPrefixStep(M, k);
    NatPrefixStep(Z, k);
    WeightNext(k);
  }

  /** A column sum is its low word plus its high word times the base. */
  lemma {:induction false} DigitSplit(s: nat)
    ensures s % BASE + s / BASE * BASE == s
  {
  }

  /** Every limb of the reference is a word. */
  lemma {:induction false} MultAddedWords(Z: seq<nat>, x: nat, off: nat)
    requires IsLimbs(Z)
    ensures IsLimbs(MultAdded(Z, x, off))
  {
    var M := MultAdded(Z, x, off);
    forall j | 0 <= j < |Z|
      ensures M[j] < BASE
    {
      if j >= off {
        assert M[j] == (Z[j] + Pending(Z, x, off, j)) % BASE;
      }
    }
  }

  /** The reference is Z + x 2^(64 off) modulo 2^(64 |Z|). */
  lemma {:induction false} MultAddedValue(Z: seq<nat>, x: nat, off: nat)
    requires IsLimbs(Z)
    ensures IsLimbs(MultAdded(Z, x, off))
    ensures Nat(MultAdded(Z, x, off)) == (Nat(Z) + x * Weight(off)) % Weight(|Z|)
  {
    MultAddedWords(Z, x, off);
    if off <= |Z| {
      AddedWithin(Z, x, off);
    } else {
      MultAddedBeyond(Z, x, off);
      AddedBeyond(Z, x, off);
    }
  }

  /** An offset within Z: what passes the top limb is dropped. */
  lemma {:induction false} AddedWithin(Z: seq<nat>, x: nat, off: nat)
    requires IsLimbs(Z) && off <= |Z|
    ensures Nat(MultAdded(Z, x, off)) == (Nat(Z) + x * Weight(off)) % Weight(|Z|)
  {
    MultAddedWords(Z, x, off);
    MultAddedFull(Z, x, off);
    WrapWithin(MultAdded(Z, x, off), Z, x * Weight(off), Pending(Z, x, off, |Z|));
  }

  /** Adding x 2^(64 off) with off past the top limb leaves Z modulo 2^(64 |Z|). */
  lemma {:induction false} AddedBeyond(Z: seq<nat>, x: nat, off: nat)
    requires IsLimbs(Z) && off > |Z|
    ensures Nat(Z) == (Nat(Z) + x * Weight(off)) % Weight(|Z|)
  {
    NatBound(Z);
    WrapAt(Nat(Z) + x * Weight(off), Nat(Z), x, |Z|, off);
  }

  /** An offset past the top limb adds nothing. */
  lemma {:induction false} MultAddedBeyond(Z: seq<nat>, x: nat, off: nat)
    requires off > |Z|
    ensures MultAdded(Z, x, off) == Z
  {
    var M := MultAdded(Z, x, off);
    forall j | 0 <= j < |Z|
      ensures M[j] == Z[j]
    {
    }
  }

  /** An offset within Z: the reference and what is pending past its top limb make Z + x 2^(64 off). */
  lemma {:induction false} MultAddedFull(Z: seq<nat>, x: nat, off: nat)
    requires off <= |Z|
    ensures Nat(MultAdded(Z, x, off)) + Pending(Z, x, off, |Z|) * Weight(|Z|) == Nat(Z) + x * Weight(off)
  {
    MultAddedPrefix(Z, x, off, |Z|);
    TakeAll(MultAdded(Z, x, off));
    TakeAll(Z);
  }

  /** Limbs M that differ from Z + xw only by a multiple of 2^(64 |Z|) are Z + xw modulo that. */
  lemma {:induction false} WrapWithin(M: seq<nat>, Z: seq<nat>, xw: int, p: nat)
    requires IsLimbs(M) && |M| == |Z| && Nat(M) + p * Weight(|Z|) == Nat(Z) + xw
    ensures Nat(M) == (Nat(Z) + xw) % Weight(|Z|)
  {
    NatBound(M);
    WrapAt(Nat(Z) + xw, Nat(M), p, |Z|, |Z|);
  }

  /** Once nothing is pending, the limbs above are those of Z. */
  lemma {:induction false} NothingPending(Z: seq<nat>, x: nat, off: nat, i: nat, j: nat)
    requires IsLimbs(Z) && off <= i <= j < |Z| && Pending(Z, x, off, i) == 0
    ensures Pending(Z, x, off, j) == 0 && Column(Z, x, off, j) == Z[j]
  {
    if j > i {
      NothingPending(Z, x, off, i, j - 1);
    }
  }

  /** The limbs of Z once the columns from off up to i have been written. */
  function Added(Z: seq<nat>, x: nat, off: nat, i: nat): (r: seq<nat>)
    requires off <= i <= |Z|
    ensures |r| == |Z|
    decreases i - off
  {
    if i == off then Z else Added(Z, x, off, i - 1)[i - 1 := Column(Z, x, off, i - 1)]
  }

  /** Limb j of Added: the reference below i, the old limb from i on. */
  lemma {:induction false} AddedAt(Z: seq<nat>, x: nat, off: nat, i: nat, j: nat)
    requires off <= i <= |Z| && j < |Z|
    ensures Added(Z, x, off, i)[j] == if j < i then Column(Z, x, off, j) else Z[j]
    decreases i - off
  {
    if i > off {
      AddedAt(Z, x, off, i - 1, j);
    }
  }

  /** With every column written, Added is the reference. */
  lemma {:induction false} AddedAll(Z: seq<nat>, x: nat, off: nat)
    requires off <= |Z|
    ensures Added(Z, x, off, |Z|) == MultAdded(Z, x, off)
  {
    forall j | 0 <= j < |Z|
      ensures Added(Z, x, off, |Z|)[j] == MultAdded(Z, x, off)[j]
    {
      AddedAt(Z, x, off, |Z|, j);
    }
  }

  /** Once nothing is pending at column i, the columns written so far already make the reference. */
  lemma {:induction false} AddedRest(Z: seq<nat>, x: nat, off: nat, i: nat)
    requires IsLimbs(Z) && off <= i <= |Z| && Pending(Z, x, off, i) == 0
    ensures Added(Z, x, off, i) == MultAdded(Z, x, off)
  {
    forall j | 0 <= j < |Z|
      ensures Added(Z, x, off, i)[j] == MultAdded(Z, x, off)[j]
    {
      AddedAt(Z, x, off, i, j);
      if j >= i {
        NothingPending(Z, x, off, i, j);
      }
    }
  }

  /** `bn_mult_add` keeps the pending amount as a carry and the unshifted rest of x. */
  lemma {:induction false} SplitPending(ci: nat, carry: nat, x: nat)
    ensures (carry + ci + x % BASE) % BASE == (ci + (carry + x)) % BASE
    ensures (carry + ci + x % BASE) / BASE + x / BASE == (ci + (carry + x)) / BASE
  {
    var t := carry + ci + x % BASE;
    assert ci + (carry + x) == (t / BASE + x / BASE) * BASE + t % BASE;
    DivModUnique(ci + (carry + x), BASE, t / BASE + x / BASE, t % BASE);
  }

  /** Dropping everything from limb i >= n on leaves the value modulo 2^(64 n). */
  lemma {:induction false} WrapAt(total: int, lo: nat, h: nat, n: nat, i: nat)
    requires n <= i && lo < Weight(n) && total == lo + h * Weight(i)
    ensures total >= 0 && total % Weight(n) == lo
  {
    WeightAdd(n, i - n);
    MulAssoc(h, Weight(i - n), Weight(n));
    DivModUnique(total, Weight(n), h * Weight(i - n), lo);
  }

  /**
   * `bn_mult_add`: c += x 2^(64 offset) for a double word x, column by
   * column from limb `offset`, stopping early once nothing is pending.
   * What would carry out of the top limb is lost.  The function reads only
   * c's buffer z and its size n, so it is modelled on those.
   */
  method MultAdd(z: array<nat>, n: nat, offset: nat, x: nat)
    requires n <= z.Length && IsLimbs(z[..]) && x < DBASE
    modifies z
    ensures z[..n] == MultAdded(old(z[..n]), x, offset)
    ensures IsLimbs(z[..])
    ensures forall j :: n <= j < z.Length ==> z[j] == old(z[j])
  {
    ghost var Z := z[..n];
    ghost var X := x;
    var x: int := x;
    var carry: int := 0;
    var i := offset;
    while i < n
      invariant offset <= i && 0 <= carry && 0 <= x
      invariant offset <= n ==> i <= n && carry + x == Pending(Z, X, offset, i) && z[..n] == Added(Z, X, offset, i)
      invariant offset > n ==> z[..n] == Z
      invariant forall j {:trigger z[j]} :: n <= j < z.Length ==> z[j] == old(z[j])
      invariant forall j {:trigger z[j]} :: 0 <= j < z.Length ==> z[j] < BASE
    {
      ghost var before := z[..n];
      AddedAt(Z, X, offset, i, i);
      carry, x := AddLimb(z, i, carry, x, Z, X, offset);
      assert z[..n] == before[i := Column(Z, X, offset, i)];
      if x == 0 && carry == 0 {
        AddedRest(Z, X, offset, i + 1);
        return;
      }
      i := i + 1;
    }
    if offset <= n {
      AddedAll(Z, X, offset);
    } else {
      MultAddedBeyond(Z, X, offset);
    }
  }

  /**
   * The loop body of `bn_mult_add`: limb i becomes the low word of
   * carry + z[i] + (x mod 2^64); the high word is the new carry and x moves
   * down one word.
   */
  method AddLimb(z: array<nat>, i: nat, carry: int, x: int, ghost Z: seq<nat>, ghost X: nat, ghost offset: nat)
      returns (carry': int, x': int)
    requires offset <= i < |Z| && i < z.Length && z[i] == Z[i]
    requires 0 <= carry && 0 <= x && carry + x == Pending(Z, X, offset, i)
    modifies z
    ensures z[i] == Column(Z, X, offset, i) && z[i] < BASE
    ensures 0 <= carry' && 0 <= x' && carry' + x' == Pending(Z, X, offset, i + 1)
    ensures forall j :: 0 <= j < z.Length && j != i ==> z[j] == old(z[j])
  {
    var s := carry + z[i] + x % BASE;
    MultAddColumn(Z, X, offset, i, carry, x, s);
    z[i] := s % BASE;
    carry' := s / BASE;
    x' := x / BASE;
  }

  // ---------------------------------------------------------------- bn_mult

  /** The size `bn_mult` gives its result: DIV_ROUNDUP(msb a + msb b, 64), at least 1. */
  function ProductSize(la: nat, lb: nat): (d: nat)
    ensures d >= 1
  {
    (la + lb + 63) / 64 + (if la + lb == 0 then 1 else 0)
  }

  /** Strict products: a < c and b < d give a b < c d. */
  lemma {:induction false} MulStrict(a: nat, b: nat, c: nat, d: nat)
    requires a < c && b < d
    ensures 0 <= a * b < c * d
  {
    LowerMul(b, d, a);
    MulLess(a, c, d);
  }

  /** Lower bounds multiply: c <= a and d <= b give c d <= a b. */
  lemma {:induction false} MulMono(a: nat, b: nat, c: nat, d: nat)
    requires c <= a && d <= b
    ensures c * d <= a * b
  {
    LowerMul(d, b, c);
    LowerMul(c, a, b);
  }

  /** ProductSize(la, lb) words hold la + lb bits, with a spare word only when la + lb is zero. */
  lemma {:induction false} ProductSizeBits(la: nat, lb: nat)
    ensures la + lb <= 64 * ProductSize(la, lb)
    ensures la + lb > 0 ==> 64 * (ProductSize(la, lb) - 1) <= la + lb - 1
  {
  }

  /** A product of an la-bit and an lb-bit number is below 2^(la + lb). */
  lemma {:induction false} ProductBits(x: nat, y: nat)
    ensures x * y < Pow(2, BitLen(x) + BitLen(y))
  {
    BitLenBounds(x);
    BitLenBounds(y);
    MulStrict(x, y, Pow(2, BitLen(x)), Pow(2, BitLen(y)));
    PowAdd(2, BitLen(x), BitLen(y));
  }

  /** So ProductSize(la, lb) limbs hold it. */
  lemma {:induction false} ProductBelow(x: nat, y: nat)
    ensures x * y < Weight(ProductSize(BitLen(x), BitLen(y)))
  {
    var la, lb := BitLen(x), BitLen(y);
    ProductBits(x, y);
    ProductSizeBits(la, lb);
    WeightAbove(x * y, la + lb, ProductSize(la, lb));
  }

  /** p < 2^k and k <= 64 e give p < 2^(64 e). */
  lemma {:induction false} WeightAbove(p: int, k: nat, e: nat)
    requires p < Pow(2, k) && k <= 64 * e
    ensures p < Weight(e)
  {
    PowMono(2, k, 64 * e);
  }

  /** A non-zero product of an la-bit and an lb-bit number is at least 2^(la + lb - 2). */
  lemma {:induction false} ProductAbove(x: nat, y: nat)
    requires x > 0 && y > 0
    ensures BitLen(x) >= 1 && BitLen(y) >= 1
    ensures 2 * (x * y) >= Pow(2, BitLen(x) + BitLen(y) - 1)
  {
    var la, lb := BitLen(x), BitLen(y);
    BitLenBounds(x);
    BitLenBounds(y);
    MulMono(x, y, Pow(2, la - 1), Pow(2, lb - 1));
    PowAdd(2, la - 1, lb - 1);
    assert Pow(2, la + lb - 1) == 2 * Pow(2, la - 1 + (lb - 1));
  }

  /** 2^(la + lb - 1) <= 2 p gives 2^(64 (ProductSize(la, lb) - 1)) <= 2 p. */
  lemma {:induction false} SpareWeight(p: int, la: nat, lb: nat)
    requires la >= 1 && lb >= 1 && 2 * p >= Pow(2, la + lb - 1)
    ensures 2 * p >= Weight(ProductSize(la, lb) - 1)
  {
    ProductSizeBits(la, lb);
    WeightAtMost(p, la + lb - 1, ProductSize(la, lb) - 1);
  }

  /** 2^k <= 2 p and 64 e <= k give 2^(64 e) <= 2 p. */
  lemma {:induction false} WeightAtMost(p: int, k: nat, e: nat)
    requires 2 * p >= Pow(2, k) && 64 * e <= k
    ensures 2 * p >= Weight(e)
  {
    PowMono(2, 64 * e, k);
  }

  lemma {:induction false} MulZero(x: nat, y: nat)
    requires x == 0 || y == 0
    ensures x * y == 0
  {
  }

  /**
   * ProductSize(BitLen x, BitLen y) limbs hold x y, and a non-zero product
   * leaves at most one superfluous limb: 2 x y >= 2^(64 (d - 1)).
   */
  lemma {:induction false} ProductFits(x: nat, y: nat)
    ensures x * y < Weight(ProductSize(BitLen(x), BitLen(y)))
    ensures x * y > 0 ==> 2 * (x * y) >= Weight(ProductSize(BitLen(x), BitLen(y)) - 1)
  {
    ProductBelow(x, y);
    if x > 0 && y > 0 {
      ProductAbove(x, y);
      SpareWeight(x * y, BitLen(x), BitLen(y));
    } else {
      MulZero(x, y);
    }
  }

  /** The arithmetic of one partial product, on plain numbers. */
  lemma {:induction false} StepArith(p: nat, ai: nat, pb: nat, bj: nat, wo: nat, wj: nat, woj: nat, pb1: nat, nb: nat, bound: nat)
    requires pb1 == pb + bj * wj && woj == wo * wj && pb1 <= nb && p + ai * nb * wo < bound
    ensures (p + ai * pb * wo) + ai * bj * woj == p + ai * pb1 * wo
    ensures 0 <= p + ai * pb1 * wo < bound
  {
    var q := ai * wo;
    Regroup(ai, pb, wo);
    Regroup(ai, pb1, wo);
    Regroup(ai, nb, wo);
    Regroup4(ai, bj, wo, wj);
    assert q * pb1 == q * pb + q * (bj * wj);
    LowerMul(pb1, nb, q);
  }

  lemma {:induction false} Regroup(a: int, b: int, c: int)
    ensures a * b * c == (a * c) * b
  {
  }

  lemma {:induction false} Regroup4(a: int, b: int, c: int, d: int)
    ensures a * b * (c * d) == (a * c) * (b * d)
  {
  }

  /**
   * One partial product ai B[j] 2^(64 (off + j)) extends a row by one column
   * and keeps it below the bound the whole row stays below.
   */
  lemma {:induction false} RowStep(B: seq<nat>, j: nat, ai: nat, x: int, off: nat, p: nat, m: nat, bound: nat)
    requires j < |B| && x == ai * B[j] && m == p + ai * Nat(B[..j]) * Weight(off)
    requires p + ai * Nat(B) * Weight(off) < bound
    ensures m + x * Weight(off + j) == p + ai * Nat(B[..j + 1]) * Weight(off)
    ensures 0 <= m + x * Weight(off + j) < bound
  {
    NatPrefixStep(B, j);
    WeightAdd(off, j);
    NatPrefixLe(B, j + 1);
    StepArith(p, ai, Nat(B[..j]), B[j], Weight(off), Weight(j), Weight(off + j), Nat(B[..j + 1]), Nat(B), bound);
  }

  /** Adding the partial product x = ai B[j] at limb off + j advances the row from j to j + 1 limbs of B. */
  lemma {:induction false} RowAdvance(B: seq<nat>, j: nat, ai: nat, x: int, off: nat, p: nat, Z: seq<nat>, zs: nat)
    requires j < |B| && x == ai * B[j] && 0 <= x && IsLimbs(Z) && |Z| == zs
    requires Nat(Z) == p + ai * Nat(B[..j]) * Weight(off) && p + ai * Nat(B) * Weight(off) < Weight(zs)
    ensures IsLimbs(MultAdded(Z, x, off + j))
    ensures Nat(MultAdded(Z, x, off + j)) == p + ai * Nat(B[..j + 1]) * Weight(off)
  {
    RowStep(B, j, ai, x, off, p, Nat(Z), Weight(zs));
    MultAddedValue(Z, x, off + j);
    ModSmall(Nat(Z) + x * Weight(off + j), Weight(zs));
  }

  /** A finished row i: rows 0..i make the first i + 1 limbs of a times b, and stay within a b. */
  lemma {:induction false} RowDone(A: seq<nat>, B: seq<nat>, i: nat)
    requires i < |A|
    ensures Nat(A[..i]) * Nat(B) + A[i] * Nat(B) * Weight(i) == Nat(A[..i + 1]) * Nat(B)
    ensures Nat(A[..i + 1]) * Nat(B) <= Nat(A) * Nat(B)
  {
    NatPrefixStep(A, i);
    RowDoneArith(Nat(A[..i]), Nat(B), A[i], Weight(i));
    NatPrefixLe(A, i + 1);
    LowerMul(Nat(A[..i + 1]), Nat(A), Nat(B));
  }

  lemma {:induction false} RowDoneArith(pa: nat, nb: nat, ai: nat, w: nat)
    ensures pa * nb + ai * nb * w == (pa + ai * w) * nb
  {
  }

  /** A value below w is its own remainder. */
  lemma {:induction false} ModSmall(v: int, w: int)
    requires 0 <= v < w
    ensures v % w == v
  {
    DivModUnique(v, w, 0, v);
  }

  /**
   * The inner loop of `bn_mult` for one limb ai of a: add ai y[j] at limb
   * off + j of z for every limb y[j] of b.  The sum must fit in zs limbs.
   */
  method ProductRow(ai: nat, y: array<nat>, ys: nat, z: array<nat>, zs: nat, off: nat, ghost p: nat)
    requires ai < BASE && ys <= y.Length && zs <= z.Length && y != z
    requires IsLimbs(y[..]) && IsLimbs(z[..]) && Nat(z[..zs]) == p
    requires p + ai * Nat(y[..ys]) * Weight(off) < Weight(zs)
    modifies z
    ensures IsLimbs(z[..]) && Nat(z[..zs]) == p + ai * Nat(y[..ys]) * Weight(off)
  {
    ghost var B := y[..ys];
    assert B[..0] == [];
    var j := 0;
    while j < ys
      invariant j <= ys && IsLimbs(z[..]) && Nat(z[..zs]) == p + ai * Nat(B[..j]) * Weight(off)
    {
      ghost var Z := z[..zs];
      assert y[j] == B[j];
      MulStrict(ai, y[j], BASE, BASE);
      var x := ai * y[j];
      MultAdd(z, zs, off + j, x);
      RowAdvance(B, j, ai, x, off, p, Z, zs);
      j := j + 1;
    }
    assert B[..j] == B;
  }

  /**
   * The double loop of `bn_mult`: add a[i] b[j] at limb i + j for every pair
   * of limbs into r, which starts at zero and is large enough for a b.
   */
  method Products(a: Bn, b: Bn, r: Bn)
    requires a.Valid() && b.Valid() && r.Valid() && r.number != a.number && r.number != b.number
    requires r.Mag() == 0 && a.Mag() * b.Mag() < Weight(r.size)
    modifies r.number
    ensures r.Valid() && r.Mag() == a.Mag() * b.Mag()
  {
    ghost var A, B := a.Limbs(), b.Limbs();
    var i := 0;
    while i < a.size
      invariant 0 <= i <= a.size && r.Valid() && r.Mag() == Nat(A[..i]) * Nat(B)
    {
      RowDone(A, B, i);
      ProductRow(a.number[i], b.number, b.size, r.number, r.size, i, r.Mag());
      i := i + 1;
    }
    assert A[..i] == A;
  }

  /** The sign rule: the magnitudes multiply and the signs combine by exclusive or. */
  lemma {:induction false} SignedProduct(sa: bool, sb: bool, ma: int, mb: int, va: int, vb: int, m: int, v: int)
    requires va == (if sa then -ma else ma) && vb == (if sb then -mb else mb)
    requires m == ma * mb && v == (if sa != sb then -m else m)
    ensures v == va * vb
  {
    if sa {
      assert (-ma) * vb == -(ma * vb);
    }
    if sb {
      assert va * (-mb) == -(va * mb);
    }
  }

  /** The limbs `bn_mult` leaves: a non-zero product has at most one superfluous limb. */
  lemma {:induction false} ProductShape(s: seq<nat>, x: nat, y: nat)
    requires |s| == ProductSize(BitLen(x), BitLen(y)) && Nat(s) == x * y
    ensures Nat(s) > 0 ==> Snug(s)
  {
    ProductFits(x, y);
    SnugAt(s, Nat(s));
  }

  /** Snug, stated on a value v standing for Nat(s). */
  lemma {:induction false} SnugAt(s: seq<nat>, v: int)
    requires |s| >= 1 && v == Nat(s) && (v > 0 ==> 2 * v >= Weight(|s| - 1))
    ensures v > 0 ==> Snug(s)
  {
  }

  /** The `c != a, c != b` branch of `bn_mult`: clear c's limbs, then resize it to d limbs. */
  method Clear(c: Bn, d: nat)
    requires c.Valid() && d >= 1
    modifies c, c.number
    ensures c.Valid() && c.Mag() == 0 && c.size == d && c.sign == old(c.sign)
    ensures c.number == old(c.number) || fresh(c.number)
  {
    forall i | 0 <= i < c.size {
      c.number[i] := 0;
    }
    assert c.Limbs() == Zeros(c.size);
    Resize(c, d);
    assert c.Limbs() == Zeros(d);
    NatZeros(d);
  }

  /**
   * `bn_mult`: c = a b by long multiplication into a zeroed result of
   * DIV_ROUNDUP(msb a + msb b, 64) limbs (at least one).  When c is a or b
   * the product goes to a fresh `bn` that is swapped into c at the end.
   */
  method Mult(a: Bn, b: Bn, c: Bn)
    requires a.Valid() && b.Valid() && c.Valid() && Apart(a, c) && Apart(b, c)
    modifies c, c.number
    ensures c.Valid() && c.Value() == old(a.Value()) * old(b.Value())
    ensures c.Mag() == old(a.Mag()) * old(b.Mag()) && c.sign == (old(a.sign) != old(b.sign))
    ensures c.size == ProductSize(BitLen(old(a.Mag())), BitLen(old(b.Mag())))
    ensures c.Mag() > 0 ==> Snug(c.Limbs())
    ensures c.number == old(c.number) || fresh(c.number)
  {
    var ma := Msb(a);
    var mb := Msb(b);
    var d := ma + mb;
    d := (d + 63) / 64 + (if d == 0 then 1 else 0);
    MultSized(a, b, c, d);
  }

  /** The rest of `bn_mult` once the result size d is known. */
  method MultSized(a: Bn, b: Bn, c: Bn, d: nat)
    requires a.Valid() && b.Valid() && c.Valid() && Apart(a, c) && Apart(b, c)
    requires d == ProductSize(BitLen(a.Mag()), BitLen(b.Mag()))
    modifies c, c.number
    ensures c.Valid() && c.Value() == old(a.Value()) * old(b.Value())
    ensures c.Mag() == old(a.Mag()) * old(b.Mag()) && c.sign == (old(a.sign) != old(b.sign))
    ensures c.size == d && (c.Mag() > 0 ==> Snug(c.Limbs()))
    ensures c.number == old(c.number) || fresh(c.number)
  {
    if c == a || c == b {
      var tmp := new Bn(d);
      ProductInto(a, b, tmp);
      Swap(c, tmp);
    } else {
      Clear(c, d);
      ProductInto(a, b, c);
    }
  }

  /** The product of a and b into r, whose limbs are zero, signed as `bn_mult` signs it. */
  method ProductInto(a: Bn, b: Bn, r: Bn)
    requires a.Valid() && b.Valid() && r.Valid() && r.number != a.number && r.number != b.number
    requires r.Mag() == 0 && r.size == ProductSize(BitLen(a.Mag()), BitLen(b.Mag()))
    modifies r, r.number
    ensures r.Valid() && r.Value() == old(a.Value()) * old(b.Value())
    ensures r.Mag() == old(a.Mag()) * old(b.Mag()) && r.sign == (old(a.sign) != old(b.sign))
    ensures r.size == old(r.size) && (r.Mag() > 0 ==> Snug(r.Limbs()))
    ensures r.number == old(r.number)
  {
    ghost var MA, MB, VA, VB := a.Mag(), b.Mag(), a.Value(), b.Value();
    ghost var SA, SB := a.sign, b.sign;
    ProductBelow(MA, MB);
    Products(a, b, r);
    r.sign := a.sign != b.sign;
    ProductShape(r.Limbs(), MA, MB);
    SignedProduct(SA, SB, MA, MB, VA, VB, r.Mag(), r.Value());
  }
}
