/**
 * Arithmetic on little-endian sequences of 64-bit limbs: the abstraction
 * function that gives a limb sequence its value, powers, bit lengths and the
 * shape predicates (trimmed, snug, sized consistently) that bn.c relies on.
 */
module Limbs {

  /** The radix of one limb: `bn_data` is a 64-bit unsigned word. */
  const BASE: nat := 0x1_0000_0000_0000_0000

  /** b to the power e. */
  function Pow(b: nat, e: nat): (r: nat)
    ensures b > 0 ==> r > 0
  {
    if e == 0 then 1 else b * Pow(b, e - 1)
  }

  /** The weight of limb i, 2^(64 i). */
  function Weight(i: nat): nat
  {
    Pow(2, 64 * i)
  }

  /** Every entry fits in a 64-bit word. */
  predicate IsLimbs(s: seq<nat>)
  {
    forall i :: 0 <= i < |s| ==> s[i] < BASE
  }

  /** The value of a limb sequence, least significant limb first. */
  function Nat(s: seq<nat>): nat
  {
    if |s| == 0 then 0 else s[0] + BASE * Nat(s[1..])
  }

  /** k zero limbs. */
  function Zeros(k: nat): (z: seq<nat>)
    ensures |z| == k && forall i :: 0 <= i < k ==> z[i] == 0
  {
    seq(k, _ => 0)
  }

  /** No zero limb on top, except that zero itself is one zero limb. */
  predicate Trimmed(s: seq<nat>)
  {
    |s| >= 1 && (|s| == 1 || s[|s| - 1] != 0)
  }

  /**
   * At most one superfluous top limb, and only when the value is exactly
   * 64 (size - 1) bits long: 2^(64 (size - 1) - 1) <= value.
   */
  predicate Snug(s: seq<nat>)
  {
    |s| >= 1 && (|s| == 1 || 2 * Nat(s) >= Weight(|s| - 1))
  }

  /**
   * Comparing by size first gives the right answer: the sizes are equal, or
   * the longer operand has a non-zero top limb.
   */
  predicate SizedConsistently(s: seq<nat>, t: seq<nat>)
  {
    |s| >= 1 && |t| >= 1 &&
    (|s| == |t| || (|s| > |t| && s[|s| - 1] != 0) || (|t| > |s| && t[|t| - 1] != 0))
  }

  /** The number of bits needed to write x in binary (0 for 0). */
  function BitLen(x: nat): nat
  {
    if x == 0 then 0 else 1 + BitLen(x / 2)
  }

  /** -1, 0 or 1 as x is negative, zero or positive. */
  function Sgn(x: int): int
  {
    if x > 0 then 1 else if x < 0 then -1 else 0
  }

  // ---------------------------------------------------------------- powers

  lemma {:induction false} PowAdd(b: nat, x: nat, y: nat)
    ensures Pow(b, x + y) == Pow(b, x) * Pow(b, y)
  {
    if x > 0 {
      PowAdd(b, x - 1, y);
      var p, q := Pow(b, x - 1), Pow(b, y);
      MulAssoc(b, p, q);
    }
  }

  lemma {:induction false} MulAssoc(a: int, b: int, c: int)
    ensures a * (b * c) == (a * b) * c
  {
  }

  lemma {:induction false} PowMono(b: nat, x: nat, y: nat)
    requires b >= 1 && x <= y
    ensures Pow(b, x) <= Pow(b, y)
  {
    if x < y {
      PowMono(b, x, y - 1);
      assert Pow(b, y) == b * Pow(b, y - 1);
    }
  }

  /** 2^32, the range of a 32-bit word. */
  lemma {:induction false} Pow2Word()
    ensures Pow(2, 32) == 0x1_0000_0000
  {
    assert Pow(2, 2) == 4;
    PowAdd(2, 2, 2);
    assert Pow(2, 4) == 16;
    PowAdd(2, 4, 4);
    assert Pow(2, 8) == 0x100;
    PowAdd(2, 8, 8);
    assert Pow(2, 16) == 0x1_0000;
    PowAdd(2, 16, 16);
  }

  lemma {:induction false} Pow2Base()
    ensures Pow(2, 64) == BASE
  {
    Pow2Word();
    PowAdd(2, 32, 32);
  }

  lemma {:induction false} WeightNext(i: nat)
    ensures Weight(i + 1) == BASE * Weight(i)
  {
    PowAdd(2, 64, 64 * i);
    Pow2Base();
    assert 64 * (i + 1) == 64 + 64 * i;
  }

  lemma {:induction false} WeightAdd(i: nat, j: nat)
    ensures Weight(i + j) == Weight(i) * Weight(j)
  {
    PowAdd(2, 64 * i, 64 * j);
    assert 64 * (i + j) == 64 * i + 64 * j;
  }

  // -------------------------------------------------------------- Nat

  lemma {:induction false} NatConcat(s: seq<nat>, t: seq<nat>)
    ensures Nat(s + t) == Nat(s) + Weight(|s|) * Nat(t)
  {
    if |s| == 0 {
      assert s + t == t;
    } else {
      assert (s + t)[1..] == s[1..] + t;
      NatConcat(s[1..], t);
      WeightNext(|s| - 1);
      ConcatArith(s[0], Nat(s[1..]), Weight(|s| - 1), Nat(t), Nat(s[1..] + t), Weight(|s|));
    }
  }

  /** The arithmetic step of NatConcat, on plain numbers. */
  lemma {:induction false} ConcatArith(x: int, a: int, w: int, b: int, r: int, v: int)
    requires r == a + w * b && v == BASE * w
    ensures x + BASE * r == (x + BASE * a) + v * b
  {
  }

  lemma {:induction false} NatSingle(x: nat)
    ensures Nat([x]) == x
  {
    assert [x][1..] == [];
  }

  lemma {:induction false} NatSplit(s: seq<nat>, i: nat)
    requires i <= |s|
    ensures Nat(s) == Nat(s[..i]) + Weight(i) * Nat(s[i..])
  {
    assert s == s[..i] + s[i..];
    NatConcat(s[..i], s[i..]);
  }

  lemma {:induction false} NatSnoc(s: seq<nat>, x: nat)
    ensures Nat(s + [x]) == Nat(s) + x * Weight(|s|)
  {
    NatConcat(s, [x]);
    NatSingle(x);
  }

  /** The prefix of full length is the sequence itself. */
  lemma {:induction false} TakeAll(s: seq<nat>)
    ensures s[..|s|] == s
  {
  }

  lemma {:induction false} NatPrefixStep(s: seq<nat>, i: nat)
    requires i < |s|
    ensures Nat(s[..i + 1]) == Nat(s[..i]) + s[i] * Weight(i)
  {
    assert s[..i + 1] == s[..i] + [s[i]];
    NatConcat(s[..i], [s[i]]);
    NatSingle(s[i]);
  }

  lemma {:induction false} NatBound(s: seq<nat>)
    requires IsLimbs(s)
    ensures Nat(s) < Weight(|s|)
  {
    if |s| == 0 {
    } else {
      NatBound(s[1..]);
      WeightNext(|s| - 1);
      calc {
        Nat(s);
        s[0] + BASE * Nat(s[1..]);
      <= BASE - 1 + BASE * (Weight(|s| - 1) - 1);
        BASE * Weight(|s| - 1) - 1;
      <  Weight(|s|);
      }
    }
  }

  lemma {:induction false} NatZero(s: seq<nat>)
    ensures Nat(s) == 0 <==> forall i :: 0 <= i < |s| ==> s[i] == 0
  {
    if |s| > 0 {
      NatZero(s[1..]);
      if Nat(s) == 0 {
        assert s[0] == 0 && Nat(s[1..]) == 0;
        forall i | 0 <= i < |s| ensures s[i] == 0 {
          if i > 0 { assert s[i] == s[1..][i - 1]; }
        }
      } else {
        if forall i :: 0 <= i < |s| ==> s[i] == 0 {
          forall i | 0 <= i < |s| - 1 ensures s[1..][i] == 0 {
            assert s[1..][i] == s[i + 1];
          }
          assert false;
        }
      }
    }
  }

  lemma {:induction false} NatZeros(k: nat)
    ensures Nat(Zeros(k)) == 0
  {
    NatZero(Zeros(k));
  }

  /** Zero limbs on top add nothing. */
  lemma {:induction false} NatDropZeros(s: seq<nat>, k: nat)
    requires k <= |s|
    requires forall j :: k <= j < |s| ==> s[j] == 0
    ensures Nat(s) == Nat(s[..k])
  {
    NatSplit(s, k);
    NatZero(s[k..]);
  }

  /** Limbs at index k and above are zero when the value is below Weight(k). */
  lemma {:induction false} NatHighZero(s: seq<nat>, k: nat)
    requires k <= |s| && Nat(s) < Weight(k)
    ensures Nat(s) == Nat(s[..k])
    ensures forall j :: k <= j < |s| ==> s[j] == 0
  {
    NatSplit(s, k);
    SmallSumHigh(Nat(s[..k]), Nat(s[k..]), Weight(k));
    NatZero(s[k..]);
    forall j | k <= j < |s| ensures s[j] == 0 {
      assert s[j] == s[k..][j - k];
    }
  }

  /** A trimmed sequence of n > 1 limbs is at least 2^(64 (n - 1)). */
  lemma {:induction false} TrimmedLower(s: seq<nat>)
    requires Trimmed(s) && |s| > 1
    ensures Weight(|s| - 1) <= Nat(s)
  {
    var n := |s|;
    NatSplit(s, n - 1);
    assert s[n - 1..] == [s[n - 1]];
    NatSingle(s[n - 1]);
    HighDigitLower(Nat(s[..n - 1]), s[n - 1], Weight(n - 1));
  }

  lemma {:induction false} HighDigitLower(lo: nat, x: nat, w: nat)
    requires x >= 1
    ensures w <= lo + w * x
  {
    LowerMul(1, x, w);
  }

  /** A trimmed sequence is snug. */
  lemma {:induction false} TrimmedSnug(s: seq<nat>)
    requires Trimmed(s)
    ensures Snug(s)
  {
    if |s| > 1 {
      TrimmedLower(s);
    }
  }

  // ------------------------------------------------------------ bit length

  lemma {:induction false} BitLenBounds(x: nat)
    ensures x < Pow(2, BitLen(x))
    ensures x > 0 ==> BitLen(x) >= 1 && Pow(2, BitLen(x) - 1) <= x
  {
    if x > 0 {
      BitLenBounds(x / 2);
    }
  }

  lemma {:induction false} BitLenUnique(x: nat, k: nat)
    requires k >= 1 && Pow(2, k - 1) <= x < Pow(2, k)
    ensures BitLen(x) == k
  {
    if k > 1 {
      assert Pow(2, k - 1) == 2 * Pow(2, k - 2);
      BitLenUnique(x / 2, k - 1);
    }
  }

  lemma {:induction false} BitLenAtMost(x: nat, k: nat)
    requires x < Pow(2, k)
    ensures BitLen(x) <= k
  {
    if x > 0 {
      assert k >= 1;
      BitLenAtMost(x / 2, k - 1);
    }
  }

  lemma {:induction false} BitLenMono(x: nat, y: nat)
    requires x <= y
    ensures BitLen(x) <= BitLen(y)
  {
    BitLenBounds(y);
    BitLenAtMost(x, BitLen(y));
  }

  /** The bit length of a limb sequence is fixed by its highest non-zero limb. */
  lemma {:induction false} NatBitLen(s: seq<nat>, i: nat)
    requires IsLimbs(s) && i < |s| && s[i] != 0
    requires forall j :: i < j < |s| ==> s[j] == 0
    ensures BitLen(Nat(s)) == 64 * i + BitLen(s[i])
  {
    NatDropZeros(s, i + 1);
    NatPrefixStep(s, i);
    NatBound(s[..i]);
    BitLenShifted(Nat(s[..i]), s[i], 64 * i, Nat(s));
  }

  /** Placing x above e low bits adds e to its bit length. */
  lemma {:induction false} BitLenShifted(lo: nat, x: nat, e: nat, v: nat)
    requires lo < Pow(2, e) && x > 0 && v == lo + x * Pow(2, e)
    ensures BitLen(v) == e + BitLen(x)
  {
    var b := BitLen(x);
    BitLenBounds(x);
    assert Pow(2, b) == 2 * Pow(2, b - 1);
    PowAdd(2, b - 1, e);
    PowAdd(2, b, e);
    assert b - 1 + e == e + b - 1;
    ShiftedBetween(lo, x, Pow(2, e), Pow(2, b - 1), v);
    BitLenUnique(v, e + b);
  }

  /** lo + x w with lo < w and p <= x < 2 p lies in [p w, 2 p w). */
  lemma {:induction false} ShiftedBetween(lo: nat, x: nat, w: nat, p: nat, v: nat)
    requires lo < w && p <= x < 2 * p && v == lo + x * w
    ensures p * w <= v < (2 * p) * w
  {
    LowerMul(p, x, w);
    LowerMul(x + 1, 2 * p, w);
    assert lo + x * w < (x + 1) * w;
  }

  /** lo + w h < w forces h = 0. */
  lemma {:induction false} SmallSumHigh(lo: nat, h: nat, w: nat)
    requires lo + w * h < w
    ensures h == 0
  {
    if h != 0 {
      LowerMul(1, h, w);
    }
  }

  lemma {:induction false} LowerMul(a: nat, b: nat, c: nat)
    requires a <= b
    ensures a * c <= b * c
  {
  }

  lemma {:induction false} MulLess(a: nat, b: nat, c: nat)
    requires a < b && c > 0
    ensures a * c < b * c
  {
    LowerMul(a + 1, b, c);
  }

  /** A sequence of n limbs holds at most 64 n bits. */
  lemma {:induction false} NatBitLenBound(s: seq<nat>)
    requires IsLimbs(s)
    ensures BitLen(Nat(s)) <= 64 * |s|
  {
    NatBound(s);
    BitLenAtMost(Nat(s), 64 * |s|);
  }

  /** `__builtin_clzll`: the leading zero bits of a non-zero 64-bit word. */
  function Clz64(x: nat): (r: nat)
    requires 0 < x < BASE
    ensures r < 64 && Pow(2, 63 - r) <= x < Pow(2, 64 - r)
    ensures r == 64 - BitLen(x)
  {
    Pow2Base();
    BitLenAtMost(x, 64);
    BitLenBounds(x);
    64 - BitLen(x)
  }

  /** For limb sequences, trimmed means the value needs every limb. */
  lemma {:induction false} TrimmedIff(s: seq<nat>)
    requires IsLimbs(s) && |s| >= 1
    ensures Trimmed(s) <==> (|s| == 1 || Weight(|s| - 1) <= Nat(s))
  {
    var n := |s|;
    if n > 1 {
      if s[n - 1] == 0 {
        NatDropZeros(s, n - 1);
        NatBound(s[..n - 1]);
      } else {
        TrimmedLower(s);
      }
    }
  }

  /** A prefix never weighs more than the whole. */
  lemma {:induction false} NatPrefixLe(s: seq<nat>, k: nat)
    requires k <= |s|
    ensures Nat(s[..k]) <= Nat(s)
  {
    NatSplit(s, k);
  }

  /** Weight is monotonic. */
  lemma {:induction false} WeightMono(i: nat, j: nat)
    requires i <= j
    ensures Weight(i) <= Weight(j)
  {
    PowMono(2, 64 * i, 64 * j);
  }

  /** Equal high limbs, and a larger limb at i, make the larger number. */
  lemma {:induction false} LexGreater(s: seq<nat>, t: seq<nat>, i: nat)
    requires IsLimbs(s) && IsLimbs(t) && |s| == |t| && i < |s|
    requires s[i] > t[i] && forall j :: i < j < |s| ==> s[j] == t[j]
    ensures Nat(s) > Nat(t)
  {
    NatSplit(s, i + 1);
    NatSplit(t, i + 1);
    assert s[i + 1..] == t[i + 1..];
    NatPrefixStep(s, i);
    NatPrefixStep(t, i);
    NatBound(t[..i]);
    DigitGreater(Nat(s[..i]), s[i], Nat(t[..i]), t[i], Weight(i));
  }

  lemma {:induction false} DigitGreater(ls: nat, x: nat, lt: nat, y: nat, w: nat)
    requires lt < w && x > y
    ensures ls + x * w > lt + y * w
  {
    LowerMul(y + 1, x, w);
  }

  /** Equal limb sequences of equal size give equal values; used by bn_cmp's final case. */
  lemma {:induction false} LexEqual(s: seq<nat>, t: seq<nat>)
    requires |s| == |t| && forall j :: 0 <= j < |s| ==> s[j] == t[j]
    ensures Nat(s) == Nat(t)
  {
    assert s == t;
  }

  /** `x << k` on a 64-bit word. */
  function Shl(x: nat, k: nat): nat
  {
    (x * Pow(2, k)) % BASE
  }

  /** `x >> k`. */
  function Shr(x: nat, k: nat): nat
  {
    x / Pow(2, k)
  }

  lemma {:induction false} DivModUnique(n: nat, d: nat, q: nat, r: nat)
    requires d > 0 && n == q * d + r && r < d
    ensures n / d == q && n % d == r
  {
    var q', r' := n / d, n % d;
    assert n == q' * d + r';
    if q' > q {
      LowerMul(q + 1, q', d);
    } else if q' < q {
      LowerMul(q' + 1, q, d);
    }
  }

  /** x / 2P, doubled, plus bit 0 of x / P, is x / P. */
  lemma {:induction false} HalveDiv(x: nat, p: nat)
    requires p > 0
    ensures 2 * (x / (2 * p)) + (x / p) % 2 == x / p
  {
    var q := x / p;
    var h, e := q / 2, q % 2;
    assert x == (2 * h) * p + (e * p + x % p) by {
      assert x == q * p + x % p;
      assert q * p == (2 * h + e) * p;
    }
    LowerMul(e * p + x % p + 1, 2 * p, 1);
    assert (2 * h) * p == h * (2 * p);
    DivModUnique(x, 2 * p, h, e * p + x % p);
  }

  /** Multiplying by a, where a b = w: the remainder and quotient by w. */
  lemma {:induction false} MulSplit(x: nat, a: nat, b: nat, w: nat)
    requires a > 0 && b > 0 && a * b == w
    ensures (x * a) % w == (x % b) * a && (x * a) / w == x / b
    ensures (x % b) * a <= w - a
  {
    var q, r := x / b, x % b;
    calc {
      x * a;
      (q * b + r) * a;
      q * b * a + r * a;
      { assert q * b * a == q * (a * b); }
      q * w + r * a;
    }
    LowerMul(r, b - 1, a);
    assert (b - 1) * a == w - a;
    DivModUnique(x * a, w, q, r * a);
  }

  /**
   * Shifting a word left by 0 < k < 64 bits: the bits kept in the word and
   * the bits carried out into the next word.
   */
  lemma {:induction false} ShiftSplit(x: nat, k: nat)
    requires 0 < k < 64
    ensures x * Pow(2, k) == Shl(x, k) + Shr(x, 64 - k) * BASE
    ensures Shl(x, k) == (x % Pow(2, 64 - k)) * Pow(2, k)
    ensures Shl(x, k) <= BASE - Pow(2, k)
  {
    var a, b := Pow(2, k), Pow(2, 64 - k);
    PowAdd(2, k, 64 - k);
    Pow2Base();
    MulSplit(x, a, b, BASE);
    var n := x * a;
    assert n == (n / BASE) * BASE + n % BASE;
  }

  /**
   * `hi << k | lo >> (64 - k)`: the two parts occupy disjoint bits, so the
   * bitwise or is their sum, and it fits in a word.
   */
  lemma {:induction false} ShiftedLimbFits(hi: nat, lo: nat, k: nat)
    requires 0 < k < 64 && lo < BASE
    ensures Shl(hi, k) + Shr(lo, 64 - k) < BASE
  {
    var a, b := Pow(2, k), Pow(2, 64 - k);
    PowAdd(2, k, 64 - k);
    Pow2Base();
    ShiftSplit(hi, k);
    QuotientBound(lo, a, b, BASE);
  }

  lemma {:induction false} QuotientBound(y: nat, a: nat, b: nat, w: nat)
    requires b > 0 && a * b == w && y < w
    ensures y / b < a
  {
    if y / b >= a {
      LowerMul(a, y / b, b);
    }
  }

  /** Carry-out of a sum that fits in w must be zero. */
  lemma {:induction false} NoCarry(lo: nat, h: nat, w: nat, x: int)
    requires lo + h * w == x && x < w
    ensures h == 0 && lo == x
  {
    if h != 0 {
      LowerMul(1, h, w);
    }
  }

  // ------------------------------------------------------------ padding

  /** Limb j of s, or 0 above its length. */
  function Digit(s: seq<nat>, j: nat): nat
  {
    if j < |s| then s[j] else 0
  }

  /** s cut or zero-extended to exactly n limbs. */
  function Ext(s: seq<nat>, n: nat): (r: seq<nat>)
    ensures |r| == n
  {
    seq(n, j requires 0 <= j < n => Digit(s, j))
  }

  /** Cutting or padding to n limbs keeps a value that fits in n limbs. */
  lemma {:induction false} ExtNat(s: seq<nat>, n: nat)
    requires IsLimbs(s) && Nat(s) < Weight(n)
    ensures IsLimbs(Ext(s, n)) && Nat(Ext(s, n)) == Nat(s)
  {
    var e := Ext(s, n);
    if n >= |s| {
      assert e == s + Zeros(n - |s|);
      NatConcat(s, Zeros(n - |s|));
      NatZeros(n - |s|);
    } else {
      NatHighZero(s, n);
      assert e == s[..n];
    }
  }
}
