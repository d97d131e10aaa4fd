/**
 * The comparator and bit scanner of bn.c: leading-zero count, bit length,
 * magnitude comparison and the two left shifts.
 */
module BitScan {
  import opened Limbs
  import opened Bignum

  /** `bn_clz`: the zero bits above the highest set bit of the whole limb array. */
  method Clz(src: Bn) returns (cnt: nat)
    requires src.Valid()
    ensures cnt == 64 * src.size - BitLen(src.Mag())
  {
    ghost var s := src.Limbs();
    cnt := 0;
    var i: int := src.size - 1;
    while i >= 0
      invariant -1 <= i < src.size
      invariant cnt == 64 * (src.size - 1 - i)
      invariant forall j :: i < j < src.size ==> s[j] == 0
    {
      if src.number[i] != 0 {
        cnt := cnt + Clz64(src.number[i]);
        NatBitLen(s, i);
        return;
      }
      cnt := cnt + 64;
      i := i - 1;
    }
    NatZero(s);
  }

  /** `bn_msb`: the bit length of the magnitude. */
  method Msb(src: Bn) returns (r: nat)
    requires src.Valid()
    ensures r == BitLen(src.Mag())
    ensures src.Mag() < Pow(2, r) && (src.Mag() > 0 ==> Pow(2, r - 1) <= src.Mag())
  {
    var z := Clz(src);
    NatBitLenBound(src.Limbs());
    BitLenBounds(src.Mag());
    r := src.size * 64 - z;
  }

  /** What `bn_cmp` answers: by size first, then by value between equal sizes. */
  function CmpBySize(s: seq<nat>, t: seq<nat>): int
  {
    if |s| > |t| then 1 else if |s| < |t| then -1 else Sgn(Nat(s) - Nat(t))
  }

  /**
   * `bn_cmp`: 1, -1 or 0 by size, then limb by limb from the most
   * significant, which between equal sizes is the order of the magnitudes.
   */
  method Cmp(a: Bn, b: Bn) returns (r: int)
    requires a.Valid() && b.Valid()
    ensures r == CmpBySize(a.Limbs(), b.Limbs())
  {
    if a.size > b.size {
      return 1;
    } else if a.size < b.size {
      return -1;
    }
    ghost var s, t := a.Limbs(), b.Limbs();
    var i: int := a.size - 1;
    while i >= 0
      invariant -1 <= i < a.size
      invariant forall j :: i < j < a.size ==> s[j] == t[j]
    {
      if a.number[i] > b.number[i] {
        LexGreater(s, t, i);
        return 1;
      }
      if a.number[i] < b.number[i] {
        LexGreater(t, s, i);
        return -1;
      }
      i := i - 1;
    }
    LexEqual(s, t);
    return 0;
  }

  /**
   * Comparing by size first is comparing the magnitudes whenever the operands
   * are sized consistently (in particular when both are trimmed); the answer
   * is then antisymmetric, and 0 exactly on equal magnitudes.
   */
  lemma {:induction false} CmpBySizeSound(s: seq<nat>, t: seq<nat>)
    requires IsLimbs(s) && IsLimbs(t) && SizedConsistently(s, t)
    ensures CmpBySize(s, t) == Sgn(Nat(s) - Nat(t))
    ensures CmpBySize(t, s) == -CmpBySize(s, t)
    ensures CmpBySize(s, t) == 0 <==> Nat(s) == Nat(t)
  {
    if |s| > |t| {
      TrimmedLower(s);
      NatBound(t);
      WeightMono(|t|, |s| - 1);
    } else if |s| < |t| {
      TrimmedLower(t);
      NatBound(s);
      WeightMono(|s|, |t| - 1);
    }
  }

  /** Limb i that `bn_lshift`'s loop writes: `s[i] << k | s[i-1] >> (64 - k)`, and `s[0] << k` at the bottom. */
  function ShiftedLimb(s: seq<nat>, k: nat, i: nat): nat
    requires i < |s| && 0 < k < 64
  {
    if i == 0 then Shl(s[0], k) else Shl(s[i], k) + Shr(s[i - 1], 64 - k)
  }

  /** The limbs that `bn_lshift`'s loop writes. */
  function Shifted(s: seq<nat>, k: nat): (r: seq<nat>)
    requires |s| >= 1 && 0 < k < 64
    ensures |r| == |s|
  {
    seq(|s|, i requires 0 <= i < |s| => ShiftedLimb(s, k, i))
  }

  /** The shifted limbs, plus the bits pushed out of the top limb, are the value times 2^k. */
  lemma {:induction false} NatShifted(s: seq<nat>, k: nat)
    requires IsLimbs(s) && |s| >= 1 && 0 < k < 64
    ensures IsLimbs(Shifted(s, k))
    ensures Nat(Shifted(s, k)) + Shr(s[|s| - 1], 64 - k) * Weight(|s|) == Nat(s) * Pow(2, k)
  {
    ShiftedWords(s, k);
    if |s| == 1 {
      ShiftedSingle(s, k);
    } else {
      NatShifted(s[..|s| - 1], k);
      ShiftedNext(s, k);
    }
  }

  /** Every shifted limb fits in a word. */
  lemma {:induction false} ShiftedWords(s: seq<nat>, k: nat)
    requires IsLimbs(s) && |s| >= 1 && 0 < k < 64
    ensures IsLimbs(Shifted(s, k))
  {
    var t := Shifted(s, k);
    forall i | 0 <= i < |s| ensures t[i] < BASE {
      ShiftedLimbFits(s[i], if i == 0 then 0 else s[i - 1], k);
    }
  }

  /** A single limb x: x << k plus the bits pushed out, x >> (64 - k), times 2^64. */
  lemma {:induction false} ShiftedSingle(s: seq<nat>, k: nat)
    requires |s| == 1 && 0 < k < 64
    ensures Nat(Shifted(s, k)) + Shr(s[0], 64 - k) * Weight(1) == Nat(s) * Pow(2, k)
  {
    var x := s[0];
    ShiftSplit(x, k);
    assert Shifted(s, k) == [Shl(x, k)] && s == [x];
    NatSingle(Shl(x, k));
    NatSingle(x);
    WeightNext(0);
  }

  /** One more limb on top: the statement for s follows from the statement for s without its top limb. */
  lemma {:induction false} ShiftedNext(s: seq<nat>, k: nat)
    requires IsLimbs(s) && |s| >= 2 && 0 < k < 64
    requires Nat(Shifted(s[..|s| - 1], k)) + Shr(s[|s| - 2], 64 - k) * Weight(|s| - 1) == Nat(s[..|s| - 1]) * Pow(2, k)
    ensures Nat(Shifted(s, k)) + Shr(s[|s| - 1], 64 - k) * Weight(|s|) == Nat(s) * Pow(2, k)
  {
    var n := |s|;
    var t := Shifted(s, k);
    var x := s[n - 1];
    ShiftSplit(x, k);
    ShiftedPrefix(s, k, n - 1);
    assert t[n - 1] == Shl(x, k) + Shr(s[n - 2], 64 - k);
    NatPrefixStep(t, n - 1);
    NatPrefixStep(s, n - 1);
    TakeAll(t);
    TakeAll(s);
    WeightNext(n - 1);
    ShiftCombine(Nat(Shifted(s[..n - 1], k)), Nat(s[..n - 1]), x, Shl(x, k), Shr(x, 64 - k),
                 Shr(s[n - 2], 64 - k), Pow(2, k), Weight(n - 1), Nat(t), Nat(s), t[n - 1], Weight(n));
  }

  /** The arithmetic of ShiftedNext on plain numbers. */
  lemma {:induction false} ShiftCombine(nt: nat, ns: nat, x: nat, lo: nat, hi: nat, c: nat, p: nat, w: nat,
                                        T: int, S: int, tn: int, wn: int)
    requires nt + c * w == ns * p && x * p == lo + hi * BASE
    requires T == nt + tn * w && tn == lo + c && S == ns + x * w && wn == BASE * w
    ensures T + hi * wn == S * p
  {
    ShiftStep(nt, ns, x, lo, hi, c, p, w);
  }

  /** The shifted limbs of a prefix are a prefix of the shifted limbs. */
  lemma {:induction false} ShiftedPrefix(s: seq<nat>, k: nat, m: nat)
    requires 1 <= m <= |s| && 0 < k < 64
    ensures Shifted(s, k)[..m] == Shifted(s[..m], k)
  {
    forall i | 0 <= i < m
      ensures Shifted(s, k)[i] == Shifted(s[..m], k)[i]
    {
      SameShiftedLimb(s, s[..m], k, i);
    }
  }

  /** A shifted limb depends only on the limb and the one below it. */
  lemma {:induction false} SameShiftedLimb(s: seq<nat>, u: seq<nat>, k: nat, i: nat)
    requires i < |s| && i < |u| && 0 < k < 64 && s[i] == u[i] && (i > 0 ==> s[i - 1] == u[i - 1])
    ensures ShiftedLimb(s, k, i) == ShiftedLimb(u, k, i)
  {
  }

  lemma {:induction false} ShiftStep(nt: nat, ns: nat, x: nat, lo: nat, hi: nat, c: nat, p: nat, w: nat)
    requires nt + c * w == ns * p && x * p == lo + hi * BASE
    ensures nt + (lo + c) * w + hi * (BASE * w) == (ns + x * w) * p
  {
    calc {
      nt + (lo + c) * w + hi * (BASE * w);
      nt + c * w + lo * w + hi * BASE * w;
      ns * p + (lo + hi * BASE) * w;
      ns * p + x * p * w;
      (ns + x * w) * p;
    }
  }

  /** A shift by k (already reduced mod 64) grows the array: k exceeds the leading-zero count. */
  ghost predicate ShiftGrows(s: seq<nat>, k: nat)
  {
    k != 0 && k > 64 * |s| - BitLen(Nat(s))
  }

  /**
   * The value fits after the shift exactly when the shift does not exceed the
   * leading-zero count; otherwise it needs exactly one more limb.
   */
  lemma {:induction false} ShiftFits(m: nat, n: nat, k: nat)
    requires 0 < k < 64 && n >= 1 && BitLen(m) <= 64 * n
    ensures k <= 64 * n - BitLen(m) ==> m * Pow(2, k) < Weight(n)
    ensures k > 64 * n - BitLen(m) ==> Weight(n) <= m * Pow(2, k) < Weight(n + 1)
  {
    BitLenBounds(m);
    if k <= 64 * n - BitLen(m) {
      FitsBelow(m, BitLen(m), 64 * n, k);
    } else {
      FitsAbove(m, BitLen(m), 64 * n, k);
      assert 64 * (n + 1) == 64 * n + 64;
    }
  }

  /** m < 2^b and b + k <= big: m 2^k < 2^big. */
  lemma {:induction false} FitsBelow(m: nat, b: nat, big: nat, k: nat)
    requires m < Pow(2, b) && b + k <= big
    ensures m * Pow(2, k) < Pow(2, big)
  {
    var e := big - k;
    PowMono(2, b, e);
    MulLess(m, Pow(2, e), Pow(2, k));
    PowAdd(2, e, k);
  }

  /** 2^(b - 1) <= m < 2^b and big < b + k <= big + 64: 2^big <= m 2^k < 2^(big + 64). */
  lemma {:induction false} FitsAbove(m: nat, b: nat, big: nat, k: nat)
    requires b >= 1 && Pow(2, b - 1) <= m < Pow(2, b) && k <= big < b + k && b <= big && k < 64
    ensures Pow(2, big) <= m * Pow(2, k) < Pow(2, big + 64)
  {
    AtLeastShifted(m, b - 1, big - k, k);
    FitsBelow(m, b, big + 64, k);
  }

  /** 2^e <= m: 2^(e + k) <= m 2^k. */
  lemma {:induction false} AtLeastShifted(m: nat, b: nat, e: nat, k: nat)
    requires e <= b && Pow(2, b) <= m
    ensures Pow(2, e + k) <= m * Pow(2, k)
  {
    PowMono(2, e, b);
    LowerMul(Pow(2, e), m, Pow(2, k));
    PowAdd(2, e, k);
  }

  /**
   * The limbs both shifts write, from the source limbs s0 (with a zero limb
   * added when the shift grows the array), hold s0's value times 2^k, and
   * they are trimmed when s0 is.
   */
  lemma {:induction false} ShiftedValue(s0: seq<nat>, s: seq<nat>, k: nat)
    requires IsLimbs(s0) && |s0| >= 1 && 0 < k < 64
    requires s == if ShiftGrows(s0, k) then s0 + [0] else s0
    ensures IsLimbs(Shifted(s, k))
    ensures Nat(s) == Nat(s0)
    ensures Nat(Shifted(s, k)) == Nat(s0) * Pow(2, k)
    ensures ShiftGrows(s0, k) || Trimmed(s0) ==> Trimmed(Shifted(s, k))
  {
    var grows := ShiftGrows(s0, k);
    assert Nat(s) == Nat(s0) by {
      if grows {
        NatConcat(s0, [0]);
        NatSingle(0);
      }
    }
    NatShifted(s, k);
    var h := Shr(s[|s| - 1], 64 - k);
    assert grows ==> h == 0 by {
      if grows {
        assert s[|s| - 1] == 0;
      }
    }
    ShiftedShape(s0, Shifted(s, k), k, h, grows);
  }

  /** The shape half of ShiftedValue, over an arbitrary limb sequence t. */
  lemma {:induction false} ShiftedShape(s0: seq<nat>, t: seq<nat>, k: nat, h: nat, grows: bool)
    requires IsLimbs(s0) && |s0| >= 1 && 0 < k < 64 && IsLimbs(t)
    requires grows == ShiftGrows(s0, k) && |t| == |s0| + (if grows then 1 else 0)
    requires Nat(t) + h * Weight(|t|) == Nat(s0) * Pow(2, k)
    requires grows ==> h == 0
    ensures Nat(t) == Nat(s0) * Pow(2, k)
    ensures grows || Trimmed(s0) ==> Trimmed(t)
  {
    var m, n := Nat(s0), |s0|;
    NatBitLenBound(s0);
    if grows {
      GrownShape(t, m, n, k);
    } else {
      assert m * Pow(2, k) < Weight(n) by {
        ShiftFits(m, n, k);
      }
      NoCarry(Nat(t), h, Weight(n), m * Pow(2, k));
      if n > 1 && Trimmed(s0) {
        TrimmedLower(s0);
        KeptShape(t, m, n, k);
      }
    }
  }

  /** A shift that grows: the one extra limb is nonzero. */
  lemma {:induction false} GrownShape(t: seq<nat>, m: nat, n: nat, k: nat)
    requires IsLimbs(t) && |t| == n + 1 && n >= 1 && 0 < k < 64
    requires BitLen(m) <= 64 * n && k > 64 * n - BitLen(m)
    requires Nat(t) == m * Pow(2, k)
    ensures Trimmed(t)
  {
    ShiftFits(m, n, k);
    TrimmedIff(t);
  }

  /** A shift that fits: the top limb stays nonzero. */
  lemma {:induction false} KeptShape(t: seq<nat>, m: nat, n: nat, k: nat)
    requires IsLimbs(t) && |t| == n > 1 && Weight(n - 1) <= m
    requires Nat(t) == m * Pow(2, k)
    ensures Trimmed(t)
  {
    NoSmaller(m, Pow(2, k));
    TrimmedIff(t);
  }

  lemma {:induction false} NoSmaller(m: nat, p: nat)
    requires p >= 1
    ensures m <= m * p
  {
    LowerMul(1, p, m);
  }

  /**
   * The loop shared by `bn_lshift` and `bn_lshift2`: from the top limb down,
   * dest limb i becomes `src[i] << k | src[i-1] >> (64 - k)`, and limb 0
   * becomes `src[0] << k`.  Going downwards makes it safe in place.
   */
  method ShiftLimbs(src: Bn, dest: Bn, k: nat)
    requires src.Valid() && dest.Valid() && src.size == dest.size && 0 < k < 64
    requires src == dest || src.number != dest.number
    modifies dest.number
    ensures dest.Valid() && dest.Limbs() == Shifted(old(src.Limbs()), k)
  {
    ghost var s := src.Limbs();
    var i := src.size - 1;
    while i > 0
      invariant 0 <= i < src.size && dest.Valid()
      invariant forall j {:trigger src.number[j]} :: 0 <= j <= i ==> src.number[j] == s[j]
      invariant forall j {:trigger dest.number[j]} :: i < j < |s| ==> dest.number[j] == ShiftedLimb(s, k, j)
    {
      ShiftLimb(src.number, dest.number, i, k, s);
      i := i - 1;
    }
    ShiftLimb(src.number, dest.number, 0, k, s);
    assert dest.Limbs() == Shifted(s, k);
  }

  /** One step of the shift loop: dest limb i from src limbs i and i - 1 (limb 0 from src limb 0 alone). */
  method ShiftLimb(src: array<nat>, dest: array<nat>, i: nat, k: nat, ghost s: seq<nat>)
    requires i < |s| <= src.Length && |s| <= dest.Length && 0 < k < 64 && IsLimbs(s)
    requires src[i] == s[i] && (i > 0 ==> src[i - 1] == s[i - 1])
    modifies dest
    ensures dest[i] == ShiftedLimb(s, k, i) && dest[i] < BASE
    ensures forall j :: 0 <= j < dest.Length && j != i ==> dest[j] == old(dest[j])
  {
    if i == 0 {
      ShiftedLimbFits(src[0], 0, k);
      dest[0] := Shl(src[0], k);
    } else {
      ShiftedLimbFits(src[i], src[i - 1], k);
      dest[i] := Shl(src[i], k) + Shr(src[i - 1], 64 - k);
    }
  }

  /**
   * `bn_lshift`: multiply the magnitude by 2^(shift mod 64) in place, growing
   * by one limb when the shift exceeds the leading-zero count.
   */
  method Lshift(src: Bn, shift: nat)
    requires src.Valid()
    modifies src, src.number
    ensures src.Valid() && src.sign == old(src.sign)
    ensures src.Mag() == old(src.Mag()) * Pow(2, shift % 64)
    ensures src.size == old(src.size) + (if ShiftGrows(old(src.Limbs()), shift % 64) then 1 else 0)
    ensures shift % 64 == 0 ==> src.Limbs() == old(src.Limbs())
    ensures old(Trimmed(src.Limbs())) ==> Trimmed(src.Limbs())
    ensures src.number == old(src.number) || fresh(src.number)
  {
    var z := Clz(src);
    var sh := shift % 64;
    if sh == 0 {
      return;
    }
    if sh > z {
      Resize(src, src.size + 1);
    }
    ghost var s := src.Limbs();
    assert s == if ShiftGrows(old(src.Limbs()), sh) then old(src.Limbs()) + [0] else old(src.Limbs());
    ShiftLimbs(src, src, sh);
    ShiftedValue(old(src.Limbs()), s, sh);
  }

  /**
   * `bn_lshift2`: dest := |src| * 2^(shift mod 64), dest's sign untouched.
   * src keeps its value but gains a zero limb when the shift grows it; a
   * shift of 0 changes nothing, dest included.
   */
  method Lshift2(src: Bn, shift: nat, dest: Bn)
    requires src.Valid() && dest.Valid() && src != dest && Apart(src, dest)
    modifies src, src.number, dest, dest.number
    ensures src.Valid() && dest.Valid() && Apart(src, dest)
    ensures shift % 64 == 0 ==> unchanged(src, dest) && src.Limbs() == old(src.Limbs()) && dest.Limbs() == old(dest.Limbs())
    ensures src.sign == old(src.sign) && src.Mag() == old(src.Mag())
    ensures src.Limbs() == if ShiftGrows(old(src.Limbs()), shift % 64) then old(src.Limbs()) + [0] else old(src.Limbs())
    ensures dest.sign == old(dest.sign)
    ensures shift % 64 != 0 ==> dest.Mag() == old(src.Mag()) * Pow(2, shift % 64) && dest.size == src.size
    ensures shift % 64 != 0 && old(Trimmed(src.Limbs())) ==> Trimmed(dest.Limbs())
    ensures src.number == old(src.number) || fresh(src.number)
    ensures dest.number == old(dest.number) || fresh(dest.number)
  {
    var z := Clz(src);
    var sh := shift % 64;
    if sh == 0 {
      return;
    }
    MakeRoom(src, dest, sh, z);
    ghost var s := src.Limbs();
    ShiftLimbs(src, dest, sh);
    ShiftedValue(old(src.Limbs()), s, sh);
  }

  /**
   * The resizing step of `bn_lshift2`: dest gets src's size, both one limb
   * more when the shift by sh pushes bits past src's top limb.
   */
  method MakeRoom(src: Bn, dest: Bn, sh: nat, z: nat)
    requires src.Valid() && dest.Valid() && src != dest && Apart(src, dest)
    requires 0 < sh < 64 && z == 64 * src.size - BitLen(src.Mag())
    modifies src, src.number, dest, dest.number
    ensures src.Valid() && dest.Valid() && Apart(src, dest) && dest.size == src.size
    ensures src.sign == old(src.sign) && dest.sign == old(dest.sign)
    ensures src.Limbs() == if ShiftGrows(old(src.Limbs()), sh) then old(src.Limbs()) + [0] else old(src.Limbs())
    ensures src.number == old(src.number) || fresh(src.number)
    ensures dest.number == old(dest.number) || fresh(dest.number)
  {
    if sh > z {
      Resize(dest, src.size + 1);
      Resize(src, src.size + 1);
    } else {
      Resize(dest, src.size);
    }
  }
}
