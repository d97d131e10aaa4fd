/**
 * Addition and subtraction of bn.c: the magnitude adder `bn_do_add`, the
 * magnitude subtractor `bn_do_sub`, and the signed `bn_add` / `bn_sub`
 * built on them.
 */
module AddSub {
  import opened Limbs
  import opened Bignum
  import opened BitScan

  /** `(j < x->size) ? x->number[j] : 0`: limb j of x, or 0 above its size. */
  function Fetch(x: Bn, j: nat): (r: nat)
    reads x, x.number
    requires x.Valid()
    ensures r < BASE
  {
    if j < x.size then x.number[j] else 0
  }

  // ------------------------------------------------------------ bn_do_add

  /**
   * The size `bn_do_add` gives its result, DIV_ROUNDUP(MAX(msb a, msb b) + 1, 64),
   * is enough for the sum, and leaves at most one zero limb on top.
   */
  lemma {:induction false} AddSize(x: nat, y: nat, d: nat)
    requires d == (Max(BitLen(x), BitLen(y)) + 1 + 63) / 64
    ensures d >= 1 && x < Weight(d) && y < Weight(d) && x + y < Weight(d)
    ensures d >= 2 ==> Weight(d - 2) <= x + y
  {
    var m := Max(BitLen(x), BitLen(y));
    BitLenBounds(x);
    BitLenBounds(y);
    PowMono(2, BitLen(x), m);
    PowMono(2, BitLen(y), m);
    PowMono(2, m + 1, 64 * d);
    assert Pow(2, m + 1) == 2 * Pow(2, m);
    if d >= 2 {
      if BitLen(x) == m {
        PowMono(2, 64 * (d - 2), m - 1);
      } else {
        PowMono(2, 64 * (d - 2), m - 1);
      }
    }
  }

  function Max(x: nat, y: nat): nat
  {
    if x > y then x else y
  }

  /** One column of the adder: the digit written and the carry out keep the running sum. */
  lemma {:induction false} AddColumn(lc: int, la: int, lb: int, carry: nat, x: nat, y: nat, w: nat)
    requires lc + carry * w == la + lb
    ensures lc + ((carry + x + y) % BASE) * w + ((carry + x + y) / BASE) * (BASE * w)
            == (la + x * w) + (lb + y * w)
  {
    var t := carry + x + y;
    var q, r := t / BASE, t % BASE;
    assert t == q * BASE + r;
    calc {
      lc + r * w + q * (BASE * w);
      { assert q * (BASE * w) == (q * BASE) * w; }
      lc + (r + q * BASE) * w;
      lc + t * w;
      lc + carry * w + x * w + y * w;
    }
  }

  /** One iteration of the adder loop keeps its invariant. */
  lemma {:induction false} AddStep(pre: seq<nat>, EA: seq<nat>, EB: seq<nat>, i: nat, carry: nat, x: nat, y: nat)
    requires |pre| == i < |EA| == |EB| && x == EA[i] && y == EB[i]
    requires Nat(pre) + carry * Weight(i) == Nat(EA[..i]) + Nat(EB[..i])
    ensures Nat(pre + [(carry + x + y) % BASE]) + ((carry + x + y) / BASE) * Weight(i + 1)
            == Nat(EA[..i + 1]) + Nat(EB[..i + 1])
  {
    AddColumn(Nat(pre), Nat(EA[..i]), Nat(EB[..i]), carry, x, y, Weight(i));
    NatSnoc(pre, (carry + x + y) % BASE);
    NatPrefixStep(EA, i);
    NatPrefixStep(EB, i);
    WeightNext(i);
  }

  /**
   * The trimming step of `bn_do_add`: dropping a zero top limb keeps the
   * value, and leaves the limbs trimmed when the value is at least
   * 2^(64 (n - 2)).
   */
  lemma {:induction false} AddTrim(s: seq<nat>)
    requires IsLimbs(s) && |s| >= 1 && (|s| >= 2 ==> Weight(|s| - 2) <= Nat(s))
    ensures s[|s| - 1] == 0 && |s| > 1 ==> Nat(s[..|s| - 1]) == Nat(s) && Trimmed(s[..|s| - 1])
    ensures !(s[|s| - 1] == 0 && |s| > 1) ==> Trimmed(s)
  {
    var n := |s|;
    if s[n - 1] == 0 && n > 1 {
      NatDropZeros(s, n - 1);
      TrimmedIff(s[..n - 1]);
    }
  }

  /**
   * `bn_do_add`: |c| = |a| + |b|, trimmed; c's sign is untouched.  c may be
   * a or b.
   */
  method DoAdd(a: Bn, b: Bn, c: Bn)
    requires a.Valid() && b.Valid() && c.Valid() && Apart(a, c) && Apart(b, c)
    modifies c, c.number
    ensures c.Valid() && c.sign == old(c.sign)
    ensures c.Mag() == old(a.Mag()) + old(b.Mag())
    ensures Trimmed(c.Limbs())
    ensures c.number == old(c.number) || fresh(c.number)
  {
    ghost var A, B := a.Limbs(), b.Limbs();
    var ma := Msb(a);
    var mb := Msb(b);
    var d := Max(ma, mb) + 1;
    d := (d + 63) / 64 + (if d == 0 then 1 else 0);
    AddSize(Nat(A), Nat(B), d);
    AddInto(a, b, c, d);
    DropTopZero(c);
  }

  /**
   * The middle of `bn_do_add`: resize c to d limbs and add the columns of a
   * and b into it.  d limbs hold the sum.
   */
  method AddInto(a: Bn, b: Bn, c: Bn, d: nat)
    requires a.Valid() && b.Valid() && c.Valid() && Apart(a, c) && Apart(b, c)
    requires d >= 1 && a.Mag() < Weight(d) && b.Mag() < Weight(d) && a.Mag() + b.Mag() < Weight(d)
    modifies c, c.number
    ensures c.Valid() && c.sign == old(c.sign) && c.size == d
    ensures c.Mag() == old(a.Mag()) + old(b.Mag())
    ensures c.number == old(c.number) || fresh(c.number)
  {
    ghost var A, B := a.Limbs(), b.Limbs();
    SumOperands(A, B, d);
    Resize(c, d);
    ghost var EA, EB := Ext(A, d), Ext(B, d);
    AddOperands(a, A, c);
    AddOperands(b, B, c);
    AddColumns(a.number, a.size, b.number, b.size, c.number, c.size, EA, EB);
    assert c.Limbs() == SumLimbs(EA, EB);
  }

  /** Operands below 2^(64 d), padded to d limbs, add column by column to their sum when it fits. */
  lemma {:induction false} SumOperands(A: seq<nat>, B: seq<nat>, d: nat)
    requires IsLimbs(A) && IsLimbs(B) && Nat(A) < Weight(d) && Nat(B) < Weight(d)
    requires Nat(A) + Nat(B) < Weight(d)
    ensures IsLimbs(Ext(A, d)) && IsLimbs(Ext(B, d))
    ensures IsLimbs(SumLimbs(Ext(A, d), Ext(B, d)))
    ensures Nat(SumLimbs(Ext(A, d), Ext(B, d))) == Nat(A) + Nat(B)
  {
    ExtNat(A, d);
    ExtNat(B, d);
    SumLimbsValue(Ext(A, d), Ext(B, d));
  }

  /**
   * The last step of `bn_do_add`: drop the top limb when it is zero and not
   * the only one.  A value of at least 2^(64 (size - 2)) is then trimmed.
   */
  method DropTopZero(c: Bn)
    requires c.Valid() && (c.size >= 2 ==> Weight(c.size - 2) <= c.Mag())
    modifies c, c.number
    ensures c.Valid() && c.Mag() == old(c.Mag()) && Trimmed(c.Limbs())
    ensures c.sign == old(c.sign) && c.number == old(c.number)
  {
    ghost var s := c.Limbs();
    AddTrim(s);
    if c.number[c.size - 1] == 0 && c.size > 1 {
      Resize(c, c.size - 1);
      assert c.Limbs() == s[..|s| - 1];
    }
  }

  /** The carry into column i when EA and EB are added column by column. */
  function AddCarry(EA: seq<nat>, EB: seq<nat>, i: nat): nat
    requires i <= |EA| && i <= |EB|
  {
    if i == 0 then 0 else (AddCarry(EA, EB, i - 1) + EA[i - 1] + EB[i - 1]) / BASE
  }

  /** Schoolbook addition: column j is the low word of carry + EA[j] + EB[j]. */
  function SumLimbs(EA: seq<nat>, EB: seq<nat>): (r: seq<nat>)
    requires |EA| == |EB|
    ensures |r| == |EA|
  {
    seq(|EA|, j requires 0 <= j < |EA| => (AddCarry(EA, EB, j) + EA[j] + EB[j]) % BASE)
  }

  /** The first i columns of the sum and the carry out of them hold the sum of the first i columns. */
  lemma {:induction false} SumLimbsPrefix(EA: seq<nat>, EB: seq<nat>, i: nat)
    requires |EA| == |EB| && i <= |EA|
    ensures Nat(SumLimbs(EA, EB)[..i]) + AddCarry(EA, EB, i) * Weight(i) == Nat(EA[..i]) + Nat(EB[..i])
  {
    var S := SumLimbs(EA, EB);
    if i == 0 {
      assert S[..0] == [] && EA[..0] == [] && EB[..0] == [];
    } else {
      var k := i - 1;
      var t := AddCarry(EA, EB, k) + EA[k] + EB[k];
      SumLimbsPrefix(EA, EB, k);
      AddStep(S[..k], EA, EB, k, AddCarry(EA, EB, k), EA[k], EB[k]);
      assert S[k] == t % BASE;
      assert S[..k + 1] == S[..k] + [S[k]];
      assert AddCarry(EA, EB, k + 1) == t / BASE;
    }
  }

  /** When the sum fits in |EA| limbs, the column-wise sum is exactly it. */
  lemma {:induction false} SumLimbsValue(EA: seq<nat>, EB: seq<nat>)
    requires |EA| == |EB| && Nat(EA) + Nat(EB) < Weight(|EA|)
    ensures IsLimbs(SumLimbs(EA, EB)) && Nat(SumLimbs(EA, EB)) == Nat(EA) + Nat(EB)
  {
    var S, n := SumLimbs(EA, EB), |EA|;
    SumLimbsPrefix(EA, EB, n);
    assert S[..n] == S && EA[..n] == EA && EB[..n] == EB;
    NoCarry(Nat(S), AddCarry(EA, EB, n), Weight(n), Nat(EA) + Nat(EB));
  }

  /**
   * The carry loop of `bn_do_add` on the limb buffers: z[i] gets the low word
   * of carry + x[i] + y[i] for i < n, where x and y read as 0 above their
   * sizes xs and ys.  x or y may be z itself: column i is read before it is
   * written.
   */
  method AddColumns(x: array<nat>, xs: nat, y: array<nat>, ys: nat, z: array<nat>, n: nat,
                    ghost EA: seq<nat>, ghost EB: seq<nat>)
    requires xs <= x.Length && ys <= y.Length && n <= z.Length && |EA| == |EB| == n
    requires forall j :: 0 <= j < n ==> (if j < xs then x[j] else 0) == EA[j]
    requires forall j :: 0 <= j < n ==> (if j < ys then y[j] else 0) == EB[j]
    requires IsLimbs(z[..])
    modifies z
    ensures z[..n] == SumLimbs(EA, EB) && IsLimbs(z[..])
    ensures forall j :: n <= j < z.Length ==> z[j] == old(z[j])
  {
    ghost var S := SumLimbs(EA, EB);
    var carry: nat := 0;
    var i := 0;
    while i < n
      invariant 0 <= i <= n && carry == AddCarry(EA, EB, i)
      invariant forall j :: i <= j < n ==> (if j < xs then x[j] else 0) == EA[j]
      invariant forall j :: i <= j < n ==> (if j < ys then y[j] else 0) == EB[j]
      invariant forall j :: 0 <= j < i ==> z[j] == S[j]
      invariant forall j :: n <= j < z.Length ==> z[j] == old(z[j])
      invariant forall j :: 0 <= j < z.Length ==> z[j] < BASE
    {
      var tmp1 := if i < xs then x[i] else 0;
      var tmp2 := if i < ys then y[i] else 0;
      carry := carry + tmp1 + tmp2;
      z[i] := carry % BASE;
      carry := carry / BASE;
      i := i + 1;
    }
  }

  /**
   * After `bn_resize(c, d)`, every column below d of an operand x of
   * `bn_do_add` reads as the operand's old limbs cut or padded to d, whether
   * x is c itself or not.
   */
  lemma {:induction false} AddOperands(x: Bn, X: seq<nat>, c: Bn)
    requires x.Valid() && c.Valid()
    requires x == c ==> c.Limbs() == Ext(X, c.size)
    requires x != c ==> x.Limbs() == X
    ensures forall j :: 0 <= j < c.size ==> Fetch(x, j) == Ext(X, c.size)[j]
  {
    forall j | 0 <= j < c.size
      ensures Fetch(x, j) == Ext(X, c.size)[j]
    {
      if x == c {
        assert c.Limbs()[j] == c.number[j];
      } else if j < x.size {
        assert x.Limbs()[j] == x.number[j];
      }
    }
  }

  // ------------------------------------------------------------ bn_do_sub

  /** The borrow into column i when EB is subtracted from EA column by column. */
  function SubBorrow(EA: seq<nat>, EB: seq<nat>, i: nat): (r: nat)
    requires i <= |EA| && i <= |EB|
    ensures r <= 1
  {
    if i == 0 then 0
    else if EA[i - 1] - EB[i - 1] - SubBorrow(EA, EB, i - 1) < 0 then 1
    else 0
  }

  /**
   * Schoolbook subtraction: column j is EA[j] - EB[j] - borrow, plus 2^64
   * when that is negative.
   */
  function DiffLimbs(EA: seq<nat>, EB: seq<nat>): (r: seq<nat>)
    requires |EA| == |EB| && IsLimbs(EB)
    ensures |r| == |EA|
  {
    seq(|EA|, j requires 0 <= j < |EA| =>
      var v := EA[j] - EB[j] - SubBorrow(EA, EB, j);
      if v < 0 then v + BASE else v)
  }

  /** One column of the subtractor: the digit written and the borrow out keep the running difference. */
  lemma {:induction false} SubColumn(lc: int, la: int, lb: int, borrow: int, next: int, dig: int, x: int, y: int, w: int)
    requires lc == la - lb + borrow * w
    requires dig == x - y - borrow + next * BASE
    ensures lc + dig * w == (la + x * w) - (lb + y * w) + next * (BASE * w)
  {
    calc {
      lc + dig * w;
      la - lb + borrow * w + (x - y - borrow + next * BASE) * w;
      { assert (x - y - borrow + next * BASE) * w == x * w - y * w - borrow * w + (next * BASE) * w; }
      la - lb + x * w - y * w + (next * BASE) * w;
      { MulAssoc(next, BASE, w); }
      (la + x * w) - (lb + y * w) + next * (BASE * w);
    }
  }

  /** The first i columns of the difference are those of EA minus those of EB, up to the borrow out. */
  lemma {:induction false} DiffLimbsPrefix(EA: seq<nat>, EB: seq<nat>, i: nat)
    requires |EA| == |EB| && IsLimbs(EB) && i <= |EA|
    ensures Nat(DiffLimbs(EA, EB)[..i]) == Nat(EA[..i]) - Nat(EB[..i]) + SubBorrow(EA, EB, i) * Weight(i)
  {
    var D := DiffLimbs(EA, EB);
    if i == 0 {
      assert D[..0] == [] && EA[..0] == [] && EB[..0] == [];
    } else {
      var k := i - 1;
      var borrow := SubBorrow(EA, EB, k);
      var next := SubBorrow(EA, EB, k + 1);
      DiffLimbsPrefix(EA, EB, k);
      assert D[k] == EA[k] - EB[k] - borrow + next * BASE;
      SubColumn(Nat(D[..k]), Nat(EA[..k]), Nat(EB[..k]), borrow, next, D[k], EA[k], EB[k], Weight(k));
      assert D[..k + 1] == D[..k] + [D[k]];
      NatSnoc(D[..k], D[k]);
      NatPrefixStep(EA, k);
      NatPrefixStep(EB, k);
      WeightNext(k);
    }
  }

  /** When EA is at least EB, the column-wise difference is exactly EA - EB. */
  lemma {:induction false} DiffLimbsValue(EA: seq<nat>, EB: seq<nat>)
    requires |EA| == |EB| && IsLimbs(EA) && IsLimbs(EB) && Nat(EA) >= Nat(EB)
    ensures IsLimbs(DiffLimbs(EA, EB)) && Nat(DiffLimbs(EA, EB)) == Nat(EA) - Nat(EB)
  {
    var D, n := DiffLimbs(EA, EB), |EA|;
    forall j | 0 <= j < n
      ensures D[j] < BASE
    {
      var v := EA[j] - EB[j] - SubBorrow(EA, EB, j);
      assert D[j] == if v < 0 then v + BASE else v;
    }
    DiffLimbsPrefix(EA, EB, n);
    assert D[..n] == D && EA[..n] == EA && EB[..n] == EB;
    NatBound(D);
    NoBorrow(Nat(D), SubBorrow(EA, EB, n), Weight(n), Nat(EA) - Nat(EB));
  }

  /** A value below w that is x + h w with x >= 0 has no borrow out. */
  lemma {:induction false} NoBorrow(lo: int, h: nat, w: nat, x: int)
    requires lo == x + h * w && lo < w && x >= 0
    ensures h == 0 && lo == x
  {
    if h != 0 {
      LowerMul(1, h, w);
    }
  }

  /**
   * The carry loop of `bn_do_sub` on the limb buffers: z[i] gets
   * x[i] - y[i] - borrow, wrapped into a word, for i < n.  x or y may be z.
   */
  method SubColumns(x: array<nat>, xs: nat, y: array<nat>, ys: nat, z: array<nat>, n: nat,
                    ghost EA: seq<nat>, ghost EB: seq<nat>)
    requires xs <= x.Length && ys <= y.Length && n <= z.Length && |EA| == |EB| == n
    requires IsLimbs(EA) && IsLimbs(EB)
    requires forall j :: 0 <= j < n ==> (if j < xs then x[j] else 0) == EA[j]
    requires forall j :: 0 <= j < n ==> (if j < ys then y[j] else 0) == EB[j]
    requires IsLimbs(z[..])
    modifies z
    ensures z[..n] == DiffLimbs(EA, EB) && IsLimbs(z[..])
    ensures forall j :: n <= j < z.Length ==> z[j] == old(z[j])
  {
    ghost var D := DiffLimbs(EA, EB);
    var carry: int := 0;
    var i := 0;
    while i < n
      invariant 0 <= i <= n && carry == SubBorrow(EA, EB, i)
      invariant forall j :: i <= j < n ==> (if j < xs then x[j] else 0) == EA[j]
      invariant forall j :: i <= j < n ==> (if j < ys then y[j] else 0) == EB[j]
      invariant forall j :: 0 <= j < i ==> z[j] == D[j]
      invariant forall j :: n <= j < z.Length ==> z[j] == old(z[j])
      invariant forall j :: 0 <= j < z.Length ==> z[j] < BASE
    {
      var tmp1 := if i < xs then x[i] else 0;
      var tmp2 := if i < ys then y[i] else 0;
      carry := tmp1 - tmp2 - carry;
      if carry < 0 {
        z[i] := carry + BASE;
        carry := 1;
      } else {
        z[i] := carry;
        carry := 0;
      }
      i := i + 1;
    }
  }

  /**
   * The middle of `bn_do_sub`: resize c to d limbs and subtract the columns
   * of b from those of a into it.
   */
  method SubInto(a: Bn, b: Bn, c: Bn, d: nat)
    requires a.Valid() && b.Valid() && c.Valid() && Apart(a, c) && Apart(b, c)
    requires a.size <= d && b.size <= d && a.Mag() >= b.Mag()
    modifies c, c.number
    ensures c.Valid() && c.sign == old(c.sign) && c.size == d
    ensures c.Mag() == old(a.Mag()) - old(b.Mag())
    ensures c.number == old(c.number) || fresh(c.number)
  {
    ghost var A, B := a.Limbs(), b.Limbs();
    DiffOperands(A, B, d);
    Resize(c, d);
    ghost var EA, EB := Ext(A, d), Ext(B, d);
    AddOperands(a, A, c);
    AddOperands(b, B, c);
    SubColumns(a.number, a.size, b.number, b.size, c.number, c.size, EA, EB);
    assert c.Limbs() == DiffLimbs(EA, EB);
  }

  /** Operands of at most d limbs, padded to d, subtract column by column to their difference. */
  lemma {:induction false} DiffOperands(A: seq<nat>, B: seq<nat>, d: nat)
    requires IsLimbs(A) && IsLimbs(B) && |A| <= d && |B| <= d && Nat(A) >= Nat(B)
    ensures IsLimbs(Ext(A, d)) && IsLimbs(Ext(B, d))
    ensures IsLimbs(DiffLimbs(Ext(A, d), Ext(B, d)))
    ensures Nat(DiffLimbs(Ext(A, d), Ext(B, d))) == Nat(A) - Nat(B)
  {
    NatBound(A);
    NatBound(B);
    WeightMono(|A|, d);
    WeightMono(|B|, d);
    ExtNat(A, d);
    ExtNat(B, d);
    DiffLimbsValue(Ext(A, d), Ext(B, d));
  }

  /**
   * The trimming step of `bn_do_sub`: q = clz / 64 whole zero limbs sit on
   * top, one fewer when all are zero; keeping the |s| - q below them keeps
   * the value and leaves the limbs trimmed.
   */
  lemma {:induction false} SubTrim(s: seq<nat>, z: nat, q: nat)
    requires IsLimbs(s) && |s| >= 1 && z == 64 * |s| - BitLen(Nat(s))
    requires q == if z / 64 == |s| then z / 64 - 1 else z / 64
    ensures 1 <= |s| - q <= |s|
    ensures Nat(s[..|s| - q]) == Nat(s) && Trimmed(s[..|s| - q])
  {
    var L := BitLen(Nat(s));
    NatBitLenBound(s);
    BitLenBounds(Nat(s));
    if L == 0 {
      NatHighZero(s, 1);
    } else {
      var k := |s| - q;
      assert 64 * (k - 1) < L <= 64 * k;
      PowMono(2, L, 64 * k);
      NatHighZero(s, k);
      if k > 1 {
        PowMono(2, 64 * (k - 1), L - 1);
      }
      TrimmedIff(s[..k]);
    }
  }

  /**
   * `bn_do_sub`: |c| = |a| - |b|, trimmed; c's sign is untouched.  The
   * caller guarantees |a| >= |b|.  c may be a or b.
   */
  method DoSub(a: Bn, b: Bn, c: Bn)
    requires a.Valid() && b.Valid() && c.Valid() && Apart(a, c) && Apart(b, c)
    requires a.Mag() >= b.Mag()
    modifies c, c.number
    ensures c.Valid() && c.sign == old(c.sign)
    ensures c.Mag() == old(a.Mag()) - old(b.Mag())
    ensures Trimmed(c.Limbs())
    ensures c.number == old(c.number) || fresh(c.number)
  {
    var d := Max(a.size, b.size);
    SubInto(a, b, c, d);
    ghost var s := c.Limbs();
    var z := Clz(c);
    d := z / 64;
    if d == c.size {
      d := d - 1;
    }
    SubTrim(s, z, d);
    Resize(c, c.size - d);
    assert c.Limbs() == s[..|s| - d];
  }

  // ------------------------------------------------------- bn_add, bn_sub

  /**
   * `bn_add`: c = a + b.  Equal signs add the magnitudes under the common
   * sign; different signs subtract the smaller magnitude from the larger,
   * which `bn_cmp` finds by size first, so the operands must be sized
   * consistently.  A zero difference is +0.  c may be a or b.
   */
  method Add(a: Bn, b: Bn, c: Bn)
    requires a.Valid() && b.Valid() && c.Valid() && Apart(a, c) && Apart(b, c)
    requires a.sign != b.sign ==> SizedConsistently(a.Limbs(), b.Limbs())
    modifies c, c.number
    ensures c.Valid() && c.Value() == old(a.Value()) + old(b.Value())
    ensures Trimmed(c.Limbs())
    ensures old(a.sign) == old(b.sign) ==> c.sign == old(a.sign)
    ensures old(a.sign) != old(b.sign) ==> (c.sign <==> c.Value() < 0)
    ensures c.number == old(c.number) || fresh(c.number)
  {
    if a.sign == b.sign {
      var sign := a.sign;
      DoAdd(a, b, c);
      c.sign := sign;
    } else {
      var x, y := a, b;
      if a.sign {
        x, y := b, a;
      }
      AddOpposite(x, y, c);
    }
  }

  /**
   * The different-sign branch of `bn_add`, after the swap that makes x the
   * non-negative operand: subtract the smaller magnitude from the larger as
   * `bn_cmp` orders them; equal magnitudes give +0.
   */
  method AddOpposite(x: Bn, y: Bn, c: Bn)
    requires x.Valid() && y.Valid() && c.Valid() && Apart(x, c) && Apart(y, c)
    requires !x.sign && y.sign && SizedConsistently(x.Limbs(), y.Limbs())
    modifies c, c.number
    ensures c.Valid() && c.Value() == old(x.Mag()) - old(y.Mag())
    ensures Trimmed(c.Limbs()) && (c.sign <==> c.Value() < 0)
    ensures c.number == old(c.number) || fresh(c.number)
  {
    var cmp := Cmp(x, y);
    CmpBySizeSound(x.Limbs(), y.Limbs());
    if cmp > 0 {
      DoSub(x, y, c);
      c.sign := false;
    } else if cmp < 0 {
      DoSub(y, x, c);
      c.sign := true;
    } else {
      SetZero(c);
    }
  }

  /** `bn_resize(c, 1); c->number[0] = 0; c->sign = 0`: c becomes a trimmed +0. */
  method SetZero(c: Bn)
    requires c.Valid()
    modifies c, c.number
    ensures c.Valid() && c.Limbs() == [0] && c.Value() == 0 && !c.sign && Trimmed(c.Limbs())
    ensures c.number == old(c.number) || fresh(c.number)
  {
    Resize(c, 1);
    c.number[0] := 0;
    c.sign := false;
    assert c.Limbs() == [0];
    NatSingle(0);
  }

  /**
   * `bn_sub`: c = a - b, computed as a + (-b) through a copy of b's header
   * with the sign flipped.  c may be a but not b: the copy shares b's
   * buffer, which resizing c would move underneath it.
   */
  method Sub(a: Bn, b: Bn, c: Bn)
    requires a.Valid() && b.Valid() && c.Valid() && Apart(a, c) && Apart(b, c) && c != b
    requires a.sign == b.sign ==> SizedConsistently(a.Limbs(), b.Limbs())
    modifies c, c.number
    ensures c.Valid() && c.Value() == old(a.Value()) - old(b.Value())
    ensures Trimmed(c.Limbs())
    ensures old(a.sign) != old(b.sign) ==> c.sign == old(a.sign)
    ensures old(a.sign) == old(b.sign) ==> (c.sign <==> c.Value() < 0)
    ensures c.number == old(c.number) || fresh(c.number)
  {
    var tmp := new Bn.Header(b);
    tmp.sign := !tmp.sign;
    Add(a, tmp, c);
  }
}
