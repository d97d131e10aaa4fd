/**
 * `bn_to_string`: the decimal rendering of a `bn`.  The digits are built in
 * a buffer of '0' characters by doubling the buffer, as a decimal number,
 * once per bit of the magnitude from the top bit down and adding the bit
 * in (the double-dabble method); leading zeros are then skipped and a '-'
 * is put in front of a negative number.
 */
module Decimal {
  import opened Limbs
  import opened Bignum

  /** Every character is a decimal digit. */
  predicate IsDigits(t: seq<char>)
  {
    forall i :: 0 <= i < |t| ==> '0' <= t[i] <= '9'
  }

  function DigitValue(c: char): nat
    requires '0' <= c <= '9'
  {
    c as int - '0' as int
  }

  function DigitChar(d: nat): (c: char)
    requires d < 10
    ensures '0' <= c <= '9' && DigitValue(c) == d
  {
    (d + '0' as int) as char
  }

  /** The value of a digit string, most significant digit first. */
  function Dec(t: seq<char>): nat
    requires IsDigits(t)
  {
    if |t| == 0 then 0 else DigitValue(t[0]) * Pow(10, |t| - 1) + Dec(t[1..])
  }

  /** A digit string without leading zeros: "0" is the only one that starts with '0'. */
  predicate Canonical(t: seq<char>)
  {
    IsDigits(t) && |t| >= 1 && (|t| == 1 || t[0] != '0')
  }

  /** The reference rendering of n: its decimal digits, most significant first. */
  function Digits(n: nat): (r: seq<char>)
    ensures IsDigits(r) && |r| >= 1
  {
    if n < 10 then [DigitChar(n)] else Digits(n / 10) + [DigitChar(n % 10)]
  }

  /** The reference rendering of a signed number: '-' and the digits of its magnitude. */
  function Decimal(negative: bool, n: nat): (r: string)
  {
    (if negative then "-" else "") + Digits(n)
  }

  // ------------------------------------------------------- digit strings

  lemma {:induction false} DecSnoc(t: seq<char>, c: char)
    requires IsDigits(t) && '0' <= c <= '9'
    ensures IsDigits(t + [c]) && Dec(t + [c]) == 10 * Dec(t) + DigitValue(c)
    decreases |t|
  {
    if |t| > 0 {
      var u := t[1..];
      assert (t + [c])[1..] == u + [c];
      DecSnoc(u, c);
      SnocArith(DigitValue(t[0]), Pow(10, |t| - 1), Dec(u), Dec(u + [c]), Dec(t), Dec(t + [c]), DigitValue(c));
    } else {
      assert t + [c] == [c];
    }
  }

  /** The arithmetic of DecSnoc: a leading digit a at weight p, then 10 p. */
  lemma {:induction false} SnocArith(a: nat, p: nat, u: nat, uc: nat, w: nat, wc: nat, cv: nat)
    requires uc == 10 * u + cv && w == a * p + u && wc == a * (10 * p) + uc
    ensures wc == 10 * w + cv
  {
    MulAssoc(a, 10, p);
  }

  /** m digits hold less than 10^m. */
  lemma {:induction false} DecBound(t: seq<char>)
    requires IsDigits(t)
    ensures Dec(t) < Pow(10, |t|)
    decreases |t|
  {
    if |t| > 0 {
      DecBound(t[1..]);
      LowerMul(DigitValue(t[0]), 9, Pow(10, |t| - 1));
    }
  }

  /** Leading '0' characters do not change the value. */
  lemma {:induction false} DecLeadingZeros(t: seq<char>, p: nat)
    requires IsDigits(t) && p <= |t|
    requires forall k :: 0 <= k < p ==> t[k] == '0'
    ensures IsDigits(t[p..]) && Dec(t[p..]) == Dec(t)
    decreases p
  {
    if p > 0 {
      DecLeadingZeros(t, p - 1);
      assert t[p - 1..][1..] == t[p..];
    } else {
      assert t[0..] == t;
    }
  }

  /** A string of '0' characters is worth zero. */
  lemma {:induction false} DecZeros(t: seq<char>)
    requires forall k :: 0 <= k < |t| ==> t[k] == '0'
    ensures IsDigits(t) && Dec(t) == 0
  {
    DecLeadingZeros(t, |t|);
    assert t[|t|..] == [];
  }

  /** Reading the reference rendering back gives n, and it has no leading zero. */
  lemma {:induction false} DigitsValue(n: nat)
    ensures Canonical(Digits(n)) && Dec(Digits(n)) == n
    decreases n
  {
    if n >= 10 {
      DigitsValue(n / 10);
      DecSnoc(Digits(n / 10), DigitChar(n % 10));
    }
  }

  /** A canonical digit string is the reference rendering of its value. */
  lemma {:induction false} CanonicalDigits(t: seq<char>)
    requires Canonical(t)
    ensures Digits(Dec(t)) == t
    decreases |t|
  {
    var n := Dec(t);
    if |t| == 1 {
      assert t[1..] == [] && Dec(t[1..]) == 0 && Pow(10, |t| - 1) == 1;
      assert n == DigitValue(t[0]);
      assert DigitChar(n) == t[0];
    } else {
      var u, c := t[..|t| - 1], t[|t| - 1];
      assert t == u + [c];
      DecSnoc(u, c);
      DivModUnique(n, 10, Dec(u), DigitValue(c));
      assert u[0] == t[0] != '0';
      LowerMul(1, DigitValue(u[0]), Pow(10, |u| - 1));
      PowMono(10, 0, |u| - 1);
      CanonicalDigits(u);
      assert DigitChar(n % 10) == c;
    }
  }

  /** A canonical string of m >= 2 digits is worth at least 10^(m - 1). */
  lemma {:induction false} CanonicalLower(t: seq<char>)
    requires Canonical(t) && |t| >= 2
    ensures Dec(t) >= Pow(10, |t| - 1)
  {
    LowerMul(1, DigitValue(t[0]), Pow(10, |t| - 1));
  }

  /**
   * The buffer of a negative number has one digit place more than its
   * magnitude L can fill, so it starts with a '0' and the zeros skipped
   * before its canonical tail leave room for a '-'.
   */
  lemma {:induction false} SignRoom(t: seq<char>, p: nat, L: seq<nat>)
    requires IsDigits(t) && |t| == 64 * |L| / 3 + 2 && p < |t| && Canonical(t[p..])
    requires IsLimbs(L) && Dec(t) == Nat(L)
    ensures p >= 1
  {
    NatBound(L);
    BufferRoom(|L|, true, |t|, Dec(t));
    if p == 0 {
      assert t[0..] == t;
      CanonicalLower(t);
    }
  }

  // ---------------------------------------------------- buffer size bound

  /** 2^(3 q) <= 10^q. */
  lemma {:induction false} EightBelowTen(q: nat)
    ensures Pow(2, 3 * q) <= Pow(10, q)
    decreases q
  {
    if q > 0 {
      EightBelowTen(q - 1);
      PowAdd(2, 3, 3 * (q - 1));
      assert Pow(2, 3) == 8;
      LowerMul(Pow(2, 3 * (q - 1)), Pow(10, q - 1), 8);
    }
  }

  /**
   * `8 * sizeof(bn_data) * size / 3 + 1` digits hold any magnitude of size
   * limbs: 2^(64 size) <= 10^(64 size / 3 + 1), since log10(2) < 1/3.
   */
  lemma {:induction false} DigitsRoom(size: nat)
    ensures Pow(2, 64 * size) <= Pow(10, 64 * size / 3 + 1)
  {
    var q, r := 64 * size / 3, 64 * size % 3;
    EightBelowTen(q);
    PowAdd(2, 3 * q, r);
    assert 3 * q + r == 64 * size;
    PowMono(2, r, 2);
    assert Pow(2, 2) == 4;
    LowerMul(Pow(2, 3 * q), Pow(10, q), Pow(2, r));
    LowerMul(Pow(2, r), 10, Pow(10, q));
  }

  // ------------------------------------------------------ doubling the buffer

  /**
   * The carry into column j - 1 when the digit string S is doubled from its
   * last column up to column j, the bit being the carry into the last one.
   */
  function DoubleCarry(S: seq<char>, bit: nat, j: nat): (r: nat)
    requires IsDigits(S) && bit <= 1 && j <= |S|
    ensures r <= 1
    decreases |S| - j
  {
    if j == |S| then bit else (2 * DigitValue(S[j]) + DoubleCarry(S, bit, j + 1)) / 10
  }

  /** Column j of S doubled: twice the digit plus the carry in, mod 10. */
  function DoubledAt(S: seq<char>, bit: nat, j: nat): (c: char)
    requires IsDigits(S) && bit <= 1 && j < |S|
    ensures '0' <= c <= '9'
  {
    DigitChar((2 * DigitValue(S[j]) + DoubleCarry(S, bit, j + 1)) % 10)
  }

  /** S doubled column by column, the carry out of the first column dropped. */
  function Doubled(S: seq<char>, bit: nat): (r: seq<char>)
    requires IsDigits(S) && bit <= 1
    ensures |r| == |S|
  {
    seq(|S|, j requires 0 <= j < |S| => DoubledAt(S, bit, j))
  }

  /** The arithmetic of one column of the doubling. */
  lemma {:induction false} DoubleArith(d: nat, d': nat, carry: nat, carry': nat, p: nat, t: nat, u: nat, bit: nat)
    requires d' + 10 * carry' == 2 * d + carry && t + carry * p == 2 * u + bit
    ensures d' * p + t + carry' * (10 * p) == 2 * (d * p + u) + bit
  {
    assert (d' + 10 * carry') * p == (2 * d + carry) * p;
  }

  /** The doubled columns from j on, with the carry out of column j, are twice those of S plus the bit. */
  lemma {:induction false} DoubledSuffix(S: seq<char>, bit: nat, j: nat)
    requires IsDigits(S) && bit <= 1 && j <= |S|
    ensures IsDigits(Doubled(S, bit)[j..])
    ensures Dec(Doubled(S, bit)[j..]) + DoubleCarry(S, bit, j) * Pow(10, |S| - j) == 2 * Dec(S[j..]) + bit
    decreases |S| - j
  {
    var D := Doubled(S, bit);
    if j == |S| {
      assert D[j..] == [] && S[j..] == [];
    } else {
      DoubledSuffix(S, bit, j + 1);
      assert D[j..][1..] == D[j + 1..] && S[j..][1..] == S[j + 1..];
      var c := DoubleCarry(S, bit, j + 1);
      var v := 2 * DigitValue(S[j]) + c;
      assert DigitValue(D[j]) == v % 10;
      DoubleArith(DigitValue(S[j]), v % 10, c, v / 10, Pow(10, |S| - j - 1), Dec(D[j + 1..]), Dec(S[j + 1..]), bit);
    }
  }

  /** Doubling the digit string S and adding the bit computes 2 S + bit modulo 10^|S|. */
  lemma {:induction false} DoubledValue(S: seq<char>, bit: nat)
    requires IsDigits(S) && bit <= 1
    ensures IsDigits(Doubled(S, bit)) && Dec(Doubled(S, bit)) == (2 * Dec(S) + bit) % Pow(10, |S|)
  {
    var D := Doubled(S, bit);
    DoubledSuffix(S, bit, 0);
    assert D[0..] == D && S[0..] == S;
    DecBound(D);
    DivModUnique(2 * Dec(S) + bit, Pow(10, |S|), DoubleCarry(S, bit, 0), Dec(D));
  }

  /**
   * One iteration of the inner loop of `bn_to_string`: s[j] doubles and
   * takes the carry in; a result above '9' loses 10 and carries one.
   */
  method DoubleDigit(s: array<char>, j: nat, carry: nat, ghost S: seq<char>, ghost bit: nat)
    returns (carry': nat)
    requires j < |S| <= s.Length && IsDigits(S) && bit <= 1 && s[j] == S[j]
    requires carry == DoubleCarry(S, bit, j + 1)
    modifies s
    ensures s[j] == DoubledAt(S, bit, j) && carry' == DoubleCarry(S, bit, j)
    ensures forall k :: 0 <= k < s.Length && k != j ==> s[k] == old(s[k])
  {
    var c := s[j] as int + (s[j] as int - '0' as int) + carry;
    carry' := if c > '9' as int then 1 else 0;
    if carry' == 1 {
      c := c - 10;
    }
    s[j] := c as char;
  }

  /**
   * The inner loop of `bn_to_string`: the m digits of s become twice their
   * value plus the bit, modulo 10^m (a carry out of s[0] is lost).
   */
  method DoubleDigits(s: array<char>, m: nat, bit: nat)
    requires m <= s.Length && bit <= 1 && IsDigits(s[..m])
    modifies s
    ensures IsDigits(s[..m]) && Dec(s[..m]) == (2 * old(Dec(s[..m])) + bit) % Pow(10, m)
    ensures forall k :: m <= k < s.Length ==> s[k] == old(s[k])
  {
    ghost var S := s[..m];
    var carry: nat := bit;
    var j: int := m - 1;
    while j >= 0
      invariant -1 <= j < m && carry == DoubleCarry(S, bit, j + 1)
      invariant forall k {:trigger s[k]} :: 0 <= k <= j ==> s[k] == S[k]
      invariant forall k {:trigger s[k]} :: j < k < m ==> s[k] == DoubledAt(S, bit, k)
      invariant forall k {:trigger s[k]} :: m <= k < s.Length ==> s[k] == old(s[k])
    {
      carry := DoubleDigit(s, j, carry, S, bit);
      j := j - 1;
    }
    assert s[..m] == Doubled(S, bit);
    DoubledValue(S, bit);
  }

  // ------------------------------------------------------------ the bit scan

  /**
   * The number the buffer holds once the limbs above i and the top k bits
   * of limb i have been fed in: the top bits of the limbs from i up.
   */
  ghost function Scanned(L: seq<nat>, i: nat, k: nat): nat
    requires i < |L| && k <= 64
  {
    Shr(Nat(L[i..]), 64 - k)
  }

  /** Adding an even multiple of d does not change bit 0 of the quotient by d. */
  lemma {:induction false} EvenAbove(x: nat, d: nat, e: nat, n: nat)
    requires d > 0 && n == x + d * (2 * e)
    ensures (n / d) % 2 == (x / d) % 2
  {
    assert n == (x / d + 2 * e) * d + x % d;
    DivModUnique(n, d, x / d + 2 * e, x % d);
  }

  /** Feeding bit 63 - k of limb i doubles the scanned value and adds the bit. */
  lemma {:induction false} ScanStep(L: seq<nat>, i: nat, k: nat, d: nat, bit: nat)
    requires i < |L| && k < 64 && d == Pow(2, 63 - k)
    requires bit == if (L[i] / d) % 2 == 1 then 1 else 0
    ensures Scanned(L, i, k + 1) == 2 * Scanned(L, i, k) + bit
  {
    assert L[i..][1..] == L[i + 1..];
    Pow2Base();
    PowAdd(2, 63 - k, k + 1);
    assert Pow(2, 64 - k) == 2 * d;
    ScanArith(L[i], Nat(L[i + 1..]), d, Pow(2, k), Nat(L[i..]));
  }

  /** The arithmetic of ScanStep: n = x + 2^64 h, with 2^64 = 2 d p. */
  lemma {:induction false} ScanArith(x: nat, h: nat, d: nat, p: nat, n: nat)
    requires d > 0 && BASE == d * (2 * p) && n == x + BASE * h
    ensures 2 * (n / (2 * d)) + (x / d) % 2 == n / d
  {
    MulAssoc(d, 2 * p, h);
    EvenAbove(x, d, p * h, n);
    HalveDiv(n, d);
  }

  /** A partly scanned value never exceeds the whole. */
  lemma {:induction false} ScannedBound(L: seq<nat>, i: nat, k: nat)
    requires i < |L| && k <= 64
    ensures Scanned(L, i, k) <= Nat(L)
  {
    var n := Nat(L[i..]);
    DivAtMost(n, Pow(2, 64 - k));
    NatSplit(L, i);
    LowerMul(1, Weight(i), n);
  }

  lemma {:induction false} DivAtMost(x: nat, p: nat)
    requires p > 0
    ensures x / p <= x
  {
    LowerMul(1, p, x / p);
  }

  /** Before any bit of limb i is fed in, only the limbs above count. */
  lemma {:induction false} ScannedStart(L: seq<nat>, i: nat)
    requires IsLimbs(L) && i < |L|
    ensures Scanned(L, i, 0) == Nat(L[i + 1..])
  {
    Pow2Base();
    assert L[i..][1..] == L[i + 1..];
    DivModUnique(Nat(L[i..]), BASE, Nat(L[i + 1..]), L[i]);
  }

  /** After all 64 bits of limb i are fed in, limb i counts as well. */
  lemma {:induction false} ScannedEnd(L: seq<nat>, i: nat)
    requires i < |L|
    ensures Scanned(L, i, 64) == Nat(L[i..])
  {
  }

  /**
   * The bit loop over one limb: every bit of src.number[i] from the top
   * down doubles the buffer and adds the bit, `d` running over
   * `(bn_data) 1 << 63` down to 1.  `!!(d & x)` is bit log2(d) of x,
   * written here as `(x / d) % 2`.
   */
  method ScanLimb(src: Bn, i: nat, s: array<char>, m: nat, ghost L: seq<nat>)
    requires src.Valid() && L == src.Limbs() && i < src.size
    requires m <= s.Length && IsDigits(s[..m]) && Dec(s[..m]) == Scanned(L, i, 0)
    requires Nat(L) < Pow(10, m)
    modifies s
    ensures IsDigits(s[..m]) && Dec(s[..m]) == Scanned(L, i, 64)
    ensures forall k :: m <= k < s.Length ==> s[k] == old(s[k])
  {
    Pow2Base();
    var d: nat := BASE / 2;
    ghost var k: nat := 0;
    while d > 0
      invariant k <= 64 && (k < 64 ==> d == Pow(2, 63 - k)) && (k == 64 ==> d == 0)
      invariant IsDigits(s[..m]) && Dec(s[..m]) == Scanned(L, i, k)
      invariant forall j {:trigger s[j]} :: m <= j < s.Length ==> s[j] == old(s[j])
      decreases 64 - k
    {
      assert src.number[i] == L[i];
      var carry := if (src.number[i] / d) % 2 == 1 then 1 else 0;
      ScanStep(L, i, k, d, carry);
      ScannedBound(L, i, k + 1);
      DoubleDigits(s, m, carry);
      DivModUnique(Scanned(L, i, k + 1), Pow(10, m), 0, Scanned(L, i, k + 1));
      d := d / 2;
      k := k + 1;
    }
  }

  /**
   * The bit loops of `bn_to_string`: the limbs of src from the top down, and
   * within each limb the bits from the top down, are fed into the buffer,
   * which ends up holding |src| in decimal.
   */
  method FeedBits(src: Bn, s: array<char>, m: nat)
    requires src.Valid() && m < s.Length && IsDigits(s[..m]) && Dec(s[..m]) == 0
    requires src.Mag() < Pow(10, m)
    modifies s
    ensures IsDigits(s[..m]) && Dec(s[..m]) == src.Mag()
    ensures forall k :: m <= k < s.Length ==> s[k] == old(s[k])
  {
    ghost var L := src.Limbs();
    var i: int := src.size - 1;
    assert L[i + 1..] == [];
    while i >= 0
      invariant -1 <= i < src.size && L == src.Limbs() && Nat(L) < Pow(10, m)
      invariant IsDigits(s[..m]) && Dec(s[..m]) == Nat(L[i + 1..])
      invariant forall k {:trigger s[k]} :: m <= k < s.Length ==> s[k] == old(s[k])
    {
      FeedLimb(src, i, s, m, L);
      i := i - 1;
    }
    assert L[0..] == L;
  }

  /** Feeding limb i after the limbs above it: the buffer then holds limbs i and up. */
  method FeedLimb(src: Bn, i: nat, s: array<char>, m: nat, ghost L: seq<nat>)
    requires src.Valid() && L == src.Limbs() && i < src.size
    requires m <= s.Length && IsDigits(s[..m]) && Dec(s[..m]) == Nat(L[i + 1..])
    requires Nat(L) < Pow(10, m)
    modifies s
    ensures IsDigits(s[..m]) && Dec(s[..m]) == Nat(L[i..])
    ensures forall k :: m <= k < s.Length ==> s[k] == old(s[k])
  {
    ScannedStart(L, i);
    ScanLimb(src, i, s, m, L);
    ScannedEnd(L, i);
  }

  /**
   * The first part of `bn_to_string`: a buffer of len = 64 size / 3 + 2
   * characters, one more when src is negative, set to '0' but for the
   * terminator, into which the bits of src are fed.
   */
  method DigitBuffer(src: Bn) returns (s: array<char>, m: nat)
    requires src.Valid()
    ensures fresh(s) && s.Length == m + 1 && m == 64 * src.size / 3 + 1 + (if src.sign then 1 else 0)
    ensures s[m] == '\0' && IsDigits(s[..m]) && Dec(s[..m]) == src.Mag()
  {
    var len := (64 * src.size) / 3 + 2 + (if src.sign then 1 else 0);
    m := len - 1;
    s := new char[len](_ => '0');
    s[len - 1] := '\0';
    DecZeros(s[..m]);
    NatBound(src.Limbs());
    BufferRoom(src.size, src.sign, m, src.Mag());
    FeedBits(src, s, m);
  }

  /**
   * `bn_to_string`: the decimal rendering of src, '-' first when src's sign
   * is set.  The buffer has 64 size / 3 + 2 characters, one more for the
   * sign, which always leaves room for the digits and the '-'.
   */
  method ToString(src: Bn) returns (r: string)
    requires src.Valid()
    ensures r == Decimal(src.sign, src.Mag())
  {
    var s, m := DigitBuffer(src);
    var p := SkipZeros(s, m);
    ghost var t := s[..m];
    ghost var digits := t[p..];
    RenderedDigits(t, p, src.Mag());
    if src.sign {
      SignRoom(t, p, src.Limbs());
      p := p - 1;
      s[p] := '-';
      assert s[p..m] == "-" + digits by {
        assert s[p + 1..m] == digits;
      }
    } else {
      assert s[p..m] == digits;
    }
    r := s[p..m];
  }

  /**
   * The `bn_to_string` buffer's m digit places hold any magnitude of size
   * limbs, and with the sign's extra place the top one is always free.
   */
  lemma {:induction false} BufferRoom(size: nat, negative: bool, m: nat, n: nat)
    requires n < Weight(size) && m == 64 * size / 3 + 1 + (if negative then 1 else 0)
    ensures n < Pow(10, m) && (negative ==> m >= 2 && n < Pow(10, m - 1))
  {
    DigitsRoom(size);
    PowMono(10, 64 * size / 3 + 1, m);
  }

  /**
   * The leading-zero scan of `bn_to_string`: step over '0' characters while
   * the next one is not the terminator, so the last digit always stays.
   */
  method SkipZeros(s: array<char>, m: nat) returns (p: nat)
    requires 1 <= m < s.Length && IsDigits(s[..m]) && s[m] == '\0'
    ensures p < m && Canonical(s[p..m])
    ensures forall k :: 0 <= k < p ==> s[k] == '0'
  {
    p := 0;
    while s[p] == '0' && s[p + 1] != '\0'
      invariant p < m && forall k :: 0 <= k < p ==> s[k] == '0'
      decreases m - p
    {
      p := p + 1;
    }
    assert s[p..m][0] == s[p];
    if p + 1 < m {
      assert s[..m][p + 1] == s[p + 1];
    }
  }

  /** The digits left after the skipped zeros are the reference rendering of the buffer's value. */
  lemma {:induction false} RenderedDigits(t: seq<char>, p: nat, n: nat)
    requires IsDigits(t) && p < |t| && Dec(t) == n && Canonical(t[p..])
    requires forall k :: 0 <= k < p ==> t[k] == '0'
    ensures t[p..] == Digits(n)
  {
    DecLeadingZeros(t, p);
    CanonicalDigits(t[p..]);
  }
}
