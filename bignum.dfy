/**
 * The `bn` structure of bn.c and its storage manager: allocation, resize,
 * copy and swap.  A `bn` is a sign and a magnitude; the magnitude is the
 * first `size` entries of a limb buffer of `capacity` 64-bit words, least
 * significant limb first.
 */
module Bignum {
  import opened Limbs

  /** Initial and minimum capacity of a fresh `bn` (INIT_ALLOC_SIZE). */
  const INIT_ALLOC_SIZE: nat := 4
  /** Capacity grows in multiples of this many limbs (ALLOC_CHUNK_SIZE). */
  const ALLOC_CHUNK_SIZE: nat := 4

  /** `(n + ALLOC_CHUNK_SIZE - 1) & ~(ALLOC_CHUNK_SIZE - 1)`: n rounded up to a multiple of 4. */
  function RoundUpToChunk(n: nat): (r: nat)
    ensures n <= r < n + ALLOC_CHUNK_SIZE && r % ALLOC_CHUNK_SIZE == 0
  {
    (n + ALLOC_CHUNK_SIZE - 1) / ALLOC_CHUNK_SIZE * ALLOC_CHUNK_SIZE
  }

  class Bn {
    /** The limb buffer; its length is the capacity. */
    var number: array<nat>
    /** The number of limbs that make up the magnitude. */
    var size: nat
    var capacity: nat
    /** true for a negative number. */
    var sign: bool

    ghost predicate Valid()
      reads this, number
    {
      1 <= size <= capacity && capacity == number.Length && IsLimbs(number[..])
    }

    /** The limbs that carry the magnitude. */
    ghost function Limbs(): (s: seq<nat>)
      reads this, number
      requires Valid()
      ensures |s| == size && IsLimbs(s)
    {
      number[..size]
    }

    ghost function Mag(): nat
      reads this, number
      requires Valid()
    {
      Nat(Limbs())
    }

    /** The signed value: (-1)^sign * magnitude. */
    ghost function Value(): int
      reads this, number
      requires Valid()
    {
      if sign then -(Mag() as int) else Mag() as int
    }

    /** `bn_alloc`: a `bn` of n zero limbs with value +0. */
    constructor (n: nat)
      requires n >= 1
      ensures Valid() && fresh(number)
      ensures size == n && capacity == (if n > INIT_ALLOC_SIZE then n else INIT_ALLOC_SIZE)
      ensures Limbs() == Zeros(n) && !sign && Value() == 0
    {
      var cap := if n > INIT_ALLOC_SIZE then n else INIT_ALLOC_SIZE;
      capacity := cap;
      number := new nat[cap](_ => 0);
      size := n;
      sign := false;
      new;
      assert number[..size] == Zeros(n);
      NatZeros(n);
    }

    /** `bn tmp = *b`: a second header that shares b's limb buffer. */
    constructor Header(b: Bn)
      requires b.Valid()
      ensures number == b.number && size == b.size && capacity == b.capacity && sign == b.sign
      ensures Valid() && Limbs() == b.Limbs()
    {
      number := b.number;
      size := b.size;
      capacity := b.capacity;
      sign := b.sign;
    }
  }

  /** Two handles are either the same object or own different limb buffers. */
  ghost predicate Apart(a: Bn, b: Bn)
    reads a, b
  {
    a == b || a.number != b.number
  }

  /**
   * `bn_resize`: change the number of limbs to n.  Limbs below both sizes are
   * kept, new limbs are zero; the buffer is reallocated to a multiple of
   * ALLOC_CHUNK_SIZE only when n exceeds the capacity.
   */
  method Resize(src: Bn, n: nat)
    requires src.Valid() && n >= 1
    modifies src, src.number
    ensures src.Valid() && src.size == n && src.sign == old(src.sign)
    ensures src.Limbs() == Ext(old(src.Limbs()), n)
    ensures src.capacity == if n > old(src.capacity) then RoundUpToChunk(n) else old(src.capacity)
    ensures if n > old(src.capacity) then fresh(src.number) else src.number == old(src.number)
    ensures n == old(src.size) ==> src.number[..] == old(src.number[..])
  {
    if n == src.size {
      assert src.Limbs() == Ext(src.Limbs(), n);
      return;
    }
    if n > src.capacity {
      src.capacity := RoundUpToChunk(n);
      // krealloc: a larger buffer that starts with the old contents
      var grown := new nat[src.capacity];
      forall i | 0 <= i < src.number.Length {
        grown[i] := src.number[i];
      }
      src.number := grown;
    }
    ghost var kept := src.number[..];
    if n > src.size {
      forall i | src.size <= i < src.capacity {
        src.number[i] := 0;
      }
    }
    src.size := n;
    forall j | 0 <= j < n
      ensures src.Limbs()[j] == Ext(old(src.Limbs()), n)[j]
    {
      if j < old(src.size) {
        assert src.number[j] == kept[j] == old(src.number[j]);
      }
    }
  }

  /** `bn_cpy`: dest takes src's size, sign and limbs. */
  method Cpy(dest: Bn, src: Bn)
    requires dest.Valid() && src.Valid() && Apart(dest, src)
    modifies dest, dest.number
    ensures dest.Valid() && dest.Limbs() == old(src.Limbs()) && dest.sign == old(src.sign)
    ensures dest.Value() == old(src.Value())
    ensures dest.number == old(dest.number) || fresh(dest.number)
  {
    Resize(dest, src.size);
    dest.sign := src.sign;
    forall i | 0 <= i < src.size {
      dest.number[i] := src.number[i];
    }
    assert dest.Limbs() == src.Limbs();
  }

  /** `bn_swap`: exchange the whole structures, buffers included. */
  method Swap(a: Bn, b: Bn)
    requires a.Valid() && b.Valid()
    modifies a, b
    ensures a.number == old(b.number) && a.size == old(b.size)
    ensures a.capacity == old(b.capacity) && a.sign == old(b.sign)
    ensures b.number == old(a.number) && b.size == old(a.size)
    ensures b.capacity == old(a.capacity) && b.sign == old(a.sign)
    ensures a.Valid() && b.Valid()
    ensures a.Limbs() == old(b.Limbs()) && b.Limbs() == old(a.Limbs())
    ensures a.Value() == old(b.Value()) && b.Value() == old(a.Value())
  {
    var number, size, capacity, sign := a.number, a.size, a.capacity, a.sign;
    a.number, a.size, a.capacity, a.sign := b.number, b.size, b.capacity, b.sign;
    b.number, b.size, b.capacity, b.sign := number, size, capacity, sign;
  }
}
