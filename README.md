# fibdrv bignum, in Dafny

This project models `bn.c` of the fibdrv kernel module. That file is a small arbitrary-precision signed integer library in sign-magnitude form. The project also models the three fast-doubling Fibonacci generators built on it. Each routine is written as an imperative Dafny method over the same state as the C code: a `Bn` object with fields `number` (an `array<nat>` whose entries are 64-bit limbs, least significant first), `size`, `capacity` and `sign`. Each method is proved against an arithmetic specification:

- `Limbs()` is `number[..size]`.
- `Mag()` is `Σ limbs[i]·2^(64 i)`, written mag(x) in the table below.
- `Value()` is `Mag()` negated when `sign` is set.

The files follow the source:

- `limbs.dfy`: the value of a limb sequence, bit lengths, powers of two, and the shape predicates:
  - `Trimmed`: no zero top limb.
  - `Snug`: at most one spare top limb.
  - `SizedConsistently`: comparing by size first gives the right answer.
- `bignum.dfy`: the `bn` structure with `bn_alloc`, `bn_resize`, `bn_cpy` and `bn_swap`.
- `bitscan.dfy`: `bn_clz`, `bn_msb`, `bn_cmp`, `bn_lshift` and `bn_lshift2`.
- `addsub.dfy`: `bn_do_add`, `bn_do_sub`, `bn_add` and `bn_sub`.
- `mult.dfy`: `bn_mult_add` and `bn_mult`.
- `decimal.dfy`: `bn_to_string`, the double-dabble rendering.
- `fib.dfy`: `bn_fib_fdoubling_nocpy`, `bn_fib_fdoubling` and `bn_fib_fdoubling_Q_Matrix`. Each is proved to leave F(n) in `dest`, against the linear definition `Fib`. The commented-out linear `bn_fib` at bn.c:373-392 computes the same recurrence.

Large C functions are split into helper methods, each modelling a contiguous run of statements with its own contract. These are the inner loops, one Fibonacci round, and the bit test that follows it. Every helper keeps the C statement order and the C argument aliasing.

`bn_cmp` compares sizes before limbs. `bn_do_add`, `bn_mult` and `bn_lshift2` do not always leave a trimmed result. So the model tracks the shape of every intermediate and proves that each comparison made by `bn_add` and `bn_sub` inside the generators is sound.

Three behaviours of the code are modelled as written, because the proofs depend on them:

- **Zero can carry the sign.**
  - `bn_mult` gives a zero product the XOR of the operand signs (bn.c:363).
  - The generators never clear `dest`'s sign (bn.c:401-405). For n < 2 the sign stays as it was. Intermediate values of -0, and in `bn_fib_fdoubling_Q_Matrix` of -1, are carried through the first rounds.
  - The model proves that the final value is positive for n >= 2.
- **The top limb can be zero.** `bn_mult` and `bn_lshift2` may leave a zero top limb (see `Snug` and `Lshift2`).
- **Misleading comments.** The comments at bn.c:425-426 say f1 = F(2k + 1) and f2 = F(2k + 2). The round before them leaves (F(2k - 1), F(2k)), so after the swap and the add the code leaves f1 = F(2k) and f2 = F(2k + 1). `Fibonacci.QStep` proves what the code does.

## Model

| member | source | states |
|---|---|---|
| Bignum.RoundUpToChunk | bn.c:125-127 | the grown capacity is the least multiple of ALLOC_CHUNK_SIZE (4) at or above the requested size |
| Bignum.Bn.constructor | bn.c:88-97 | `bn_alloc(n)`: a fresh limb buffer, size n, capacity max(n, INIT_ALLOC_SIZE), all limbs zero, sign clear, value +0 |
| Bignum.Bn.Header | bn.c:311 | the struct copy `bn tmp = *b` shares b's limb buffer and has b's size, capacity, sign and limbs |
| Bignum.Resize | bn.c:117-139 | size becomes n and the sign is kept; limbs below both sizes are kept and new limbs are zero; capacity is rounded up and the buffer replaced only when n exceeds the capacity; resizing to the current size changes nothing |
| Bignum.Cpy | bn.c:145-152 | dest gets src's limbs, size and sign, so its value equals src's |
| Bignum.Swap | bn.c:155-160 | the two structures exchange buffer, size, capacity and sign, and so their values |
| Limbs.Clz64 | bn.c:28 | `__builtin_clzll` of a non-zero word: 64 minus its bit length, with 2^(63-r) <= x < 2^(64-r) |
| BitScan.Clz | bn.c:22-35 | the count is 64·size minus the bit length of the magnitude, including 64·size for zero |
| BitScan.Msb | bn.c:38-41 | the result is the bit length of the magnitude: 2^(r-1) <= mag(src) < 2^r |
| BitScan.Cmp | bn.c:204-219 | returns the size-first, then top-limb-down comparison `CmpBySize` of the two limb sequences |
| BitScan.CmpBySizeSound | bn.c:198-219 | on consistently sized operands the comparison is the sign of mag(a) - mag(b), is antisymmetric, and is 0 exactly when the magnitudes are equal |
| BitScan.NatShifted | bn.c:173-176 | the limbs shifted by k bits, plus the bits pushed out of the top limb, equal the value times 2^k |
| BitScan.ShiftedValue | bn.c:170-176 | after growing by one zero limb exactly when the shift exceeds the leading zeros, the shifted limbs equal the value times 2^k and stay trimmed |
| BitScan.ShiftLimb | bn.c:174-175 | one limb of the shifted value is written and no other limb changes |
| BitScan.ShiftLimbs | bn.c:173-176 | the limbs of dest become the shifted limbs of src, also when src and dest are the same bignum |
| BitScan.Lshift | bn.c:163-177 | the magnitude is multiplied by 2^(shift mod 64); size grows by one limb exactly when the shift exceeds the leading zero bits; shift mod 64 = 0 changes nothing; trimmed stays trimmed |
| BitScan.MakeRoom | bn.c:181-191 | dest is resized to src's size, and both grow by one limb when the shift exceeds the leading zero bits; src keeps its value |
| BitScan.Lshift2 | bn.c:179-196 | dest's magnitude is src's times 2^(shift mod 64) with src's size; src keeps its value and sign but may gain one zero limb; shift mod 64 = 0 writes nothing |
| AddSub.AddSize | bn.c:224-227 | the size from the bit lengths holds both operands and their sum, and leaves at most one zero top limb |
| AddSub.SumLimbsValue | bn.c:229-236 | the column sums with carries give the sum of the operands when it fits |
| AddSub.AddColumns | bn.c:230-236 | the carry loop writes exactly the column sums and nothing above them |
| AddSub.AddInto | bn.c:225-236 | after resizing c to d limbs, c holds mag(a) + mag(b) |
| AddSub.DropTopZero | bn.c:238-239 | dropping one zero top limb keeps the value and leaves the result trimmed |
| AddSub.DoAdd | bn.c:222-240 | mag(c) = mag(a) + mag(b), c trimmed, sign of c untouched, also when c is a or b |
| AddSub.DiffLimbsValue | bn.c:252-266 | the column differences with borrows give mag(a) - mag(b) when mag(a) >= mag(b) |
| AddSub.SubColumns | bn.c:254-266 | the borrow loop writes exactly the column differences and nothing above them |
| AddSub.SubInto | bn.c:249-266 | after resizing c to max(size) limbs, c holds mag(a) - mag(b) |
| AddSub.SubTrim | bn.c:268-271 | cutting clz/64 limbs, but never all of them, keeps the value and leaves it trimmed |
| AddSub.DoSub | bn.c:246-272 | given mag(a) >= mag(b): mag(c) = mag(a) - mag(b), c trimmed, sign of c untouched, also when c is a or b |
| AddSub.SetZero | bn.c:296-299 | c becomes the canonical zero: one zero limb, sign clear |
| AddSub.AddOpposite | bn.c:284-300 | for a >= 0 > b: c = mag(a) - mag(b), negative exactly when the result is below zero, and canonical zero on a tie |
| AddSub.Add | bn.c:278-302 | Value(c) = Value(a) + Value(b), c trimmed; equal signs give c that sign; otherwise c is negative exactly when the sum is, so a zero sum is the canonical zero; also when c is a or b |
| AddSub.Sub | bn.c:308-314 | Value(c) = Value(a) - Value(b), c trimmed, b untouched; with different signs c takes a's sign, otherwise c is negative exactly when the difference is |
| Mult.MultAddedValue | bn.c:317-328 | adding x at limb offset off gives (mag(c) + x·2^(64 off)) mod 2^(64 size), the carry propagation losing nothing else |
| Mult.AddLimb | bn.c:321-326 | one step of the carry loop writes the column digit and passes on the pending carry and x |
| Mult.MultAdd | bn.c:317-328 | `bn_mult_add`: the limbs become `MultAdded`, with the early exit once x and the carry are zero |
| Mult.ProductFits | bn.c:338-340 | the product fits in the size computed from the bit lengths, and a non-zero product leaves at most one spare top limb |
| Mult.ProductRow | bn.c:355-361 | one row of the double loop adds a[i]·mag(b)·2^(64 i) into the result |
| Mult.Products | bn.c:354-362 | the double loop over a cleared result of sufficient size leaves mag(a)·mag(b) |
| Mult.Clear | bn.c:349-351 | the limbs are zeroed and c resized to d, its sign kept |
| Mult.SignedProduct | bn.c:363 | the XOR of the signs with the product of the magnitudes is the product of the values |
| Mult.ProductInto | bn.c:354-363 | the result holds mag(a)·mag(b) with the XOR of the signs, so its value is a·b |
| Mult.MultSized | bn.c:339-368 | with d from the bit lengths: c = a·b, mag(c) = mag(a)·mag(b), c.sign = a.sign XOR b.sign, size d, going through a fresh temporary and a swap when c is a or b |
| Mult.Mult | bn.c:336-369 | `bn_mult`: Value(c) = Value(a)·Value(b), magnitude product, sign XOR even for a zero product, size ceil((msb a + msb b)/64) at least 1; a non-zero product leaves at most one spare top limb |
| Decimal.DigitsValue | bn.c:71-74 | the canonical digit string of n has no leading zero and reads back as n |
| Decimal.CanonicalDigits | bn.c:71-74 | a digit string without leading zeros is the canonical digit string of its value |
| Decimal.DoubledValue | bn.c:63-68 | one pass over the digits gives (2·value + bit) mod 10^len |
| Decimal.DoubleDigit | bn.c:64-67 | one digit is doubled with the incoming carry, and the outgoing carry is passed on |
| Decimal.DoubleDigits | bn.c:62-68 | the buffer's value becomes (2·old value + bit) mod 10^m, and only the digit places change |
| Decimal.ScanStep | bn.c:60-62 | testing bit 63-k of a limb with the mask `d` adds that bit to the prefix read so far |
| Decimal.ScanLimb | bn.c:60-69 | the 64 bits of limb i, from the top, are fed into the buffer, which then holds the limbs from i up |
| Decimal.FeedLimb | bn.c:58-70 | one outer iteration turns the value of the limbs above i into the value of the limbs from i up |
| Decimal.FeedBits | bn.c:58-70 | after all limbs the buffer holds mag(src) in decimal |
| Decimal.BufferRoom | bn.c:49-50 | 64·size/3 + 1 decimal places hold any size-limb magnitude, leaving one place for the sign |
| Decimal.DigitBuffer | bn.c:50-70 | a buffer of 64·size/3 + 2 + sign characters, '\0'-terminated, whose digits hold mag(src) |
| Decimal.SkipZeros | bn.c:72-74 | p stops at the first non-zero digit, or at the last digit, and everything before it is '0' |
| Decimal.SignRoom | bn.c:75-76 | for a negative value there is always a '0' before the first significant digit to overwrite with '-' |
| Decimal.RenderedDigits | bn.c:71-77 | the digits from p on are exactly the canonical decimal digits of the value |
| Decimal.ToString | bn.c:47-79 | the result is the canonical decimal of mag(src), "0" for zero, with '-' in front exactly when the sign is set |
| Fibonacci.FibGrowth | bn.c:463 | F never decreases, F(k+1) >= 1, and F is 0 only at 0; this keeps 2F(k+1) - F(k) non-negative |
| Fibonacci.DoublingFormulas | bn.c:453-454 | F(2k) = F(k)(2F(k+1) - F(k)) and F(2k+1) = F(k)^2 + F(k+1)^2 for every k |
| Fibonacci.QMatrixFormulas | bn.c:415-416 | F(2k-1) = F(k)^2 + F(k-1)^2 and F(2k) = F(k)(2F(k-1) + F(k)) for every k >= 1 |
| Fibonacci.PrefixStep | bn.c:487 | consuming bit j doubles the prefix of n read so far and adds the bit |
| Fibonacci.MaskStep | bn.c:452 | `n & i` with i = 2^j is bit j, and `i >>= 1` moves the mask to bit j-1 |
| Fibonacci.Clz32 | bn.c:452 | `__builtin_clz(n)` of a non-zero 32-bit n: 2^(31-r) <= n < 2^(32-r), and r <= 30 once n >= 2 |
| Fibonacci.TopBit | bn.c:452 | starting at the highest set bit, the bits already consumed read 1 |
| Fibonacci.WordPrefix | bn.c:517 | starting at bit 31 of an `unsigned int`, nothing has been consumed |
| Fibonacci.SizedBelow | bn.c:463 | in `bn_sub(k1, f1, k1)` the operands are consistently sized, so `bn_cmp` inside it decides correctly |
| Fibonacci.ZeroProductSnug | bn.c:466 | a product sized from the bit lengths has at most one spare top limb even when it is zero, provided the other factor fits one limb |
| Fibonacci.SetLimb | bn.c:409-410 | `number[0] = x` on a one-limb bignum makes it the single limb x |
| Fibonacci.EvenTerm | bn.c:460-466 | (2F(k+1) - F(k))·F(k) = F(2k) |
| Fibonacci.OddTerm | bn.c:469-484 | F(k)^2 + F(k+1)^2 = F(2k+1) |
| Fibonacci.QEvenTerm | bn.c:417-419 | (2F(k-1) + f2)·f2 = F(2k), also for the -1 that f2 holds in the first round when dest was negative |
| Fibonacci.QOddTerm | bn.c:420-423 | F(k-1)^2 + F(k)^2 = F(2k-1) |
| Fibonacci.SquareSwap | bn.c:469-473 | `bn_mult(x, x, s); bn_swap(x, y)`: s = x^2, and x and y exchange their contents |
| Fibonacci.Advance | bn.c:487-490 | `bn_swap(f1, f2); bn_add(f1, f2, f2)`: (f1, f2) becomes (f2, f1 + f2) |
| Fibonacci.NoCpyGap | bn.c:460-463 | k1 = 2F(k+1) - F(k), while f2 keeps F(k+1) though it may gain a zero limb |
| Fibonacci.NoCpyEven | bn.c:466 | k2 = k1·f1 = F(2k) |
| Fibonacci.NoCpyOdd | bn.c:477-484 | k2 = F(k+1)^2 and then f2 = k1 + k2 = F(2k+1) |
| Fibonacci.NoCpyEvenHalf | bn.c:460-466 | the even half of a round leaves F(2k) in k2 |
| Fibonacci.NoCpyOddHalf | bn.c:469-484 | the odd half of a round leaves (f1, f2) = (F(2k), F(2k+1)) |
| Fibonacci.DoubleNoCpy | bn.c:453-484 | one round turns (F(k), F(k+1)) into (F(2k), F(2k+1)) |
| Fibonacci.NoCpyStep | bn.c:453-490 | one pass turns (F(k), F(k+1)) into (F(2k+b), F(2k+b+1)) for the bit b of n under the mask |
| Fibonacci.NoCpyLoop | bn.c:452-494 | from mask 2^e with (F(k), F(k+1)) for the bits above e, the loop ends with (F(n), F(n+1)) |
| Fibonacci.FibDoublingNoCpy | bn.c:436-499 | dest = F(n); for n < 2 dest is the single limb n with its old sign, otherwise F(n) with the sign clear |
| Fibonacci.CopyTwice | bn.c:519-520 | `bn_cpy(k1, f2); bn_lshift(k1, 1)`: k1 = 2·f2 |
| Fibonacci.CopyEven | bn.c:521-522 | k1 = (2F(k+1) - F(k))·F(k) = F(2k) |
| Fibonacci.Squares | bn.c:524-525 | f1 and f2 are squared in place |
| Fibonacci.CopySum | bn.c:526-527 | k2 = f1 + f2 |
| Fibonacci.CopyEvenHalf | bn.c:519-522 | the even half of a round leaves F(2k) in k1 |
| Fibonacci.CopyOddHalf | bn.c:524-527 | the odd half of a round leaves F(2k+1) in k2 |
| Fibonacci.DoubleCopying | bn.c:518-527 | one round leaves (F(2k), F(2k+1)) in (k1, k2) |
| Fibonacci.CopyNext | bn.c:530-531 | `bn_cpy(f2, k1); bn_add(f2, k2, f2)`: f2 = k1 + k2 |
| Fibonacci.CopyAhead | bn.c:529-531 | a set bit copies (F(m+1), F(m+2)) into (f1, f2) |
| Fibonacci.CopyBack | bn.c:528-535 | the bit test copies (F(m+b), F(m+b+1)) into (f1, f2) |
| Fibonacci.CopyStep | bn.c:518-535 | one pass turns (F(k), F(k+1)) into (F(2k+b), F(2k+b+1)) |
| Fibonacci.CopyLoop | bn.c:517-536 | from mask 2^e with (F(k), F(k+1)) for the bits above e, the loop ends with (F(n), F(n+1)) |
| Fibonacci.FibDoubling | bn.c:500-541 | dest = F(n); for n < 2 dest is the single limb n with its old sign, otherwise F(n) with the sign clear |
| Fibonacci.QGap | bn.c:417-418 | k1 = 2F(k-1) + f2 |
| Fibonacci.QEven | bn.c:419 | k2 = k1·f2 = F(2k) |
| Fibonacci.QOdd | bn.c:422-423 | k2 = F(k-1)^2 and then f1 = k1 + k2 = F(2k-1) |
| Fibonacci.QEvenHalf | bn.c:417-419 | the even half of a round leaves F(2k) in k2 |
| Fibonacci.QOddHalf | bn.c:420-423 | the odd half of a round leaves (f1, f2) = (F(2k-1), F(2k)) |
| Fibonacci.DoubleQMatrix | bn.c:415-423 | one round turns (F(k-1), F(k)) into (F(2k-1), F(2k)) |
| Fibonacci.QStep | bn.c:415-427 | one pass turns (F(k-1), F(k)) into (F(2k+b-1), F(2k+b)) |
| Fibonacci.QLoop | bn.c:414-428 | from mask 2^e with (F(k-1), F(k)) for the bits above e, the loop ends with (F(n-1), F(n)) |
| Fibonacci.FibDoublingQMatrix | bn.c:399-432 | dest = F(n); for n < 2 dest is the single limb n with its old sign, otherwise F(n) with the sign clear |

## Left out

- Memory management is not modelled:
  - `kmalloc`, `krealloc` and `kfree`, and the NULL checks with their -1 returns (bn.c:90-93, 119-120, 128-133).
  - `bn_free` (bn.c:103-110), and the frees at the end of `bn_mult` and of the generators.
  - Storage is Dafny arrays, and allocation always succeeds.
- `bn_alloc` asks for `size * capacity` limbs (bn.c:92) but uses only `capacity` of them. The model allocates `capacity` limbs.
- Bignum.Bn.constructor: requires n >= 1. `bn_alloc(0)` asks for a zero-byte buffer (bn.c:92) and then clears INIT_ALLOC_SIZE limbs of it (bn.c:93); no caller passes 0.
- Bignum.Resize: requires n >= 1. The source's size-0 path (bn.c:123-124) frees the whole bignum, which the model does not represent, and no caller resizes to 0.
- AddSub.Sub: requires that c is not b. `bn_sub` builds a struct copy of b that shares b's buffer, and resizing c == b can move that buffer under the copy. This is a use after free in C, which the model cannot express.
- BitScan.Lshift2: requires src and dest to be different bignums. The source calls it only that way.
- AddSub.Add: requires consistently sized operands when the signs differ. `bn_cmp` compares sizes first, so with an untrimmed operand it can pick the wrong operand for `bn_do_sub`. AddSub.Sub has the same requirement when the signs are equal. The generators are proved to meet it.
- Machine integers are unbounded naturals with explicit bounds:
  - Limbs are below 2^64.
  - The 128-bit carries of `bn_do_add`, `bn_do_sub` and `bn_mult_add` are written as explicit quotient and remainder by 2^64.
  - `int` counts and sizes (`d`, `cnt`, loop indices) are assumed not to overflow.
- `!!(d & x)` with a single-bit mask d is modelled as `(x / d) % 2`, and `n & i` as `(n / i) % 2`.
- Decimal.ToString: returns the rendered string. It does not move it to the start of the `kmalloc`'d buffer with `memmove` (bn.c:77), and it does not model the caller's duty to free it.
- Fibonacci.NoCpyLoop: states the values left in f1 and f2, not which limb buffers the four bignums own at the end. Fibonacci.CopyLoop and Fibonacci.QLoop likewise. The generators only need the values.
- The commented-out linear `bn_fib` (bn.c:373-392) is not compiled code. It appears only as the definition `Fibonacci.Fib`.
- The commented-out `printk` debugging in `bn_fib_fdoubling_nocpy` is left out.
- client.c is a user-space benchmark: device I/O, `clock_gettime` and file output. It is not part of this model.
- `bn.h` and the driver that calls these functions are not part of this model.
