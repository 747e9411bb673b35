/** The offset arithmetic of `checkRead`: the file size is masked with
    `&^ (blockSize-1)` and a seek offset is drawn from `[0, bound)`. */
module ReadProbe {
  import opened GoTime

  function Pow2(k: nat): (p: nat)
    ensures 1 <= p
  {
    if k == 0 then 1 else 2 * Pow2(k - 1)
  }

  /** `blockSize = 1 << 9`. */
  const BlockSize: nat := Pow2(9)

  /** Go's `x &^ m` (equivalently `x & ^m`) on non-negative integers: the bits
      of `x` that are clear in `m`, computed bit by bit from the lowest. */
  function AndNot(x: nat, m: nat): (r: nat)
    ensures r <= x
  {
    if x == 0 then 0
    else 2 * AndNot(x / 2, m / 2) + (if x % 2 == 1 && m % 2 == 0 then 1 else 0)
  }

  lemma {:induction false} AndNotZero(x: nat)
    ensures AndNot(x, 0) == x
  {
    if x != 0 {
      AndNotZero(x / 2);
    }
  }

  /** Division by `d` is determined by any quotient-remainder split. */
  lemma ModOfSplit(x: int, d: int, a: int, c: int)
    requires 0 < d && 0 <= c < d && x == d * a + c
    ensures x % d == c
  {
    var a' := x / d;
    if a' > a {
      MulStep(d, a, a');
    } else if a' < a {
      MulStep(d, a', a);
    }
  }

  /** Multiples of a positive `d` with distinct factors are at least `d`
      apart. */
  lemma MulStep(d: int, a: int, b: int)
    requires 0 < d && a < b
    ensures d * a + d <= d * b
  {
    assert d * b == d * a + d * (b - a);
    assert d * (b - a) == d + d * (b - a - 1);
  }

  /** Halving, rounding down to a multiple of `p` and doubling again rounds
      down to a multiple of `2p`. */
  lemma DoubleFloorOfHalf(x: nat, p: nat)
    requires 1 <= p
    ensures 2 * (x / 2 - (x / 2) % p) == x - x % (2 * p)
  {
    var q, r := x / 2, x % 2;
    var a, b := q / p, q % p;
    assert q == p * a + b;
    assert x == (2 * p) * a + (2 * b + r);
    ModOfSplit(x, 2 * p, a, 2 * b + r);
  }

  /** Clearing the low `k` bits rounds down to a multiple of `2^k`. */
  lemma {:induction false} AndNotLowMask(x: nat, k: nat)
    ensures AndNot(x, Pow2(k) - 1) == x - x % Pow2(k)
  {
    if k == 0 {
      AndNotZero(x);
    } else if x != 0 {
      var p := Pow2(k - 1);
      var m := Pow2(k) - 1;
      assert m / 2 == p - 1 && m % 2 == 1;
      assert AndNot(x, m) == 2 * AndNot(x / 2, p - 1);
      AndNotLowMask(x / 2, k - 1);
      DoubleFloorOfHalf(x, p);
    }
  }

  lemma BlockSizeValue()
    ensures Pow2(9) == BlockSize == 512
  {
    assert Pow2(4) == 16;
    assert Pow2(8) == 256;
  }

  /** `size &^ (blockSize-1)`: the exclusive upper bound handed to
      `rand.Int63n`. It is the largest multiple of the block size not above
      `size`. */
  function OffsetBound(size: int): (bound: int)
    requires 0 <= size <= MaxInt64
    ensures bound % BlockSize == 0
    ensures 0 <= bound <= size
    ensures size - BlockSize < bound
  {
    BlockSizeValue();
    AndNotLowMask(size, 9);
    var bound := AndNot(size, BlockSize - 1);
    assert bound == size - size % 512;
    bound
  }

  /** `rand.Int63n(bound)` does not panic exactly when the file holds at
      least one whole block. */
  lemma BoundPositiveIffWholeBlock(size: int)
    requires 0 <= size <= MaxInt64
    ensures OffsetBound(size) > 0 <==> size >= BlockSize
  {
  }

  /** The seek offset of one read probe, an arbitrary draw from
      `[0, bound)`. The seek lands inside the file, so the following read of
      one block finds at least one byte. */
  method ChooseReadOffset(size: int) returns (offset: int)
    requires BlockSize <= size <= MaxInt64
    ensures 0 <= offset < OffsetBound(size)
    ensures offset < size
    ensures 1 <= size - offset
  {
    var bound := OffsetBound(size);
    offset :| 0 <= offset < bound;
  }

  /** The offset itself is not rounded to a block boundary: in a two-block
      file, offset 1 is a possible draw. */
  lemma OffsetNeedNotBeAligned()
    ensures 0 <= 1 < OffsetBound(2 * BlockSize)
    ensures 1 % BlockSize != 0
  {
  }
}
