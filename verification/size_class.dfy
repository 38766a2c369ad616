/** The size-class index of `FastMem::try_new` (`src/lib.rs`):
    `32 - ((size - 1) as u32).leading_zeros()`, which is the base-2 logarithm
    of `size` rounded up, for every size that fits the `u32` cast. */
module SizeClass {
  import opened Common

  /** One more than the largest `u32`. */
  const U32_LIMIT: nat := 0x1_0000_0000

  /** The number of binary digits of `x` (0 for 0). */
  function BitLength(x: nat): (r: nat)
    ensures x == 0 <==> r == 0
    decreases x
  {
    if x == 0 then 0 else 1 + BitLength(x / 2)
  }

  /** `leading_zeros` of `x` read as a `width`-bit unsigned integer: the
      zero bits above the highest set bit, counted from the top. */
  function LeadingZeros(x: nat, width: nat): (r: nat)
    requires x < Pow2(width)
    ensures r <= width
    decreases width
  {
    if width == 0 then 0
    else if x >= Pow2(width - 1) then 0
    else 1 + LeadingZeros(x, width - 1)
  }

  lemma Pow2Of32()
    ensures Pow2(32) == U32_LIMIT
  {
    assert Pow2(8) == 256;
    Pow2Add(8, 8);
    Pow2Add(16, 16);
  }

  /** The class index of a type of `size` bytes. The `as u32` cast keeps the
      low 32 bits of `size - 1`. */
  function ClassIndex(size: nat): (index: nat)
    requires size >= 1
    ensures index <= 32
    ensures size <= U32_LIMIT ==> Pow2(index) >= size && (index == 0 || Pow2(index - 1) < size)
  {
    Pow2Of32();
    var low := (size - 1) % U32_LIMIT;
    LeadingZerosIsWidthMinusBitLength(low, 32);
    BitLengthBounds(low);
    32 - LeadingZeros(low, 32)
  }

  /** `x` lies between the powers of two around its bit length. */
  lemma {:induction false} BitLengthBounds(x: nat)
    ensures x < Pow2(BitLength(x))
    ensures x > 0 ==> Pow2(BitLength(x) - 1) <= x
    decreases x
  {
    if x > 0 {
      BitLengthBounds(x / 2);
    }
  }

  /** Within `width` bits, the leading zeros and the bit length add up to
      `width`. */
  lemma {:induction false} LeadingZerosIsWidthMinusBitLength(x: nat, width: nat)
    requires x < Pow2(width)
    ensures BitLength(x) <= width
    ensures LeadingZeros(x, width) == width - BitLength(x)
    decreases width
  {
    BitLengthBounds(x);
    if BitLength(x) > width {
      Pow2Monotone(width, BitLength(x) - 1);
    }
    if width > 0 {
      if x >= Pow2(width - 1) {
        if BitLength(x) < width {
          Pow2Monotone(BitLength(x), width - 1);
        }
      } else {
        LeadingZerosIsWidthMinusBitLength(x, width - 1);
      }
    }
  }

  /** `k` is a tight power-of-two bound for `size`. */
  predicate TightFor(size: nat, k: nat) {
    Pow2(k) >= size && (k == 0 || Pow2(k - 1) < size)
  }

  /** At most one exponent is tight for a size. */
  lemma TightUnique(size: nat, j: nat, k: nat)
    requires TightFor(size, j) && TightFor(size, k)
    ensures j == k
  {
    if j < k {
      Pow2Monotone(j, k - 1);
    } else if k < j {
      Pow2Monotone(k, j - 1);
    }
  }

  /** The class index is exactly the power of two that fits `size` most
      tightly: `k` is the index of `size` if and only if `2^k >= size` and
      `2^(k-1) < size`. */
  lemma ClassIndexUnique(size: nat, k: nat)
    requires 1 <= size <= U32_LIMIT
    ensures ClassIndex(size) == k <==> TightFor(size, k)
  {
    var index := ClassIndex(size);
    assert TightFor(size, index);
    if TightFor(size, k) {
      TightUnique(size, index, k);
    }
  }

  /** A type whose size is a multiple of its alignment has an alignment no
      wider than its class, so a class-aligned slot suits it. */
  lemma AlignWithinClass(ty: Layout)
    requires ty.Valid() && 1 <= ty.size <= U32_LIMIT
    ensures ty.alignLog2 <= ClassIndex(ty.size)
  {
    var index := ClassIndex(ty.size);
    assert Pow2(index) >= ty.size;
    DivisorAtMost(ty.size, ty.Align());
    if ty.alignLog2 > index {
      Pow2StrictMonotone(index, ty.alignLog2);
    }
  }

  /** A positive multiple of `a` is at least `a`. */
  lemma DivisorAtMost(x: nat, a: nat)
    requires x >= 1 && IsAligned(x, a)
    ensures a <= x
  {
    var q := x / a;
    assert x == q * a;
    MulMonotone(1, q, a);
  }
}
