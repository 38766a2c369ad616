/** Shared vocabulary of the allocator model: addresses, optional values,
    the outcome of an operation that may panic, powers of two and type layouts.

    Addresses are unbounded naturals; the machine's `usize` wrap-around is not
    modelled (every operation that could wrap states the precondition that
    keeps it from wrapping, or computes on `int` and compares). */
module Common {

  /** A byte address in the target's address space. */
  type Addr = nat

  datatype Option<+T> = None | Some(value: T)

  /** The reasons the modelled Rust code panics. */
  datatype Panic =
    | HeapOom                              // `Heap::alloc`: "oom"
    | OutOfMemory                          // `FastMem::new`: "Out of memory"
    | IllegalAlignment(at: Addr)           // `FastMem::try_new`: "illegal alignment @.."
    | IndexOutOfBounds(index: nat, len: nat) // `self.stacks[index]` past the end
    | SizeNotWordMultiple                  // `FastMemStore::init`: `assert_eq!(N % size_of::<usize>(), 0)`

  /** The result of an operation that either returns normally or panics. */
  datatype Outcome<+T> = Done(value: T) | Panicked(reason: Panic)

  /** 2 to the power `n`, i.e. `1 << n`. */
  function Pow2(n: nat): (r: nat)
    ensures r >= 1
  {
    if n == 0 then 1 else 2 * Pow2(n - 1)
  }

  /** `a` is a multiple of `align`. */
  predicate IsAligned(a: int, align: nat) {
    align > 0 && a % align == 0
  }

  /** The size and alignment of a Rust type. Alignments are powers of two,
      so the alignment is kept as its base-2 logarithm. */
  datatype Layout = Layout(size: nat, alignLog2: nat) {

    function Align(): (r: nat)
      ensures r >= 1
    {
      Pow2(alignLog2)
    }

    /** Every Rust type's size is a multiple of its alignment. */
    predicate Valid() {
      size % Align() == 0
    }
  }

  lemma {:induction false} Pow2Add(a: nat, b: nat)
    ensures Pow2(a + b) == Pow2(a) * Pow2(b)
    decreases a
  {
    if a > 0 {
      Pow2Add(a - 1, b);
      assert Pow2(a + b) == 2 * Pow2(a - 1 + b);
    }
  }

  lemma {:induction false} Pow2Monotone(a: nat, b: nat)
    requires a <= b
    ensures Pow2(a) <= Pow2(b)
    decreases b
  {
    if a < b {
      Pow2Monotone(a, b - 1);
    }
  }

  lemma {:induction false} Pow2StrictMonotone(a: nat, b: nat)
    requires a < b
    ensures Pow2(a) < Pow2(b)
    decreases b
  {
    if a < b - 1 {
      Pow2StrictMonotone(a, b - 1);
    }
  }

  lemma {:induction false} MulMonotone(a: nat, b: nat, m: nat)
    requires a <= b
    ensures a * m <= b * m
    decreases b - a
  {
    if a < b {
      MulMonotone(a, b - 1, m);
      assert b * m == (b - 1) * m + m;
    }
  }

  /** `k * m` is a multiple of `m`. */
  lemma MulIsAligned(k: nat, m: nat)
    requires m > 0
    ensures IsAligned(k * m, m)
  {
    var q := (k * m) / m;
    assert k * m == q * m + (k * m) % m;
    if q < k {
      assert (q + 1) * m == q * m + m;
      MulMonotone(q + 1, k, m);
    }
  }

  /** Alignment to `m * n` implies alignment to `n`. */
  lemma AlignedToFactor(a: nat, m: nat, n: nat)
    requires m > 0 && n > 0
    requires IsAligned(a, m * n)
    ensures IsAligned(a, n)
  {
    var mn := m * n;
    var q := a / mn;
    assert a == q * mn + a % mn;
    assert a == q * mn;
    assert q * mn == (q * m) * n;
    MulIsAligned(q * m, n);
  }

  /** Alignment to a larger power of two implies alignment to a smaller one. */
  lemma AlignedToSmallerPow2(a: nat, small: nat, large: nat)
    requires small <= large
    requires IsAligned(a, Pow2(large))
    ensures IsAligned(a, Pow2(small))
  {
    Pow2Add(large - small, small);
    AlignedToFactor(a, Pow2(large - small), Pow2(small));
  }

  /** Between two consecutive multiples of `align` there is no other. */
  lemma NoMultipleStrictlyBetween(q: nat, align: nat, m: nat)
    requires align > 0
    requires q * align < m < (q + 1) * align
    ensures !IsAligned(m, align)
  {
    var p := m / align;
    if m % align == 0 {
      if p <= q { MulMonotone(p, q, align); } else { MulMonotone(q + 1, p, align); }
    }
  }

  /** Multiplying by a positive factor keeps a strict order. */
  lemma MulStrict(a: nat, b: nat, m: nat)
    requires a < b && m > 0
    ensures a * m < b * m
  {
    MulMonotone(a + 1, b, m);
    assert (a + 1) * m == a * m + m;
  }
}
