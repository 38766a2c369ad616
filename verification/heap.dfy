/** The align-respecting bump allocator of `src/heap.rs`.

    `start` is the next free byte and `end` one past the last byte of the
    backing store. Values written by `alloc` are kept in a map from address
    to value, so the model records *what* was stored *where*. */
module BumpHeap {
  import opened Common

  datatype Heap = Heap(start: Addr, end: Addr)

  /** The memory contents written through the heap. */
  type Cells<V> = map<Addr, V>

  datatype Allocated<V> = Allocated(addr: Addr, heap: Heap, cells: Cells<V>)

  /** `start <= end`: what `free_size` needs and what `init` and `alloc` keep. */
  predicate Valid(h: Heap) {
    h.start <= h.end
  }

  /** `Heap::init`: bind the cursors to a store at `storeAddr` that is
      `storeSize` bytes long. */
  function Init(storeAddr: Addr, storeSize: nat): (h: Heap)
    ensures Valid(h)
    ensures h.start == storeAddr && FreeSize(h) == storeSize
  {
    Heap(storeAddr, storeAddr + storeSize)
  }

  /** `Heap::free_size`: bytes left between the cursors. */
  function FreeSize(h: Heap): (r: nat)
    requires Valid(h)
    ensures h.start + r == h.end
  {
    h.end - h.start
  }

  /** The start address rounded up to `align`, as `alloc` computes it: the
      spill `start % align` is padded away only when it is non-zero. The result
      is the smallest multiple of `align` that is at least `start`. */
  function AlignUp(start: Addr, align: nat): (r: Addr)
    requires align > 0
    ensures IsAligned(r, align)
    ensures start <= r < start + align
    ensures IsAligned(start, align) ==> r == start
    ensures forall m: nat :: start <= m < r ==> !IsAligned(m, align)
  {
    var spill := start % align;
    if spill != 0 then
      var r := start + (align - spill);
      assert r == (start / align + 1) * align;
      MulIsAligned(start / align + 1, align);
      forall m: nat | start <= m < r ensures !IsAligned(m, align) {
        NoMultipleStrictlyBetween(start / align, align, m);
      }
      r
    else
      start
  }

  /** `Heap::alloc`: place a value of layout `ty` at the next `align`-aligned
      address and bump `start` past it; panics "oom" if it would pass `end`,
      before any cursor moves. */
  function Alloc<V>(h: Heap, cells: Cells<V>, ty: Layout, t: V): (r: Outcome<Allocated<V>>)
    ensures r.Panicked? <==> AlignUp(h.start, ty.Align()) + ty.size > h.end
    ensures r.Panicked? ==> r.reason == HeapOom
    ensures r.Done? ==>
      var a := r.value;
      && IsAligned(a.addr, ty.Align())
      && h.start <= a.addr < h.start + ty.Align()
      && a.heap == Heap(a.addr + ty.size, h.end)
      && a.heap.start <= h.end
      && a.cells == cells[a.addr := t]
  {
    var aligned := AlignUp(h.start, ty.Align());
    var newStart := aligned + ty.size;
    if newStart > h.end then
      Panicked(HeapOom)
    else
      Done(Allocated(aligned, Heap(newStart, h.end), cells[aligned := t]))
  }

  /** Allocates each value in order, panicking at the first that does not fit. */
  function AllocAll<V>(h: Heap, cells: Cells<V>, reqs: seq<(Layout, V)>): (r: Outcome<(seq<Addr>, Heap, Cells<V>)>)
    ensures r.Done? ==> |r.value.0| == |reqs|
    decreases |reqs|
  {
    if reqs == [] then Done(([], h, cells))
    else
      match Alloc(h, cells, reqs[0].0, reqs[0].1)
      case Panicked(p) => Panicked(p)
      case Done(a) =>
        match AllocAll(a.heap, a.cells, reqs[1..])
        case Panicked(p) => Panicked(p)
        case Done(rest) => Done(([a.addr] + rest.0, rest.1, rest.2))
  }
}
