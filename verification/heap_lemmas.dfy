/** Properties of the bump heap: accounting of free bytes, disjoint and
    increasing placement of successive allocations, and the layout the
    heap test expects. */
module BumpHeapLemmas {
  import opened Common
  import opened BumpHeap

  /** A successful `alloc` keeps `start <= end` and consumes exactly the
      padding plus the value's size. */
  lemma AllocFreeSize<V>(h: Heap, cells: Cells<V>, ty: Layout, t: V)
    requires Valid(h)
    requires Alloc(h, cells, ty, t).Done?
    ensures var a := Alloc(h, cells, ty, t).value;
      && Valid(a.heap)
      && FreeSize(a.heap) == FreeSize(h) - ty.size - (a.addr - h.start)
  {
  }

  /** Successive allocations land at increasing, non-overlapping, aligned
      addresses inside the heap, and (for non-zero sizes) every value can be
      read back at its address afterwards. */
  lemma AllocAllDisjoint<V>(h: Heap, cells: Cells<V>, reqs: seq<(Layout, V)>)
    requires Valid(h)
    requires AllocAll(h, cells, reqs).Done?
    ensures var (addrs, h', cells') := AllocAll(h, cells, reqs).value;
      h'.end == h.end && h.start <= h'.start <= h.end
    ensures var (addrs, h', cells') := AllocAll(h, cells, reqs).value;
      forall i :: 0 <= i < |reqs| ==>
        && IsAligned(addrs[i], reqs[i].0.Align())
        && h.start <= addrs[i]
        && addrs[i] + reqs[i].0.size <= h'.start
    ensures var (addrs, h', cells') := AllocAll(h, cells, reqs).value;
      forall i, j :: 0 <= i < j < |reqs| ==> addrs[i] + reqs[i].0.size <= addrs[j]
    ensures var (addrs, h', cells') := AllocAll(h, cells, reqs).value;
      (forall i :: 0 <= i < |reqs| ==> reqs[i].0.size >= 1) ==>
        forall i :: 0 <= i < |reqs| ==> addrs[i] in cells' && cells'[addrs[i]] == reqs[i].1
  {
    AllocAllBounds(h, cells, reqs);
    AllocAllOrdered(h, cells, reqs);
    if forall i :: 0 <= i < |reqs| ==> reqs[i].0.size >= 1 {
      AllocAllReadBack(h, cells, reqs);
    }
  }

  /** One step of `AllocAll`: the first request, then the rest. */
  lemma AllocAllStep<V>(h: Heap, cells: Cells<V>, reqs: seq<(Layout, V)>)
    requires reqs != [] && AllocAll(h, cells, reqs).Done?
    ensures var a := Alloc(h, cells, reqs[0].0, reqs[0].1);
      && a.Done?
      && AllocAll(a.value.heap, a.value.cells, reqs[1..]).Done?
      && var rest := AllocAll(a.value.heap, a.value.cells, reqs[1..]).value;
      && AllocAll(h, cells, reqs).value == ([a.value.addr] + rest.0, rest.1, rest.2)
  {
  }

  lemma {:induction false} AllocAllBounds<V>(h: Heap, cells: Cells<V>, reqs: seq<(Layout, V)>)
    requires Valid(h)
    requires AllocAll(h, cells, reqs).Done?
    ensures var (addrs, h', cells') := AllocAll(h, cells, reqs).value;
      h'.end == h.end && h.start <= h'.start <= h.end
    ensures var (addrs, h', cells') := AllocAll(h, cells, reqs).value;
      forall i :: 0 <= i < |reqs| ==>
        && IsAligned(addrs[i], reqs[i].0.Align())
        && h.start <= addrs[i]
        && addrs[i] + reqs[i].0.size <= h'.start
    decreases |reqs|
  {
    if reqs != [] {
      AllocAllStep(h, cells, reqs);
      var a := Alloc(h, cells, reqs[0].0, reqs[0].1).value;
      var tail := reqs[1..];
      AllocAllBounds(a.heap, a.cells, tail);
      var rest := AllocAll(a.heap, a.cells, tail).value;
      var (addrs, h', cells') := AllocAll(h, cells, reqs).value;
      forall i | 0 <= i < |reqs|
        ensures IsAligned(addrs[i], reqs[i].0.Align())
        ensures h.start <= addrs[i] && addrs[i] + reqs[i].0.size <= h'.start
      {
        if i > 0 {
          assert addrs[i] == rest.0[i - 1] && reqs[i] == tail[i - 1];
        }
      }
    }
  }

  lemma {:induction false} AllocAllOrdered<V>(h: Heap, cells: Cells<V>, reqs: seq<(Layout, V)>)
    requires Valid(h)
    requires AllocAll(h, cells, reqs).Done?
    ensures var (addrs, h', cells') := AllocAll(h, cells, reqs).value;
      forall i, j :: 0 <= i < j < |reqs| ==> addrs[i] + reqs[i].0.size <= addrs[j]
    decreases |reqs|
  {
    if reqs != [] {
      AllocAllStep(h, cells, reqs);
      var a := Alloc(h, cells, reqs[0].0, reqs[0].1).value;
      var tail := reqs[1..];
      AllocAllBounds(a.heap, a.cells, tail);
      AllocAllOrdered(a.heap, a.cells, tail);
      var rest := AllocAll(a.heap, a.cells, tail).value;
      var (addrs, h', cells') := AllocAll(h, cells, reqs).value;
      forall i, j | 0 <= i < j < |reqs| ensures addrs[i] + reqs[i].0.size <= addrs[j] {
        assert addrs[j] == rest.0[j - 1] && reqs[j] == tail[j - 1];
        if i > 0 {
          assert addrs[i] == rest.0[i - 1] && reqs[i] == tail[i - 1];
        }
      }
    }
  }

  lemma {:induction false} AllocAllReadBack<V>(h: Heap, cells: Cells<V>, reqs: seq<(Layout, V)>)
    requires Valid(h)
    requires AllocAll(h, cells, reqs).Done?
    requires forall i :: 0 <= i < |reqs| ==> reqs[i].0.size >= 1
    ensures var (addrs, h', cells') := AllocAll(h, cells, reqs).value;
      forall i :: 0 <= i < |reqs| ==> addrs[i] in cells' && cells'[addrs[i]] == reqs[i].1
    decreases |reqs|
  {
    if reqs != [] {
      AllocAllStep(h, cells, reqs);
      var a := Alloc(h, cells, reqs[0].0, reqs[0].1).value;
      var tail := reqs[1..];
      assert forall k :: 0 <= k < |tail| ==> tail[k] == reqs[k + 1];
      AllocAllBounds(a.heap, a.cells, tail);
      AllocAllReadBack(a.heap, a.cells, tail);
      var rest := AllocAll(a.heap, a.cells, tail).value;
      var (addrs, h', cells') := AllocAll(h, cells, reqs).value;
      forall i | 0 <= i < |reqs| ensures addrs[i] in cells' && cells'[addrs[i]] == reqs[i].1 {
        if i > 0 {
          assert addrs[i] == rest.0[i - 1] && reqs[i] == tail[i - 1];
        } else {
          AllocAllUntouched(a.heap, a.cells, tail, a.addr);
        }
      }
    }
  }

  /** Cells below the heap's start are not written by later allocations. */
  lemma {:induction false} AllocAllUntouched<V>(h: Heap, cells: Cells<V>, reqs: seq<(Layout, V)>, x: Addr)
    requires AllocAll(h, cells, reqs).Done?
    requires x < h.start
    requires x in cells
    ensures x in AllocAll(h, cells, reqs).value.2
    ensures AllocAll(h, cells, reqs).value.2[x] == cells[x]
    decreases |reqs|
  {
    if reqs != [] {
      var a := Alloc(h, cells, reqs[0].0, reqs[0].1).value;
      AllocAllUntouched(a.heap, a.cells, reqs[1..], x);
    }
  }

  /** `alloc` from `start` with alignment `align` places the value at `at`
      when `at` is the first `align`-multiple from `start` on. */
  lemma AllocPlaces<V>(h: Heap, cells: Cells<V>, ty: Layout, t: V, at: Addr)
    requires IsAligned(at, ty.Align()) && h.start <= at && at + ty.size <= h.end
    requires forall m: nat :: h.start <= m < at ==> !IsAligned(m, ty.Align())
    ensures Alloc(h, cells, ty, t) == Done(Allocated(at, Heap(at + ty.size, h.end), cells[at := t]))
  {
    var r := AlignUp(h.start, ty.Align());
    assert !(r < at);
  }

  lemma AllocAllCons<V>(h: Heap, cells: Cells<V>, req: (Layout, V), rest: seq<(Layout, V)>, tail: (seq<Addr>, Heap, Cells<V>))
    requires Alloc(h, cells, req.0, req.1).Done?
    requires AllocAll(Alloc(h, cells, req.0, req.1).value.heap, Alloc(h, cells, req.0, req.1).value.cells, rest) == Done(tail)
    ensures AllocAll(h, cells, [req] + rest) == Done(([Alloc(h, cells, req.0, req.1).value.addr] + tail.0, tail.1, tail.2))
  {
    assert ([req] + rest)[1..] == rest;
  }

  /** The placements of the layout scenario that need no padding. */
  lemma LayoutUnpadded(base: Addr, c: Cells<int>)
    requires base % 4 == 0
    ensures Alloc(Heap(base, base + 128), c, Layout(1, 0), 1)
      == Done(Allocated(base, Heap(base + 1, base + 128), c[base := 1]))
    ensures Alloc(Heap(base + 1, base + 128), c, Layout(2, 0), 2)
      == Done(Allocated(base + 1, Heap(base + 3, base + 128), c[base + 1 := 2]))
    ensures Alloc(Heap(base + 8, base + 128), c, Layout(6, 1), 4)
      == Done(Allocated(base + 8, Heap(base + 14, base + 128), c[base + 8 := 4]))
  {
    assert Layout(6, 1).Align() == 2 && Layout(1, 0).Align() == 1;
    AllocPlaces(Heap(base, base + 128), c, Layout(1, 0), 1, base);
    AllocPlaces(Heap(base + 1, base + 128), c, Layout(2, 0), 2, base + 1);
    AllocPlaces(Heap(base + 8, base + 128), c, Layout(6, 1), 4, base + 8);
  }

  /** A `u32` requested at `from`, which is not 4-aligned, is padded up to
      the next multiple of 4. */
  lemma LayoutPadded(base: Addr, from: nat, at: nat, c: Cells<int>, t: int)
    requires base % 4 == 0 && at % 4 == 0 && at - 4 < from < at && at + 4 <= 128
    ensures Alloc(Heap(base + from, base + 128), c, Layout(4, 2), t)
      == Done(Allocated(base + at, Heap(base + at + 4, base + 128), c[base + at := t]))
  {
    assert Layout(4, 2).Align() == 4;
    forall m: nat | base + from <= m < base + at ensures !IsAligned(m, 4) {
      assert (m - base) % 4 != 0;
    }
    AllocPlaces(Heap(base + from, base + 128), c, Layout(4, 2), t, base + at);
  }

  /** The heap test's layout: a `u8`, a `[u8; 2]`, a `u32`, a `[u16; 3]` and a
      `u32` allocated from a word-aligned 128-byte store land at offsets 0, 1,
      4, 8 and 0x10. */
  lemma LayoutScenario(base: Addr)
    requires base % 4 == 0
    ensures
      var reqs: seq<(Layout, int)> := [
        (Layout(1, 0), 1),          // u8
        (Layout(2, 0), 2),          // [u8; 2]
        (Layout(4, 2), 3),          // u32
        (Layout(6, 1), 4),          // [u16; 3]
        (Layout(4, 2), 5)           // u32
      ];
      var r := AllocAll(Init(base, 128), map[], reqs);
      && r.Done?
      && r.value.0 == [base, base + 1, base + 4, base + 8, base + 0x10]
      && FreeSize(r.value.1) == 128 - 0x14
  {
    var e := base + 128;
    var c0: Cells<int> := map[];
    var c1: Cells<int> := c0[base := 1];
    var c2: Cells<int> := c1[base + 1 := 2];
    var c3: Cells<int> := c2[base + 4 := 3];
    var c4: Cells<int> := c3[base + 8 := 4];
    var c5: Cells<int> := c4[base + 0x10 := 5];
    LayoutUnpadded(base, c0);
    LayoutUnpadded(base, c1);
    LayoutPadded(base, 3, 4, c2, 3);
    LayoutUnpadded(base, c3);
    LayoutPadded(base, 14, 0x10, c4, 5);
    var h5 := Heap(base + 0x14, e);
    var q1, q2, q3, q4, q5 := (Layout(1, 0), 1), (Layout(2, 0), 2), (Layout(4, 2), 3), (Layout(6, 1), 4), (Layout(4, 2), 5);
    var r5: seq<(Layout, int)>, as5: seq<Addr> := [], [];
    var r4, as4 := [q5] + r5, [base + 0x10] + as5;
    var r3, as3 := [q4] + r4, [base + 8] + as4;
    var r2, as2 := [q3] + r3, [base + 4] + as3;
    var r1, as1 := [q2] + r2, [base + 1] + as2;
    AllocAllCons(Heap(base + 14, e), c4, q5, r5, (as5, h5, c5));
    AllocAllCons(Heap(base + 8, e), c3, q4, r4, (as4, h5, c5));
    AllocAllCons(Heap(base + 3, e), c2, q3, r3, (as3, h5, c5));
    AllocAllCons(Heap(base + 1, e), c1, q2, r2, (as2, h5, c5));
    AllocAllCons(Heap(base, e), c0, q1, r1, (as1, h5, c5));
    assert [q1] + r1 == [q1, q2, q3, q4, q5];
    assert [base] + as1 == [base, base + 1, base + 4, base + 8, base + 0x10];
  }
}
