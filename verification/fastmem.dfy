/** The two-ended arena and size-class router of `src/lib.rs`.

    `FastMem<N, S>` is a `repr(C)` struct: the `N`-byte heap array, the
    `start` and `end` cursors and `S` class stacks. Data slots of width
    `2^index` are carved upward from `start`, node records of a fixed size are
    carved downward from `end`, and `try_new` recycles a node from the class
    stack of the requested size before carving fresh memory.

    A node record is the free-list `Node` of the `Stack` module whose payload
    is the address of its data slot (the `ptr` field). While a value is live,
    its node's link holds the address of the class stack it belongs to. */
module FastMemArena {
  import opened Common
  import opened FreeList
  import SizeClass

  /** Layout facts Rust fixes at compile time: `size_of::<usize>()` and
      `size_of::<Node>()`. */
  datatype Config = Config(word: nat, nodeSize: nat)

  datatype FastMem<V> = FastMem(
    cfg: Config,
    base: Addr,            // address of the heap array, the struct's first field
    capacity: nat,         // N
    start: Addr,           // next free byte for data slots (grows upward)
    end: Addr,             // lowest byte of the node records (grows downward)
    stacks: seq<Stack>,    // one free-list per class index
    nodes: Mem<Addr>,      // node records: link and data-slot address
    slots: map<Addr, V>)   // values written into data slots

  /** A handle on an allocated value: its node, its data slot and its class. */
  datatype Box = Box(node: Addr, data: Addr, index: nat)

  /** A region carved from one end of the arena, with the arena afterwards. */
  datatype Carved<V> = Carved(addr: Addr, fm: FastMem<V>)

  /** The result of `try_new`: the handle, if any, and the arena afterwards
      (which may have changed even when there is no handle). */
  datatype Placed<V> = Placed(boxed: Option<Box>, fm: FastMem<V>)

  /** Which address the recycling path checks against the type's alignment. */
  datatype Probe = NodeAddress | DataAddress

  /** The address of `stacks[i]`: under `repr(C)` the stacks follow the heap
      array (`N` bytes, a multiple of the word size) and the two cursors, and
      each stack is one pointer wide. */
  function StackAddr<V>(fm: FastMem<V>, i: nat): (a: Addr)
    ensures a >= fm.base + fm.capacity + 2 * fm.cfg.word
  {
    fm.base + fm.capacity + (2 + i) * fm.cfg.word
  }

  /** Every class stack's head can be dereferenced. */
  predicate HeadsIn<V>(fm: FastMem<V>) {
    forall i :: 0 <= i < |fm.stacks| ==> HeadIn(fm.stacks[i], fm.nodes)
  }

  /** `FastMemStore::init`: check that `N` is a multiple of the word size,
      empty every class stack and bind the cursors to the heap array. */
  function Init<V>(cfg: Config, base: Addr, capacity: nat, classes: nat): (r: Outcome<FastMem<V>>)
    requires cfg.word > 0
    ensures r.Panicked? <==> capacity % cfg.word != 0
    ensures r.Panicked? ==> r.reason == SizeNotWordMultiple
    ensures r.Done? ==>
      && r.value.start == base
      && r.value.end == base + capacity
      && |r.value.stacks| == classes
      && (forall i :: 0 <= i < classes ==> r.value.stacks[i].head.None?)
  {
    if capacity % cfg.word != 0 then
      Panicked(SizeNotWordMultiple)
    else
      Done(FastMem(cfg, base, capacity, base, base + capacity, seq(classes, _ => NewStack()), map[], map[]))
  }

  /** The first multiple of `w` strictly above `start`. */
  function BlockAbove(start: nat, w: nat): (r: nat)
    requires w > 0
    ensures IsAligned(r, w)
    ensures start < r <= start + w
    ensures IsAligned(start, w) ==> r == start + w
    ensures forall m: nat :: start < m < r ==> !IsAligned(m, w)
  {
    var q := start / w;
    assert start == q * w + start % w;
    assert (q + 1) * w == q * w + w;
    MulIsAligned(q + 1, w);
    forall m: nat | start < m < (q + 1) * w ensures !IsAligned(m, w) {
      if m > q * w {
        NoMultipleStrictlyBetween(q, w, m);
      }
    }
    (q + 1) * w
  }

  /** `FastMem::alloc`: carve a data slot of width `2^index` at the first
      multiple of the width strictly above `start` (the padding formula skips
      a whole block when `start` is already aligned). Fails, changing
      nothing, when the slot would end past `end`. */
  function Alloc<V>(fm: FastMem<V>, index: nat): (r: Option<Carved<V>>)
    ensures
      var w := Pow2(index);
      var slot := BlockAbove(fm.start, w);
      && (r.None? <==> slot + w > fm.end)
      && (r.Some? ==> r.value == Carved(slot, fm.(start := slot + w)))
      && (r.Some? ==> IsAligned(r.value.addr, w) && fm.start < r.value.addr && r.value.fm.start <= fm.end)
  {
    var alignedSize := Pow2(index);
    var pad := fm.start % alignedSize;
    var alignedStart := fm.start + alignedSize - pad;
    var alignedEnd := alignedStart + alignedSize;
    SlotFormula(fm.start, alignedSize);
    if alignedEnd > fm.end then
      None
    else
      Some(Carved(alignedStart, fm.(start := alignedEnd)))
  }

  /** The padding formula of `alloc` computes the first multiple above. */
  lemma SlotFormula(start: nat, w: nat)
    requires w > 0
    ensures start + w - start % w == BlockAbove(start, w)
  {
    var q := start / w;
    assert start == q * w + start % w;
    assert (q + 1) * w == q * w + w;
  }

  /** `FastMem::alloc_node`: carve a node record just below `end`; fails,
      changing nothing, when that would go below `start`. */
  function AllocNode<V>(fm: FastMem<V>): (r: Option<Carved<V>>)
    ensures r.None? <==> fm.end < fm.start + fm.cfg.nodeSize
    ensures r.Some? ==>
      && r.value.addr + fm.cfg.nodeSize == fm.end
      && fm.start <= r.value.addr
      && r.value.fm == fm.(end := r.value.addr)
  {
    var newEnd: int := fm.end - fm.cfg.nodeSize;
    if newEnd < fm.start then
      None
    else
      Some(Carved(newEnd, fm.(end := newEnd)))
  }

  /** Hand out node `n`: write `t` into its data slot and record the class
      stack in its link. */
  function Fill<V>(fm: FastMem<V>, index: nat, n: Addr, t: V): (r: Placed<V>)
    requires n in fm.nodes
    ensures r.boxed == Some(Box(n, fm.nodes[n].data, index))
    ensures r.fm.nodes == fm.nodes[n := Node(Some(StackAddr(fm, index)), fm.nodes[n].data)]
    ensures r.fm.slots == fm.slots[fm.nodes[n].data := t]
    ensures r.fm == fm.(nodes := r.fm.nodes, slots := r.fm.slots)
  {
    var data := fm.nodes[n].data;
    Placed(
      Some(Box(n, data, index)),
      fm.(slots := fm.slots[data := t], nodes := fm.nodes[n := Node(Some(StackAddr(fm, index)), data)]))
  }

  /** The address a recycling check inspects for node `n`. */
  function ProbeAt(nodes: Mem<Addr>, n: Addr, probe: Probe): Addr
    requires n in nodes
  {
    match probe
    case NodeAddress => n
    case DataAddress => nodes[n].data
  }

  /** `FastMem::try_new`, with the address that the recycling path checks
      against the type's alignment as a parameter. */
  function TryNewWith<V>(fm: FastMem<V>, ty: Layout, t: V, probe: Probe): (r: Outcome<Placed<V>>)
    requires ty.size >= 1
    requires HeadsIn(fm)
    // the class index must address a stack, and a recycled node must pass the check
    ensures
      var index := SizeClass.ClassIndex(ty.size);
      r.Panicked? <==>
        || index >= |fm.stacks|
        || (fm.stacks[index].head.Some? && !IsAligned(ProbeAt(fm.nodes, fm.stacks[index].head.value, probe), ty.Align()))
    ensures
      var index := SizeClass.ClassIndex(ty.size);
      r.Panicked? ==>
        if index >= |fm.stacks| then r.reason == IndexOutOfBounds(index, |fm.stacks|)
        else r.reason == IllegalAlignment(ProbeAt(fm.nodes, fm.stacks[index].head.value, probe))
    // otherwise a non-empty class stack is recycled and an empty one carves fresh memory
    ensures
      var index := SizeClass.ClassIndex(ty.size);
      r.Done? ==>
        && index < |fm.stacks|
        && (fm.stacks[index].head.Some? ==> r.value == Reuse(fm, index, t))
        && (fm.stacks[index].head.None? ==> r.value == Carve(fm, index, t))
  {
    var index := SizeClass.ClassIndex(ty.size);
    if index >= |fm.stacks| then
      Panicked(IndexOutOfBounds(index, |fm.stacks|))
    else
      match fm.stacks[index].head
      case Some(n) =>
        var checked := ProbeAt(fm.nodes, n, probe);
        if !IsAligned(checked, ty.Align()) then
          Panicked(IllegalAlignment(checked))
        else
          Done(Reuse(fm, index, t))
      case None =>
        Done(Carve(fm, index, t))
  }

  /** The recycling path of `try_new`: pop the head of stack `index` and
      hand it out. */
  function Reuse<V>(fm: FastMem<V>, index: nat, t: V): (r: Placed<V>)
    requires index < |fm.stacks| && HeadIn(fm.stacks[index], fm.nodes) && fm.stacks[index].head.Some?
    ensures
      var n := fm.stacks[index].head.value;
      var data := fm.nodes[n].data;
      && r.boxed == Some(Box(n, data, index))
      && r.fm == fm.(stacks := fm.stacks[index := Stack(fm.nodes[n].next)],
                     nodes := fm.nodes[n := Node(Some(StackAddr(fm, index)), data)],
                     slots := fm.slots[data := t])
  {
    var p := Pop(fm.stacks[index], fm.nodes);
    Fill(fm.(stacks := fm.stacks[index := p.stack], nodes := p.mem), index, p.node.value, t)
  }

  /** The fresh path of `try_new`: carve a data slot of class `index`, then a
      node record for it. When the node does not fit, the slot stays carved
      and no handle is returned. */
  function Carve<V>(fm: FastMem<V>, index: nat, t: V): (r: Placed<V>)
    ensures
      var w := Pow2(index);
      var slot := BlockAbove(fm.start, w);
      var n := fm.end - fm.cfg.nodeSize;
      && (r.boxed.None? <==> slot + w + fm.cfg.nodeSize > fm.end)
      && (r.boxed.None? && slot + w > fm.end ==> r.fm == fm)
      && (r.boxed.None? && slot + w <= fm.end ==> r.fm == fm.(start := slot + w))
      && (r.boxed.Some? ==>
           && r.boxed == Some(Box(n, slot, index))
           && r.fm == fm.(start := slot + w, end := n,
                          nodes := fm.nodes[n := Node(Some(StackAddr(fm, index)), slot)],
                          slots := fm.slots[slot := t]))
  {
    match Alloc(fm, index)
    case None => Placed(None, fm)
    case Some(slot) =>
      match AllocNode(slot.fm)
      case None => Placed(None, slot.fm)
      case Some(rec) =>
        var fm' := rec.fm.(nodes := rec.fm.nodes[rec.addr := Node(None, slot.addr)]);
        Fill(fm', index, rec.addr, t)
  }

  /** `FastMem::try_new` as written: a recycled node is rejected when the
      address of the node record, not of its data slot, is misaligned. */
  function TryNewAsWritten<V>(fm: FastMem<V>, ty: Layout, t: V): (r: Outcome<Placed<V>>)
    requires ty.size >= 1
    requires HeadsIn(fm)
    ensures r.Panicked? && r.reason.IllegalAlignment? ==>
      var index := SizeClass.ClassIndex(ty.size);
      index < |fm.stacks| && fm.stacks[index].head == Some(r.reason.at)
  {
    TryNewWith(fm, ty, t, NodeAddress)
  }

  /** `FastMem::try_new` with the recycling check on the data slot, which
      is what the value is written to. */
  function TryNew<V>(fm: FastMem<V>, ty: Layout, t: V): (r: Outcome<Placed<V>>)
    requires ty.size >= 1
    requires HeadsIn(fm)
    ensures r.Panicked? && r.reason.IllegalAlignment? ==>
      var index := SizeClass.ClassIndex(ty.size);
      && index < |fm.stacks|
      && fm.stacks[index].head.Some?
      && r.reason.at == fm.nodes[fm.stacks[index].head.value].data
      && !IsAligned(r.reason.at, ty.Align())
  {
    TryNewWith(fm, ty, t, DataAddress)
  }

  /** `FastMem::new` over a `try_new` whose recycling path checks `probe`:
      it panics "Out of memory" where `try_new` returns no handle and passes
      every other outcome through. */
  function NewWith<V>(fm: FastMem<V>, ty: Layout, t: V, probe: Probe): (r: Outcome<(Box, FastMem<V>)>)
    requires ty.size >= 1
    requires HeadsIn(fm)
    ensures var tn := TryNewWith(fm, ty, t, probe);
      r.Done? <==> tn.Done? && tn.value.boxed.Some?
    ensures var tn := TryNewWith(fm, ty, t, probe);
      r.Done? ==> r.value == (tn.value.boxed.value, tn.value.fm)
    ensures var tn := TryNewWith(fm, ty, t, probe);
      r.Panicked? && r.reason == OutOfMemory <==> tn.Done? && tn.value.boxed.None?
    ensures var tn := TryNewWith(fm, ty, t, probe);
      tn.Panicked? ==> r == Panicked(tn.reason)
  {
    match TryNewWith(fm, ty, t, probe)
    case Panicked(p) => Panicked(p)
    case Done(placed) =>
      match placed.boxed
      case None => Panicked(OutOfMemory)
      case Some(b) => Done((b, placed.fm))
  }

  /** `FastMem::new` as written, over the node-address check. */
  function NewAsWritten<V>(fm: FastMem<V>, ty: Layout, t: V): (r: Outcome<(Box, FastMem<V>)>)
    requires ty.size >= 1
    requires HeadsIn(fm)
    ensures r.Done? <==> TryNewAsWritten(fm, ty, t).Done? && TryNewAsWritten(fm, ty, t).value.boxed.Some?
    ensures r.Done? ==> r.value == (TryNewAsWritten(fm, ty, t).value.boxed.value, TryNewAsWritten(fm, ty, t).value.fm)
    ensures r.Panicked? && r.reason == OutOfMemory <==>
      TryNewAsWritten(fm, ty, t).Done? && TryNewAsWritten(fm, ty, t).value.boxed.None?
    ensures TryNewAsWritten(fm, ty, t).Panicked? ==> r == Panicked(TryNewAsWritten(fm, ty, t).reason)
  {
    NewWith(fm, ty, t, NodeAddress)
  }

  /** `FastMem::new` over the corrected check. */
  function New<V>(fm: FastMem<V>, ty: Layout, t: V): (r: Outcome<(Box, FastMem<V>)>)
    requires ty.size >= 1
    requires HeadsIn(fm)
    ensures r.Done? <==> TryNew(fm, ty, t).Done? && TryNew(fm, ty, t).value.boxed.Some?
    ensures r.Done? ==> r.value == (TryNew(fm, ty, t).value.boxed.value, TryNew(fm, ty, t).value.fm)
    ensures r.Panicked? && r.reason == OutOfMemory <==> TryNew(fm, ty, t).Done? && TryNew(fm, ty, t).value.boxed.None?
    ensures TryNew(fm, ty, t).Panicked? ==> r == Panicked(TryNew(fm, ty, t).reason)
  {
    NewWith(fm, ty, t, DataAddress)
  }

  /** Dropping a handle: its node goes back on top of its class stack. The
      data slot keeps its last value until the node is reused. */
  function Release<V>(fm: FastMem<V>, b: Box): (r: FastMem<V>)
    requires b.node in fm.nodes && b.index < |fm.stacks|
    ensures r.stacks == fm.stacks[b.index := Stack(Some(b.node))]
    ensures r.nodes == fm.nodes[b.node := Node(fm.stacks[b.index].head, fm.nodes[b.node].data)]
    ensures r == fm.(stacks := r.stacks, nodes := r.nodes)
  {
    var (s, m) := Push(fm.stacks[b.index], fm.nodes, b.node);
    fm.(stacks := fm.stacks[b.index := s], nodes := m)
  }
}
