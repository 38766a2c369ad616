/** The arena invariant of `FastMem` and the properties it yields: every
    operation preserves it, data slots are aligned for their class and lie
    below `start`, node records lie at or above `end`, and a released node
    is handed out again for the next request of its class. */
module FastMemLemmas {
  import opened Common
  import opened FreeList
  import opened FreeListLemmas
  import SizeClass
  import opened FastMemArena

  /** Node `a` has a data slot of class `i`: aligned to `2^i`, inside the
      heap and wholly below `start`. */
  ghost predicate SlotOk<V>(fm: FastMem<V>, a: Addr, i: nat) {
    && a in fm.nodes
    && IsAligned(fm.nodes[a].data, Pow2(i))
    && fm.base <= fm.nodes[a].data
    && fm.nodes[a].data + Pow2(i) <= fm.start
  }

  ghost predicate Bounds<V>(fm: FastMem<V>) {
    && fm.cfg.word > 0
    && fm.cfg.nodeSize > 0
    && fm.base <= fm.start <= fm.end <= fm.base + fm.capacity
  }

  /** Each class stack is an acyclic chain whose view is `views[i]`. */
  ghost predicate Chains<V>(fm: FastMem<V>, views: seq<seq<Addr>>) {
    && |views| == |fm.stacks|
    && forall i :: 0 <= i < |views| ==> ListFrom(fm.nodes, fm.stacks[i].head, views[i])
  }

  /** No node is on two class stacks. */
  ghost predicate Disjoint(views: seq<seq<Addr>>) {
    forall i, j, a :: 0 <= i < |views| && 0 <= j < |views| && i != j && a in views[i] ==> a !in views[j]
  }

  /** Node records are carved at or above `end`, inside the heap. */
  ghost predicate NodesAbove<V>(fm: FastMem<V>) {
    forall a :: a in fm.nodes ==> fm.end <= a && a + fm.cfg.nodeSize <= fm.base + fm.capacity
  }

  /** Nodes on stack `i` have class-`i` slots. */
  ghost predicate ChainSlots<V>(fm: FastMem<V>, views: seq<seq<Addr>>) {
    forall i, k :: 0 <= i < |views| && 0 <= k < |views[i]| ==> SlotOk(fm, views[i][k], i)
  }

  /** Live nodes (whose link names class stack `i`) have class-`i` slots. */
  ghost predicate LiveSlots<V>(fm: FastMem<V>) {
    forall a, i :: a in fm.nodes && 0 <= i < |fm.stacks| && fm.nodes[a].next == Some(StackAddr(fm, i)) ==> SlotOk(fm, a, i)
  }

  /** Node `a` holds a slot of class `i`: it is on class stack `i`, or it is
      live and its link names class stack `i`. */
  ghost predicate Owns<V>(fm: FastMem<V>, views: seq<seq<Addr>>, a: Addr, i: nat) {
    && a in fm.nodes
    && i < |fm.stacks|
    && ((i < |views| && a in views[i]) || fm.nodes[a].next == Some(StackAddr(fm, i)))
  }

  /** The byte ranges `[x, x + wx)` and `[y, y + wy)` do not overlap. */
  predicate Apart(x: nat, wx: nat, y: nat, wy: nat) {
    x + wx <= y || y + wy <= x
  }

  /** Distinct nodes that hold slots hold non-overlapping class-width slots. */
  ghost predicate SlotsApart<V>(fm: FastMem<V>, views: seq<seq<Addr>>) {
    forall a, i, b, j {:trigger Owns(fm, views, a, i), Owns(fm, views, b, j)} ::
      Owns(fm, views, a, i) && Owns(fm, views, b, j) && a != b ==>
      Apart(fm.nodes[a].data, Pow2(i), fm.nodes[b].data, Pow2(j))
  }

  /** The arena invariant, with `views` the contents of the class stacks. */
  ghost predicate Inv<V>(fm: FastMem<V>, views: seq<seq<Addr>>) {
    && Bounds(fm)
    && HeadsIn(fm)
    && Chains(fm, views)
    && Disjoint(views)
    && NodesAbove(fm)
    && ChainSlots(fm, views)
    && LiveSlots(fm)
    && SlotsApart(fm, views)
  }

  /** A handle whose node is live: its link names its class stack. */
  ghost predicate IsLive<V>(fm: FastMem<V>, b: Box) {
    && b.node in fm.nodes
    && b.index < |fm.stacks|
    && fm.nodes[b.node] == Node(Some(StackAddr(fm, b.index)), b.data)
  }

  /** A class stack's address is never a node record's address. */
  lemma StackAddrNotNode<V>(fm: FastMem<V>, i: nat)
    requires Bounds(fm) && NodesAbove(fm)
    ensures StackAddr(fm, i) !in fm.nodes
  {
  }

  /** Nodes on a class stack link to nodes or to nothing, so a live node
      is on no class stack. */
  lemma LiveNotOnStack<V>(fm: FastMem<V>, views: seq<seq<Addr>>, a: Addr, i: nat)
    requires Inv(fm, views)
    requires a in fm.nodes && i < |fm.stacks| && fm.nodes[a].next == Some(StackAddr(fm, i))
    ensures forall j :: 0 <= j < |views| ==> a !in views[j]
  {
    forall j | 0 <= j < |views| ensures a !in views[j] {
      if a in views[j] {
        var k :| 0 <= k < |views[j]| && views[j][k] == a;
        ListFromLinks(fm.nodes, fm.stacks[j].head, views[j], k);
        ListFromInMem(fm.nodes, fm.stacks[j].head, views[j]);
        StackAddrNotNode(fm, i);
      }
    }
  }

  /** `init` establishes the invariant with every class stack empty. */
  lemma InitEstablishesInv<V>(cfg: Config, base: Addr, capacity: nat, classes: nat)
    requires cfg.word > 0 && cfg.nodeSize > 0
    requires capacity % cfg.word == 0
    ensures Init<V>(cfg, base, capacity, classes).Done?
    ensures Inv(Init<V>(cfg, base, capacity, classes).value, seq(classes, _ => []))
  {
  }

  /** Distinct class stacks have distinct addresses. */
  lemma StackAddrInjective<V>(fm: FastMem<V>, i: nat, j: nat)
    requires fm.cfg.word > 0
    requires StackAddr(fm, i) == StackAddr(fm, j)
    ensures i == j
  {
    if i < j {
      MulStrict(2 + i, 2 + j, fm.cfg.word);
    } else if j < i {
      MulStrict(2 + j, 2 + i, fm.cfg.word);
    }
  }

  /** A node that holds a slot of class `i` has a class-`i` slot below
      `start`. */
  lemma OwnsSlotOk<V>(fm: FastMem<V>, views: seq<seq<Addr>>, a: Addr, i: nat)
    requires |views| == |fm.stacks| && ChainSlots(fm, views) && LiveSlots(fm)
    requires Owns(fm, views, a, i)
    ensures SlotOk(fm, a, i)
  {
    if a in views[i] {
      var k :| 0 <= k < |views[i]| && views[i][k] == a;
      assert SlotOk(fm, views[i][k], i);
    }
  }

  /** A step after which every slot holder held the same slot before keeps
      the slots apart. */
  lemma ApartShrinks<V>(fm: FastMem<V>, views: seq<seq<Addr>>, fm': FastMem<V>, views': seq<seq<Addr>>)
    requires SlotsApart(fm, views)
    requires forall a, i :: Owns(fm', views', a, i) ==> Owns(fm, views, a, i) && fm'.nodes[a].data == fm.nodes[a].data
    ensures SlotsApart(fm', views')
  {
    forall a: Addr, i: nat, b: Addr, j: nat | Owns(fm', views', a, i) && Owns(fm', views', b, j) && a != b
      ensures Apart(fm'.nodes[a].data, Pow2(i), fm'.nodes[b].data, Pow2(j))
    {
      assert Owns(fm, views, a, i) && Owns(fm, views, b, j);
    }
  }

  /** The views after `try_new`: a recycled node leaves its class stack. */
  function ViewsAfterTryNew<V>(fm: FastMem<V>, ty: Layout, views: seq<seq<Addr>>): seq<seq<Addr>>
    requires ty.size >= 1
    requires |views| == |fm.stacks|
  {
    var index := SizeClass.ClassIndex(ty.size);
    if index < |fm.stacks| && fm.stacks[index].head.Some? && |views[index]| > 0
    then views[index := views[index][1..]]
    else views
  }

  /** `fm'` is `fm` after popping the head `n` of stack `index` and
      handing it out. */
  ghost predicate RecycledFrom<V>(fm: FastMem<V>, fm': FastMem<V>, index: nat) {
    && index < |fm.stacks| && fm.stacks[index].head.Some?
    && var n := fm.stacks[index].head.value;
    && n in fm.nodes
    && fm'.cfg == fm.cfg && fm'.base == fm.base && fm'.capacity == fm.capacity
    && fm'.start == fm.start && fm'.end == fm.end
    && fm'.stacks == fm.stacks[index := Stack(fm.nodes[n].next)]
    && fm'.nodes == fm.nodes[n := Node(Some(StackAddr(fm, index)), fm.nodes[n].data)]
  }

  lemma RecycleChains<V>(fm: FastMem<V>, views: seq<seq<Addr>>, fm': FastMem<V>, index: nat)
    requires Chains(fm, views) && Disjoint(views)
    requires RecycledFrom(fm, fm', index)
    ensures |views[index]| > 0 && views[index][0] == fm.stacks[index].head.value
    ensures Chains(fm', views[index := views[index][1..]])
    ensures Disjoint(views[index := views[index][1..]])
  {
    var xs := views[index];
    var n := fm.stacks[index].head.value;
    PopView(fm.stacks[index], fm.nodes, xs);
    ListFromDistinct(fm.nodes, fm.stacks[index].head, xs);
    assert n !in xs[1..];
    var v := fm'.nodes[n];
    var views' := views[index := xs[1..]];
    forall i | 0 <= i < |views'| ensures ListFrom(fm'.nodes, fm'.stacks[i].head, views'[i]) {
      if i == index {
        ListFromFrame(fm.nodes, fm.nodes[n].next, xs[1..], n, v);
      } else {
        assert n !in views[i];
        ListFromFrame(fm.nodes, fm.stacks[i].head, views[i], n, v);
      }
    }
    forall i, j, a | 0 <= i < |views'| && 0 <= j < |views'| && i != j && a in views'[i] ensures a !in views'[j] {
      assert a in views[i];
    }
  }

  lemma RecycleSlots<V>(fm: FastMem<V>, views: seq<seq<Addr>>, fm': FastMem<V>, index: nat)
    requires Bounds(fm) && Chains(fm, views) && ChainSlots(fm, views) && LiveSlots(fm)
    requires RecycledFrom(fm, fm', index)
    requires |views[index]| > 0 && views[index][0] == fm.stacks[index].head.value
    ensures ChainSlots(fm', views[index := views[index][1..]])
    ensures LiveSlots(fm')
  {
    var xs := views[index];
    var n := xs[0];
    var views' := views[index := xs[1..]];
    forall i, k | 0 <= i < |views'| && 0 <= k < |views'[i]| ensures SlotOk(fm', views'[i][k], i) {
      if i == index {
        assert views'[i][k] == xs[k + 1];
        assert SlotOk(fm, xs[k + 1], i);
      } else {
        assert SlotOk(fm, views[i][k], i);
      }
    }
    forall a, i | a in fm'.nodes && 0 <= i < |fm'.stacks| && fm'.nodes[a].next == Some(StackAddr(fm', i))
      ensures SlotOk(fm', a, i)
    {
      if a == n {
        StackAddrInjective(fm, i, index);
        assert SlotOk(fm, xs[0], index);
      } else {
        assert SlotOk(fm, a, i);
      }
    }
  }

  lemma RecycleApart<V>(fm: FastMem<V>, views: seq<seq<Addr>>, fm': FastMem<V>, index: nat)
    requires Bounds(fm) && Chains(fm, views) && SlotsApart(fm, views)
    requires RecycledFrom(fm, fm', index)
    requires |views[index]| > 0 && views[index][0] == fm.stacks[index].head.value
    ensures SlotsApart(fm', views[index := views[index][1..]])
  {
    var xs := views[index];
    var n := xs[0];
    var views' := views[index := xs[1..]];
    forall a: Addr, i: nat | Owns(fm', views', a, i) ensures Owns(fm, views, a, i) && fm'.nodes[a].data == fm.nodes[a].data {
      if a == n {
        if fm'.nodes[a].next == Some(StackAddr(fm', i)) {
          StackAddrInjective(fm, i, index);
        }
        assert n in views[index];
      } else if i == index && a in views'[i] {
        assert a in xs;
      }
    }
    ApartShrinks(fm, views, fm', views');
  }

  /** Handing out the head of a class stack keeps the invariant, with the
      node gone from that stack's view, and makes the node live. */
  lemma RecycleStepInv<V>(fm: FastMem<V>, views: seq<seq<Addr>>, fm': FastMem<V>, index: nat)
    requires Inv(fm, views)
    requires RecycledFrom(fm, fm', index)
    ensures |views[index]| > 0
    ensures Inv(fm', views[index := views[index][1..]])
    ensures IsLive(fm', Box(fm.stacks[index].head.value, fm.nodes[fm.stacks[index].head.value].data, index))
  {
    var views' := views[index := views[index][1..]];
    RecycleChains(fm, views, fm', index);
    RecycleSlots(fm, views, fm', index);
    RecycleApart(fm, views, fm', index);
    forall i | 0 <= i < |fm'.stacks| ensures HeadIn(fm'.stacks[i], fm'.nodes) {
      PopView(fm'.stacks[i], fm'.nodes, views'[i]);
    }
  }

  /** `fm'` is `fm` after carving a data slot of class `index` and a node
      record for it. */
  ghost predicate CarvedFrom<V>(fm: FastMem<V>, fm': FastMem<V>, index: nat) {
    var w := Pow2(index);
    var slot := BlockAbove(fm.start, w);
    var n := fm.end - fm.cfg.nodeSize;
    && index < |fm.stacks|
    && slot + w + fm.cfg.nodeSize <= fm.end
    && fm'.cfg == fm.cfg && fm'.base == fm.base && fm'.capacity == fm.capacity
    && fm'.start == slot + w && fm'.end == n
    && fm'.stacks == fm.stacks
    && fm'.nodes == fm.nodes[n := Node(Some(StackAddr(fm, index)), slot)]
  }

  lemma CarveChains<V>(fm: FastMem<V>, views: seq<seq<Addr>>, fm': FastMem<V>, index: nat)
    requires Bounds(fm) && Chains(fm, views) && NodesAbove(fm)
    requires CarvedFrom(fm, fm', index)
    ensures Chains(fm', views) && HeadsIn(fm')
  {
    var n := fm.end - fm.cfg.nodeSize;
    var v := fm'.nodes[n];
    assert n !in fm.nodes;
    forall i | 0 <= i < |views| ensures ListFrom(fm'.nodes, fm'.stacks[i].head, views[i]) {
      ListFromInMem(fm.nodes, fm.stacks[i].head, views[i]);
      ListFromFrame(fm.nodes, fm.stacks[i].head, views[i], n, v);
    }
    forall i | 0 <= i < |fm'.stacks| ensures HeadIn(fm'.stacks[i], fm'.nodes) {
      PopView(fm'.stacks[i], fm'.nodes, views[i]);
    }
  }

  lemma CarveSlots<V>(fm: FastMem<V>, views: seq<seq<Addr>>, fm': FastMem<V>, index: nat)
    requires Bounds(fm) && NodesAbove(fm) && ChainSlots(fm, views) && LiveSlots(fm)
    requires CarvedFrom(fm, fm', index)
    ensures ChainSlots(fm', views) && LiveSlots(fm')
  {
    var n := fm.end - fm.cfg.nodeSize;
    forall i, k | 0 <= i < |views| && 0 <= k < |views[i]| ensures SlotOk(fm', views[i][k], i) {
      assert SlotOk(fm, views[i][k], i);
    }
    forall a, i | a in fm'.nodes && 0 <= i < |fm'.stacks| && fm'.nodes[a].next == Some(StackAddr(fm', i))
      ensures SlotOk(fm', a, i)
    {
      if a == n {
        StackAddrInjective(fm, i, index);
      } else {
        assert SlotOk(fm, a, i);
      }
    }
  }

  lemma CarveApart<V>(fm: FastMem<V>, views: seq<seq<Addr>>, fm': FastMem<V>, index: nat)
    requires Bounds(fm) && Chains(fm, views) && NodesAbove(fm)
    requires ChainSlots(fm, views) && LiveSlots(fm) && SlotsApart(fm, views)
    requires CarvedFrom(fm, fm', index)
    ensures SlotsApart(fm', views)
  {
    var n: Addr := fm.end - fm.cfg.nodeSize;
    assert n !in fm.nodes;
    forall a: Addr, i: nat | Owns(fm', views, a, i) && a != n
      ensures Owns(fm, views, a, i) && fm'.nodes[a].data == fm.nodes[a].data
    {
    }
    forall i: nat | Owns(fm', views, n, i) ensures i == index {
      if !(i < |views| && n in views[i]) {
        StackAddrInjective(fm, i, index);
      }
    }
    forall a: Addr, i: nat, b: Addr, j: nat | Owns(fm', views, a, i) && Owns(fm', views, b, j) && a != b
      ensures Apart(fm'.nodes[a].data, Pow2(i), fm'.nodes[b].data, Pow2(j))
    {
      if a == n {
        OwnsSlotOk(fm, views, b, j);
      } else if b == n {
        OwnsSlotOk(fm, views, a, i);
      } else {
        assert Owns(fm, views, a, i) && Owns(fm, views, b, j);
      }
    }
  }

  /** Carving a fresh slot and node keeps the invariant and makes the node
      live. */
  lemma CarveStepInv<V>(fm: FastMem<V>, views: seq<seq<Addr>>, fm': FastMem<V>, index: nat)
    requires Inv(fm, views)
    requires CarvedFrom(fm, fm', index)
    ensures Inv(fm', views)
    ensures IsLive(fm', Box(fm.end - fm.cfg.nodeSize, BlockAbove(fm.start, Pow2(index)), index))
  {
    CarveChains(fm, views, fm', index);
    CarveSlots(fm, views, fm', index);
    CarveApart(fm, views, fm', index);
  }

  /** Moving `start` up, short of `end`, keeps the invariant. */
  lemma BumpStepInv<V>(fm: FastMem<V>, views: seq<seq<Addr>>, start: Addr)
    requires Inv(fm, views)
    requires fm.start <= start <= fm.end
    ensures Inv(fm.(start := start), views)
  {
    var fm' := fm.(start := start);
    forall i, k | 0 <= i < |views| && 0 <= k < |views[i]| ensures SlotOk(fm', views[i][k], i) {
      assert SlotOk(fm, views[i][k], i);
    }
    forall a, i | a in fm'.nodes && 0 <= i < |fm'.stacks| && fm'.nodes[a].next == Some(StackAddr(fm', i))
      ensures SlotOk(fm', a, i)
    {
      assert SlotOk(fm, a, i);
    }
    ApartShrinks(fm, views, fm', views);
  }

  /** The recycling path is a recycling step. */
  lemma ReuseShape<V>(fm: FastMem<V>, index: nat, t: V)
    requires index < |fm.stacks| && HeadIn(fm.stacks[index], fm.nodes) && fm.stacks[index].head.Some?
    ensures RecycledFrom(fm, Reuse(fm, index, t).fm, index)
  {
  }

  /** The fresh path is a carving step, a bump of `start`, or no change. */
  lemma CarveShape<V>(fm: FastMem<V>, index: nat, t: V)
    requires index < |fm.stacks|
    ensures var r := Carve(fm, index, t);
      var slot := BlockAbove(fm.start, Pow2(index));
      && (r.boxed.Some? ==> CarvedFrom(fm, r.fm, index))
      && (r.boxed.None? ==> r.fm == fm || (slot + Pow2(index) <= fm.end && r.fm == fm.(start := slot + Pow2(index))))
  {
  }

  /** `try_new` keeps the invariant: a recycled node leaves its class
      stack's view, and every handle it returns is live. */
  lemma TryNewPreservesInv<V>(fm: FastMem<V>, views: seq<seq<Addr>>, ty: Layout, t: V, probe: Probe)
    requires Inv(fm, views) && ty.size >= 1
    requires TryNewWith(fm, ty, t, probe).Done?
    ensures var r := TryNewWith(fm, ty, t, probe).value;
      && Inv(r.fm, ViewsAfterTryNew(fm, ty, views))
      && (r.boxed.Some? ==> IsLive(r.fm, r.boxed.value))
  {
    var index := SizeClass.ClassIndex(ty.size);
    var r := TryNewWith(fm, ty, t, probe).value;
    if fm.stacks[index].head.Some? {
      ReuseShape(fm, index, t);
      RecycleStepInv(fm, views, r.fm, index);
    } else {
      CarveShape(fm, index, t);
      if r.boxed.Some? {
        CarveStepInv(fm, views, r.fm, index);
      } else if r.fm != fm {
        BumpStepInv(fm, views, r.fm.start);
      }
    }
  }

  lemma ReleaseApart<V>(fm: FastMem<V>, views: seq<seq<Addr>>, b: Box)
    requires Inv(fm, views) && IsLive(fm, b)
    ensures SlotsApart(Release(fm, b), views[b.index := [b.node] + views[b.index]])
  {
    var fm' := Release(fm, b);
    var views' := views[b.index := [b.node] + views[b.index]];
    LiveNotOnStack(fm, views, b.node, b.index);
    forall a: Addr, i: nat | Owns(fm', views', a, i) ensures Owns(fm, views, a, i) && fm'.nodes[a].data == fm.nodes[a].data {
      if a == b.node {
        StackAddrNotNode(fm, i);
        assert i == b.index;
      }
    }
    ApartShrinks(fm, views, fm', views');
  }

  /** Dropping a live handle keeps the invariant, with its node on top of
      its class stack's view. */
  lemma ReleasePreservesInv<V>(fm: FastMem<V>, views: seq<seq<Addr>>, b: Box)
    requires Inv(fm, views) && IsLive(fm, b)
    ensures Inv(Release(fm, b), views[b.index := [b.node] + views[b.index]])
  {
    var fm' := Release(fm, b);
    var views' := views[b.index := [b.node] + views[b.index]];
    var v := fm'.nodes[b.node];
    LiveNotOnStack(fm, views, b.node, b.index);
    ReleaseApart(fm, views, b);
    forall i | 0 <= i < |views'| ensures ListFrom(fm'.nodes, fm'.stacks[i].head, views'[i]) {
      if i == b.index {
        PushView(fm.stacks[i], fm.nodes, b.node, views[i]);
      } else {
        ListFromFrame(fm.nodes, fm.stacks[i].head, views[i], b.node, v);
      }
    }
    forall i, j, a | 0 <= i < |views'| && 0 <= j < |views'| && i != j && a in views'[i] ensures a !in views'[j] {
      if a != b.node {
        assert a in views[i];
      }
    }
    forall i | 0 <= i < |fm'.stacks| ensures HeadIn(fm'.stacks[i], fm'.nodes) {
      PopView(fm'.stacks[i], fm'.nodes, views'[i]);
    }
    forall i, k | 0 <= i < |views'| && 0 <= k < |views'[i]| ensures SlotOk(fm', views'[i][k], i) {
      if i == b.index && k == 0 {
        assert SlotOk(fm, b.node, i);
      } else if i == b.index {
        assert views'[i][k] == views[i][k - 1];
        assert SlotOk(fm, views[i][k - 1], i);
      } else {
        assert SlotOk(fm, views[i][k], i);
      }
    }
    forall a, i | a in fm'.nodes && 0 <= i < |fm'.stacks| && fm'.nodes[a].next == Some(StackAddr(fm', i))
      ensures SlotOk(fm', a, i)
    {
      if a == b.node {
        StackAddrNotNode(fm, i);
      } else {
        assert SlotOk(fm, a, i);
      }
    }
  }

  /** Two live handles on distinct nodes have non-overlapping slots. */
  lemma LiveApart<V>(fm: FastMem<V>, views: seq<seq<Addr>>, b1: Box, b2: Box)
    requires Inv(fm, views) && IsLive(fm, b1) && IsLive(fm, b2) && b1.node != b2.node
    ensures Apart(b1.data, Pow2(b1.index), b2.data, Pow2(b2.index))
  {
    assert Owns(fm, views, b1.node, b1.index) && Owns(fm, views, b2.node, b2.index);
  }

  /** A handle live before a recycling step stays live, and it is not the
      recycled node. */
  lemma RecycleKeepsLive<V>(fm: FastMem<V>, views: seq<seq<Addr>>, fm': FastMem<V>, index: nat, b: Box)
    requires Inv(fm, views) && RecycledFrom(fm, fm', index) && IsLive(fm, b)
    ensures fm.stacks[index].head.value != b.node && IsLive(fm', b)
  {
    PopView(fm.stacks[index], fm.nodes, views[index]);
    LiveNotOnStack(fm, views, b.node, b.index);
  }

  /** A handle live before a carving step stays live, and it is not the
      carved node. */
  lemma CarveKeepsLive<V>(fm: FastMem<V>, fm': FastMem<V>, index: nat, b: Box)
    requires Bounds(fm) && NodesAbove(fm) && CarvedFrom(fm, fm', index) && IsLive(fm, b)
    ensures fm.end - fm.cfg.nodeSize != b.node && IsLive(fm', b)
  {
  }

  /** A handle returned by `try_new` (either check, either path) takes a node
      no live handle holds, every handle live before stays live, and the new
      handle's slot overlaps no live handle's slot. */
  lemma TryNewApart<V>(fm: FastMem<V>, views: seq<seq<Addr>>, ty: Layout, t: V, probe: Probe, b: Box)
    requires Inv(fm, views) && ty.size >= 1 && IsLive(fm, b)
    requires TryNewWith(fm, ty, t, probe).Done? && TryNewWith(fm, ty, t, probe).value.boxed.Some?
    ensures var r := TryNewWith(fm, ty, t, probe).value;
      var b' := r.boxed.value;
      && b'.node != b.node
      && IsLive(r.fm, b)
      && Apart(b'.data, Pow2(b'.index), b.data, Pow2(b.index))
  {
    var index := SizeClass.ClassIndex(ty.size);
    var r := TryNewWith(fm, ty, t, probe).value;
    TryNewPreservesInv(fm, views, ty, t, probe);
    if fm.stacks[index].head.Some? {
      ReuseShape(fm, index, t);
      RecycleKeepsLive(fm, views, r.fm, index, b);
    } else {
      CarveShape(fm, index, t);
      CarveKeepsLive(fm, r.fm, index, b);
    }
    LiveApart(r.fm, ViewsAfterTryNew(fm, ty, views), r.boxed.value, b);
  }

  /** The handle `new` returns overlaps no live handle's slot, and every
      handle live before stays live. */
  lemma NewApart<V>(fm: FastMem<V>, views: seq<seq<Addr>>, ty: Layout, t: V, b: Box)
    requires Inv(fm, views) && ty.size >= 1 && IsLive(fm, b)
    requires New(fm, ty, t).Done?
    ensures var (b', fm') := New(fm, ty, t).value;
      && b'.node != b.node
      && IsLive(fm', b)
      && Apart(b'.data, Pow2(b'.index), b.data, Pow2(b.index))
  {
    TryNewApart(fm, views, ty, t, DataAddress, b);
  }

  /** Under the invariant, the corrected `try_new` never fails its alignment
      check: it panics exactly when the class index has no stack, and every
      handle it returns has a data slot aligned for the type. */
  lemma TryNewAligned<V>(fm: FastMem<V>, views: seq<seq<Addr>>, ty: Layout, t: V)
    requires Inv(fm, views) && ty.Valid() && 1 <= ty.size <= SizeClass.U32_LIMIT
    ensures TryNew(fm, ty, t).Panicked? <==> SizeClass.ClassIndex(ty.size) >= |fm.stacks|
    ensures TryNew(fm, ty, t).Done? && TryNew(fm, ty, t).value.boxed.Some? ==>
      IsAligned(TryNew(fm, ty, t).value.boxed.value.data, ty.Align())
  {
    var index := SizeClass.ClassIndex(ty.size);
    SizeClass.AlignWithinClass(ty);
    if index < |fm.stacks| {
      match fm.stacks[index].head
      case Some(n) =>
        PopView(fm.stacks[index], fm.nodes, views[index]);
        assert SlotOk(fm, views[index][0], index);
        AlignedToSmallerPow2(fm.nodes[n].data, ty.alignLog2, index);
      case None =>
        AlignedToSmallerPow2(BlockAbove(fm.start, Pow2(index)), ty.alignLog2, index);
    }
  }

  /** The corrected `new` under the invariant: its handle's data slot is
      aligned for the type, and it panics only for a missing class stack or
      out of memory. */
  lemma NewAligned<V>(fm: FastMem<V>, views: seq<seq<Addr>>, ty: Layout, t: V)
    requires Inv(fm, views) && ty.Valid() && 1 <= ty.size <= SizeClass.U32_LIMIT
    ensures New(fm, ty, t).Done? ==> IsAligned(New(fm, ty, t).value.0.data, ty.Align())
    ensures New(fm, ty, t).Panicked? ==>
      New(fm, ty, t).reason == OutOfMemory || SizeClass.ClassIndex(ty.size) >= |fm.stacks|
  {
    TryNewAligned(fm, views, ty, t);
  }

  /** Where the check as written and the corrected check differ, the
      as-written one panics on a node whose data slot is properly aligned;
      whenever it does not panic, both give the same result. */
  lemma AsWrittenOnlyAddsPanics<V>(fm: FastMem<V>, views: seq<seq<Addr>>, ty: Layout, t: V)
    requires Inv(fm, views) && ty.Valid() && 1 <= ty.size <= SizeClass.U32_LIMIT
    ensures TryNewAsWritten(fm, ty, t).Done? ==> TryNewAsWritten(fm, ty, t) == TryNew(fm, ty, t)
    ensures TryNewAsWritten(fm, ty, t) != TryNew(fm, ty, t) ==>
      && TryNew(fm, ty, t).Done?
      && TryNewAsWritten(fm, ty, t).Panicked?
      && TryNewAsWritten(fm, ty, t).reason.IllegalAlignment?
  {
    TryNewAligned(fm, views, ty, t);
  }

  /** A released node is handed out again by the next corrected `new` of its
      class, with the same data slot, without moving either cursor. */
  lemma RecycleSameSlot<V>(fm: FastMem<V>, views: seq<seq<Addr>>, ty: Layout, ty2: Layout, t1: V, t2: V)
    requires Inv(fm, views)
    requires ty.Valid() && 1 <= ty.size <= SizeClass.U32_LIMIT
    requires ty2.Valid() && 1 <= ty2.size <= SizeClass.U32_LIMIT
    requires SizeClass.ClassIndex(ty2.size) == SizeClass.ClassIndex(ty.size)
    requires New(fm, ty, t1).Done?
    ensures
      var (b, fm1) := New(fm, ty, t1).value;
      && IsLive(fm1, b)
      && var fm2 := Release(fm1, b);
      && HeadsIn(fm2)
      && New(fm2, ty2, t2).Done?
      && New(fm2, ty2, t2).value.0 == b
      && New(fm2, ty2, t2).value.1.start == fm1.start
      && New(fm2, ty2, t2).value.1.end == fm1.end
      && New(fm2, ty2, t2).value.1.slots == fm1.slots[b.data := t2]
  {
    var (b, fm1) := New(fm, ty, t1).value;
    TryNewPreservesInv(fm, views, ty, t1, DataAddress);
    var views1 := ViewsAfterTryNew(fm, ty, views);
    ReleasePreservesInv(fm1, views1, b);
    var fm2 := Release(fm1, b);
    TryNewAligned(fm2, views1[b.index := [b.node] + views1[b.index]], ty2, t2);
    assert fm2.stacks[b.index].head == Some(b.node);
  }

  /** A fresh data slot lies wholly above every live handle's slot, and
      below every node record. */
  lemma FreshSlotAboveLive<V>(fm: FastMem<V>, views: seq<seq<Addr>>, ty: Layout, t: V, b: Box)
    requires Inv(fm, views) && IsLive(fm, b) && ty.size >= 1
    requires TryNew(fm, ty, t).Done? && TryNew(fm, ty, t).value.boxed.Some?
    requires fm.stacks[SizeClass.ClassIndex(ty.size)].head.None?
    ensures var b' := TryNew(fm, ty, t).value.boxed.value;
      && b.data + Pow2(b.index) <= b'.data
      && b'.data + Pow2(b'.index) <= b'.node
      && (forall a :: a in fm.nodes ==> b'.data + Pow2(b'.index) <= a)
  {
    assert SlotOk(fm, b.node, b.index);
  }

  /** The alignment check as written rejects a correctly aligned slot. On a
      64-bit target with 16-byte node records and a 128-byte arena at a
      32-aligned base, a 32-byte type with 32-byte alignment gets the slot at
      `base + 32` and the node record at `base + 112`. Once the handle is
      dropped, the next request of that type pops the node at `base + 112`,
      which is 16 modulo 32: the check as written panics, while the slot it
      would hand out is 32-aligned and the corrected check returns it. `new`
      as written passes the panic on. */
  lemma SpuriousAlignmentPanic()
    ensures
      var base := 0x2000_0000;
      var ty := Layout(32, 5);
      var r0 := Init<int>(Config(8, 16), base, 128, 8);
      && r0.Done? && HeadsIn(r0.value)
      && var r1 := New(r0.value, ty, 1);
      && r1.Done? && r1.value.0 == Box(base + 112, base + 32, 5)
      && r1.value.0.node in r1.value.1.nodes && r1.value.0.index < |r1.value.1.stacks|
      && var fm := Release(r1.value.1, r1.value.0);
      && HeadsIn(fm)
      && TryNewAsWritten(fm, ty, 2) == Panicked(IllegalAlignment(base + 112))
      && NewAsWritten(fm, ty, 2) == Panicked(IllegalAlignment(base + 112))
      && TryNew(fm, ty, 2).Done?
      && TryNew(fm, ty, 2).value.boxed == Some(Box(base + 112, base + 32, 5))
      && IsAligned(base + 32, ty.Align())
  {
    ScenarioFirstBox();
    var r1 := New(Init<int>(Config(8, 16), 0x2000_0000, 128, 8).value, Layout(32, 5), 1);
    ScenarioRecycle(Release(r1.value.1, r1.value.0));
  }

  /** The first `new` of the scenario and the drop of its handle. */
  lemma ScenarioFirstBox()
    ensures
      var base := 0x2000_0000;
      var r0 := Init<int>(Config(8, 16), base, 128, 8);
      && r0.Done? && HeadsIn(r0.value)
      && var r1 := New(r0.value, Layout(32, 5), 1);
      && r1.Done? && r1.value.0 == Box(base + 112, base + 32, 5)
      && r1.value.0.node in r1.value.1.nodes && r1.value.0.index < |r1.value.1.stacks|
      && var fm := Release(r1.value.1, r1.value.0);
      && HeadsIn(fm) && |fm.stacks| == 8
      && fm.stacks[5].head == Some(base + 112)
      && base + 112 in fm.nodes && fm.nodes[base + 112].data == base + 32
  {
    var base := 0x2000_0000;
    var ty := Layout(32, 5);
    assert Pow2(4) == 16;
    SizeClass.ClassIndexUnique(32, 5);
    InitEstablishesInv<int>(Config(8, 16), base, 128, 8);
    var fm0 := Init<int>(Config(8, 16), base, 128, 8).value;
    var views0: seq<seq<Addr>> := seq(8, _ => []);
    assert BlockAbove(base, 32) == base + 32;
    TryNewPreservesInv(fm0, views0, ty, 1, DataAddress);
    var (b, fm1) := New(fm0, ty, 1).value;
    ReleasePreservesInv(fm1, ViewsAfterTryNew(fm0, ty, views0), b);
  }

  /** The second request of the scenario, with the dropped node on top of
      class stack 5. */
  lemma ScenarioRecycle(fm: FastMem<int>)
    requires HeadsIn(fm) && |fm.stacks| == 8
    requires fm.stacks[5].head == Some(0x2000_0000 + 112)
    requires 0x2000_0000 + 112 in fm.nodes && fm.nodes[0x2000_0000 + 112].data == 0x2000_0000 + 32
    ensures TryNewAsWritten(fm, Layout(32, 5), 2) == Panicked(IllegalAlignment(0x2000_0000 + 112))
    ensures NewAsWritten(fm, Layout(32, 5), 2) == Panicked(IllegalAlignment(0x2000_0000 + 112))
    ensures TryNew(fm, Layout(32, 5), 2).Done?
    ensures TryNew(fm, Layout(32, 5), 2).value.boxed == Some(Box(0x2000_0000 + 112, 0x2000_0000 + 32, 5))
  {
    assert Pow2(4) == 16;
    SizeClass.ClassIndexUnique(32, 5);
    assert Layout(32, 5).Align() == 32;
  }
}
