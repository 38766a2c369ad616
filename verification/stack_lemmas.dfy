/** Properties of the free-list: the chain view is unique and acyclic,
    push and pop move exactly one node on and off the view, and the stack is
    last-in first-out, also across payload types. */
module FreeListLemmas {
  import opened Common
  import opened FreeList

  lemma {:induction false} ListFromInMem<P>(mem: Mem<P>, head: Option<Addr>, xs: seq<Addr>)
    requires ListFrom(mem, head, xs)
    ensures forall i :: 0 <= i < |xs| ==> xs[i] in mem
    decreases |xs|
  {
    if head.Some? {
      ListFromInMem(mem, mem[head.value].next, xs[1..]);
      forall i | 0 <= i < |xs| ensures xs[i] in mem {
        if i > 0 { assert xs[i] == xs[1..][i - 1]; }
      }
    }
  }

  /** The view is determined by the memory and the head. */
  lemma {:induction false} ListFromUnique<P>(mem: Mem<P>, head: Option<Addr>, xs: seq<Addr>, ys: seq<Addr>)
    requires ListFrom(mem, head, xs) && ListFrom(mem, head, ys)
    ensures xs == ys
    decreases |xs|
  {
    if head.Some? {
      ListFromUnique(mem, mem[head.value].next, xs[1..], ys[1..]);
      assert xs == [xs[0]] + xs[1..];
      assert ys == [ys[0]] + ys[1..];
    }
  }

  /** Every suffix of a chain is the chain of its first node. */
  lemma {:induction false} ListFromSuffix<P>(mem: Mem<P>, head: Option<Addr>, xs: seq<Addr>, i: nat)
    requires ListFrom(mem, head, xs)
    requires i < |xs|
    ensures ListFrom(mem, Some(xs[i]), xs[i..])
    decreases i
  {
    if i > 0 {
      ListFromSuffix(mem, mem[head.value].next, xs[1..], i - 1);
      assert xs[1..][i - 1..] == xs[i..];
    }
  }

  /** Consecutive nodes of the view are linked; the last links to `None`. */
  lemma {:induction false} ListFromLinks<P>(mem: Mem<P>, head: Option<Addr>, xs: seq<Addr>, i: nat)
    requires ListFrom(mem, head, xs)
    requires i < |xs|
    ensures xs[i] in mem
    ensures mem[xs[i]].next == if i + 1 < |xs| then Some(xs[i + 1]) else None
  {
    ListFromSuffix(mem, head, xs, i);
    var tail := xs[i..];
    assert ListFrom(mem, mem[xs[i]].next, tail[1..]);
    if i + 1 < |xs| {
      assert tail[1..][0] == xs[i + 1];
    } else {
      assert tail[1..] == [];
    }
  }

  /** A chain that ends in `None` has no cycle: no node occurs twice. */
  lemma ListFromDistinct<P>(mem: Mem<P>, head: Option<Addr>, xs: seq<Addr>)
    requires ListFrom(mem, head, xs)
    ensures Distinct(xs)
  {
    forall i, j | 0 <= i < j < |xs| ensures xs[i] != xs[j] {
      if xs[i] == xs[j] {
        ListFromSuffix(mem, head, xs, i);
        ListFromSuffix(mem, head, xs, j);
        ListFromUnique(mem, Some(xs[i]), xs[i..], xs[j..]);
      }
    }
  }

  /** Changing a record that is not on the chain leaves the chain intact. */
  lemma {:induction false} ListFromFrame<P>(mem: Mem<P>, head: Option<Addr>, xs: seq<Addr>, a: Addr, v: Node<P>)
    requires ListFrom(mem, head, xs)
    requires a !in xs
    ensures ListFrom(mem[a := v], head, xs)
    decreases |xs|
  {
    if head.Some? {
      assert xs[0] != a;
      assert a !in xs[1..];
      ListFromFrame(mem, mem[head.value].next, xs[1..], a, v);
    }
  }

  /** The empty stack has the empty view and pops nothing. */
  lemma NewStackIsEmpty<P>(mem: Mem<P>)
    ensures ListFrom(mem, NewStack().head, [])
    ensures Pop(NewStack(), mem) == Popped(None, NewStack(), mem)
  {
  }

  /** `push` puts the node in front of the view. */
  lemma PushView<P>(s: Stack, mem: Mem<P>, n: Addr, xs: seq<Addr>)
    requires ListFrom(mem, s.head, xs)
    requires n in mem && n !in xs
    ensures ListFrom(Push(s, mem, n).1, Push(s, mem, n).0.head, [n] + xs)
  {
    var (s', m') := Push(s, mem, n);
    ListFromFrame(mem, s.head, xs, n, m'[n]);
    assert m' == mem[n := m'[n]];
    assert ([n] + xs)[1..] == xs;
  }

  /** `pop` takes the first node of the view, leaves the rest as the view and
      hands back the node unlinked. */
  lemma PopView<P>(s: Stack, mem: Mem<P>, xs: seq<Addr>)
    requires ListFrom(mem, s.head, xs)
    ensures HeadIn(s, mem)
    ensures xs == [] ==> Pop(s, mem).node.None? && ListFrom(Pop(s, mem).mem, Pop(s, mem).stack.head, [])
    ensures xs != [] ==>
      && Pop(s, mem).node == Some(xs[0])
      && Pop(s, mem).mem[xs[0]].next.None?
      && ListFrom(Pop(s, mem).mem, Pop(s, mem).stack.head, xs[1..])
  {
    if xs != [] {
      var n := xs[0];
      var p := Pop(s, mem);
      ListFromDistinct(mem, s.head, xs);
      assert n !in xs[1..];
      ListFromFrame(mem, mem[n].next, xs[1..], n, p.mem[n]);
      assert p.mem == mem[n := p.mem[n]];
    }
  }

  /** `push(n)` then `pop` returns `n`, restores the previous head and leaves
      every other record as it was; `n` comes back unlinked with its payload. */
  lemma PushThenPop<P>(s: Stack, mem: Mem<P>, n: Addr)
    requires n in mem
    ensures Pop(Push(s, mem, n).0, Push(s, mem, n).1) == Popped(Some(n), s, mem[n := mem[n].(next := None)])
  {
    var (s1, m1) := Push(s, mem, n);
    var p := Pop(s1, m1);
    assert p.stack == s;
    assert p.mem == mem[n := mem[n].(next := None)];
  }

  /** Two payload types sharing one stack, as exercised by the stack test. */
  datatype Payload = Int(i: int) | Quad(a: int, b: int, c: int, d: int)

  /** Pushing `n1` (an `i32` node) then `n2` (an `[i32; 4]` node) onto a new
      stack pops `n2`, then `n1`, then leaves the stack empty; both payloads
      come back untouched. */
  lemma LifoAcrossPayloadTypes(n1: Addr, n2: Addr)
    requires n1 != n2
    ensures
      var mem := map[n1 := NewNode(Int(42)), n2 := NewNode(Quad(1, 2, 3, 4))];
      var (s1, m1) := Push(NewStack(), mem, n1);
      var (s2, m2) := Push(s1, m1, n2);
      var p2 := Pop(s2, m2);
      var p1 := Pop(p2.stack, p2.mem);
      && p2.node == Some(n2) && p1.node == Some(n1)
      && p1.stack.head == None
      && p1.mem == mem
  {
  }

  /** Pushing the distinct fresh nodes `ns` in order puts them in front of the
      view in reverse order. */
  lemma {:induction false} PushAllView<P>(s: Stack, mem: Mem<P>, ns: seq<Addr>, xs: seq<Addr>)
    requires ListFrom(mem, s.head, xs)
    requires forall i :: 0 <= i < |ns| ==> ns[i] in mem && ns[i] !in xs
    requires Distinct(ns)
    ensures ListFrom(PushAll(s, mem, ns).1, PushAll(s, mem, ns).0.head, Reverse(ns) + xs)
    decreases |ns|
  {
    if ns != [] {
      var (s1, m1) := Push(s, mem, ns[0]);
      PushView(s, mem, ns[0], xs);
      var xs1 := [ns[0]] + xs;
      forall i | 0 <= i < |ns[1..]| ensures ns[1..][i] in m1 && ns[1..][i] !in xs1 {
        assert ns[1..][i] == ns[i + 1];
      }
      PushAllView(s1, m1, ns[1..], xs1);
      assert PushAll(s, mem, ns) == PushAll(s1, m1, ns[1..]);
      assert Reverse(ns) == Reverse(ns[1..]) + [ns[0]];
      assert Reverse(ns[1..]) + xs1 == Reverse(ns) + xs;
    } else {
      assert Reverse(ns) + xs == xs;
    }
  }

  /** Popping `k` times from a chain returns its first `k` nodes in order and
      leaves the rest as the view. */
  lemma PopNView<P>(s: Stack, mem: Mem<P>, xs: seq<Addr>, k: nat)
    requires ListFrom(mem, s.head, xs) && Closed(mem)
    requires k <= |xs|
    ensures HeadIn(s, mem)
    ensures PopN(s, mem, k).0 == xs[..k]
    ensures ListFrom(PopN(s, mem, k).2, PopN(s, mem, k).1.head, xs[k..])
  {
    PopNPopped(s, mem, xs, k);
    PopNRest(s, mem, xs, k);
  }

  lemma {:induction false} PopNPopped<P>(s: Stack, mem: Mem<P>, xs: seq<Addr>, k: nat)
    requires ListFrom(mem, s.head, xs) && Closed(mem)
    requires k <= |xs|
    ensures HeadIn(s, mem)
    ensures PopN(s, mem, k).0 == xs[..k]
    decreases k
  {
    assert HeadIn(s, mem) by { PopView(s, mem, xs); }
    if k > 0 {
      var p := Pop(s, mem);
      var tail := xs[1..];
      assert PopN(s, mem, k).0 == [xs[0]] + PopN(p.stack, p.mem, k - 1).0
        && ListFrom(p.mem, p.stack.head, tail) && Closed(p.mem) by {
        PopView(s, mem, xs);
        PopNUnfold(s, mem, k);
      }
      PopNPopped(p.stack, p.mem, tail, k - 1);
      TakeCons(xs, k);
    }
  }

  lemma TakeCons(xs: seq<Addr>, k: nat)
    requires 0 < k <= |xs|
    ensures xs[..k] == [xs[0]] + xs[1..][..k - 1]
  {
  }

  lemma {:induction false} PopNRest<P>(s: Stack, mem: Mem<P>, xs: seq<Addr>, k: nat)
    requires ListFrom(mem, s.head, xs) && Closed(mem)
    requires k <= |xs|
    ensures HeadIn(s, mem)
    ensures ListFrom(PopN(s, mem, k).2, PopN(s, mem, k).1.head, xs[k..])
    decreases k
  {
    assert HeadIn(s, mem) by { PopView(s, mem, xs); }
    if k > 0 {
      var p := Pop(s, mem);
      var tail := xs[1..];
      assert PopN(s, mem, k).1 == PopN(p.stack, p.mem, k - 1).1 && PopN(s, mem, k).2 == PopN(p.stack, p.mem, k - 1).2
        && ListFrom(p.mem, p.stack.head, tail) && Closed(p.mem) by {
        PopView(s, mem, xs);
        PopNUnfold(s, mem, k);
      }
      PopNRest(p.stack, p.mem, tail, k - 1);
      assert tail[k - 1..] == xs[k..];
    } else {
      assert xs[0..] == xs;
    }
  }

  /** One step of `PopN` on a non-empty stack. */
  lemma PopNUnfold<P>(s: Stack, mem: Mem<P>, k: nat)
    requires HeadIn(s, mem) && Closed(mem)
    requires k > 0 && s.head.Some?
    ensures var p := Pop(s, mem);
      && HeadIn(p.stack, p.mem) && Closed(p.mem)
      && var rest := PopN(p.stack, p.mem, k - 1);
      && PopN(s, mem, k) == ([s.head.value] + rest.0, rest.1, rest.2)
  {
  }

  /** The push/pop stress scenario: push `n1..nN` onto an empty stack, pop N
      times; the pops come out exactly reversed and the stack is empty. */
  lemma PushPopStress<P>(mem: Mem<P>, ns: seq<Addr>)
    requires Closed(mem)
    requires forall i :: 0 <= i < |ns| ==> ns[i] in mem
    requires Distinct(ns)
    ensures
      var (s, m) := PushAll(NewStack(), mem, ns);
      var (popped, s', _) := PopN(s, m, |ns|);
      popped == Reverse(ns) && s'.head == None
  {
    var (s, m) := PushAll(NewStack(), mem, ns);
    PushAllView(NewStack(), mem, ns, []);
    assert Reverse(ns) + [] == Reverse(ns);
    PopNView(s, m, Reverse(ns), |ns|);
    var (popped, s', m') := PopN(s, m, |ns|);
    assert Reverse(ns)[|ns|..] == [];
  }
}
