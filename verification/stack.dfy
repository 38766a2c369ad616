/** The intrusive, type-erased free-list of `src/stack.rs`.

    A node record lives at an address and holds the link `next` (first field,
    so every `Node<T>` can be viewed as a `Node<()>`) and a payload. The stack
    itself is only a `head` pointer. Node records are kept in a memory map
    from address to record; `push` and `pop` touch the link of one record and
    the head, never a payload, so nodes whose payloads have different types
    can share one stack. */
module FreeList {
  import opened Common

  datatype Node<P> = Node(next: Option<Addr>, data: P)

  /** The node records reachable by the stack, keyed by address. */
  type Mem<P> = map<Addr, Node<P>>

  datatype Stack = Stack(head: Option<Addr>)

  /** The result of `pop`: the node taken off (if any), the new stack and the
      node memory after the popped node's link was cleared. */
  datatype Popped<P> = Popped(node: Option<Addr>, stack: Stack, mem: Mem<P>)

  /** `Node::new`: a record that is not linked to anything. */
  function NewNode<P>(data: P): (n: Node<P>)
    ensures n.next == None && n.data == data
  {
    Node(None, data)
  }

  /** `Stack::new`: the empty stack. */
  function NewStack(): (s: Stack)
    ensures s.head == None
  {
    Stack(None)
  }

  /** The head pointer can be dereferenced. */
  predicate HeadIn<P>(s: Stack, mem: Mem<P>) {
    s.head.None? || s.head.value in mem
  }

  /** `push`: the node's link takes the old head and the node becomes the head. */
  function Push<P>(s: Stack, mem: Mem<P>, n: Addr): (r: (Stack, Mem<P>))
    requires n in mem
    ensures r.0.head == Some(n)
    ensures r.1.Keys == mem.Keys
    ensures r.1[n].next == s.head && r.1[n].data == mem[n].data
    ensures forall a :: a in mem && a != n ==> r.1[a] == mem[a]
  {
    (Stack(Some(n)), mem[n := mem[n].(next := s.head)])
  }

  /** `pop`: an empty stack yields nothing and stays empty; otherwise the head
      is returned, the head moves to its former link and the returned node's
      link is cleared. */
  function Pop<P>(s: Stack, mem: Mem<P>): (r: Popped<P>)
    requires HeadIn(s, mem)
    ensures s.head.None? ==> r.node.None? && r.stack.head.None? && r.mem == mem
    ensures s.head.Some? ==>
      && r.node == s.head
      && r.stack.head == mem[s.head.value].next
      && r.mem.Keys == mem.Keys
      && r.mem[s.head.value].next.None?
      && r.mem[s.head.value].data == mem[s.head.value].data
    ensures forall a :: a in mem && Some(a) != s.head ==> r.mem[a] == mem[a]
  {
    match s.head
    case None => Popped(None, s, mem)
    case Some(n) =>
      var node := mem[n];
      Popped(Some(n), Stack(node.next), mem[n := node.(next := None)])
  }

  /** The abstract view of a chain: following links from `head` visits exactly
      `xs` and then reaches `None`. */
  ghost predicate ListFrom<P>(mem: Mem<P>, head: Option<Addr>, xs: seq<Addr>)
    decreases |xs|
  {
    match head
    case None => xs == []
    case Some(a) => |xs| > 0 && xs[0] == a && a in mem && ListFrom(mem, mem[a].next, xs[1..])
  }

  /** No address occurs twice. */
  ghost predicate Distinct(xs: seq<Addr>) {
    forall i, j :: 0 <= i < j < |xs| ==> xs[i] != xs[j]
  }

  /** Every link in `mem` is `None` or points at a record in `mem`. */
  predicate Closed<P>(mem: Mem<P>) {
    forall a :: a in mem ==> mem[a].next.None? || mem[a].next.value in mem
  }

  function Reverse(xs: seq<Addr>): (r: seq<Addr>)
    ensures |r| == |xs|
  {
    if xs == [] then [] else Reverse(xs[1..]) + [xs[0]]
  }

  /** Pushes `ns` in order: `ns[0]` first. */
  function PushAll<P>(s: Stack, mem: Mem<P>, ns: seq<Addr>): (r: (Stack, Mem<P>))
    requires forall i :: 0 <= i < |ns| ==> ns[i] in mem
    ensures r.1.Keys == mem.Keys
    ensures ns != [] ==> r.0.head == Some(ns[|ns| - 1])
    ensures HeadIn(s, mem) && Closed(mem) ==> HeadIn(r.0, r.1) && Closed(r.1)
    decreases |ns|
  {
    if ns == [] then (s, mem)
    else
      var (s1, m1) := Push(s, mem, ns[0]);
      PushAll(s1, m1, ns[1..])
  }

  /** Pops `k` times (stopping early only if the stack runs empty) and
      returns the popped nodes in pop order. */
  function PopN<P>(s: Stack, mem: Mem<P>, k: nat): (r: (seq<Addr>, Stack, Mem<P>))
    requires HeadIn(s, mem) && Closed(mem)
    ensures |r.0| <= k
    ensures HeadIn(r.1, r.2) && Closed(r.2)
    ensures r.2.Keys == mem.Keys
    decreases k
  {
    if k == 0 then ([], s, mem)
    else
      var p := Pop(s, mem);
      match p.node
      case None => ([], p.stack, p.mem)
      case Some(n) =>
        var (rest, s2, m2) := PopN(p.stack, p.mem, k - 1);
        ([n] + rest, s2, m2)
  }
}
