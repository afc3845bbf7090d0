/**
 `intrusive_pointer_stack` (include/msl/pointers/intrusive_pointer_stack.hpp,
 src/msl/pointers/intrusive_pointer_stack.cpp): a LIFO of addresses whose
 links live in the first pointer-sized bytes of the memory each address
 points to.

 Memory is a map from an address to the pointer-sized word stored there. A
 well-formed stack is described by its chain: the nodes from the head
 onwards, each one's word holding the next node, the last one's word null.

 The code as written follows each link twice: it loads the word at a node
 into `next` and then moves to `*next`, the word stored at the following
 node. Both `pop` and the two traversals do this. `PopAsWritten`,
 `SizeAsWritten` and `ContainsAsWritten` model that reading, with the
 undefined behaviour of reading through a null or unmapped address as
 `None`; `Pop`, `Size` and `Contains` model the evident intent, which the
 rest of the model uses.
 */
module IntrusiveStacks {

  /** The word stored at each address. */
  type Memory = map<nat, nat>

  /** The only member, `m_head`. */
  datatype Stack = Stack(head: nat)

  datatype Option<T> = None | Some(value: T)

  /** The node after position `i` of a chain, or null after the last one. */
  function Successor(chain: seq<nat>, i: nat): nat
    requires i < |chain|
  {
    if i + 1 < |chain| then chain[i + 1] else 0
  }

  /** `chain` is the list of nodes reachable from `head`, ending at a null link. */
  predicate IsChain(mem: Memory, head: nat, chain: seq<nat>)
  {
    head == (if |chain| == 0 then 0 else chain[0])
    && forall i :: 0 <= i < |chain| ==>
         chain[i] != 0 && chain[i] in mem && mem[chain[i]] == Successor(chain, i)
  }

  /** The chain from a head is determined by memory. */
  lemma {:induction false} ChainUnique(mem: Memory, head: nat, c1: seq<nat>, c2: seq<nat>)
    requires IsChain(mem, head, c1) && IsChain(mem, head, c2)
    ensures c1 == c2
    decreases |c1|
  {
    if |c1| > 0 {
      assert |c2| > 0;
      assert IsChain(mem, mem[head], c1[1..]);
      assert IsChain(mem, mem[head], c2[1..]);
      ChainUnique(mem, mem[head], c1[1..], c2[1..]);
      assert c1 == [c1[0]] + c1[1..];
      assert c2 == [c2[0]] + c2[1..];
    }
  }

  /** The default constructor: a null head. */
  function New(): (s: Stack)
    ensures Empty(s) && Peek(s) == 0
    ensures forall mem: Memory :: IsChain(mem, s.head, [])
  {
    Stack(0)
  }

  /** `empty()`: the head is null. */
  predicate Empty(s: Stack)
  {
    s.head == 0
  }

  /** `peek()`: the head. */
  function Peek(s: Stack): nat
  {
    s.head
  }

  /** A stack is empty exactly when its chain has no node. */
  lemma EmptyIffNoNodes(mem: Memory, s: Stack, chain: seq<nat>)
    requires IsChain(mem, s.head, chain)
    ensures Empty(s) <==> |chain| == 0
  {
  }

  /**
   `push(p)`: the current head is written into the first word at `p`, and
   `p` becomes the head.
   */
  function Push(mem: Memory, s: Stack, p: nat): (r: (Memory, Stack))
    requires p > 0
    ensures Peek(r.1) == p && !Empty(r.1)
    ensures p in r.0 && r.0[p] == s.head
    ensures forall a :: a in mem && a != p ==> a in r.0 && r.0[a] == mem[a]
  {
    (mem[p := s.head], Stack(p))
  }

  /** Pushing an address not already on the stack puts it in front of the chain. */
  lemma PushExtendsChain(mem: Memory, s: Stack, p: nat, chain: seq<nat>)
    requires p > 0 && p !in chain
    requires IsChain(mem, s.head, chain)
    ensures var (m, t) := Push(mem, s, p); IsChain(m, t.head, [p] + chain)
  {
    var (m, t) := Push(mem, s, p);
    var c := [p] + chain;
    forall i | 0 <= i < |c|
      ensures c[i] != 0 && c[i] in m && m[c[i]] == Successor(c, i)
    {
      if i > 0 {
        assert c[i] == chain[i - 1];
        assert chain[i - 1] != p;
      }
    }
  }

  /**
   `pop()`, as intended: asserts a non-empty stack and makes the word
   stored at the head the new head.
   */
  function Pop(mem: Memory, s: Stack): (r: Stack)
    requires !Empty(s) && s.head in mem
    ensures Peek(r) == mem[Peek(s)]
  {
    Stack(mem[s.head])
  }

  /** Popping drops exactly the first node of the chain. */
  lemma PopShortensChain(mem: Memory, s: Stack, chain: seq<nat>)
    requires IsChain(mem, s.head, chain) && !Empty(s)
    ensures |chain| > 0 && s.head in mem
    ensures IsChain(mem, Pop(mem, s).head, chain[1..])
  {
  }

  /** `pop` undoes `push`. */
  lemma PushThenPop(mem: Memory, s: Stack, p: nat)
    requires p > 0
    ensures var (m, t) := Push(mem, s, p); Pop(m, t) == s
  {
  }

  /**
   `pop()` as written: the word at the head is loaded as `result`, and the
   new head is `*result`, the word at the address `result`. Reading through
   a null or unmapped address is undefined, shown as `None`.
   */
  function PopAsWritten(mem: Memory, s: Stack): (r: Option<Stack>)
    requires !Empty(s)
    ensures r.Some? ==> s.head in mem && mem[s.head] in mem && r.value.head == mem[mem[s.head]]
  {
    if s.head !in mem then None
    else
      var result := mem[s.head];
      if result == 0 || result !in mem then None else Some(Stack(mem[result]))
  }

  /**
   Push `a` then `b` onto an empty stack: the intended `pop` leaves `a` on
   top, but the written one skips `a` and leaves the stack empty.
   */
  lemma PopAsWrittenSkipsNode(mem: Memory, a: nat, b: nat)
    requires a > 0 && b > 0 && a != b
    ensures var (m1, s1) := Push(mem, New(), a);
      var (m2, s2) := Push(m1, s1, b);
      IsChain(m2, s2.head, [b, a])
      && Pop(m2, s2) == Stack(a)
      && PopAsWritten(m2, s2) == Some(Stack(0))
  {
    var (m1, s1) := Push(mem, New(), a);
    PushExtendsChain(mem, New(), a, []);
    PushExtendsChain(m1, s1, b, [a]);
  }

  /** `reset()`: back to the empty state; the nodes' memory is not touched. */
  function Reset(s: Stack): (r: Stack)
    ensures Empty(r) && r == New()
  {
    Stack(0)
  }

  /** Move construction: the new stack takes the head, the source is left empty. */
  function MoveConstruct(source: Stack): (r: (Stack, Stack))
    ensures Peek(r.0) == Peek(source) && Empty(r.1)
  {
    (source, Stack(0))
  }

  /**
   `size()`, as intended: counts the nodes by following each stored link
   once.
   */
  method Size(mem: Memory, s: Stack, ghost chain: seq<nat>) returns (n: nat)
    requires IsChain(mem, s.head, chain)
    ensures n == |chain|
    ensures n == 0 <==> Empty(s)
  {
    n := 0;
    var p := s.head;
    while p != 0
      invariant n <= |chain|
      invariant p == (if n < |chain| then chain[n] else 0)
      decreases |chain| - n
    {
      p := mem[p];
      n := n + 1;
    }
  }

  /**
   `contains(p)`, as intended: walks the chain from the head, checking each
   node before following its link.
   */
  method Contains(mem: Memory, s: Stack, p: nat, ghost chain: seq<nat>) returns (r: bool)
    requires IsChain(mem, s.head, chain)
    ensures r <==> p in chain
    ensures !Empty(s) && p == Peek(s) ==> r
  {
    var q := s.head;
    ghost var i := 0;
    while q != 0
      invariant i <= |chain|
      invariant q == (if i < |chain| then chain[i] else 0)
      invariant p !in chain[..i]
      decreases |chain| - i
    {
      var next := mem[q];
      if p == q {
        return true;
      }
      q := next;
      i := i + 1;
    }
    assert chain[..i] == chain;
    return false;
  }

  /**
   `size()` as written: `next` is loaded from the node and the walk moves to
   `*next`. `fuel` bounds the walk, since the written loop need not stop.
   */
  function SizeAsWritten(mem: Memory, q: nat, fuel: nat): (r: Option<nat>)
    decreases fuel
  {
    if q == 0 then Some(0)
    else if fuel == 0 || q !in mem then None
    else
      var next := mem[q];
      if next == 0 || next !in mem then None
      else match SizeAsWritten(mem, mem[next], fuel - 1)
        case None => None
        case Some(k) => Some(k + 1)
  }

  /** `contains(p)` as written, with the same walk. */
  function ContainsAsWritten(mem: Memory, q: nat, p: nat, fuel: nat): (r: Option<bool>)
    decreases fuel
  {
    if q == 0 then Some(false)
    else if fuel == 0 || q !in mem then None
    else
      var next := mem[q];
      if p == q then Some(true)
      else if next == 0 || next !in mem then None
      else ContainsAsWritten(mem, mem[next], p, fuel - 1)
  }

  /**
   On the two-node stack `b -> a`, the written `size()` reports 1 and the
   written `contains(a)` reports false, though both nodes are on the chain.
   */
  lemma TraversalAsWrittenSkipsNode(a: nat, b: nat)
    requires a > 0 && b > 0 && a != b
    ensures var mem := map[a := 0, b := a];
      IsChain(mem, b, [b, a])
      && SizeAsWritten(mem, b, 2) == Some(1)
      && ContainsAsWritten(mem, b, a, 2) == Some(false)
  {
    var mem := map[a := 0, b := a];
    assert mem[b] == a && mem[a] == 0;
  }
}
