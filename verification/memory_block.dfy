/**
 `memory_block` (include/msl/blocks/memory_block.hpp): a non-owning view of
 the byte range `[begin, end)`.

 Memory is a map from addresses to byte values; a block may only be filled
 where every address of its range is mapped. Sizes are byte counts.
 */
module MemoryBlocks {
  import NotNulls
  import BitOps

  /** One byte of storage. */
  type Byte = b: int | 0 <= b < 256

  /** The bytes reachable through a byte pointer. */
  type Memory = map<nat, Byte>

  /** A byte range. The factories never produce `end < begin`. */
  datatype MemoryBlock = MemoryBlock(begin: nat, end: nat)
  {
    predicate Valid() { begin <= end }
  }

  /** `from_range(first, last)` for two iterators: both addresses recorded. */
  function FromRange(start: nat, end: nat): (b: MemoryBlock)
    requires start <= end
    ensures b.Valid()
    ensures StartAddress(b) == start && EndAddress(b) == end
  {
    MemoryBlock(start, end)
  }

  /**
   `from_range(first, sentinel)`: the end is computed as the start address
   plus the iterator distance.
   */
  function FromRangeSentinel(start: nat, distance: nat): (b: MemoryBlock)
    ensures b == FromRange(start, start + distance)
    ensures Size(b) == distance
  {
    MemoryBlock(start, start + distance)
  }

  /** `from_pointer_and_length(p, length)`: `[p, p + length)`. */
  function FromPointerAndLength(p: NotNulls.NotNull, length: nat): (b: MemoryBlock)
    requires p.Valid()
    ensures b.Valid()
    ensures StartAddress(b) == p.ptr && EndAddress(b) == p.ptr + length
    ensures Size(b) == length
    ensures !Empty(b) <==> length > 0
  {
    FromRange(NotNulls.Get(p), NotNulls.Get(p) + length)
  }

  /** `nullblock` and the default constructor: both ends null. */
  function NullBlock(): (b: MemoryBlock)
    ensures b.Valid()
    ensures StartAddress(b) == 0 && EndAddress(b) == 0
    ensures Empty(b) && EqualsNullBlock(b)
  {
    MemoryBlock(0, 0)
  }

  /** `empty()`: the two ends coincide. */
  predicate Empty(b: MemoryBlock)
  {
    b.begin == b.end
  }

  /** `size()`: `end - begin` bytes. */
  function Size(b: MemoryBlock): (n: nat)
    requires b.Valid()
    ensures n == 0 <==> Empty(b)
    ensures b.begin + n == b.end
  {
    b.end - b.begin
  }

  /**
   `contains(p)`: `begin <= p && p <= end`. The end address, one past the
   last byte, counts as contained, and so does the address of an empty block.
   */
  predicate Contains(b: MemoryBlock, p: nat)
  {
    b.begin <= p <= b.end
  }

  /** `data()` and `start_address()`: the first address. */
  function StartAddress(b: MemoryBlock): nat
  {
    b.begin
  }

  /** `end_address()`: one past the last address. */
  function EndAddress(b: MemoryBlock): nat
  {
    b.end
  }

  /** `operator==(nullblock)`: answered by `empty()`. */
  function EqualsNullBlock(b: MemoryBlock): (r: bool)
    ensures r <==> b.begin == b.end
  {
    Empty(b)
  }

  /**
   `contains` accepts exactly the `size() + 1` addresses from `begin` through
   `end`: the end itself, but nothing beyond it and nothing before `begin`.
   */
  lemma ContainsBounds(b: MemoryBlock, p: nat)
    requires b.Valid()
    ensures Contains(b, StartAddress(b)) && Contains(b, EndAddress(b))
    ensures Contains(b, p) <==> StartAddress(b) <= p <= StartAddress(b) + Size(b)
    ensures Empty(b) ==> (Contains(b, p) <==> p == StartAddress(b))
  {
  }

  /** A block other than the null block can still compare equal to it. */
  lemma EmptyEqualsNullBlock(p: nat)
    ensures EqualsNullBlock(FromRange(p, p))
    ensures p != 0 ==> FromRange(p, p) != NullBlock()
  {
  }

  /** Every address of the block is mapped. */
  predicate Writable(mem: Memory, b: MemoryBlock)
  {
    forall a :: b.begin <= a < b.end ==> a in mem
  }

  /**
   The memory after writing `pattern` over the block, repeated from its first
   element: the byte at offset `i` becomes `pattern[i % |pattern|]`. An empty
   block reads no pattern element.
   */
  function Patterned(mem: Memory, b: MemoryBlock, pattern: seq<Byte>): (m: Memory)
    requires b.begin < b.end ==> |pattern| > 0
    ensures m.Keys == mem.Keys
  {
    map a | a in mem :: if b.begin <= a < b.end then pattern[(a - b.begin) % |pattern|] else mem[a]
  }

  /** `fill(value)`: `std::fill(begin, end, value)`. */
  method Fill(mem: Memory, b: MemoryBlock, value: Byte) returns (m: Memory)
    requires b.Valid() && Writable(mem, b)
    ensures m.Keys == mem.Keys
    ensures forall a :: b.begin <= a < b.end ==> m[a] == value
    ensures forall a :: a in mem && !(b.begin <= a < b.end) ==> m[a] == mem[a]
    ensures m == Patterned(mem, b, [value])
  {
    m := mem;
    var jt := b.begin;
    while jt != b.end
      invariant b.begin <= jt <= b.end
      invariant m.Keys == mem.Keys
      invariant forall a :: b.begin <= a < jt ==> m[a] == value
      invariant forall a :: a in mem && !(b.begin <= a < jt) ==> m[a] == mem[a]
      decreases b.end - jt
    {
      m := m[jt := value];
      jt := jt + 1;
    }
    FillIsSingleBytePattern(mem, b, value, m);
  }

  /**
   `fill(first, last)`: walks the block once while cycling through the
   pattern, restarting it whenever its end is reached. The pattern must not
   be empty once the loop runs, since each step reads the current element;
   over an empty block the loop does not run and nothing is read.
   */
  method FillPattern(mem: Memory, b: MemoryBlock, pattern: seq<Byte>) returns (m: Memory)
    requires b.Valid() && Writable(mem, b)
    requires Size(b) > 0 ==> |pattern| > 0
    ensures m == Patterned(mem, b, pattern)
  {
    m := mem;
    if b.begin == b.end {
      return;
    }
    var it := 0;
    var jt := b.begin;
    while jt != b.end
      invariant b.begin <= jt <= b.end
      invariant it == (jt - b.begin) % |pattern|
      invariant m.Keys == mem.Keys
      invariant forall a :: b.begin <= a < jt ==> m[a] == pattern[(a - b.begin) % |pattern|]
      invariant forall a :: a in mem && !(b.begin <= a < jt) ==> m[a] == mem[a]
      decreases b.end - jt
    {
      m := m[jt := pattern[it]];
      it := it + 1;
      if it == |pattern| {
        it := 0;
      }
      NextRemainder(jt - b.begin, |pattern|);
      jt := jt + 1;
    }
  }

  /** Stepping a counter advances its remainder by one, wrapping at `n`. */
  lemma NextRemainder(k: nat, n: nat)
    requires n > 0
    ensures (k + 1) % n == if k % n + 1 == n then 0 else k % n + 1
  {
    var q := k / n;
    assert k == q * n + k % n;
    if k % n + 1 == n {
      assert k + 1 == (q + 1) * n + 0;
      BitOps.DivModUnique(k + 1, n, q + 1, 0);
    } else {
      assert k + 1 == q * n + (k % n + 1);
      BitOps.DivModUnique(k + 1, n, q, k % n + 1);
    }
  }

  /** Filling with one byte is filling with the one-byte pattern. */
  lemma FillIsSingleBytePattern(mem: Memory, b: MemoryBlock, value: Byte, m: Memory)
    requires Writable(mem, b)
    requires m.Keys == mem.Keys
    requires forall a :: b.begin <= a < b.end ==> m[a] == value
    requires forall a :: a in mem && !(b.begin <= a < b.end) ==> m[a] == mem[a]
    ensures m == Patterned(mem, b, [value])
  {
    var expected := Patterned(mem, b, [value]);
    forall a | a in m
      ensures m[a] == expected[a]
    {
      if b.begin <= a < b.end {
        assert (a - b.begin) % 1 == 0;
      }
    }
  }
}
