/**
 `virtual_memory` (include/msl/memory/virtual_memory.hpp,
 src/msl/memory/virtual_memory.cpp): an owning handle to a run of reserved
 pages of address space.

 The operating-system backend is observed, not modelled: each call the
 handle makes into it is recorded as an `OsCall`, the page size is a
 positive parameter, the address `reserve` obtains is a parameter, and
 `virtual_memory_commit` is taken to hand back the address it was given,
 as the POSIX and Win32 backends do.
 */
module VirtualMemory {
  import MemoryBlocks
  import NotNulls
  import BitOps

  /** A call into the backend declared in src/msl/memory/virtual_memory_impl.hpp. */
  datatype OsCall =
    | Reserve(count: nat)
    | Commit(addr: nat, count: nat)
    | Decommit(addr: nat, count: nat)
    | Release(addr: nat, count: nat)

  /** The two members: `m_data` and `m_pages`. */
  datatype Region = Region(data: nat, pages: nat)

  /** `at(n)`: a page, or `std::out_of_range`. */
  datatype Checked = Page(block: MemoryBlocks.MemoryBlock) | OutOfRange

  /**
   `reserve(pages)`: one backend reservation; the handle records the
   returned non-null address and the requested page count.
   */
  function ReserveRegion(pages: nat, reserved: nat): (r: (Region, seq<OsCall>))
    requires reserved > 0
    ensures r.0.data == reserved && r.0.pages == pages
    ensures r.1 == [Reserve(pages)]
    ensures Empty(r.0) <==> pages == 0
  {
    (Region(reserved, pages), [Reserve(pages)])
  }

  /** `pages()`. */
  function Pages(m: Region): nat
  {
    m.pages
  }

  /** `data()`. */
  function Data(m: Region): nat
  {
    m.data
  }

  /** `size_in_bytes()`: `page_size() * pages()`. */
  function SizeInBytes(pageSize: nat, m: Region): nat
  {
    pageSize * m.pages
  }

  /** `empty()`: no pages, whatever the data pointer is. */
  predicate Empty(m: Region)
  {
    m.pages == 0
  }

  /** The address of page `n`: `m_data + n * page_size`. */
  function PageAddress(pageSize: nat, m: Region, n: nat): nat
  {
    m.data + n * pageSize
  }

  /**
   `operator[](n)`: the page-sized block at `data + n * page_size`. The
   address goes through `assume_not_null`, so it must not be null; `n` is
   not checked against `pages()`.
   */
  function PageAt(pageSize: nat, m: Region, n: nat): (b: MemoryBlocks.MemoryBlock)
    requires pageSize > 0 && PageAddress(pageSize, m, n) > 0
    ensures b.Valid() && MemoryBlocks.Size(b) == pageSize
    ensures MemoryBlocks.StartAddress(b) == m.data + n * pageSize
  {
    MemoryBlocks.FromPointerAndLength(NotNulls.NotNull(PageAddress(pageSize, m, n)), pageSize)
  }

  /** `at(n)`: throws `std::out_of_range` exactly when `n >= pages()`, else `(*this)[n]`. */
  function At(pageSize: nat, m: Region, n: nat): (r: Checked)
    requires pageSize > 0 && (n < Pages(m) ==> PageAddress(pageSize, m, n) > 0)
    ensures r.OutOfRange? <==> n >= Pages(m)
    ensures r.Page? ==> r.block == PageAt(pageSize, m, n)
  {
    if n >= m.pages then OutOfRange else Page(PageAt(pageSize, m, n))
  }

  /**
   The pages `0 .. pages()-1` tile the region: each ends where the next
   begins, and the last ends `size_in_bytes()` past `data()`.
   */
  lemma PagesTile(pageSize: nat, m: Region, n: nat)
    requires pageSize > 0 && m.data > 0 && n < m.pages
    ensures MemoryBlocks.EndAddress(PageAt(pageSize, m, n))
         == MemoryBlocks.StartAddress(PageAt(pageSize, m, n + 1))
    ensures n + 1 == m.pages ==>
      MemoryBlocks.EndAddress(PageAt(pageSize, m, n)) == m.data + SizeInBytes(pageSize, m)
  {
    assert (n + 1) * pageSize == n * pageSize + pageSize;
  }

  /**
   `page_to_index(p)`: the byte distance from `data()` to the page's start,
   asserted to be a whole number of pages, divided by the page size.
   */
  function PageToIndex(pageSize: nat, m: Region, p: MemoryBlocks.MemoryBlock): (n: nat)
    requires pageSize > 0
    requires MemoryBlocks.StartAddress(p) >= m.data
    requires (MemoryBlocks.StartAddress(p) - m.data) % pageSize == 0
    ensures PageAddress(pageSize, m, n) == MemoryBlocks.StartAddress(p)
  {
    (MemoryBlocks.StartAddress(p) - m.data) / pageSize
  }

  /** `page_to_index` inverts `operator[]`. */
  lemma PageToIndexInverse(pageSize: nat, m: Region, n: nat)
    requires pageSize > 0 && PageAddress(pageSize, m, n) > 0
    ensures MemoryBlocks.StartAddress(PageAt(pageSize, m, n)) >= m.data
    ensures (MemoryBlocks.StartAddress(PageAt(pageSize, m, n)) - m.data) % pageSize == 0
    ensures PageToIndex(pageSize, m, PageAt(pageSize, m, n)) == n
  {
    BitOps.DivModUnique(n * pageSize, pageSize, n, 0);
  }

  /**
   `commit(n)`: commits one page at `data + n * page_size` and returns the
   page-sized block there. There is no check against `pages()`.
   */
  function CommitIndex(pageSize: nat, m: Region, n: nat): (r: (MemoryBlocks.MemoryBlock, seq<OsCall>))
    requires pageSize > 0 && PageAddress(pageSize, m, n) > 0
    ensures r.1 == [Commit(m.data + n * pageSize, 1)]
    ensures r.0 == PageAt(pageSize, m, n)
  {
    var p := PageAddress(pageSize, m, n);
    (MemoryBlocks.FromPointerAndLength(NotNulls.NotNull(p), pageSize), [Commit(p, 1)])
  }

  /** `decommit(n)`: decommits exactly the one page at `data + n * page_size`. */
  function DecommitIndex(pageSize: nat, m: Region, n: nat): (calls: seq<OsCall>)
    requires pageSize > 0 && PageAddress(pageSize, m, n) > 0
    ensures calls == [Decommit(MemoryBlocks.StartAddress(PageAt(pageSize, m, n)), 1)]
  {
    [Decommit(PageAddress(pageSize, m, n), 1)]
  }

  /** `commit(page)`: `commit(page_to_index(page))`; a page from `operator[]` comes back unchanged. */
  function CommitPage(pageSize: nat, m: Region, p: MemoryBlocks.MemoryBlock): (r: (MemoryBlocks.MemoryBlock, seq<OsCall>))
    requires pageSize > 0 && MemoryBlocks.StartAddress(p) > 0
    requires MemoryBlocks.StartAddress(p) >= m.data
    requires (MemoryBlocks.StartAddress(p) - m.data) % pageSize == 0
    ensures r.1 == [Commit(MemoryBlocks.StartAddress(p), 1)]
    ensures MemoryBlocks.StartAddress(r.0) == MemoryBlocks.StartAddress(p)
    ensures p.Valid() && MemoryBlocks.Size(p) == pageSize ==> r.0 == p
  {
    CommitIndex(pageSize, m, PageToIndex(pageSize, m, p))
  }

  /** `decommit(page)`: `decommit(page_to_index(page))`. */
  function DecommitPage(pageSize: nat, m: Region, p: MemoryBlocks.MemoryBlock): (calls: seq<OsCall>)
    requires pageSize > 0 && MemoryBlocks.StartAddress(p) > 0
    requires MemoryBlocks.StartAddress(p) >= m.data
    requires (MemoryBlocks.StartAddress(p) - m.data) % pageSize == 0
    ensures calls == [Decommit(MemoryBlocks.StartAddress(p), 1)]
  {
    DecommitIndex(pageSize, m, PageToIndex(pageSize, m, p))
  }

  /**
   `release()`: hands back the data pointer and forgets it. No backend call
   is made and the page count is left as it was.
   */
  function ReleaseOwnership(m: Region): (r: (nat, Region))
    ensures r.0 == Data(m) && Data(r.1) == 0 && Pages(r.1) == Pages(m)
    ensures Destructor(r.1) == []
  {
    (m.data, m.(data := 0))
  }

  /** `swap(other)`: exchanges both members. */
  function Swap(a: Region, b: Region): (r: (Region, Region))
    ensures Data(r.0) == Data(b) && Pages(r.0) == Pages(b)
    ensures Data(r.1) == Data(a) && Pages(r.1) == Pages(a)
  {
    (b, a)
  }

  /** Swapping twice restores both regions. */
  lemma SwapInvolution(a: Region, b: Region)
    ensures var s := Swap(a, b); Swap(s.0, s.1) == (a, b)
  {
  }

  /**
   The destructor: releases the reservation, with its page count, exactly
   when the data pointer is not null.
   */
  function Destructor(m: Region): (calls: seq<OsCall>)
    ensures |calls| <= 1
    ensures calls != [] <==> Data(m) != 0
    ensures Data(m) != 0 ==> calls == [Release(Data(m), Pages(m))]
  {
    if m.data != 0 then [Release(m.data, m.pages)] else []
  }

  /**
   Move construction: the new region takes the data pointer (the source's
   is exchanged for null) and copies the page count.
   */
  function MoveConstruct(source: Region): (r: (Region, Region))
    ensures r.0 == source
    ensures Data(r.1) == 0 && Pages(r.1) == Pages(source)
    ensures Destructor(r.1) == []
  {
    (source, source.(data := 0))
  }

  /**
   Move assignment: `auto copy = std::move(other); copy.swap(*this);`, after
   which `copy` is destroyed. The result is (new target, moved-from source,
   backend calls made by destroying `copy`).
   */
  function MoveAssign(target: Region, source: Region): (r: (Region, Region, seq<OsCall>))
    ensures r.0 == source
    ensures Data(r.1) == 0 && Pages(r.1) == Pages(source)
    ensures r.2 == Destructor(target)
  {
    var (copy, moved) := MoveConstruct(source);
    var (copy', target') := Swap(copy, target);
    (target', moved, Destructor(copy'))
  }

  /**
   Over the lifetime of a target that is move-assigned and then destroyed,
   its old reservation is released once (by the temporary) and the new one
   once (by the target's own destructor); the moved-from source releases
   nothing.
   */
  lemma MoveAssignReleasesEachOnce(target: Region, source: Region)
    requires target.data != 0 && source.data != 0
    ensures var r := MoveAssign(target, source);
      r.2 + Destructor(r.0) + Destructor(r.1)
      == [Release(target.data, target.pages), Release(source.data, source.pages)]
  {
  }

  /** Move-assigning a region to itself leaves it unchanged and calls nothing. */
  function MoveAssignSelf(m: Region): (r: (Region, seq<OsCall>))
    ensures r.0 == m && r.1 == []
  {
    var (copy, self) := MoveConstruct(m);
    var (copy', self') := Swap(copy, self);
    (self', Destructor(copy'))
  }
}
