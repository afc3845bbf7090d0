/**
 `tagged_ptr<T, Bits>` (include/msl/pointers/tagged_ptr.hpp): a pointer whose
 alignment leaves its `Bits` low address bits zero, so those bits carry a
 small tag. Both live in one `uintptr_t` word: the pointer is
 `word & ~tag_mask`, the tag `word & tag_mask`, with
 `tag_mask == (1 << Bits) - 1`.

 The comparison operators exist in a strict form (compare the extracted
 pointer and tag) and, with strict mode disabled, a form that compares the
 raw words. Both are modelled and proved to agree.
 */
module TaggedPointers {
  import opened BitOps

  /**
   The tag width. The source requires `Bits > 0` and `Bits` below the pointer
   width, and builds the mask with `1u << Bits` in `unsigned int`, which is
   only defined for `Bits < 32`.
   */
  predicate ValidBits(bits: nat)
  {
    0 < bits < 32
  }

  /** `tag_mask`: the low `Bits` bits set. */
  function TagMask(bits: nat): (m: nat)
    ensures m + 1 == Pow2(bits)
  {
    Pow2(bits) - 1
  }

  /** The one stored word, with the tag width it is read with. */
  datatype TaggedPtr = TaggedPtr(bits: nat, word: nat)

  /** `get()`: `word & pointer_mask`. */
  function Get(t: TaggedPtr): (p: nat)
    ensures p % Pow2(t.bits) == 0
    ensures p <= t.word
  {
    LowMask(t.word, t.bits);
    RoundDown(t.word, Pow2(t.bits));
    AndNot(t.word, TagMask(t.bits))
  }

  /** `tag()`: `word & tag_mask`. */
  function Tag(t: TaggedPtr): (g: nat)
    ensures g < Pow2(t.bits)
    ensures Get(t) + g == t.word
  {
    LowMask(t.word, t.bits);
    And(t.word, TagMask(t.bits))
  }

  /** An aligned pointer plus a small tag splits back into exactly those two. */
  lemma Compose(bits: nat, p: nat, g: nat)
    requires p % Pow2(bits) == 0 && g < Pow2(bits)
    ensures Get(TaggedPtr(bits, p + g)) == p
    ensures Tag(TaggedPtr(bits, p + g)) == g
  {
    AlignedPlus(p, Pow2(bits), g);
    LowMask(p + g, bits);
  }

  /** The stored word is determined by the pointer and tag read from it. */
  lemma Decompose(t: TaggedPtr)
    ensures t == TaggedPtr(t.bits, Get(t) + Tag(t))
  {
  }

  /** The address has its low `Bits` bits clear: `(p & tag_mask) == 0`. */
  predicate Aligned(bits: nat, p: nat)
  {
    p % Pow2(bits) == 0
  }

  /**
   `tagged_ptr(p)`: the pointer stored with a zero tag. The source asserts
   the alignment.
   */
  function FromPointer(bits: nat, p: nat): (r: TaggedPtr)
    requires ValidBits(bits) && Aligned(bits, p)
    ensures r.bits == bits
    ensures Get(r) == p && Tag(r) == 0
  {
    Compose(bits, p, 0);
    TaggedPtr(bits, p)
  }

  /** `tagged_ptr()` and `tagged_ptr(nullptr)`: a null pointer with tag zero. */
  function Null(bits: nat): (r: TaggedPtr)
    requires ValidBits(bits)
    ensures Get(r) == 0 && Tag(r) == 0
    ensures r == FromPointer(bits, 0)
  {
    FromPointer(bits, 0)
  }

  /**
   `tagged_ptr(p, tag)`: `p | (tag & tag_mask)`. Only the low `Bits` bits of
   the tag are kept.
   */
  function FromPointerAndTag(bits: nat, p: nat, tag: nat): (r: TaggedPtr)
    requires ValidBits(bits) && Aligned(bits, p)
    ensures r.bits == bits
    ensures Get(r) == p
    ensures Tag(r) == tag % Pow2(bits)
  {
    var g := And(tag, TagMask(bits));
    LowMask(tag, bits);
    OrDisjoint(bits, p, g);
    Compose(bits, p, g);
    TaggedPtr(bits, Or(p, g))
  }

  /**
   The converting constructor rebuilds the word from `other.get()` and
   `other.tag()`. For plain addresses that reproduces the word.
   */
  function Convert(other: TaggedPtr): (r: TaggedPtr)
    requires ValidBits(other.bits)
    ensures r == other
  {
    Decompose(other);
    SmallMod(Tag(other), Pow2(other.bits));
    FromPointerAndTag(other.bits, Get(other), Tag(other))
  }

  lemma SmallMod(x: nat, d: nat)
    requires x < d
    ensures x % d == x
  {
    DivModUnique(x, d, 0, x);
  }

  /** `explicit operator bool`: the pointer part is not null. */
  function AsBool(t: TaggedPtr): (r: bool)
    ensures r <==> t.word >= Pow2(t.bits)
  {
    assert Get(t) + Tag(t) == t.word;
    if Get(t) == 0 then false
    else
      assert Get(t) >= Pow2(t.bits) by { NonZeroMultiple(Get(t), Pow2(t.bits)); }
      true
  }

  lemma NonZeroMultiple(x: nat, d: nat)
    requires d > 0 && x % d == 0 && x > 0
    ensures x >= d
  {
    if x < d {
      SmallMod(x, d);
    }
  }

  /**
   `tag(t)`: `word |= (t & tag_mask)`. The pointer is untouched and the tag
   only gains bits; it cannot clear one.
   */
  function SetTag(t: TaggedPtr, x: nat): (r: TaggedPtr)
    ensures r.bits == t.bits
    ensures Get(r) == Get(t)
    ensures Tag(r) == Or(Tag(t), x % Pow2(t.bits))
    ensures And(Tag(r), Tag(t)) == Tag(t)
    ensures And(Tag(r), x % Pow2(t.bits)) == x % Pow2(t.bits)
  {
    var bits := t.bits;
    var g := And(x, TagMask(bits));
    LowMask(x, bits);
    OrLow(bits, Get(t), Tag(t), g);
    Compose(bits, Get(t), Or(Tag(t), g));
    OrKeepsBits(Tag(t), g);
    TaggedPtr(bits, Or(t.word, g))
  }

  /**
   `reset(p)` (and `operator=(p)`): keep the tag bits and replace the pointer
   bits with those of `p`; the source asserts `p` is aligned.
   */
  function Reset(t: TaggedPtr, p: nat): (r: TaggedPtr)
    requires ValidBits(t.bits) && Aligned(t.bits, p)
    ensures r.bits == t.bits
    ensures Get(r) == p
    ensures Tag(r) == Tag(t)
  {
    var bits := t.bits;
    var kept := And(t.word, TagMask(bits));
    var ptr := AndNot(p, TagMask(bits));
    LowMask(t.word, bits);
    LowMask(p, bits);
    OrComm(kept, ptr);
    OrDisjoint(bits, ptr, kept);
    Compose(bits, p, kept);
    TaggedPtr(bits, Or(kept, ptr))
  }

  /** `reset(nullptr)` (and `operator=(nullptr)`): a null pointer, same tag. */
  function ResetNull(t: TaggedPtr): (r: TaggedPtr)
    requires ValidBits(t.bits)
    ensures Get(r) == 0 && Tag(r) == Tag(t)
    ensures !AsBool(r)
  {
    Reset(t, 0)
  }

  /**
   `reset(p, tag)`: the word is rebuilt from scratch, exactly as the
   two-argument constructor builds it.
   */
  function ResetWithTag(t: TaggedPtr, p: nat, tag: nat): (r: TaggedPtr)
    requires ValidBits(t.bits) && Aligned(t.bits, p)
    ensures r == FromPointerAndTag(t.bits, p, tag)
    ensures Get(r) == p && Tag(r) == tag % Pow2(t.bits)
  {
    var bits := t.bits;
    var ptr := AndNot(p, TagMask(bits));
    var g := And(tag, TagMask(bits));
    LowMask(p, bits);
    TaggedPtr(bits, Or(ptr, g))
  }

  /** `operator*`: the object at the pointer part. */
  function Deref<T>(mem: map<nat, T>, t: TaggedPtr): (r: T)
    requires Get(t) in mem
    ensures r == mem[t.word - Tag(t)]
  {
    mem[Get(t)]
  }

  /** `operator[](index)` on array pointees: `*(get() + index)`. */
  function Index<T>(mem: map<nat, T>, t: TaggedPtr, index: nat, size: nat): (r: T)
    requires Get(t) + index * size in mem
    ensures r == mem[t.word - Tag(t) + index * size]
  {
    mem[Get(t) + index * size]
  }

  /** Three-way comparison of two naturals: -1, 0 or 1. */
  function Cmp(x: nat, y: nat): (c: int)
    ensures c == 0 <==> x == y
    ensures c < 0 <==> x < y
    ensures -1 <= c <= 1
  {
    if x < y then -1 else if x == y then 0 else 1
  }

  /** `operator==` in strict mode: pointers and tags both equal. */
  function Equal(a: TaggedPtr, b: TaggedPtr): (r: bool)
    requires a.bits == b.bits
    ensures r <==> a.word == b.word
  {
    Decompose(a);
    Decompose(b);
    Get(a) == Get(b) && Tag(a) == Tag(b)
  }

  /** `operator==(nullptr)` in strict mode: a null pointer with a zero tag. */
  function EqualsNull(t: TaggedPtr): (r: bool)
    ensures r <==> t.word == 0
  {
    Get(t) == 0 && Tag(t) == 0
  }

  /**
   A null pointer carrying a tag is "false" as a boolean and yet not equal
   to `nullptr`: the two observers look at different parts of the word.
   */
  lemma TaggedNullIsNotNullptr(bits: nat)
    requires ValidBits(bits)
    ensures var t := FromPointerAndTag(bits, 0, 1);
            !AsBool(t) && !EqualsNull(t)
  {
    var t := FromPointerAndTag(bits, 0, 1);
    SmallMod(1, Pow2(bits));
  }

  /**
   `operator<=>` in strict mode: equal pointers are ordered by their tags,
   different pointers by the pointers.
   */
  function Compare(a: TaggedPtr, b: TaggedPtr): (c: int)
    requires a.bits == b.bits
    ensures c == Cmp(a.word, b.word)
  {
    var l, r := Get(a), Get(b);
    if l == r then
      Cmp(Tag(a), Tag(b))
    else
      if l < r then WordOrder(a, b); Cmp(l, r)
      else WordOrder(b, a); Cmp(l, r)
  }

  /** A smaller pointer part means a smaller word, whatever the tags. */
  lemma WordOrder(a: TaggedPtr, b: TaggedPtr)
    requires a.bits == b.bits && Get(a) < Get(b)
    ensures a.word < b.word
  {
    MultiplesApart(Get(a), Get(b), Pow2(a.bits));
    assert Get(a) + Tag(a) == a.word && Get(b) + Tag(b) == b.word;
  }

  /**
   `operator<=>(nullptr)` in strict mode: a null pointer is ordered by its
   tag against zero; any other pointer is greater than null.
   */
  function CompareNull(t: TaggedPtr): (c: int)
    ensures c == Cmp(t.word, 0)
  {
    if Get(t) == 0 then Cmp(Tag(t), 0) else 1
  }

  /** Stamping tag bits `0b110` on a fresh two-bit pointer keeps only `0b10`. */
  lemma SetTagTruncates(p: nat)
    requires Aligned(2, p)
    ensures Tag(SetTag(FromPointer(2, p), 6)) == 2
    ensures Get(SetTag(FromPointer(2, p), 6)) == p
  {
    assert Pow2(2) == 4;
    var t := FromPointer(2, p);
    assert 6 % Pow2(2) == 2;
    assert Or(0, 2) == 2 by {
      assert Or(0, 2) == 2 * Or(0, 1) + Bit(OrOp, 0, 0);
      assert Or(0, 1) == 2 * Or(0, 0) + Bit(OrOp, 0, 1);
    }
  }

  /** `tag(t)` twice is `tag` once with both tags combined. */
  lemma SetTagTwice(t: TaggedPtr, x: nat, y: nat)
    ensures SetTag(SetTag(t, x), y).word == SetTag(t, Or(x % Pow2(t.bits), y % Pow2(t.bits))).word
  {
    var k := t.bits;
    var xs, ys := x % Pow2(k), y % Pow2(k);
    OrBelow(k, xs, ys);
    SmallMod(Or(xs, ys), Pow2(k));
    OrAssoc(Tag(t), xs, ys);
    Decompose(SetTag(SetTag(t, x), y));
    Decompose(SetTag(t, Or(xs, ys)));
  }

  /** `|` is associative. */
  lemma {:induction false} OrAssoc(a: nat, b: nat, c: nat)
    ensures Or(Or(a, b), c) == Or(a, Or(b, c))
    decreases a + b + c
  {
    if !(a == 0 && b == 0 && c == 0) {
      OrAssoc(a / 2, b / 2, c / 2);
      var ab, bc := Or(a, b), Or(b, c);
      assert ab / 2 == Or(a / 2, b / 2) && ab % 2 == Bit(OrOp, a % 2, b % 2);
      assert bc / 2 == Or(b / 2, c / 2) && bc % 2 == Bit(OrOp, b % 2, c % 2);
    }
  }
}
