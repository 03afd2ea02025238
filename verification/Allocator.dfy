/** The over-aligning allocator on top of `malloc`: blocks that need more than 16-byte
    alignment keep the pointer `malloc` returned in the eight bytes just below them. */
module Allocator {
  import opened Words

  const MALLOC_ALIGN: nat := 16
  const WORD: nat := 8
  const ISIZE_MAX: nat := 0x7fff_ffff_ffff_ffff

  type Memory = nat -> byte

  // ---- A pointer stored as eight bytes, least significant first ---------------

  function LoadBytes(mem: Memory, at: nat, n: nat): nat
    decreases n, at
  {
    if n == 0 then 0 else mem(at) as nat + 256 * LoadBytes(mem, at + 1, n - 1)
  }

  function NthByte(v: nat, i: nat): byte
    decreases i
  {
    if i == 0 then v % 256 else NthByte(v / 256, i - 1)
  }

  predicate FitsBytes(v: nat, n: nat)
    decreases n
  {
    if n == 0 then v == 0 else FitsBytes(v / 256, n - 1)
  }

  /** Memory in which the `n` bytes from `a` on are those of `other`. */
  function Overlay(mem: Memory, a: nat, n: nat, other: Memory): Memory {
    (x: nat) => if a <= x < a + n then other(x) else mem(x)
  }

  /** The bytes of `v`, laid out from `at` on. */
  function Bytes(v: nat, at: nat): Memory {
    (x: nat) => ByteAt(v, at, x)
  }

  function ByteAt(v: nat, at: nat, x: nat): byte {
    if at <= x then NthByte(v, x - at) else 0
  }

  /** The bytes from `p` on, laid out from `r` on. */
  function Moved(mem: Memory, p: nat, r: nat): Memory {
    (x: nat) => mem(if r <= x then p + (x - r) else p)
  }

  ghost predicate Same(mem: Memory, next: Memory, a: nat, n: nat) {
    forall x: nat :: a <= x < a + n ==> next(x) == mem(x)
  }

  lemma {:induction false} LoadNthBytes(mem: Memory, at: nat, n: nat, v: nat)
    requires FitsBytes(v, n)
    requires forall x: nat :: at <= x < at + n ==> mem(x) == NthByte(v, x - at)
    ensures LoadBytes(mem, at, n) == v
    decreases n
  {
    if n > 0 {
      assert mem(at) == NthByte(v, at - at);
      forall x: nat | at + 1 <= x < at + n
        ensures mem(x) == NthByte(v / 256, x - (at + 1))
      {
        assert mem(x) == NthByte(v, x - at);
      }
      LoadNthBytes(mem, at + 1, n - 1, v / 256);
    }
  }

  lemma WordFits(v: nat)
    requires v < TWO_64
    ensures FitsBytes(v, WORD)
  {
    var a := v / 256 / 256 / 256 / 256;
    assert a < 0x1_0000_0000;
    assert a / 256 / 256 / 256 / 256 == 0;
    assert FitsBytes(a, 4) by { assert FitsBytes(a / 256 / 256, 2); }
    assert FitsBytes(v / 256 / 256, 6);
  }

  function LoadWord(mem: Memory, at: nat): nat {
    LoadBytes(mem, at, WORD)
  }

  lemma LoadStored(mem: Memory, at: nat, v: nat)
    requires v < TWO_64
    ensures LoadWord(Overlay(mem, at, WORD, Bytes(v, at)), at) == v
  {
    WordFits(v);
    LoadNthBytes(Overlay(mem, at, WORD, Bytes(v, at)), at, WORD, v);
  }

  lemma {:induction false} LoadSame(mem: Memory, next: Memory, at: nat, n: nat)
    requires Same(mem, next, at, n)
    ensures LoadBytes(mem, at, n) == LoadBytes(next, at, n)
    decreases n
  {
    if n > 0 { LoadSame(mem, next, at + 1, n - 1); }
  }

  lemma OverlaySame(mem: Memory, a: nat, n: nat, other: Memory, b: nat, m: nat)
    requires Apart(a, n, b, m)
    ensures Same(mem, Overlay(mem, a, n, other), b, m)
  {}

  // ---- Blocks and the raw blocks they are cut from ------------------------------

  /** A block the program holds, of `size` bytes, cut from the raw block at `raw`. */
  datatype Block = Block(raw: nat, size: nat, align: nat) {
    function RawSize(): nat {
      RawRequest(size, align)
    }
  }

  type Live = map<nat, Block>

  predicate Apart(a: nat, n: nat, b: nat, m: nat) {
    a + n <= b || b + m <= a
  }

  /** What may be asked for: a layout's size is nonzero, its alignment a power of two,
      and its size rounded up to the alignment fits a signed word. */
  ghost predicate Layout(size: nat, align: nat) {
    size > 0 && align > 0 && IsPowerOfTwo(align) && size + (align - 1) <= ISIZE_MAX
  }

  function RawRequest(size: nat, align: nat): nat {
    if align <= MALLOC_ALIGN then size else size + (align + WORD)
  }

  /** Aligned, inside its raw block, and with more than 16-byte alignment the word below
      it, also inside the raw block, holds the raw pointer. */
  ghost predicate BlockSound(mem: Memory, p: nat, b: Block) {
    Layout(b.size, b.align) && 0 < b.raw && b.raw + b.RawSize() <= TWO_64
    && p % b.align == 0 && p + b.size <= b.raw + b.RawSize()
    && if b.align <= MALLOC_ALIGN then p == b.raw
       else b.raw + WORD <= p && LoadWord(mem, p - WORD) == b.raw
  }

  ghost predicate RawApart(b: Block, c: Block) {
    Apart(b.raw, b.RawSize(), c.raw, c.RawSize())
  }

  /** Every block is sound, and their raw blocks do not overlap. */
  ghost predicate Sound(mem: Memory, live: Live) {
    (forall p :: p in live ==> BlockSound(mem, p, live[p]))
    && (forall p, q :: p in live && q in live && p != q ==> RawApart(live[p], live[q]))
  }

  /** Live blocks do not overlap, and none overlaps another's stash word or its own. */
  lemma LiveApart(mem: Memory, live: Live, p: nat, q: nat)
    requires Sound(mem, live) && p in live && q in live
    ensures p != q ==> Apart(p, live[p].size, q, live[q].size)
    ensures live[q].align > MALLOC_ALIGN ==> q >= WORD && Apart(p, live[p].size, q - WORD, WORD)
  {
    hide LoadWord, Layout;
    assert BlockSound(mem, p, live[p]) && BlockSound(mem, q, live[q]);
    assert p != q ==> RawApart(live[p], live[q]);
  }

  lemma BlockKept(mem: Memory, next: Memory, p: nat, b: Block)
    requires BlockSound(mem, p, b)
    requires b.align > MALLOC_ALIGN ==> Same(mem, next, p - WORD, WORD)
    ensures BlockSound(next, p, b)
  {
    hide Layout;
    if b.align > MALLOC_ALIGN { LoadSame(mem, next, p - WORD, WORD); }
  }

  /** Changing bytes that are no stash word keeps every block sound. */
  lemma OverlaySound(mem: Memory, live: Live, a: nat, n: nat, other: Memory)
    requires Sound(mem, live)
    requires forall q :: q in live && live[q].align > MALLOC_ALIGN ==> q >= WORD && Apart(a, n, q - WORD, WORD)
    ensures Sound(Overlay(mem, a, n, other), live)
  {
    hide BlockSound, Overlay, Same, Apart, RawApart;
    var next := Overlay(mem, a, n, other);
    forall q | q in live
      ensures BlockSound(next, q, live[q])
    {
      if live[q].align > MALLOC_ALIGN {
        OverlaySame(mem, a, n, other, q - WORD, WORD);
      }
      BlockKept(mem, next, q, live[q]);
    }
  }

  /** Changing bytes clear of all raw blocks keeps every block sound and its bytes as they were. */
  lemma OverlayOutside(mem: Memory, live: Live, a: nat, n: nat, other: Memory)
    requires Sound(mem, live)
    requires forall q :: q in live ==> Apart(a, n, live[q].raw, live[q].RawSize())
    ensures Sound(Overlay(mem, a, n, other), live)
    ensures Untouched(mem, Overlay(mem, a, n, other), live)
  {
    hide Layout, LoadWord, Overlay, Same;
    forall q | q in live
      ensures live[q].align > MALLOC_ALIGN ==> q >= WORD && Apart(a, n, q - WORD, WORD)
      ensures Apart(a, n, q, live[q].size)
    {
      assert BlockSound(mem, q, live[q]);
    }
    OverlaySound(mem, live, a, n, other);
    forall q | q in live
      ensures Same(mem, Overlay(mem, a, n, other), q, live[q].size)
    {
      OverlaySame(mem, a, n, other, q, live[q].size);
    }
  }

  /** No byte of a live block differs. */
  ghost predicate Untouched(mem: Memory, next: Memory, live: Live) {
    forall q :: q in live ==> Same(mem, next, q, live[q].size)
  }

  lemma UntouchedTwice(mem: Memory, mid: Memory, next: Memory, live: Live)
    requires Untouched(mem, mid, live) && Untouched(mid, next, live)
    ensures Untouched(mem, next, live)
  {
    forall q | q in live
      ensures Same(mem, next, q, live[q].size)
    {
      assert Same(mem, mid, q, live[q].size) && Same(mid, next, q, live[q].size);
    }
  }

  lemma InsideRaw(mem: Memory, p: nat, b: Block)
    requires BlockSound(mem, p, b)
    ensures b.raw <= p < b.raw + b.RawSize()
  {
    hide LoadWord, IsPowerOfTwo;
  }

  /** A sound block from a raw block clear of the others can join them. */
  lemma AddBlock(mem: Memory, live: Live, p: nat, b: Block)
    requires Sound(mem, live) && BlockSound(mem, p, b)
    requires forall q :: q in live ==> RawApart(b, live[q])
    ensures p !in live && Sound(mem, live[p := b])
  {
    hide BlockSound, Block.RawSize;
    InsideRaw(mem, p, b);
    if p in live {
      InsideRaw(mem, p, live[p]);
    }
  }

  lemma RemoveBlock(mem: Memory, live: Live, p: nat)
    requires Sound(mem, live) && p in live
    ensures Sound(mem, live - {p})
    ensures forall q :: q in live - {p} ==> RawApart(live[p], live[q])
  {
    hide BlockSound, RawApart;
  }

  // ---- Aligning ---------------------------------------------------------------

  /** The first multiple of `align` from `x` on, by masking: `(x + align - 1) & !(align - 1)`. */
  function AlignedAfter(x: nat, align: nat): (a: nat)
    requires align > 0 && IsPowerOfTwo(align) && x + align <= TWO_64
    ensures x <= a < x + align && a % align == 0
  {
    AlignUp(x, align);
    And(x + (align - 1), TWO_64 - align)
  }

  lemma AlignUp(x: nat, align: nat)
    requires align > 0 && IsPowerOfTwo(align) && x + align <= TWO_64
    ensures var a := And(x + (align - 1), TWO_64 - align); x <= a < x + align && a % align == 0
  {
    var k := AlignExponent(align);
    Pow2Known();
    hide And, Pow2;
    ClearLowBits(x + (align - 1), k, 64);
    RoundDown(x + (align - 1), align);
  }

  lemma AlignExponent(align: nat) returns (k: nat)
    requires IsPowerOfTwo(align) && align <= TWO_64
    ensures k <= 64 && align == Pow2(k)
  {
    k :| align == Pow2(k);
    if k > 64 {
      Pow2Known();
      Pow2Monotone(65, k);
    }
  }

  lemma RoundDown(y: nat, align: nat)
    requires align > 0
    ensures (y - y % align) % align == 0 && y - align < y - y % align <= y
  {
    var q := y / align;
    assert y == align * q + y % align;
    DivUnique(y - y % align, align, q, 0);
  }

  lemma MallocAlignSuffices(p: nat, align: nat)
    requires align > 0 && IsPowerOfTwo(align) && align <= MALLOC_ALIGN && p % MALLOC_ALIGN == 0
    ensures p % align == 0
  {
    var k: nat :| align == Pow2(k);
    if k > 4 { Pow2Monotone(5, k); }
    SmallPowers(k, align);
    if align == 1 { assert p % 1 == 0; }
    if align == 2 { assert p % 2 == 0; }
    if align == 4 { assert p % 4 == 0; }
    if align == 8 { assert p % 8 == 0; }
  }

  lemma SmallPowers(k: nat, align: nat)
    requires k <= 4 && align == Pow2(k)
    ensures align == 1 || align == 2 || align == 4 || align == 8 || align == 16
  {
    assert Pow2(0) == 1 && Pow2(1) == 2 && Pow2(2) == 4 && Pow2(3) == 8 && Pow2(4) == 16;
  }

  lemma SmallBlock(mem: Memory, p: nat, size: nat, align: nat)
    requires Layout(size, align) && align <= MALLOC_ALIGN
    requires 0 < p && p % MALLOC_ALIGN == 0 && p + size <= TWO_64
    ensures BlockSound(mem, p, Block(p, size, align))
  {
    MallocAlignSuffices(p, align);
  }

  /** Storing the raw pointer below the aligned address makes a sound block of it. */
  lemma LargeBlock(mem: Memory, raw: nat, p: nat, size: nat, align: nat)
    requires Layout(size, align) && align > MALLOC_ALIGN
    requires 0 < raw && raw + RawRequest(size, align) <= TWO_64
    requires raw + WORD <= p < raw + WORD + align && p % align == 0
    ensures BlockSound(Overlay(mem, p - WORD, WORD, Bytes(raw, p - WORD)), p, Block(raw, size, align))
  {
    hide Layout;
    assert raw < TWO_64 && RawRequest(size, align) > size by { LayoutPositive(size, align); }
    LoadStored(mem, p - WORD, raw);
  }

  lemma LayoutPositive(size: nat, align: nat)
    requires Layout(size, align)
    ensures size > 0 && align > 0 && IsPowerOfTwo(align) && size + align <= ISIZE_MAX + 1
  {}

  // ---- The allocator ----------------------------------------------------------

  /** `malloc` returns null, or a 16-byte aligned block clear of all others. */
  ghost predicate MallocMay(live: Live, request: nat, got: nat) {
    got != 0 ==>
      got % MALLOC_ALIGN == 0 && got + request <= TWO_64
      && forall q :: q in live ==> Apart(got, request, live[q].raw, live[q].RawSize())
  }

  class Heap {
    var mem: Memory
    var live: Live

    ghost predicate Valid()
      reads this
    {
      Sound(mem, live)
    }

    constructor (mem: Memory)
      ensures Valid() && live == map[]
    {
      this.mem, live := mem, map[];
    }

    /** `got` is what `malloc` returned, `junk` what its block held. */
    method Alloc(size: nat, align: nat, got: nat, junk: Memory) returns (p: nat)
      requires Valid() && Layout(size, align)
      requires MallocMay(live, if align <= 16 then size else size + align + 8, got)
      modifies this
      ensures Valid() && Untouched(old(mem), mem, old(live)) && (p == 0 <==> got == 0)
      ensures p == 0 ==> live == old(live)
      ensures p != 0 ==>
        p !in old(live) && p % align == 0 && live == old(live)[p := Block(got, size, align)]
        && if align <= 16 then p == got else got + 8 <= p < got + 8 + align
    {
      hide Sound, And, Overlay, BlockSound, Untouched, IsPowerOfTwo, Bytes;
      if got == 0 {
        NothingTouched(mem, live);
        return 0;
      }
      ghost var before := mem;
      LayoutPositive(size, align);
      OverlayOutside(mem, live, got, RawRequest(size, align), junk);
      mem := Overlay(mem, got, RawRequest(size, align), junk);
      if align <= MALLOC_ALIGN {
        p := got;
        SmallBlock(mem, got, size, align);
      } else {
        p := AlignedAfter(got + WORD, align);
        LargeBlock(mem, got, p, size, align);
        OverlayOutside(mem, live, p - WORD, WORD, Bytes(got, p - WORD));
        UntouchedTwice(before, mem, Overlay(mem, p - WORD, WORD, Bytes(got, p - WORD)), live);
        mem := Overlay(mem, p - WORD, WORD, Bytes(got, p - WORD));
      }
      AddBlock(mem, live, p, Block(got, size, align));
      SoundAligned(mem, p, Block(got, size, align));
      live := live[p := Block(got, size, align)];
    }

    /** Frees the raw block; `scrub` is what `free` leaves in it. */
    method Dealloc(p: nat, size: nat, align: nat, scrub: Memory) returns (freed: nat)
      requires Valid() && p in live && live[p].size == size && live[p].align == align
      modifies this
      ensures Valid() && freed == old(live)[p].raw && live == old(live) - {p}
      ensures Untouched(old(mem), mem, live)
      ensures mem == Overlay(old(mem), freed, RawRequest(size, align), scrub)
    {
      hide Sound, Overlay, Untouched, Layout, LoadWord;
      OneSound(mem, live, p);
      freed := if align <= MALLOC_ALIGN then p else StashOf(p);
      RemoveBlock(mem, live, p);
      OverlayOutside(mem, live - {p}, freed, RawRequest(size, align), scrub);
      mem := Overlay(mem, freed, RawRequest(size, align), scrub);
      live := live - {p};
    }

    /** The word below an over-aligned block. */
    function StashOf(p: nat): nat
      requires p >= WORD
      reads this
    {
      LoadWord(mem, p - WORD)
    }

    /** The program writes one byte inside a block it holds. */
    method Write(p: nat, i: nat, x: byte)
      requires Valid() && p in live && i < live[p].size
      modifies this`mem
      ensures Valid() && mem(p + i) == x && mem == Overlay(old(mem), p + i, 1, _ => x)
    {
      hide Sound, LoadWord;
      InsideBlock(mem, live, p, i, 1);
      OverlaySound(mem, live, p + i, 1, _ => x);
      mem := Overlay(mem, p + i, 1, _ => x);
    }

    /** For small alignments C `realloc` does all: it gives null and changes nothing, or a
        block, possibly in place, that starts with the common part of the old one. */
    method ReallocSmall(p: nat, size: nat, align: nat, newSize: nat, got: nat, scrub: Memory, junk: Memory)
      returns (r: nat)
      requires Valid() && p in live && live[p].size == size && live[p].align == align <= 16
      requires Layout(newSize, align) && MallocMay(live - {p}, newSize, got)
      modifies this
      ensures Valid() && Untouched(old(mem), mem, old(live) - {p}) && (r == 0 <==> got == 0)
      ensures r == 0 ==> live == old(live) && mem == old(mem)
      ensures r != 0 ==>
        r !in old(live) - {p} && live == (old(live) - {p})[r := Block(r, newSize, align)]
        && Carried(old(mem), p, mem, r, if size < newSize then size else newSize)
    {
      hide Sound, Overlay, BlockSound, Untouched, Layout, Same, Carried, Moved;
      if got == 0 {
        NothingTouched(mem, live - {p});
        return 0;
      }
      r := got;
      var n := if size < newSize then size else newSize;
      SmallRaw(mem, live, p);
      RemoveBlock(mem, live, p);
      var rest := live - {p};
      var freed := Overlay(mem, p, size, scrub);
      var placed := Overlay(freed, r, newSize, junk);
      var moved := Overlay(placed, r, n, Moved(mem, p, r));
      OverlayOutside(mem, rest, p, size, scrub);
      OverlayOutside(freed, rest, r, newSize, junk);
      OverlayOutside(placed, rest, r, n, Moved(mem, p, r));
      UntouchedTwice(mem, freed, placed, rest);
      UntouchedTwice(mem, placed, moved, rest);
      OverlayCarries(placed, mem, p, r, n);
      SmallBlock(moved, r, newSize, align);
      AddBlock(moved, rest, r, Block(r, newSize, align));
      mem := moved;
      live := rest[r := Block(r, newSize, align)];
    }

    /** For large ones a new block is enlarged, the common part copied, and the old one freed. */
    method ReallocLarge(p: nat, size: nat, align: nat, newSize: nat, got: nat, junk: Memory, scrub: Memory)
      returns (r: nat)
      requires Valid() && p in live && live[p].size == size && live[p].align == align > 16
      requires Layout(newSize, align) && MallocMay(live, newSize + align + 8, got)
      modifies this
      ensures Valid() && Untouched(old(mem), mem, old(live) - {p}) && (r == 0 <==> got == 0)
      ensures r == 0 ==> live == old(live) && Untouched(old(mem), mem, old(live))
      ensures r != 0 ==>
        r !in old(live) && live == (old(live) - {p})[r := Block(got, newSize, align)] && r % align == 0
        && Carried(old(mem), p, mem, r, if size < newSize then size else newSize)
    {
      hide Sound, Overlay, BlockSound, Layout, Moved, Untouched, Same, Carried;
      ghost var before, held := mem, live;
      r := Alloc(newSize, align, got, junk);
      if r == 0 {
        UntouchedLess(before, mem, live, p);
      } else {
        var n := if size < newSize then size else newSize;
        ghost var enlarged, grown := mem, live;
        InsideBlock(mem, live, r, 0, n);
        OverlaySound(mem, live, r, n, Moved(mem, p, r));
        CopyTouches(mem, live, p, r, n);
        mem := Overlay(mem, r, n, Moved(mem, p, r));
        ghost var copied := mem;
        var freed := Dealloc(p, size, align, scrub);
        ReallocKeeps(before, enlarged, copied, mem, held, grown, p, r, n);
        assert live == (held - {p})[r := Block(got, newSize, align)];
      }
    }
  }

  /** Through allocation, copy and release the copied bytes arrive unchanged, and the other
      blocks stay as they were. */
  lemma ReallocKeeps(before: Memory, enlarged: Memory, copied: Memory, after: Memory,
                     held: Live, grown: Live, p: nat, r: nat, n: nat)
    requires p in held && r in grown && r !in held && held.Keys <= grown.Keys
    requires forall q :: q in held ==> grown[q] == held[q]
    requires n <= held[p].size && n <= grown[r].size
    requires Untouched(before, enlarged, held)
    requires Carried(enlarged, p, copied, r, n)
    requires forall q :: q in grown && q != r ==> Same(enlarged, copied, q, grown[q].size)
    requires Untouched(copied, after, grown - {p})
    ensures Carried(before, p, after, r, n) && Untouched(before, after, held - {p})
  {
    hide Same, Carried;
    assert Same(before, enlarged, p, held[p].size);
    assert r in grown - {p};
    assert Same(copied, after, r, grown[r].size);
    CarriedThrough(before, enlarged, copied, after, p, r, n, held[p].size, grown[r].size);
    forall q | q in held - {p}
      ensures Same(before, after, q, held[q].size)
    {
      assert q in grown - {p};
      SameThrough(before, enlarged, copied, after, q, held[q].size);
    }
  }

  lemma SameThrough(m1: Memory, m2: Memory, m3: Memory, m4: Memory, a: nat, n: nat)
    requires Same(m1, m2, a, n) && Same(m2, m3, a, n) && Same(m3, m4, a, n)
    ensures Same(m1, m4, a, n)
  {}

  lemma UntouchedLess(mem: Memory, next: Memory, live: Live, p: nat)
    requires Untouched(mem, next, live)
    ensures Untouched(mem, next, live - {p})
  {
    hide Same;
  }

  /** The `n` bytes from `r` on in `next` are those from `p` on in `mem`. */
  ghost predicate Carried(mem: Memory, p: nat, next: Memory, r: nat, n: nat) {
    forall x: nat :: r <= x < r + n ==> next(x) == mem(p + (x - r))
  }

  lemma OverlayCarries(under: Memory, mem: Memory, p: nat, r: nat, n: nat)
    ensures Carried(mem, p, Overlay(under, r, n, Moved(mem, p, r)), r, n)
  {}

  /** A copied block arrives unchanged through allocation, copy and release. */
  lemma CarriedThrough(before: Memory, enlarged: Memory, copied: Memory, after: Memory,
                       p: nat, r: nat, n: nat, size: nat, newSize: nat)
    requires n <= size && n <= newSize && Same(before, enlarged, p, size)
    requires Carried(enlarged, p, copied, r, n) && Same(copied, after, r, newSize)
    ensures Carried(before, p, after, r, n)
  {}

  lemma NothingTouched(mem: Memory, live: Live)
    ensures Untouched(mem, mem, live)
  {}

  lemma OneSound(mem: Memory, live: Live, p: nat)
    requires Sound(mem, live) && p in live
    ensures BlockSound(mem, p, live[p])
  {}

  lemma SoundAligned(mem: Memory, p: nat, b: Block)
    requires BlockSound(mem, p, b)
    ensures b.align > 0 && p % b.align == 0 && p > 0
  {
    hide LoadWord;
  }

  lemma SmallRaw(mem: Memory, live: Live, p: nat)
    requires Sound(mem, live) && p in live && live[p].align <= MALLOC_ALIGN
    ensures live[p].raw == p && live[p].RawSize() == live[p].size
  {
    hide LoadWord;
    assert BlockSound(mem, p, live[p]);
  }

  /** Bytes inside a block are no stash word. */
  lemma InsideBlock(mem: Memory, live: Live, p: nat, i: nat, n: nat)
    requires Sound(mem, live) && p in live && i + n <= live[p].size
    ensures forall q :: q in live && live[q].align > MALLOC_ALIGN ==> q >= WORD && Apart(p + i, n, q - WORD, WORD)
  {
    hide Sound;
    forall q | q in live && live[q].align > MALLOC_ALIGN
      ensures q >= WORD && Apart(p + i, n, q - WORD, WORD)
    {
      LiveApart(mem, live, p, q);
    }
  }

  lemma CopyTouches(mem: Memory, live: Live, p: nat, r: nat, n: nat)
    requires Sound(mem, live) && r in live && n <= live[r].size
    ensures Carried(mem, p, Overlay(mem, r, n, Moved(mem, p, r)), r, n)
    ensures forall q :: q in live && q != r ==> Same(mem, Overlay(mem, r, n, Moved(mem, p, r)), q, live[q].size)
  {
    hide Sound, Same;
    OverlayCarries(mem, mem, p, r, n);
    forall q | q in live && q != r
      ensures Same(mem, Overlay(mem, r, n, Moved(mem, p, r)), q, live[q].size)
    {
      LiveApart(mem, live, r, q);
      OverlaySame(mem, r, n, Moved(mem, p, r), q, live[q].size);
    }
  }
}
