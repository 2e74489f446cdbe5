/** The kernel heap in memory (kernel/heap.c): headers and payloads share one word-addressed
    memory, and every method refines the operation on the block list. */
module Heap {
  import opened Arith
  import opened Bits
  import opened HeapModel

  const HEAP_MAGIC: nat := 0xA110_C8ED
  const HALF: nat := 0x1_0000_0000

  /** Memory by address, one 64-bit word at every multiple of 8. */
  type Memory = map<nat, nat>

  // A header is three words: size, then magic (upper half) and free (lower half), then next.

  function StateWord(free: bool): nat { HEAP_MAGIC * HALF + if free then 1 else 0 }

  function FreeOf(w: nat): nat { w % HALF }

  function MagicOf(w: nat): nat { w / HALF }

  lemma StateFields(free: bool)
    ensures MagicOf(StateWord(free)) == HEAP_MAGIC && (FreeOf(StateWord(free)) == 0 <==> !free)
  {
  }

  function NextPtr(start: nat, bs: seq<Block>, i: nat): nat
    requires i < |bs|
  {
    if i + 1 < |bs| then start + Offset(bs, i + 1) else 0
  }

  ghost predicate Header(mem: Memory, a: nat, b: Block, next: nat)
  {
    && a in mem && a + 8 in mem && a + 16 in mem
    && mem[a] == b.size && mem[a + 8] == StateWord(b.free) && mem[a + 16] == next
  }

  ghost predicate HeaderAt(mem: Memory, start: nat, bs: seq<Block>, i: nat)
    requires i < |bs|
  {
    Header(mem, start + Offset(bs, i), bs[i], NextPtr(start, bs, i))
  }

  /** The list of blocks is what memory holds from `start` on. */
  ghost predicate Layout(mem: Memory, start: nat, bs: seq<Block>)
  {
    forall i: nat | i < |bs| :: HeaderAt(mem, start, bs, i)
  }

  /** Every word of the heap region is backed by memory. */
  ghost predicate Mapped(mem: Memory, start: nat, total: nat)
  {
    forall a: nat | start <= a < start + total && a % 8 == 0 :: a in mem
  }

  /** Memory changed only inside [lo, hi). */
  ghost predicate OnlyWithin(mem: Memory, mem': Memory, lo: nat, hi: nat)
  {
    mem'.Keys == mem.Keys && forall a | a in mem && !(lo <= a < hi) :: mem'[a] == mem[a]
  }

  /** Every word of these payloads is unchanged. */
  ghost predicate SamePayloads(mem: Memory, mem': Memory, live: set<Extent>)
  {
    mem'.Keys == mem.Keys &&
    forall e, a | e in live && e.addr <= a < e.addr + e.size && a in mem :: mem'[a] == mem[a]
  }

  // ----- Replacing one stretch of blocks by another of the same span -----

  function Splice(p: seq<Block>, x: seq<Block>, q: seq<Block>): seq<Block> { p + x + q }

  lemma SpliceSize(p: seq<Block>, x: seq<Block>, q: seq<Block>)
    ensures |Splice(p, x, q)| == |p| + |x| + |q|
  {
  }

  lemma SpliceBefore(p: seq<Block>, x: seq<Block>, q: seq<Block>, j: nat)
    requires j <= |p|
    ensures |Splice(p, x, q)| == |p| + |x| + |q|
    ensures Offset(Splice(p, x, q), j) == Offset(p, j)
    ensures j < |p| ==> Splice(p, x, q)[j] == p[j]
  {
    assert Splice(p, x, q)[..j] == p[..j];
  }

  lemma SpliceAfter(p: seq<Block>, x: seq<Block>, q: seq<Block>, j: nat)
    requires j <= |q|
    ensures |Splice(p, x, q)| == |p| + |x| + |q|
    ensures Offset(Splice(p, x, q), |p| + |x| + j) == Span(p) + Span(x) + Offset(q, j)
    ensures j < |q| ==> Splice(p, x, q)[|p| + |x| + j] == q[j]
  {
    assert Splice(p, x, q)[..|p| + |x| + j] == p + x + q[..j];
    SpanConcat(p + x, q[..j]);
    SpanConcat(p, x);
  }

  /** The blocks of the stretch itself. */
  lemma SpliceInside(p: seq<Block>, x: seq<Block>, q: seq<Block>, j: nat)
    requires j <= |x|
    ensures |Splice(p, x, q)| == |p| + |x| + |q|
    ensures Offset(Splice(p, x, q), |p| + j) == Span(p) + Offset(x, j)
    ensures j < |x| ==> Splice(p, x, q)[|p| + j] == x[j]
  {
    assert Splice(p, x, q)[..|p| + j] == p + x[..j];
    SpanConcat(p, x[..j]);
  }

  lemma BlockBounds(bs: seq<Block>, i: nat)
    requires i < |bs|
    ensures Offset(bs, i) + HEADER_SIZE + bs[i].size <= Span(bs)
  {
    OffsetEnd(bs);
    OffsetOrder(bs, i, |bs|);
  }

  /** Headers before the stretch stay. */
  lemma HeaderBefore(mem: Memory, mem': Memory, start: nat, p: seq<Block>, y: seq<Block>, x: seq<Block>,
                     q: seq<Block>, j: nat)
    requires Layout(mem, start, Splice(p, y, q)) && y != [] && x != []
    requires OnlyWithin(mem, mem', start + Span(p), start + Span(p) + Span(y))
    requires j < |p|
    ensures |Splice(p, x, q)| == |p| + |x| + |q| && HeaderAt(mem', start, Splice(p, x, q), j)
  {
    hide Splice, Span, Offset, StateWord;
    SpliceBefore(p, y, q, j);
    SpliceBefore(p, x, q, j);
    SpliceBefore(p, y, q, j + 1);
    SpliceBefore(p, x, q, j + 1);
    BlockBounds(p, j);
    assert HeaderAt(mem, start, Splice(p, y, q), j);
  }

  /** Headers after the stretch stay. */
  lemma HeaderAfter(mem: Memory, mem': Memory, start: nat, p: seq<Block>, y: seq<Block>, x: seq<Block>,
                    q: seq<Block>, j: nat)
    requires Layout(mem, start, Splice(p, y, q)) && Span(x) == Span(y)
    requires OnlyWithin(mem, mem', start + Span(p), start + Span(p) + Span(y))
    requires j < |q|
    ensures |Splice(p, x, q)| == |p| + |x| + |q| && HeaderAt(mem', start, Splice(p, x, q), |p| + |x| + j)
  {
    hide Splice, Span, Offset, StateWord;
    SpliceAfter(p, y, q, j);
    SpliceAfter(p, x, q, j);
    SpliceAfter(p, y, q, j + 1);
    SpliceAfter(p, x, q, j + 1);
    assert HeaderAt(mem, start, Splice(p, y, q), |p| + |y| + j);
  }

  ghost predicate StretchAt(mem: Memory, a: nat, x: seq<Block>, next: nat, j: nat)
    requires j < |x|
  {
    Header(mem, a + Offset(x, j), x[j], if j + 1 < |x| then a + Offset(x, j + 1) else next)
  }

  /** A stretch x laid out at its own place in memory, followed by a block at `next` (0 if none). */
  ghost predicate Stretch(mem: Memory, a: nat, x: seq<Block>, next: nat)
  {
    forall j: nat | j < |x| :: StretchAt(mem, a, x, next, j)
  }

  /** Where the block after a stretch lies. */
  function After(start: nat, p: seq<Block>, x: seq<Block>, q: seq<Block>): nat
  {
    if q == [] then 0 else start + Span(p) + Span(x)
  }

  lemma HeaderInside(mem: Memory, start: nat, p: seq<Block>, x: seq<Block>, q: seq<Block>, j: nat)
    requires j < |x|
    ensures |Splice(p, x, q)| == |p| + |x| + |q|
    ensures HeaderAt(mem, start, Splice(p, x, q), |p| + j) <==>
            StretchAt(mem, start + Span(p), x, After(start, p, x, q), j)
  {
    hide Splice, Span, Offset, StateWord;
    OffsetEnd(x);
    SpliceInside(p, x, q, j);
    SpliceInside(p, x, q, j + 1);
    SpliceAfter(p, x, q, 0);
    OffsetEnd(q);
  }

  lemma IsLayout(mem: Memory, start: nat, bs: seq<Block>)
    requires forall i: nat | i < |bs| :: HeaderAt(mem, start, bs, i)
    ensures Layout(mem, start, bs)
  {
  }

  lemma LayoutReplace(mem: Memory, mem': Memory, start: nat, p: seq<Block>, y: seq<Block>, x: seq<Block>, q: seq<Block>)
    requires Layout(mem, start, Splice(p, y, q)) && y != [] && x != [] && Span(x) == Span(y)
    requires OnlyWithin(mem, mem', start + Span(p), start + Span(p) + Span(y))
    requires Stretch(mem', start + Span(p), x, After(start, p, x, q))
    ensures Layout(mem', start, Splice(p, x, q))
  {
    hide Splice, Span, HeaderAt, StretchAt, OnlyWithin, Layout;
    var r := Splice(p, x, q);
    SpliceSize(p, x, q);
    forall i: nat | i < |r| ensures HeaderAt(mem', start, r, i) {
      if i < |p| {
        HeaderBefore(mem, mem', start, p, y, x, q, i);
      } else if i >= |p| + |x| {
        HeaderAfter(mem, mem', start, p, y, x, q, i - |p| - |x|);
      } else {
        assert StretchAt(mem', start + Span(p), x, After(start, p, x, q), i - |p|);
        HeaderInside(mem', start, p, x, q, i - |p|);
      }
    }
    IsLayout(mem', start, r);
  }

  /** Payloads outside the stretch keep their words. */
  lemma PayloadsOutside(mem: Memory, mem': Memory, start: nat, p: seq<Block>, n: nat, q: seq<Block>)
    requires OnlyWithin(mem, mem', start + Span(p), start + Span(p) + n)
    ensures SamePayloads(mem, mem', Live(start, p) + Live(start + Span(p) + n, q))
  {
    LiveAbove(start, p);
    LiveAbove(start + Span(p) + n, q);
  }

  // ----- Carving -----

  function PutHeader(mem: Memory, a: nat, b: Block, next: nat): Memory
  {
    mem[a := b.size][a + 8 := StateWord(b.free)][a + 16 := next]
  }

  /** The writes of kmalloc into the block at a: the header of the carved-off block, then its own. */
  function CarveWrites(mem: Memory, a: nat, b: Block, next: nat, n: nat): Memory
    requires b.size >= n
  {
    if b.size >= n + MIN_SPLIT then
      var nb := a + HEADER_SIZE + n;
      PutHeader(PutHeader(mem, nb, Block(b.size - n - HEADER_SIZE, true), next), a, Block(n, false), nb)
    else PutHeader(mem, a, Block(b.size, false), next)
  }

  lemma CarveStretch(mem: Memory, a: nat, b: Block, next: nat, n: nat)
    requires Header(mem, a, b, next) && b.size >= n
    requires b.size >= n + MIN_SPLIT ==>
               var nb := a + HEADER_SIZE + n; nb in mem && nb + 8 in mem && nb + 16 in mem
    ensures Stretch(CarveWrites(mem, a, b, next, n), a, Carve(b, n), next)
    ensures OnlyWithin(mem, CarveWrites(mem, a, b, next, n), a, a + HEADER_SIZE + b.size)
  {
    hide Span, Offset, StateWord;
    var c := Carve(b, n);
    OffsetEnd(c);
    if |c| == 2 { OffsetNext(c, 0); }
  }

  lemma Resplice(bs: seq<Block>, i: nat)
    requires i < |bs|
    ensures bs == Splice(bs[..i], [bs[i]], bs[i + 1..])
  {
  }

  /** Rewriting one block in place, with the same span, keeps everything around it. */
  lemma RewriteBlock(mem: Memory, mem': Memory, start: nat, bs: seq<Block>, i: nat, c: seq<Block>)
    requires Layout(mem, start, bs) && i < |bs| && c != [] && Span(c) == HEADER_SIZE + bs[i].size
    requires OnlyWithin(mem, mem', start + Offset(bs, i), start + Offset(bs, i) + HEADER_SIZE + bs[i].size)
    requires Stretch(mem', start + Offset(bs, i), c, NextPtr(start, bs, i))
    ensures Layout(mem', start, bs[..i] + c + bs[i + 1..])
  {
    var p, q := bs[..i], bs[i + 1..];
    Resplice(bs, i);
    SpanOne(bs[i]);
    OffsetNext(bs, i);
    assert NextPtr(start, bs, i) == After(start, p, c, q);
    assert bs[..i] + c + bs[i + 1..] == Splice(p, c, q);
    hide Span, Layout, Stretch, Splice;
    LayoutReplace(mem, mem', start, p, [bs[i]], c, q);
  }

  /** Writing inside one block touches no other payload. */
  lemma BlockPayloads(mem: Memory, mem': Memory, start: nat, bs: seq<Block>, i: nat)
    requires i < |bs|
    requires OnlyWithin(mem, mem', start + Offset(bs, i), start + Offset(bs, i) + HEADER_SIZE + bs[i].size)
    ensures SamePayloads(mem, mem', Live(start, bs) - {Extent(start + Offset(bs, i) + HEADER_SIZE, bs[i].size)})
    ensures bs[i].free ==> SamePayloads(mem, mem', Live(start, bs))
  {
    hide Span, Live;
    LiveAt(start, bs, i);
    LiveOne(start + Offset(bs, i), bs[i]);
    OffsetNext(bs, i);
    PayloadsOutside(mem, mem', start, bs[..i], HEADER_SIZE + bs[i].size, bs[i + 1..]);
  }

  lemma CarveLayout(mem: Memory, start: nat, bs: seq<Block>, i: nat, n: nat)
    requires Layout(mem, start, bs) && i < |bs| && Fits(bs[i], n)
    requires bs[i].size >= n + MIN_SPLIT ==>
               var nb := start + Offset(bs, i) + HEADER_SIZE + n; nb in mem && nb + 8 in mem && nb + 16 in mem
    ensures var mem' := CarveWrites(mem, start + Offset(bs, i), bs[i], NextPtr(start, bs, i), n);
            && Layout(mem', start, Alloc(bs, i, n))
            && SamePayloads(mem, mem', Live(start, bs)) && mem'.Keys == mem.Keys
  {
    var a, next := start + Offset(bs, i), NextPtr(start, bs, i);
    assert HeaderAt(mem, start, bs, i);
    CarveSpan(bs[i], n);
    CarveStretch(mem, a, bs[i], next, n);
    hide Span, Carve, CarveWrites, Layout, Stretch, Live;
    var mem' := CarveWrites(mem, a, bs[i], next, n);
    RewriteBlock(mem, mem', start, bs, i, Carve(bs[i], n));
    BlockPayloads(mem, mem', start, bs, i);
  }

  // ----- Freeing and merging -----

  lemma MarkFreeLayout(mem: Memory, start: nat, bs: seq<Block>, i: nat)
    requires Layout(mem, start, bs) && i < |bs|
    ensures var mem' := mem[start + Offset(bs, i) + 8 := StateWord(true)];
            && Layout(mem', start, bs[i := Block(bs[i].size, true)]) && mem'.Keys == mem.Keys
            && SamePayloads(mem, mem', Live(start, bs) - {Extent(start + Offset(bs, i) + HEADER_SIZE, bs[i].size)})
  {
    var a, b := start + Offset(bs, i), Block(bs[i].size, true);
    var mem' := mem[a + 8 := StateWord(true)];
    assert HeaderAt(mem, start, bs, i);
    OffsetEnd([b]);
    SpanOne(b);
    assert StretchAt(mem', a, [b], NextPtr(start, bs, i), 0);
    assert bs[i := b] == bs[..i] + [b] + bs[i + 1..];
    hide Span, Layout, Live, StateWord;
    RewriteBlock(mem, mem', start, bs, i, [b]);
    BlockPayloads(mem, mem', start, bs, i);
  }

  /** One merge of the coalescing pass: block k absorbs block k + 1. */
  function MergeAt(bs: seq<Block>, k: nat): seq<Block>
    requires k + 1 < |bs|
  {
    bs[..k] + [Block(bs[k].size + HEADER_SIZE + bs[k + 1].size, true)] + bs[k + 2..]
  }

  lemma PairSpan(b: Block, c: Block)
    ensures Span([b, c]) == HEADER_SIZE + b.size + HEADER_SIZE + c.size
  {
    assert [b, c] == [b] + [c];
    SpanConcat([b], [c]);
    SpanOne(b);
    SpanOne(c);
  }

  lemma HeaderHere(mem: Memory, start: nat, bs: seq<Block>, i: nat)
    requires Layout(mem, start, bs) && i < |bs|
    ensures Header(mem, start + Offset(bs, i), bs[i], NextPtr(start, bs, i))
    ensures var a := start + Offset(bs, i);
            && MagicOf(mem[a + 8]) == HEAP_MAGIC && (FreeOf(mem[a + 8]) == 0 <==> !bs[i].free)
            && NextPtr(start, bs, i) == if i + 1 < |bs| then start + Offset(bs, i + 1) else 0
  {
    assert HeaderAt(mem, start, bs, i);
    StateFields(bs[i].free);
  }

  lemma MergeLayout(mem: Memory, start: nat, bs: seq<Block>, k: nat)
    requires Layout(mem, start, bs) && k + 1 < |bs| && bs[k].free && bs[k + 1].free
    ensures var a := start + Offset(bs, k);
            var mem' := mem[a := bs[k].size + HEADER_SIZE + bs[k + 1].size][a + 16 := NextPtr(start, bs, k + 1)];
            && Layout(mem', start, MergeAt(bs, k)) && mem'.Keys == mem.Keys
            && SamePayloads(mem, mem', Live(start, bs))
  {
    hide Span, Layout, Live;
    var a, b := start + Offset(bs, k), Block(bs[k].size + HEADER_SIZE + bs[k + 1].size, true);
    var p, y, q := bs[..k], [bs[k], bs[k + 1]], bs[k + 2..];
    var mem' := mem[a := b.size][a + 16 := NextPtr(start, bs, k + 1)];
    HeaderHere(mem, start, bs, k);
    assert bs == Splice(p, y, q) && MergeAt(bs, k) == Splice(p, [b], q);
    PairSpan(bs[k], bs[k + 1]);
    SpanOne(b);
    OffsetEnd([b]);
    OffsetNext(bs, k);
    OffsetNext(bs, k + 1);
    assert NextPtr(start, bs, k + 1) == After(start, p, [b], q);
    assert StretchAt(mem', a, [b], After(start, p, [b], q), 0);
    BlockPayloads(mem, mem', start, bs, k);
    LayoutReplace(mem, mem', start, p, y, [b], q);
  }

  // ----- Alignment -----

  predicate IsPow2(a: nat)
  {
    a == 1 || (a > 1 && a % 2 == 0 && IsPow2(a / 2))
  }

  /** The test "a nonzero and a & (a - 1) zero" accepts exactly the powers of two. */
  lemma {:induction false} BitTestIsPow2(a: nat)
    ensures IsPow2(a) <==> a != 0 && And(a, a - 1) == 0
  {
    if a > 1 && a % 2 == 0 { BitTestIsPow2(a / 2); }
    if a > 1 && a % 2 == 1 { AndSelf(a / 2); }
  }

  lemma {:induction false} PowerIs(a: nat) returns (k: nat)
    requires IsPow2(a)
    ensures a == Pow2(k)
  {
    k := 0;
    if a != 1 {
      k := PowerIs(a / 2);
      k := k + 1;
    }
  }

  lemma {:induction false} Pow2IsPow2(k: nat)
    ensures IsPow2(Pow2(k))
  {
    if k > 0 { Pow2IsPow2(k - 1); }
  }

  /** x & ~(align - 1) for a power of two. */
  function AlignDown(x: nat, align: nat): nat
    requires align > 0
  {
    x - x % align
  }

  lemma DownIs(x: nat, align: nat)
    requires align > 0
    ensures Down(x, align) == AlignDown(x, align)
  {
  }

  /** The mask bit by bit. */
  lemma AlignIsMask(x: nat, align: nat)
    requires x < WORD && IsPow2(align) && align <= WORD
    ensures And(x, WORD - align) == AlignDown(x, align)
  {
    hide And, Pow2, IsPow2;
    var k := PowerIs(align);
    Powers();
    Pow2Next(64);
    if k > 64 { Pow2Grows(65, k); }
    AndMask(x, k, 64 - k);
    assert x % WORD == x;
    DownIs(x, align);
  }

  predicate Aligned(a: nat, align: nat)
    requires align > 0
  {
    a % align == 0
  }

  lemma MultipleOfEight(a: nat, q: nat)
    requires a % 8 == 0
    ensures a * q % 8 == 0
  {
    var m := a / 8;
    assert a * q == 8 * (m * q) by { assert a == 8 * m; }
    ModUnique(a * q, 8, m * q, 0);
  }

  lemma DownIsMultiple(x: nat, align: nat)
    requires align > 0
    ensures AlignDown(x, align) == align * (x / align) && Aligned(AlignDown(x, align), align)
  {
    ModUnique(align * (x / align), align, x / align, 0);
  }

  lemma AlignBounds(x: nat, align: nat)
    requires align > 0 && align % 8 == 0 && x + 1 >= align
    ensures Aligned(AlignDown(x, align), align) && AlignDown(x, align) % 8 == 0
    ensures x + 1 - align <= AlignDown(x, align) <= x
  {
    hide Aligned;
    var q := x / align;
    assert x == align * q + x % align;
    MultipleOfEight(align, q);
    DownIsMultiple(x, align);
  }

  lemma PowerOfEight(a: nat)
    requires IsPow2(a) && a >= 8
    ensures a % 8 == 0
  {
    var b := a / 2;
    var c := b / 2;
    assert IsPow2(b) && b % 2 == 0 && IsPow2(c) && c % 2 == 0;
    hide IsPow2;
    assert a == 2 * b && b == 2 * c && c == 2 * (c / 2);
    ModUnique(a, 8, c / 2, 0);
  }

  /** A live payload lies in the heap region. */
  lemma LiveFits(start: nat, total: nat, bs: seq<Block>, e: Extent)
    requires Ok(bs, total) && e in Live(start, bs)
    ensures start + HEADER_SIZE <= e.addr && e.addr + e.size <= start + total
  {
    LiveAbove(start, bs);
  }

  lemma BackStoreSpares(m0: Memory, m1: Memory, m2: Memory, old': set<Extent>, live: set<Extent>, e: Extent)
    requires SamePayloads(m0, m1, old') && SamePayloads(m1, m2, live - {e})
    requires live == old' + {e} && e !in old'
    ensures SamePayloads(m0, m2, old')
  {
    assert live - {e} == old';
  }

  // ----- Moving a block -----

  ghost predicate CopiedAt(mem: Memory, src: nat, mem': Memory, dst: nat, w: nat)
  {
    src + w in mem && dst + w in mem' && mem'[dst + w] == mem[src + w]
  }

  /** The n bytes at dst are the n bytes that were at src. */
  ghost predicate Copied(mem: Memory, src: nat, mem': Memory, dst: nat, n: nat)
  {
    forall w: nat | w < n && w % 8 == 0 :: CopiedAt(mem, src, mem', dst, w)
  }

  lemma CopiedNone(m0: Memory, src: nat, mem: Memory, dst: nat)
    ensures Copied(m0, src, mem, dst, 0)
  {
  }

  lemma WithinNone(m: Memory, lo: nat, hi: nat)
    ensures OnlyWithin(m, m, lo, hi)
  {
  }

  /** One more word written inside the window; a word outside is still the old one. */
  lemma WithinStep(m0: Memory, mem: Memory, lo: nat, hi: nat, a: nat, b: nat)
    requires OnlyWithin(m0, mem, lo, hi) && a in m0 && b in m0 && !(lo <= a < hi) && lo <= b < hi
    ensures a in mem && b in mem && mem[a] == m0[a]
    ensures OnlyWithin(m0, mem[b := mem[a]], lo, hi)
  {
  }

  lemma WithinGrows(m0: Memory, mem: Memory, lo: nat, hi: nat, hi': nat)
    requires OnlyWithin(m0, mem, lo, hi) && hi <= hi'
    ensures OnlyWithin(m0, mem, lo, hi') && mem.Keys == m0.Keys
  {
  }

  lemma Sum8(a: nat, w: nat)
    requires a % 16 == 0 && w % 8 == 0
    ensures (a + w) % 8 == 0
  {
    assert a == 16 * (a / 16) && w == 8 * (w / 8);
    ModUnique(a + w, 8, 2 * (a / 16) + w / 8, 0);
  }

  /** A live payload is 16-aligned memory. */
  lemma PayloadHere(mem: Memory, start: nat, total: nat, bs: seq<Block>, e: Extent)
    requires start % 16 == 0 && Mapped(mem, start, total) && Ok(bs, total) && e in Live(start, bs)
    ensures e.addr % 16 == 0 && e.size % 16 == 0
    ensures forall w: nat | w < e.size && w % 8 == 0 :: e.addr + w in mem
  {
    var i := LiveIndex(start, bs, e);
    OffsetAligned(bs, i);
    LiveFits(start, total, bs, e);
    assert bs[i] in bs;
    hide Offset, Ok, Live;
    Sum16(start, Offset(bs, i));
    forall w: nat | w < e.size && w % 8 == 0 ensures e.addr + w in mem { Sum8(e.addr, w); }
  }

  lemma WordOfPayload(mem: Memory, start: nat, total: nat, bs: seq<Block>, e: Extent, w: nat)
    requires start % 16 == 0 && Mapped(mem, start, total) && Ok(bs, total) && e in Live(start, bs)
    requires w < e.size && w % 8 == 0
    ensures e.addr + w in mem
  {
    hide Mapped, Ok, Live;
    PayloadHere(mem, start, total, bs, e);
  }

  lemma CopyStep(m0: Memory, mem: Memory, src: nat, dst: nat, i: nat)
    requires Copied(m0, src, mem, dst, i) && i % 8 == 0 && src + i in m0 && dst + i in mem
    ensures Copied(m0, src, mem[dst + i := m0[src + i]], dst, i + 8)
  {
    var mem' := mem[dst + i := m0[src + i]];
    forall w: nat | w < i + 8 && w % 8 == 0 ensures CopiedAt(m0, src, mem', dst, w) {
      if w < i { assert CopiedAt(m0, src, mem, dst, w); } else { assert w == i; }
    }
  }

  lemma LiveDisjoint(at: nat, bs: seq<Block>, e: Extent, f: Extent)
    requires e in Live(at, bs) && f in Live(at, bs) && e != f
    ensures e.addr + e.size <= f.addr || f.addr + f.size <= e.addr
  {
    var i := LiveIndex(at, bs, e);
    var j := LiveIndex(at, bs, f);
    PayloadsDisjoint(bs, i, j);
  }

  /** The header below a live payload passes both guards of kfree and holds the size. */
  lemma LiveHeader(mem: Memory, start: nat, total: nat, bs: seq<Block>, e: Extent)
    requires start % 16 == 0 && Mapped(mem, start, total) && Ok(bs, total) && Layout(mem, start, bs)
    requires e in Live(start, bs)
    ensures e.addr >= start + HEADER_SIZE && e.addr - 24 in mem && e.addr - HEADER_SIZE in mem
    ensures MagicOf(mem[e.addr - 24]) == HEAP_MAGIC && FreeOf(mem[e.addr - 24]) == 0
    ensures mem[e.addr - HEADER_SIZE] == e.size && e.size % 16 == 0
  {
    var i := LiveIndex(start, bs, e);
    HeaderHere(mem, start, bs, i);
    assert bs[i] in bs;
  }

  /** A fresh block is live beside every other payload. */
  lemma NewHome(at: nat, bs0: seq<Block>, i: nat, n: nat, e: Extent)
    requires i < |bs0| && Fits(bs0[i], n) && e in Live(at, bs0)
    ensures i < |Alloc(bs0, i, n)|
    ensures var a := Alloc(bs0, i, n);
            var to := Extent(at + Offset(bs0, i) + HEADER_SIZE, a[i].size);
            && Live(at, a) == Live(at, bs0) + {to} && to.size >= n && to !in Live(at, bs0)
            && to in Live(at, a) && e in Live(at, a) && to != e
  {
    hide Live, Alloc, Offset;
    AllocParts(bs0, i, n);
    AllocLive(at, bs0, i, n);
  }

  lemma MoveSpares(m0: Memory, m1: Memory, m2: Memory, m3: Memory, start: nat, total: nat, bs1: seq<Block>,
                   live0: set<Extent>, to: Extent, e: Extent)
    requires SamePayloads(m0, m1, live0) && e in live0 && to !in live0 && Live(start, bs1) == live0 + {to}
    requires SamePayloads(m1, m2, Live(start, bs1) - {to}) && SamePayloads(m2, m3, Live(start, bs1) - {e})
    requires start % 16 == 0 && Mapped(m1, start, total) && Ok(bs1, total)
    requires Copied(m1, e.addr, m2, to.addr, e.size) && e.size <= to.size
    ensures Copied(m0, e.addr, m3, to.addr, e.size)
    ensures SamePayloads(m0, m3, live0 - {e})
  {
    hide Mapped, Ok, Live;
    PayloadHere(m1, start, total, bs1, e);
    PayloadHere(m1, start, total, bs1, to);
    forall w: nat | w < e.size && w % 8 == 0 ensures CopiedAt(m0, e.addr, m3, to.addr, w) {
      assert CopiedAt(m1, e.addr, m2, to.addr, w);
      assert e.addr + w in m1 && to.addr + w in m1;
      assert to in live0 + {to} - {e};
    }
  }

  // ----- The coalescing pass -----

  /** The first k blocks are final; coalescing the rest gives the whole pass. */
  ghost predicate Progress(bs0: seq<Block>, bs: seq<Block>, k: nat)
  {
    k < |bs| && bs[..k] + Coalesce(bs[k..]) == Coalesce(bs0)
  }

  /** The words that hold a block's state, in use or stale, are as before: the aligned ones at 8. */
  ghost predicate StatesKept(m: Memory, m': Memory)
  {
    forall a: nat | a in m && a % 16 == 8 :: a in m' && m'[a] == m[a]
  }

  lemma StatesTrans(m0: Memory, m1: Memory, m2: Memory)
    requires StatesKept(m0, m1) && StatesKept(m1, m2)
    ensures StatesKept(m0, m2)
  {
  }

  lemma StatesSame(m: Memory)
    ensures StatesKept(m, m)
  {
  }

  lemma StatesSpared(m: Memory, a: nat, v: nat, w: nat)
    requires a % 16 == 0
    ensures StatesKept(m, m[a := v][a + 16 := w])
  {
  }

  lemma MergeRounded(bs: seq<Block>, k: nat)
    requires Rounded(bs) && k + 1 < |bs|
    ensures Rounded(MergeAt(bs, k))
  {
    assert bs[k] in bs && bs[k + 1] in bs;
    Sum16(bs[k].size, bs[k + 1].size);
    forall b | b in MergeAt(bs, k) ensures b.size % 16 == 0 {}
  }

  lemma HeapRounded(bs: seq<Block>, total: nat)
    requires Ok(bs, total)
    ensures Rounded(bs) && bs != []
  {
  }

  lemma MarkRounded(bs: seq<Block>, i: nat)
    requires Rounded(bs) && i < |bs|
    ensures Rounded(bs[i := Block(bs[i].size, true)])
  {
    var r := bs[i := Block(bs[i].size, true)];
    assert bs[i] in bs;
    forall b | b in r ensures b.size % 16 == 0 {
      var j :| 0 <= j < |r| && r[j] == b;
      assert bs[j] in bs;
    }
  }

  /** The state word at ptr - 24 makes kfree return at a guard. */
  predicate Guarded(mem: Memory, ptr: nat)
  {
    ptr >= HEADER_SIZE && ptr - 24 in mem && !(MagicOf(mem[ptr - 24]) == HEAP_MAGIC && FreeOf(mem[ptr - 24]) == 0)
  }

  lemma StateAligned(ptr: nat)
    requires ptr % 16 == 0 && ptr >= HEADER_SIZE
    ensures (ptr - 24) % 16 == 8
  {
    ModUnique(ptr - 24, 16, ptr / 16 - 2, 8);
  }

  lemma StillRefused(m0: Memory, m1: Memory, m2: Memory, ptr: nat)
    requires ptr >= HEADER_SIZE && ptr % 16 == 0 && ptr - 24 in m0
    requires m1 == m0[ptr - 24 := StateWord(true)] && StatesKept(m1, m2)
    ensures Guarded(m2, ptr) && forall q: nat | q % 16 == 0 && Guarded(m0, q) :: Guarded(m2, q)
  {
    hide StateWord;
    StateFields(true);
    StateAligned(ptr);
    forall q: nat | q % 16 == 0 && Guarded(m0, q) ensures Guarded(m2, q) { StateAligned(q); }
  }

  lemma NextAligned(bs: seq<Block>, start: nat, k: nat)
    requires Rounded(bs) && start % 16 == 0 && k <= |bs|
    ensures (start + Offset(bs, k)) % 16 == 0
  {
    hide Rounded, Offset;
    OffsetAligned(bs, k);
    ModUnique(start + Offset(bs, k), 16, start / 16 + Offset(bs, k) / 16, 0);
  }

  lemma PassStarts(start: nat, bs: seq<Block>, mem: Memory)
    requires bs != []
    ensures Progress(bs, bs, 0) && Offset(bs, 0) == 0 && SamePayloads(mem, mem, Live(start, bs))
  {
    assert bs[0..] == bs;
  }

  lemma PassSkips(bs0: seq<Block>, bs: seq<Block>, k: nat)
    requires Progress(bs0, bs, k) && k + 1 < |bs| && !(bs[k].free && bs[k + 1].free)
    ensures Progress(bs0, bs, k + 1)
  {
    assert bs[k..][0] == bs[k] && bs[k..][1] == bs[k + 1] && bs[k..][1..] == bs[k + 1..];
    assert bs[..k + 1] == bs[..k] + [bs[k]];
    assert bs[..k] + ([bs[k]] + Coalesce(bs[k + 1..])) == bs[..k + 1] + Coalesce(bs[k + 1..]);
  }

  lemma PassEnds(bs0: seq<Block>, bs: seq<Block>, k: nat)
    requires Progress(bs0, bs, k) && k + 1 == |bs|
    ensures bs == Coalesce(bs0)
  {
    assert |bs[k..]| == 1 && bs[..k] + bs[k..] == bs;
  }

  function MergeWrites(mem: Memory, start: nat, bs: seq<Block>, k: nat): Memory
    requires k + 1 < |bs|
  {
    mem[start + Offset(bs, k) := bs[k].size + HEADER_SIZE + bs[k + 1].size]
       [start + Offset(bs, k) + 16 := NextPtr(start, bs, k + 1)]
  }

  lemma MergeProgress(bs0: seq<Block>, bs: seq<Block>, k: nat)
    requires Progress(bs0, bs, k) && k + 1 < |bs| && bs[k].free && bs[k + 1].free
    ensures Progress(bs0, MergeAt(bs, k), k) && |MergeAt(bs, k)| == |bs| - 1
    ensures Offset(MergeAt(bs, k), k) == Offset(bs, k)
  {
    var r, t := MergeAt(bs, k), bs[k..];
    assert t[0] == bs[k] && t[1] == bs[k + 1] && t[2..] == bs[k + 2..];
    assert r[..k] == bs[..k] && r[k..] == Merged(t);
    assert Coalesce(t) == Coalesce(Merged(t));
  }

  lemma MergeLive(at: nat, bs: seq<Block>, k: nat)
    requires k + 1 < |bs| && bs[k].free && bs[k + 1].free
    ensures Live(at, MergeAt(bs, k)) == Live(at, bs)
  {
    hide Live, Span;
    var p, y, q := bs[..k], [bs[k], bs[k + 1]], bs[k + 2..];
    var x := [Block(bs[k].size + HEADER_SIZE + bs[k + 1].size, true)];
    assert bs == p + (y + q) && MergeAt(bs, k) == p + (x + q) && y == [bs[k]] + [bs[k + 1]];
    LiveConcat(at, p, y + q);
    LiveConcat(at, p, x + q);
    var a := at + Span(p);
    LiveConcat(a, y, q);
    LiveConcat(a, x, q);
    LiveConcat(a, [bs[k]], [bs[k + 1]]);
    LiveOne(a, bs[k]);
    LiveOne(a + Span([bs[k]]), bs[k + 1]);
    LiveOne(a, x[0]);
    PairSpan(bs[k], bs[k + 1]);
    SpanOne(x[0]);
  }

  lemma StillMapped(mem: Memory, mem': Memory, start: nat, total: nat)
    requires Mapped(mem, start, total) && mem'.Keys == mem.Keys
    ensures Mapped(mem', start, total)
  {
  }

  /** Everything one merge achieves. */
  lemma MergeWorks(mem: Memory, start: nat, total: nat, bs0: seq<Block>, bs: seq<Block>, k: nat)
    requires Mapped(mem, start, total) && Layout(mem, start, bs) && Progress(bs0, bs, k)
    requires k + 1 < |bs| && bs[k].free && bs[k + 1].free
    ensures var mem' := MergeWrites(mem, start, bs, k);
            && Mapped(mem', start, total) && Layout(mem', start, MergeAt(bs, k)) && mem'.Keys == mem.Keys
            && SamePayloads(mem, mem', Live(start, bs))
    ensures Progress(bs0, MergeAt(bs, k), k) && |MergeAt(bs, k)| == |bs| - 1
    ensures Offset(MergeAt(bs, k), k) == Offset(bs, k) && Live(start, MergeAt(bs, k)) == Live(start, bs)
  {
    hide Layout, Mapped, Live, Offset, Coalesce, MergeAt, Span, NextPtr;
    MergeLayout(mem, start, bs, k);
    MergeProgress(bs0, bs, k);
    MergeLive(start, bs, k);
    StillMapped(mem, MergeWrites(mem, start, bs, k), start, total);
  }

  lemma SamePayloadsTrans(m0: Memory, m1: Memory, m2: Memory, live: set<Extent>)
    requires SamePayloads(m0, m1, live) && SamePayloads(m1, m2, live)
    ensures SamePayloads(m0, m2, live)
  {
  }

  // ----- Writing into a payload -----

  lemma PayloadWrite(mem: Memory, mem': Memory, start: nat, bs: seq<Block>, e: Extent)
    requires Layout(mem, start, bs) && e in Live(start, bs)
    requires OnlyWithin(mem, mem', e.addr, e.addr + e.size)
    ensures Layout(mem', start, bs) && SamePayloads(mem, mem', Live(start, bs) - {e})
  {
    var i := LiveIndex(start, bs, e);
    forall j: nat | j < |bs| ensures HeaderAt(mem', start, bs, j) {
      assert HeaderAt(mem, start, bs, j);
      if i != j { PayloadsDisjoint(bs, i, j); }
    }
    BlockPayloads(mem, mem', start, bs, i);
  }

  lemma InHeap(mem: Memory, start: nat, total: nat, a: nat)
    requires Mapped(mem, start, total)
    requires start <= a && a % 8 == 0
    ensures a + HEADER_SIZE <= start + total ==> a in mem && a + 8 in mem && a + 16 in mem
  {
  }

  /** A carved-off block's header lies inside the heap and is 16-aligned. */
  lemma SplitFits(bs: seq<Block>, start: nat, total: nat, i: nat, n: nat)
    requires i < |bs| && Ok(bs, total) && n % 16 == 0 && start % 16 == 0
    ensures Offset(bs, i) + HEADER_SIZE + bs[i].size <= total
    ensures (start + Offset(bs, i) + HEADER_SIZE + n) % 8 == 0
  {
    BlockBounds(bs, i);
    OffsetAligned(bs, i);
    hide Offset, Span, Ok;
    Sum16(Offset(bs, i), n);
    var x := Offset(bs, i) + HEADER_SIZE + n;
    assert start == 16 * (start / 16) && x == 16 * (x / 16);
    ModUnique(start + x, 8, 2 * (start / 16) + 2 * (x / 16), 0);
  }

  /** Everything kmalloc's writes achieve. */
  lemma CarveWorks(mem: Memory, start: nat, total: nat, bs: seq<Block>, k: nat, n: nat)
    requires start % 16 == 0 && Mapped(mem, start, total) && Ok(bs, total) && Layout(mem, start, bs)
    requires k < |bs| && Fits(bs[k], n) && n % 16 == 0
    ensures Header(mem, start + Offset(bs, k), bs[k], NextPtr(start, bs, k))
    ensures var mem' := CarveWrites(mem, start + Offset(bs, k), bs[k], NextPtr(start, bs, k), n);
            && Mapped(mem', start, total) && Ok(Alloc(bs, k, n), total) && Layout(mem', start, Alloc(bs, k, n))
            && SamePayloads(mem, mem', Live(start, bs))
  {
    hide Layout, Live, Alloc, CarveWrites, Span, StateWord, Mapped, Offset, NextPtr, Ok, Carve, SamePayloads, Header;
    AllocOk(bs, total, k, n);
    HeaderHere(mem, start, bs, k);
    SplitFits(bs, start, total, k, n);
    InHeap(mem, start, total, start + Offset(bs, k) + HEADER_SIZE + n);
    CarveLayout(mem, start, bs, k, n);
    StillMapped(mem, CarveWrites(mem, start + Offset(bs, k), bs[k], NextPtr(start, bs, k), n), start, total);
  }

  lemma Sixteen(total: nat)
    requires total % 16 == 0 && total >= HEADER_SIZE
    ensures (total - HEADER_SIZE) % 16 == 0
  {
    ModUnique(total - HEADER_SIZE, 16, total / 16 - 2, 0);
  }

  lemma OneBlockOk(size: nat)
    requires size % 16 == 0
    ensures Ok([Block(size, true)], HEADER_SIZE + size)
  {
    hide Span;
    SpanOne(Block(size, true));
  }

  lemma OneBlockLayout(mem: Memory, start: nat, b: Block)
    requires Header(mem, start, b, 0)
    ensures Layout(mem, start, [b])
  {
    hide Header, Offset;
    OffsetEnd([b]);
    assert HeaderAt(mem, start, [b], 0);
  }

  lemma PutIsHeader(mem: Memory, a: nat, b: Block, next: nat)
    ensures Header(PutHeader(mem, a, b, next), a, b, next)
  {
    hide StateWord;
  }

  lemma EightOf(a: nat)
    requires a % 16 == 0
    ensures a % 8 == 0
  {
    ModUnique(a, 8, 2 * (a / 16), 0);
  }

  /** The block that heap_init writes. */
  lemma FirstBlock(mem: Memory, start: nat, total: nat)
    requires start % 16 == 0 && start >= 16 && start + total < WORD
    requires total % 16 == 0 && total >= HEADER_SIZE && Mapped(mem, start, total)
    ensures var bs := [Block(total - HEADER_SIZE, true)];
            var mem' := PutHeader(mem, start, bs[0], 0);
            Mapped(mem', start, total) && Ok(bs, total) && Layout(mem', start, bs)
  {
    hide Mapped, StateWord, Ok, Layout, Header;
    var bs := [Block(total - HEADER_SIZE, true)];
    var mem' := PutHeader(mem, start, bs[0], 0);
    Sixteen(total);
    EightOf(start);
    InHeap(mem, start, total, start);
    StillMapped(mem, mem', start, total);
    OneBlockOk(total - HEADER_SIZE);
    PutIsHeader(mem, start, bs[0], 0);
    OneBlockLayout(mem', start, bs[0]);
  }

  lemma HeadHere(mem: Memory, start: nat, bs: seq<Block>)
    requires bs != [] && Layout(mem, start, bs)
    ensures Offset(bs, 0) == 0
  {
  }

  class KernelHeap {
    var mem: Memory
    /** heap_head and heap_total. */
    const start: nat
    const total: nat
    ghost var bs: seq<Block>

    ghost predicate Valid()
      reads this
    {
      && start % 16 == 0 && start >= 16 && start + total < WORD
      && Mapped(mem, start, total)
      && Ok(bs, total) && Layout(mem, start, bs)
    }

    /** heap_init. */
    constructor (start: nat, total: nat, mem: Memory)
      requires start % 16 == 0 && start >= 16 && start + total < WORD
      requires total % 16 == 0 && total >= HEADER_SIZE
      requires Mapped(mem, start, total)
      ensures Valid() && bs == [Block(total - HEADER_SIZE, true)]
      ensures this.start == start && this.total == total
    {
      hide Mapped, Layout, Ok, PutHeader;
      this.start, this.total := start, total;
      this.mem := PutHeader(mem, start, Block(total - HEADER_SIZE, true), 0);
      bs := [Block(total - HEADER_SIZE, true)];
      FirstBlock(mem, start, total);
    }

    /** What kmalloc promises. */
    twostate predicate Allocated(n: nat, r: nat)
      reads this
    {
      var i := FirstFit(old(bs), n, 0);
      if i == |old(bs)| then r == 0 && mem == old(mem) && bs == old(bs)
      else
        && r == start + Offset(old(bs), i) + HEADER_SIZE && bs == Alloc(old(bs), i, n)
        && SamePayloads(old(mem), mem, Live(start, old(bs)))
    }

    /** The header words of a block. */
    method WriteHeader(a: nat, size: nat, free: bool, next: nat)
      modifies this`mem
      ensures mem == PutHeader(old(mem), a, Block(size, free), next)
    {
      mem := mem[a := size];
      mem := mem[a + 8 := StateWord(free)];
      mem := mem[a + 16 := next];
    }

    /** Split if the rest is big enough, and mark the block used. */
    method CarveBlock(cur: nat, n: nat, ghost k: nat)
      requires Valid() && k < |bs| && Fits(bs[k], n) && cur == start + Offset(bs, k) && n % 16 == 0
      modifies this
      ensures Valid() && bs == Alloc(old(bs), k, n) && SamePayloads(old(mem), mem, Live(start, old(bs)))
    {
      hide Layout, Ok, Offset, SamePayloads, Live, Alloc, StateWord, Mapped, PutHeader;
      ghost var m, next := mem, NextPtr(start, bs, k);
      CarveWorks(mem, start, total, bs, k, n);
      var size, after := mem[cur], mem[cur + 16];
      if size >= n + MIN_SPLIT {
        var nb := cur + HEADER_SIZE + n;
        WriteHeader(nb, size - n - HEADER_SIZE, true, after);
        WriteHeader(cur, n, false, nb);
      } else {
        WriteHeader(cur, size, false, after);
      }
      assert mem == CarveWrites(m, cur, bs[k], next, n);
      bs := Alloc(bs, k, n);
    }

    /** kmalloc: first fit, and a split when the rest is worth a block. */
    method Kmalloc(size: nat) returns (r: nat)
      requires Valid() && size < WORD
      modifies this
      ensures Valid()
      ensures if size == 0 then r == 0 && mem == old(mem) && bs == old(bs) else Allocated(Round16(size), r)
      ensures size != 0 && r == 0 ==> NoneGrants(old(bs), Round16(size)) && bs == old(bs)
      ensures size != 0 && r != 0 ==>
                exists i: nat :: Grants(old(bs), i, Round16(size), bs) && r == start + Offset(old(bs), i) + 32
    {
      if size == 0 { return 0; }
      var n := Round16(size);
      AllocGrants(bs, n);
      RoundCoversIff(size);
      hide Layout, Ok, Offset, Round16, Mapped;
      var cur := start;
      ghost var k := 0;
      HeadHere(mem, start, bs);
      while cur != 0
        invariant Valid() && mem == old(mem) && bs == old(bs) && k <= |bs|
        invariant cur == if k < |bs| then start + Offset(bs, k) else 0
        invariant FirstFit(bs, n, k) == FirstFit(bs, n, 0)
        decreases |bs| - k
      {
        HeaderHere(mem, start, bs, k);
        if FreeOf(mem[cur + 8]) != 0 && MagicOf(mem[cur + 8]) == HEAP_MAGIC && mem[cur] >= n {
          CarveBlock(cur, n, k);
          return cur + HEADER_SIZE;
        }
        cur := mem[cur + 16];
        k := k + 1;
      }
      return 0;
    }

    /** Two requests on a fresh heap: their payloads lie one behind the other, a header apart. */
    method TwoRequests(a: nat, b: nat) returns (p: nat, q: nat)
      requires Valid() && total >= 32 && bs == [Block(total - 32, true)] && 0 < a <= MAX_REQUEST && 0 < b <= MAX_REQUEST
      requires Round16(a) + Round16(b) + 64 <= total
      modifies this
      ensures Valid() && p == start + 32 && q == start + Round16(a) + 64
    {
      hide Layout, Mapped, Allocated, Round16, Grants, NoneGrants, Offset, Span, Ok;
      RoundCoversIff(a);
      RoundCoversIff(b);
      ghost var ns := [Round16(a), Round16(b)];
      ghost var b0 := bs;
      assert Needs(ns, 1) == Round16(a) + 32 && Needs(ns, 2) == Round16(a) + 32 + Round16(b) + 32;
      p := Kmalloc(a);
      ghost var b1 := bs;
      q := Kmalloc(b);
      ghost var bss := [b0, b1, bs];
      assert Requested(bss, ns, 0) && Requested(bss, ns, 1);
      RequestsSucceed(bss, ns, total, 0);
      RequestsSucceed(bss, ns, total, 1);
      GrantUnique(b0, ns[0]);
      GrantUnique(b1, ns[1]);
    }

    /** cur absorbs the block after it. */
    method MergeNext(cur: nat, next: nat, ghost bs0: seq<Block>, ghost k: nat)
      requires Mapped(mem, start, total) && Layout(mem, start, bs) && Progress(bs0, bs, k)
      requires k + 1 < |bs| && bs[k].free && bs[k + 1].free
      requires cur == start + Offset(bs, k) && next == start + Offset(bs, k + 1)
      requires start % 16 == 0 && Rounded(bs)
      modifies this
      ensures Mapped(mem, start, total) && Layout(mem, start, bs) && Progress(bs0, bs, k)
      ensures |bs| == |old(bs)| - 1 && cur == start + Offset(bs, k)
      ensures SamePayloads(old(mem), mem, Live(start, bs)) && Live(start, bs) == Live(start, old(bs))
      ensures Rounded(bs) && StatesKept(old(mem), mem)
    {
      hide Layout, Mapped, Offset, Live, SamePayloads, Coalesce, MergeAt, Span, Rounded, StatesKept;
      NextAligned(bs, start, k);
      MergeRounded(bs, k);
      HeaderHere(mem, start, bs, k);
      HeaderHere(mem, start, bs, k + 1);
      MergeWorks(mem, start, total, bs0, bs, k);
      ghost var m := MergeWrites(mem, start, bs, k);
      var size, after := mem[next], mem[next + 16];
      StatesSpared(mem, cur, mem[cur] + HEADER_SIZE + size, after);
      mem := mem[cur := mem[cur] + HEADER_SIZE + size][cur + 16 := after];
      assert mem == m;
      bs := MergeAt(bs, k);
    }

    /** The full left-to-right merging pass. */
    method CoalescePass()
      requires Mapped(mem, start, total) && Layout(mem, start, bs) && bs != [] && start > 0
      requires start % 16 == 0 && Rounded(bs)
      modifies this
      ensures Mapped(mem, start, total) && Layout(mem, start, bs) && bs == Coalesce(old(bs))
      ensures SamePayloads(old(mem), mem, Live(start, bs)) && StatesKept(old(mem), mem)
    {
      hide Layout, Mapped, Offset, Live, SamePayloads, Coalesce, MergeAt, Span, Rounded, StatesKept;
      StatesSame(mem);
      var cur := start;
      ghost var k := 0;
      PassStarts(start, bs, mem);
      HeaderHere(mem, start, bs, 0);
      while cur != 0 && mem[cur + 16] != 0
        invariant Mapped(mem, start, total) && Layout(mem, start, bs) && Progress(old(bs), bs, k)
        invariant Rounded(bs) && StatesKept(old(mem), mem)
        invariant cur == start + Offset(bs, k) && cur + 16 in mem
        invariant mem[cur + 16] == if k + 1 < |bs| then start + Offset(bs, k + 1) else 0
        invariant SamePayloads(old(mem), mem, Live(start, old(bs))) && Live(start, bs) == Live(start, old(bs))
        decreases |bs| - k
      {
        HeaderHere(mem, start, bs, k);
        HeaderHere(mem, start, bs, k + 1);
        var next := mem[cur + 16];
        if FreeOf(mem[cur + 8]) != 0 && FreeOf(mem[next + 8]) != 0 && MagicOf(mem[next + 8]) == HEAP_MAGIC {
          label before:
          MergeNext(cur, next, old(bs), k);
          SamePayloadsTrans(old(mem), old@before(mem), mem, Live(start, old(bs)));
          StatesTrans(old(mem), old@before(mem), mem);
        } else {
          PassSkips(old(bs), bs, k);
          cur := next;
          k := k + 1;
        }
        HeaderHere(mem, start, bs, k);
      }
      PassEnds(old(bs), bs, k);
    }

    ghost predicate IsLive(ptr: nat)
      reads this
    {
      exists size :: Extent(ptr, size) in Live(start, bs)
    }

    /** A pointer that kfree's two guards let through. */
    ghost predicate PassesGuards(ptr: nat)
      reads this
    {
      ptr >= HEADER_SIZE && ptr - 24 in mem && MagicOf(mem[ptr - 24]) == HEAP_MAGIC && FreeOf(mem[ptr - 24]) == 0
    }

    /** kfree would return at a guard: not a header, or one that says free, merged away or not. */
    ghost predicate Refused(ptr: nat)
      reads this
    {
      Guarded(mem, ptr)
    }

    /** kfree with its two guards, then the full merging pass.  Afterwards the pointer is refused, and every
        aligned pointer that was refused before still is: merging leaves the stale headers as they are. */
    method Kfree(ptr: nat)
      requires Valid()
      requires ptr != 0 ==> ptr >= HEADER_SIZE && ptr - 24 in mem
      requires PassesGuards(ptr) ==> IsLive(ptr)
      modifies this
      ensures Valid()
      ensures if ptr != 0 && old(PassesGuards(ptr))
              then var i := Find(start, old(bs), ptr);
                   i < |old(bs)| && bs == Release(old(bs), i) && SamePayloads(old(mem), mem, Live(start, bs))
              else mem == old(mem) && bs == old(bs)
      ensures ptr != 0 ==> Refused(ptr)
      ensures forall q: nat | q % 16 == 0 && old(Refused(q)) :: Refused(q)
    {
      hide Layout, Mapped, Offset, Live, SamePayloads, Coalesce, Ok, Span, Find, StateWord, StatesKept, Rounded;
      if ptr == 0 { return; }
      if MagicOf(mem[ptr - 24]) != HEAP_MAGIC { return; }
      if FreeOf(mem[ptr - 24]) != 0 { return; }
      assert PassesGuards(ptr) && IsLive(ptr);
      ghost var size :| Extent(ptr, size) in Live(start, bs);
      ghost var i, m := Find(start, bs, ptr), mem;
      FindsLive(start, bs, Extent(ptr, size));
      HeapRounded(bs, total);
      NextAligned(bs, start, i);
      ReleaseOk(bs, total, i);
      ReleaseLive(start, bs, i);
      MarkFreeLayout(mem, start, bs, i);
      StillMapped(mem, mem[ptr - 24 := StateWord(true)], start, total);
      mem := mem[ptr - 24 := StateWord(true)];
      bs := bs[i := Block(bs[i].size, true)];
      ghost var m1 := mem;
      MarkRounded(old(bs), i);
      CoalescePass();
      StillRefused(m, m1, mem, ptr);
      SamePayloadsTrans(m, m1, mem, Live(start, bs));
    }

    /** A second kfree of a pointer, with no store in between, changes nothing. */
    method KfreeTwice(ptr: nat)
      requires Valid()
      requires ptr != 0 ==> ptr >= HEADER_SIZE && ptr - 24 in mem
      requires PassesGuards(ptr) ==> IsLive(ptr)
      modifies this
      ensures Valid()
      ensures if ptr != 0 && old(PassesGuards(ptr))
              then var i := Find(start, old(bs), ptr);
                   i < |old(bs)| && bs == Release(old(bs), i) && SamePayloads(old(mem), mem, Live(start, bs))
              else mem == old(mem) && bs == old(bs)
    {
      hide Layout, Mapped, Live, SamePayloads, Ok, Release, Find;
      Kfree(ptr);
      Kfree(ptr);
    }

    /** Any store into a live payload keeps the heap and every other payload. */
    method StoreWord(ghost ptr: nat, ghost size: nat, a: nat, v: nat)
      requires Valid() && Extent(ptr, size) in Live(start, bs) && ptr <= a < ptr + size && a in mem
      modifies this`mem
      ensures Valid() && mem == old(mem)[a := v]
      ensures SamePayloads(old(mem), mem, Live(start, bs) - {Extent(ptr, size)})
    {
      hide Layout, Mapped, Live, SamePayloads, Ok;
      PayloadWrite(mem, mem[a := v], start, bs, Extent(ptr, size));
      StillMapped(mem, mem[a := v], start, total);
      mem := mem[a := v];
    }

    method StoreBack(a: nat, raw: nat, ghost size: nat)
      requires Valid() && Extent(raw, size) in Live(start, bs) && raw <= a < raw + size && a % 8 == 0
      modifies this`mem
      ensures Valid() && a in mem && mem[a] == raw
      ensures SamePayloads(old(mem), mem, Live(start, bs) - {Extent(raw, size)})
    {
      LiveAbove(start, bs);
      assert a in mem;
      StoreWord(raw, size, a, raw);
    }

    /** The aligned address inside a raw block, with the raw pointer stored just below it. */
    method PlaceAligned(raw: nat, size: nat, align: nat, ghost blockSize: nat) returns (r: nat)
      requires Valid() && Extent(raw, blockSize) in Live(start, bs) && size + align + 8 <= blockSize
      requires align >= 8 && align % 8 == 0
      modifies this`mem
      ensures Valid()
      ensures Aligned(r, align) && raw + 8 <= r && r + size <= raw + blockSize && r - 8 in mem && mem[r - 8] == raw
      ensures SamePayloads(old(mem), mem, Live(start, bs) - {Extent(raw, blockSize)})
    {
      hide AlignDown, Aligned, Layout, Mapped, Live, SamePayloads, Ok;
      AlignBounds(raw + 8 + align - 1, align);
      r := AlignDown(raw + 8 + align - 1, align);
      StoreBack(r - 8, raw, blockSize);
    }

    /** Where an aligned block lies: its payload and the stored back pointer are inside the raw
        block, and nothing else changed. */
    twostate predicate AlignedBlock(size: nat, align: nat, r: nat)
      reads this
    {
      var n := Round16(size + align + 8);
      var i := FirstFit(old(bs), n, 0);
      if i == |old(bs)| then r == 0 && mem == old(mem) && bs == old(bs)
      else
        var raw := start + Offset(old(bs), i) + HEADER_SIZE;
        && bs == Alloc(old(bs), i, n) && i < |bs|
        && align > 0 && Aligned(r, align) && raw + 8 <= r && r + size <= raw + bs[i].size
        && r - 8 in mem && mem[r - 8] == raw && Extent(raw, bs[i].size) in Live(start, bs)
        && SamePayloads(old(mem), mem, Live(start, old(bs)))
    }

    /** kmalloc_aligned.  The request must not be cut down by kmalloc's rounding. */
    method KmallocAligned(size: nat, alignment: nat) returns (r: nat)
      requires Valid() && size + Max(alignment, 8) + 8 <= MAX_REQUEST
      modifies this
      ensures Valid()
      ensures if !IsPow2(alignment) then r == 0 && mem == old(mem) && bs == old(bs)
              else AlignedBlock(size, Max(alignment, 8), r)
    {
      hide Layout, Mapped, Offset, Live, SamePayloads, Ok, Alloc, Round16, IsPow2, Span, AlignDown, Aligned;
      if !IsPow2(alignment) { return 0; }
      var align := if alignment < 8 then 8 else alignment;
      if alignment >= 8 { PowerOfEight(alignment); }
      var raw := Kmalloc(size + align + 8);
      if raw == 0 { return 0; }
      ghost var n, m := Round16(size + align + 8), mem;
      ghost var i := FirstFit(old(bs), n, 0);
      AllocParts(old(bs), i, n);
      AllocLive(start, old(bs), i, n);
      LiveFits(start, total, bs, Extent(raw, bs[i].size));
      RoundCoversIff(size + align + 8);
      r := PlaceAligned(raw, size, align, bs[i].size);
      BackStoreSpares(old(mem), m, mem, Live(start, old(bs)), Live(start, bs), Extent(raw, bs[i].size));
    }

    /** kfree_aligned follows the stored back pointer. */
    method KfreeAligned(ptr: nat)
      requires Valid()
      requires ptr != 0 ==> ptr >= 8 && ptr - 8 in mem
      requires ptr != 0 ==> mem[ptr - 8] >= HEADER_SIZE && mem[ptr - 8] - 24 in mem
      requires ptr != 0 && PassesGuards(mem[ptr - 8]) ==> IsLive(mem[ptr - 8])
      modifies this
      ensures Valid()
      ensures if ptr != 0 && old(PassesGuards(mem[ptr - 8]))
              then var i := Find(start, old(bs), old(mem[ptr - 8]));
                   i < |old(bs)| && bs == Release(old(bs), i) && SamePayloads(old(mem), mem, Live(start, bs))
              else mem == old(mem) && bs == old(bs)
    {
      if ptr == 0 { return; }
      Kfree(mem[ptr - 8]);
    }

    /** kmemcpy of a whole payload, one word at a time, into another live payload. */
    method CopyPayload(dst: nat, src: nat, n: nat, ghost to: Extent, ghost from: Extent)
      requires Valid() && to in Live(start, bs) && from in Live(start, bs) && to != from
      requires to.addr == dst && from.addr == src && from.size == n <= to.size && n % 8 == 0
      modifies this`mem
      ensures Valid() && Copied(old(mem), src, mem, dst, n)
      ensures SamePayloads(old(mem), mem, Live(start, bs) - {to})
    {
      hide Layout, Mapped, Live, SamePayloads, Ok, Copied, OnlyWithin;
      ghost var m0 := mem;
      LiveDisjoint(start, bs, from, to);
      CopiedNone(m0, src, mem, dst);
      WithinNone(m0, dst, dst + n);
      var i := 0;
      while i < n
        invariant i <= n && i % 8 == 0
        invariant OnlyWithin(m0, mem, dst, dst + n) && Copied(m0, src, mem, dst, i)
      {
        WordOfPayload(m0, start, total, bs, from, i);
        WordOfPayload(m0, start, total, bs, to, i);
        WithinStep(m0, mem, dst, dst + n, src + i, dst + i);
        CopyStep(m0, mem, src, dst, i);
        mem := mem[dst + i := mem[src + i]];
        i := i + 8;
      }
      WithinGrows(m0, mem, dst, dst + n, dst + to.size);
      PayloadWrite(m0, mem, start, bs, to);
      StillMapped(m0, mem, start, total);
    }

    /** The block moved: all its words are at the new place, the old block is free again, and no
        other live payload changed. */
    twostate predicate MovedTo(ptr: nat, r: nat, i: nat, j: nat, n: nat)
      requires i < |old(bs)| && j < |old(bs)| && Fits(old(bs)[i], n)
      reads this
    {
      var bs1 := Alloc(old(bs), i, n);
      var f := Find(start, bs1, ptr);
      && r == start + Offset(old(bs), i) + HEADER_SIZE
      && f < |bs1| && bs == Release(bs1, f)
      && Copied(old(mem), ptr, mem, r, old(bs)[j].size)
      && SamePayloads(old(mem), mem, Live(start, old(bs)) - {Extent(ptr, old(bs)[j].size)})
    }

    /** What krealloc does with a nonzero size and a pointer that is not null. */
    twostate predicate Reallocated(ptr: nat, size: nat, r: nat)
      requires ptr >= HEADER_SIZE && ptr - 24 in old(mem)
      reads this
    {
      var j, n := Find(start, old(bs), ptr), Round16(size);
      var i := FirstFit(old(bs), n, 0);
      if MagicOf(old(mem)[ptr - 24]) != HEAP_MAGIC then r == 0 && mem == old(mem) && bs == old(bs)
      else
        && j < |old(bs)|
        && if size <= old(bs)[j].size then r == ptr && mem == old(mem) && bs == old(bs)
           else if i == |old(bs)| then r == 0 && mem == old(mem) && bs == old(bs)
           else MovedTo(ptr, r, i, j, n)
    }

    /** The end of krealloc: copy, then free the old block. */
    method MoveAndFree(ptr: nat, r: nat, ghost n: nat, ghost e: Extent, ghost bs0: seq<Block>, ghost mem0: Memory,
                       ghost i: nat)
      requires Valid() && Ok(bs0, total) && e.addr == ptr && e in Live(start, bs0) && e.size <= n
      requires i < |bs0| && Fits(bs0[i], n) && bs == Alloc(bs0, i, n)
      requires r == start + Offset(bs0, i) + HEADER_SIZE
      requires SamePayloads(mem0, mem, Live(start, bs0))
      modifies this
      ensures Valid()
      ensures var f := Find(start, Alloc(bs0, i, n), ptr); f < |Alloc(bs0, i, n)| && bs == Release(Alloc(bs0, i, n), f)
      ensures Copied(mem0, ptr, mem, r, e.size)
      ensures SamePayloads(mem0, mem, Live(start, bs0) - {e})
    {
      hide Layout, Mapped, Offset, Live, SamePayloads, Ok, Alloc, Release, Span, Find, Copied, Header;
      NewHome(start, bs0, i, n, e);
      ghost var to, bs1, m1 := Extent(r, Alloc(bs0, i, n)[i].size), bs, mem;
      LiveHeader(mem, start, total, bs, e);
      CopyPayload(r, ptr, mem[ptr - HEADER_SIZE], to, e);
      ghost var m2 := mem;
      LiveHeader(mem, start, total, bs, e);
      FindsLive(start, bs, e);
      ReleaseLive(start, bs, Find(start, bs, ptr));
      Kfree(ptr);
      MoveSpares(mem0, m1, m2, mem, start, total, bs1, Live(start, bs0), to, e);
    }

    /** krealloc: in place, moved, or failed with the old block kept. */
    method Krealloc(ptr: nat, size: nat) returns (r: nat)
      requires Valid() && size <= MAX_REQUEST
      requires ptr != 0 ==> ptr >= HEADER_SIZE && ptr - 24 in mem
      requires ptr != 0 && MagicOf(mem[ptr - 24]) == HEAP_MAGIC ==> IsLive(ptr)
      modifies this
      ensures Valid()
      ensures ptr == 0 ==> if size == 0 then r == 0 && mem == old(mem) && bs == old(bs) else Allocated(Round16(size), r)
      ensures ptr != 0 && size == 0 && old(PassesGuards(ptr)) ==>
                r == 0 && var i := Find(start, old(bs), ptr);
                i < |old(bs)| && bs == Release(old(bs), i) && SamePayloads(old(mem), mem, Live(start, bs))
      ensures ptr != 0 && size == 0 && !old(PassesGuards(ptr)) ==> r == 0 && mem == old(mem) && bs == old(bs)
      ensures ptr != 0 && size != 0 ==> Reallocated(ptr, size, r)
    {
      hide Layout, Mapped, Offset, Live, SamePayloads, Ok, Alloc, Release, Round16, Span, Find, Copied;
      if ptr == 0 { r := Kmalloc(size); return; }
      if size == 0 { Kfree(ptr); return 0; }
      if MagicOf(mem[ptr - 24]) != HEAP_MAGIC { return 0; }
      ghost var have :| Extent(ptr, have) in Live(start, bs);
      FindsLive(start, bs, Extent(ptr, have));
      HeaderHere(mem, start, bs, Find(start, bs, ptr));
      if size <= mem[ptr - HEADER_SIZE] { return ptr; }
      r := Kmalloc(size);
      if r == 0 { return; }
      RoundCoversIff(size);
      MoveAndFree(ptr, r, Round16(size), Extent(ptr, have), old(bs), old(mem), FirstFit(old(bs), Round16(size), 0));
    }
  }
}
