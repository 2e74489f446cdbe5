/** Physical frames (kernel/pmm.c): a byte bitmap, one bit per 4 KB frame, refining a set
    of free frames.  A set bit means "used". */
module Pmm {
  import opened Arith

  const PAGE_SIZE: nat := 4096
  const MAX_FRAMES: nat := 1048576
  const ALLOC_FAIL: nat := 0xFFFF_FFFF_FFFF_FFFF

  // ----- Bits of one byte -----

  /** 1u << k, spelled out. */
  function Mask(k: nat): bv8
    requires k < 8
  {
    if k == 0 then 1 else if k == 1 then 2 else if k == 2 then 4 else if k == 3 then 8
    else if k == 4 then 16 else if k == 5 then 32 else if k == 6 then 64 else 128
  }

  predicate Bit(b: bv8, k: nat)
    requires k < 8
  {
    b & Mask(k) != 0
  }

  function SetBit(b: bv8, k: nat): bv8
    requires k < 8
  {
    b | Mask(k)
  }

  function ClearBit(b: bv8, k: nat): bv8
    requires k < 8
  {
    b & !Mask(k)
  }

  /** The masks are the shifts of the original, and its test "shift right, keep bit 0" is Bit. */
  lemma MasksAreShifts(b: bv8)
    ensures Mask(0) == 1 << 0 && Mask(1) == 1 << 1 && Mask(2) == 1 << 2 && Mask(3) == 1 << 3
    ensures Mask(4) == 1 << 4 && Mask(5) == 1 << 5 && Mask(6) == 1 << 6 && Mask(7) == 1 << 7
    ensures Bit(b, 0) == (b & 1 == 1) && Bit(b, 1) == ((b >> 1) & 1 == 1)
    ensures Bit(b, 2) == ((b >> 2) & 1 == 1) && Bit(b, 3) == ((b >> 3) & 1 == 1)
    ensures Bit(b, 4) == ((b >> 4) & 1 == 1) && Bit(b, 5) == ((b >> 5) & 1 == 1)
    ensures Bit(b, 6) == ((b >> 6) & 1 == 1) && Bit(b, 7) == ((b >> 7) & 1 == 1)
  {
  }

  /** Setting bit k sets bit k and leaves every other bit. */
  lemma SetBitAt(b: bv8, k: nat, j: nat)
    requires k < 8 && j < 8
    ensures Bit(SetBit(b, k), j) == (j == k || Bit(b, j))
  {
  }

  /** Clearing bit k clears bit k and leaves every other bit. */
  lemma ClearBitAt(b: bv8, k: nat, j: nat)
    requires k < 8 && j < 8
    ensures Bit(ClearBit(b, k), j) == (j != k && Bit(b, j))
  {
  }

  // ----- Sets of frames -----

  predicate Within(f: nat, lo: nat, hi: nat) { lo <= f < hi }

  ghost function Frames(lo: nat, hi: nat): (s: set<nat>)
    ensures forall f :: f in s <==> lo <= f < hi
  {
    set f: nat | f < hi && Within(f, lo, hi)
  }

  lemma FramesExtend(lo: nat, hi: nat)
    requires lo <= hi
    ensures Frames(lo, hi + 1) == Frames(lo, hi) + {hi}
  {
  }

  /** How many of the first n frames are in s: the number of clear bits. */
  ghost function Clear(s: set<nat>, n: nat): (c: nat)
    ensures c <= n
  {
    if n == 0 then 0 else Clear(s, n - 1) + if n - 1 in s then 1 else 0
  }

  lemma {:induction false} ClearPut(s: set<nat>, f: nat, n: nat)
    requires f !in s
    ensures Clear(s + {f}, n) == Clear(s, n) + if f < n then 1 else 0
  {
    if n > 0 { ClearPut(s, f, n - 1); }
  }

  /** Inclusion and exclusion. */
  lemma {:induction false} ClearUnion(a: set<nat>, b: set<nat>, n: nat)
    ensures Clear(a + b, n) + Clear(a * b, n) == Clear(a, n) + Clear(b, n)
  {
    if n > 0 { ClearUnion(a, b, n - 1); }
  }

  lemma {:induction false} ClearFrames(lo: nat, hi: nat, n: nat)
    requires lo <= hi
    ensures Clear(Frames(lo, hi), n) == if n <= lo then 0 else if n <= hi then n - lo else hi - lo
  {
    if n > 0 { ClearFrames(lo, hi, n - 1); }
  }

  lemma {:induction false} ClearZero(s: set<nat>, n: nat)
    ensures Clear(s, n) == 0 <==> forall f | f in s :: f >= n
  {
    if n > 0 { ClearZero(s, n - 1); }
  }

  // ----- The abstract allocator -----

  /** What callers can observe: which frames are free, and where scanning stops. */
  datatype View = View(free: set<nat>, total: nat)

  ghost predicate FreeRun(v: View, start: nat, n: nat)
  {
    1 <= start && start + n <= v.total && Frames(start, start + n) <= v.free
  }

  /** `start` is the answer of an allocation of n frames: the lowest-addressed free run. */
  ghost predicate LowestRun(v: View, start: nat, n: nat)
  {
    FreeRun(v, start, n) && forall s | 1 <= s < start :: !FreeRun(v, s, n)
  }

  ghost predicate NoRun(v: View, n: nat)
  {
    forall s | 1 <= s :: !FreeRun(v, s, n)
  }

  /** How many frames the allocator can still hand out: the free ones in [1, total). */
  ghost function Usable(v: View): nat { Clear(v.free - {0}, v.total) }

  lemma OneFrame(v: View, f: nat)
    requires 1 <= f
    ensures FreeRun(v, f, 1) <==> f < v.total && f in v.free
  {
    if f in v.free { assert Frames(f, f + 1) == {f}; }
    assert f in Frames(f, f + 1);
  }

  /** No single frame can be handed out exactly when none is usable. */
  lemma UsableNone(v: View)
    ensures NoRun(v, 1) <==> Usable(v) == 0
    ensures v.total == 0 ==> Usable(v) == 0
  {
    hide FreeRun;
    ClearZero(v.free - {0}, v.total);
    forall f: nat | 1 <= f ensures FreeRun(v, f, 1) <==> f < v.total && f in v.free { OneFrame(v, f); }
    if Usable(v) == 0 {
      forall f: nat | 1 <= f ensures !FreeRun(v, f, 1) { assert f in v.free ==> f in v.free - {0}; }
    }
    if NoRun(v, 1) {
      forall f | f in v.free - {0} ensures f >= v.total { assert !FreeRun(v, f, 1); }
    }
  }

  /** Handing out a frame leaves one fewer. */
  lemma UsableTaken(v: View, v': View, f: nat)
    requires FreeRun(v, f, 1) && v'.total == v.total && v'.free == v.free - {f}
    ensures Usable(v) == Usable(v') + 1
  {
    OneFrame(v, f);
    assert v.free - {0} == (v'.free - {0}) + {f};
    ClearPut(v'.free - {0}, f, v.total);
  }

  datatype Op =
    | Alloc(n: nat)
    | FreePage(addr: nat)
    | MarkUsed(addr: nat, n: nat)
    | MarkFree(addr: nat, n: nat)

  /** The frames an operation puts back into the free set. */
  ghost function Released(v: View, op: Op): set<nat>
  {
    match op
    case Alloc(_) => {}
    case FreePage(addr) =>
      if addr != ALLOC_FAIL && addr / PAGE_SIZE < v.total then {addr / PAGE_SIZE} else {}
    case MarkUsed(_, _) => {}
    case MarkFree(addr, n) =>
      Frames(addr / PAGE_SIZE, Min(addr / PAGE_SIZE + n, MAX_FRAMES))
  }

  /** One step of the allocator; `out` is the set of frames handed to the caller. */
  ghost predicate Step(v: View, op: Op, out: set<nat>, v': View)
  {
    && v'.total == v.total
    && match op
       case Alloc(n) =>
         if n == 0 || NoRun(v, n)
         then out == {} && v' == v
         else exists start: nat :: LowestRun(v, start, n) && out == Frames(start, start + n) && v'.free == v.free - out
       case FreePage(_) => out == {} && v'.free == v.free + Released(v, op)
       case MarkFree(_, _) => out == {} && v'.free == v.free + Released(v, op)
       case MarkUsed(addr, n) =>
         out == {} && v'.free == v.free - Frames(addr / PAGE_SIZE, addr / PAGE_SIZE + n)
  }

  /** The frames behind an allocation's return value. */
  ghost function Handed(addr: nat, n: nat): set<nat>
  {
    if addr == ALLOC_FAIL then {} else Frames(addr / PAGE_SIZE, addr / PAGE_SIZE + n)
  }

  ghost predicate IsRun(vs: seq<View>, ops: seq<Op>, outs: seq<set<nat>>)
  {
    && |vs| == |ops| + 1 && |outs| == |ops|
    && forall i | 0 <= i < |ops| :: Step(vs[i], ops[i], outs[i], vs[i + 1])
  }

  /** Along every run, a frame that has left the free set stays out until it is released. */
  lemma {:induction false} StaysOut(vs: seq<View>, ops: seq<Op>, outs: seq<set<nat>>, f: nat, i: nat, j: nat)
    requires IsRun(vs, ops, outs)
    requires i <= j <= |ops| && f !in vs[i].free
    requires forall k | i <= k < j :: f !in Released(vs[k], ops[k])
    ensures f !in vs[j].free
    decreases j
  {
    if i < j {
      StaysOut(vs, ops, outs, f, i, j - 1);
      assert Step(vs[j - 1], ops[j - 1], outs[j - 1], vs[j - 1 + 1]);
    }
  }

  /** No frame is handed out twice without a release in between, in any run. */
  lemma NoDoubleHandout(vs: seq<View>, ops: seq<Op>, outs: seq<set<nat>>, f: nat, i: nat, j: nat)
    requires IsRun(vs, ops, outs)
    requires i < j < |ops| && f in outs[i] && f in outs[j]
    ensures exists k :: i < k < j && f in Released(vs[k], ops[k])
  {
    assert Step(vs[i], ops[i], outs[i], vs[i + 1]);
    assert Step(vs[j], ops[j], outs[j], vs[j + 1]);
    if forall k | i + 1 <= k < j :: f !in Released(vs[k], ops[k]) {
      StaysOut(vs, ops, outs, f, i + 1, j);
    }
  }

  // ----- The memory map handed over by the boot loader -----

  /** One entry of a Multiboot2 memory-map tag (section 3.6.8 of the Multiboot2 specification). */
  datatype MmapEntry = MmapEntry(base: nat, length: nat, kind: nat) {
    predicate Fits() { base + length < WORD && base + PAGE_SIZE - 1 < WORD }
    function First(): nat { (base + PAGE_SIZE - 1) / PAGE_SIZE }
    function End(): nat { Min((base + length) / PAGE_SIZE, MAX_FRAMES) }
    predicate Usable() { kind == 1 && First() < End() }
    ghost function Cover(): (s: set<nat>)
      ensures forall f :: f in s <==> Usable() && First() <= f < End()
    {
      if Usable() then Frames(First(), End()) else {}
    }
    function Count(): nat { if Usable() then End() - First() else 0 }
  }

  ghost function Covered(es: seq<MmapEntry>): (s: set<nat>)
    ensures forall f :: f in s ==> f < MAX_FRAMES
  {
    if |es| == 0 then {} else Covered(es[..|es| - 1]) + es[|es| - 1].Cover()
  }

  ghost function Counted(es: seq<MmapEntry>): nat
  {
    if |es| == 0 then 0 else Counted(es[..|es| - 1]) + es[|es| - 1].Count()
  }

  ghost function LastEnd(es: seq<MmapEntry>): nat
  {
    if |es| == 0 then 0
    else
      var m := LastEnd(es[..|es| - 1]);
      if es[|es| - 1].Usable() then Max(m, es[|es| - 1].End()) else m
  }

  ghost predicate Disjoint(es: seq<MmapEntry>)
  {
    forall i, j | 0 <= i < j < |es| :: es[i].Cover() !! es[j].Cover()
  }

  /** A usable entry covers the frames below 4 GB that lie in it as a whole. */
  lemma WholeFrames(e: MmapEntry, f: nat)
    ensures f in e.Cover() <==>
            e.kind == 1 && e.base <= f * 4096 && f * 4096 + 4096 <= e.base + e.length && f < 1048576
  {
  }

  /** The memory map is covered by its usable entries, and the scan limit is one past the highest frame. */
  lemma {:induction false} CoveredIff(es: seq<MmapEntry>, f: nat)
    ensures f in Covered(es) <==> exists i :: 0 <= i < |es| && f in es[i].Cover()
    ensures f in Covered(es) ==> f < LastEnd(es)
    ensures LastEnd(es) > 0 ==> LastEnd(es) - 1 in Covered(es)
  {
    if es != [] {
      var n := |es| - 1;
      CoveredIff(es[..n], f);
      if LastEnd(es) > 0 { CoveredIff(es[..n], LastEnd(es) - 1); }
      assert forall i | 0 <= i < n :: es[..n][i] == es[i];
    }
  }

  lemma {:induction false} CoveredHas(es: seq<MmapEntry>, i: nat)
    requires i < |es|
    ensures es[i].Cover() <= Covered(es)
  {
    if i < |es| - 1 { CoveredHas(es[..|es| - 1], i); }
  }

  lemma {:induction false} CoveredBy(es: seq<MmapEntry>, f: nat) returns (i: nat)
    requires f in Covered(es)
    ensures i < |es| && f in es[i].Cover()
  {
    if f in es[|es| - 1].Cover() { i := |es| - 1; } else { i := CoveredBy(es[..|es| - 1], f); }
  }

  lemma DisjointStep(es: seq<MmapEntry>)
    requires |es| > 0
    ensures Disjoint(es) <==> Disjoint(es[..|es| - 1]) && Covered(es[..|es| - 1]) * es[|es| - 1].Cover() == {}
  {
    var init, e := es[..|es| - 1], es[|es| - 1];
    if Disjoint(es) {
      assert Disjoint(init) by {
        forall i, j | 0 <= i < j < |init| ensures init[i].Cover() !! init[j].Cover() {
          assert es[i].Cover() !! es[j].Cover();
        }
      }
      if f :| f in Covered(init) * e.Cover() {
        var i := CoveredBy(init, f);
        assert false;
      }
    } else {
      var i, j :| 0 <= i < j < |es| && !(es[i].Cover() !! es[j].Cover());
      if j < |es| - 1 {
        assert !(init[i].Cover() !! init[j].Cover());
      } else {
        var f :| f in es[i].Cover() && f in e.Cover();
        CoveredHas(init, i);
        assert f in Covered(init) * e.Cover();
      }
    }
  }

  /** The boot loop counts every covered frame once per covering range, so it counts right
      exactly when no frame is covered twice. */
  lemma {:induction false} CountExactIffDisjoint(es: seq<MmapEntry>)
    ensures Counted(es) >= Clear(Covered(es), MAX_FRAMES)
    ensures Counted(es) == Clear(Covered(es), MAX_FRAMES) <==> Disjoint(es)
  {
    if |es| == 0 {
      ClearZero({}, MAX_FRAMES);
    } else {
      var init, e := es[..|es| - 1], es[|es| - 1];
      var both := Covered(init) * e.Cover();
      CountExactIffDisjoint(init);
      if e.Usable() { ClearFrames(e.First(), e.End(), MAX_FRAMES); } else { ClearZero({}, MAX_FRAMES); }
      ClearUnion(Covered(init), e.Cover(), MAX_FRAMES);
      ClearZero(both, MAX_FRAMES);
      assert both == {} <==> Clear(both, MAX_FRAMES) == 0;
      DisjointStep(es);
    }
  }

  /** It happens: a range of 16 MB reported twice is counted twice. */
  lemma CountedTwice()
    ensures var e := MmapEntry(0x10_0000, 0x100_0000, 1);
            && e.Fits() && Counted([e, e]) == 8192 && Clear(Covered([e, e]), MAX_FRAMES) == 4096
  {
    hide Clear, Frames;
    var e := MmapEntry(0x10_0000, 0x100_0000, 1);
    assert e.First() == 256 && e.End() == 4352;
    assert [e, e][..1] == [e] && [e][..0] == [];
    assert Counted([e]) == 4096 && Covered([e]) == {} + e.Cover();
    assert Covered([e, e]) == Frames(256, 4352);
    ClearFrames(256, 4352, MAX_FRAMES);
  }

  // ----- The 64-bit counter -----

  function Up(n: nat): nat { (n + 1) % WORD }

  function Down(n: nat): nat { (n + WORD - 1) % WORD }

  lemma CountUp(n: int)
    ensures Up(n % WORD) == (n + 1) % WORD
  {
  }

  lemma CountDown(n: int)
    ensures Down(n % WORD) == (n - 1) % WORD
  {
  }

  lemma ZeroByte(k: nat)
    requires k < 8
    ensures !Bit(0, k)
  {
  }

  lemma FullByte(k: nat)
    requires k < 8
    ensures Bit(0xFF, k)
  {
  }

  // ----- The bitmap itself -----

  class FrameBitmap {
    const bitmap: array<bv8>
    var totalFrames: nat
    var freeFrames: nat
    /** The free set the bitmap represents. */
    ghost var Free: set<nat>
    /** The fixed error of the counter: how many frames the boot loop counted more than once,
        and minus MAX_FRAMES before that loop has run. */
    ghost var Excess: int

    predicate Used(f: nat)
      requires f < MAX_FRAMES && bitmap.Length == MAX_FRAMES / 8
      reads bitmap
    {
      Bit(bitmap[f / 8], f % 8)
    }

    ghost predicate Valid()
      reads this, bitmap
    {
      && bitmap.Length == MAX_FRAMES / 8
      && totalFrames <= MAX_FRAMES
      && (forall f | f in Free :: f < MAX_FRAMES)
      && (forall f: nat {:trigger Used(f)} | f < MAX_FRAMES :: f in Free <==> !Used(f))
      && freeFrames == (Clear(Free, MAX_FRAMES) + Excess) % WORD
    }

    ghost function Abs(): View
      reads this
    {
      View(Free, totalFrames)
    }

    /** Before pmm_init: the bitmap is zero BSS and nothing is scanned. */
    constructor ()
      ensures fresh(bitmap) && bitmap.Length == 131072
      ensures Valid() && totalFrames == 0 && freeFrames == 0
      ensures Free == Frames(0, 1048576) && Excess == -1048576
    {
      bitmap := new bv8[MAX_FRAMES / 8](_ => 0);
      totalFrames, freeFrames, Free, Excess := 0, 0, Frames(0, MAX_FRAMES), -(MAX_FRAMES as int);
      new;
      ClearFrames(0, MAX_FRAMES, MAX_FRAMES);
      forall f: nat | f < MAX_FRAMES ensures !Used(f) { ZeroByte(f % 8); }
    }

    /** free_frames equals the number of free frames exactly when it carries no excess; where the excess
        takes it below zero it wraps. */
    lemma CounterIff()
      requires Valid()
      ensures freeFrames == Clear(Free, MAX_FRAMES) <==> Excess % WORD == 0
      ensures -(MAX_FRAMES as int) <= Clear(Free, MAX_FRAMES) + Excess < 0 ==>
                freeFrames == WORD + Clear(Free, MAX_FRAMES) + Excess
    {
      hide Clear;
    }

    /** bm_test. */
    method Test(f: nat) returns (used: bool)
      requires Valid() && f < MAX_FRAMES
      ensures used <==> f !in Free
    {
      used := Used(f);
    }

    /** bm_set together with the decrement of the counter. */
    method Take(f: nat)
      requires Valid() && f in Free
      modifies this`Free, this`freeFrames, bitmap
      ensures Valid() && Free == old(Free) - {f}
    {
      hide Bit, SetBit, Clear, Down;
      var i := f / 8;
      var before := bitmap[..];
      bitmap[i] := SetBit(bitmap[i], f % 8);
      ClearPut(Free - {f}, f, MAX_FRAMES);
      CountDown(Clear(Free, MAX_FRAMES) + Excess);
      assert Free - {f} + {f} == Free;
      Free, freeFrames := Free - {f}, Down(freeFrames);
      forall g: nat | g < MAX_FRAMES ensures g in Free <==> !Used(g) {
        SetBitAt(before[i], f % 8, g % 8);
        assert old(Used(g)) == Bit(before[g / 8], g % 8);
      }
    }

    /** bm_clear together with the increment of the counter. */
    method Put(f: nat)
      requires Valid() && f < MAX_FRAMES
      modifies this`Free, this`freeFrames, this`Excess, bitmap
      ensures Valid() && Free == old(Free) + {f}
      ensures Excess == old(Excess) + if f in old(Free) then 1 else 0
      ensures Clear(Free, MAX_FRAMES) + Excess == old(Clear(Free, MAX_FRAMES) + Excess) + 1
    {
      hide Bit, ClearBit, Clear, Up;
      assert f in Free ==> Free + {f} == Free;
      var i := f / 8;
      var before := bitmap[..];
      bitmap[i] := ClearBit(bitmap[i], f % 8);
      CountUp(Clear(Free, MAX_FRAMES) + Excess);
      freeFrames := Up(freeFrames);
      if f in Free {
        Excess := Excess + 1;
        assert Free == old(Free) + {f};
      } else {
        ClearPut(Free, f, MAX_FRAMES);
        Free := Free + {f};
      }
      forall g: nat | g < MAX_FRAMES ensures g in Free <==> !Used(g) {
        ClearBitAt(before[i], f % 8, g % 8);
        assert old(Used(g)) == Bit(before[g / 8], g % 8);
      }
    }

    method ClearRange(first: nat, end: nat)
      requires Valid() && first <= end <= MAX_FRAMES
      modifies this`Free, this`freeFrames, this`Excess, bitmap
      ensures Valid() && Free == old(Free) + Frames(first, end)
      ensures Clear(Free, MAX_FRAMES) + Excess == old(Clear(Free, MAX_FRAMES) + Excess) + (end - first)
    {
      var f := first;
      while f < end
        invariant first <= f <= end && Valid()
        invariant Free == old(Free) + Frames(first, f)
        invariant Clear(Free, MAX_FRAMES) + Excess == old(Clear(Free, MAX_FRAMES) + Excess) + (f - first)
      {
        Put(f);
        f := f + 1;
      }
    }

    method ScanEntry(e: MmapEntry)
      requires Valid() && e.Fits()
      modifies this, bitmap
      ensures Valid() && Free == old(Free) + e.Cover()
      ensures Clear(Free, MAX_FRAMES) + Excess == old(Clear(Free, MAX_FRAMES) + Excess) + e.Count()
      ensures totalFrames == if e.Usable() then Max(old(totalFrames), e.End()) else old(totalFrames)
    {
      if e.Usable() {
        ClearRange(e.First(), e.End());
        if e.End() > totalFrames { totalFrames := e.End(); }
      }
    }

    /** Fill the bitmap with ones. */
    method AllUsed()
      requires bitmap.Length == MAX_FRAMES / 8
      modifies bitmap
      ensures forall f: nat | f < MAX_FRAMES :: Used(f)
    {
      for i := 0 to bitmap.Length
        invariant forall j | 0 <= j < i :: bitmap[j] == 0xFF
      {
        bitmap[i] := 0xFF;
      }
      forall f: nat | f < MAX_FRAMES ensures Used(f) {
        FullByte(f % 8);
        assert bitmap[f / 8] == 0xFF;
      }
    }

    /** The loop over the memory-map entries. */
    method ScanMap(es: seq<MmapEntry>)
      requires bitmap.Length == MAX_FRAMES / 8
      requires forall e | e in es :: e.Fits()
      modifies this, bitmap
      ensures Valid()
      ensures Free == Covered(es) && totalFrames == LastEnd(es)
      ensures Clear(Free, MAX_FRAMES) + Excess == Counted(es)
    {
      AllUsed();
      freeFrames, totalFrames, Free, Excess := 0, 0, {}, 0;
      ClearZero({}, MAX_FRAMES);
      var n := 0;
      while n < |es|
        invariant n <= |es|
        invariant Valid()
        invariant Free == Covered(es[..n]) && totalFrames == LastEnd(es[..n])
        invariant Clear(Free, MAX_FRAMES) + Excess == Counted(es[..n])
      {
        assert es[..n + 1][..n] == es[..n];
        ScanEntry(es[n]);
        n := n + 1;
      }
      assert es[..n] == es;
    }

    method TakeFrames(frame: nat, count: nat)
      requires Valid()
      modifies this`Free, this`freeFrames, bitmap
      ensures Valid() && Free == old(Free) - Frames(frame, frame + count)
    {
      var i := 0;
      while i < count
        invariant i <= count && Valid()
        invariant Free == old(Free) - Frames(frame, frame + i)
      {
        var f := frame + i;
        if f >= MAX_FRAMES {
          assert Free == old(Free) - Frames(frame, frame + count);
          return;
        }
        FramesExtend(frame, f);
        var used := Test(f);
        if !used { Take(f); }
        i := i + 1;
      }
    }

    /** pmm_mark_used. */
    method PmmMarkUsed(addr: nat, count: nat)
      requires Valid()
      modifies this`Free, this`freeFrames, bitmap
      ensures Valid()
      ensures Step(old(Abs()), MarkUsed(addr, count), {}, Abs())
    {
      TakeFrames(addr / PAGE_SIZE, count);
    }

    /** pmm_init: everything used, then the available ranges free, then the low megabyte and the kernel image used. */
    method Init(es: seq<MmapEntry>, kernelStart: nat, kernelEnd: nat)
      requires bitmap.Length == MAX_FRAMES / 8
      requires forall e | e in es :: e.Fits()
      requires kernelStart <= kernelEnd < WORD - PAGE_SIZE
      modifies this, bitmap
      ensures Valid()
      ensures totalFrames == LastEnd(es)
      ensures Free == Covered(es) - Frames(0, 256)
                      - Frames(kernelStart / PAGE_SIZE, (kernelEnd + PAGE_SIZE - 1) / PAGE_SIZE)
      ensures Excess == Counted(es) - Clear(Covered(es), MAX_FRAMES)
      ensures Excess == 0 <==> Disjoint(es)
    {
      ScanMap(es);
      CountExactIffDisjoint(es);
      PmmMarkUsed(0, 256);
      var ks := kernelStart / PAGE_SIZE;
      var ke := (kernelEnd + PAGE_SIZE - 1) / PAGE_SIZE;
      PmmMarkUsed(ks * PAGE_SIZE, ke - ks);
    }

    method PutFrames(frame: nat, count: nat)
      requires Valid()
      modifies this`Free, this`freeFrames, this`Excess, bitmap
      ensures Valid() && Excess == old(Excess)
      ensures Free == old(Free) + Frames(frame, Min(frame + count, MAX_FRAMES))
    {
      var i := 0;
      while i < count
        invariant i <= count && Valid() && Excess == old(Excess)
        invariant Free == old(Free) + Frames(frame, Min(frame + i, MAX_FRAMES))
      {
        var f := frame + i;
        if f >= MAX_FRAMES { return; }
        FramesExtend(frame, f);
        var used := Test(f);
        if used { Put(f); }
        i := i + 1;
      }
    }

    /** pmm_mark_free. */
    method PmmMarkFree(addr: nat, count: nat)
      requires Valid()
      modifies this`Free, this`freeFrames, this`Excess, bitmap
      ensures Valid() && Excess == old(Excess)
      ensures Step(old(Abs()), MarkFree(addr, count), {}, Abs())
    {
      PutFrames(addr / PAGE_SIZE, count);
    }

    /** pmm_alloc_page. */
    method AllocPage() returns (addr: nat)
      requires Valid()
      modifies this`Free, this`freeFrames, bitmap
      ensures Valid()
      ensures addr == 0xFFFF_FFFF_FFFF_FFFF ==> NoRun(old(Abs()), 1) && Abs() == old(Abs())
      ensures Step(old(Abs()), Alloc(1), Handed(addr, 1), Abs())
      ensures addr != 0xFFFF_FFFF_FFFF_FFFF ==>
                && addr % PAGE_SIZE == 0 && LowestRun(old(Abs()), addr / PAGE_SIZE, 1)
                && Free == old(Free) - {addr / PAGE_SIZE}
    {
      var i := 1;
      while i < totalFrames
        invariant 1 <= i && Valid() && Abs() == old(Abs()) && freeFrames == old(freeFrames)
        invariant forall s | 1 <= s < i :: s !in Free
      {
        var used := Test(i);
        if !used {
          assert LowestRun(Abs(), i, 1) by {
            forall s | 1 <= s < i ensures !FreeRun(Abs(), s, 1) { assert s in Frames(s, s + 1); }
          }
          Take(i);
          return i * PAGE_SIZE;
        }
        i := i + 1;
      }
      forall s | 1 <= s ensures !FreeRun(Abs(), s, 1) { assert s in Frames(s, s + 1); }
      return ALLOC_FAIL;
    }

    /** pmm_free_page. */
    method PmmFreePage(addr: nat)
      requires Valid()
      modifies this`Free, this`freeFrames, this`Excess, bitmap
      ensures Valid() && Excess == old(Excess)
      ensures Step(old(Abs()), FreePage(addr), {}, Abs())
    {
      if addr == ALLOC_FAIL { return; }
      var frame := addr / PAGE_SIZE;
      if frame >= totalFrames { return; }
      var used := Test(frame);
      if used { Put(frame); }
    }

    /** A frame that is released can be handed out again: it is free, nothing else has changed, and where no
        other frame is usable it is the next one. */
    method Recycle(addr: nat) returns (again: nat)
      requires Valid() && 0 < addr / 4096 < totalFrames && addr != ALLOC_FAIL && Usable(Abs()) == 0
      modifies this`Free, this`freeFrames, this`Excess, bitmap
      ensures Valid() && Abs() == old(Abs()) && again == addr / 4096 * 4096
    {
      UsableNone(Abs());
      PmmFreePage(addr);
      label released:
      assert Free == old(Free) + {addr / PAGE_SIZE};
      OneFrame(Abs(), addr / PAGE_SIZE);
      OneFrame(old(Abs()), addr / PAGE_SIZE);
      again := AllocPage();
      forall f: nat | 1 <= f ensures FreeRun(old@released(Abs()), f, 1) <==> f == addr / PAGE_SIZE {
        OneFrame(old(Abs()), f);
      }
    }

    /** The scanning loop of the contiguous allocator; 0 when there is no run. */
    method FindRun(count: nat) returns (start: nat)
      requires Valid() && count > 0
      ensures start == 0 <==> NoRun(Abs(), count)
      ensures start != 0 ==> LowestRun(Abs(), start, count)
    {
      var len, i := 0, 1;
      start := 0;
      while i < totalFrames
        invariant 1 <= i && (i <= totalFrames || i == 1)
        invariant len < count && (len > 0 ==> start == i - len && start >= 1)
        invariant forall f | i - len <= f < i :: f in Free
        invariant i - len >= 1 && (i - len == 1 || i - len - 1 !in Free)
        invariant forall s | 1 <= s && s + count <= i :: !FreeRun(Abs(), s, count)
      {
        var used := Test(i);
        if !used {
          if len == 0 { start := i; }
          len := len + 1;
          if len == count {
            assert LowestRun(Abs(), start, count);
            return;
          }
          forall s | 1 <= s && s + count == i + 1 ensures !FreeRun(Abs(), s, count) {
            assert i - len in Frames(s, s + count);
          }
        } else {
          forall s | 1 <= s && s + count == i + 1 ensures !FreeRun(Abs(), s, count) {
            assert i in Frames(s, s + count);
          }
          len := 0;
        }
        i := i + 1;
      }
      start := 0;
      assert NoRun(Abs(), count);
    }

    method TakeRun(start: nat, count: nat)
      requires Valid() && Frames(start, start + count) <= Free
      modifies this`Free, this`freeFrames, bitmap
      ensures Valid() && Free == old(Free) - Frames(start, start + count)
    {
      var j := 0;
      while j < count
        invariant j <= count && Valid() && Free == old(Free) - Frames(start, start + j)
      {
        Take(start + j);
        j := j + 1;
      }
    }

    /** pmm_alloc_contiguous. */
    method AllocContiguous(count: nat) returns (addr: nat)
      requires Valid()
      modifies this`Free, this`freeFrames, bitmap
      ensures Valid()
      ensures addr == 0xFFFF_FFFF_FFFF_FFFF <==> count == 0 || NoRun(old(Abs()), count)
      ensures addr != 0xFFFF_FFFF_FFFF_FFFF ==> addr % PAGE_SIZE == 0 && LowestRun(old(Abs()), addr / PAGE_SIZE, count)
      ensures Step(old(Abs()), Alloc(count), Handed(addr, count), Abs())
    {
      if count == 0 { return ALLOC_FAIL; }
      var start := FindRun(count);
      if start == 0 { return ALLOC_FAIL; }
      TakeRun(start, count);
      addr := start * PAGE_SIZE;
    }

    /** It happens: a frame marked used before the memory map has been read takes the counter below zero. */
    method MarkEarly()
      requires Valid() && Free == Frames(0, MAX_FRAMES) && Excess == -(MAX_FRAMES as int)
      modifies this`Free, this`freeFrames, bitmap
      ensures Valid() && Clear(Free, MAX_FRAMES) == MAX_FRAMES - 1 && freeFrames == WORD - 1
    {
      hide Clear;
      PmmMarkUsed(0, 1);
      assert Free == Frames(1, MAX_FRAMES);
      ClearFrames(1, MAX_FRAMES, MAX_FRAMES);
    }
  }
}
