/** The kernel heap (kernel/heap.c) as a list of blocks in address order, and what first fit,
    splitting and coalescing do to it. */
module HeapModel {
  import opened Arith
  import opened Bits

  const HEADER_SIZE: nat := 32
  const MIN_SPLIT: nat := 48
  /** The largest request that the rounding in kmalloc does not cut down. */
  const MAX_REQUEST: nat := 0xFFFF_FFF0

  /** One block: its usable bytes and whether it is free. */
  datatype Block = Block(size: nat, free: bool)

  /** size = (size + 15u) & ~15u.  The mask is a 32-bit constant, so it clears the upper half
      of the 64-bit size as well. */
  function Round16(size: nat): nat
  {
    (size + 15) % WORD % 0x1_0000_0000 / 16 * 16
  }

  /** The mask bit by bit. */
  lemma RoundIsMask(size: nat)
    ensures Round16(size) == And((size + 15) % WORD, 0xFFFF_FFF0)
  {
    hide And, Pow2;
    Powers();
    AndMask((size + 15) % WORD, 4, 28);
  }

  lemma ModSmall(x: nat, m: nat)
    requires x < m
    ensures x % m == x
  {
  }

  lemma RoundDown(x: nat)
    ensures x / 16 * 16 % 16 == 0 && x - 15 <= x / 16 * 16 <= x
  {
  }

  /** The rounded size covers the request exactly for requests up to MAX_REQUEST. */
  lemma RoundCoversIff(size: nat)
    requires size < WORD
    ensures Round16(size) % 16 == 0
    ensures Round16(size) >= size <==> size <= MAX_REQUEST
    ensures 0 < size <= MAX_REQUEST ==> size <= Round16(size) < size + 16
  {
    var low := (size + 15) % WORD % 0x1_0000_0000;
    RoundDown(low);
    if size + 15 < 0x1_0000_0000 {
      ModSmall(size + 15, WORD);
      ModSmall(size + 15, 0x1_0000_0000);
    }
  }

  /** It happens: a request of 4 GB is rounded to nothing. */
  lemma RoundLoses()
    ensures Round16(0x1_0000_0000) == 0
  {
  }

  // ----- Addresses -----

  /** Bytes taken by a stretch of blocks, headers included. */
  function Span(bs: seq<Block>): nat
  {
    if bs == [] then 0 else HEADER_SIZE + bs[0].size + Span(bs[1..])
  }

  lemma {:induction false} SpanConcat(a: seq<Block>, b: seq<Block>)
    ensures Span(a + b) == Span(a) + Span(b)
  {
    if a == [] {
      assert a + b == b;
    } else {
      assert (a + b)[1..] == a[1..] + b;
      SpanConcat(a[1..], b);
    }
  }

  /** The offset of block i's header. */
  function Offset(bs: seq<Block>, i: nat): nat
    requires i <= |bs|
  {
    Span(bs[..i])
  }

  lemma OffsetNext(bs: seq<Block>, i: nat)
    requires i < |bs|
    ensures Offset(bs, i + 1) == Offset(bs, i) + HEADER_SIZE + bs[i].size
  {
    assert bs[..i + 1] == bs[..i] + [bs[i]];
    SpanConcat(bs[..i], [bs[i]]);
    assert [bs[i]][1..] == [];
  }

  /** Blocks lie one after the other. */
  lemma {:induction false} OffsetOrder(bs: seq<Block>, i: nat, j: nat)
    requires i < j <= |bs|
    ensures Offset(bs, i) + HEADER_SIZE + bs[i].size <= Offset(bs, j)
    decreases j
  {
    OffsetNext(bs, j - 1);
    if i < j - 1 { OffsetOrder(bs, i, j - 1); }
  }

  lemma OffsetEnd(bs: seq<Block>)
    ensures Offset(bs, |bs|) == Span(bs) && Offset(bs, 0) == 0
  {
    assert bs[..|bs|] == bs;
  }

  // ----- The invariant -----

  ghost predicate FreePair(bs: seq<Block>, i: nat)
    requires i + 1 < |bs|
  {
    bs[i].free && bs[i + 1].free
  }

  ghost predicate NoFreePair(bs: seq<Block>)
  {
    forall i: nat | i + 1 < |bs| :: !FreePair(bs, i)
  }

  ghost predicate Rounded(bs: seq<Block>)
  {
    forall b | b in bs :: b.size % 16 == 0
  }

  /** The blocks tile the region, sizes are multiples of 16, and no two neighbours are free. */
  ghost predicate Ok(bs: seq<Block>, total: nat)
  {
    bs != [] && Span(bs) == total && Rounded(bs) && NoFreePair(bs)
  }

  lemma Sum16(a: nat, b: nat)
    requires a % 16 == 0 && b % 16 == 0
    ensures (a + HEADER_SIZE + b) % 16 == 0
  {
    assert a == 16 * (a / 16) && b == 16 * (b / 16);
    ModUnique(a + HEADER_SIZE + b, 16, a / 16 + 2 + b / 16, 0);
  }

  /** With a 16-aligned start every header and every payload is 16-aligned. */
  lemma {:induction false} OffsetAligned(bs: seq<Block>, i: nat)
    requires Rounded(bs) && i <= |bs|
    ensures Offset(bs, i) % 16 == 0
  {
    if i > 0 {
      OffsetAligned(bs, i - 1);
      OffsetNext(bs, i - 1);
      assert bs[i - 1] in bs;
      Sum16(Offset(bs, i - 1), bs[i - 1].size);
    }
  }

  /** Payloads are disjoint from each other and from every header. */
  lemma PayloadsDisjoint(bs: seq<Block>, i: nat, j: nat)
    requires i < |bs| && j < |bs| && i != j
    ensures var pi, pj := Offset(bs, i) + HEADER_SIZE, Offset(bs, j) + HEADER_SIZE;
            && (pi + bs[i].size <= Offset(bs, j) || pj + bs[j].size <= Offset(bs, i))
            && pi + bs[i].size <= Span(bs)
  {
    OffsetEnd(bs);
    OffsetOrder(bs, i, |bs|);
    if i < j { OffsetOrder(bs, i, j); } else { OffsetOrder(bs, j, i); }
  }

  // ----- Live payloads -----

  datatype Extent = Extent(addr: nat, size: nat)

  /** The allocated payloads of a stretch of blocks whose first header is at `at`. */
  ghost function Live(at: nat, bs: seq<Block>): set<Extent>
    decreases |bs|
  {
    if bs == [] then {}
    else (if bs[0].free then {} else {Extent(at + HEADER_SIZE, bs[0].size)})
         + Live(at + HEADER_SIZE + bs[0].size, bs[1..])
  }

  lemma {:induction false} LiveConcat(at: nat, a: seq<Block>, b: seq<Block>)
    ensures Live(at, a + b) == Live(at, a) + Live(at + Span(a), b)
    decreases |a|
  {
    if a == [] {
      assert a + b == b;
    } else {
      assert (a + b)[1..] == a[1..] + b;
      LiveConcat(at + HEADER_SIZE + a[0].size, a[1..], b);
    }
  }

  lemma {:induction false} LiveAbove(at: nat, bs: seq<Block>)
    ensures forall e | e in Live(at, bs) :: at + HEADER_SIZE <= e.addr && e.addr + e.size <= at + Span(bs)
    decreases |bs|
  {
    if bs != [] { LiveAbove(at + HEADER_SIZE + bs[0].size, bs[1..]); }
  }

  lemma SpanOne(b: Block)
    ensures Span([b]) == HEADER_SIZE + b.size
  {
    assert [b][1..] == [];
  }

  lemma LiveOne(a: nat, b: Block)
    ensures Live(a, [b]) == if b.free then {} else {Extent(a + HEADER_SIZE, b.size)}
  {
    assert [b][1..] == [];
  }

  lemma LiveAt(at: nat, bs: seq<Block>, i: nat)
    requires i < |bs|
    ensures Live(at, bs) ==
            Live(at, bs[..i]) + Live(at + Offset(bs, i), [bs[i]]) + Live(at + Offset(bs, i + 1), bs[i + 1..])
    ensures !bs[i].free ==> Extent(at + Offset(bs, i) + HEADER_SIZE, bs[i].size) in Live(at, bs)
  {
    hide Live, Span;
    assert bs == bs[..i] + bs[i..] && bs[i..] == [bs[i]] + bs[i + 1..];
    LiveConcat(at, bs[..i], bs[i..]);
    LiveConcat(at + Offset(bs, i), [bs[i]], bs[i + 1..]);
    OffsetNext(bs, i);
    SpanOne(bs[i]);
    LiveOne(at + Offset(bs, i), bs[i]);
  }

  lemma {:induction false} LiveIndex(at: nat, bs: seq<Block>, e: Extent) returns (i: nat)
    requires e in Live(at, bs)
    ensures i < |bs| && !bs[i].free && e == Extent(at + Offset(bs, i) + HEADER_SIZE, bs[i].size)
    decreases |bs|
  {
    if !bs[0].free && e == Extent(at + HEADER_SIZE, bs[0].size) {
      i := 0;
    } else {
      var j := LiveIndex(at + HEADER_SIZE + bs[0].size, bs[1..], e);
      i := j + 1;
      assert bs[..i] == [bs[0]] + bs[1..][..j];
      SpanConcat([bs[0]], bs[1..][..j]);
      assert [bs[0]][1..] == [];
    }
  }

  // ----- Allocation -----

  function Fits(b: Block, n: nat): bool { b.free && b.size >= n }

  /** The first block from `from` on that can hold n bytes, or |bs|. */
  function FirstFit(bs: seq<Block>, n: nat, from: nat): (i: nat)
    requires from <= |bs|
    ensures from <= i <= |bs| && (i < |bs| ==> Fits(bs[i], n))
    ensures forall j | from <= j < i :: !Fits(bs[j], n)
    decreases |bs| - from
  {
    if from == |bs| || Fits(bs[from], n) then from else FirstFit(bs, n, from + 1)
  }

  /** What becomes of a free block that receives an allocation of n bytes. */
  function Carve(b: Block, n: nat): seq<Block>
    requires b.size >= n
  {
    if b.size >= n + MIN_SPLIT then [Block(n, false), Block(b.size - n - HEADER_SIZE, true)]
    else [Block(b.size, false)]
  }

  function Alloc(bs: seq<Block>, i: nat, n: nat): seq<Block>
    requires i < |bs| && Fits(bs[i], n)
  {
    bs[..i] + Carve(bs[i], n) + bs[i + 1..]
  }

  lemma CarveSpan(b: Block, n: nat)
    requires b.size >= n
    ensures Span(Carve(b, n)) == HEADER_SIZE + b.size && Carve(b, n) != []
    ensures Carve(b, n)[0].size >= n && !Carve(b, n)[0].free
  {
    SpanOne(b);
    SpanOne(Block(b.size, false));
    var c := Carve(b, n);
    if |c| == 2 {
      assert c == [c[0]] + [c[1]];
      SpanConcat([c[0]], [c[1]]);
      SpanOne(c[0]);
      SpanOne(c[1]);
    }
  }

  lemma AllocParts(bs: seq<Block>, i: nat, n: nat)
    requires i < |bs| && Fits(bs[i], n)
    ensures i < |Alloc(bs, i, n)|
    ensures Alloc(bs, i, n)[..i] == bs[..i] && Alloc(bs, i, n)[i] == Carve(bs[i], n)[0]
    ensures Offset(Alloc(bs, i, n), i) == Offset(bs, i)
    ensures Span(Alloc(bs, i, n)) == Span(bs)
  {
    CarveSpan(bs[i], n);
    assert bs == bs[..i] + [bs[i]] + bs[i + 1..];
    SpanConcat(bs[..i] + [bs[i]], bs[i + 1..]);
    SpanConcat(bs[..i], [bs[i]]);
    SpanConcat(bs[..i] + Carve(bs[i], n), bs[i + 1..]);
    SpanConcat(bs[..i], Carve(bs[i], n));
    assert [bs[i]][1..] == [];
  }

  lemma AllocOk(bs: seq<Block>, total: nat, i: nat, n: nat)
    requires Ok(bs, total) && i < |bs| && Fits(bs[i], n) && n % 16 == 0
    ensures Ok(Alloc(bs, i, n), total)
  {
    AllocParts(bs, i, n);
    var r, c := Alloc(bs, i, n), Carve(bs[i], n);
    forall b | b in r ensures b.size % 16 == 0 {
      assert bs[i] in bs;
      if b in bs[..i] || b in bs[i + 1..] { assert b in bs; } else { assert b in c; }
    }
    forall k: nat | k + 1 < |r| ensures !FreePair(r, k) {
      if k + 1 < i { assert !FreePair(bs, k); }
      else if k >= i + |c| { assert !FreePair(bs, k - |c| + 1); }
      else if k + 1 == i + |c| && k + 1 < |r| { assert !FreePair(bs, i); }
    }
  }

  /** What kmalloc does to the list, in numbers: the first free block of at least n bytes is taken.  With
      fewer than 48 bytes to spare it is taken whole, else cut to n bytes, and the rest less a header of
      32 is a free block right behind it. */
  ghost predicate Grants(bs: seq<Block>, i: nat, n: nat, r: seq<Block>)
  {
    && i < |bs| && bs[i].free && bs[i].size >= n
    && (forall j: nat | j < i :: !(bs[j].free && bs[j].size >= n))
    && if bs[i].size < n + 48 then r == bs[..i] + [Block(bs[i].size, false)] + bs[i + 1..]
       else r == bs[..i] + [Block(n, false), Block(bs[i].size - n - 32, true)] + bs[i + 1..]
  }

  /** No free block has n bytes. */
  ghost predicate NoneGrants(bs: seq<Block>, n: nat)
  {
    forall j: nat | j < |bs| :: !(bs[j].free && bs[j].size >= n)
  }

  lemma AllocGrants(bs: seq<Block>, n: nat)
    ensures var i := FirstFit(bs, n, 0);
            if i < |bs| then Grants(bs, i, n, Alloc(bs, i, n)) else NoneGrants(bs, n)
  {
  }

  /** There is one first block that fits. */
  lemma GrantUnique(bs: seq<Block>, n: nat)
    ensures forall i: nat, j: nat, r: seq<Block>, s: seq<Block> | Grants(bs, i, n, r) && Grants(bs, j, n, s) :: i == j
    ensures NoneGrants(bs, n) ==> forall i: nat, r: seq<Block> :: !Grants(bs, i, n, r)
  {
  }

  /** The block handed out holds the request, with less than 48 bytes to spare. */
  lemma GrantBounds(bs: seq<Block>, i: nat, n: nat, r: seq<Block>)
    requires Grants(bs, i, n, r)
    ensures i < |r| && !r[i].free && n <= r[i].size < n + 48
    ensures r[i].size < bs[i].size ==> i + 1 < |r| && r[i + 1] == Block(bs[i].size - r[i].size - 32, true)
  {
  }

  // ----- Several requests on the initial heap -----

  /** The bytes that k requests take, headers included. */
  function Needs(ns: seq<nat>, k: nat): nat
    requires k <= |ns|
  {
    if k == 0 then 0 else Needs(ns, k - 1) + ns[k - 1] + 32
  }

  lemma {:induction false} NeedsGrow(ns: seq<nat>, k: nat, m: nat)
    requires k <= m <= |ns|
    ensures Needs(ns, k) <= Needs(ns, m)
  {
    if k < m { NeedsGrow(ns, k, m - 1); }
  }

  ghost predicate Answered(bs: seq<Block>, n: nat, r: seq<Block>)
  {
    (NoneGrants(bs, n) && r == bs) || exists i: nat :: Grants(bs, i, n, r)
  }

  ghost predicate Requested(bss: seq<seq<Block>>, ns: seq<nat>, k: nat)
    requires k < |ns| && k + 1 < |bss|
  {
    Answered(bss[k], ns[k], bss[k + 1])
  }

  /** The lists of a heap of `total` bytes through the requests: each is granted, or changes nothing. */
  ghost predicate Requests(bss: seq<seq<Block>>, ns: seq<nat>, total: nat)
  {
    && |bss| == |ns| + 1 && total >= 32 && bss[0] == [Block(total - 32, true)]
    && forall k: nat | k < |ns| :: Requested(bss, ns, k)
  }

  /** After k requests: k used blocks, then the rest of the region if it is worth a block. */
  ghost predicate Packed(bs: seq<Block>, k: nat, used: nat, total: nat)
  {
    && k <= |bs| && used + 32 <= total && (forall j: nat | j < k :: !bs[j].free) && Span(bs[..k]) == used
    && bs[k..] == [Block(total - used - 32, true)]
  }

  lemma PackedNext(bs: seq<Block>, r: seq<Block>, k: nat, used: nat, total: nat, n: nat)
    requires Packed(bs, k, used, total) && used + n + 32 <= total
    requires Answered(bs, n, r)
    ensures |bs| == k + 1 && Grants(bs, k, n, r)
    ensures used + n + 32 + 48 <= total ==> Packed(r, k + 1, used + n + 32, total)
  {
    assert bs[k] == bs[k..][0] && |bs[k..]| == |bs| - k;
    assert Grants(bs, k, n, r) by {
      if i: nat :| Grants(bs, i, n, r) { assert i == k; }
    }
    if used + n + 32 + 48 <= total {
      assert r[..k + 1] == bs[..k] + [Block(n, false)];
      SpanConcat(bs[..k], [Block(n, false)]);
      SpanOne(Block(n, false));
      assert bs[k + 1..] == [];
      assert r[k + 1..] == [Block(total - (used + n + 32) - 32, true)];
    }
  }

  /** Requests of at least 16 bytes succeed one after the other as long as they, with 32 bytes each, fit
      the region, and their blocks lie one behind the other. */
  lemma {:induction false} RequestsSucceed(bss: seq<seq<Block>>, ns: seq<nat>, total: nat, k: nat)
    requires Requests(bss, ns, total) && k < |ns| && Needs(ns, |ns|) <= total
    requires forall j | 0 <= j < |ns| :: ns[j] >= 16
    ensures Packed(bss[k], k, Needs(ns, k), total) && k < |bss[k]| && Offset(bss[k], k) == Needs(ns, k)
    ensures Grants(bss[k], k, ns[k], bss[k + 1])
  {
    hide Grants, NoneGrants;
    NeedsGrow(ns, k + 1, |ns|);
    assert Requested(bss, ns, k);
    if k == 0 {
      assert bss[0][..0] == [] && bss[0][0..] == bss[0];
    } else {
      RequestsSucceed(bss, ns, total, k - 1);
      PackedNext(bss[k - 1], bss[k], k - 1, Needs(ns, k - 1), total, ns[k - 1]);
    }
    PackedNext(bss[k], bss[k + 1], k, Needs(ns, k), total, ns[k]);
  }

  lemma OffsetIsSpan(bs: seq<Block>, i: nat)
    requires i <= |bs|
    ensures Span(bs[..i]) == Offset(bs, i)
  {
  }

  lemma LiveReplace(at: nat, bs: seq<Block>, i: nat, c: seq<Block>)
    requires i < |bs| && Span(c) == HEADER_SIZE + bs[i].size
    ensures Live(at, bs[..i] + c + bs[i + 1..]) ==
            Live(at, bs[..i]) + Live(at + Offset(bs, i), c) + Live(at + Offset(bs, i + 1), bs[i + 1..])
  {
    hide Live, Span;
    OffsetNext(bs, i);
    LiveConcat(at, bs[..i] + c, bs[i + 1..]);
    LiveConcat(at, bs[..i], c);
    SpanConcat(bs[..i], c);
  }

  lemma CarveLive(a: nat, b: Block, n: nat)
    requires b.size >= n
    ensures Live(a, Carve(b, n)) == {Extent(a + HEADER_SIZE, Carve(b, n)[0].size)}
  {
    var c := Carve(b, n);
    LiveOne(a, c[0]);
    if |c| == 2 {
      assert c == [c[0]] + [c[1]];
      LiveConcat(a, [c[0]], [c[1]]);
      LiveOne(a + Span([c[0]]), c[1]);
    } else {
      assert c == [c[0]];
    }
  }

  lemma DropOne(a: set<Extent>, c: set<Extent>, e: Extent)
    requires e !in a && e !in c
    ensures a + {e} + c - {e} == a + {} + c
    ensures a + {e} + c == a + {} + c + {e}
  {
  }

  /** An allocation adds one live payload and moves none. */
  lemma AllocLive(at: nat, bs: seq<Block>, i: nat, n: nat)
    requires i < |bs| && Fits(bs[i], n)
    ensures var e := Extent(at + Offset(bs, i) + HEADER_SIZE, Alloc(bs, i, n)[i].size);
            Live(at, Alloc(bs, i, n)) == Live(at, bs) + {e} && e.size >= n && e !in Live(at, bs)
  {
    hide Live, Carve, Span, Offset;
    var c, a := Carve(bs[i], n), at + Offset(bs, i);
    CarveSpan(bs[i], n);
    CarveLive(a, bs[i], n);
    AllocParts(bs, i, n);
    LiveAt(at, bs, i);
    OffsetNext(bs, i);
    LiveOne(a, bs[i]);
    LiveReplace(at, bs, i, c);
    LiveAbove(at, bs[..i]);
    LiveAbove(at + Offset(bs, i + 1), bs[i + 1..]);
    OffsetIsSpan(bs, i);
    DropOne(Live(at, bs[..i]), Live(at + Offset(bs, i + 1), bs[i + 1..]), Extent(a + HEADER_SIZE, c[0].size));
  }

  // ----- Freeing -----

  /** The block that two free neighbours become, followed by the rest. */
  function Merged(bs: seq<Block>): seq<Block>
    requires |bs| > 1
  {
    [Block(bs[0].size + HEADER_SIZE + bs[1].size, true)] + bs[2..]
  }

  /** One left-to-right pass that merges every free block into the free block before it. */
  function Coalesce(bs: seq<Block>): seq<Block>
    decreases |bs|
  {
    if |bs| <= 1 then bs
    else if bs[0].free && bs[1].free then Coalesce(Merged(bs))
    else [bs[0]] + Coalesce(bs[1..])
  }

  function Release(bs: seq<Block>, i: nat): seq<Block>
    requires i < |bs|
  {
    Coalesce(bs[i := Block(bs[i].size, true)])
  }

  lemma {:induction false} CoalesceSpan(bs: seq<Block>)
    ensures Span(Coalesce(bs)) == Span(bs)
    decreases |bs|
  {
    if |bs| <= 1 {
    } else if bs[0].free && bs[1].free {
      assert Merged(bs)[1..] == bs[2..] && bs[1..][1..] == bs[2..];
      CoalesceSpan(Merged(bs));
    } else {
      CoalesceSpan(bs[1..]);
      assert Coalesce(bs)[1..] == Coalesce(bs[1..]);
    }
  }

  lemma MergedRounded(bs: seq<Block>)
    requires Rounded(bs) && |bs| > 1
    ensures Rounded(Merged(bs))
  {
    assert bs[0] in bs && bs[1] in bs;
    Sum16(bs[0].size, bs[1].size);
    forall b | b in Merged(bs) ensures b.size % 16 == 0 {
      if b in bs[2..] { assert b in bs; } else { assert b == Merged(bs)[0]; }
    }
  }

  lemma {:induction false} CoalesceRounded(bs: seq<Block>)
    requires Rounded(bs)
    ensures Rounded(Coalesce(bs))
    decreases |bs|
  {
    if |bs| <= 1 {
    } else if bs[0].free && bs[1].free {
      MergedRounded(bs);
      CoalesceRounded(Merged(bs));
    } else {
      assert bs[0] in bs;
      assert forall b | b in bs[1..] :: b in bs;
      CoalesceRounded(bs[1..]);
    }
  }

  lemma {:induction false} CoalesceSeparates(bs: seq<Block>)
    ensures NoFreePair(Coalesce(bs))
    ensures bs != [] ==> Coalesce(bs) != [] && Coalesce(bs)[0].free == bs[0].free
    decreases |bs|
  {
    if |bs| <= 1 {
    } else if bs[0].free && bs[1].free {
      CoalesceSeparates(Merged(bs));
    } else {
      CoalesceSeparates(bs[1..]);
      var r, c := Coalesce(bs), Coalesce(bs[1..]);
      assert r == [bs[0]] + c;
      hide Coalesce;
      forall k: nat | k + 1 < |r| ensures !FreePair(r, k) {
        if k > 0 { assert !FreePair(c, k - 1); }
      }
    }
  }

  lemma CoalesceOk(bs: seq<Block>)
    requires Rounded(bs)
    ensures Span(Coalesce(bs)) == Span(bs) && Rounded(Coalesce(bs)) && NoFreePair(Coalesce(bs))
    ensures bs != [] ==> Coalesce(bs) != [] && Coalesce(bs)[0].free == bs[0].free
  {
    CoalesceSpan(bs);
    CoalesceRounded(bs);
    CoalesceSeparates(bs);
  }

  /** Coalescing touches no live payload. */
  lemma {:induction false} CoalesceLive(at: nat, bs: seq<Block>)
    ensures Live(at, Coalesce(bs)) == Live(at, bs)
    decreases |bs|
  {
    if |bs| <= 1 {
    } else if bs[0].free && bs[1].free {
      assert Merged(bs)[1..] == bs[2..] && bs[1..][1..] == bs[2..];
      CoalesceLive(at, Merged(bs));
    } else {
      CoalesceLive(at + HEADER_SIZE + bs[0].size, bs[1..]);
      assert Coalesce(bs)[1..] == Coalesce(bs[1..]);
    }
  }

  lemma {:induction false} CoalesceIdle(bs: seq<Block>)
    requires NoFreePair(bs)
    ensures Coalesce(bs) == bs
  {
    if |bs| > 1 {
      assert !FreePair(bs, 0);
      forall k: nat | k + 1 < |bs[1..]| ensures !FreePair(bs[1..], k) { assert !FreePair(bs, k + 1); }
      CoalesceIdle(bs[1..]);
    }
  }

  lemma {:induction false} SameSizes(a: seq<Block>, b: seq<Block>)
    requires |a| == |b| && forall i | 0 <= i < |a| :: a[i].size == b[i].size
    ensures Span(a) == Span(b)
  {
    if a != [] { SameSizes(a[1..], b[1..]); }
  }

  lemma SetFreeSpan(bs: seq<Block>, i: nat)
    requires i < |bs|
    ensures Span(bs[i := Block(bs[i].size, true)]) == Span(bs)
    ensures forall j: nat | j <= |bs| :: Offset(bs[i := Block(bs[i].size, true)], j) == Offset(bs, j)
  {
    var f := bs[i := Block(bs[i].size, true)];
    forall j: nat | j <= |bs| ensures Offset(f, j) == Offset(bs, j) { SameSizes(bs[..j], f[..j]); }
    SameSizes(bs, f);
  }

  lemma ReleaseOk(bs: seq<Block>, total: nat, i: nat)
    requires Ok(bs, total) && i < |bs|
    ensures Ok(Release(bs, i), total)
  {
    var f := bs[i := Block(bs[i].size, true)];
    forall b | b in f ensures b.size % 16 == 0 { assert bs[i] in bs; if b != f[i] { assert b in bs; } }
    SetFreeSpan(bs, i);
    CoalesceOk(f);
  }

  /** Freeing removes exactly one live payload. */
  lemma ReleaseLive(at: nat, bs: seq<Block>, i: nat)
    requires i < |bs| && !bs[i].free
    ensures Live(at, Release(bs, i)) == Live(at, bs) - {Extent(at + Offset(bs, i) + HEADER_SIZE, bs[i].size)}
  {
    hide Live, Span;
    var f, a := bs[i := Block(bs[i].size, true)], at + Offset(bs, i);
    assert f == bs[..i] + [f[i]] + bs[i + 1..];
    CoalesceLive(at, f);
    hide Coalesce;
    SpanOne(f[i]);
    LiveReplace(at, bs, i, [f[i]]);
    LiveAt(at, bs, i);
    LiveOne(a, bs[i]);
    LiveOne(a, f[i]);
    LiveAbove(at, bs[..i]);
    LiveAbove(at + Offset(bs, i + 1), bs[i + 1..]);
    OffsetNext(bs, i);
    DropOne(Live(at, bs[..i]), Live(at + Offset(bs, i + 1), bs[i + 1..]), Extent(a + HEADER_SIZE, bs[i].size));
  }

  // ----- Reversibility -----

  lemma CoalesceSkip(bs: seq<Block>)
    requires |bs| >= 2 && !(bs[0].free && bs[1].free)
    ensures Coalesce(bs) == [bs[0]] + Coalesce(bs[1..])
  {
  }

  lemma NoFreePairSlice(bs: seq<Block>, i: nat, j: nat)
    requires NoFreePair(bs) && i <= j <= |bs|
    ensures NoFreePair(bs[i..j])
  {
    forall k: nat | k + 1 < |bs[i..j]| ensures !FreePair(bs[i..j], k) { assert !FreePair(bs, i + k); }
  }

  lemma {:induction false} CoalescePrefix(a: seq<Block>, b: seq<Block>)
    requires NoFreePair(a) && b != [] && (a != [] ==> !(a[|a| - 1].free && b[0].free))
    ensures Coalesce(a + b) == a + Coalesce(b)
  {
    if a == [] {
      assert a + b == b;
    } else {
      hide Coalesce;
      assert (a + b)[1..] == a[1..] + b;
      if |a| > 1 { assert !FreePair(a, 0); }
      NoFreePairSlice(a, 1, |a|);
      assert a[1..] == a[1..|a|];
      CoalescePrefix(a[1..], b);
      CoalesceSkip(a + b);
      assert a == [a[0]] + a[1..];
    }
  }

  lemma UpdateMiddle<T>(p: seq<T>, x: seq<T>, q: seq<T>, v: T)
    requires x != []
    ensures (p + x + q)[|p| := v] == p + (x[0 := v] + q)
  {
  }

  /** A carved block with its first part free again. */
  function Refreed(b: Block, n: nat): (c: seq<Block>)
    requires b.size >= n
    ensures c != [] && c[0].free
  {
    Carve(b, n)[0 := Block(Carve(b, n)[0].size, true)]
  }

  lemma RemergesTail(b: Block, n: nat, post: seq<Block>)
    requires b.size >= n && b.free
    ensures Coalesce(Refreed(b, n) + post) == Coalesce([b] + post)
  {
    var t := Refreed(b, n) + post;
    if b.size >= n + MIN_SPLIT {
      assert t[0] == Block(n, true) && t[1] == Block(b.size - n - HEADER_SIZE, true) && t[2..] == post;
    } else {
      assert Refreed(b, n) == [b];
    }
  }

  /** kfree(kmalloc(n)) restores the exact block list. */
  lemma FreeUndoesAlloc(bs: seq<Block>, total: nat, i: nat, n: nat)
    requires Ok(bs, total) && i < |bs| && Fits(bs[i], n)
    ensures Release(Alloc(bs, i, n), i) == bs
  {
    var pre, rest := bs[..i], [bs[i]] + bs[i + 1..];
    NoFreePairSlice(bs, 0, i);
    if i > 0 { assert !FreePair(bs, i - 1); }
    NoFreePairSlice(bs, i, |bs|);
    assert bs[i..|bs|] == rest && bs == pre + rest;
    CoalesceIdle(rest);
    var c := Refreed(bs[i], n);
    RemergesTail(bs[i], n, bs[i + 1..]);
    AllocParts(bs, i, n);
    UpdateMiddle(pre, Carve(bs[i], n), bs[i + 1..], Block(Carve(bs[i], n)[0].size, true));
    hide Coalesce, Carve, NoFreePair, Span;
    CoalescePrefix(pre, c + bs[i + 1..]);
  }

  // ----- Completeness -----

  /** What a stretch of free blocks could hold as a single block. */
  function ExtentSize(bs: seq<Block>, i: nat, j: nat): nat
    requires i < j <= |bs|
  {
    if Span(bs[i..j]) >= HEADER_SIZE then Span(bs[i..j]) - HEADER_SIZE else 0
  }

  /** First fit fails exactly when no stretch of free blocks, merged, could hold the request. */
  lemma FailsOnlyWhenFull(bs: seq<Block>, total: nat, n: nat)
    requires Ok(bs, total)
    ensures FirstFit(bs, n, 0) == |bs| <==>
            forall i: nat, j: nat | i < j <= |bs| && (forall k | i <= k < j :: bs[k].free) :: ExtentSize(bs, i, j) < n
  {
    forall i: nat, j: nat | i < j <= |bs| && (forall k | i <= k < j :: bs[k].free)
      ensures j == i + 1 && ExtentSize(bs, i, j) == bs[i].size
    {
      if i + 1 < |bs| { assert !FreePair(bs, i); }
      SpanOne(bs[i]);
      assert j == i + 1 && bs[i..j] == [bs[i]];
    }
    var i := FirstFit(bs, n, 0);
    if i < |bs| { assert ExtentSize(bs, i, i + 1) >= n; }
    else {
      forall i: nat, j: nat | i < j <= |bs| && (forall k | i <= k < j :: bs[k].free) ensures ExtentSize(bs, i, j) < n {
        assert !Fits(bs[i], n);
      }
    }
  }

  // ----- Freeing everything -----

  /** The block whose payload starts at p, or |bs|. */
  function Find(at: nat, bs: seq<Block>, p: nat): (i: nat)
    ensures i <= |bs|
    decreases |bs|
  {
    if bs == [] || (!bs[0].free && p == at + HEADER_SIZE) then 0
    else Find(at + HEADER_SIZE + bs[0].size, bs[1..], p) + 1
  }

  lemma {:induction false} FindsLive(at: nat, bs: seq<Block>, e: Extent)
    requires e in Live(at, bs)
    ensures var i := Find(at, bs, e.addr);
            i < |bs| && !bs[i].free && e == Extent(at + Offset(bs, i) + HEADER_SIZE, bs[i].size)
    decreases |bs|
  {
    LiveAbove(at + HEADER_SIZE + bs[0].size, bs[1..]);
    if !(!bs[0].free && e.addr == at + HEADER_SIZE) {
      FindsLive(at + HEADER_SIZE + bs[0].size, bs[1..], e);
      var j := Find(at + HEADER_SIZE + bs[0].size, bs[1..], e.addr);
      assert bs[..j + 1] == [bs[0]] + bs[1..][..j];
      SpanConcat([bs[0]], bs[1..][..j]);
      assert [bs[0]][1..] == [];
    }
  }

  /** kfree of the pointer that kmalloc returned restores the exact block list. */
  lemma FreeUndoesMalloc(at: nat, bs: seq<Block>, total: nat, n: nat)
    requires Ok(bs, total) && FirstFit(bs, n, 0) < |bs|
    ensures var i := FirstFit(bs, n, 0);
            var bs1 := Alloc(bs, i, n);
            var f := Find(at, bs1, at + Offset(bs, i) + HEADER_SIZE);
            f < |bs1| && Release(bs1, f) == bs
  {
    var i := FirstFit(bs, n, 0);
    var bs1 := Alloc(bs, i, n);
    var e := Extent(at + Offset(bs, i) + HEADER_SIZE, bs1[i].size);
    AllocLive(at, bs, i, n);
    AllocParts(bs, i, n);
    FindsLive(at, bs1, e);
    var f := Find(at, bs1, e.addr);
    hide Alloc, Find, Live;
    if f < i { OffsetOrder(bs1, f, i); }
    if i < f { OffsetOrder(bs1, i, f); }
    FreeUndoesAlloc(bs, total, i, n);
  }

  function FreeAll(at: nat, bs: seq<Block>, order: seq<Extent>): seq<Block>
    decreases |order|
  {
    if order == [] then bs
    else
      var i := Find(at, bs, order[0].addr);
      FreeAll(at, if i < |bs| then Release(bs, i) else bs, order[1..])
  }

  ghost predicate EachOnce(order: seq<Extent>, live: set<Extent>)
  {
    && (forall e | e in live :: e in order)
    && (forall i: nat | i < |order| :: order[i] in live)
    && (forall i: nat, j: nat | i < j < |order| :: order[i] != order[j])
  }

  lemma {:induction false} AllFree(at: nat, bs: seq<Block>)
    requires Live(at, bs) == {}
    ensures forall b | b in bs :: b.free
    decreases |bs|
  {
    if bs != [] {
      assert bs[0].free;
      AllFree(at + HEADER_SIZE + bs[0].size, bs[1..]);
      assert bs == [bs[0]] + bs[1..];
    }
  }

  /** Freeing all live payloads, in any order, leaves the single initial block. */
  lemma {:induction false} FreeAllRestores(at: nat, bs: seq<Block>, total: nat, order: seq<Extent>)
    requires Ok(bs, total) && EachOnce(order, Live(at, bs))
    ensures total >= HEADER_SIZE && FreeAll(at, bs, order) == [Block(total - HEADER_SIZE, true)]
    decreases |order|
  {
    if order == [] {
      if |bs| > 1 { assert !FreePair(bs, 0) && bs[1] in bs; }
      assert Live(at, bs) == {} && bs[0] in bs;
      AllFree(at, bs);
      SpanOne(bs[0]);
      assert bs == [bs[0]];
    } else {
      var e := order[0];
      FindsLive(at, bs, e);
      var i := Find(at, bs, e.addr);
      ReleaseOk(bs, total, i);
      ReleaseLive(at, bs, i);
      assert EachOnce(order[1..], Live(at, Release(bs, i))) by {
        forall e' | e' in Live(at, Release(bs, i)) ensures e' in order[1..] { assert e' in order; }
        forall k: nat | k < |order[1..]| ensures order[1..][k] in Live(at, Release(bs, i)) {
          assert order[1..][k] == order[k + 1] != order[0];
        }
      }
      FreeAllRestores(at, Release(bs, i), total, order[1..]);
    }
  }
}
