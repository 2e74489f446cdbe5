/** Four-level page tables (kernel/vmm.c; section 4.5 of the Intel SDM, volume 3A), built in
    place on frames of the physical allocator and of the static pool. */
module Vmm {
  import opened Arith
  import opened Bits
  import opened Pmm

  /** Virtual addresses are taken modulo 2^48, so there are 2^36 virtual pages. */
  const PAGES: nat := 0x10_0000_0000
  const POOL_PAGES: nat := 160
  const IDENTITY_MAP_PAGES: nat := 16384
  const PRESENT_WRITE: nat := 3
  /** PAGE_PRESENT | PAGE_WRITE | PAGE_NOCACHE. */
  const UNCACHED: nat := 0x13

  datatype Option<+T> = None | Some(value: T)

  // ----- Entries -----

  predicate IsPresent(e: nat) { e % 2 == 1 }

  /** entry & PHYS_ADDR_MASK, as a frame number. */
  function FrameOf(e: nat): nat { e / PAGE_SIZE }

  /** child | 0 | PAGE_PRESENT | PAGE_WRITE. */
  function TableEntry(frame: nat): nat { frame * PAGE_SIZE + PRESENT_WRITE }

  /** (phys & PHYS_ADDR_MASK) | flags | PAGE_PRESENT. */
  function LeafEntry(phys: nat, flags: nat): nat
    requires flags < PAGE_SIZE
  {
    phys / PAGE_SIZE * PAGE_SIZE + if flags % 2 == 1 then flags else flags + 1
  }

  lemma FieldsAre(e: nat)
    ensures FrameOf(e) == e / PAGE_SIZE && (IsPresent(e) <==> e % 2 == 1)
  {
  }

  lemma Fields(frame: nat, low: nat)
    requires low < PAGE_SIZE && low % 2 == 1
    ensures IsPresent(frame * PAGE_SIZE + low) && FrameOf(frame * PAGE_SIZE + low) == frame
  {
    hide IsPresent, FrameOf;
    var e := frame * PAGE_SIZE + low;
    ModUnique(e, PAGE_SIZE, frame, low);
    ModUnique(e, 2, frame * 2048 + low / 2, 1);
    FieldsAre(e);
  }

  lemma NotPresent()
    ensures !IsPresent(0)
  {
  }

  /** What the two entry builders mean under the mask and the present bit. */
  lemma EntryFields(phys: nat, flags: nat, frame: nat)
    requires flags < PAGE_SIZE
    ensures IsPresent(LeafEntry(phys, flags)) && FrameOf(LeafEntry(phys, flags)) == phys / PAGE_SIZE
    ensures IsPresent(TableEntry(frame)) && FrameOf(TableEntry(frame)) == frame
    ensures !IsPresent(0)
  {
    hide IsPresent, FrameOf;
    Fields(phys / PAGE_SIZE, if flags % 2 == 1 then flags else flags + 1);
    Fields(frame, PRESENT_WRITE);
    NotPresent();
  }

  /** On 64-bit words with disjoint bits, "or" adds and masking takes back. */
  lemma OrIsPlus(p: bv64, f: bv64)
    requires p & 0xFFF == 0 && f <= 0xFFF
    ensures p | f == p + f
    ensures (p | f | 1) & 0xFFFF_FFFF_FFFF_F000 == p
    ensures (p | f | 1) & 1 == 1
  {
  }

  lemma FrameMask(e: nat)
    requires e < WORD
    ensures And(e, WORD - PAGE_SIZE) == e / PAGE_SIZE * PAGE_SIZE
  {
    hide And, Pow2;
    Powers();
    AndMask(e, 12, 52);
  }

  lemma LowTwo(hi: nat, lo: nat)
    ensures (hi * PAGE_SIZE + lo) % 4 == lo % 4 && (hi * PAGE_SIZE + lo) % 2 == lo % 2
  {
    var x := hi * PAGE_SIZE + lo;
    ModUnique(x, 4, hi * 1024 + lo / 4, lo % 4);
    ModUnique(x, 2, hi * 2048 + lo / 2, lo % 2);
  }

  lemma LeafBits(frame: nat, flags: nat, phys: nat)
    requires flags < PAGE_SIZE && frame == phys / PAGE_SIZE
    ensures Or(Or(frame * PAGE_SIZE, flags), 1) == LeafEntry(phys, flags)
  {
    hide Or, Pow2;
    Powers();
    OrLow(frame, flags, 12);
    OrOne(frame * PAGE_SIZE + flags);
    LowTwo(frame, flags);
  }

  /** Setting bit 1 where the low two bits are 01. */
  lemma OrTwo(x: nat)
    requires x % 4 == 1
    ensures Or(x, 2) == x + 2
  {
    OrOne(x / 2);
  }

  lemma TableBits(frame: nat)
    ensures Or(Or(Or(frame * PAGE_SIZE, 0), 1), 2) == TableEntry(frame)
  {
    hide Or, Pow2;
    Powers();
    OrLow(frame, 0, 12);
    OrLow(frame, 1, 12);
    LowTwo(frame, 1);
    OrTwo(frame * PAGE_SIZE + 1);
  }

  /** The builders and readers of entries, bit by bit: PHYS_ADDR_MASK is WORD - PAGE_SIZE, the flags
      given to get_or_create are 0. */
  lemma EntriesAreBits(phys: nat, flags: nat, frame: nat, e: nat)
    requires phys < WORD && flags < PAGE_SIZE && e < WORD
    ensures LeafEntry(phys, flags) == Or(Or(And(phys, WORD - PAGE_SIZE), flags), 1)
    ensures TableEntry(frame) == Or(Or(Or(frame * PAGE_SIZE, 0), 1), 2)
    ensures FrameOf(e) * PAGE_SIZE == And(e, WORD - PAGE_SIZE)
    ensures IsPresent(e) <==> And(e, 1) != 0
  {
    hide And, Or, LeafEntry, TableEntry;
    FrameMask(phys);
    FrameMask(e);
    AndOne(e);
    LeafBits(phys / PAGE_SIZE, flags, phys);
    TableBits(frame);
  }

  // ----- Virtual addresses -----

  /** The k-th base-512 digit of q: k shifts by nine bits, then the low nine bits. */
  function Digit(q: nat, k: nat): (d: nat)
    ensures d < 512
  {
    if k == 0 then q % 512 else Digit(q / 512, k - 1)
  }

  /** PT_IDX, PD_IDX, PDPT_IDX and PML4_IDX for levels 0, 1, 2 and 3. */
  function Idx(level: nat, v: nat): (i: nat)
    ensures i < 512
  {
    Digit(v / PAGE_SIZE, level)
  }

  /** A table's place in the radix tree: its level (3 is the root) and the indices that lead
      to it, read as one number. */
  datatype Node = Node(level: nat, prefix: nat)

  const ROOT: Node := Node(3, 0)

  function Child(n: Node, i: nat): Node
    requires n.level > 0
  {
    Node(n.level - 1, n.prefix * 512 + i)
  }

  function Parent(n: Node): Node { Node(n.level + 1, n.prefix / 512) }

  /** The table on v's path at a level. */
  function NodeOf(level: nat, v: nat): (n: Node)
    requires level <= 3
    ensures n.level == level
    decreases 3 - level
  {
    if level == 3 then ROOT else Child(NodeOf(level + 1, v), Idx(level + 1, v))
  }

  /** The number of v's virtual page: the four indices read as one number. */
  function PageOf(v: nat): nat { NodeOf(0, v).prefix * 512 + Idx(0, v) }

  lemma ParentOfChild(n: Node, i: nat)
    requires n.level > 0 && i < 512
    ensures Parent(Child(n, i)) == n
  {
  }

  lemma ChildrenDiffer(m: Node, j: nat, n: Node, i: nat)
    requires m.level > 0 && n.level > 0 && j < 512 && i < 512
    requires m != n || j != i
    ensures Child(m, j) != Child(n, i)
  {
    ParentOfChild(m, j);
    ParentOfChild(n, i);
  }

  lemma LastDigit(a: nat, i: nat, b: nat, j: nat)
    requires i < 512 && j < 512
    ensures a * 512 + i == b * 512 + j <==> a == b && i == j
  {
  }

  /** Two addresses lie in one page exactly when they meet in one slot of one last table. */
  lemma SamePage(u: nat, v: nat)
    ensures PageOf(u) == PageOf(v) <==> NodeOf(0, u) == NodeOf(0, v) && Idx(0, u) == Idx(0, v)
  {
    LastDigit(NodeOf(0, u).prefix, Idx(0, u), NodeOf(0, v).prefix, Idx(0, v));
  }

  lemma FourDigits(q: nat, d0: nat, d1: nat, d2: nat, d3: nat)
    requires d0 == q % 512 && d1 == q / 512 % 512 && d2 == q / 512 / 512 % 512
    requires d3 == q / 512 / 512 / 512 % 512
    ensures ((d3 * 512 + d2) * 512 + d1) * 512 + d0 == q % PAGES
  {
    var q1, q2, q3 := q / 512, q / 512 / 512, q / 512 / 512 / 512;
    assert q == 512 * q1 + d0 && q1 == 512 * q2 + d1 && q2 == 512 * q3 + d2;
    ModUnique(q, PAGES, q3 / 512, ((d3 * 512 + d2) * 512 + d1) * 512 + d0);
  }

  /** Page numbers are bits 12 to 47 of the address. */
  lemma PageIsQuotient(v: nat)
    ensures PageOf(v) == v / PAGE_SIZE % PAGES
  {
    var q := v / PAGE_SIZE;
    assert Digit(q, 1) == Digit(q / 512, 0);
    assert Digit(q, 2) == Digit(q / 512, 1) == Digit(q / 512 / 512, 0);
    assert Digit(q, 3) == Digit(q / 512, 2) == Digit(q / 512 / 512, 1) == Digit(q / 512 / 512 / 512, 0);
    assert NodeOf(2, v) == Child(ROOT, Digit(q, 3));
    assert NodeOf(1, v) == Child(NodeOf(2, v), Digit(q, 2));
    assert NodeOf(0, v) == Child(NodeOf(1, v), Digit(q, 1));
    FourDigits(q, Digit(q, 0), Digit(q, 1), Digit(q, 2), Digit(q, 3));
  }

  // ----- Memory and the walk -----

  /** Physical memory by frame; every frame holds 512 64-bit words. */
  type Memory = map<nat, seq<nat>>

  function Word(mem: Memory, frame: nat, i: nat): nat
  {
    if frame in mem && i < |mem[frame]| then mem[frame][i] else 0
  }

  function Store(mem: Memory, frame: nat, i: nat, e: nat): Memory
    requires frame in mem && i < |mem[frame]|
  {
    var words: seq<nat> := mem[frame][i := e];
    mem[frame := words]
  }

  /** The table that the hardware walk of v reaches at a level, if every entry above is present. */
  function Walk(mem: Memory, root: nat, level: nat, v: nat): Option<nat>
    requires level <= 3
    decreases 3 - level
  {
    if level == 3 then Some(root)
    else
      match Walk(mem, root, level + 1, v)
      case None => None
      case Some(t) =>
        var e := Word(mem, t, Idx(level + 1, v));
        if IsPresent(e) then Some(FrameOf(e)) else None
  }

  /** The last-level word of v's page, if it and every entry above are present. */
  function PageEntry(mem: Memory, root: nat, v: nat): Option<nat>
  {
    match Walk(mem, root, 0, v)
    case None => None
    case Some(t) =>
      var e := Word(mem, t, Idx(0, v));
      if IsPresent(e) then Some(e) else None
  }

  /** The physical address that such a word gives v. */
  function Address(e: Option<nat>, v: nat): Option<nat>
  {
    match e
    case None => None
    case Some(w) => Some(FrameOf(w) * PAGE_SIZE + v % PAGE_SIZE)
  }

  // ----- The tree of tables -----

  ghost predicate Linked(mem: Memory, tbl: map<Node, nat>, n: Node, i: nat)
    requires n in tbl && n.level > 0
  {
    var e := Word(mem, tbl[n], i);
    if IsPresent(e) then Child(n, i) in tbl && tbl[Child(n, i)] == FrameOf(e) else Child(n, i) !in tbl
  }

  /** `tbl` names every table in memory once: no table hangs below two entries. */
  ghost predicate Tree(mem: Memory, tbl: map<Node, nat>)
  {
    && ROOT in tbl
    && (forall n {:trigger tbl[n]} | n in tbl :: n.level <= 3 && tbl[n] in mem && |mem[tbl[n]]| == 512)
    && (forall n, m {:trigger tbl[n], tbl[m]} | n in tbl && m in tbl && tbl[n] == tbl[m] :: n == m)
    && (forall n {:trigger Parent(n)} | n in tbl && n.level < 3 :: Parent(n) in tbl)
    && (forall n, i: nat {:trigger Linked(mem, tbl, n, i)} | n in tbl && n.level > 0 && i < 512 ::
          Linked(mem, tbl, n, i))
  }

  lemma TablesApart(mem: Memory, tbl: map<Node, nat>, n: Node, m: Node)
    requires Tree(mem, tbl) && n in tbl
    ensures tbl[n] in mem && |mem[tbl[n]]| == 512
    ensures m in tbl && m != n ==> tbl[m] != tbl[n]
  {
  }

  lemma EntryOf(mem: Memory, tbl: map<Node, nat>, n: Node, i: nat)
    requires Tree(mem, tbl) && n in tbl && n.level > 0 && i < 512
    ensures tbl[n] in mem && |mem[tbl[n]]| == 512
    ensures IsPresent(mem[tbl[n]][i]) ==> Child(n, i) in tbl && tbl[Child(n, i)] == FrameOf(mem[tbl[n]][i])
    ensures Child(n, i) in tbl ==> IsPresent(mem[tbl[n]][i])
  {
    assert Linked(mem, tbl, n, i);
  }

  lemma RootIsThere(mem: Memory, tbl: map<Node, nat>)
    requires Tree(mem, tbl)
    ensures ROOT in tbl
  {
  }

  /** The walk over raw memory finds exactly the tables of the tree. */
  lemma {:induction false} WalkFollowsTree(mem: Memory, tbl: map<Node, nat>, level: nat, v: nat)
    requires Tree(mem, tbl) && level <= 3
    ensures Walk(mem, tbl[ROOT], level, v) ==
            if NodeOf(level, v) in tbl then Some(tbl[NodeOf(level, v)]) else None
    decreases 3 - level
  {
    if level < 3 {
      WalkFollowsTree(mem, tbl, level + 1, v);
      var up := NodeOf(level + 1, v);
      ParentOfChild(up, Idx(level + 1, v));
      if up in tbl { assert Linked(mem, tbl, up, Idx(level + 1, v)); }
    }
  }

  /** The page's word through the tree. */
  ghost function Seen(mem: Memory, tbl: map<Node, nat>, v: nat): Option<nat>
  {
    var n := NodeOf(0, v);
    if n in tbl && IsPresent(Word(mem, tbl[n], Idx(0, v))) then Some(Word(mem, tbl[n], Idx(0, v))) else None
  }

  lemma EntryIsSeen(mem: Memory, tbl: map<Node, nat>, v: nat)
    requires Tree(mem, tbl)
    ensures PageEntry(mem, tbl[ROOT], v) == Seen(mem, tbl, v)
  {
    WalkFollowsTree(mem, tbl, 0, v);
  }

  /** No two walks share a table unless they are the same walk down to it. */
  lemma NoSharedTable(mem: Memory, tbl: map<Node, nat>, l: nat, v: nat, l': nat, v': nat)
    requires Tree(mem, tbl) && l <= 3 && l' <= 3
    requires Walk(mem, tbl[ROOT], l, v).Some?
    requires Walk(mem, tbl[ROOT], l, v) == Walk(mem, tbl[ROOT], l', v')
    ensures NodeOf(l, v) == NodeOf(l', v')
  {
    WalkFollowsTree(mem, tbl, l, v);
    WalkFollowsTree(mem, tbl, l', v');
  }

  // ----- The three ways memory changes -----

  ghost predicate SameEntries(mem: Memory, root: nat, mem': Memory, root': nat)
  {
    forall v: nat :: PageEntry(mem', root', v) == PageEntry(mem, root, v)
  }

  /** Writing a frame that holds no table keeps the tree and every translation. */
  lemma ForeignStore(mem: Memory, tbl: map<Node, nat>, f: nat, words: seq<nat>)
    requires Tree(mem, tbl) && forall n | n in tbl :: tbl[n] != f
    ensures Tree(mem[f := words], tbl)
    ensures SameEntries(mem, tbl[ROOT], mem[f := words], tbl[ROOT])
  {
    var mem' := mem[f := words];
    forall n, i: nat | n in tbl && n.level > 0 && i < 512 ensures Linked(mem', tbl, n, i) {
      assert Linked(mem, tbl, n, i);
    }
    forall v: nat ensures PageEntry(mem', tbl[ROOT], v) == PageEntry(mem, tbl[ROOT], v) {
      EntryIsSeen(mem, tbl, v);
      EntryIsSeen(mem', tbl, v);
    }
  }

  ghost predicate IsEmptyTable(mem: Memory, f: nat)
  {
    f in mem && |mem[f]| == 512 && forall i: nat | i < 512 :: Word(mem, f, i) == 0
  }

  /** An empty root table is a tree that translates nothing. */
  lemma EmptyRoot(mem: Memory, f: nat)
    requires IsEmptyTable(mem, f)
    ensures Tree(mem, map[ROOT := f]) && forall v: nat :: PageEntry(mem, f, v) == None
  {
    var tbl: map<Node, nat> := map[ROOT := f];
    NotPresent();
    forall n, i: nat | n in tbl && n.level > 0 && i < 512 ensures Linked(mem, tbl, n, i) {
      assert Word(mem, f, i) == 0;
    }
    assert Tree(mem, tbl);
    hide Tree, PageEntry;
    forall v: nat ensures PageEntry(mem, f, v) == None { EntryIsSeen(mem, tbl, v); }
  }

  lemma EmptyStays(mem: Memory, mem': Memory, f: nat)
    requires IsEmptyTable(mem, f) && f in mem' && mem'[f] == mem[f]
    ensures IsEmptyTable(mem', f)
  {
    forall i: nat | i < 512 ensures Word(mem', f, i) == 0 { assert Word(mem, f, i) == 0; }
  }

  lemma NoGrandchildren(mem: Memory, tbl: map<Node, nat>, c: Node, j: nat)
    requires Tree(mem, tbl) && c !in tbl && 0 < c.level < 3 && j < 512
    ensures Child(c, j) !in tbl
  {
    ParentOfChild(c, j);
  }

  /** Hanging an empty table below an absent entry grows the tree. */
  lemma HangTree(mem: Memory, tbl: map<Node, nat>, n: Node, i: nat, f: nat)
    requires Tree(mem, tbl) && n in tbl && n.level > 0 && i < 512
    requires !IsPresent(Word(mem, tbl[n], i))
    requires IsEmptyTable(mem, f) && forall m | m in tbl :: tbl[m] != f
    ensures Child(n, i) !in tbl
    ensures Tree(Store(mem, tbl[n], i, TableEntry(f)), tbl[Child(n, i) := f])
  {
    assert Linked(mem, tbl, n, i);
    var c := Child(n, i);
    var mem', tbl' := Store(mem, tbl[n], i, TableEntry(f)), tbl[c := f];
    EntryFields(0, 0, f);
    forall m, j: nat | m in tbl' && m.level > 0 && j < 512 ensures Linked(mem', tbl', m, j) {
      if m == c {
        assert Word(mem', f, j) == Word(mem, f, j) == 0;
        NoGrandchildren(mem, tbl, c, j);
      } else {
        assert Linked(mem, tbl, m, j);
        if m != n || j != i { ChildrenDiffer(m, j, n, i); }
      }
    }
    ParentOfChild(n, i);
  }

  /** ... and it translates nothing new. */
  lemma Hang(mem: Memory, tbl: map<Node, nat>, n: Node, i: nat, f: nat)
    requires Tree(mem, tbl) && n in tbl && n.level > 0 && i < 512
    requires !IsPresent(Word(mem, tbl[n], i))
    requires IsEmptyTable(mem, f) && forall m | m in tbl :: tbl[m] != f
    ensures Child(n, i) !in tbl
    ensures Tree(Store(mem, tbl[n], i, TableEntry(f)), tbl[Child(n, i) := f])
    ensures SameEntries(mem, tbl[ROOT], Store(mem, tbl[n], i, TableEntry(f)), tbl[ROOT])
  {
    HangTree(mem, tbl, n, i, f);
    var mem', tbl' := Store(mem, tbl[n], i, TableEntry(f)), tbl[Child(n, i) := f];
    forall v: nat ensures PageEntry(mem', tbl[ROOT], v) == PageEntry(mem, tbl[ROOT], v) {
      EntryIsSeen(mem, tbl, v);
      EntryIsSeen(mem', tbl', v);
      if NodeOf(0, v) == Child(n, i) {
        assert Word(mem', f, Idx(0, v)) == Word(mem, f, Idx(0, v)) == 0;
      } else if NodeOf(0, v) in tbl {
        assert tbl[NodeOf(0, v)] != tbl[n];
      }
    }
  }

  /** The word of v's page once the last-level word of u's page is e. */
  function Written(before: Option<nat>, u: nat, e: nat, v: nat): Option<nat>
  {
    if PageOf(v) != PageOf(u) then before else if IsPresent(e) then Some(e) else None
  }

  /** A page once its word is the entry for a frame: the word bit by bit, and where the page leads. */
  lemma MappedAs(u: nat, phys: nat, flags: nat)
    requires flags < PAGE_SIZE
    ensures forall v: nat, before: Option<nat> | PageOf(v) == PageOf(u) ::
              Written(before, u, LeafEntry(phys, flags), v) == Some(LeafEntry(phys, flags))
    ensures forall v: nat ::
              Address(Some(LeafEntry(phys, flags)), v) == Some(phys / PAGE_SIZE * PAGE_SIZE + v % PAGE_SIZE)
    ensures phys < WORD ==> LeafEntry(phys, flags) == Or(Or(And(phys, WORD - PAGE_SIZE), flags), 1)
  {
    hide IsPresent, FrameOf, LeafEntry, PageOf, And, Or;
    EntryFields(phys, flags, 0);
    if phys < WORD { EntriesAreBits(phys, flags, 0, 0); }
  }

  /** Writing one word of a last-level table keeps the tree. */
  lemma SetLeafTree(mem: Memory, tbl: map<Node, nat>, u: nat, e: nat)
    requires Tree(mem, tbl) && NodeOf(0, u) in tbl
    ensures Tree(Store(mem, tbl[NodeOf(0, u)], Idx(0, u), e), tbl)
  {
    var t := tbl[NodeOf(0, u)];
    var mem' := Store(mem, t, Idx(0, u), e);
    forall n, i: nat | n in tbl && n.level > 0 && i < 512 ensures Linked(mem', tbl, n, i) {
      assert Linked(mem, tbl, n, i);
      assert tbl[n] != t;
    }
  }

  /** ... and changes one page's translation and no other. */
  lemma SetLeaf(mem: Memory, tbl: map<Node, nat>, u: nat, e: nat, v: nat)
    requires Tree(mem, tbl) && NodeOf(0, u) in tbl
    ensures PageEntry(Store(mem, tbl[NodeOf(0, u)], Idx(0, u), e), tbl[ROOT], v) ==
            Written(PageEntry(mem, tbl[ROOT], v), u, e, v)
  {
    hide Tree, FrameOf, IsPresent, PageEntry, PageOf, Idx, NodeOf;
    var n := NodeOf(0, u);
    TablesApart(mem, tbl, n, NodeOf(0, v));
    var mem' := Store(mem, tbl[n], Idx(0, u), e);
    SetLeafTree(mem, tbl, u, e);
    EntryIsSeen(mem, tbl, v);
    EntryIsSeen(mem', tbl, v);
    SamePage(u, v);
  }

  // ----- Ranges -----

  /** The address of the i-th page of a range, in 64-bit arithmetic. */
  function Nth(start: nat, i: nat): nat { (start + i * PAGE_SIZE) % WORD }

  /** The word of v's page after mapping `count` pages in order. */
  function RangeAt(before: Option<nat>, virt: nat, phys: nat, count: nat, flags: nat, v: nat): Option<nat>
    requires flags < PAGE_SIZE
  {
    if count == 0 then before
    else Written(RangeAt(before, virt, phys, count - 1, flags, v),
                 Nth(virt, count - 1), LeafEntry(Nth(phys, count - 1), flags), v)
  }

  lemma RangeNext(before: Option<nat>, virt: nat, phys: nat, i: nat, flags: nat, v: nat)
    requires flags < PAGE_SIZE
    ensures RangeAt(before, virt, phys, 0, flags, v) == before
    ensures RangeAt(before, virt, phys, i + 1, flags, v) ==
              Written(RangeAt(before, virt, phys, i, flags, v), Nth(virt, i), LeafEntry(Nth(phys, i), flags), v)
  {
  }

  /** How many pages v lies above the start of a range. */
  function Above(virt: nat, v: nat): nat { (PageOf(v) + PAGES - PageOf(virt) % PAGES) % PAGES }

  ghost function Path(v: nat): set<Node>
  {
    {NodeOf(2, v), NodeOf(1, v), NodeOf(0, v)}
  }

  /** The tables on the paths of the first `count` pages of a range. */
  ghost function Touched(virt: nat, count: nat): set<Node>
  {
    if count == 0 then {} else Touched(virt, count - 1) + Path(Nth(virt, count - 1))
  }

  lemma TouchedStep(k: set<Node>, a: set<Node>, b: set<Node>, virt: nat, i: nat)
    requires a == k + Touched(virt, i) && b == a + Path(Nth(virt, i))
    ensures b == k + Touched(virt, i + 1)
  {
  }

  lemma {:induction false} TouchedGrows(virt: nat, i: nat, j: nat)
    requires i <= j
    ensures Touched(virt, i) <= Touched(virt, j)
  {
    if i < j { TouchedGrows(virt, i, j - 1); }
  }

  lemma TouchedWithin(a: set<Node>, keys: set<Node>, virt: nat, i: nat, j: nat)
    requires i <= j && a <= keys + Touched(virt, i)
    ensures a <= keys + Touched(virt, j) && (Touched(virt, j) <= a ==> Touched(virt, i) <= a)
  {
    TouchedGrows(virt, i, j);
  }

  lemma NothingTouched(virt: nat)
    ensures Touched(virt, 0) == {}
  {
  }

  lemma OffPath(keys: set<Node>, v: nat, l: nat)
    requires l < 3 && NodeOf(l, v) !in keys
    ensures !(Path(v) <= keys)
  {
    assert NodeOf(l, v) in Path(v);
  }

  lemma PathKeys(k0: set<Node>, k1: set<Node>, k2: set<Node>, k3: set<Node>, v: nat)
    requires k1 == k0 + {NodeOf(2, v)} && k2 == k1 + {NodeOf(1, v)} && k3 == k2 + {NodeOf(0, v)}
    ensures k3 == k0 + Path(v)
  {
  }

  lemma WrapKeepsPage(virt: nat, i: nat)
    ensures (virt + i * PAGE_SIZE) % WORD / PAGE_SIZE % PAGES == (virt / PAGE_SIZE % PAGES + i) % PAGES
  {
    var x, q := virt + i * PAGE_SIZE, virt / PAGE_SIZE;
    var k, p := x / WORD, q % PAGES;
    var y := q + i - k * 0x10_0000_0000_0000;
    assert x % WORD == PAGE_SIZE * y + virt % PAGE_SIZE;
    ModUnique(x % WORD, PAGE_SIZE, y, virt % PAGE_SIZE);
    var a, b := q / PAGES, (p + i) / PAGES;
    assert y == PAGES * (a - k * 0x1_0000 + b) + (p + i) % PAGES;
    ModUnique(y, PAGES, a - k * 0x1_0000 + b, (p + i) % PAGES);
  }

  /** The i-th page of a range lies i pages above its first, modulo the address space. */
  lemma PageOfNth(virt: nat, i: nat)
    ensures PageOf(Nth(virt, i)) == (PageOf(virt) + i) % PAGES
  {
    PageIsQuotient(virt);
    PageIsQuotient(Nth(virt, i));
    WrapKeepsPage(virt, i);
  }

  lemma RingDistance(p: nat, q: nat, i: nat)
    requires p < PAGES && q < PAGES && i < PAGES
    ensures q == (p + i) % PAGES <==> (q + PAGES - p % PAGES) % PAGES == i
  {
    ModUnique(p, PAGES, 0, p);
    if p + i < PAGES { ModUnique(p + i, PAGES, 0, p + i); } else { ModUnique(p + i, PAGES, 1, p + i - PAGES); }
    if q < p { ModUnique(q + PAGES - p, PAGES, 0, q + PAGES - p); } else { ModUnique(q + PAGES - p, PAGES, 1, q - p); }
  }

  lemma AboveIs(virt: nat, v: nat, i: nat)
    requires i < PAGES
    ensures PageOf(v) == PageOf(Nth(virt, i)) <==> Above(virt, v) == i
  {
    hide PageOf;
    PageIsQuotient(virt);
    PageIsQuotient(v);
    PageOfNth(virt, i);
    RingDistance(PageOf(virt), PageOf(v), i);
  }

  /** Page i of a range of at most the whole address space gets the entry of the i-th frame, and
      every page outside the range is as before. */
  lemma {:induction false} RangeIsPagewise(before: Option<nat>, virt: nat, phys: nat, count: nat, flags: nat, v: nat)
    requires count <= PAGES && flags < PAGE_SIZE
    ensures RangeAt(before, virt, phys, count, flags, v) ==
            if Above(virt, v) < count
            then Some(LeafEntry(Nth(phys, Above(virt, v)), flags))
            else before
  {
    if count > 0 {
      hide PageOf, Above, LeafEntry, IsPresent, FrameOf;
      RangeIsPagewise(before, virt, phys, count - 1, flags, v);
      AboveIs(virt, v, count - 1);
      EntryFields(Nth(phys, count - 1), flags, 0);
    }
  }

  // ----- How many tables an identity map needs -----

  ghost function LastTables(k: nat): (s: set<Node>)
    ensures forall n | n in s :: n.level == 0 && n.prefix < k
  {
    if k == 0 then {} else LastTables(k - 1) + {Node(0, k - 1)}
  }

  lemma SmallPath(p: nat)
    requires p < 0x4_0000
    ensures Path(Nth(0, p)) == {Node(2, 0), Node(1, 0), Node(0, p / 512)}
  {
    var v := Nth(0, p);
    assert v == p * PAGE_SIZE && v / PAGE_SIZE == p;
    assert Digit(p, 1) == Digit(p / 512, 0);
    assert Digit(p, 2) == Digit(p / 512, 1) == Digit(p / 512 / 512, 0);
    assert Digit(p, 3) == Digit(p / 512, 2) == Digit(p / 512 / 512, 1) == Digit(p / 512 / 512 / 512, 0);
    assert NodeOf(2, v) == Child(ROOT, Digit(p, 3));
    assert NodeOf(1, v) == Child(NodeOf(2, v), Digit(p, 2));
    assert NodeOf(0, v) == Child(NodeOf(1, v), Digit(p, 1));
  }

  lemma SplitTouched(t: set<Node>, last: set<Node>, n: Node)
    requires t == {Node(2, 0), Node(1, 0)} + last
    ensures t + {Node(2, 0), Node(1, 0), n} == {Node(2, 0), Node(1, 0)} + (last + {n})
  {
  }

  lemma NoLastTables()
    ensures LastTables(0) == {}
  {
  }

  lemma AddLast(j: nat, m: nat)
    requires m == j || m == j + 1
    ensures LastTables(j + 1) == LastTables(m) + {Node(0, j)}
  {
    if m == j + 1 { assert Node(0, j) in LastTables(j + 1); }
  }

  lemma CeilSteps(p: nat)
    ensures (p + 1 + 511) / 512 == p / 512 + 1
    ensures (p + 511) / 512 == p / 512 || (p + 511) / 512 == p / 512 + 1
  {
  }

  /** Page n - 1 needs the last-level table number (n - 1) / 512, new or not. */
  lemma LastTablesStep(n: nat)
    requires n > 0
    ensures LastTables((n + 511) / 512) == LastTables((n - 1 + 511) / 512) + {Node(0, (n - 1) / 512)}
  {
    hide LastTables;
    CeilSteps(n - 1);
    AddLast((n - 1) / 512, (n - 1 + 511) / 512);
  }

  lemma {:induction false} IdentityTouches(n: nat)
    requires 0 < n <= 0x4_0000
    ensures Touched(0, n) == {Node(2, 0), Node(1, 0)} + LastTables((n + 511) / 512)
  {
    hide Path, Nth, LastTables;
    SmallPath(n - 1);
    LastTablesStep(n);
    if n > 1 {
      IdentityTouches(n - 1);
      SplitTouched(Touched(0, n - 1), LastTables((n - 1 + 511) / 512), Node(0, (n - 1) / 512));
    } else {
      NothingTouched(0);
      NoLastTables();
      assert (n - 1 + 511) / 512 == 0;
    }
  }

  lemma {:induction false} LastTablesSize(k: nat)
    ensures |LastTables(k)| == k
  {
    if k > 0 {
      LastTablesSize(k - 1);
      assert Node(0, k - 1) !in LastTables(k - 1);
    }
  }

  /** Identity-mapping the first n pages under an empty root takes ceil(n / 512) + 2 tables. */
  lemma IdentityTableCount(n: nat)
    requires 0 < n <= 0x4_0000
    ensures ROOT !in Touched(0, n) && |Touched(0, n)| == (n + 511) / 512 + 2
  {
    IdentityTouches(n);
    LastTablesSize((n + 511) / 512);
    var last := LastTables((n + 511) / 512);
    assert {Node(2, 0), Node(1, 0)} !! last;
  }

  lemma SubsetSize<T>(a: set<T>, b: set<T>)
    requires a <= b
    ensures |a| <= |b|
  {
    assert b == a + (b - a);
  }

  /** Tables are taken from a supply one by one: it has covered the tables needed exactly when they are all
      there, and a run that stops short has used it up. */
  lemma SupplyCovers(before: set<Node>, after: set<Node>, need: set<Node>, s0: int, s1: int)
    requires before <= after <= before + need && s1 >= 0 && s1 + |after| == s0 + |before|
    requires need <= after || s1 == 0
    ensures need <= after <==> |need - before| <= s0
  {
    assert after == before + (after - before);
    if need <= after {
      assert need - before == after - before;
    } else {
      var n :| n in need && n !in after;
      assert (after - before) + {n} <= need - before;
      SubsetSize((after - before) + {n}, need - before);
    }
  }

  lemma PathSize(v: nat)
    ensures |Path(v)| <= 3
  {
  }

  lemma DeviceTables(virt: nat, keys: set<Node>)
    ensures |Touched(virt, 1) - keys| <= 3 && |Touched(virt, 1)| <= 3
  {
    hide Path;
    assert Touched(virt, 1) == Touched(virt, 0) + Path(Nth(virt, 0));
    NothingTouched(virt);
    PathSize(Nth(virt, 0));
    assert Touched(virt, 1) == Path(Nth(virt, 0));
    SubsetSize(Touched(virt, 1) - keys, Touched(virt, 1));
  }

  lemma FewMore(before: set<Node>, after: set<Node>, more: set<Node>)
    requires after <= before + more && |more| <= 3
    ensures |after| <= |before| + 3
  {
    SubsetSize(after, before + more);
    assert |before + more| <= |before| + |more|;
  }

  lemma DeviceWord(a: nat)
    requires a % PAGE_SIZE == 0
    ensures LeafEntry(a, UNCACHED) == a + 0x13
  {
    assert a == a / PAGE_SIZE * PAGE_SIZE;
  }

  /** What mapping one device page without caching does. */
  lemma DevicePage(before: Option<nat>, page: nat, v: nat)
    requires page < 0x10_0000
    ensures RangeAt(before, page * PAGE_SIZE, page * PAGE_SIZE, 1, UNCACHED, v) ==
            if PageOf(v) == page then Some(page * PAGE_SIZE + 0x13) else before
  {
    hide PageOf, LeafEntry, IsPresent, FrameOf;
    var a := page * PAGE_SIZE;
    ModUnique(a, PAGE_SIZE, page, 0);
    PageIsQuotient(a);
    assert Nth(a, 0) == a;
    RangeNext(before, a, a, 0, UNCACHED, v);
    MappedAs(a, a, UNCACHED);
    DeviceWord(a);
  }

  /** A page mapped to its own frame, for the two kinds of entries. */
  lemma OwnAddress(v: nat)
    requires v < 0x1_0000_0000_0000
    ensures PageOf(v) == v / 4096 && (PageOf(v) < IDENTITY_MAP_PAGES <==> v < 0x400_0000)
    ensures Address(Some(PageOf(v) * PAGE_SIZE + PRESENT_WRITE), v) == Some(v)
    ensures Address(Some(PageOf(v) * PAGE_SIZE + 0x13), v) == Some(v)
  {
    hide PageOf;
    PageIsQuotient(v);
    Fields(PageOf(v), PRESENT_WRITE);
    Fields(PageOf(v), 0x13);
  }

  /** Under the identity map every page below the limit translates to itself. */
  lemma IdentityPage(before: Option<nat>, v: nat)
    ensures RangeAt(before, 0, 0, IDENTITY_MAP_PAGES, PRESENT_WRITE, v) ==
            if PageOf(v) < IDENTITY_MAP_PAGES then Some(PageOf(v) * PAGE_SIZE + PRESENT_WRITE) else before
    ensures Address(Some(PageOf(v) * PAGE_SIZE + PRESENT_WRITE), v) == Some(PageOf(v) * PAGE_SIZE + v % PAGE_SIZE)
  {
    hide PageOf, RangeAt;
    Fields(PageOf(v), PRESENT_WRITE);
    RangeIsPagewise(before, 0, 0, IDENTITY_MAP_PAGES, PRESENT_WRITE, v);
    PageIsQuotient(0);
    PageIsQuotient(v);
    RingDistance(0, PageOf(v), PageOf(v));
  }

  // ----- The address space -----

  /** The next table comes from a frame that the identity map covers: a free frame below the limit, or
      without any free frame the next one of the pool. */
  ghost predicate ServedLow(v: View, poolFrame: nat)
  {
    if NoRun(v, 1) then poolFrame < IDENTITY_MAP_PAGES
    else exists f: nat :: f < IDENTITY_MAP_PAGES && FreeRun(v, f, 1)
  }

  lemma RunStart(v: View, f: nat)
    ensures FreeRun(v, f, 1) ==> 1 <= f
    ensures LowestRun(v, f, 1) ==> FreeRun(v, f, 1)
  {
  }

  lemma LowestIsLow(v: View, f: nat, poolFrame: nat)
    requires LowestRun(v, f, 1)
    ensures f < IDENTITY_MAP_PAGES <==> ServedLow(v, poolFrame)
  {
    hide FreeRun;
    assert FreeRun(v, f, 1) && 1 <= f by { RunStart(v, f); }
    forall g: nat | FreeRun(v, g, 1) ensures f <= g { RunStart(v, g); }
  }

  lemma LowestUnique(v: View, f: nat, g: nat)
    requires LowestRun(v, f, 1) && LowestRun(v, g, 1)
    ensures f == g
  {
  }

  /** Frames by page number under the identity map. */
  lemma FramePage(f: nat)
    requires f < MAX_FRAMES
    ensures PageOf(f * PAGE_SIZE) == f
  {
    hide PageOf;
    var v := f * PAGE_SIZE;
    PageIsQuotient(v);
    ModUnique(v, PAGE_SIZE, f, 0);
  }

  lemma OneHighFrame(e: MmapEntry, v: View, lo: nat, hi: nat)
    requires e == MmapEntry(IDENTITY_MAP_PAGES * PAGE_SIZE, PAGE_SIZE, 1) && hi <= IDENTITY_MAP_PAGES
    requires v.free == Covered([e]) - Frames(0, 256) - Frames(lo, hi) && v.total == LastEnd([e])
    ensures v.free == {IDENTITY_MAP_PAGES} && v.total == IDENTITY_MAP_PAGES + 1
    ensures LowestRun(v, IDENTITY_MAP_PAGES, 1) && !NoRun(v, 1)
  {
    var f := IDENTITY_MAP_PAGES;
    assert e.First() == f && e.End() == f + 1;
    assert [e][..0] == [];
    assert Covered([e]) == {} + e.Cover() && LastEnd([e]) == f + 1;
    assert v.free == {f};
    assert Frames(f, f + 1) == {f};
    forall s | 1 <= s < f ensures !FreeRun(v, s, 1) { assert s in Frames(s, s + 1); }
  }

  class AddressSpace {
    const pmm: FrameBitmap
    /** First frame of static_pt_pool, inside the kernel image. */
    const poolBase: nat
    var poolUsed: nat
    var mem: Memory
    /** current_pml4_phys. */
    var pml4: nat
    /** Where each table of the tree lives. */
    ghost var tbl: map<Node, nat>

    /** Memory is complete, no table and no pool frame can be handed out again, and until the frame
        allocator has its memory map every table comes from the pool. */
    ghost predicate Owned()
      reads this, pmm, pmm.bitmap
    {
      && pmm.Valid()
      && (forall f: nat {:trigger f in mem} | f < MAX_FRAMES :: f in mem && |mem[f]| == 512)
      && poolUsed <= POOL_PAGES && 0 < poolBase && poolBase + POOL_PAGES <= MAX_FRAMES
      && (forall f: nat {:trigger f in pmm.Free} | poolBase <= f < poolBase + POOL_PAGES && f < pmm.totalFrames ::
            f !in pmm.Free)
      && (forall f: nat {:trigger IsEmptyTable(mem, f)} | poolBase + poolUsed <= f < poolBase + POOL_PAGES ::
            IsEmptyTable(mem, f))
      && (forall n {:trigger tbl[n]} | n in tbl ::
            && 0 < tbl[n] < MAX_FRAMES
            && (tbl[n] < pmm.totalFrames ==> tbl[n] !in pmm.Free)
            && !(poolBase + poolUsed <= tbl[n] < poolBase + POOL_PAGES)
            && (pmm.totalFrames == 0 ==> poolBase <= tbl[n] < poolBase + POOL_PAGES))
    }

    ghost predicate Valid()
      reads this, pmm, pmm.bitmap
    {
      Owned() && Tree(mem, tbl) && pml4 == tbl[ROOT] * PAGE_SIZE
    }

    /** The word that maps v under the current root. */
    ghost function En(v: nat): Option<nat>
      reads this
    {
      PageEntry(mem, pml4 / PAGE_SIZE, v)
    }

    /** The translation of v under the current root. */
    ghost function Tr(v: nat): Option<nat>
      reads this
    {
      Address(En(v), v)
    }

    /** How many tables can still be allocated: usable frames and unused pool pages. */
    ghost function Supply(): int
      reads this, pmm
    {
      Usable(pmm.Abs()) + POOL_PAGES - poolUsed
    }

    lemma SupplyIs()
      requires Valid()
      ensures Supply() >= POOL_PAGES - poolUsed >= 0 && (pmm.totalFrames == 0 ==> Supply() == POOL_PAGES - poolUsed)
    {
      UsableNone(pmm.Abs());
    }

    constructor (pmm: FrameBitmap, poolBase: nat, mem: Memory)
      requires pmm.Valid() && pmm.totalFrames == 0
      requires 0 < poolBase && poolBase + POOL_PAGES <= MAX_FRAMES
      requires forall f: nat | f < MAX_FRAMES :: f in mem && |mem[f]| == 512
      requires forall f: nat | poolBase <= f < poolBase + POOL_PAGES :: IsEmptyTable(mem, f)
      ensures Owned() && tbl == map[] && poolUsed == 0 && this.pmm == pmm && this.mem == mem
    {
      this.pmm, this.poolBase, this.mem := pmm, poolBase, mem;
      poolUsed, pml4, tbl := 0, 0, map[];
    }

    /** Zero one frame, word by word. */
    method ZeroFrame(f: nat)
      requires f in mem && |mem[f]| == 512
      modifies this`mem
      ensures IsEmptyTable(mem, f) && mem == old(mem)[f := mem[f]]
    {
      var i := 0;
      while i < 512
        invariant i <= 512 && f in mem && |mem[f]| == 512 && mem.Keys == old(mem.Keys)
        invariant forall g | g in mem && g != f :: mem[g] == old(mem)[g]
        invariant forall j: nat | j < i :: mem[f][j] == 0
      {
        mem := Store(mem, f, i, 0);
        i := i + 1;
      }
    }

    /** A fresh empty table, or 0 when the pool is exhausted and the machine halts. */
    method AllocTable() returns (f: nat)
      requires Owned()
      modifies this`mem, this`poolUsed, pmm`Free, pmm`freeFrames, pmm.bitmap
      ensures Owned()
      ensures f == 0 ==> mem == old(mem) && poolUsed == old(poolUsed)
      ensures f != 0 ==>
                && f < MAX_FRAMES && IsEmptyTable(mem, f) && mem == old(mem)[f := mem[f]]
                && (f < pmm.totalFrames ==> f !in pmm.Free)
                && !(poolBase + poolUsed <= f < poolBase + POOL_PAGES)
                && (forall n | n in tbl :: tbl[n] != f)
      ensures f == 0 <==> NoRun(old(pmm.Abs()), 1) && old(poolUsed) == POOL_PAGES
      ensures (f == 0 <==> old(Supply()) == 0) && Supply() == old(Supply()) - if f == 0 then 0 else 1
      ensures pmm.totalFrames == 0 && f != 0 ==>
                poolUsed == old(poolUsed) + 1 && poolBase <= f < poolBase + POOL_PAGES
      ensures if NoRun(old(pmm.Abs()), 1) then f in {0, poolBase + old(poolUsed)} else LowestRun(old(pmm.Abs()), f, 1)
      ensures f != 0 ==> (f < IDENTITY_MAP_PAGES <==> ServedLow(old(pmm.Abs()), poolBase + old(poolUsed)))
    {
      UsableNone(pmm.Abs());
      var phys := pmm.AllocPage();
      if phys != ALLOC_FAIL {
        f := phys / PAGE_SIZE;
        UsableTaken(old(pmm.Abs()), pmm.Abs(), f);
        LowestIsLow(old(pmm.Abs()), f, poolBase + old(poolUsed));
        assert f in Frames(f, f + 1) && f in mem;
        ZeroFrame(f);
        forall g: nat | poolBase + poolUsed <= g < poolBase + POOL_PAGES ensures IsEmptyTable(mem, g) {
          EmptyStays(old(mem), mem, g);
        }
      } else if poolUsed >= POOL_PAGES {
        f := 0;
      } else {
        f := poolBase + poolUsed;
        assert IsEmptyTable(mem, f);
        poolUsed := poolUsed + 1;
      }
    }

    /** The entry of a table that has just been allocated is written into its parent. */
    method HangTable(table: nat, idx: nat, f: nat, ghost n: Node)
      requires Valid() && n in tbl && tbl[n] == table && n.level > 0 && idx < 512
      requires !IsPresent(Word(mem, table, idx))
      requires 0 < f < MAX_FRAMES && IsEmptyTable(mem, f) && forall m | m in tbl :: tbl[m] != f
      requires (f < pmm.totalFrames ==> f !in pmm.Free) && !(poolBase + poolUsed <= f < poolBase + POOL_PAGES)
      requires pmm.totalFrames == 0 ==> poolBase <= f < poolBase + POOL_PAGES
      modifies this`mem, this`tbl
      ensures Valid() && forall v: nat :: En(v) == old(En(v))
      ensures Child(n, idx) !in old(tbl) && tbl == old(tbl)[Child(n, idx) := f]
      ensures table in mem && |mem[table]| == 512 && mem[table][idx] == TableEntry(f)
    {
      hide Tree, PageEntry, FrameOf, IsPresent, Child;
      TablesApart(mem, tbl, n, n);
      RootIsThere(mem, tbl);
      Hang(mem, tbl, n, idx, f);
      mem := Store(mem, table, idx, TableEntry(f));
      tbl := tbl[Child(n, idx) := f];
      forall g: nat | poolBase + poolUsed <= g < poolBase + POOL_PAGES ensures IsEmptyTable(mem, g) {
        EmptyStays(old(mem), mem, g);
      }
    }

    /** The branch of get_or_create for an absent entry. */
    method CreateTable(table: nat, idx: nat, ghost n: Node) returns (child: nat)
      requires Valid() && n in tbl && tbl[n] == table && n.level > 0 && idx < 512
      requires !IsPresent(Word(mem, table, idx))
      modifies this`mem, this`poolUsed, this`tbl, pmm`Free, pmm`freeFrames, pmm.bitmap
      ensures Valid() && pml4 == old(pml4) && forall v: nat :: En(v) == old(En(v))
      ensures child == 0 ==> tbl == old(tbl)
      ensures child != 0 ==> Child(n, idx) !in old(tbl) && tbl == old(tbl)[Child(n, idx) := child]
      ensures (child == 0 <==> old(Supply()) == 0) && Supply() + |tbl| == old(Supply()) + |old(tbl)|
      ensures child == 0 ==> Child(n, idx) !in tbl
    {
      hide Tree, PageEntry, FrameOf, IsPresent, Child, IsEmptyTable;
      EntryOf(mem, tbl, n, idx);
      child := AllocTable();
      if child == 0 { return; }
      ForeignStore(old(mem), tbl, child, mem[child]);
      TablesApart(old(mem), tbl, n, n);
      HangTable(table, idx, child, n);
    }

    /** get_or_create: the child table of an entry, created when absent. */
    method GetOrCreate(table: nat, idx: nat, ghost n: Node) returns (child: nat)
      requires Valid() && n in tbl && tbl[n] == table && n.level > 0 && idx < 512
      modifies this`mem, this`poolUsed, this`tbl, pmm`Free, pmm`freeFrames, pmm.bitmap
      ensures Valid() && pml4 == old(pml4) && forall v: nat :: En(v) == old(En(v))
      ensures child == 0 ==> tbl == old(tbl)
      ensures child != 0 ==> Child(n, idx) in tbl && tbl[Child(n, idx)] == child
                             && tbl.Keys == old(tbl.Keys) + {Child(n, idx)}
      ensures child == 0 <==> Child(n, idx) !in old(tbl) && old(Supply()) == 0
      ensures Supply() + |tbl| == old(Supply()) + |old(tbl)|
    {
      hide Tree, En, FrameOf, IsPresent, IsEmptyTable, Linked;
      EntryOf(mem, tbl, n, idx);
      if !IsPresent(mem[table][idx]) {
        child := CreateTable(table, idx, n);
      } else {
        child := FrameOf(mem[table][idx]);
        assert tbl.Keys == tbl.Keys + {Child(n, idx)};
      }
    }

    /** The three get_or_create steps of vmm_map_page: the last table on v's path, or 0 when
        the machine halted. */
    method PageTable(u: nat) returns (pt: nat)
      requires Valid()
      modifies this`mem, this`poolUsed, this`tbl, pmm`Free, pmm`freeFrames, pmm.bitmap
      ensures Valid() && pml4 == old(pml4) && forall v: nat :: En(v) == old(En(v))
      ensures tbl.Keys <= old(tbl.Keys) + Path(u)
      ensures pt != 0 ==> NodeOf(0, u) in tbl && tbl[NodeOf(0, u)] == pt && tbl.Keys == old(tbl.Keys) + Path(u)
      ensures Supply() >= 0 && Supply() + |tbl| == old(Supply()) + |old(tbl)| && old(tbl.Keys) <= tbl.Keys
      ensures pt == 0 ==> Supply() == 0 && !(Path(u) <= tbl.Keys)
    {
      hide Tree, En, FrameOf, Idx, Path, IsEmptyTable;
      RootIsThere(mem, tbl);
      var pdpt := GetOrCreate(pml4 / PAGE_SIZE, Idx(3, u), ROOT);
      if pdpt == 0 {
        OffPath(tbl.Keys, u, 2);
        return 0;
      }
      ghost var k1 := tbl.Keys;
      var pd := GetOrCreate(pdpt, Idx(2, u), NodeOf(2, u));
      if pd == 0 {
        OffPath(tbl.Keys, u, 1);
        PathKeys(old(tbl.Keys), k1, k1 + {NodeOf(1, u)}, k1 + {NodeOf(1, u)} + {NodeOf(0, u)}, u);
        return 0;
      }
      ghost var k2 := tbl.Keys;
      pt := GetOrCreate(pd, Idx(1, u), NodeOf(1, u));
      if pt == 0 { OffPath(tbl.Keys, u, 0); }
      PathKeys(old(tbl.Keys), k1, k2, k2 + {NodeOf(0, u)}, u);
    }

    /** pt[PT_IDX(virt)] = e. */
    method StoreLeaf(pt: nat, virt: nat, e: nat)
      requires Valid() && NodeOf(0, virt) in tbl && tbl[NodeOf(0, virt)] == pt
      modifies this`mem
      ensures Valid() && Supply() == old(Supply())
      ensures forall v: nat :: En(v) == Written(old(En(v)), virt, e, v)
    {
      hide Tree, PageEntry, Written, NodeOf, IsEmptyTable;
      TablesApart(mem, tbl, NodeOf(0, virt), NodeOf(0, virt));
      SetLeafTree(mem, tbl, virt, e);
      forall v: nat ensures PageEntry(Store(mem, pt, Idx(0, virt), e), tbl[ROOT], v)
                            == Written(PageEntry(mem, tbl[ROOT], v), virt, e, v) {
        SetLeaf(mem, tbl, virt, e, v);
      }
      mem := Store(mem, pt, Idx(0, virt), e);
      forall g: nat | poolBase + poolUsed <= g < poolBase + POOL_PAGES ensures IsEmptyTable(mem, g) {
        EmptyStays(old(mem), mem, g);
      }
    }

    /** vmm_map_page; false when the machine halted for want of a table: when the usable frames and unused
        pool pages do not cover the missing tables of the path. */
    method MapPage(virt: nat, phys: nat, flags: nat) returns (ok: bool)
      requires Valid() && flags < PAGE_SIZE
      modifies this`mem, this`poolUsed, this`tbl, pmm`Free, pmm`freeFrames, pmm.bitmap
      ensures Valid() && pml4 == old(pml4)
      ensures ok <==> |Path(virt) - old(tbl.Keys)| <= old(Supply())
      ensures forall v: nat :: En(v) == if ok then Written(old(En(v)), virt, LeafEntry(phys, flags), v) else old(En(v))
      ensures tbl.Keys <= old(tbl.Keys) + Path(virt) && (ok ==> tbl.Keys == old(tbl.Keys) + Path(virt))
      ensures Supply() >= 0 && Supply() + |tbl| == old(Supply()) + |old(tbl)| && old(tbl.Keys) <= tbl.Keys
      ensures !ok ==> Supply() == 0 && !(Path(virt) <= tbl.Keys)
      ensures ok && phys < WORD ==> En(virt) == Some(Or(Or(And(phys, WORD - PAGE_SIZE), flags), 1))
      ensures ok ==> forall v: nat | PageOf(v) == PageOf(virt) ::
                Tr(v) == Some(phys / PAGE_SIZE * PAGE_SIZE + v % PAGE_SIZE)
    {
      hide Valid, En, Written, LeafEntry, Path, NodeOf, Supply;
      MappedAs(virt, phys, flags);
      var pt := PageTable(virt);
      assert |tbl| == |tbl.Keys| && |old(tbl)| == |old(tbl.Keys)|;
      SupplyCovers(old(tbl.Keys), tbl.Keys, Path(virt), old(Supply()), Supply());
      if pt == 0 { return false; }
      StoreLeaf(pt, virt, LeafEntry(phys, flags));
      return true;
    }

    /** The first i pages of a range are mapped over the translation `base`; the tables are `keys`
        and those on the pages' paths, `stock` is the supply and the tables together. */
    ghost predicate Ranged(virt: nat, phys: nat, i: nat, flags: nat, base: nat -> Option<nat>, keys: set<Node>,
                           stock: int, root: nat)
      requires flags < PAGE_SIZE
      reads this, pmm, pmm.bitmap
    {
      && Valid() && pml4 == root && tbl.Keys == keys + Touched(virt, i)
      && (forall v: nat :: En(v) == RangeAt(base(v), virt, phys, i, flags, v))
      && Supply() + |tbl| == stock && Supply() >= 0 && keys <= tbl.Keys
    }

    /** The machine halted while mapping: at most the tables of the first i pages exist. */
    ghost predicate Halted(virt: nat, i: nat, keys: set<Node>, stock: int, root: nat)
      reads this, pmm, pmm.bitmap
    {
      && Valid() && pml4 == root && tbl.Keys <= keys + Touched(virt, i)
      && Supply() + |tbl| == stock && Supply() == 0 && keys <= tbl.Keys && !(Touched(virt, i) <= tbl.Keys)
    }

    /** One round of vmm_map_range. */
    method MapNth(virt: nat, phys: nat, i: nat, flags: nat, ghost base: nat -> Option<nat>, ghost keys: set<Node>,
                  ghost stock: int, ghost root: nat)
      returns (ok: bool)
      requires flags < PAGE_SIZE && Ranged(virt, phys, i, flags, base, keys, stock, root)
      modifies this`mem, this`poolUsed, this`tbl, pmm`Free, pmm`freeFrames, pmm.bitmap
      ensures if ok then Ranged(virt, phys, i + 1, flags, base, keys, stock, root)
              else Halted(virt, i + 1, keys, stock, root)
    {
      hide Valid, En, Touched, Written, LeafEntry, Path, RangeAt;
      ghost var before := tbl.Keys;
      ok := MapPage(Nth(virt, i), Nth(phys, i), flags);
      TouchedStep(keys, before, before + Path(Nth(virt, i)), virt, i);
      if ok {
        forall v: nat ensures En(v) == RangeAt(base(v), virt, phys, i + 1, flags, v) {
          RangeNext(base(v), virt, phys, i, flags, v);
        }
      }
    }

    /** The loop of vmm_map_range. */
    method MapLoop(virt: nat, phys: nat, count: nat, flags: nat, ghost base: nat -> Option<nat>, ghost keys: set<Node>,
                   ghost stock: int, ghost root: nat)
      returns (ok: bool)
      requires flags < PAGE_SIZE && Ranged(virt, phys, 0, flags, base, keys, stock, root)
      modifies this`mem, this`poolUsed, this`tbl, pmm`Free, pmm`freeFrames, pmm.bitmap
      ensures if ok then Ranged(virt, phys, count, flags, base, keys, stock, root)
              else exists i: nat :: i <= count && Halted(virt, i, keys, stock, root)
    {
      hide Ranged, Halted;
      var i := 0;
      while i < count
        invariant i <= count && Ranged(virt, phys, i, flags, base, keys, stock, root)
      {
        ok := MapNth(virt, phys, i, flags, base, keys, stock, root);
        if !ok { return; }
        i := i + 1;
      }
      ok := true;
    }

    /** vmm_map_range. */
    method MapRange(virt: nat, phys: nat, count: nat, flags: nat) returns (ok: bool)
      requires Valid() && flags < PAGE_SIZE
      modifies this`mem, this`poolUsed, this`tbl, pmm`Free, pmm`freeFrames, pmm.bitmap
      ensures Valid() && pml4 == old(pml4)
      ensures ok ==> forall v: nat :: En(v) == RangeAt(old(En(v)), virt, phys, count, flags, v)
      ensures tbl.Keys <= old(tbl.Keys) + Touched(virt, count)
      ensures ok ==> tbl.Keys == old(tbl.Keys) + Touched(virt, count)
      ensures ok <==> |Touched(virt, count) - old(tbl.Keys)| <= old(Supply())
      ensures Supply() + |tbl| == old(Supply()) + |old(tbl)|
    {
      hide Valid, PageEntry, Touched, RangeAt;
      ghost var m0, r0, keys := mem, pml4 / PAGE_SIZE, tbl.Keys;
      ghost var base := (v: nat) => PageEntry(m0, r0, v);
      NothingTouched(virt);
      forall v: nat ensures RangeAt(base(v), virt, phys, 0, flags, v) == base(v) {
        RangeNext(base(v), virt, phys, 0, flags, v);
      }
      ghost var stock, root := Supply() + |tbl|, pml4;
      SupplyIs();
      ok := MapLoop(virt, phys, count, flags, base, keys, stock, root);
      if !ok {
        ghost var i: nat :| i <= count && Halted(virt, i, keys, stock, root);
        TouchedWithin(tbl.Keys, keys, virt, i, count);
      }
      assert |tbl| == |tbl.Keys| && |old(tbl)| == |old(tbl.Keys)|;
      SupplyCovers(keys, tbl.Keys, Touched(virt, count), old(Supply()), Supply());
    }

    /** The present checks shared by vmm_unmap_page and vmm_virt_to_phys. */
    method WalkDown(virt: nat) returns (pt: Option<nat>)
      requires Valid()
      ensures pt == if NodeOf(0, virt) in tbl then Some(tbl[NodeOf(0, virt)]) else None
    {
      WalkFollowsTree(mem, tbl, 0, virt);
      var t := pml4 / PAGE_SIZE;
      if !IsPresent(Word(mem, t, Idx(3, virt))) { return None; }
      t := FrameOf(Word(mem, t, Idx(3, virt)));
      if !IsPresent(Word(mem, t, Idx(2, virt))) { return None; }
      t := FrameOf(Word(mem, t, Idx(2, virt)));
      if !IsPresent(Word(mem, t, Idx(1, virt))) { return None; }
      return Some(FrameOf(Word(mem, t, Idx(1, virt))));
    }

    /** vmm_unmap_page. */
    method UnmapPage(virt: nat)
      requires Valid()
      modifies this`mem
      ensures Valid()
      ensures forall v: nat :: En(v) == if PageOf(v) == PageOf(virt) then None else old(En(v))
    {
      var t := WalkDown(virt);
      if t.None? {
        forall v: nat ensures En(v) == if PageOf(v) == PageOf(virt) then None else En(v) {
          EntryIsSeen(mem, tbl, v);
          SamePage(v, virt);
        }
        return;
      }
      EntryFields(0, 0, 0);
      StoreLeaf(t.value, virt, 0);
    }

    /** vmm_virt_to_phys. */
    method VirtToPhys(virt: nat) returns (phys: nat)
      requires Valid()
      ensures phys == match Tr(virt) case Some(p) => p case None => 0xFFFF_FFFF_FFFF_FFFF
    {
      var t := WalkDown(virt);
      EntryIsSeen(mem, tbl, virt);
      if t.None? || !IsPresent(Word(mem, t.value, Idx(0, virt))) { return ALLOC_FAIL; }
      phys := FrameOf(Word(mem, t.value, Idx(0, virt))) * PAGE_SIZE + virt % PAGE_SIZE;
    }

    /** The first statements of vmm_init: an empty root. */
    method PlantRoot()
      requires Owned() && tbl == map[] && poolUsed == 0 && pmm.totalFrames == 0
      modifies this`mem, this`poolUsed, this`tbl, this`pml4, pmm`Free, pmm`freeFrames, pmm.bitmap
      ensures Valid() && poolUsed == 1 && tbl.Keys == {ROOT} && |tbl| == 1
      ensures forall v: nat :: En(v) == None
    {
      hide Tree, PageEntry, Linked;
      var f := AllocTable();
      tbl := map[ROOT := f];
      pml4 := f * PAGE_SIZE;
      EmptyRoot(mem, f);
    }

    /** vmm_init, run before pmm_init: every table comes from the static pool. */
    method VmmInit()
      requires Owned() && tbl == map[] && poolUsed == 0 && pmm.totalFrames == 0
      modifies this`mem, this`poolUsed, this`tbl, this`pml4, pmm`Free, pmm`freeFrames, pmm.bitmap
      ensures Valid() && poolUsed == 35 && |tbl| == 35 && pmm.totalFrames == 0 && Supply() == 125
      ensures forall v: nat :: En(v) == if PageOf(v) < IDENTITY_MAP_PAGES
                                        then Some(PageOf(v) * PAGE_SIZE + PRESENT_WRITE) else None
    {
      hide En, Touched, RangeAt, Valid;
      PlantRoot();
      label planted:
      ghost var keys := tbl.Keys;
      var ok := MapRange(0, 0, IDENTITY_MAP_PAGES, PRESENT_WRITE);
      IdentityTableCount(IDENTITY_MAP_PAGES);
      assert keys + Touched(0, IDENTITY_MAP_PAGES) == {ROOT} + Touched(0, IDENTITY_MAP_PAGES);
      SubsetSize(tbl.Keys, {ROOT} + Touched(0, IDENTITY_MAP_PAGES));
      forall v: nat ensures En(v) == if PageOf(v) < IDENTITY_MAP_PAGES
                                     then Some(PageOf(v) * PAGE_SIZE + PRESENT_WRITE) else None {
        assert old@planted(En(v)) == None;
        IdentityPage(old@planted(En(v)), v);
      }
    }

    /** The kernel image, which is marked used at boot, contains the static pool. */
    predicate PoolInImage(kernelStart: nat, kernelEnd: nat)
    {
      && kernelStart <= kernelEnd < WORD - PAGE_SIZE
      && kernelStart / PAGE_SIZE <= poolBase
      && poolBase + POOL_PAGES <= (kernelEnd + PAGE_SIZE - 1) / PAGE_SIZE
    }

    /** pmm_init over a running address space: the kernel image, and with it every table, is marked
        used, so no table can be handed out afterwards. */
    method BootFrames(es: seq<MmapEntry>, kernelStart: nat, kernelEnd: nat)
      requires Valid() && pmm.totalFrames == 0 && forall e | e in es :: e.Fits()
      requires PoolInImage(kernelStart, kernelEnd)
      modifies pmm, pmm.bitmap
      ensures Valid() && pmm.totalFrames == LastEnd(es)
      ensures pmm.Free == Covered(es) - Frames(0, 256)
                          - Frames(kernelStart / PAGE_SIZE, (kernelEnd + PAGE_SIZE - 1) / PAGE_SIZE)
      ensures mem == old(mem) && pml4 == old(pml4) && tbl == old(tbl) && forall v: nat :: En(v) == old(En(v))
    {
      hide Tree, PageEntry, Covered, LastEnd, IsEmptyTable;
      pmm.Init(es, kernelStart, kernelEnd);
      ghost var image := Frames(kernelStart / PAGE_SIZE, (kernelEnd + PAGE_SIZE - 1) / PAGE_SIZE);
      forall f: nat | poolBase <= f < poolBase + POOL_PAGES ensures f !in pmm.Free { assert f in image; }
    }

    /** The boot order: vmm_init, then pmm_init.  The tree is valid with the frame allocator running,
        and the identity map is in force. */
    method Boot(es: seq<MmapEntry>, kernelStart: nat, kernelEnd: nat)
      requires Owned() && tbl == map[] && poolUsed == 0 && pmm.totalFrames == 0
      requires PoolInImage(kernelStart, kernelEnd) && forall e | e in es :: e.Fits()
      modifies this`mem, this`poolUsed, this`tbl, this`pml4, pmm, pmm.bitmap
      ensures Valid() && pmm.totalFrames == LastEnd(es) && poolUsed == 35
      ensures pmm.Free == Covered(es) - Frames(0, 256)
                          - Frames(kernelStart / PAGE_SIZE, (kernelEnd + PAGE_SIZE - 1) / PAGE_SIZE)
      ensures forall v: nat :: En(v) == if PageOf(v) < IDENTITY_MAP_PAGES
                                        then Some(PageOf(v) * PAGE_SIZE + PRESENT_WRITE) else None
    {
      hide En, Tree, PageOf;
      VmmInit();
      BootFrames(es, kernelStart, kernelEnd);
    }

    /** The frame holds a table or belongs to the pool. */
    ghost predicate Owns(f: nat)
      reads this
    {
      (poolBase <= f < poolBase + POOL_PAGES) || exists n :: n in tbl && tbl[n] == f
    }

    /** Steps of the frame allocator that free nothing of the address space keep it valid. */
    twostate lemma StillValid()
      requires old(Valid()) && unchanged(this) && pmm.Valid() && pmm.totalFrames == old(pmm.totalFrames)
      requires forall f: nat | f in pmm.Free && f !in old(pmm.Free) :: !Owns(f)
      ensures Valid()
    {
      hide Tree, IsEmptyTable;
      forall f: nat | poolBase <= f < poolBase + POOL_PAGES && f < pmm.totalFrames ensures f !in pmm.Free {
        assert Owns(f);
      }
      forall n | n in tbl && tbl[n] < pmm.totalFrames ensures tbl[n] !in pmm.Free { assert Owns(tbl[n]); }
    }

    /** vmm_map_mmio. */
    method MapMmio(phys: nat, count: nat) returns (ok: bool)
      requires Valid()
      modifies this`mem, this`poolUsed, this`tbl, pmm`Free, pmm`freeFrames, pmm.bitmap
      ensures Valid() && pml4 == old(pml4)
      ensures ok <==> |Touched(phys, count) - old(tbl.Keys)| <= old(Supply())
      ensures Supply() + |tbl| == old(Supply()) + |old(tbl)| && tbl.Keys <= old(tbl.Keys) + Touched(phys, count)
      ensures ok ==> forall v: nat :: En(v) == RangeAt(old(En(v)), phys, phys, count, UNCACHED, v)
    {
      ok := MapRange(phys, phys, count, UNCACHED);
    }

    /** One device page after boot: there is always room for its tables. */
    method MapDevice(page: nat)
      requires Valid() && Supply() >= 3 && page < 0x10_0000
      modifies this`mem, this`poolUsed, this`tbl, pmm`Free, pmm`freeFrames, pmm.bitmap
      ensures Valid() && Supply() >= old(Supply()) - 3
      ensures forall v: nat :: En(v) == if PageOf(v) == page then Some(page * PAGE_SIZE + 0x13) else old(En(v))
    {
      hide Valid, En, Supply, Touched, RangeAt, PageOf;
      DeviceTables(page * PAGE_SIZE, tbl.Keys);
      var ok := MapMmio(page * PAGE_SIZE, 1);
      assert |tbl| == |tbl.Keys| && |old(tbl)| == |old(tbl.Keys)|;
      FewMore(old(tbl.Keys), tbl.Keys, Touched(page * PAGE_SIZE, 1));
      forall v: nat ensures En(v) == if PageOf(v) == page then Some(page * PAGE_SIZE + 0x13) else old(En(v)) {
        DevicePage(old(En(v)), page, v);
      }
    }

    /** The first mappings after boot, by apic_init: whatever the memory map, the two device pages and the
        first 64 MB translate to themselves, and nothing else translates. */
    method BootApic(es: seq<MmapEntry>, kernelStart: nat, kernelEnd: nat)
      requires Owned() && tbl == map[] && poolUsed == 0 && pmm.totalFrames == 0
      requires PoolInImage(kernelStart, kernelEnd) && forall e | e in es :: e.Fits()
      modifies this`mem, this`poolUsed, this`tbl, this`pml4, pmm, pmm.bitmap
      ensures Valid() && pmm.totalFrames == LastEnd(es)
      ensures Tr(0xFEE0_0000) == Some(0xFEE0_0000) && En(0xFEE0_0000) == Some(0xFEE0_0013)
      ensures forall v: nat | v < 0x1_0000_0000_0000 ::
                Tr(v) == if v < 0x400_0000 || v / 4096 == 0xFEE00 || v / 4096 == 0xFEC00 then Some(v) else None
    {
      hide Valid, En, Supply, PageOf;
      Boot(es, kernelStart, kernelEnd);
      SupplyIs();
      MapDevice(0xFEE00);
      MapDevice(0xFEC00);
      forall v: nat | v < 0x1_0000_0000_0000
        ensures PageOf(v) == v / 4096 && Tr(v) == if v < 0x400_0000 || v / 4096 == 0xFEE00 || v / 4096 == 0xFEC00
                                                 then Some(v) else None
      {
        OwnAddress(v);
      }
    }

    /** pmm_free_page by any other part of the kernel: harmless as long as it does not free a
        table or the kernel image. */
    method ReleaseFrame(addr: nat)
      requires Valid() && !Owns(addr / PAGE_SIZE)
      modifies pmm`Free, pmm`freeFrames, pmm`Excess, pmm.bitmap
      ensures Valid()
    {
      hide Tree, IsEmptyTable;
      pmm.PmmFreePage(addr);
      StillValid();
    }

    /** pmm_mark_free by any other part of the kernel, under the same condition. */
    method ReleaseFrames(addr: nat, n: nat)
      requires Valid() && forall f: nat | addr / PAGE_SIZE <= f < addr / PAGE_SIZE + n :: !Owns(f)
      modifies pmm`Free, pmm`freeFrames, pmm`Excess, pmm.bitmap
      ensures Valid()
    {
      hide Tree, IsEmptyTable;
      pmm.PmmMarkFree(addr, n);
      StillValid();
    }

    /** pmm_mark_used by any other part of the kernel. */
    method ReserveFrames(addr: nat, n: nat)
      requires Valid()
      modifies pmm`Free, pmm`freeFrames, pmm.bitmap
      ensures Valid()
    {
      hide Tree, IsEmptyTable;
      pmm.PmmMarkUsed(addr, n);
      StillValid();
    }

    /** pmm_alloc_contiguous by any other part of the kernel: it gets no frame of the address space. */
    method TakeFrames(n: nat) returns (addr: nat)
      requires Valid()
      modifies pmm`Free, pmm`freeFrames, pmm.bitmap
      ensures Valid()
      ensures addr != ALLOC_FAIL ==>
                forall f: nat | addr / PAGE_SIZE <= f < addr / PAGE_SIZE + n :: !Owns(f)
    {
      hide Tree, IsEmptyTable;
      addr := pmm.AllocContiguous(n);
      assert pmm.Free <= old(pmm.Free);
      StillValid();
      if addr != ALLOC_FAIL {
        forall f: nat | addr / PAGE_SIZE <= f < addr / PAGE_SIZE + n ensures !Owns(f) {
          assert f in Frames(addr / PAGE_SIZE, addr / PAGE_SIZE + n);
        }
      }
    }

    /** pmm_alloc_page by any other part of the kernel. */
    method TakeFrame() returns (addr: nat)
      requires Valid()
      modifies pmm`Free, pmm`freeFrames, pmm.bitmap
      ensures Valid() && (addr != ALLOC_FAIL ==> !Owns(addr / PAGE_SIZE))
    {
      hide Tree, IsEmptyTable;
      addr := pmm.AllocPage();
      assert pmm.Free <= old(pmm.Free);
      StillValid();
      if addr != ALLOC_FAIL { assert addr / PAGE_SIZE in Frames(addr / PAGE_SIZE, addr / PAGE_SIZE + 1); }
    }

    /** A store into a frame outside the address space. */
    method StoreElsewhere(f: nat, i: nat, w: nat)
      requires Valid() && f < MAX_FRAMES && i < 512 && !Owns(f)
      modifies this`mem
      ensures Valid() && mem == Store(old(mem), f, i, w) && forall v: nat :: En(v) == old(En(v))
    {
      hide Tree, PageEntry;
      ghost var was := mem;
      mem := Store(mem, f, i, w);
      assert mem == was[f := mem[f]];
      ForeignStore(was, tbl, f, mem[f]);
      forall g: nat | poolBase + poolUsed <= g < poolBase + POOL_PAGES ensures IsEmptyTable(mem, g) {
        assert IsEmptyTable(was, g);
        EmptyStays(was, mem, g);
      }
    }

    /** A frame beyond the identity map is handed out for a table on a machine whose only available frame
        outside the image lies at 64 MB; nothing maps it, so the original's access would fault. */
    method HighTable(kernelStart: nat, kernelEnd: nat) returns (f: nat)
      requires Owned() && tbl == map[] && poolUsed == 0 && pmm.totalFrames == 0
      requires PoolInImage(kernelStart, kernelEnd) && (kernelEnd + PAGE_SIZE - 1) / PAGE_SIZE <= IDENTITY_MAP_PAGES
      modifies this`mem, this`poolUsed, this`tbl, this`pml4, pmm, pmm.bitmap
      ensures Owned() && f == IDENTITY_MAP_PAGES && Tr(f * PAGE_SIZE) == None
    {
      hide Tree, PageEntry, Covered, LastEnd, PageOf, IsEmptyTable, LowestRun, FreeRun, NoRun;
      var e := MmapEntry(IDENTITY_MAP_PAGES * PAGE_SIZE, PAGE_SIZE, 1);
      Boot([e], kernelStart, kernelEnd);
      OneHighFrame(e, pmm.Abs(), kernelStart / PAGE_SIZE, (kernelEnd + PAGE_SIZE - 1) / PAGE_SIZE);
      FramePage(IDENTITY_MAP_PAGES);
      label booted:
      ghost var was := mem;
      f := AllocTable();
      LowestUnique(old@booted(pmm.Abs()), f, IDENTITY_MAP_PAGES);
      ForeignStore(was, tbl, f, mem[f]);
    }
  }
}
