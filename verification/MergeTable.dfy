/** The merge rules of the BPE tokenizer (kernel/llm/tokenizer.c) and the open-addressing hash
    table that finds them. */
module MergeTable {
  import opened Arith

  const HASH_SIZE: nat := 65536
  /** MERGE_EMPTY. */
  const EMPTY: nat := 0xFFFF_FFFF
  const ID_LIMIT: nat := 0x1_0000_0000

  datatype Rule = Rule(left: nat, right: nat, result: nat)

  /** The lowest rank from `from` on whose rule is (l, r), or EMPTY. */
  function Rank(rules: seq<Rule>, l: nat, r: nat, from: nat): (k: nat)
    requires from <= |rules| <= EMPTY
    ensures k == EMPTY || (from <= k < |rules| && rules[k].left == l && rules[k].right == r)
    ensures forall j | from <= j < |rules| && j < k :: !(rules[j].left == l && rules[j].right == r)
    decreases |rules| - from
  {
    if from == |rules| then EMPTY
    else if rules[from].left == l && rules[from].right == r then from
    else Rank(rules, l, r, from + 1)
  }

  /** What the table keeps of a list of rules: as many as it has slots. */
  function Capped(rules: seq<Rule>): (kept: seq<Rule>)
    ensures |kept| == Min(|rules|, 65536) && kept <= rules
  {
    rules[..Min(|rules|, HASH_SIZE)]
  }

  lemma {:induction false} RankInPrefix(rules: seq<Rule>, n: nat, l: nat, r: nat, from: nat)
    requires from <= n <= |rules| <= EMPTY
    ensures Rank(rules[..n], l, r, from) == if Rank(rules, l, r, from) < n then Rank(rules, l, r, from) else EMPTY
    decreases n - from
  {
    if from < n { RankInPrefix(rules, n, l, r, from + 1); }
  }

  /** A dropped rule is not missed if an earlier one merges the same pair. */
  ghost predicate Covered(rules: seq<Rule>, k: nat)
    requires k < |rules|
  {
    exists j: nat :: j < 65536 && j < |rules| && rules[j].left == rules[k].left && rules[j].right == rules[k].right
  }

  ghost predicate SameRank(rules: seq<Rule>, l: nat, r: nat)
    requires |rules| <= EMPTY
  {
    Rank(Capped(rules), l, r, 0) == Rank(rules, l, r, 0)
  }

  lemma NotCovered(rules: seq<Rule>, l: nat, r: nat)
    requires |rules| <= EMPTY && !SameRank(rules, l, r)
    ensures var k := Rank(rules, l, r, 0); HASH_SIZE <= k < |rules| && !Covered(rules, k)
  {
    hide Rank;
    RankInPrefix(rules, Min(|rules|, HASH_SIZE), l, r, 0);
  }

  /** Dropping the rules past the table's capacity changes no lookup exactly when each of them is
      covered by a kept one. */
  lemma DropsNothingIff(rules: seq<Rule>)
    requires |rules| <= EMPTY
    ensures (forall l: nat, r: nat :: SameRank(rules, l, r)) <==>
            (forall k: nat | 65536 <= k < |rules| :: Covered(rules, k))
  {
    hide Rank;
    forall k: nat | HASH_SIZE <= k < |rules|
      ensures SameRank(rules, rules[k].left, rules[k].right) <==> Covered(rules, k)
    {
      var l, r := rules[k].left, rules[k].right;
      RankInPrefix(rules, HASH_SIZE, l, r, 0);
      var j := Rank(rules, l, r, 0);
      assert j <= k;
      if j < HASH_SIZE { assert rules[j].left == l && rules[j].right == r; }
    }
    forall l: nat, r: nat
      ensures SameRank(rules, l, r) || exists k: nat :: HASH_SIZE <= k < |rules| && !Covered(rules, k)
    {
      RankInPrefix(rules, Min(|rules|, HASH_SIZE), l, r, 0);
      if !SameRank(rules, l, r) { NotCovered(rules, l, r); }
    }
  }

  /** It happens with one rule more than slots, all for different pairs. */
  lemma RuleDropped()
    ensures var rules := seq(HASH_SIZE + 1, k requires 0 <= k => Rule(k, 0, 0));
            && !Covered(rules, HASH_SIZE)
            && Rank(rules, HASH_SIZE, 0, 0) == HASH_SIZE && Rank(Capped(rules), HASH_SIZE, 0, 0) == EMPTY
  {
    hide Rank;
    var rules := seq(HASH_SIZE + 1, k requires 0 <= k => Rule(k, 0, 0));
    RankInPrefix(rules, HASH_SIZE, HASH_SIZE, 0, 0);
    assert rules[HASH_SIZE] == Rule(HASH_SIZE, 0, 0);
  }

  // ----- Hashing -----

  /** (left << 32) | right, on 32-bit ids. */
  function Key(l: nat, r: nat): nat { l * ID_LIMIT + r }

  lemma KeysDiffer(l: nat, r: nat, l': nat, r': nat)
    requires r < ID_LIMIT && r' < ID_LIMIT
    ensures Key(l, r) == Key(l', r') <==> l == l' && r == r'
  {
  }

  /** merge_hash: an xor-shift, multiply, xor-shift mix, then the low 16 bits. */
  function Mix(k: bv64): bv16
  {
    var a := k ^ (k >> 33);
    var b := a * 0xff51afd7ed558ccd;
    var c := b ^ (b >> 33);
    (c & 0xFFFF) as bv16
  }

  function Hash(l: nat, r: nat): (h: nat)
    requires l < ID_LIMIT && r < ID_LIMIT
    ensures h < HASH_SIZE
  {
    Mix(Key(l, r) as bv64) as nat
  }

  // ----- The table -----

  datatype Slot = Slot(key: nat, rank: nat)

  function Probe(h: nat, p: nat): (i: nat)
    ensures i < HASH_SIZE
  {
    (h + p) % HASH_SIZE
  }

  ghost predicate Ids(rules: seq<Rule>)
  {
    forall k | 0 <= k < |rules| :: rules[k].left < ID_LIMIT && rules[k].right < ID_LIMIT
  }

  /** A filled slot holds a rule under its key. */
  ghost predicate SlotOk(slots: seq<Slot>, rules: seq<Rule>, i: nat)
    requires i < |slots|
  {
    slots[i].rank != EMPTY ==>
      slots[i].rank < |rules| && slots[i].key == Key(rules[slots[i].rank].left, rules[slots[i].rank].right)
  }

  ghost predicate Behind(slots: seq<Slot>, h: nat, q: nat, k: nat)
    requires |slots| == HASH_SIZE
  {
    slots[Probe(h, q)].rank < k
  }

  /** Rule k sits p probes after its hash, behind rules of lower rank. */
  ghost predicate Placed(slots: seq<Slot>, rules: seq<Rule>, k: nat, p: nat)
    requires |slots| == HASH_SIZE && Ids(rules) && k < |rules|
  {
    var h := Hash(rules[k].left, rules[k].right);
    && p < HASH_SIZE && slots[Probe(h, p)].rank == k
    && forall q: nat | q < p :: Behind(slots, h, q, k)
  }

  ghost predicate HasPlace(slots: seq<Slot>, rules: seq<Rule>, k: nat)
    requires |slots| == HASH_SIZE && Ids(rules) && k < |rules|
  {
    exists p: nat :: Placed(slots, rules, k, p)
  }

  function Filled(slots: seq<Slot>, n: nat): nat
    requires n <= |slots|
  {
    if n == 0 then 0 else Filled(slots, n - 1) + if slots[n - 1].rank != EMPTY then 1 else 0
  }

  /** The table after all of `rules` have been inserted. */
  ghost predicate Holds(slots: seq<Slot>, rules: seq<Rule>)
  {
    && |slots| == HASH_SIZE && |rules| <= HASH_SIZE && Ids(rules)
    && (forall i: nat | i < HASH_SIZE :: SlotOk(slots, rules, i))
    && (forall k: nat | k < |rules| :: HasPlace(slots, rules, k))
    && Filled(slots, HASH_SIZE) == |rules|
  }

  lemma {:induction false} FilledUpdate(slots: seq<Slot>, i: nat, s: Slot, n: nat)
    requires i < |slots| && n <= |slots| && slots[i].rank == EMPTY && s.rank != EMPTY
    ensures Filled(slots[i := s], n) == Filled(slots, n) + if i < n then 1 else 0
  {
    if n > 0 { FilledUpdate(slots, i, s, n - 1); }
  }

  /** With fewer rules than slots some slot is empty. */
  lemma {:induction false} SomeEmpty(slots: seq<Slot>, n: nat) returns (i: nat)
    requires n <= |slots| && Filled(slots, n) < n
    ensures i < n && slots[i].rank == EMPTY
  {
    if slots[n - 1].rank == EMPTY { i := n - 1; } else { i := SomeEmpty(slots, n - 1); }
  }

  lemma {:induction false} AllEmpty(slots: seq<Slot>, n: nat)
    requires n <= |slots| && forall i | 0 <= i < |slots| :: slots[i].rank == EMPTY
    ensures Filled(slots, n) == 0
  {
    if n > 0 { AllEmpty(slots, n - 1); }
  }

  /** Linear probing reaches every slot. */
  lemma ProbeReaches(h: nat, i: nat) returns (p: nat)
    requires h < HASH_SIZE && i < HASH_SIZE
    ensures p < HASH_SIZE && Probe(h, p) == i
  {
    p := if h <= i then i - h else i + HASH_SIZE - h;
  }

  lemma PlacedStays(slots: seq<Slot>, rules: seq<Rule>, slots': seq<Slot>, rules': seq<Rule>, j: nat, p: nat, i: nat)
    requires |slots| == |slots'| == HASH_SIZE && Ids(rules) && Ids(rules') && j < |rules| <= |rules'| && j < EMPTY
    requires rules'[j] == rules[j] && Placed(slots, rules, j, p)
    requires i < HASH_SIZE && slots[i].rank == EMPTY
    requires forall m | 0 <= m < HASH_SIZE && m != i :: slots'[m] == slots[m]
    ensures Placed(slots', rules', j, p)
  {
    hide Hash, Probe, Key;
    var h := Hash(rules[j].left, rules[j].right);
    forall q: nat | q < p ensures Behind(slots', h, q, j) { assert Behind(slots, h, q, j); }
  }

  /** Filling the first empty slot of the probe sequence keeps the table correct. */
  lemma InsertKeeps(slots: seq<Slot>, rules: seq<Rule>, x: Rule, p: nat)
    requires Holds(slots, rules) && x.left < ID_LIMIT && x.right < ID_LIMIT && |rules| < HASH_SIZE
    requires p < HASH_SIZE && slots[Probe(Hash(x.left, x.right), p)].rank == EMPTY
    requires forall q: nat | q < p :: slots[Probe(Hash(x.left, x.right), q)].rank != EMPTY
    ensures Holds(slots[Probe(Hash(x.left, x.right), p) := Slot(Key(x.left, x.right), |rules|)], rules + [x])
  {
    hide Hash, Probe, Key;
    var h := Hash(x.left, x.right);
    var i, k := Probe(h, p), |rules|;
    var s', r' := slots[i := Slot(Key(x.left, x.right), k)], rules + [x];
    FilledUpdate(slots, i, s'[i], HASH_SIZE);
    forall j: nat | j < HASH_SIZE ensures SlotOk(s', r', j) { assert SlotOk(slots, rules, j); }
    forall j: nat | j < |r'| ensures HasPlace(s', r', j) {
      if j < k {
        assert HasPlace(slots, rules, j);
        var pj: nat :| Placed(slots, rules, j, pj);
        PlacedStays(slots, rules, s', r', j, pj, i);
      } else {
        forall q: nat | q < p ensures Behind(s', h, q, k) { assert SlotOk(slots, rules, Probe(h, q)); }
        assert Placed(s', r', k, p);
      }
    }
  }

  /** What a probe sequence that starts at the hash of (l, r) finds: the lowest-ranked rule for
      (l, r) first, and no rule for (l, r) before an empty slot. */
  lemma FirstHit(slots: seq<Slot>, rules: seq<Rule>, l: nat, r: nat, p: nat)
    requires Holds(slots, rules) && l < ID_LIMIT && r < ID_LIMIT && p < HASH_SIZE
    requires forall q: nat | q < p ::
               slots[Probe(Hash(l, r), q)].rank != EMPTY && slots[Probe(Hash(l, r), q)].key != Key(l, r)
    ensures slots[Probe(Hash(l, r), p)].rank == EMPTY ==> Rank(rules, l, r, 0) == EMPTY
    ensures slots[Probe(Hash(l, r), p)].rank != EMPTY && slots[Probe(Hash(l, r), p)].key == Key(l, r) ==>
              slots[Probe(Hash(l, r), p)].rank == Rank(rules, l, r, 0)
  {
    hide Hash, Probe, Key;
    var h := Hash(l, r);
    var i, k := Probe(h, p), Rank(rules, l, r, 0);
    assert SlotOk(slots, rules, i);
    if slots[i].rank != EMPTY && slots[i].key == Key(l, r) {
      KeysDiffer(rules[slots[i].rank].left, rules[slots[i].rank].right, l, r);
    }
    if k != EMPTY {
      assert HasPlace(slots, rules, k);
      var pk: nat :| Placed(slots, rules, k, pk);
      assert SlotOk(slots, rules, Probe(h, pk));
      assert pk >= p;
      if p < pk { assert Behind(slots, h, p, k); }
    }
  }

  lemma PlacedKey(slots: seq<Slot>, rules: seq<Rule>, k: nat, p: nat)
    requires Holds(slots, rules) && k < |rules| && Placed(slots, rules, k, p)
    ensures var i := Probe(Hash(rules[k].left, rules[k].right), p);
            slots[i].rank != EMPTY && slots[i].key == Key(rules[k].left, rules[k].right)
  {
    assert SlotOk(slots, rules, Probe(Hash(rules[k].left, rules[k].right), p));
  }

  /** A full round of probes without a hit: there is no such rule. */
  lemma NoHit(slots: seq<Slot>, rules: seq<Rule>, l: nat, r: nat)
    requires Holds(slots, rules) && l < ID_LIMIT && r < ID_LIMIT
    requires forall q: nat | q < HASH_SIZE ::
               slots[Probe(Hash(l, r), q)].rank != EMPTY && slots[Probe(Hash(l, r), q)].key != Key(l, r)
    ensures Rank(rules, l, r, 0) == EMPTY
  {
    hide Hash, Probe, Key;
    var k := Rank(rules, l, r, 0);
    if k != EMPTY {
      assert HasPlace(slots, rules, k);
      var pk: nat :| Placed(slots, rules, k, pk);
      PlacedKey(slots, rules, k, pk);
    }
  }

  lemma {:induction false} FilledBound(slots: seq<Slot>, n: nat, i: nat)
    requires n <= |slots| && i < |slots| && slots[i].rank == EMPTY
    ensures Filled(slots, n) <= n && (i < n ==> Filled(slots, n) < n)
  {
    if n > 0 { FilledBound(slots, n - 1, i); }
  }

  /** An empty slot means the table is not full. */
  lemma RoomLeft(slots: seq<Slot>, rules: seq<Rule>, r: nat, i: nat)
    requires r <= |rules| && Holds(slots, Capped(rules[..r]))
    requires i < HASH_SIZE && slots[i].rank == EMPTY
    ensures r < HASH_SIZE
  {
    if r >= HASH_SIZE {
      FilledBound(slots, HASH_SIZE, i);
      assert false;
    }
  }

  lemma KeptNext(rules: seq<Rule>, r: nat)
    requires r < |rules|
    ensures Capped(rules[..r + 1]) == if r < HASH_SIZE then Capped(rules[..r]) + [rules[r]] else Capped(rules[..r])
    ensures r < HASH_SIZE ==> Capped(rules[..r]) == rules[..r]
  {
    assert rules[..r + 1] == rules[..r] + [rules[r]];
  }

  /** A full round of occupied probes means the table is full. */
  lemma FullTable(slots: seq<Slot>, rules: seq<Rule>, r: nat, h: nat)
    requires r < |rules| && Holds(slots, Capped(rules[..r]))
    requires h < HASH_SIZE && forall q: nat | q < HASH_SIZE :: slots[Probe(h, q)].rank != EMPTY
    ensures r >= HASH_SIZE
  {
    if r < HASH_SIZE {
      var i := SomeEmpty(slots, HASH_SIZE);
      var p := ProbeReaches(h, i);
      assert false;
    }
  }

  class Table {
    const slots: array<Slot>

    /** The insertion loop for one rule. */
    method Insert(rules: seq<Rule>, r: nat)
      requires Ids(rules) && r < |rules| <= EMPTY
      requires Holds(slots[..], Capped(rules[..r]))
      modifies slots
      ensures Holds(slots[..], Capped(rules[..r + 1]))
    {
      hide Hash, Key, Probe;
      var idx := Hash(rules[r].left, rules[r].right);
      var probe := 0;
      KeptNext(rules, r);
      while probe < HASH_SIZE
        invariant probe <= HASH_SIZE && slots[..] == old(slots[..])
        invariant forall q: nat | q < probe :: slots[Probe(idx, q)].rank != EMPTY
      {
        var i := Probe(idx, probe);
        if slots[i].rank == EMPTY {
          ghost var s := slots[..];
          RoomLeft(s, rules, r, i);
          InsertKeeps(s, rules[..r], rules[r], probe);
          slots[i] := Slot(Key(rules[r].left, rules[r].right), r);
          assert slots[..] == s[i := Slot(Key(rules[r].left, rules[r].right), r)];
          return;
        }
        probe := probe + 1;
      }
      FullTable(slots[..], rules, r, idx);
    }

    /** Allocate the table and insert the rules in rank order; rules past the table's capacity
        are dropped. */
    constructor (rules: seq<Rule>)
      requires Ids(rules) && |rules| <= EMPTY
      ensures fresh(slots) && Holds(slots[..], Capped(rules))
    {
      slots := new Slot[HASH_SIZE](_ => Slot(0xFFFF_FFFF_FFFF_FFFF, EMPTY));
      new;
      AllEmpty(slots[..], HASH_SIZE);
      hide Hash, Key, Probe;
      var r := 0;
      while r < |rules|
        invariant r <= |rules| && Holds(slots[..], Capped(rules[..r]))
      {
        Insert(rules, r);
        r := r + 1;
      }
      assert rules[..r] == rules;
    }

    /** merge_lookup. */
    method Lookup(ghost rules: seq<Rule>, l: nat, r: nat) returns (rank: nat)
      requires Holds(slots[..], rules) && l < ID_LIMIT && r < ID_LIMIT
      ensures rank == Rank(rules, l, r, 0)
    {
      hide Hash, Key, Probe;
      var key, idx := Key(l, r), Hash(l, r);
      var probe := 0;
      while probe < HASH_SIZE
        invariant probe <= HASH_SIZE
        invariant forall q: nat | q < probe :: slots[Probe(idx, q)].rank != EMPTY && slots[Probe(idx, q)].key != key
      {
        var i := Probe(idx, probe);
        FirstHit(slots[..], rules, l, r, probe);
        if slots[i].rank == EMPTY { return EMPTY; }
        if slots[i].key == key { return slots[i].rank; }
        probe := probe + 1;
      }
      NoHit(slots[..], rules, l, r);
      return EMPTY;
    }
  }
}
