/** The BPE merge loop (kernel/llm/tokenizer.c): the rule "merge the leftmost lowest-ranked
    adjacent pair until none applies", and the array-backed linked list that carries it out. */
module Bpe {
  import opened MergeTable

  const NODE_NONE: nat := 0xFFFF_FFFF
  const MAX_NODES: nat := 65544

  // ----- The pure rule -----

  function PairRank(rules: seq<Rule>, ids: seq<nat>, i: nat): nat
    requires |rules| <= EMPTY && i + 1 < |ids|
  {
    Rank(rules, ids[i], ids[i + 1], 0)
  }

  ghost predicate Beats(rules: seq<Rule>, ids: seq<nat>, i: nat, j: nat)
    requires |rules| <= EMPTY && i + 1 < |ids| && j + 1 < |ids|
  {
    if j < i then PairRank(rules, ids, i) < PairRank(rules, ids, j)
    else PairRank(rules, ids, i) <= PairRank(rules, ids, j)
  }

  /** Pair i has the lowest rank, and every pair before it a higher one. */
  ghost predicate IsBest(rules: seq<Rule>, ids: seq<nat>, i: nat)
    requires |rules| <= EMPTY
  {
    && i + 1 < |ids| && PairRank(rules, ids, i) != EMPTY
    && forall j: nat | j + 1 < |ids| :: Beats(rules, ids, i, j)
  }

  /** No adjacent pair can be merged. */
  ghost predicate NoPair(rules: seq<Rule>, ids: seq<nat>)
    requires |rules| <= EMPTY
  {
    forall j: nat | j + 1 < |ids| :: PairRank(rules, ids, j) == EMPTY
  }

  function MergeAt(rules: seq<Rule>, ids: seq<nat>, i: nat): (r: seq<nat>)
    requires |rules| <= EMPTY && i + 1 < |ids| && PairRank(rules, ids, i) != EMPTY
    ensures |r| == |ids| - 1
  {
    ids[..i] + [rules[PairRank(rules, ids, i)].result] + ids[i + 2..]
  }

  /** Merge the best pair until there is none. */
  ghost function MergeAll(rules: seq<Rule>, ids: seq<nat>): seq<nat>
    requires |rules| <= EMPTY
    decreases |ids|
  {
    if exists i: nat :: IsBest(rules, ids, i) then
      var i: nat :| IsBest(rules, ids, i);
      MergeAll(rules, MergeAt(rules, ids, i))
    else ids
  }

  /** Pair k against the best of the pairs before it. */
  lemma NewBest(rules: seq<Rule>, ids: seq<nat>, k: nat, b: nat, rank: nat)
    requires |rules| <= EMPTY && k + 1 < |ids|
    requires rank == EMPTY ==> forall j: nat | j < k :: PairRank(rules, ids, j) == EMPTY
    requires rank != EMPTY ==>
               b < k && rank == PairRank(rules, ids, b) && forall j: nat | j < k :: Beats(rules, ids, b, j)
    ensures PairRank(rules, ids, k) < rank ==> forall j: nat | j < k + 1 :: Beats(rules, ids, k, j)
    ensures PairRank(rules, ids, k) >= rank && rank != EMPTY ==> Beats(rules, ids, b, k)
  {
    if PairRank(rules, ids, k) < rank {
      forall j: nat | j < k + 1 ensures Beats(rules, ids, k, j) {
        if j < k && rank != EMPTY { assert Beats(rules, ids, b, j); }
      }
    }
  }

  lemma BestIsUnique(rules: seq<Rule>, ids: seq<nat>, i: nat, j: nat)
    requires |rules| <= EMPTY && IsBest(rules, ids, i) && IsBest(rules, ids, j)
    ensures i == j
  {
    assert Beats(rules, ids, i, j) && Beats(rules, ids, j, i);
  }

  /** The best pair among the first n. */
  lemma {:induction false} BestExists(rules: seq<Rule>, ids: seq<nat>, n: nat) returns (i: nat)
    requires |rules| <= EMPTY && n < |ids|
    requires exists j: nat :: j < n && PairRank(rules, ids, j) != EMPTY
    ensures i < n && PairRank(rules, ids, i) != EMPTY && forall j: nat | j < n :: Beats(rules, ids, i, j)
  {
    if exists j: nat :: j < n - 1 && PairRank(rules, ids, j) != EMPTY {
      i := BestExists(rules, ids, n - 1);
      if PairRank(rules, ids, n - 1) < PairRank(rules, ids, i) {
        var k := i;
        i := n - 1;
        forall j: nat | j < n ensures Beats(rules, ids, i, j) { if j < n - 1 { assert Beats(rules, ids, k, j); } }
      }
    } else {
      i := n - 1;
    }
  }

  lemma SomePairHasBest(rules: seq<Rule>, ids: seq<nat>)
    requires |rules| <= EMPTY
    ensures NoPair(rules, ids) <==> !exists i: nat :: IsBest(rules, ids, i)
  {
    if !NoPair(rules, ids) {
      var j: nat :| j + 1 < |ids| && PairRank(rules, ids, j) != EMPTY;
      var i := BestExists(rules, ids, |ids| - 1);
      assert IsBest(rules, ids, i);
    }
  }

  /** One step of MergeAll, with the best pair named. */
  lemma MergeAllStep(rules: seq<Rule>, ids: seq<nat>, i: nat)
    requires |rules| <= EMPTY && IsBest(rules, ids, i)
    ensures MergeAll(rules, ids) == MergeAll(rules, MergeAt(rules, ids, i))
  {
    var j: nat :| IsBest(rules, ids, j) && MergeAll(rules, ids) == MergeAll(rules, MergeAt(rules, ids, j));
    BestIsUnique(rules, ids, i, j);
  }

  /** The loop ends with no mergeable adjacent pair left, after at most n - 1 merges. */
  lemma {:induction false} MergeAllFinishes(rules: seq<Rule>, ids: seq<nat>)
    requires |rules| <= EMPTY
    ensures NoPair(rules, MergeAll(rules, ids))
    ensures |MergeAll(rules, ids)| <= |ids| && (ids != [] ==> MergeAll(rules, ids) != [])
    decreases |ids|
  {
    SomePairHasBest(rules, ids);
    if exists i: nat :: IsBest(rules, ids, i) {
      var i: nat :| IsBest(rules, ids, i);
      MergeAllStep(rules, ids, i);
      MergeAllFinishes(rules, MergeAt(rules, ids, i));
    }
  }

  lemma SameBest(rules: seq<Rule>, ids: seq<nat>)
    requires |rules| <= EMPTY
    requires forall i: nat | i + 1 < |ids| :: PairRank(Capped(rules), ids, i) == PairRank(rules, ids, i)
    ensures forall i: nat :: IsBest(Capped(rules), ids, i) <==> IsBest(rules, ids, i)
  {
    hide PairRank;
    forall i: nat ensures IsBest(Capped(rules), ids, i) <==> IsBest(rules, ids, i) {
      if i + 1 < |ids| {
        forall j: nat | j + 1 < |ids| ensures Beats(Capped(rules), ids, i, j) <==> Beats(rules, ids, i, j) {}
      }
    }
  }

  /** Where the rules past the table's capacity are all covered, dropping them changes no merge. */
  lemma {:induction false} DropsNoMerge(rules: seq<Rule>, ids: seq<nat>)
    requires |rules| <= EMPTY && forall k: nat | HASH_SIZE <= k < |rules| :: Covered(rules, k)
    ensures MergeAll(Capped(rules), ids) == MergeAll(rules, ids)
    decreases |ids|
  {
    hide Rank, Covered;
    DropsNothingIff(rules);
    forall i: nat | i + 1 < |ids| ensures PairRank(Capped(rules), ids, i) == PairRank(rules, ids, i) {
      assert SameRank(rules, ids[i], ids[i + 1]);
    }
    SameBest(rules, ids);
    if exists i: nat :: IsBest(rules, ids, i) {
      var i: nat :| IsBest(rules, ids, i);
      MergeAllStep(rules, ids, i);
      MergeAllStep(Capped(rules), ids, i);
      assert MergeAt(Capped(rules), ids, i) == MergeAt(rules, ids, i);
      DropsNoMerge(rules, MergeAt(rules, ids, i));
    }
  }

  // ----- The rule again, from the list of rules alone -----

  /** Rule k is for the pair at place i. */
  predicate RuleFits(rules: seq<Rule>, ids: seq<nat>, k: nat, i: nat)
  {
    k < |rules| && i + 1 < |ids| && rules[k].left == ids[i] && rules[k].right == ids[i + 1]
  }

  /** No rule is for any adjacent pair. */
  ghost predicate NothingFits(rules: seq<Rule>, ids: seq<nat>)
  {
    forall k: nat, i: nat :: !RuleFits(rules, ids, k, i)
  }

  /** Rule k is the first in the list that is for any pair, and place i the leftmost it is for. */
  ghost predicate FirstFit(rules: seq<Rule>, ids: seq<nat>, k: nat, i: nat)
  {
    && RuleFits(rules, ids, k, i)
    && forall j: nat, m: nat | RuleFits(rules, ids, j, m) :: k < j || (k == j && i <= m)
  }

  /** One round of the loop: that rule is applied at that place, and nowhere else. */
  ghost predicate Round(rules: seq<Rule>, a: seq<nat>, b: seq<nat>)
  {
    exists k: nat, i: nat :: FirstFit(rules, a, k, i) && b == a[..i] + [rules[k].result] + a[i + 2..]
  }

  ghost predicate RoundAt(rules: seq<Rule>, lists: seq<seq<nat>>, n: nat)
    requires n + 1 < |lists|
  {
    Round(rules, lists[n], lists[n + 1])
  }

  /** Round after round. */
  ghost predicate Rounds(rules: seq<Rule>, lists: seq<seq<nat>>)
  {
    lists != [] && forall n: nat | n + 1 < |lists| :: RoundAt(rules, lists, n)
  }

  lemma RankFits(rules: seq<Rule>, ids: seq<nat>, i: nat)
    requires |rules| <= EMPTY && i + 1 < |ids|
    ensures var k := PairRank(rules, ids, i);
            && (k != EMPTY ==> RuleFits(rules, ids, k, i))
            && forall j: nat | RuleFits(rules, ids, j, i) :: k <= j
  {
  }

  lemma FitsInside(rules: seq<Rule>, ids: seq<nat>, k: nat, i: nat)
    requires RuleFits(rules, ids, k, i)
    ensures i + 1 < |ids|
  {
  }

  /** The best pair by rank is the first fit. */
  lemma BestIsFirstFit(rules: seq<Rule>, ids: seq<nat>, i: nat)
    requires |rules| <= EMPTY && IsBest(rules, ids, i)
    ensures FirstFit(rules, ids, PairRank(rules, ids, i), i)
  {
    hide PairRank, RuleFits;
    RankFits(rules, ids, i);
    forall j: nat, m: nat | RuleFits(rules, ids, j, m) ensures m + 1 < |ids| { FitsInside(rules, ids, j, m); }
    forall m: nat | m + 1 < |ids| ensures Beats(rules, ids, i, m) { RankFits(rules, ids, m); }
    forall j: nat, m: nat | RuleFits(rules, ids, j, m)
      ensures PairRank(rules, ids, i) < j || (PairRank(rules, ids, i) == j && i <= m)
    {
      RankFits(rules, ids, m);
      assert Beats(rules, ids, i, m);
    }
  }

  lemma NoPairFits(rules: seq<Rule>, ids: seq<nat>)
    requires |rules| <= EMPTY && NoPair(rules, ids)
    ensures NothingFits(rules, ids)
  {
    forall k: nat, i: nat ensures !RuleFits(rules, ids, k, i) {
      if i + 1 < |ids| { RankFits(rules, ids, i); }
    }
  }

  /** The merge loop does such rounds until no rule is for any pair. */
  lemma {:induction false} MergeAllIsRounds(rules: seq<Rule>, ids: seq<nat>) returns (lists: seq<seq<nat>>)
    requires |rules| <= EMPTY
    ensures Rounds(rules, lists) && lists[0] == ids && lists[|lists| - 1] == MergeAll(rules, ids)
    ensures NothingFits(rules, MergeAll(rules, ids))
    decreases |ids|
  {
    hide FirstFit, NothingFits, PairRank;
    SomePairHasBest(rules, ids);
    if exists i: nat :: IsBest(rules, ids, i) {
      var i: nat :| IsBest(rules, ids, i);
      MergeAllStep(rules, ids, i);
      BestIsFirstFit(rules, ids, i);
      var rest := MergeAllIsRounds(rules, MergeAt(rules, ids, i));
      assert Round(rules, ids, rest[0]);
      lists := [ids] + rest;
      forall n: nat | n + 1 < |lists| ensures RoundAt(rules, lists, n) {
        if n > 0 { assert RoundAt(rules, rest, n - 1); }
      }
    } else {
      lists := [ids];
      NoPairFits(rules, ids);
    }
  }

  // ----- Linked nodes -----

  /** q lists the live nodes in order: node q[k] links to its neighbours. */
  ghost predicate NodeAt(next: seq<nat>, prev: seq<nat>, q: seq<nat>, k: nat)
    requires k < |q|
  {
    && q[k] < |next| && q[k] < |prev|
    && next[q[k]] == (if k + 1 < |q| then q[k + 1] else NODE_NONE)
    && prev[q[k]] == (if k > 0 then q[k - 1] else NODE_NONE)
  }

  ghost predicate Linked(next: seq<nat>, prev: seq<nat>, q: seq<nat>)
  {
    && (forall k: nat | k < |q| :: NodeAt(next, prev, q, k))
    && (forall i: nat, j: nat | i < j < |q| :: q[i] < q[j])
    && |next| == |prev| <= MAX_NODES
  }

  /** The token ids along the list. */
  ghost function Along(id: seq<nat>, q: seq<nat>): (ids: seq<nat>)
    requires forall k | 0 <= k < |q| :: q[k] < |id|
    ensures |ids| == |q| && forall k | 0 <= k < |q| :: ids[k] == id[q[k]]
  {
    seq(|q|, k requires 0 <= k < |q| => id[q[k]])
  }

  ghost function Unlink(q: seq<nat>, b: nat): (r: seq<nat>)
    requires b + 1 < |q|
    ensures |r| == |q| - 1
    ensures forall k | 0 <= k < |r| :: r[k] == q[if k <= b then k else k + 1]
  {
    q[..b + 1] + q[b + 2..]
  }

  /** Unlinking the node after position b leaves a well-linked list. */
  lemma UnlinkKeeps(next: seq<nat>, prev: seq<nat>, q: seq<nat>, b: nat)
    requires Linked(next, prev, q) && b + 1 < |q|
    ensures q[b] < |next| && q[b + 1] < |next| && next[q[b]] == q[b + 1]
    ensures next[q[b + 1]] == if b + 2 < |q| then q[b + 2] else NODE_NONE
    ensures b + 2 < |q| ==> q[b + 2] < |next|
    ensures var next' := next[q[b] := next[q[b + 1]]];
            var prev' := if b + 2 < |q| then prev[q[b + 2] := q[b]] else prev;
            Linked(next', prev', Unlink(q, b))
  {
    hide Unlink;
    assert NodeAt(next, prev, q, b) && NodeAt(next, prev, q, b + 1);
    if b + 2 < |q| { assert NodeAt(next, prev, q, b + 2); }
    var next', r := next[q[b] := next[q[b + 1]]], Unlink(q, b);
    var prev' := if b + 2 < |q| then prev[q[b + 2] := q[b]] else prev;
    forall k: nat | k < |r| ensures NodeAt(next', prev', r, k) {
      assert NodeAt(next, prev, q, if k <= b then k else k + 1);
    }
  }

  /** The two id writes of a merge. */
  function Overwrite(id: seq<nat>, i: nat, v: nat, j: nat): (r: seq<nat>)
    requires i < |id| && j < |id|
    ensures |r| == |id| && forall k | 0 <= k < |r| :: r[k] == if k == j then NODE_NONE else if k == i then v else id[k]
  {
    var a: seq<nat> := id[i := v];
    a[j := NODE_NONE]
  }

  lemma MergeAlong(rules: seq<Rule>, id: seq<nat>, q: seq<nat>, b: nat, v: nat)
    requires |rules| <= EMPTY && b + 1 < |q| && (forall k | 0 <= k < |q| :: q[k] < |id|)
    requires forall i: nat, j: nat | i < j < |q| :: q[i] < q[j]
    requires PairRank(rules, Along(id, q), b) != EMPTY && v == rules[PairRank(rules, Along(id, q), b)].result
    ensures forall k | 0 <= k < |q| - 1 :: Unlink(q, b)[k] < |id|
    ensures Along(Overwrite(id, q[b], v, q[b + 1]), Unlink(q, b)) == MergeAt(rules, Along(id, q), b)
  {
    hide Unlink, Along, PairRank;
    var id', r := Overwrite(id, q[b], v, q[b + 1]), Unlink(q, b);
    var x, y := Along(id', r), MergeAt(rules, Along(id, q), b);
    forall k | 0 <= k < |x| ensures x[k] == y[k] {
      assert r[k] == q[if k <= b then k else k + 1];
    }
  }

  ghost predicate SmallIds(ids: seq<nat>) { forall k | 0 <= k < |ids| :: ids[k] < ID_LIMIT }

  lemma TableRules(slots: seq<Slot>, rules: seq<Rule>)
    requires Holds(slots, rules)
    ensures |rules| <= EMPTY
  {
  }

  lemma PairHere(rules: seq<Rule>, id: seq<nat>, q: seq<nat>, k: nat)
    requires |rules| <= EMPTY && k + 1 < |q| && forall k | 0 <= k < |q| :: q[k] < |id|
    ensures Rank(rules, id[q[k]], id[q[k + 1]], 0) == PairRank(rules, Along(id, q), k)
  {
  }

  lemma RankInRange(rules: seq<Rule>, ids: seq<nat>, b: nat)
    requires |rules| <= EMPTY && IsBest(rules, ids, b)
    ensures b + 1 < |ids| && PairRank(rules, ids, b) < |rules|
  {
  }

  lemma LinkHere(next: seq<nat>, prev: seq<nat>, q: seq<nat>, k: nat)
    requires Linked(next, prev, q)
    ensures k < |q| ==>
              && q[k] < |next| && q[k] < MAX_NODES
              && next[q[k]] == if k + 1 < |q| then q[k + 1] else NODE_NONE
  {
    if k < |q| { assert NodeAt(next, prev, q, k); }
  }

  lemma Increasing(next: seq<nat>, prev: seq<nat>, q: seq<nat>)
    requires Linked(next, prev, q)
    ensures forall i: nat, j: nat | i < j < |q| :: q[i] < q[j]
  {
  }

  lemma SmallAfter(rules: seq<Rule>, ids: seq<nat>, b: nat)
    requires |rules| <= EMPTY && IsBest(rules, ids, b)
    requires forall k | 0 <= k < |rules| :: rules[k].result < ID_LIMIT
    requires SmallIds(ids)
    ensures SmallIds(MergeAt(rules, ids, b))
  {
  }

  lemma DoneIsFixed(rules: seq<Rule>, ids: seq<nat>)
    requires |rules| <= EMPTY && (NoPair(rules, ids) || |ids| <= 1)
    ensures MergeAll(rules, ids) == ids && NoPair(rules, ids)
  {
    SomePairHasBest(rules, ids);
  }

  class NodeList {
    /** The fields of s_nodes, one array each. */
    const id: array<nat>
    const next: array<nat>
    const prev: array<nat>
    /** The live nodes in order. */
    ghost var q: seq<nat>

    ghost predicate InRange()
      reads this, id
    {
      forall k | 0 <= k < |q| :: q[k] < id.Length
    }

    ghost predicate Valid()
      reads this, id, next, prev
    {
      && id != next && id != prev && next != prev
      && id.Length == next.Length == prev.Length == MAX_NODES
      && Linked(next[..], prev[..], q) && q != [] && q[0] == 0
      && InRange()
    }

    ghost function Ids(): seq<nat>
      requires InRange()
      reads this, id
    {
      Along(id[..], q)
    }

    constructor ()
      ensures fresh(id) && fresh(next) && fresh(prev)
      ensures id != next && id != prev && next != prev && id.Length == next.Length == prev.Length == MAX_NODES
    {
      id, next, prev := new nat[MAX_NODES](_ => 0), new nat[MAX_NODES](_ => 0), new nat[MAX_NODES](_ => 0);
    }

    /** Build the doubly linked node list. */
    method Fill(ids: seq<nat>)
      requires id != next && id != prev && next != prev && id.Length == next.Length == prev.Length == MAX_NODES
      requires 0 < |ids| <= MAX_NODES
      modifies this, id, next, prev
      ensures Valid() && Ids() == ids
    {
      var n := |ids|;
      q := seq(n, k => k);
      var i := 0;
      while i < n
        invariant i <= n && q == seq(n, k => k)
        invariant forall k: nat | k < i :: id[k] == ids[k] && next[k] == (if k == n - 1 then NODE_NONE else k + 1)
                                          && prev[k] == (if k == 0 then NODE_NONE else k - 1)
      {
        id[i] := ids[i];
        prev[i] := if i == 0 then NODE_NONE else i - 1;
        next[i] := if i == n - 1 then NODE_NONE else i + 1;
        i := i + 1;
      }
      forall k: nat | k < |q| ensures NodeAt(next[..], prev[..], q, k) { assert q[k] == k; }
      assert Along(id[..], q) == ids;
    }

    /** The scan for the lowest-rank mergeable pair; NODE_NONE when there is none. */
    method FindBest(table: Table, ghost rules: seq<Rule>) returns (rank: nat, node: nat, ghost b: nat)
      requires Valid() && MergeTable.Ids(rules) && Holds(table.slots[..], rules)
      requires SmallIds(Ids())
      ensures node == NODE_NONE ==> NoPair(rules, Ids())
      ensures node != NODE_NONE ==> IsBest(rules, Ids(), b) && node == q[b] && rank == PairRank(rules, Ids(), b)
    {
      hide Linked, Holds, Beats, PairRank, Along;
      TableRules(table.slots[..], rules);
      rank, node, b := EMPTY, NODE_NONE, 0;
      var i := 0;
      ghost var k, ids := 0, Ids();
      while i != NODE_NONE
        invariant k <= |q| && i == (if k < |q| then q[k] else NODE_NONE)
        invariant rank <= EMPTY && (rank == EMPTY <==> node == NODE_NONE)
        invariant rank == EMPTY ==> forall j: nat | j < k && j + 1 < |q| :: PairRank(rules, ids, j) == EMPTY
        invariant rank != EMPTY ==> b < k && b + 1 < |q| && node == q[b] && rank == PairRank(rules, ids, b)
                                    && forall j: nat | j < k && j + 1 < |q| :: Beats(rules, ids, b, j)
        decreases |q| - k
      {
        LinkHere(next[..], prev[..], q, k);
        var j := next[i];
        if j == NODE_NONE { break; }
        LinkHere(next[..], prev[..], q, k + 1);
        var r := table.Lookup(rules, id[i], id[j]);
        PairHere(rules, id[..], q, k);
        NewBest(rules, ids, k, b, rank);
        if r < rank {
          rank, node, b := r, i, k;
        }
        i := next[i];
        k := k + 1;
      }
    }

    /** Replace node i by the merge result and unlink its successor. */
    method Apply(i: nat, result: nat, ghost rules: seq<Rule>, ghost b: nat)
      requires Valid() && |rules| <= EMPTY && IsBest(rules, Ids(), b) && i == q[b]
      requires result == rules[PairRank(rules, Ids(), b)].result
      modifies this, id, next, prev
      ensures Valid() && Ids() == MergeAt(rules, old(Ids()), b) && |q| == |old(q)| - 1
    {
      ghost var nx, pv, d := next[..], prev[..], id[..];
      UnlinkKeeps(nx, pv, q, b);
      LinkHere(nx, pv, q, b + 1);
      Increasing(nx, pv, q);
      MergeAlong(rules, d, q, b, result);
      hide Linked, MergeAt;
      var j := next[i];
      id[i] := result;
      var jnext := next[j];
      next[i] := jnext;
      if jnext != NODE_NONE { prev[jnext] := i; }
      id[j] := NODE_NONE;
      assert next[..] == nx[q[b] := nx[q[b + 1]]];
      assert prev[..] == if b + 2 < |q| then pv[q[b + 2] := q[b]] else pv;
      assert id[..] == Overwrite(d, q[b], result, q[b + 1]);
      q := Unlink(q, b);
    }

    /** One round: find the best pair and merge it. */
    method MergeBest(table: Table, rules: seq<Rule>) returns (found: bool)
      requires Valid() && MergeTable.Ids(rules) && Holds(table.slots[..], rules)
      requires forall k | 0 <= k < |rules| :: rules[k].result < ID_LIMIT
      requires SmallIds(Ids())
      requires table.slots as object != id && table.slots as object != next && table.slots as object != prev
      modifies this, id, next, prev
      ensures Valid() && SmallIds(Ids())
      ensures !found ==> NoPair(rules, Ids()) && Ids() == old(Ids())
      ensures found ==> MergeAll(rules, Ids()) == MergeAll(rules, old(Ids())) && |q| == |old(q)| - 1
    {
      assert |rules| <= EMPTY;
      hide Linked, Holds, IsBest, NoPair, PairRank, MergeAll, Along;
      var rank, node, b := FindBest(table, rules);
      if node == NODE_NONE { return false; }
      ghost var ids := Ids();
      RankInRange(rules, ids, b);
      MergeAllStep(rules, ids, b);
      SmallAfter(rules, ids, b);
      Apply(node, rules[rank].result, rules, b);
      return true;
    }

    /** The merge loop. */
    method MergeLoop(table: Table, rules: seq<Rule>, nodes: nat) returns (ghost merges: nat)
      requires Valid() && MergeTable.Ids(rules) && Holds(table.slots[..], rules) && nodes == |q|
      requires forall k | 0 <= k < |rules| :: rules[k].result < ID_LIMIT
      requires SmallIds(Ids())
      requires table.slots as object != id && table.slots as object != next && table.slots as object != prev
      modifies this, id, next, prev
      ensures Valid() && Ids() == MergeAll(rules, old(Ids()))
      ensures merges == |old(q)| - |q| <= |old(q)| - 1 && NoPair(rules, Ids())
    {
      merges := 0;
      var live := nodes;
      var changed := true;
      hide Linked, Holds, NoPair, MergeAll, Along;
      while changed && live > 1
        invariant Valid() && live == |q| && merges + live == |old(q)| && SmallIds(Ids())
        invariant MergeAll(rules, Ids()) == MergeAll(rules, old(Ids()))
        invariant !changed ==> NoPair(rules, Ids())
        decreases live, changed
      {
        changed := MergeBest(table, rules);
        if changed {
          live := live - 1;
          merges := merges + 1;
        }
      }
      DoneIsFixed(rules, Ids());
    }
  }
}
