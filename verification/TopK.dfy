/** Top-k selection (kernel/llm/model.c, topk_sort) over real scores. */
module TopK {
  import opened Arith

  /** (uint32_t)-1, the empty place. */
  const NONE: nat := 0xFFFF_FFFF

  /** a comes before b in the stable descending order. */
  predicate Precedes(scores: seq<real>, a: nat, b: nat)
    requires a < |scores| && b < |scores|
  {
    scores[a] > scores[b] || (scores[a] == scores[b] && a < b)
  }

  ghost predicate Indices(scores: seq<real>, s: seq<nat>) { forall i | 0 <= i < |s| :: s[i] < |scores| }

  ghost predicate Sorted(scores: seq<real>, s: seq<nat>)
    requires Indices(scores, s)
  {
    forall i: nat, j: nat | i < j < |s| :: Precedes(scores, s[i], s[j])
  }

  /** s lists 0 .. m - 1 in stable descending order of their scores. */
  ghost predicate IsOrder(scores: seq<real>, m: nat, s: seq<nat>)
  {
    && m <= |scores| && |s| == m && Indices(scores, s) && Sorted(scores, s)
    && (forall i | 0 <= i < m :: s[i] < m)
    && forall v: nat | v < m :: v in s
  }

  /** How many of the first elements score at least sv. */
  function Position(scores: seq<real>, s: seq<nat>, sv: real, i: nat): (p: nat)
    requires i <= |s| && Indices(scores, s)
    ensures i <= p <= |s| && (p < |s| ==> scores[s[p]] < sv)
    ensures forall j | i <= j < p :: scores[s[j]] >= sv
    decreases |s| - i
  {
    if i == |s| || scores[s[i]] < sv then i else Position(scores, s, sv, i + 1)
  }

  /** The order with index m added. */
  function Insert(scores: seq<real>, s: seq<nat>, v: nat): (r: seq<nat>)
    requires Indices(scores, s) && v < |scores|
    ensures |r| == |s| + 1
  {
    var p := Position(scores, s, scores[v], 0);
    s[..p] + [v] + s[p..]
  }

  function Inserted(scores: seq<real>, s: seq<nat>, v: nat): (r: seq<nat>)
    requires v < |scores| && |s| == v && forall i | 0 <= i < |s| :: s[i] < v
    ensures |r| == v + 1 && forall i | 0 <= i < |r| :: r[i] < v + 1
  {
    Insert(scores, s, v)
  }

  /** The indices below m by repeated insertion. */
  function Order(scores: seq<real>, m: nat): (s: seq<nat>)
    requires m <= |scores|
    ensures |s| == m && forall i | 0 <= i < m :: s[i] < m
  {
    if m == 0 then [] else Inserted(scores, Order(scores, m - 1), m - 1)
  }

  lemma InsertAt(scores: seq<real>, s: seq<nat>, v: nat, i: nat)
    requires Indices(scores, s) && v < |scores| && i <= |s|
    ensures var p := Position(scores, s, scores[v], 0);
            Insert(scores, s, v)[i] == if i < p then s[i] else if i == p then v else s[i - 1]
  {
    hide Position;
  }

  lemma InsertSorted(scores: seq<real>, s: seq<nat>, v: nat, i: nat, j: nat)
    requires IsOrder(scores, v, s) && v < |scores| && i < j <= |s|
    ensures var r := Insert(scores, s, v); r[i] < |scores| && r[j] < |scores| && Precedes(scores, r[i], r[j])
  {
    hide Position, Insert;
    var p := Position(scores, s, scores[v], 0);
    InsertAt(scores, s, v, i);
    InsertAt(scores, s, v, j);
    if i == p {
      if j > p + 1 { assert Precedes(scores, s[p], s[j - 1]); }
    } else if j != p {
      assert Precedes(scores, s[if i < p then i else i - 1], s[if j < p then j else j - 1]);
    }
  }

  /** Insertion keeps the stable descending order. */
  lemma InsertKeepsOrder(scores: seq<real>, s: seq<nat>, v: nat)
    requires IsOrder(scores, v, s) && v < |scores|
    ensures IsOrder(scores, v + 1, Insert(scores, s, v))
  {
    hide Position, Insert, Precedes;
    var p, r := Position(scores, s, scores[v], 0), Insert(scores, s, v);
    forall i: nat, j: nat | i < j < |r| ensures r[i] < |scores| && r[j] < |scores| && Precedes(scores, r[i], r[j]) {
      InsertSorted(scores, s, v, i, j);
    }
    forall i | 0 <= i < |r| ensures r[i] < v + 1 { InsertAt(scores, s, v, i); }
    forall w: nat | w < v + 1 ensures w in r {
      if w < v {
        assert w in s;
        var i: nat :| i < |s| && s[i] == w;
        InsertAt(scores, s, v, if i < p then i else i + 1);
        assert r[if i < p then i else i + 1] == w;
      } else {
        InsertAt(scores, s, v, p);
        assert r[p] == v;
      }
    }
  }

  lemma EmptyOrder(scores: seq<real>)
    ensures IsOrder(scores, 0, [])
  {
  }

  /** The reference order is the stable descending order of all indices below m. */
  lemma {:induction false} OrderIsOrder(scores: seq<real>, m: nat)
    requires m <= |scores|
    ensures IsOrder(scores, m, Order(scores, m))
  {
    hide IsOrder, Insert;
    if m > 0 {
      OrderIsOrder(scores, m - 1);
      InsertKeepsOrder(scores, Order(scores, m - 1), m - 1);
    } else {
      EmptyOrder(scores);
    }
  }

  /** The first k places of an order, the rest empty. */
  function Pad(s: seq<nat>, k: nat): (r: seq<nat>)
    ensures |r| == k
    ensures forall i | 0 <= i < k :: r[i] == if i < |s| then s[i] else NONE
  {
    s[..Min(k, |s|)] + seq(k - Min(k, |s|), _ => NONE)
  }

  /** In an order, everything from the insertion point on scores less. */
  lemma BelowPosition(scores: seq<real>, m: nat, s: seq<nat>, sv: real, j: nat)
    requires IsOrder(scores, m, s) && j < |s|
    ensures scores[s[j]] < sv <==> j >= Position(scores, s, sv, 0)
  {
    var p := Position(scores, s, sv, 0);
    if j > p { assert Precedes(scores, s[p], s[j]); }
  }

  lemma PaddedAt(scores: seq<real>, s: seq<nat>, v: nat, k: nat, i: nat)
    requires Indices(scores, s) && |s| == v && v < |scores| && i < k
    ensures var p := Position(scores, s, scores[v], 0);
            Pad(Insert(scores, s, v), k)[i] == if i < p then Pad(s, k)[i] else if i == p then v else Pad(s, k)[i - 1]
  {
    hide Position, Insert;
    if i <= v { InsertAt(scores, s, v, i); }
  }

  /** Whether the new index gets into the first k places, and where. */
  lemma InsertPadded(scores: seq<real>, s: seq<nat>, v: nat, k: nat)
    requires IsOrder(scores, v, s) && v < |scores| < NONE && k >= 1
    ensures var p := Position(scores, s, scores[v], 0);
            var t, t' := Pad(s, k), Pad(Insert(scores, s, v), k);
            && (t[k - 1] != NONE <==> v >= k)
            && (p >= k <==> v >= k && scores[v] <= scores[s[k - 1]])
            && (p >= k ==> t' == t)
            && (p < k ==> t' == t[..p] + [v] + t[p..k - 1])
  {
    hide Position, Insert;
    var p := Position(scores, s, scores[v], 0);
    var t, t' := Pad(s, k), Pad(Insert(scores, s, v), k);
    if p >= k {
      forall i | 0 <= i < k ensures t'[i] == t[i] { PaddedAt(scores, s, v, k, i); }
      assert t' == t;
    } else {
      var u := t[..p] + [v] + t[p..k - 1];
      forall i | 0 <= i < k ensures t'[i] == u[i] { PaddedAt(scores, s, v, k, i); }
      assert t' == u;
    }
    if v >= k {
      assert s[k - 1] < v;
      BelowPosition(scores, v, s, scores[v], k - 1);
    }
  }

  /** Where the shifting loop stops. */
  lemma ShiftStops(scores: seq<real>, s: seq<nat>, v: nat, k: nat, i: nat)
    requires IsOrder(scores, v, s) && v < |scores| < NONE && 0 < i < k
    ensures (Pad(s, k)[i - 1] == NONE || (i - 1 < |s| && scores[s[i - 1]] < scores[v]))
            <==> i - 1 >= Position(scores, s, scores[v], 0)
    ensures Pad(s, k)[i - 1] != NONE ==> i - 1 < |s| && Pad(s, k)[i - 1] == s[i - 1] < |scores|
  {
    if i - 1 < |s| { BelowPosition(scores, v, s, scores[v], i - 1); }
  }

  lemma OrderIndices(scores: seq<real>, m: nat, s: seq<nat>)
    requires IsOrder(scores, m, s)
    ensures Indices(scores, s)
  {
  }

  /** Shift the places from the insertion point on and store v. */
  method Place(scores: seq<real>, v: nat, out: array<nat>, ghost s: seq<nat>)
    requires IsOrder(scores, v, s) && v < |scores| < NONE && out.Length >= 1 && out[..] == Pad(s, out.Length)
    requires Position(scores, s, scores[v], 0) < out.Length
    modifies out
    ensures var p, t := Position(scores, s, scores[v], 0), old(out[..]); out[..] == t[..p] + [v] + t[p..out.Length - 1]
  {
    hide IsOrder, Position, Pad;
    OrderIndices(scores, v, s);
    ghost var p, t := Position(scores, s, scores[v], 0), out[..];
    var ins := out.Length - 1;
    while ins > 0
      invariant p <= ins < out.Length
      invariant forall j | 0 <= j <= ins :: out[j] == t[j]
      invariant forall j | ins < j < out.Length :: out[j] == t[j - 1]
      decreases ins
    {
      ShiftStops(scores, s, v, out.Length, ins);
      if out[ins - 1] != NONE {
        if scores[out[ins - 1]] >= scores[v] { break; }
      }
      out[ins] := out[ins - 1];
      ins := ins - 1;
    }
    out[ins] := v;
  }

  /** topk_sort: the first min(k, n) indices of the stable descending order, then empty places. */
  method TopkSort(scores: seq<real>, out: array<nat>)
    requires out.Length >= 1 && |scores| < NONE
    modifies out
    ensures out[..] == Pad(Order(scores, |scores|), out.Length)
  {
    hide IsOrder, Position, Insert;
    var k := out.Length;
    var i := 0;
    while i < k
      invariant i <= k && forall j | 0 <= j < i :: out[j] == NONE
    {
      out[i] := NONE;
      i := i + 1;
    }
    var v := 0;
    assert out[..] == Pad([], k);
    while v < |scores|
      invariant v <= |scores| && out[..] == Pad(Order(scores, v), k)
    {
      ghost var s := Order(scores, v);
      OrderIsOrder(scores, v);
      InsertPadded(scores, s, v, k);
      if out[k - 1] != NONE && scores[v] <= scores[out[k - 1]] {
      } else {
        Place(scores, v, out, s);
      }
      v := v + 1;
    }
  }
}
