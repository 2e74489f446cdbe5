/** What the nucleus filter of kernel/llm/model.c keeps, against its promise: the smallest set of
    tokens whose cumulated weight reaches top_p. */
module Nucleus {
  import opened Arith
  import opened TopK
  import opened Sampling

  // ----- Sets of tokens -----

  /** A set of tokens, one flag a token. */
  type Mask = seq<bool>

  /** The weight of the chosen tokens among the first n. */
  function Weight(p: seq<real>, m: Mask, n: nat): real
    requires n <= |p| == |m|
  {
    if n == 0 then 0.0 else Weight(p, m, n - 1) + if m[n - 1] then p[n - 1] else 0.0
  }

  function Count(m: Mask, n: nat): (c: nat)
    requires n <= |m|
    ensures c <= n
  {
    if n == 0 then 0 else Count(m, n - 1) + if m[n - 1] then 1 else 0
  }

  /** The set reaches topP, and no smaller set does. */
  ghost predicate Smallest(p: seq<real>, m: Mask, topP: real)
    requires |m| == |p|
  {
    && Weight(p, m, |p|) >= topP
    && forall o: Mask | |o| == |p| && Weight(p, o, |p|) >= topP :: Count(m, |p|) <= Count(o, |p|)
  }

  lemma {:induction false} Flip(p: seq<real>, m: Mask, v: nat, n: nat)
    requires n <= |p| == |m| && v < |p| && !m[v]
    ensures Count(m[v := true], n) == Count(m, n) + if v < n then 1 else 0
    ensures Weight(p, m[v := true], n) == Weight(p, m, n) + if v < n then p[v] else 0.0
  {
    if n > 0 { Flip(p, m, v, n - 1); }
  }

  lemma {:induction false} Included(p: seq<real>, a: Mask, b: Mask, n: nat)
    requires n <= |p| == |a| == |b| && NonNegative(p) && forall v | 0 <= v < |a| :: a[v] ==> b[v]
    ensures Count(a, n) <= Count(b, n) && Weight(p, a, n) <= Weight(p, b, n)
  {
    if n > 0 { Included(p, a, b, n - 1); }
  }

  lemma {:induction false} AllCounted(p: seq<real>, m: Mask, n: nat)
    requires n <= |p| == |m| && forall v | 0 <= v < |m| :: m[v]
    ensures Count(m, n) == n && Weight(p, m, n) == Sum(p, n)
  {
    if n > 0 { AllCounted(p, m, n - 1); }
  }

  // ----- The first tokens in descending order -----

  /** The weight of the first j tokens of an order. */
  function Cum(p: seq<real>, order: seq<nat>, j: nat): real
    requires j <= |order| && Indices(p, order)
  {
    if j == 0 then 0.0 else Cum(p, order, j - 1) + p[order[j - 1]]
  }

  /** How many tokens from the j-th on it takes until the weight reaches topP; all if it never does. */
  function Reach(p: seq<real>, order: seq<nat>, topP: real, j: nat): (m: nat)
    requires j <= |order| && Indices(p, order)
    ensures j <= m <= |order| && (m < |order| ==> Cum(p, order, m) >= topP)
    ensures forall i | j <= i < m :: Cum(p, order, i) < topP
    decreases |order| - j
  {
    if j == |order| || Cum(p, order, j) >= topP then j else Reach(p, order, topP, j + 1)
  }

  /** The first j tokens of the order. */
  function Leading(p: seq<real>, order: seq<nat>, j: nat): (m: Mask)
    requires j <= |order| && Indices(p, order)
    ensures |m| == |p|
  {
    if j == 0 then seq(|p|, _ => false) else Leading(p, order, j - 1)[order[j - 1] := true]
  }

  lemma {:induction false} NoneCounted(p: seq<real>, n: nat)
    requires n <= |p|
    ensures Count(seq(|p|, _ => false), n) == 0 && Weight(p, seq(|p|, _ => false), n) == 0.0
  {
    if n > 0 { NoneCounted(p, n - 1); }
  }

  /** Every token has one place in the order. */
  lemma Once(p: seq<real>, order: seq<nat>, i: nat, j: nat)
    requires IsOrder(p, |p|, order) && i < |p| && j < |p|
    ensures order[i] == order[j] <==> i == j
    ensures i <= j ==> p[order[i]] >= p[order[j]]
  {
    if i < j { assert Precedes(p, order[i], order[j]); }
    if j < i { assert Precedes(p, order[j], order[i]); }
  }

  lemma {:induction false} LeadingIs(p: seq<real>, order: seq<nat>, j: nat)
    requires IsOrder(p, |p|, order) && j <= |p|
    ensures forall i | 0 <= i < |order| :: Leading(p, order, j)[order[i]] <==> i < j
    ensures Count(Leading(p, order, j), |p|) == j && Weight(p, Leading(p, order, j), |p|) == Cum(p, order, j)
  {
    if j == 0 {
      NoneCounted(p, |p|);
    } else {
      LeadingIs(p, order, j - 1);
      Flip(p, Leading(p, order, j - 1), order[j - 1], |p|);
      forall i | 0 <= i < |order| ensures order[i] == order[j - 1] <==> i == j - 1 { Once(p, order, i, j - 1); }
    }
  }

  /** A token is in front of place j or weighs at most what stands there. */
  lemma Split(p: seq<real>, order: seq<nat>, j: nat, v: nat)
    requires IsOrder(p, |p|, order) && j < |p| && v < |p|
    ensures if Leading(p, order, j)[v] then p[v] >= p[order[j]] else p[v] <= p[order[j]]
  {
    LeadingIs(p, order, j);
    assert v in order;
    var i: nat :| i < |order| && order[i] == v;
    Once(p, order, i, j);
    Once(p, order, j, i);
  }

  // ----- No set of the same size weighs more -----

  /** The weights of the chosen tokens above a level. */
  function Above(p: seq<real>, m: Mask, level: real, n: nat): real
    requires n <= |p| == |m|
  {
    if n == 0 then 0.0 else Above(p, m, level, n - 1) + if m[n - 1] then p[n - 1] - level else 0.0
  }

  function Levels(level: real, k: nat): real { if k == 0 then 0.0 else Levels(level, k - 1) + level }

  lemma {:induction false} WeightIsAbove(p: seq<real>, m: Mask, level: real, n: nat)
    requires n <= |p| == |m|
    ensures Weight(p, m, n) == Above(p, m, level, n) + Levels(level, Count(m, n))
  {
    if n > 0 { WeightIsAbove(p, m, level, n - 1); }
  }

  lemma {:induction false} AboveIsMost(p: seq<real>, a: Mask, b: Mask, level: real, n: nat)
    requires n <= |p| == |a| == |b|
    requires forall v | 0 <= v < |p| :: if b[v] then p[v] >= level else p[v] <= level
    ensures Above(p, a, level, n) <= Above(p, b, level, n)
  {
    if n > 0 { AboveIsMost(p, a, b, level, n - 1); }
  }

  lemma OrderParts(p: seq<real>, order: seq<nat>)
    requires IsOrder(p, |p|, order)
    ensures |order| == |p| && Indices(p, order)
  {
  }

  /** No set of j tokens weighs more than the first j in descending order. */
  lemma LeadingIsHeaviest(p: seq<real>, order: seq<nat>, o: Mask)
    requires IsOrder(p, |p|, order) && |o| == |p| && Count(o, |p|) < |p|
    ensures Weight(p, o, |p|) <= Cum(p, order, Count(o, |p|))
  {
    hide IsOrder, Weight, Count, Above, Leading;
    var j := Count(o, |p|);
    OrderParts(p, order);
    var first, level := Leading(p, order, j), p[order[j]];
    LeadingIs(p, order, j);
    forall v | 0 <= v < |p| ensures if first[v] then p[v] >= level else p[v] <= level { Split(p, order, j, v); }
    AboveIsMost(p, o, first, level, |p|);
    WeightIsAbove(p, o, level, |p|);
    WeightIsAbove(p, first, level, |p|);
  }

  lemma CumIsSum(p: seq<real>, order: seq<nat>)
    requires IsOrder(p, |p|, order)
    ensures Cum(p, order, |p|) == Sum(p, |p|)
  {
    var all := Leading(p, order, |p|);
    LeadingIs(p, order, |p|);
    forall v | 0 <= v < |p| ensures all[v] {
      assert v in order;
      var i: nat :| i < |order| && order[i] == v;
    }
    AllCounted(p, all, |p|);
  }

  lemma ReachIs(p: seq<real>, order: seq<nat>, topP: real)
    requires |order| == |p| && Indices(p, order) && Cum(p, order, |p|) >= topP
    ensures var r := Reach(p, order, topP, 0);
            && r <= |p| && Cum(p, order, r) >= topP && forall i: nat | i < r :: Cum(p, order, i) < topP
  {
  }

  /** A set is smallest exactly when it reaches topP and has as many tokens as it takes in descending
      order. */
  lemma SmallestIff(p: seq<real>, order: seq<nat>, m: Mask, topP: real)
    requires IsOrder(p, |p|, order) && |m| == |p| && topP <= Sum(p, |p|) && Weight(p, m, |p|) >= topP
    ensures Smallest(p, m, topP) <==> Count(m, |p|) == Reach(p, order, topP, 0)
  {
    hide IsOrder, Weight, Count, Leading, Cum, Reach, Sum;
    OrderParts(p, order);
    CumIsSum(p, order);
    ReachIs(p, order, topP);
    var r := Reach(p, order, topP, 0);
    LeadingIs(p, order, r);
    assert Weight(p, Leading(p, order, r), |p|) >= topP;
    forall o: Mask | |o| == |p| && Weight(p, o, |p|) >= topP ensures r <= Count(o, |p|) {
      if Count(o, |p|) < |p| { LeadingIsHeaviest(p, order, o); }
    }
  }

  // ----- The filter -----

  /** The threshold of the filter is the weight of the last token it takes, if that is one of the
      first 128. */
  lemma {:induction false} ThresholdIs(p: seq<real>, order: seq<nat>, lim: nat, i: nat, topP: real)
    requires i <= lim <= |order| && Indices(p, order) && Cum(p, order, i) < topP
    requires Cum(p, order, |order|) >= topP
    ensures i < Reach(p, order, topP, i) <= |order|
    ensures var m := Reach(p, order, topP, i);
            Threshold(p, order[..lim], i, Cum(p, order, i), topP) == if m <= lim then p[order[m - 1]] else 0.0
    decreases lim - i
  {
    if i < lim && !(Cum(p, order, i + 1) >= topP) { ThresholdIs(p, order, lim, i + 1, topP); }
  }

  /** The tokens the filter keeps. */
  function Nucleus(p: seq<real>, topP: real): (m: Mask)
    ensures |m| == |p|
  {
    var t := Threshold(p, TopTokens(p, MAX_K), 0, 0.0, topP);
    seq(|p|, v requires 0 <= v < |p| => p[v] >= t)
  }

  lemma NormalSigns(p: seq<real>, c: seq<real>)
    requires NonNegative(c)
    ensures forall v | 0 <= v < |c| :: Normal(c)[v] > 0.0 <==> c[v] > 0.0
  {
    if exists v :: 0 <= v < |c| && c[v] > 0.0 { NormalIsDistribution(c); }
  }

  /** It is these tokens whose weights survive; a top_p outside the open unit interval filters nothing. */
  lemma NucleusSurvives(p: seq<real>, cfg: Config)
    requires Weights(p)
    ensures 0.0 < cfg.topP < 1.0 ==>
              forall v | 0 <= v < |p| :: AfterTopP(p, cfg)[v] > 0.0 <==> p[v] > 0.0 && Nucleus(p, cfg.topP)[v]
    ensures !(0.0 < cfg.topP < 1.0) ==> AfterTopP(p, cfg) == p
  {
    hide TopTokens, Normal, Threshold;
    var c := Cut(p, Threshold(p, TopTokens(p, MAX_K), 0, 0.0, cfg.topP));
    TopPKeepsWeights(p, cfg);
    NormalSigns(p, c);
  }

  /** How many tokens it takes in descending order to reach topP. */
  function Needed(p: seq<real>, topP: real): (m: nat)
    ensures m <= |p|
  {
    Reach(p, Order(p, |p|), topP, 0)
  }

  lemma NoThreshold(p: seq<real>, topP: real, v: nat)
    requires NonNegative(p) && v < |p| && Threshold(p, TopTokens(p, MAX_K), 0, 0.0, topP) == 0.0
    ensures Nucleus(p, topP)[v]
  {
  }

  lemma InFront(p: seq<real>, order: seq<nat>, m: nat, v: nat)
    requires IsOrder(p, |p|, order) && 1 <= m <= |p| && v < |p|
    ensures Leading(p, order, m)[v] ==> p[v] >= p[order[m - 1]]
  {
    LeadingIs(p, order, m);
    assert v in order;
    var i: nat :| i < |order| && order[i] == v;
    if i < m { Once(p, order, i, m - 1); }
  }

  /** Keeping everything that weighs at least as much as the m-th token. */
  lemma TakenByWeight(p: seq<real>, order: seq<nat>, m: nat, kept: Mask)
    requires IsOrder(p, |p|, order) && NonNegative(p) && 1 <= m <= |p| == |kept|
    requires forall v: nat | v < |p| :: kept[v] <==> p[v] >= p[order[m - 1]]
    ensures Weight(p, kept, |p|) >= Cum(p, order, m)
    ensures Count(kept, |p|) == m <==> m == |p| || p[order[m]] < p[order[m - 1]]
  {
    hide Weight, Count, Leading, IsOrder;
    OrderParts(p, order);
    var first := Leading(p, order, m);
    LeadingIs(p, order, m);
    forall v: nat | v < |p| ensures first[v] ==> kept[v] { InFront(p, order, m, v); }
    Included(p, first, kept, |p|);
    if m == |p| {
    } else if p[order[m]] < p[order[m - 1]] {
      forall v: nat | v < |p| ensures kept[v] == first[v] { Split(p, order, m, v); InFront(p, order, m, v); }
      assert kept == first;
    } else {
      var more := Leading(p, order, m + 1);
      LeadingIs(p, order, m + 1);
      Once(p, order, m - 1, m);
      forall v: nat | v < |p| ensures more[v] ==> kept[v] { InFront(p, order, m + 1, v); }
      Included(p, more, kept, |p|);
    }
  }

  /** The filter's set reaches topP, and it is a smallest such set exactly when it takes all tokens,
      or at most 128 and the next token weighs less than the last one taken. */
  lemma NucleusSmallestIff(p: seq<real>, topP: real)
    requires NonNegative(p) && 0.0 < topP <= Sum(p, |p|)
    ensures var m, order := Needed(p, topP), Order(p, |p|);
            && 1 <= m && Weight(p, Nucleus(p, topP), |p|) >= topP
            && (Smallest(p, Nucleus(p, topP), topP) <==>
                m == |p| || (m <= 128 && p[order[m]] < p[order[m - 1]]))
  {
    hide Order, IsOrder, Weight, Count, Smallest, Threshold, Reach, Leading, Sum;
    var order, lim, m, kept := Order(p, |p|), Min(|p|, MAX_K), Needed(p, topP), Nucleus(p, topP);
    OrderIsOrder(p, |p|);
    OrderParts(p, order);
    CumIsSum(p, order);
    ThresholdIs(p, order, lim, 0, topP);
    LeadingIs(p, order, m);
    ReachIs(p, order, topP);
    if m <= lim {
      TakenByWeight(p, order, m, kept);
    } else {
      forall v | 0 <= v < |p| ensures kept[v] { NoThreshold(p, topP, v); }
      AllCounted(p, kept, |p|);
    }
    SmallestIff(p, order, kept, topP);
  }

  /** A tie: one of two equal tokens would do, both are kept. */
  lemma TieKeepsBoth()
    ensures var p := [0.5, 0.5];
            && Needed(p, 0.5) == 1 && Nucleus(p, 0.5) == [true, true] && !Smallest(p, Nucleus(p, 0.5), 0.5)
  {
    hide Order, Smallest, Threshold, Leading;
    var p := [0.5, 0.5];
    var order := Order(p, 2);
    OrderIsOrder(p, 2);
    assert p[order[0]] == 0.5 && p[order[1]] == 0.5;
    assert Sum(p, 1) == 0.5;
    assert Cum(p, order, 0) == 0.0 && Cum(p, order, 1) == 0.5;
    NucleusSmallestIff(p, 0.5);
    CumIsSum(p, order);
    ThresholdIs(p, order, 2, 0, 0.5);
  }

  lemma {:induction false} UniformCum(p: seq<real>, order: seq<nat>, w: real, j: nat)
    requires Indices(p, order) && j <= |order| && forall v | 0 <= v < |p| :: p[v] == w
    ensures Cum(p, order, j) == Times(j as real, w)
  {
    if j > 0 { UniformCum(p, order, w, j - 1); }
  }

  /** The limit: of 200 equal weights 180 would reach 0.9, all are kept. */
  lemma LimitKeepsAll()
    ensures var p := seq(200, _ => 0.005);
            && Sum(p, |p|) == 1.0 && Needed(p, 0.9) == 180
            && (forall v | 0 <= v < 200 :: Nucleus(p, 0.9)[v]) && !Smallest(p, Nucleus(p, 0.9), 0.9)
  {
    hide Order, IsOrder, Smallest, Threshold, Cum, Reach, Sum;
    var p := seq(200, _ => 0.005);
    var order := Order(p, 200);
    OrderIsOrder(p, 200);
    OrderParts(p, order);
    CumIsSum(p, order);
    UniformCum(p, order, 0.005, 179);
    UniformCum(p, order, 0.005, 180);
    UniformCum(p, order, 0.005, 200);
    UniformCum(p, order, 0.005, 0);
    ReachIs(p, order, 0.9);
    var m := Needed(p, 0.9);
    UniformCum(p, order, 0.005, m);
    assert m == 180;
    ThresholdIs(p, order, 128, 0, 0.9);
    forall v | 0 <= v < 200 ensures Nucleus(p, 0.9)[v] { NoThreshold(p, 0.9, v); }
    NucleusSmallestIff(p, 0.9);
  }
}
