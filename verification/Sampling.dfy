/** Choosing the next token (kernel/llm/model.c, model_sample) over real numbers: softmax, the top-k
    and top-p filters, and the inverse of the cumulative distribution. */
module Sampling {
  import opened Arith
  import opened TopK

  /** The size of the static arrays. */
  const MAX_TOKENS: nat := 131072
  const MAX_K: nat := 128

  datatype Config = Config(temperature: real, topK: nat, topP: real)

  // ----- Weights -----

  /** The sum of the first n weights. */
  function Sum(p: seq<real>, n: nat): real
    requires n <= |p|
  {
    if n == 0 then 0.0 else Sum(p, n - 1) + p[n - 1]
  }

  ghost predicate NonNegative(p: seq<real>) { forall v | 0 <= v < |p| :: p[v] >= 0.0 }

  /** Weights a token can be drawn from. */
  ghost predicate Weights(p: seq<real>) { NonNegative(p) && exists v :: 0 <= v < |p| && p[v] > 0.0 }

  function Times(x: real, f: real): real { x * f }

  function Scaled(p: seq<real>, f: real): (r: seq<real>)
    ensures |r| == |p| && forall v | 0 <= v < |p| :: r[v] == Times(p[v], f)
  {
    seq(|p|, v requires 0 <= v < |p| => Times(p[v], f))
  }

  /** Divided by their sum, unless it is not positive. */
  function Normal(p: seq<real>): (r: seq<real>)
    ensures |r| == |p|
  {
    var s := Sum(p, |p|);
    if s > 0.0 then Scaled(p, 1.0 / s) else p
  }

  lemma {:induction false} SumScaled(p: seq<real>, f: real, n: nat)
    requires n <= |p|
    ensures Sum(Scaled(p, f), n) == Sum(p, n) * f
  {
    if n > 0 { SumScaled(p, f, n - 1); }
  }

  lemma {:induction false} SumGrows(p: seq<real>, i: nat, n: nat)
    requires NonNegative(p) && i <= n <= |p|
    ensures 0.0 <= Sum(p, i) <= Sum(p, n)
    decreases n
  {
    if i < n { SumGrows(p, i, n - 1); } else if n > 0 { SumGrows(p, n - 1, n - 1); }
  }

  lemma WeightsHaveSum(p: seq<real>)
    requires Weights(p)
    ensures Sum(p, |p|) > 0.0
  {
    var v :| 0 <= v < |p| && p[v] > 0.0;
    SumGrows(p, v, v);
    SumGrows(p, v + 1, |p|);
  }

  lemma CrossScaled(x: real, y: real, f: real)
    ensures Times(x, f) * y == Times(y, f) * x
  {
    assert x * f * y == y * f * x;
  }

  /** Normalising keeps the ratios. */
  lemma NormalRatio(p: seq<real>, v: nat, w: nat)
    requires v < |p| && w < |p|
    ensures Normal(p)[v] * p[w] == Normal(p)[w] * p[v]
  {
    hide Sum;
    if Sum(p, |p|) > 0.0 { CrossScaled(p[v], p[w], 1.0 / Sum(p, |p|)); }
  }

  lemma Inverse(s: real) returns (f: real)
    requires s > 0.0
    ensures f == 1.0 / s && f > 0.0 && s * f == 1.0
  {
    f := 1.0 / s;
  }

  lemma ScaleSign(x: real, f: real)
    requires x >= 0.0 && f > 0.0
    ensures Times(x, f) >= 0.0 && (Times(x, f) > 0.0 <==> x > 0.0)
  {
  }

  /** Normalised weights sum to one, and no weight appears or vanishes. */
  lemma NormalIsDistribution(p: seq<real>)
    requires Weights(p)
    ensures Sum(Normal(p), |p|) == 1.0 && Weights(Normal(p))
    ensures forall v | 0 <= v < |p| :: Normal(p)[v] > 0.0 <==> p[v] > 0.0
  {
    hide Sum, Scaled, Times;
    WeightsHaveSum(p);
    var s := Sum(p, |p|);
    var f := Inverse(s);
    var r := Normal(p);
    SumScaled(p, f, |p|);
    assert r == Scaled(p, f);
    forall v | 0 <= v < |p| ensures r[v] >= 0.0 && (r[v] > 0.0 <==> p[v] > 0.0) { ScaleSign(p[v], f); }
    var v :| 0 <= v < |p| && p[v] > 0.0;
    assert r[v] > 0.0;
  }

  // ----- The stages -----

  function MaxLogit(l: seq<real>, n: nat): (m: real)
    requires 1 <= n <= |l|
    ensures exists v :: 0 <= v < n && l[v] == m
    ensures forall v | 0 <= v < n :: l[v] <= m
  {
    if n == 1 then l[0] else if l[n - 1] > MaxLogit(l, n - 1) then l[n - 1] else MaxLogit(l, n - 1)
  }

  /** A logit against the largest one, on the temperature's scale. */
  function Level(l: seq<real>, n: nat, temperature: real, v: nat): real
    requires 1 <= n <= |l| && temperature != 0.0 && v < n
  {
    Times(l[v] - MaxLogit(l, n), 1.0 / temperature)
  }

  lemma TopLevel(l: seq<real>, n: nat, temperature: real, v: nat)
    requires 1 <= n <= |l| && temperature != 0.0 && v < n && l[v] == MaxLogit(l, n)
    ensures Level(l, n, temperature, v) == 0.0
  {
    hide MaxLogit;
    var d := l[v] - MaxLogit(l, n);
    assert d == 0.0;
  }

  function Exps(l: seq<real>, n: nat, temperature: real, expf: real -> real): (r: seq<real>)
    requires 1 <= n <= |l| && temperature != 0.0
    ensures |r| == n && forall v | 0 <= v < n :: r[v] == expf(Level(l, n, temperature, v))
  {
    seq(n, v requires 0 <= v < n => expf(Level(l, n, temperature, v)))
  }

  /** Weights outside the kept tokens become zero. */
  function Masked(p: seq<real>, kept: seq<nat>): (r: seq<real>)
    ensures |r| == |p| && forall v | 0 <= v < |p| :: r[v] == if v in kept then p[v] else 0.0
  {
    seq(|p|, v requires 0 <= v < |p| => if v in kept then p[v] else 0.0)
  }

  function Cut(p: seq<real>, thresh: real): (r: seq<real>)
    ensures |r| == |p| && forall v | 0 <= v < |p| :: r[v] == if p[v] < thresh then 0.0 else p[v]
  {
    seq(|p|, v requires 0 <= v < |p| => if p[v] < thresh then 0.0 else p[v])
  }

  /** The weight at which the cumulated weights in descending order reach topP, or 0. */
  function Threshold(p: seq<real>, order: seq<nat>, i: nat, cum: real, topP: real): (t: real)
    requires i <= |order| && Indices(p, order)
    ensures t == 0.0 || exists v :: 0 <= v < |p| && p[v] == t
    decreases |order| - i
  {
    if i == |order| then 0.0
    else if cum + p[order[i]] >= topP then p[order[i]]
    else Threshold(p, order, i + 1, cum + p[order[i]], topP)
  }

  /** The tokens of the top-k filter. */
  function TopTokens(p: seq<real>, k: nat): (s: seq<nat>)
    ensures |s| == Min(k, |p|) && forall i | 0 <= i < |s| :: s[i] < |p|
  {
    Order(p, |p|)[..Min(k, |p|)]
  }

  predicate TopKActive(cfg: Config, n: nat) { 0 < cfg.topK < n }

  predicate TopPActive(cfg: Config) { 0.0 < cfg.topP < 1.0 }

  function AfterTopK(p: seq<real>, cfg: Config): (r: seq<real>)
    ensures |r| == |p|
  {
    if TopKActive(cfg, |p|) then Normal(Masked(p, TopTokens(p, Min(cfg.topK, MAX_K)))) else p
  }

  function AfterTopP(p: seq<real>, cfg: Config): (r: seq<real>)
    ensures |r| == |p|
  {
    if TopPActive(cfg) then Normal(Cut(p, Threshold(p, TopTokens(p, MAX_K), 0, 0.0, cfg.topP))) else p
  }

  function LastWeight(p: seq<real>, n: nat): (v: nat)
    requires n <= |p|
    ensures (exists i :: 0 <= i < n && p[i] > 0.0) ==> v < n && p[v] > 0.0
  {
    if n == 0 then 0 else if p[n - 1] > 0.0 then n - 1 else LastWeight(p, n - 1)
  }

  /** The first token from v on whose cumulated weight reaches u; else the last token with a weight. */
  function Pick(p: seq<real>, u: real, v: nat): nat
    requires v <= |p|
    decreases |p| - v
  {
    if v == |p| then LastWeight(p, |p|) else if u <= Sum(p, v + 1) then v else Pick(p, u, v + 1)
  }

  function NonZero(x: real): (r: real)
    ensures r != 0.0 && (x != 0.0 ==> r == x)
  {
    if x == 0.0 then 1.0 else x
  }

  /** The softmax probabilities. */
  function Probs(l: seq<real>, cfg: Config, expf: real -> real): (p: seq<real>)
    requires l != [] && cfg.temperature != 0.0
    ensures |p| == Min(|l|, MAX_TOKENS)
  {
    var n := Min(|l|, MAX_TOKENS);
    var e := Exps(l, n, cfg.temperature, expf);
    Scaled(e, 1.0 / NonZero(Sum(e, n)))
  }

  function Filtered(l: seq<real>, cfg: Config, expf: real -> real): (p: seq<real>)
    requires l != [] && cfg.temperature != 0.0
    ensures |p| == Min(|l|, MAX_TOKENS)
  {
    AfterTopP(AfterTopK(Probs(l, cfg, expf), cfg), cfg)
  }

  /** model_sample for a draw u. */
  function Sample(l: seq<real>, cfg: Config, expf: real -> real, u: real): nat
    requires l != []
  {
    if cfg.temperature == 0.0 then Order(l, |l|)[0] else Pick(Filtered(l, cfg, expf), u, 0)
  }

  /** What is asked of the approximated exponential. */
  ghost predicate GoodExp(expf: real -> real) { expf(0.0) > 0.0 && forall x :: expf(x) >= 0.0 }

  // ----- No stage loses all weights -----

  lemma ProbsAreWeights(l: seq<real>, cfg: Config, expf: real -> real)
    requires l != [] && cfg.temperature != 0.0 && GoodExp(expf)
    ensures Weights(Probs(l, cfg, expf)) && Sum(Probs(l, cfg, expf), |Probs(l, cfg, expf)|) == 1.0
  {
    var n := Min(|l|, MAX_TOKENS);
    var e := Exps(l, n, cfg.temperature, expf);
    var v: nat :| v < n && l[v] == MaxLogit(l, n);
    TopLevel(l, n, cfg.temperature, v);
    WeightsHaveSum(e);
    NormalIsDistribution(e);
    assert Probs(l, cfg, expf) == Normal(e);
  }

  /** The best token is among the first k. */
  lemma BestIsKept(p: seq<real>, k: nat)
    requires Weights(p) && k > 0
    ensures TopTokens(p, k) != [] && p[TopTokens(p, k)[0]] > 0.0
  {
    var s := Order(p, |p|);
    OrderIsOrder(p, |p|);
    var v :| 0 <= v < |p| && p[v] > 0.0;
    assert v in s;
    var i: nat :| i < |s| && s[i] == v;
    if i > 0 { assert Precedes(p, s[0], s[i]); }
  }

  lemma TopKKeepsWeights(p: seq<real>, cfg: Config)
    requires Weights(p)
    ensures Weights(AfterTopK(p, cfg)) && (Sum(p, |p|) == 1.0 ==> Sum(AfterTopK(p, cfg), |p|) == 1.0)
    ensures forall v | 0 <= v < |p| :: AfterTopK(p, cfg)[v] > 0.0 ==>
              p[v] > 0.0 && (TopKActive(cfg, |p|) ==> v in TopTokens(p, Min(cfg.topK, MAX_K)))
  {
    hide TopTokens, Normal;
    if TopKActive(cfg, |p|) {
      var top := TopTokens(p, Min(cfg.topK, MAX_K));
      var m := Masked(p, top);
      BestIsKept(p, Min(cfg.topK, MAX_K));
      assert m[top[0]] > 0.0;
      NormalIsDistribution(m);
    }
  }

  /** The top-k filter keeps exactly the first k, at most 128, in descending order; a k of 0 or of at least
      the number of tokens filters nothing. */
  lemma TopKKeepsIff(p: seq<real>, cfg: Config, v: nat)
    requires Weights(p) && v < |p|
    ensures 0 < cfg.topK < |p| ==>
              (AfterTopK(p, cfg)[v] > 0.0 <==> p[v] > 0.0 && v in TopTokens(p, Min(cfg.topK, 128)))
    ensures !(0 < cfg.topK < |p|) ==> AfterTopK(p, cfg) == p
  {
    hide TopTokens, Normal;
    if TopKActive(cfg, |p|) {
      var top := TopTokens(p, Min(cfg.topK, MAX_K));
      var m := Masked(p, top);
      BestIsKept(p, Min(cfg.topK, MAX_K));
      assert m[top[0]] > 0.0;
      NormalIsDistribution(m);
    }
  }

  /** What the top-k filter keeps comes before what it drops, and fills the places there are. */
  lemma TopIsBest(p: seq<real>, k: nat, v: nat, w: nat)
    requires v in TopTokens(p, k) && w < |p| && w !in TopTokens(p, k)
    ensures p[v] > p[w] || (p[v] == p[w] && v < w)
  {
    OrderIsOrder(p, |p|);
    var s := Order(p, |p|);
    var i: nat :| i < Min(k, |p|) && s[i] == v;
    assert w in s;
    var j: nat :| j < |s| && s[j] == w;
    assert Precedes(p, s[i], s[j]);
  }

  lemma NormalZero(p: seq<real>, v: nat)
    requires v < |p|
    ensures p[v] == 0.0 ==> Normal(p)[v] == 0.0
  {
    hide Sum;
  }

  lemma MaskRatio(p: seq<real>, kept: seq<nat>, v: nat, w: nat)
    requires NonNegative(p) && v < |p| && w < |p|
    ensures var r := Normal(Masked(p, kept)); r[v] > 0.0 && r[w] > 0.0 ==> r[v] * p[w] == r[w] * p[v]
  {
    hide Normal;
    NormalRatio(Masked(p, kept), v, w);
    NormalZero(Masked(p, kept), v);
    NormalZero(Masked(p, kept), w);
  }

  lemma CutRatio(p: seq<real>, t: real, v: nat, w: nat)
    requires NonNegative(p) && v < |p| && w < |p|
    ensures var r := Normal(Cut(p, t)); r[v] > 0.0 && r[w] > 0.0 ==> r[v] * p[w] == r[w] * p[v]
  {
    hide Normal;
    NormalRatio(Cut(p, t), v, w);
    NormalZero(Cut(p, t), v);
    NormalZero(Cut(p, t), w);
  }

  /** The top-k filter keeps the ratios of what it leaves. */
  lemma TopKRatio(p: seq<real>, cfg: Config, v: nat, w: nat)
    requires NonNegative(p) && v < |p| && w < |p|
    requires AfterTopK(p, cfg)[v] > 0.0 && AfterTopK(p, cfg)[w] > 0.0
    ensures AfterTopK(p, cfg)[v] * p[w] == AfterTopK(p, cfg)[w] * p[v]
  {
    hide TopTokens, Normal, Masked, Order;
    if TopKActive(cfg, |p|) { MaskRatio(p, TopTokens(p, Min(cfg.topK, MAX_K)), v, w); }
  }

  /** The top-p filter does as well. */
  lemma TopPRatio(p: seq<real>, cfg: Config, v: nat, w: nat)
    requires NonNegative(p) && v < |p| && w < |p|
    requires AfterTopP(p, cfg)[v] > 0.0 && AfterTopP(p, cfg)[w] > 0.0
    ensures AfterTopP(p, cfg)[v] * p[w] == AfterTopP(p, cfg)[w] * p[v]
  {
    hide TopTokens, Threshold, Normal, Cut, Order;
    if TopPActive(cfg) { CutRatio(p, Threshold(p, TopTokens(p, MAX_K), 0, 0.0, cfg.topP), v, w); }
  }

  lemma MaxIs(l: seq<real>, n: nat, m: real)
    requires 1 <= n <= |l| && (exists i :: 0 <= i < n && l[i] == m) && forall i | 0 <= i < n :: l[i] <= m
    ensures MaxLogit(l, n) == m
  {
    hide MaxLogit;
  }

  lemma LevelIs(x: real, t: real)
    requires t != 0.0
    ensures Times(x, 1.0 / t) == x / t
  {
  }

  /** The softmax: two probabilities are in the ratio of the exponentials of the logits' distances from the
      largest, over the temperature. */
  lemma ProbsRatio(l: seq<real>, cfg: Config, expf: real -> real, m: real, v: nat, w: nat)
    requires l != [] && cfg.temperature != 0.0 && v < Min(|l|, 131072) && w < Min(|l|, 131072)
    requires (exists i :: 0 <= i < Min(|l|, 131072) && l[i] == m) && forall i | 0 <= i < Min(|l|, 131072) :: l[i] <= m
    ensures var p := Probs(l, cfg, expf);
            p[v] * expf((l[w] - m) / cfg.temperature) == p[w] * expf((l[v] - m) / cfg.temperature)
  {
    hide MaxLogit, Sum;
    var n := Min(|l|, MAX_TOKENS);
    assert MaxLogit(l, n) == m by { MaxIs(l, n, m); }
    LevelIs(l[v] - m, cfg.temperature);
    LevelIs(l[w] - m, cfg.temperature);
    var e := Exps(l, n, cfg.temperature, expf);
    CrossScaled(e[v], e[w], 1.0 / NonZero(Sum(e, n)));
  }

  lemma TopPKeepsWeights(p: seq<real>, cfg: Config)
    requires Weights(p)
    ensures Weights(AfterTopP(p, cfg)) && (Sum(p, |p|) == 1.0 ==> Sum(AfterTopP(p, cfg), |p|) == 1.0)
    ensures forall v | 0 <= v < |p| :: AfterTopP(p, cfg)[v] > 0.0 ==> p[v] > 0.0
  {
    hide TopTokens, Normal;
    if TopPActive(cfg) {
      var t := Threshold(p, TopTokens(p, MAX_K), 0, 0.0, cfg.topP);
      var c := Cut(p, t);
      var v :| 0 <= v < |p| && p[v] > 0.0;
      if t > 0.0 {
        var w :| 0 <= w < |p| && p[w] == t;
        assert c[w] > 0.0;
      } else {
        assert c[v] > 0.0;
      }
      NormalIsDistribution(c);
    }
  }

  // ----- The draw -----

  /** A positive draw picks a token with a weight; within the total it is the one whose slice of the
      unit interval holds the draw. */
  lemma {:induction false} PickHasWeight(p: seq<real>, u: real, v: nat)
    requires Weights(p) && u > 0.0 && v <= |p| && Sum(p, v) < u
    ensures Pick(p, u, v) < |p| && p[Pick(p, u, v)] > 0.0
    ensures u <= Sum(p, |p|) ==> Sum(p, Pick(p, u, v)) < u <= Sum(p, Pick(p, u, v) + 1)
    decreases |p| - v
  {
    if v < |p| && !(u <= Sum(p, v + 1)) { PickHasWeight(p, u, v + 1); }
  }

  /** A draw of zero picks token 0, whatever its weight. */
  lemma ZeroPicksFirst(p: seq<real>, u: real)
    requires Weights(p) && u <= 0.0
    ensures Pick(p, u, 0) == 0
  {
    SumGrows(p, 0, 1);
  }

  /** With top-k active the sampled token is one of the k best exactly when the draw is positive or
      token 0 is one of them. */
  lemma SampleInTopK(l: seq<real>, cfg: Config, expf: real -> real, u: real)
    requires l != [] && cfg.temperature != 0.0 && GoodExp(expf)
    requires TopKActive(cfg, Min(|l|, MAX_TOKENS))
    ensures var top := TopTokens(Probs(l, cfg, expf), Min(cfg.topK, MAX_K));
            Sample(l, cfg, expf, u) in top <==> u > 0.0 || 0 in top
  {
    hide TopTokens, Normal, Probs, AfterTopK, AfterTopP, Pick;
    var p := Probs(l, cfg, expf);
    var a := AfterTopK(p, cfg);
    var b := AfterTopP(a, cfg);
    ProbsAreWeights(l, cfg, expf);
    TopKKeepsWeights(p, cfg);
    TopPKeepsWeights(a, cfg);
    if u > 0.0 {
      PickHasWeight(b, u, 0);
    } else {
      ZeroPicksFirst(b, u);
    }
  }

  /** The draw of zero does leave the best: here token 0 is returned, token 1 is the only one kept. */
  lemma ZeroDrawEscapes()
    ensures var l, cfg, expf := [0.0, 1.0], Config(1.0, 1, 1.0), x => if x == 0.0 then 1.0 else 0.0;
            GoodExp(expf) && TopTokens(Probs(l, cfg, expf), 1) == [1] && Sample(l, cfg, expf, 0.0) == 0
  {
    hide TopTokens, AfterTopK, AfterTopP;
    var l, cfg, expf := [0.0, 1.0], Config(1.0, 1, 1.0), x => if x == 0.0 then 1.0 else 0.0;
    var p := Probs(l, cfg, expf);
    var e := Exps(l, 2, 1.0, expf);
    TopLevel(l, 2, 1.0, 1);
    assert e[0] == 0.0 && e[1] == 1.0;
    assert Sum(e, 1) == 0.0;
    assert p[0] == 0.0;
    ProbsAreWeights(l, cfg, expf);
    BestIsKept(p, 1);
    SampleInTopK(l, cfg, expf, 0.0);
    TopKKeepsWeights(p, cfg);
    TopPKeepsWeights(AfterTopK(p, cfg), cfg);
    ZeroPicksFirst(Filtered(l, cfg, expf), 0.0);
  }

  /** The filtered weights are a distribution, and a token is drawn with its probability: by exactly
      the draws in its slice of the unit interval. */
  lemma SampleSlice(l: seq<real>, cfg: Config, expf: real -> real, u: real, v: nat)
    requires l != [] && cfg.temperature != 0.0 && GoodExp(expf) && 0.0 < u <= 1.0
    requires v < Min(|l|, MAX_TOKENS)
    ensures var p := Filtered(l, cfg, expf);
            && Weights(p) && Sum(p, |p|) == 1.0
            && (Sample(l, cfg, expf, u) == v <==> Sum(p, v) < u <= Sum(p, v + 1))
  {
    hide Normal, Probs, AfterTopK, AfterTopP, Pick;
    var p := Probs(l, cfg, expf);
    ProbsAreWeights(l, cfg, expf);
    TopKKeepsWeights(p, cfg);
    TopPKeepsWeights(AfterTopK(p, cfg), cfg);
    var f, w := Filtered(l, cfg, expf), Sample(l, cfg, expf, u);
    PickHasWeight(f, u, 0);
    if w < v { SumGrows(f, w + 1, v); } else if v < w { SumGrows(f, v + 1, w); }
  }

  // ----- The loops -----

  lemma OrderHas(l: seq<real>, m: nat, s: seq<nat>, v: nat) returns (i: nat)
    requires IsOrder(l, m, s) && v < m
    ensures i < |s| && s[i] == v
  {
    assert v in s;
    i :| i < |s| && s[i] == v;
  }

  lemma OrderFirst(l: seq<real>, m: nat, s: seq<nat>, i: nat)
    requires IsOrder(l, m, s) && 0 < i < |s|
    ensures s[0] < |l| && s[i] < |l| && Precedes(l, s[0], s[i])
  {
  }

  lemma FirstIsBest(l: seq<real>, b: nat)
    requires b < |l| && forall i | 0 <= i < |l| :: l[i] <= l[b] && (i < b ==> l[i] < l[b])
    ensures Order(l, |l|)[0] == b
  {
    hide Order, IsOrder;
    var s := Order(l, |l|);
    OrderIsOrder(l, |l|);
    var i := OrderHas(l, |l|, s, b);
    if i > 0 { OrderFirst(l, |l|, s, i); }
  }

  /** Greedy choice: the first token of the largest logit. */
  method Argmax(l: seq<real>) returns (best: nat)
    requires l != []
    ensures best == Order(l, |l|)[0]
  {
    hide Order;
    var v := 1;
    best := 0;
    while v < |l|
      invariant 1 <= v <= |l| && best < v
      invariant forall i | 0 <= i < v :: l[i] <= l[best] && (i < best ==> l[i] < l[best])
    {
      if l[v] > l[best] { best := v; }
      v := v + 1;
    }
    FirstIsBest(l, best);
  }

  /** The sum of all weights. */
  method Total(probs: array<real>) returns (sum: real)
    ensures sum == Sum(probs[..], probs.Length)
  {
    sum := 0.0;
    var v := 0;
    while v < probs.Length
      invariant v <= probs.Length && sum == Sum(probs[..], v)
    {
      sum := sum + probs[v];
      v := v + 1;
    }
  }

  method Scale(probs: array<real>, f: real)
    modifies probs
    ensures probs[..] == Scaled(old(probs[..]), f)
  {
    hide Times, Scaled;
    ghost var p := probs[..];
    var v := 0;
    while v < probs.Length
      invariant v <= probs.Length
      invariant forall i | 0 <= i < v :: probs[i] == Times(p[i], f)
      invariant forall i | v <= i < probs.Length :: probs[i] == p[i]
    {
      probs[v] := Times(probs[v], f);
      v := v + 1;
    }
    assert probs[..] == Scaled(p, f);
  }

  /** Renormalise what a filter has left. */
  method Renormalise(probs: array<real>)
    modifies probs
    ensures probs[..] == Normal(old(probs[..]))
  {
    var sum := Total(probs);
    if sum > 0.0 { Scale(probs, 1.0 / sum); }
  }

  method Largest(l: seq<real>, n: nat) returns (maxL: real)
    requires 1 <= n <= |l|
    ensures maxL == MaxLogit(l, n)
  {
    maxL := l[0];
    var v := 1;
    while v < n
      invariant 1 <= v <= n && maxL == MaxLogit(l, v)
    {
      if l[v] > maxL { maxL := l[v]; }
      v := v + 1;
    }
  }

  method Exponentials(l: seq<real>, temperature: real, expf: real -> real, probs: array<real>)
    requires 1 <= probs.Length <= |l| && temperature != 0.0
    modifies probs
    ensures probs[..] == Exps(l, probs.Length, temperature, expf)
  {
    hide MaxLogit, Times;
    var n := probs.Length;
    var maxL := Largest(l, n);
    var inv := 1.0 / temperature;
    ghost var e := Exps(l, n, temperature, expf);
    var v := 0;
    while v < n
      invariant v <= n && forall i | 0 <= i < v :: probs[i] == e[i]
    {
      probs[v] := expf(Times(l[v] - maxL, inv));
      v := v + 1;
    }
    assert probs[..] == e;
  }

  lemma ExpsSum(l: seq<real>, cfg: Config, expf: real -> real)
    requires l != [] && cfg.temperature != 0.0 && GoodExp(expf)
    ensures var n := Min(|l|, MAX_TOKENS); Sum(Exps(l, n, cfg.temperature, expf), n) > 0.0
  {
    var n := Min(|l|, MAX_TOKENS);
    var v: nat :| v < n && l[v] == MaxLogit(l, n);
    TopLevel(l, n, cfg.temperature, v);
    WeightsHaveSum(Exps(l, n, cfg.temperature, expf));
  }

  /** Temperature scaling and softmax. */
  method Softmax(l: seq<real>, cfg: Config, expf: real -> real, probs: array<real>)
    requires l != [] && cfg.temperature != 0.0 && probs.Length == Min(|l|, MAX_TOKENS) && GoodExp(expf)
    modifies probs
    ensures probs[..] == Probs(l, cfg, expf)
  {
    hide Exps, Scaled, Sum, GoodExp;
    Exponentials(l, cfg.temperature, expf, probs);
    var sum := Total(probs);
    ExpsSum(l, cfg, expf);
    Scale(probs, 1.0 / sum);
  }

  lemma TopIsOrder(p: seq<real>, k: nat)
    requires k <= |p| < NONE
    ensures Pad(Order(p, |p|), k) == TopTokens(p, k) && forall i | 0 <= i < k :: TopTokens(p, k)[i] != NONE
  {
  }

  /** The top-k filter. */
  method FilterTopK(probs: array<real>, cfg: Config)
    requires probs.Length < NONE
    modifies probs
    ensures probs[..] == AfterTopK(old(probs[..]), cfg)
  {
    hide Order, Normal;
    var n := probs.Length;
    if !TopKActive(cfg, n) { return; }
    ghost var p := probs[..];
    var k := Min(cfg.topK, MAX_K);
    var topk, keep := new nat[k](_ => 0), new bool[n](_ => false);
    TopkSort(probs[..], topk);
    ghost var top := TopTokens(p, k);
    TopIsOrder(p, k);
    var i := 0;
    while i < k
      invariant i <= k && topk[..] == top && probs[..] == p
      invariant forall v: nat | v < n :: keep[v] == (v in top[..i])
    {
      assert top[..i + 1] == top[..i] + [top[i]];
      if topk[i] != NONE { keep[topk[i]] := true; }
      i := i + 1;
    }
    assert top[..k] == top;
    var v := 0;
    while v < n
      invariant v <= n && forall w: nat | w < n :: keep[w] == (w in top)
      invariant forall w: nat | w < n :: probs[w] == if w < v && w !in top then 0.0 else p[w]
    {
      if !keep[v] { probs[v] := 0.0; }
      v := v + 1;
    }
    assert probs[..] == Masked(p, top);
    Renormalise(probs);
  }

  lemma LimIsOrder(p: seq<real>)
    requires |p| < NONE
    ensures var lim := Min(|p|, MAX_K);
            Pad(Order(p, |p|), lim) == TopTokens(p, MAX_K) && forall i | 0 <= i < lim :: TopTokens(p, MAX_K)[i] != NONE
  {
  }

  /** The top-p filter. */
  method FilterTopP(probs: array<real>, cfg: Config)
    requires 0 < probs.Length < NONE
    modifies probs
    ensures probs[..] == AfterTopP(old(probs[..]), cfg)
  {
    hide Order, Normal;
    if !TopPActive(cfg) { return; }
    var n := probs.Length;
    ghost var p := probs[..];
    var lim := Min(n, MAX_K);
    var topk := new nat[lim](_ => 0);
    TopkSort(probs[..], topk);
    ghost var top := TopTokens(p, MAX_K);
    LimIsOrder(p);
    var thresh, cumsum, i := 0.0, 0.0, 0;
    while i < lim
      invariant i <= lim && probs[..] == p && topk[..] == top && thresh == 0.0
      invariant Threshold(p, top, 0, 0.0, cfg.topP) == Threshold(p, top, i, cumsum, cfg.topP)
    {
      var v := topk[i];
      if v == NONE { break; }
      cumsum := cumsum + probs[v];
      if cumsum >= cfg.topP { thresh := probs[v]; break; }
      i := i + 1;
    }
    assert thresh == Threshold(p, top, 0, 0.0, cfg.topP);
    var v := 0;
    while v < n
      invariant v <= n
      invariant forall w: nat | w < n :: probs[w] == if w < v && p[w] < thresh then 0.0 else p[w]
    {
      if probs[v] < thresh { probs[v] := 0.0; }
      v := v + 1;
    }
    assert probs[..] == Cut(p, thresh);
    Renormalise(probs);
  }

  /** Inverse of the cumulative distribution. */
  method Draw(probs: array<real>, u: real) returns (token: nat)
    ensures token == Pick(probs[..], u, 0)
  {
    var p := probs[..];
    var cdf, v := 0.0, 0;
    while v < probs.Length
      invariant v <= probs.Length && cdf == Sum(p, v) && Pick(p, u, 0) == Pick(p, u, v)
    {
      cdf := cdf + probs[v];
      if u <= cdf { return v; }
      v := v + 1;
    }
    while v > 0
      invariant v <= probs.Length && LastWeight(p, probs.Length) == LastWeight(p, v)
    {
      v := v - 1;
      if probs[v] > 0.0 { return v; }
    }
    return 0;
  }

  /** model_sample. */
  method ModelSample(l: seq<real>, cfg: Config, expf: real -> real, u: real) returns (token: nat)
    requires l != [] && GoodExp(expf)
    ensures token == Sample(l, cfg, expf, u)
  {
    hide Order, Pick, Probs, AfterTopK, AfterTopP;
    if cfg.temperature == 0.0 {
      token := Argmax(l);
    } else {
      var probs := new real[Min(|l|, MAX_TOKENS)](_ => 0.0);
      Softmax(l, cfg, expf, probs);
      FilterTopK(probs, cfg);
      FilterTopP(probs, cfg);
      token := Draw(probs, u);
    }
  }
}
