/** The file allocation table as a sequence of 28-bit entries (kernel/fat32.c): runs, chains and
    reachability. Index 0 and 1 are not clusters. */
module FatModel {
  import opened Arith

  /** FAT32_EOC_MIN: the end-of-chain threshold. */
  const EOC: nat := 0x0FFF_FFF8
  const ENTRY_LIMIT: nat := 0x1000_0000

  type Fat = seq<nat>

  /** A cluster number the driver follows. */
  predicate IsCluster(c: nat) { 2 <= c < EOC }

  /** The numbers the driver follows: from 2 up to the end-of-chain marks, the bad-cluster mark among them. */
  lemma Followed(c: nat)
    ensures IsCluster(c) <==> 2 <= c < 0x0FFF_FFF8
    ensures IsCluster(0x0FFF_FFF7) && !IsCluster(0x0FFF_FFFF) && ENTRY_LIMIT == 0x1000_0000
  {
  }

  /** Entry c set to v. */
  function Set(fat: Fat, c: nat, v: nat): (r: Fat)
    requires c < |fat|
    ensures |r| == |fat| && forall d: nat | d < |fat| :: r[d] == if d == c then v else fat[d]
  {
    fat[c := v]
  }

  // ----- Allocation -----

  predicate FreeRun(fat: Fat, s: nat, n: nat)
  {
    s + n <= |fat| && forall c | s <= c < s + n :: fat[c] == 0
  }

  /** The first k of the n clusters from s linked as a chain. */
  function Link(fat: Fat, s: nat, n: nat, k: nat): (r: Fat)
    requires k <= n && s + n <= |fat|
    ensures |r| == |fat|
    ensures forall c: nat | c < |fat| ::
              r[c] == if s <= c < s + k then (if c + 1 < s + n then c + 1 else EOC) else fat[c]
  {
    if k == 0 then fat
    else Set(Link(fat, s, n, k - 1), s + k - 1, if k < n then s + k else EOC)
  }

  /** The scan of fat32_alloc_contiguous from cluster t on. */
  function LowestRun(fat: Fat, n: nat, t: nat): (s: nat)
    requires t >= 2 && n > 0
    ensures s == 0 || (t <= s && FreeRun(fat, s, n))
    ensures forall u: nat | t <= u && (s == 0 || u < s) :: !FreeRun(fat, u, n)
    decreases |fat| - t
  {
    if t + n > |fat| then 0 else if FreeRun(fat, t, n) then t else LowestRun(fat, n, t + 1)
  }

  lemma LinkNext(fat: Fat, s: nat, n: nat, k: nat)
    requires k < n && s + n <= |fat| <= EOC
    ensures s + k < |Link(fat, s, n, k)| && Link(fat, s, n, 0) == fat
    ensures var v := if k + 1 < n then s + k + 1 else EOC;
            v % ENTRY_LIMIT == v && Set(Link(fat, s, n, k), s + k, v) == Link(fat, s, n, k + 1)
  {
  }

  // ----- Chains -----

  ghost predicate LinkAt(fat: Fat, ch: seq<nat>, i: nat)
    requires i < |ch|
  {
    && 2 <= ch[i] < |fat|
    && if i + 1 < |ch| then fat[ch[i]] == ch[i + 1] else fat[ch[i]] >= EOC
  }

  /** ch is a whole cluster chain, ended by an end-of-chain mark. */
  ghost predicate IsChain(fat: Fat, ch: seq<nat>)
  {
    ch != [] && Distinct(ch) && forall i: nat | i < |ch| :: LinkAt(fat, ch, i)
  }

  /** The clusters s, s + 1, .. of a run. */
  function Run(s: nat, n: nat): (ch: seq<nat>)
    ensures |ch| == n && forall i: nat | i < n :: ch[i] == s + i
  {
    seq(n, i requires 0 <= i < n => s + i)
  }

  lemma LinkIsChain(fat: Fat, s: nat, n: nat)
    requires 2 <= s && 0 < n && s + n <= |fat|
    ensures IsChain(Link(fat, s, n, n), Run(s, n))
  {
  }

  /** A chain has no free cluster. */
  lemma ChainIsUsed(fat: Fat, ch: seq<nat>, i: nat)
    requires IsChain(fat, ch) && i < |ch|
    ensures 2 <= ch[i] < |fat| && fat[ch[i]] != 0
  {
    assert LinkAt(fat, ch, i);
    if i + 1 < |ch| { assert LinkAt(fat, ch, i + 1); }
  }

  /** Changing only other entries leaves a chain. */
  lemma ChainStays(fat: Fat, fat': Fat, ch: seq<nat>)
    requires IsChain(fat, ch) && |fat'| == |fat|
    requires forall i: nat | i < |ch| :: ch[i] < |fat| && fat'[ch[i]] == fat[ch[i]]
    ensures IsChain(fat', ch)
  {
    forall i: nat | i < |ch| ensures LinkAt(fat', ch, i) { assert LinkAt(fat, ch, i); }
  }

  /** Linking a new last cluster extends a chain. */
  lemma ChainGrows(fat: Fat, ch: seq<nat>, x: nat)
    requires IsChain(fat, ch) && 2 <= x < |fat| <= EOC && fat[x] >= EOC && x !in ch
    ensures ch[|ch| - 1] < |fat| && IsChain(Set(fat, ch[|ch| - 1], x), ch + [x])
  {
    var n := |ch| - 1;
    assert LinkAt(fat, ch, n);
    var fat', ch' := Set(fat, ch[n], x), ch + [x];
    forall i: nat | i < |ch'| ensures LinkAt(fat', ch', i) {
      if i <= n { assert LinkAt(fat, ch, i); }
    }
  }

  // ----- Freeing -----

  function Used(fat: Fat): nat
  {
    if fat == [] then 0 else Used(fat[..|fat| - 1]) + if fat[|fat| - 1] != 0 then 1 else 0
  }

  lemma {:induction false} ClearUses(fat: Fat, c: nat)
    requires c < |fat|
    ensures Used(Set(fat, c, 0)) == Used(fat) - if fat[c] != 0 then 1 else 0
    decreases |fat|
  {
    var n := |fat| - 1;
    if c == n {
      assert Set(fat, c, 0)[..n] == fat[..n];
    } else {
      assert Set(fat, c, 0)[..n] == Set(fat[..n], c, 0);
      ClearUses(fat[..n], c);
    }
  }

  /** d is k links behind c. */
  ghost predicate Path(fat: Fat, c: nat, d: nat, k: nat)
    decreases k
  {
    IsCluster(c) && c < |fat| && if k == 0 then c == d else Path(fat, fat[c], d, k - 1)
  }

  ghost predicate Reaches(fat: Fat, c: nat, d: nat) { exists k: nat :: Path(fat, c, d, k) }

  /** Following the links from c never leaves the volume. */
  ghost predicate OnVolume(fat: Fat, c: nat)
  {
    && (IsCluster(c) ==> c < |fat|)
    && forall d: nat | d < |fat| && Reaches(fat, c, d) && IsCluster(fat[d]) :: fat[d] < |fat|
  }

  lemma {:induction false} PathBack(fat: Fat, c: nat, x: nat, d: nat, k: nat)
    requires c < |fat| && Path(Set(fat, c, 0), x, d, k)
    ensures Path(fat, x, d, k)
    decreases k
  {
    if k > 0 { PathBack(fat, c, Set(fat, c, 0)[x], d, k - 1); }
  }

  /** A path either avoids c or has a shorter rest that starts at c. */
  lemma {:induction false} PathAvoids(fat: Fat, c: nat, x: nat, d: nat, k: nat) returns (j: nat)
    requires c < |fat| && Path(fat, x, d, k)
    ensures j <= k && (Path(Set(fat, c, 0), x, d, k) || Path(fat, c, d, j))
    decreases k
  {
    j := k;
    if k > 0 && x != c { j := PathAvoids(fat, c, fat[x], d, k - 1); }
  }

  lemma {:induction false} PathFromNext(fat: Fat, c: nat, d: nat, k: nat)
    requires c < |fat| && Path(fat, c, d, k) && d != c
    ensures Reaches(Set(fat, c, 0), fat[c], d)
    decreases k
  {
    var j := PathAvoids(fat, c, fat[c], d, k - 1);
    if !Path(Set(fat, c, 0), fat[c], d, k - 1) { PathFromNext(fat, c, d, j); }
  }

  /** Reaching d from c is being c or reaching it from the next cluster without c. */
  lemma ReachesStep(fat: Fat, c: nat, d: nat)
    requires IsCluster(c) && c < |fat|
    ensures Reaches(fat, c, d) <==> d == c || Reaches(Set(fat, c, 0), fat[c], d)
  {
    if d == c { assert Path(fat, c, d, 0); }
    else if Reaches(fat, c, d) {
      var k: nat :| Path(fat, c, d, k);
      PathFromNext(fat, c, d, k);
    }
    if Reaches(Set(fat, c, 0), fat[c], d) {
      var k: nat :| Path(Set(fat, c, 0), fat[c], d, k);
      PathBack(fat, c, fat[c], d, k);
      assert Path(fat, c, d, k + 1);
    }
  }

  lemma OnVolumeNext(fat: Fat, c: nat)
    requires OnVolume(fat, c) && IsCluster(c)
    ensures OnVolume(Set(fat, c, 0), fat[c])
  {
    hide Reaches;
    ReachesStep(fat, c, c);
    forall d: nat | d < |fat| ensures Reaches(Set(fat, c, 0), fat[c], d) ==> Reaches(fat, c, d) {
      ReachesStep(fat, c, d);
    }
  }

  /** fat32_free_chain from c on. */
  function FreeFrom(fat: Fat, c: nat): (r: Fat)
    requires OnVolume(fat, c)
    ensures |r| == |fat|
    decreases Used(fat), if IsCluster(c) then 1 else 0
  {
    if IsCluster(c) then
      ClearUses(fat, c);
      OnVolumeNext(fat, c);
      FreeFrom(Set(fat, c, 0), fat[c])
    else fat
  }

  lemma StopReaches(fat: Fat, c: nat, d: nat)
    ensures !IsCluster(c) ==> !Reaches(fat, c, d)
  {
  }

  /** Freeing a chain clears exactly the clusters reachable from its start, cycles included. */
  lemma {:induction false} FreesExactlyReachable(fat: Fat, c: nat, d: nat)
    requires OnVolume(fat, c) && d < |fat|
    ensures FreeFrom(fat, c)[d] == if Reaches(fat, c, d) then 0 else fat[d]
    decreases Used(fat), if IsCluster(c) then 1 else 0
  {
    hide Reaches;
    if IsCluster(c) {
      ClearUses(fat, c);
      ReachesStep(fat, c, d);
      OnVolumeNext(fat, c);
      FreesExactlyReachable(Set(fat, c, 0), fat[c], d);
      StopReaches(fat, c, d);
    } else {
      StopReaches(fat, c, d);
    }
  }

  lemma FreeStep(fat: Fat, c: nat)
    requires OnVolume(fat, c) && IsCluster(c)
    ensures OnVolume(Set(fat, c, 0), fat[c]) && FreeFrom(fat, c) == FreeFrom(Set(fat, c, 0), fat[c])
  {
    OnVolumeNext(fat, c);
  }

  lemma FreeStop(fat: Fat, c: nat)
    requires !IsCluster(c)
    ensures OnVolume(fat, c) && FreeFrom(fat, c) == fat
  {
    forall d: nat ensures !Reaches(fat, c, d) { StopReaches(fat, c, d); }
  }

  /** A path along a chain stays in it. */
  lemma {:induction false} PathInChain(fat: Fat, ch: seq<nat>, i: nat, d: nat, k: nat)
    requires IsChain(fat, ch) && i < |ch| && Path(fat, ch[i], d, k)
    ensures exists j: nat :: j < |ch| && ch[j] == d
    decreases k
  {
    assert LinkAt(fat, ch, i);
    if k > 0 { PathInChain(fat, ch, i + 1, d, k - 1); }
  }

  /** A chain never leaves the volume. */
  lemma ChainOnVolume(fat: Fat, ch: seq<nat>)
    requires IsChain(fat, ch)
    ensures OnVolume(fat, ch[0])
  {
    assert LinkAt(fat, ch, 0);
    forall d: nat | d < |fat| && Reaches(fat, ch[0], d) && IsCluster(fat[d]) ensures fat[d] < |fat| {
      var k: nat :| Path(fat, ch[0], d, k);
      PathInChain(fat, ch, 0, d, k);
      var j: nat :| j < |ch| && ch[j] == d;
      assert LinkAt(fat, ch, j);
      if j + 1 < |ch| { assert LinkAt(fat, ch, j + 1); }
    }
  }

  /** The linked chain with its first k clusters already free again. */
  function LinkRest(fat: Fat, s: nat, n: nat, k: nat): (r: Fat)
    requires k <= n && s + n <= |fat|
    ensures |r| == |fat|
    ensures forall c: nat | c < |fat| ::
              r[c] == if s + k <= c < s + n then (if c + 1 < s + n then c + 1 else EOC) else fat[c]
  {
    fat[..s + k] + Link(fat, s, n, n)[s + k..]
  }

  lemma RestNext(fat: Fat, s: nat, n: nat, k: nat)
    requires k < n && s + n <= |fat| && FreeRun(fat, s, n)
    ensures Set(LinkRest(fat, s, n, k), s + k, 0) == LinkRest(fat, s, n, k + 1)
    ensures LinkRest(fat, s, n, n) == fat && LinkRest(fat, s, n, 0) == Link(fat, s, n, n)
  {
  }

  lemma RestAt(fat: Fat, s: nat, n: nat, k: nat)
    requires k < n && s + n <= |fat| <= EOC && 2 <= s
    ensures IsCluster(s + k) && s + k < |LinkRest(fat, s, n, k)|
    ensures LinkRest(fat, s, n, k)[s + k] == if k + 1 < n then s + k + 1 else EOC
    ensures OnVolume(LinkRest(fat, s, n, k), s + k)
  {
    hide OnVolume, Link;
    var t := s + k;
    var ch := Run(t, n - k);
    assert IsChain(LinkRest(fat, s, n, k), ch);
    ChainOnVolume(LinkRest(fat, s, n, k), ch);
  }

  lemma {:induction false} FreeRest(fat: Fat, s: nat, n: nat, k: nat)
    requires 2 <= s && s + n <= |fat| <= EOC && FreeRun(fat, s, n) && k < n
    ensures OnVolume(LinkRest(fat, s, n, k), s + k) && FreeFrom(LinkRest(fat, s, n, k), s + k) == fat
    decreases n - k
  {
    hide FreeFrom, Link, OnVolume, FreeRun, IsCluster, LinkRest;
    RestAt(fat, s, n, k);
    FreeStep(LinkRest(fat, s, n, k), s + k);
    RestNext(fat, s, n, k);
    if k + 1 < n { FreeRest(fat, s, n, k + 1); } else { FreeStop(fat, EOC); }
  }

  /** Freeing what was just allocated gives back the table as it was. */
  lemma FreeUndoesAlloc(fat: Fat, n: nat)
    requires |fat| <= EOC && n > 0 && LowestRun(fat, n, 2) != 0
    ensures var s := LowestRun(fat, n, 2);
            && IsCluster(s) && OnVolume(Link(fat, s, n, n), s)
            && FreeFrom(Link(fat, s, n, n), s) == fat
  {
    hide FreeFrom, Link, OnVolume;
    var s := LowestRun(fat, n, 2);
    RestNext(fat, s, n, 0);
    FreeRest(fat, s, n, 0);
  }
}
