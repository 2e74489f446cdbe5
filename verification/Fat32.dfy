/** The FAT32 driver of kernel/fat32.c as it runs: sector and cluster buffers, the table on disk,
    and the loops over chains. Sector I/O always succeeds here. */
module Fat32 {
  import opened Arith
  import opened LittleEndian
  import opened FatModel
  import opened FatFiles
  import opened FatDirectory
  import opened FatCreate
  import opened FatDisk

  /** FAT32_BAD. */
  const BAD: nat := 0x0FFF_FFF7
  const BUFFER: nat := MAX_SPC * SECTOR

  lemma BufferFits(g: Geometry, disk: Disk)
    requires WellFormed(g, disk)
    ensures SECTOR <= g.spc * SECTOR <= BUFFER == 0x1_0000
  {
  }

  lemma ViewSizes(g: Geometry, disk: Disk)
    requires WellFormed(g, disk)
    ensures |FatView(g, disk)| == |DataView(g, disk)| == g.total + 2 <= EOC
    ensures forall c: nat | 2 <= c < g.total + 2 :: |DataView(g, disk)[c]| == g.spc * SECTOR
  {
  }

  lemma LinkNone(fat: Fat, s: nat)
    requires s <= |fat|
    ensures Link(fat, s, 0, 0) == fat
  {
  }

  // ----- The scan for a free run -----

  /** Before cluster c no run of n has been seen, and the last runLen clusters are a maximal free
      stretch. */
  ghost predicate Scanned(fat: Fat, n: nat, c: nat, runLen: nat)
  {
    && runLen < n && runLen + 2 <= c <= |fat|
    && FreeRun(fat, c - runLen, runLen)
    && (c - runLen > 2 ==> fat[c - runLen - 1] != 0)
    && forall t: nat | 2 <= t && t + n <= c :: !FreeRun(fat, t, n)
  }

  lemma ScanStart(fat: Fat, n: nat)
    requires n > 0 && |fat| >= 2
    ensures Scanned(fat, n, 2, 0)
  {
  }

  lemma ScanNext(fat: Fat, n: nat, c: nat, runLen: nat)
    requires Scanned(fat, n, c, runLen) && c < |fat|
    ensures fat[c] == 0 && runLen + 1 == n ==>
              c - runLen >= 2 && c - runLen + n <= |fat| && LowestRun(fat, n, 2) == c - runLen
    ensures fat[c] == 0 && runLen + 1 != n ==> Scanned(fat, n, c + 1, runLen + 1)
    ensures fat[c] != 0 ==> Scanned(fat, n, c + 1, 0)
  {
    if fat[c] == 0 && runLen + 1 == n {
      var s := c - runLen;
      assert FreeRun(fat, s, n);
      assert LowestRun(fat, n, 2) <= s;
    }
    var len := if fat[c] == 0 then runLen + 1 else 0;
    if len < n {
      forall t: nat | 2 <= t && t + n <= c + 1 ensures !FreeRun(fat, t, n) {
        if t + n == c + 1 { assert fat[c - len] != 0; }
      }
    }
  }

  lemma ScanEnd(fat: Fat, n: nat, runLen: nat)
    requires Scanned(fat, n, |fat|, runLen)
    ensures LowestRun(fat, n, 2) == 0
  {
  }

  // ----- One round of the file loops -----

  lemma WriteStep(fat: Fat, data: seq<Bytes>, c: nat, buf: Bytes, off: nat, cb: nat)
    requires Shape(fat, data, cb) && IsCluster(c) && off < |buf| && Follow(fat, c, |buf| - off, cb)
    ensures c < |fat| == |data| && Follow(fat, fat[c], |buf| - (off + Min(cb, |buf| - off)), cb)
    ensures Shape(fat, Put(data, c, Chunk(buf, off, cb)), cb)
    ensures WriteFrom(fat, data, c, buf, off, cb) ==
              WriteFrom(fat, Put(data, c, Chunk(buf, off, cb)), fat[c], buf, off + Min(cb, |buf| - off), cb)
    ensures Written(fat, c, |buf|, off, cb) == Written(fat, fat[c], |buf|, off + Min(cb, |buf| - off), cb)
  {
  }

  lemma WriteDone(fat: Fat, data: seq<Bytes>, c: nat, buf: Bytes, off: nat, cb: nat)
    requires Shape(fat, data, cb) && off <= |buf| && (!IsCluster(c) || off == |buf|) && Follow(fat, c, |buf| - off, cb)
    ensures WriteFrom(fat, data, c, buf, off, cb) == data && Written(fat, c, |buf|, off, cb) == off
  {
  }

  /** What has been read and what is still to come make up the whole. */
  ghost predicate ReadAhead(v: Vol, cb: nat, c: nat, max: nat, out: Bytes, whole: Bytes)
  {
    && Shape(v.fat, v.data, cb) && |out| <= max && Follow(v.fat, c, max - |out|, cb)
    && out + ReadFrom(v.fat, v.data, c, max - |out|, cb) == whole
  }

  lemma ReadStart(v: Vol, c: nat, max: nat, cb: nat)
    requires Shape(v.fat, v.data, cb) && Follow(v.fat, c, max, cb)
    ensures ReadAhead(v, cb, c, max, [], ReadFrom(v.fat, v.data, c, max, cb))
  {
    hide ReadFrom;
    assert [] + ReadFrom(v.fat, v.data, c, max, cb) == ReadFrom(v.fat, v.data, c, max, cb);
  }

  lemma ReadOn(v: Vol, cb: nat, c: nat, max: nat, out: Bytes, whole: Bytes)
    requires ReadAhead(v, cb, c, max, out, whole) && IsCluster(c) && |out| < max
    ensures 2 <= c < |v.fat| == |v.data| && |v.data[c]| == cb > 0
    ensures var n := Min(cb, max - |out|); ReadAhead(v, cb, v.fat[c], max, out + v.data[c][..n], whole)
  {
    var n := Min(cb, max - |out|);
    var a, rest := v.data[c][..n], ReadFrom(v.fat, v.data, v.fat[c], max - |out| - n, cb);
    assert ReadFrom(v.fat, v.data, c, max - |out|, cb) == a + rest;
    hide ReadFrom;
    assert out + (a + rest) == (out + a) + rest;
  }

  /** The 32-bit result of a count, returned as int. */
  function Signed32(n: nat): int
    requires n < LIMIT32
  {
    if n < 0x8000_0000 then n else n - LIMIT32
  }

  /** The last cluster boundary below 2^32. */
  function LastBoundary(cb: nat): (b: nat)
    requires cb > 0
    ensures b < LIMIT32
  {
    (LIMIT32 - 1) / cb * cb
  }

  /** The 32-bit sum that clips the last copy wraps exactly at the last boundary, and then does not clip. */
  lemma BoundaryWraps(k: nat, b: nat, max: nat, cb: nat)
    requires 0 < cb <= MAX_CLUSTER && b == Extent(k, cb) < max < LIMIT32
    ensures b <= LastBoundary(cb)
    ensures b + cb < LIMIT32 ==> b + cb <= LastBoundary(cb) && (b + cb) % LIMIT32 == b + cb
    ensures b + cb >= LIMIT32 ==> b == LastBoundary(cb) && (b + cb) % LIMIT32 <= max < b + cb
  {
    var q, r := (LIMIT32 - 1) / cb, (LIMIT32 - 1) % cb;
    assert LIMIT32 - 1 == q * cb + r;
    if k > q {
      BlockFits(q, k, cb);
    } else if k < q {
      BlockFits(k, q, cb);
    }
    if b + cb >= LIMIT32 { ModUnique(b + cb, LIMIT32, 1, b + cb - LIMIT32); }
  }

  function BlankClusters(n: nat, cb: nat): (data: seq<Bytes>)
    ensures |data| == n && forall c: nat | c < n :: data[c] == Zeros(cb)
  {
    seq(n, _ => Zeros(cb))
  }

  /** It happens: a volume of 65536 clusters of 64 KB in one chain, read with the largest buffer. */
  lemma ReadOverruns()
    ensures var fat := Link(seq(65538, _ => 0), 2, 65536, 65536);
            var data := BlankClusters(65538, MAX_CLUSTER);
            && Shape(fat, data, MAX_CLUSTER) && Follow(fat, 2, LIMIT32 - 1, MAX_CLUSTER)
            && |ReadFrom(fat, data, 2, LIMIT32 - 1, MAX_CLUSTER)| > LastBoundary(MAX_CLUSTER)
  {
    hide Link, ReadFrom, Follow, Zeros, BlankClusters;
    var none := seq(65538, _ => 0);
    var fat := Link(none, 2, 65536, 65536);
    var data := BlankClusters(65538, MAX_CLUSTER);
    LinkIsChain(none, 2, 65536);
    var run := Run(2, 65536);
    ReadLength(fat, data, run, 0, LIMIT32 - 1, MAX_CLUSTER);
    assert Room(run, 0, MAX_CLUSTER) == LIMIT32;
  }

  /** A created file is read without passing a boundary that wraps. */
  lemma CreatedInBounds(size: nat, cb: nat, n: nat)
    requires 0 < cb <= MAX_CLUSTER && n == if Fits(size, cb) then size else cb
    ensures n <= LastBoundary(cb)
  {
    assert LIMIT32 - 1 == (LIMIT32 - 1) / cb * cb + (LIMIT32 - 1) % cb;
  }

  /** The next cluster holds at least one more byte. */
  lemma ReadMore(v: Vol, cb: nat, c: nat, max: nat, out: Bytes, whole: Bytes)
    requires ReadAhead(v, cb, c, max, out, whole) && IsCluster(c) && |out| < max
    ensures |out| < |whole| && whole[..|out|] == out
  {
  }

  lemma ReadEnds(v: Vol, cb: nat, c: nat, max: nat, out: Bytes, whole: Bytes)
    requires ReadAhead(v, cb, c, max, out, whole) && (!IsCluster(c) || |out| == max)
    ensures out == whole
  {
    assert out + [] == out;
  }

  lemma ViewShape(g: Geometry, disk: Disk)
    requires WellFormed(g, disk)
    ensures Shape(View(g, disk).fat, View(g, disk).data, g.spc * SECTOR)
  {
    hide Entry, Cluster;
  }

  lemma FillBytes(cl: Bytes, i: nat, e: Bytes, r: Bytes)
    requires i < Slots(cl) && |e| == SLOT && |r| == |cl|
    requires forall k | 0 <= k < |cl| :: r[k] == if SLOT * i <= k < SLOT * i + SLOT then e[k - SLOT * i] else cl[k]
    ensures r == Fill(cl, i, e)
  {
    var f := Fill(cl, i, e);
    forall k | 0 <= k < |cl| ensures r[k] == f[k] {
      if SLOT * i <= k < SLOT * i + SLOT { assert f[k] == f[SLOT * i..SLOT * i + SLOT][k - SLOT * i]; }
    }
  }

  /** From cluster k on some cluster holds the name or the end marker. */
  ghost predicate Stops(dir: seq<Bytes>, name: Bytes, k: nat)
    decreases |dir| - k
  {
    k < |dir| && (FindIn(dir[k], name, 0) != More || Stops(dir, name, k + 1))
  }

  ghost predicate StepAt(fat: Fat, ch: seq<nat>, i: nat)
    requires i < |ch|
  {
    IsCluster(ch[i]) && ch[i] < |fat| && (i + 1 < |ch| ==> fat[ch[i]] == ch[i + 1])
  }

  /** The clusters a lookup visits at most: it follows the links on the volume, repeated clusters
      allowed, and comes to a mark that is no cluster number, or finds the name or the end marker. */
  ghost predicate Trail(v: Vol, cb: nat, ch: seq<nat>, name: Bytes)
  {
    && Good(v, cb) && ch != [] && InTable(v, ch) && (forall i: nat | i < |ch| :: StepAt(v.fat, ch, i))
    && (!IsCluster(v.fat[ch[|ch| - 1]]) || Stops(Dir(v, ch), name, 0))
  }

  /** The lookup loop, started at cluster c, ends after at most n rounds without leaving the volume. */
  ghost predicate EndsIn(v: Vol, c: nat, name: Bytes, n: nat)
    decreases n
  {
    || !IsCluster(c)
    || (n > 0 && c < |v.fat| && c < |v.data|
        && (FindIn(v.data[c], name, 0) != More || EndsIn(v, v.fat[c], name, n - 1)))
  }

  lemma {:induction false} StopsBehind(x: Bytes, dir: seq<Bytes>, name: Bytes, k: nat)
    requires k <= |dir|
    ensures Stops([x] + dir, name, k + 1) == Stops(dir, name, k)
    decreases |dir| - k
  {
    hide FindIn;
    if k < |dir| { StopsBehind(x, dir, name, k + 1); }
  }

  lemma TrailGrows(v: Vol, cb: nat, c: nat, ch: seq<nat>, name: Bytes)
    requires Trail(v, cb, ch, name) && IsCluster(c) && c < |v.fat| && v.fat[c] == ch[0]
    ensures Trail(v, cb, [c] + ch, name)
  {
    hide FindIn;
    var r := [c] + ch;
    forall i: nat | i < |r| ensures StepAt(v.fat, r, i) {
      if i > 0 { assert StepAt(v.fat, ch, i - 1); }
    }
    assert InTable(v, r);
    assert Dir(v, r) == [v.data[c]] + Dir(v, ch);
    StopsBehind(v.data[c], Dir(v, ch), name, 0);
  }

  lemma TrailOfOne(v: Vol, cb: nat, c: nat, name: Bytes)
    requires Good(v, cb) && IsCluster(c) && c < |v.fat|
    requires FindIn(v.data[c], name, 0) != More || !IsCluster(v.fat[c])
    ensures Trail(v, cb, [c], name)
  {
    hide FindIn;
    assert StepAt(v.fat, [c], 0);
  }

  /** The clusters of the rounds make a trail. */
  lemma {:induction false} EndsAlongTrail(v: Vol, cb: nat, c: nat, name: Bytes, n: nat) returns (ch: seq<nat>)
    requires Good(v, cb) && IsCluster(c) && EndsIn(v, c, name, n)
    ensures Trail(v, cb, ch, name) && ch != [] && ch[0] == c
    decreases n
  {
    hide FindIn, Trail;
    if FindIn(v.data[c], name, 0) != More || !IsCluster(v.fat[c]) {
      ch := [c];
      TrailOfOne(v, cb, c, name);
    } else {
      ch := EndsAlongTrail(v, cb, v.fat[c], name, n - 1);
      TrailGrows(v, cb, c, ch, name);
      ch := [c] + ch;
    }
  }

  lemma {:induction false} TrailEnds(v: Vol, cb: nat, ch: seq<nat>, name: Bytes, k: nat)
    requires Trail(v, cb, ch, name) && k < |ch| && ch[|ch| - 1] < |v.fat|
    requires !IsCluster(v.fat[ch[|ch| - 1]]) || Stops(Dir(v, ch), name, k)
    ensures EndsIn(v, ch[k], name, |ch| - k)
    decreases |ch| - k
  {
    hide FindIn;
    assert StepAt(v.fat, ch, k);
    if k + 1 < |ch| && FindIn(v.data[ch[k]], name, 0) == More {
      assert Stops(Dir(v, ch), name, k) ==> Stops(Dir(v, ch), name, k + 1);
      TrailEnds(v, cb, ch, name, k + 1);
    }
  }

  lemma TrailStart(v: Vol, cb: nat, ch: seq<nat>, name: Bytes)
    requires Trail(v, cb, ch, name)
    ensures ch != [] && InTable(v, ch) && |Dir(v, ch)| == |ch|
    ensures ch[|ch| - 1] < |v.fat| && (IsCluster(v.fat[ch[|ch| - 1]]) ==> Stops(Dir(v, ch), name, 0))
  {
    assert StepAt(v.fat, ch, |ch| - 1);
  }

  /** The lookup ends, on the volume, exactly when there is a trail from the directory's first cluster. */
  lemma EndsIffTrail(v: Vol, cb: nat, c: nat, name: Bytes)
    requires Good(v, cb) && IsCluster(c)
    ensures (exists n: nat :: EndsIn(v, c, name, n)) <==>
            exists ch: seq<nat> :: Trail(v, cb, ch, name) && ch != [] && ch[0] == c
  {
    hide EndsIn, Trail;
    if n: nat :| EndsIn(v, c, name, n) {
      var ch := EndsAlongTrail(v, cb, c, name, n);
      assert Trail(v, cb, ch, name) && ch != [] && ch[0] == c;
    }
    if ch: seq<nat> :| Trail(v, cb, ch, name) && ch != [] && ch[0] == c {
      TrailStart(v, cb, ch, name);
      TrailEnds(v, cb, ch, name, 0);
      assert EndsIn(v, c, name, |ch|);
    }
  }

  lemma NotInFull(name: Bytes)
    requires |name| == 11 && name[0] != 65
    ensures FindIn(FullCluster(), name, 0) == More
  {
    var cl := FullCluster();
    forall i: nat | i < 2 ensures Slot(cl, i)[0] == 65 && !Matches(Slot(cl, i), name) {
      assert UpperAll(Slot(cl, i)[..11])[0] == 65;
    }
    assert FindIn(cl, name, 2) == More;
    assert FindIn(cl, name, 1) == More;
  }

  /** It happens: a full directory cluster linked to itself, without the name. */
  lemma {:induction false} NeverEnds(name: Bytes, n: nat)
    requires |name| == 11 && name[0] != 65
    ensures var v := Vol([0, 0, 2], [[], [], FullCluster()]);
            Good(v, 2 * SLOT) && IsCluster(2) && !EndsIn(v, 2, name, n)
  {
    var v := Vol([0, 0, 2], [[], [], FullCluster()]);
    NotInFull(name);
    if n > 0 { NeverEnds(name, n - 1); }
  }

  /** The lookup has come to cluster k of the trail, or to its end, without a hit. */
  ghost predicate Following(v: Vol, ch: seq<nat>, d: seq<Bytes>, name: Bytes, k: nat, cluster: nat)
  {
    && ch != [] && |d| == |ch| && k <= |ch| && ch[|ch| - 1] < |v.fat|
    && (if k < |ch| then cluster == ch[k] else !IsCluster(cluster))
    && (k < |ch| && IsCluster(v.fat[ch[|ch| - 1]]) ==> Stops(d, name, k))
    && Find(d, name, 0, 0) == if k < |ch| then Find(d, name, k, 0) else Nowhere
  }

  /** A whole chain is such a trail. */
  lemma ChainIsTrail(v: Vol, cb: nat, ch: seq<nat>, name: Bytes)
    requires DirOk(v, cb, ch)
    ensures Trail(v, cb, ch, name)
  {
    forall i: nat | i < |ch| ensures StepAt(v.fat, ch, i) { assert LinkAt(v.fat, ch, i); }
    assert LinkAt(v.fat, ch, |ch| - 1);
  }

  /** Cluster k of a trail, and where the links and the lookup go from there. */
  lemma DirHere(v: Vol, cb: nat, ch: seq<nat>, k: nat, name: Bytes)
    requires Trail(v, cb, ch, name) && k < |ch|
    ensures IsCluster(ch[k]) && ch[k] < |v.fat| == |v.data| && v.data[ch[k]] == Dir(v, ch)[k] && |v.data[ch[k]]| == cb
    ensures v.fat[ch[k]] == if k + 1 < |ch| then ch[k + 1] else v.fat[ch[|ch| - 1]]
    ensures FindIn(Dir(v, ch)[k], name, 0) == More ==> Stops(Dir(v, ch), name, k) == Stops(Dir(v, ch), name, k + 1)
    ensures k + 1 == |ch| ==> !Stops(Dir(v, ch), name, k + 1)
    ensures Find(Dir(v, ch), name, k, 0) ==
              match FindIn(Dir(v, ch)[k], name, 0)
              case Hit(j) => At(k, j)
              case End => Nowhere
              case More => if k + 1 < |ch| then Find(Dir(v, ch), name, k + 1, 0) else Nowhere
  {
    hide FindIn;
    assert StepAt(v.fat, ch, k);
  }

  lemma ViewTotal(g: Geometry, disk: Disk)
    requires WellFormed(g, disk)
    ensures |View(g, disk).fat| == |View(g, disk).data| == g.total + 2 <= EOC
  {
  }

  lemma DirStart(v: Vol, cb: nat, ch: seq<nat>)
    requires DirOk(v, cb, ch)
    ensures ch != [] && 2 <= ch[0] < |v.fat| && |Dir(v, ch)| == |ch|
  {
    assert LinkAt(v.fat, ch, 0);
  }

  /** The same for the search of a vacant slot. */
  lemma VacantHere(v: Vol, cb: nat, ch: seq<nat>, k: nat)
    requires DirOk(v, cb, ch) && k < |ch|
    ensures IsCluster(ch[k]) && 2 <= ch[k] < |v.fat| == |v.data|
    ensures v.data[ch[k]] == Dir(v, ch)[k] && |v.data[ch[k]]| == cb
    ensures k + 1 < |ch| ==> v.fat[ch[k]] == ch[k + 1]
    ensures k + 1 == |ch| ==> v.fat[ch[k]] >= EOC
    ensures Free(Dir(v, ch), k) == var f := FreeIn(Dir(v, ch)[k], 0);
              if f < cb / SLOT then At(k, f) else if k + 1 < |ch| then Free(Dir(v, ch), k + 1) else Nowhere
  {
    hide FreeIn;
    assert LinkAt(v.fat, ch, k);
  }

  lemma PlacedInSlot(v: Vol, cb: nat, ch: seq<nat>, e: Bytes)
    requires DirOk(v, cb, ch) && |e| == SLOT && |Dir(v, ch)| > 0 && Free(Dir(v, ch), 0).At?
    ensures var p := Free(Dir(v, ch), 0);
            p.k < |ch| && ch[p.k] < |v.data| && p.i < Slots(v.data[ch[p.k]]) &&
            WithEntry(v, cb, ch, e) == Done(Vol(v.fat, Put(v.data, ch[p.k], Fill(v.data[ch[p.k]], p.i, e))), ch)
  {
    hide Free, Fill, Put;
  }

  lemma RunInside(fat: Fat, n: nat)
    requires n > 0
    ensures var s := LowestRun(fat, n, 2); s != 0 ==> 2 <= s && s + n <= |fat|
  {
  }

  lemma ExtendedBy(v: Vol, cb: nat, ch: seq<nat>, e: Bytes)
    requires DirOk(v, cb, ch) && |e| == SLOT && ch != [] && Free(Dir(v, ch), 0) == Nowhere && |v.fat| <= EOC
    requires LowestRun(v.fat, 1, 2) != 0
    ensures var x := LowestRun(v.fat, 1, 2);
            && x < |v.data| && 0 < Slots(Zeros(cb)) && x + 1 <= |v.fat| && ch[|ch| - 1] < |v.fat|
            && x % ENTRY_LIMIT == x
            && WithEntry(v, cb, ch, e) ==
               Done(Vol(Set(Link(v.fat, x, 1, 1), ch[|ch| - 1], x),
                        Put(Put(v.data, x, Zeros(cb)), x, Fill(Zeros(cb), 0, e))), ch + [x])
  {
    hide Free, Link;
    var x := LowestRun(v.fat, 1, 2);
    assert Fill(Zeros(cb), 0, e) == FirstOf(e, cb);
    assert Put(Put(v.data, x, Zeros(cb)), x, FirstOf(e, cb)) == Put(v.data, x, FirstOf(e, cb));
  }

  lemma WritesRun(fat: Fat, first: nat, n: nat, size: nat, cb: nat)
    requires |fat| <= EOC && 0 < cb <= MAX_CLUSTER && first >= 2 && 0 < size < LIMIT32
    requires n == Needed(size, cb) && IsChain(fat, Run(first, n))
    ensures Follow(fat, first, size, cb)
    ensures 0 < Written(fat, first, size, 0, cb) <= size
    ensures Written(fat, first, size, 0, cb) == size <==> Fits(size, cb)
  {
    hide Written, Needed;
    RoomNext(Run(first, n), 0, cb);
    hide Room;
    var run := Run(first, n);
    NeededIsEnough(size, cb);
    SameRoom(2, first, n, cb);
    WritesAll(fat, run, 0, size, 0, cb);
  }

  /** After allocation: the run is a chain, and the directory is untouched by filling it. */
  lemma FileParts(v: Vol, cb: nat, ch: seq<nat>, src: Source)
    requires DirOk(v, cb, ch) && LowestRun(v.fat, Needed(SizeOf(src), cb), 2) != 0
    ensures var n := Needed(SizeOf(src), cb);
            var s := LowestRun(v.fat, n, 2);
            && 2 <= s && s + n <= |v.fat| && Good(Vol(Link(v.fat, s, n, n), v.data), cb)
            && IsChain(Link(v.fat, s, n, n), Run(s, n)) && Follow(Link(v.fat, s, n, n), s, SizeOf(src), cb)
            && DirOk(WithFile(v, s, src, cb), cb, ch)
            && WithFile(v, s, src, cb) == Vol(Link(v.fat, s, n, n), Stored(Link(v.fat, s, n, n), v.data, s, src, cb))
  {
    hide Needed, Stored, Link;
    var n := Needed(SizeOf(src), cb);
    var s := LowestRun(v.fat, n, 2);
    FileFollows(v.fat, s, SizeOf(src), cb);
    FileKeepsDir(v, cb, ch, s, src);
  }

  /** A file to be stored in a directory that has no earlier entry of its name. */
  ghost predicate NewFile(v: Vol, cb: nat, ch: seq<nat>, name: Bytes, src: Source)
  {
    DirOk(v, cb, ch) && ch != [] && GoodName(name) && SizeOf(src) < LIMIT32 && NoEarlier(Dir(v, ch), name)
  }

  /** What storing, finding and reading it gives: on success the bytes are the content exactly when the
      cluster count has not wrapped, and the result is their number, or -1 for an empty file. */
  ghost predicate Fetched(v: Vol, v': Vol, cb: nat, ch: seq<nat>, name: Bytes, src: Source, ok: bool, r: int,
                          out: Bytes)
    requires NewFile(v, cb, ch, name, src)
  {
    var o := Create(v, cb, ch, name, src);
    && ok == o.Done? && v' == o.v && |out| < LIMIT32
    && (ok ==> (out == Content(src) <==> Fits(SizeOf(src), cb)))
    && (ok ==> r == if SizeOf(src) == 0 then -1 else Signed32(|out|))
  }

  /** A directory keeps its first cluster. */
  lemma SameStart(v: Vol, cb: nat, ch: seq<nat>, name: Bytes, src: Source)
    requires DirOk(v, cb, ch) && |name| == 11 && Create(v, cb, ch, name, src).Done?
    ensures ch != [] && Create(v, cb, ch, name, src).ch != [] && Create(v, cb, ch, name, src).ch[0] == ch[0]
    ensures 2 <= ch[0] < EOC && cb <= MAX_CLUSTER
  {
    hide WithFile, Needed, NewEntry, Free;
    DirStart(v, cb, ch);
  }

  /** A directory in which the name is found, with a file that can be read. */
  ghost predicate Fetchable(v: Vol, cb: nat, ch: seq<nat>, name: Bytes, f: Lookup)
  {
    && DirOk(v, cb, ch) && ch != [] && 2 <= ch[0] < EOC && |name| == 11 && 0 < cb <= MAX_CLUSTER
    && LookUp(Dir(v, ch), name) == f && f.FileAt? && f.size < LIMIT32 && Follow(v.fat, f.first, f.size, cb)
    && |ReadFrom(v.fat, v.data, f.first, f.size, cb)| <= LastBoundary(cb)
    && (f.size == 0 ==> ReadFrom(v.fat, v.data, f.first, f.size, cb) == [])
  }

  lemma NewFileStart(v: Vol, cb: nat, ch: seq<nat>, name: Bytes, src: Source)
    requires NewFile(v, cb, ch, name, src)
    ensures ch != [] && 2 <= ch[0] && DirOk(v, cb, ch) && |name| == 11 && SizeOf(src) < LIMIT32 && cb > 0
  {
    DirStart(v, cb, ch);
  }

  lemma CreatedIsFetchable(v: Vol, cb: nat, ch: seq<nat>, name: Bytes, src: Source)
    requires NewFile(v, cb, ch, name, src) && Create(v, cb, ch, name, src).Done?
    ensures var o := Create(v, cb, ch, name, src);
            && o.ch != [] && o.ch[0] == ch[0]
            && Fetchable(o.v, cb, o.ch, name, FileAt(StartOf(v, cb, src), SizeOf(src)))
            && Shape(o.v.fat, o.v.data, cb) && Follow(o.v.fat, StartOf(v, cb, src), SizeOf(src), cb)
  {
    hide Create, LookUp, NoEarlier, ReadFrom, Follow, StartOf, Dir, IsChain, InTable, LastBoundary;
    var o := Create(v, cb, ch, name, src);
    SameStart(v, cb, ch, name, src);
    CreateFindRead(v, cb, ch, name, src);
    CreatedInBounds(SizeOf(src), cb, |ReadFrom(o.v.fat, o.v.data, StartOf(v, cb, src), SizeOf(src), cb)|);
  }

  lemma FetchedIs(v: Vol, cb: nat, ch: seq<nat>, name: Bytes, src: Source, r: int, out: Bytes)
    requires NewFile(v, cb, ch, name, src) && Create(v, cb, ch, name, src).Done? && |out| < LIMIT32
    requires var o, s := Create(v, cb, ch, name, src), StartOf(v, cb, src);
             && Shape(o.v.fat, o.v.data, cb) && Follow(o.v.fat, s, SizeOf(src), cb)
             && out == ReadFrom(o.v.fat, o.v.data, s, SizeOf(src), cb)
    requires r == if SizeOf(src) == 0 then -1 else Signed32(|out|)
    ensures Fetched(v, Create(v, cb, ch, name, src).v, cb, ch, name, src, true, r, out)
  {
    hide Create, LookUp, NoEarlier, ReadFrom, Follow, StartOf, Dir, IsChain, InTable;
    CreateFindRead(v, cb, ch, name, src);
  }

  lemma NotFetched(v: Vol, cb: nat, ch: seq<nat>, name: Bytes, src: Source)
    requires NewFile(v, cb, ch, name, src)
    ensures var o := Create(v, cb, ch, name, src);
            o.Failed? ==> Fetched(v, o.v, cb, ch, name, src, false, -1, [])
  {
    hide Create;
  }

  class Driver {
    var disk: Disk
    const g: Geometry
    /** s_sector and s_cluster_buf. */
    const sector: array<Byte>
    const clusterBuf: array<Byte>
    var ready: bool

    ghost predicate Valid()
      reads this
    {
      && sector != clusterBuf && sector.Length == SECTOR && clusterBuf.Length == BUFFER
      && WellFormed(g, disk) && Mirrored(g, disk)
    }

    /** The volume: the 28-bit table and the clusters. */
    ghost function Volume(): (v: Vol)
      requires Valid()
      reads this
    {
      View(g, disk)
    }

    function ClusterBytes(): nat { g.spc * SECTOR }

    /** A volume whose disk has been formatted with matching table copies. */
    constructor (g: Geometry, disk: Disk)
      requires WellFormed(g, disk) && Mirrored(g, disk)
      ensures Valid() && this.g == g && this.disk == disk && ready && fresh(sector) && fresh(clusterBuf)
    {
      this.g, this.disk, ready := g, disk, true;
      sector, clusterBuf := new Byte[SECTOR](_ => 0), new Byte[BUFFER](_ => 0);
    }

    // ----- Sectors and entries -----

    /** read_sector into s_sector; it fails past the end of the disk. */
    method ReadSector(lba: nat) returns (ok: bool)
      requires Valid()
      modifies sector
      ensures ok == (lba < |disk|) && sector[..] == if ok then disk[lba] else old(sector[..])
    {
      hide WellFormed, Mirrored;
      if lba >= |disk| { return false; }
      SectorSizes(g, disk, lba);
      ghost var b := disk[lba];
      forall k | 0 <= k < SECTOR { sector[k] := disk[lba][k]; }
      ok := true;
    }

    /** fat32_read_fat_entry. */
    method ReadFatEntry(cluster: nat) returns (v: nat)
      requires Valid()
      modifies sector
      ensures !ready || cluster < 2 || TableLba(g, 0, cluster / PER_SECTOR) >= |disk| ==> v == 0x0FFF_FFF7
      ensures ready && cluster >= 2 && TableLba(g, 0, cluster / PER_SECTOR) < |disk| ==>
                v == Stored32(g, disk, cluster) % ENTRY_LIMIT
      ensures ready && 2 <= cluster < g.total + 2 ==> v == Volume().fat[cluster]
    {
      hide WellFormed, Mirrored, From32, Cluster;
      if !ready || cluster < 2 { return BAD; }
      if cluster < g.total + 2 { EntrySector(g, disk, cluster); }
      var ok := ReadSector(TableLba(g, 0, cluster / PER_SECTOR));
      if !ok { return BAD; }
      v := From32(sector[..], cluster % PER_SECTOR * 4) % ENTRY_LIMIT;
    }

    /** fat32_next_cluster. */
    method NextCluster(cluster: nat) returns (v: nat)
      requires Valid()
      modifies sector
      ensures !ready || TableLba(g, 0, cluster / PER_SECTOR) >= |disk| ==> v == 0
      ensures ready && TableLba(g, 0, cluster / PER_SECTOR) < |disk| ==> v == Stored32(g, disk, cluster) % ENTRY_LIMIT
      ensures ready && cluster < g.total + 2 ==> v == Volume().fat[cluster]
    {
      hide WellFormed, Mirrored, From32, Cluster;
      if !ready { return 0; }
      if cluster < g.total + 2 { EntrySector(g, disk, cluster); }
      var ok := ReadSector(TableLba(g, 0, cluster / PER_SECTOR));
      if !ok { return 0; }
      v := From32(sector[..], cluster % PER_SECTOR * 4) % ENTRY_LIMIT;
    }

    /** fat32_write_fat_entry: read the sector from the first copy, patch it, write it to all. */
    method WriteFatEntry(cluster: nat, value: nat) returns (ok: bool)
      requires Valid() && cluster < g.total + 2
      modifies `disk, sector
      ensures Valid() && ok == (ready && cluster >= 2)
      ensures Volume() == if ok then Vol(Set(old(Volume().fat), cluster, value % ENTRY_LIMIT), old(Volume().data))
                          else old(Volume())
    {
      hide WellFormed, Mirrored, Patch, Le32, Entry, Cluster;
      if !ready || cluster < 2 { return false; }
      Positive(g, disk);
      EntrySector(g, disk, cluster);
      EntryWrite(g, disk, cluster, value);
      ghost var was := disk;
      var s, at := cluster / PER_SECTOR, cluster % PER_SECTOR * 4;
      ok := ReadSector(TableLba(g, 0, s));
      var b := Patch(sector[..], at, Le32(value % ENTRY_LIMIT));
      forall k | 0 <= k < SECTOR { sector[k] := b[k]; }
      assert sector[..] == b;
      var f := 0;
      while f < g.numFats
        invariant f <= g.numFats && disk == Copies(g, was, s, b, f) && sector[..] == b
      {
        TableBelowData(g, was, f, s);
        disk := disk[TableLba(g, f, s) := sector[..]];
        f := f + 1;
      }
      ok := true;
    }

    // ----- Clusters -----

    /** fat32_read_cluster into s_cluster_buf. */
    method ReadCluster(cluster: nat) returns (r: int)
      requires Valid() && cluster < g.total + 2
      modifies clusterBuf
      ensures ClusterBytes() <= BUFFER && r == if !ready || cluster < 2 then -1 else 0
      ensures if r == 0 then clusterBuf[..ClusterBytes()] == Volume().data[cluster]
              else clusterBuf[..] == old(clusterBuf[..])
    {
      hide WellFormed, Mirrored, Entry, ClusterLba;
      BufferFits(g, disk);
      if !ready || cluster < 2 { return -1; }
      ClusterOnDiskSizes(g, disk, cluster);
      var b := Sectors(disk, ClusterLba(g, cluster), g.spc);
      var cb := ClusterBytes();
      forall k | 0 <= k < cb { clusterBuf[k] := b[k]; }
      assert clusterBuf[..cb] == b;
      r := 0;
    }

    /** fat32_write_cluster from s_cluster_buf. */
    method WriteCluster(cluster: nat) returns (r: int)
      requires Valid() && cluster < g.total + 2
      modifies `disk
      ensures Valid() && ClusterBytes() <= BUFFER && r == if !ready || cluster < 2 then -1 else 0
      ensures Volume() ==
                if r == 0 then Vol(old(Volume().fat), Put(old(Volume().data), cluster, clusterBuf[..ClusterBytes()]))
                else old(Volume())
    {
      hide WellFormed, Mirrored, Overlay, Entry, Cluster;
      BufferFits(g, disk);
      if !ready || cluster < 2 { return -1; }
      ClusterOnDiskSizes(g, disk, cluster);
      var b := clusterBuf[..ClusterBytes()];
      ClusterWrite(g, disk, cluster, b);
      disk := Overlay(disk, ClusterLba(g, cluster), g.spc, b);
      r := 0;
    }

    /** fat32_clear_cluster. */
    method ClearCluster(cluster: nat) returns (r: int)
      requires Valid() && cluster < g.total + 2
      modifies `disk, clusterBuf
      ensures Valid() && ClusterBytes() <= BUFFER && clusterBuf[..ClusterBytes()] == Zeros(ClusterBytes())
      ensures r == if !ready || cluster < 2 then -1 else 0
      ensures Volume() == if r == 0 then Vol(old(Volume().fat), Put(old(Volume().data), cluster, Zeros(ClusterBytes())))
                          else old(Volume())
    {
      hide WellFormed, Mirrored, View;
      BufferFits(g, disk);
      var bytes := ClusterBytes();
      var i := 0;
      while i < bytes
        invariant i <= bytes && disk == old(disk) && forall k | 0 <= k < i :: clusterBuf[k] == 0
      {
        clusterBuf[i] := 0;
        i := i + 1;
      }
      assert clusterBuf[..bytes] == Zeros(bytes);
      r := WriteCluster(cluster);
    }

    // ----- Allocation -----

    /** Link the clusters of a run. */
    method LinkRun(start: nat, count: nat)
      requires Valid() && ready && start >= 2 && start + count <= g.total + 2
      modifies `disk, sector
      ensures Valid() && Volume() == Vol(Link(old(Volume().fat), start, count, count), old(Volume().data))
    {
      hide WellFormed, Mirrored, FatView, DataView, Link, Set;
      ViewSizes(g, disk);
      var i := 0;
      ghost var fat, data := Volume().fat, Volume().data;
      if count > 0 { LinkNext(fat, start, count, 0); } else { LinkNone(fat, start); }
      while i < count
        invariant i <= count && Valid() && Volume() == Vol(Link(fat, start, count, i), data)
      {
        var cur := start + i;
        LinkNext(fat, start, count, i);
        var ok := WriteFatEntry(cur, if i + 1 < count then cur + 1 else EOC);
        i := i + 1;
      }
    }

    /** fat32_alloc_contiguous. */
    method AllocContiguous(count: nat) returns (start: nat)
      requires Valid()
      modifies `disk, sector
      ensures Valid()
      ensures !ready || count == 0 ==> start == 0 && Volume() == old(Volume())
      ensures ready && count > 0 ==>
                && start == LowestRun(old(Volume().fat), count, 2)
                && Volume() == if start == 0 then old(Volume())
                               else Vol(Link(old(Volume().fat), start, count, count), old(Volume().data))
    {
      hide WellFormed, Mirrored, FatView, DataView, LowestRun, FreeRun, Link;
      ViewSizes(g, disk);
      if !ready || count == 0 { return 0; }
      var runStart, runLen, c := 0, 0, 2;
      ghost var fat := Volume().fat;
      ScanStart(fat, count);
      while c < g.total + 2
        invariant 2 <= c <= g.total + 2 && disk == old(disk) && Scanned(fat, count, c, runLen)
        invariant runLen > 0 ==> runStart == c - runLen
      {
        var val := ReadFatEntry(c);
        ScanNext(fat, count, c, runLen);
        if val == 0 {
          if runLen == 0 { runStart := c; }
          runLen := runLen + 1;
          if runLen == count {
            LinkRun(runStart, count);
            return runStart;
          }
        } else {
          runLen := 0;
        }
        c := c + 1;
      }
      ScanEnd(fat, count, runLen);
      return 0;
    }

    /** fat32_free_chain; ends on cyclic chains too. */
    method FreeChain(first: nat) returns (r: int)
      requires Valid() && OnVolume(Volume().fat, first)
      modifies `disk, sector
      ensures Valid() && r == if !ready || first < 2 then -1 else 0
      ensures Volume() == if r == 0 then Vol(FreeFrom(old(Volume().fat), first), old(Volume().data)) else old(Volume())
    {
      hide WellFormed, Mirrored, FatView, DataView, FreeFrom, Used, Reaches;
      ViewSizes(g, disk);
      if !ready || first < 2 { return -1; }
      var cluster: nat := first;
      ghost var fat := Volume().fat;
      while cluster >= 2 && cluster < EOC
        invariant Valid() && ready && Volume() == Vol(fat, old(Volume().data)) && OnVolume(fat, cluster)
        invariant FreeFrom(fat, cluster) == FreeFrom(old(Volume().fat), first)
        decreases Used(fat), if IsCluster(cluster) then 1 else 0
      {
        var next := NextCluster(cluster);
        ClearUses(fat, cluster);
        FreeStep(fat, cluster);
        var ok := WriteFatEntry(cluster, 0);
        fat := Set(fat, cluster, 0);
        cluster := next;
      }
      FreeStop(fat, cluster);
      return 0;
    }

    // ----- Files -----

    /** The two copy loops of the write: the file's bytes, then zeros. */
    method FillChunk(buf: Bytes, written: nat, chunk: nat)
      requires Valid() && ClusterBytes() <= BUFFER && written < |buf| && chunk == Min(ClusterBytes(), |buf| - written)
      modifies clusterBuf
      ensures clusterBuf[..ClusterBytes()] == Chunk(buf, written, ClusterBytes())
    {
      hide WellFormed, Mirrored;
      var i := 0;
      while i < chunk
        invariant i <= chunk && forall k | 0 <= k < i :: clusterBuf[k] == buf[written + k]
      {
        clusterBuf[i] := buf[written + i];
        i := i + 1;
      }
      while i < ClusterBytes()
        invariant chunk <= i <= ClusterBytes()
        invariant forall k | 0 <= k < i :: clusterBuf[k] == if k < chunk then buf[written + k] else 0
      {
        clusterBuf[i] := 0;
        i := i + 1;
      }
    }

    /** fat32_write_file. */
    method WriteFile(first: nat, buf: Bytes) returns (r: int)
      requires Valid() && |buf| < LIMIT32 && ClusterBytes() > 0
      requires Follow(Volume().fat, first, |buf|, ClusterBytes())
      modifies `disk, sector, clusterBuf
      ensures Valid() && Shape(old(Volume().fat), old(Volume().data), ClusterBytes())
      ensures !ready || buf == [] ==> r == -1 && Volume() == old(Volume())
      ensures ready && buf != [] ==>
                var w := Written(old(Volume().fat), first, |buf|, 0, ClusterBytes());
                && r == (if w > 0 then Signed32(w) else -1)
                && Volume() == Vol(old(Volume().fat),
                                   WriteFrom(old(Volume().fat), old(Volume().data), first, buf, 0, ClusterBytes()))
    {
      hide WellFormed, Mirrored, FatView, DataView, Chunk, WriteFrom, Written, Follow;
      BufferFits(g, disk);
      ViewSizes(g, disk);
      if !ready || buf == [] { return -1; }
      var cluster: nat, written := first, 0;
      ghost var fat, data := Volume().fat, Volume().data;
      while cluster >= 2 && cluster < EOC && written < |buf|
        invariant Valid() && Volume() == Vol(fat, data) && Shape(fat, data, ClusterBytes()) && written <= |buf|
        invariant Follow(fat, cluster, |buf| - written, ClusterBytes())
        invariant WriteFrom(fat, data, cluster, buf, written, ClusterBytes())
               == WriteFrom(fat, old(Volume().data), first, buf, 0, ClusterBytes())
        invariant Written(fat, cluster, |buf|, written, ClusterBytes()) == Written(fat, first, |buf|, 0, ClusterBytes())
        decreases |buf| - written
      {
        var chunk := |buf| - written;
        if chunk > ClusterBytes() { chunk := ClusterBytes(); }
        WriteStep(fat, data, cluster, buf, written, ClusterBytes());
        FillChunk(buf, written, chunk);
        var wrote := WriteCluster(cluster);
        data := Put(data, cluster, Chunk(buf, written, ClusterBytes()));
        written := written + chunk;
        if written >= |buf| {
          WriteDone(fat, data, fat[cluster], buf, written, ClusterBytes());
          return Signed32(written);
        }
        cluster := NextCluster(cluster);
      }
      WriteDone(fat, data, cluster, buf, written, ClusterBytes());
      return if written > 0 then Signed32(written) else -1;
    }

    /** fat32_read_file.  `over` reports a copy past the caller's buffer; the model stops in front of it. */
    method ReadFile(first: nat, max: nat) returns (r: int, out: Bytes, over: bool)
      requires Valid() && max < LIMIT32 && 0 < ClusterBytes() <= MAX_CLUSTER
      requires Follow(Volume().fat, first, max, ClusterBytes())
      modifies sector, clusterBuf
      ensures Shape(Volume().fat, Volume().data, ClusterBytes())
      ensures !ready || max == 0 ==> r == -1 && out == [] && !over
      ensures ready && max > 0 ==>
                var whole := ReadFrom(Volume().fat, Volume().data, first, max, ClusterBytes());
                && over == (|whole| > LastBoundary(ClusterBytes()))
                && (!over ==> out == whole && r == Signed32(|out|))
                && (over ==> out == whole[..LastBoundary(ClusterBytes())])
    {
      hide WellFormed, Mirrored, View, Shape, ReadFrom, ReadAhead, Follow, LastBoundary, Signed32, Extent;
      BufferFits(g, disk);
      ViewTotal(g, disk);
      ViewShape(g, disk);
      out, over := [], false;
      if !ready || max == 0 { return -1, [], false; }
      var cluster: nat := first;
      ghost var v, cb, k := Volume(), ClusterBytes(), 0;
      ghost var whole := ReadFrom(v.fat, v.data, first, max, cb);
      ReadStart(v, first, max, cb);
      ExtentNext(0, cb);
      while cluster >= 2 && cluster < EOC
        invariant |out| == Extent(k, cb) < max && ReadAhead(v, cb, cluster, max, out, whole)
        decreases max - |out|
      {
        BoundaryWraps(k, |out|, max, cb);
        ExtentNext(k, cb);
        ReadOn(v, cb, cluster, max, out, whole);
        var read := ReadCluster(cluster);
        var n := if (|out| + ClusterBytes()) % LIMIT32 > max then max - |out| else ClusterBytes();
        if |out| + n > max {
          ReadMore(v, cb, cluster, max, out, whole);
          return -1, out, true;
        }
        assert clusterBuf[..n] == v.data[cluster][..n];
        out := out + clusterBuf[..n];
        if |out| >= max {
          ReadEnds(v, cb, v.fat[cluster], max, out, whole);
          return Signed32(|out|), out, false;
        }
        cluster := NextCluster(cluster);
        k := k + 1;
      }
      BoundaryWraps(k, |out|, max, cb);
      ReadEnds(v, cb, cluster, max, out, whole);
      return Signed32(|out|), out, false;
    }

    // ----- Directories -----

    /** Search the loaded directory cluster for a name. */
    method ScanCluster(name: Bytes) returns (s: Scan)
      requires Valid() && ClusterBytes() <= BUFFER && |name| == 11
      ensures s == FindIn(clusterBuf[..ClusterBytes()], name, 0)
    {
      hide WellFormed, Mirrored, Matches;
      var cl := clusterBuf[..ClusterBytes()];
      var i, entries := 0, ClusterBytes() / SLOT;
      while i < entries
        invariant i <= entries == Slots(cl) && FindIn(cl, name, 0) == FindIn(cl, name, i)
      {
        var de := Slot(cl, i);
        if de[0] == 0 { return End; }
        if Matches(de, name) { return Hit(i); }
        i := i + 1;
      }
      return More;
    }

    /** The first vacant slot of the loaded directory cluster. */
    method ScanVacant() returns (f: nat)
      requires Valid() && ClusterBytes() <= BUFFER
      ensures f == FreeIn(clusterBuf[..ClusterBytes()], 0)
    {
      hide WellFormed, Mirrored;
      var cl := clusterBuf[..ClusterBytes()];
      f := 0;
      while f < ClusterBytes() / SLOT
        invariant f <= ClusterBytes() / SLOT == Slots(cl) && FreeIn(cl, 0) == FreeIn(cl, f)
      {
        if Vacant(Slot(cl, f)) { return; }
        f := f + 1;
      }
    }

    /** fat32_find_file in the directory whose links lead along ch. */
    method FindFile(dirCluster: nat, name: Bytes, ghost ch: seq<nat>) returns (r: int, first: nat, size: nat)
      requires Valid() && |name| == 11
      requires ready && IsCluster(dirCluster) ==> Trail(Volume(), ClusterBytes(), ch, name) && dirCluster == ch[0]
      modifies sector, clusterBuf
      ensures !(ready && IsCluster(dirCluster)) ==> r == -1
      ensures ready && IsCluster(dirCluster) ==>
                match LookUp(Dir(Volume(), ch), name)
                case Missing => r == -1
                case FileAt(f, n) => r == 0 && first == f && size == n
    {
      hide WellFormed, Mirrored, View, Good, FindIn, Find, Trail, InTable, Dir, Slot, FirstCluster, Size, Stops;
      BufferFits(g, disk);
      first, size := 0, 0;
      if !ready { return -1, 0, 0; }
      ghost var v, cb, k := Volume(), ClusterBytes(), 0;
      ViewTotal(g, disk);
      ghost var d: seq<Bytes> := [];
      if IsCluster(dirCluster) {
        TrailStart(v, cb, ch, name);
        d := Dir(v, ch);
      }
      var cluster: nat := dirCluster;
      while cluster >= 2 && cluster < EOC
        invariant if IsCluster(dirCluster) then Following(v, ch, d, name, k, cluster) else cluster == dirCluster
        decreases |ch| - k
      {
        DirHere(v, cb, ch, k, name);
        var read := ReadCluster(cluster);
        var s := ScanCluster(name);
        if s.End? { return -1, 0, 0; }
        if s.Hit? {
          var de := Slot(clusterBuf[..ClusterBytes()], s.i);
          return 0, FirstCluster(de), Size(de);
        }
        cluster := NextCluster(cluster);
        k := k + 1;
      }
      if IsCluster(dirCluster) && k < |ch| { DirHere(v, cb, ch, k, name); }
      return -1, 0, 0;
    }

    /** Overwrite slot i of the loaded directory cluster. */
    method FillEntry(i: nat, e: Bytes)
      requires Valid() && ClusterBytes() <= BUFFER && i < ClusterBytes() / SLOT && |e| == SLOT
      modifies clusterBuf
      ensures clusterBuf[..ClusterBytes()] == Fill(old(clusterBuf[..ClusterBytes()]), i, e)
    {
      hide WellFormed, Mirrored;
      ghost var was := clusterBuf[..ClusterBytes()];
      var j := 0;
      while j < SLOT
        invariant j <= SLOT
        invariant forall k | 0 <= k < |was| :: clusterBuf[k] == if SLOT * i <= k < SLOT * i + j then 0 else was[k]
      {
        clusterBuf[SLOT * i + j] := 0;
        j := j + 1;
      }
      j := 0;
      while j < SLOT
        invariant j <= SLOT
        invariant forall k | 0 <= k < |was| ::
                    clusterBuf[k] == if SLOT * i <= k < SLOT * i + j then e[k - SLOT * i]
                                     else if SLOT * i <= k < SLOT * i + SLOT then 0 else was[k]
      {
        clusterBuf[SLOT * i + j] := e[j];
        j := j + 1;
      }
      FillBytes(was, i, e, clusterBuf[..ClusterBytes()]);
    }

    /** Extend the directory by a cluster that starts with the entry. */
    method Extend(last: nat, e: Bytes, ghost ch: seq<nat>) returns (ok: bool)
      requires Valid() && ready && |e| == SLOT && DirOk(Volume(), ClusterBytes(), ch)
      requires ch != [] && last == ch[|ch| - 1] && Free(Dir(Volume(), ch), 0) == Nowhere
      modifies `disk, sector, clusterBuf
      ensures Valid()
      ensures match WithEntry(old(Volume()), ClusterBytes(), ch, e)
              case Done(v, _) => ok && Volume() == v
              case Failed(v) => !ok && Volume() == v
    {
      hide WellFormed, Mirrored, View, Free, IsChain, InTable, Dir, Slot, Fill, Put, FirstOf, Set, Link, LowestRun;
      BufferFits(g, disk);
      ghost var v, cb := Volume(), ClusterBytes();
      ViewTotal(g, disk);
      VacantHere(v, cb, ch, |ch| - 1);
      var added := AllocContiguous(1);
      if added == 0 { return false; }
      RunInside(v.fat, 1);
      var linked := WriteFatEntry(last, added);
      var cleared := ClearCluster(added);
      FillEntry(0, e);
      var wrote := WriteCluster(added);
      ExtendedBy(v, cb, ch, e);
      ok := true;
    }

    /** Take a vacant slot, or extend the directory by a cluster. */
    method PlaceEntry(dirCluster: nat, e: Bytes, ghost ch: seq<nat>) returns (ok: bool)
      requires Valid() && ready && |e| == SLOT && DirOk(Volume(), ClusterBytes(), ch) && dirCluster == ch[0]
      modifies `disk, sector, clusterBuf
      ensures Valid()
      ensures match WithEntry(old(Volume()), ClusterBytes(), ch, e)
              case Done(v, _) => ok && Volume() == v
              case Failed(v) => !ok && Volume() == v
    {
      hide WellFormed, Mirrored, View, Good, FreeIn, Free, IsChain, InTable, Dir, Slot, Fill, Put, FirstOf, Set, Link,
           LowestRun;
      BufferFits(g, disk);
      ghost var v, d, cb, k := Volume(), Dir(Volume(), ch), ClusterBytes(), 0;
      ViewTotal(g, disk);
      DirStart(v, cb, ch);
      var cluster: nat, last: nat := dirCluster, 0;
      while cluster >= 2 && cluster < EOC
        invariant disk == old(disk) && k <= |ch| && (if k < |ch| then cluster == ch[k] else cluster >= EOC)
        invariant k > 0 ==> last == ch[k - 1]
        invariant Free(d, 0) == if k < |ch| then Free(d, k) else Nowhere
        decreases |ch| - k
      {
        VacantHere(v, cb, ch, k);
        var read := ReadCluster(cluster);
        var i := ScanVacant();
        if i < ClusterBytes() / SLOT {
          FillEntry(i, e);
          var wrote := WriteCluster(cluster);
          PlacedInSlot(v, cb, ch, e);
          return true;
        }
        last := cluster;
        cluster := NextCluster(cluster);
        k := k + 1;
      }
      if k < |ch| { VacantHere(v, cb, ch, k); }
      ok := Extend(last, e, ch);
    }

    /** Fill the file's clusters: the data, or zeros. */
    method StoreFile(first: nat, src: Source) returns (ok: bool)
      requires Valid() && ready && Good(Volume(), ClusterBytes()) && SizeOf(src) < LIMIT32
      requires 2 <= first && first + Needed(SizeOf(src), ClusterBytes()) <= g.total + 2
      requires IsChain(Volume().fat, Run(first, Needed(SizeOf(src), ClusterBytes())))
      modifies `disk, sector, clusterBuf
      ensures Valid() && Follow(old(Volume().fat), first, SizeOf(src), ClusterBytes())
      ensures ok == (src.Given? ==> Fits(SizeOf(src), ClusterBytes()))
      ensures Volume() ==
                Vol(old(Volume().fat), Stored(old(Volume().fat), old(Volume().data), first, src, ClusterBytes()))
    {
      hide WellFormed, Mirrored, View, IsChain, Needed, WriteFrom, Written, Follow, ClearRun;
      BufferFits(g, disk);
      ViewTotal(g, disk);
      ghost var v, cb := Volume(), ClusterBytes();
      var n := Needed(SizeOf(src), ClusterBytes());
      ChainFollows(v.fat, Run(first, n), 0, SizeOf(src), cb);
      if src.Given? && src.buf != [] {
        WritesRun(v.fat, first, n, |src.buf|, cb);
        var w := WriteFile(first, src.buf);
        return w == Signed32(|src.buf|);
      }
      var i := 0;
      while i < n
        invariant i <= n && Valid() && first + n <= g.total + 2
        invariant Volume() == Vol(v.fat, ClearRun(v.data, first, i, cb))
      {
        var cleared := ClearCluster(first + i);
        i := i + 1;
      }
      ok := true;
    }

    /** fat32_create_file in the directory whose chain is ch. */
    method CreateFile(dirCluster: nat, name: Bytes, src: Source, ghost ch: seq<nat>) returns (r: int, first: nat)
      requires Valid() && |name| == 11 && SizeOf(src) < LIMIT32
      requires dirCluster >= 2 ==> DirOk(Volume(), ClusterBytes(), ch) && dirCluster == ch[0]
      modifies `disk, sector, clusterBuf
      ensures Valid()
      ensures !ready || dirCluster < 2 ==> r == -1 && Volume() == old(Volume())
      ensures ready && dirCluster >= 2 ==>
                match Create(old(Volume()), ClusterBytes(), ch, name, src)
                case Done(v, _) => r == 0 && Volume() == v && first == StartOf(old(Volume()), ClusterBytes(), src)
                case Failed(v) => r == -1 && Volume() == v
    {
      hide WellFormed, Mirrored, View, Needed, Stored, WithEntry, NewEntry, IsChain, InTable, Dir, LowestRun, Link;
      BufferFits(g, disk);
      ViewTotal(g, disk);
      if !ready || dirCluster < 2 { return -1, 0; }
      ghost var v, cb := Volume(), ClusterBytes();
      var n := Needed(SizeOf(src), ClusterBytes());
      first := AllocContiguous(n);
      if first == 0 { return -1, 0; }
      FileParts(v, cb, ch, src);
      var stored := StoreFile(first, src);
      if !stored { return -1, first; }
      var placed := PlaceEntry(dirCluster, NewEntry(name, first, SizeOf(src)), ch);
      r := if placed then 0 else -1;
    }

    /** Look a name up and read what was found. */
    method Fetch(dirCluster: nat, name: Bytes, ghost ch: seq<nat>, ghost f: Lookup) returns (r: int, out: Bytes)
      requires Valid() && ready && Fetchable(Volume(), ClusterBytes(), ch, name, f) && dirCluster == ch[0]
      modifies sector, clusterBuf
      ensures out == ReadFrom(Volume().fat, Volume().data, f.first, f.size, ClusterBytes()) && |out| < LIMIT32
      ensures r == if f.size == 0 then -1 else Signed32(|out|)
    {
      hide WellFormed, Mirrored, View, LookUp, IsChain, ReadFrom, Follow, Trail, Shape, Dir, InTable;
      var first, size, over;
      ChainIsTrail(Volume(), ClusterBytes(), ch, name);
      r, first, size := FindFile(dirCluster, name, ch);
      r, out, over := ReadFile(first, size);
    }

    /** A file's way over the sectors: create it, look its name up, and read what was found.  An empty file
        is found, but reading it is refused with -1 as any read of 0 bytes. */
    method StoreAndFetch(dirCluster: nat, name: Bytes, src: Source, ghost ch: seq<nat>)
      returns (ok: bool, r: int, out: Bytes)
      requires Valid() && ready && NewFile(Volume(), ClusterBytes(), ch, name, src) && dirCluster == ch[0]
      modifies `disk, sector, clusterBuf
      ensures Valid() && Fetched(old(Volume()), Volume(), ClusterBytes(), ch, name, src, ok, r, out)
    {
      hide WellFormed, Mirrored, View, Create, IsChain, NoEarlier, ReadFrom, Fetchable, Fetched, Good, Dir, InTable,
           Shape, Follow, StartOf;
      ghost var v, cb := Volume(), ClusterBytes();
      ghost var o := Create(v, cb, ch, name, src);
      var first;
      NewFileStart(v, cb, ch, name, src);
      r, first := CreateFile(dirCluster, name, src, ch);
      if r != 0 {
        NotFetched(v, cb, ch, name, src);
        return false, r, [];
      }
      CreatedIsFetchable(v, cb, ch, name, src);
      r, out := Fetch(dirCluster, name, o.ch, FileAt(StartOf(v, cb, src), SizeOf(src)));
      ok := true;
      FetchedIs(v, cb, ch, name, src, r, out);
    }
  }
}
