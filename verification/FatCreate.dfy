/** Creating a file on a FAT32 volume (kernel/fat32.c, fat32_create_file): the new volume as a
    function of the old one, and what lookups and reads see afterwards. */
module FatCreate {
  import opened Arith
  import opened LittleEndian
  import opened FatModel
  import opened FatFiles
  import opened FatDirectory

  /** The 28-bit allocation table and the clusters; indices 0 and 1 are not clusters. */
  datatype Vol = Vol(fat: Fat, data: seq<Bytes>)

  /** The data pointer and size a caller passes: without data the file is blank. */
  datatype Source = Given(buf: Bytes) | Blank(size: nat)

  function SizeOf(src: Source): nat { match src case Given(b) => |b| case Blank(n) => n }

  function Content(src: Source): (c: Bytes)
    ensures |c| == SizeOf(src)
  {
    match src case Given(b) => b case Blank(n) => Zeros(n)
  }

  /** The most bytes a cluster has: 128 sectors. */
  const MAX_CLUSTER: nat := 0x1_0000

  ghost predicate Good(v: Vol, cb: nat)
  {
    Shape(v.fat, v.data, cb) && cb % SLOT == 0 && 2 * SLOT <= cb <= MAX_CLUSTER
  }

  /** How many clusters are allocated for a file, at least one.  The sum has 32 bits. */
  function Needed(size: nat, cb: nat): (n: nat)
    requires cb > 0
    ensures n >= 1
  {
    var n := (size + cb - 1) % LIMIT32 / cb;
    if n == 0 then 1 else n
  }

  /** The sum does not wrap. */
  predicate Fits(size: nat, cb: nat) { size + cb <= LIMIT32 }

  lemma NeededHolds(size: nat, cb: nat)
    requires cb > 0 && Fits(size, cb)
    ensures size <= Needed(size, cb) * cb
  {
    var up := size + cb - 1;
    ModUnique(up, LIMIT32, 0, up);
    var q, r := up / cb, up % cb;
    assert up == q * cb + r && r < cb;
  }

  lemma NeededWraps(size: nat, cb: nat)
    requires 0 < cb <= MAX_CLUSTER && size < LIMIT32 && !Fits(size, cb)
    ensures Needed(size, cb) == 1
  {
    var over := size + cb - 1 - LIMIT32;
    ModUnique(size + cb - 1, LIMIT32, 1, over);
    ModUnique(over, cb, 0, over);
  }

  /** The clusters allocated hold the file exactly when the sum does not wrap; where it wraps there is
      one cluster. */
  lemma NeededIsEnough(size: nat, cb: nat)
    requires 0 < cb <= MAX_CLUSTER && size < LIMIT32
    ensures size <= Room(Run(2, Needed(size, cb)), 0, cb) <==> Fits(size, cb)
    ensures !Fits(size, cb) ==> Needed(size, cb) == 1
  {
    hide Needed;
    if Fits(size, cb) { NeededHolds(size, cb); } else { NeededWraps(size, cb); }
  }

  /** Where the count does not wrap it is the least number of clusters, at least one, that hold the file. */
  lemma NeededIsLeast(size: nat, cb: nat, m: nat)
    requires cb > 0 && Fits(size, cb)
    ensures size <= Needed(size, cb) * cb
    ensures m >= 1 && size <= m * cb ==> Needed(size, cb) <= m
  {
    NeededHolds(size, cb);
    var up := size + cb - 1;
    ModUnique(up, LIMIT32, 0, up);
    var q, r := up / cb, up % cb;
    assert up == q * cb + r;
    if m < q { BlockFits(m, q, cb); }
  }

  // ----- The file's clusters -----

  /** Writing the file along its linked run stays on the volume. */
  lemma FileFollows(fat: Fat, s: nat, size: nat, cb: nat)
    requires |fat| <= EOC && cb > 0 && 2 <= s && s + Needed(size, cb) <= |fat|
    ensures IsChain(Link(fat, s, Needed(size, cb), Needed(size, cb)), Run(s, Needed(size, cb)))
    ensures Follow(Link(fat, s, Needed(size, cb), Needed(size, cb)), s, size, cb)
  {
    hide Needed, Link;
    var n := Needed(size, cb);
    LinkIsChain(fat, s, n);
    ChainFollows(Link(fat, s, n, n), Run(s, n), 0, size, cb);
  }

  /** The clusters of the run s, s + 1, .. after the file has been written or cleared. */
  function Stored(fat: Fat, data: seq<Bytes>, s: nat, src: Source, cb: nat): (r: seq<Bytes>)
    requires Shape(fat, data, cb) && 2 <= s && s + Needed(SizeOf(src), cb) <= |fat| && Follow(fat, s, SizeOf(src), cb)
    ensures Shape(fat, r, cb)
  {
    if src.Given? && src.buf != [] then WriteFrom(fat, data, s, src.buf, 0, cb)
    else ClearRun(data, s, Needed(SizeOf(src), cb), cb)
  }

  /** The volume with the file's clusters allocated and filled; the run starts at s. */
  function WithFile(v: Vol, s: nat, src: Source, cb: nat): (r: Vol)
    requires Good(v, cb) && 2 <= s && s + Needed(SizeOf(src), cb) <= |v.fat|
    ensures Good(r, cb) && |r.fat| == |v.fat|
  {
    var n := Needed(SizeOf(src), cb);
    var fat := Link(v.fat, s, n, n);
    FileFollows(v.fat, s, SizeOf(src), cb);
    Vol(fat, Stored(fat, v.data, s, src, cb))
  }

  /** Only the clusters of the run are written. */
  lemma StoredKeeps(fat: Fat, data: seq<Bytes>, s: nat, src: Source, cb: nat, d: nat)
    requires Shape(fat, data, cb) && 2 <= s && s + Needed(SizeOf(src), cb) <= |fat|
    requires IsChain(fat, Run(s, Needed(SizeOf(src), cb)))
    requires d < |data| && !(s <= d < s + Needed(SizeOf(src), cb))
    ensures Follow(fat, s, SizeOf(src), cb) && Stored(fat, data, s, src, cb)[d] == data[d]
  {
    hide WriteFrom, Needed;
    ChainFollows(fat, Run(s, Needed(SizeOf(src), cb)), 0, SizeOf(src), cb);
    if src.Given? && src.buf != [] {
      WriteKeeps(fat, data, Run(s, Needed(SizeOf(src), cb)), 0, src.buf, 0, cb, d);
    }
  }

  lemma SameRoom(s: nat, t: nat, n: nat, cb: nat)
    ensures Room(Run(s, n), 0, cb) == Room(Run(t, n), 0, cb)
  {
  }

  /** The run reads back as the file's content exactly when the cluster count has not wrapped. */
  lemma StoredReads(fat: Fat, data: seq<Bytes>, s: nat, src: Source, cb: nat)
    requires Shape(fat, data, cb) && 2 <= s && s + Needed(SizeOf(src), cb) <= |fat|
    requires IsChain(fat, Run(s, Needed(SizeOf(src), cb)))
    requires SizeOf(src) < LIMIT32 && cb <= MAX_CLUSTER
    ensures Follow(fat, s, SizeOf(src), cb)
    ensures ReadFrom(fat, Stored(fat, data, s, src, cb), s, SizeOf(src), cb) == Content(src) <==> Fits(SizeOf(src), cb)
    ensures !Fits(SizeOf(src), cb) ==> |ReadFrom(fat, Stored(fat, data, s, src, cb), s, SizeOf(src), cb)| == cb
  {
    hide WriteFrom, ReadFrom, Needed, Room;
    var n := Needed(SizeOf(src), cb);
    ChainFollows(fat, Run(s, n), 0, SizeOf(src), cb);
    NeededIsEnough(SizeOf(src), cb);
    SameRoom(2, s, n, cb);
    if !Fits(SizeOf(src), cb) {
      RoomNext(Run(s, n), 0, cb);
      ReadLength(fat, Stored(fat, data, s, src, cb), Run(s, n), 0, SizeOf(src), cb);
    } else if src.Given? && src.buf != [] {
      ReadBack(fat, data, Run(s, n), 0, src.buf, 0, cb);
    } else {
      ReadZeros(fat, ClearRun(data, s, n, cb), Run(s, n), 0, SizeOf(src), cb);
    }
  }

  // ----- The directory entry -----

  /** The entry of a directory full of used slots goes to a new cluster. */
  function FirstOf(e: Bytes, cb: nat): (r: Bytes)
    requires |e| == SLOT && cb >= SLOT
    ensures |r| == cb
  {
    e + Zeros(cb - SLOT)
  }

  ghost predicate InTable(v: Vol, ch: seq<nat>) { forall k | 0 <= k < |ch| :: ch[k] < |v.data| }

  /** A new directory cluster holds the entry and nothing else. */
  lemma FirstOfBytes(e: Bytes, cb: nat)
    requires |e| == SLOT && cb >= SLOT
    ensures FirstOf(e, cb)[..32] == e && forall k | 32 <= k < cb :: FirstOf(e, cb)[k] == 0
  {
  }

  ghost predicate DirOk(v: Vol, cb: nat, ch: seq<nat>) { Good(v, cb) && IsChain(v.fat, ch) && InTable(v, ch) }

  lemma ChainInTable(v: Vol, cb: nat, ch: seq<nat>)
    requires Good(v, cb) && IsChain(v.fat, ch)
    ensures DirOk(v, cb, ch)
  {
    forall k: nat | k < |ch| ensures ch[k] < |v.data| { assert LinkAt(v.fat, ch, k); }
  }

  /** The directory of chain ch. */
  function Dir(v: Vol, ch: seq<nat>): (d: seq<Bytes>)
    requires InTable(v, ch)
    ensures |d| == |ch|
  {
    Clusters(v.data, ch)
  }

  /** Entry e stored in the first vacant slot, or in a new last cluster; Some the new volume. */
  datatype Outcome = Done(v: Vol, ch: seq<nat>) | Failed(v: Vol)

  function WithEntry(v: Vol, cb: nat, ch: seq<nat>, e: Bytes): (r: Outcome)
    requires DirOk(v, cb, ch) && |e| == SLOT
  {
    var p := Free(Dir(v, ch), 0);
    if p.At? then Done(Vol(v.fat, Put(v.data, ch[p.k], Fill(v.data[ch[p.k]], p.i, e))), ch)
    else
      var x := LowestRun(v.fat, 1, 2);
      if x == 0 then Failed(v)
      else Done(Vol(Set(Link(v.fat, x, 1, 1), ch[|ch| - 1], x), Put(v.data, x, FirstOf(e, cb))), ch + [x])
  }

  /** Storing the file disturbs no cluster outside its run, so the directory stays. */
  lemma FileKeeps(v: Vol, cb: nat, s: nat, src: Source, c: nat)
    requires Good(v, cb) && 2 <= s && FreeRun(v.fat, s, Needed(SizeOf(src), cb))
    requires c < |v.fat| && (v.fat[c] != 0 || !(s <= c < s + Needed(SizeOf(src), cb)))
    ensures !(s <= c < s + Needed(SizeOf(src), cb))
    ensures WithFile(v, s, src, cb).fat[c] == v.fat[c] && WithFile(v, s, src, cb).data[c] == v.data[c]
  {
    hide Needed, Stored;
    var n := Needed(SizeOf(src), cb);
    FileFollows(v.fat, s, SizeOf(src), cb);
    StoredKeeps(Link(v.fat, s, n, n), v.data, s, src, cb, c);
  }

  lemma FileKeepsDir(v: Vol, cb: nat, ch: seq<nat>, s: nat, src: Source)
    requires DirOk(v, cb, ch) && 2 <= s && FreeRun(v.fat, s, Needed(SizeOf(src), cb))
    ensures DirOk(WithFile(v, s, src, cb), cb, ch) && Dir(WithFile(v, s, src, cb), ch) == Dir(v, ch)
  {
    hide Needed, WithFile;
    var w := WithFile(v, s, src, cb);
    forall k: nat | k < |ch| ensures w.fat[ch[k]] == v.fat[ch[k]] && w.data[ch[k]] == v.data[ch[k]] {
      ChainIsUsed(v.fat, ch, k);
      FileKeeps(v, cb, s, src, ch[k]);
    }
    ChainStays(v.fat, w.fat, ch);
  }

  /** fat32_create_file. A failure after the file's clusters were allocated leaves them allocated. */
  function Create(v: Vol, cb: nat, ch: seq<nat>, name: Bytes, src: Source): (r: Outcome)
    requires DirOk(v, cb, ch) && |name| == 11
  {
    var s := LowestRun(v.fat, Needed(SizeOf(src), cb), 2);
    if s == 0 then Failed(v)
    else
      FileKeepsDir(v, cb, ch, s, src);
      if src.Given? && !Fits(SizeOf(src), cb) then Failed(WithFile(v, s, src, cb))
      else WithEntry(WithFile(v, s, src, cb), cb, ch, NewEntry(name, s, SizeOf(src)))
  }

  // ----- What is seen afterwards -----

  datatype Lookup = Missing | FileAt(first: nat, size: nat)

  /** fat32_find_file. */
  function LookUp(dir: seq<Bytes>, name: Bytes): Lookup
    requires dir != []
  {
    var p := Find(dir, name, 0, 0);
    if p.At? then FileAt(FirstCluster(Slot(dir[p.k], p.i)), Size(Slot(dir[p.k], p.i))) else Missing
  }

  /** No entry of that name lies before the first vacant slot. */
  predicate NoEarlier(dir: seq<Bytes>, name: Bytes)
    requires dir != []
  {
    var p, q := Free(dir, 0), Find(dir, name, 0, 0);
    q.At? ==> p.At? && !Before(q, p)
  }

  /** A short name as the driver expects it. */
  predicate GoodName(name: Bytes) { |name| == 11 && UpperAll(name) == name && name[0] != 0 && name[0] != 0xE5 }

  /** The new directory cluster. */
  lemma FirstOfSlots(e: Bytes, cb: nat)
    requires |e| == SLOT && cb % SLOT == 0 && cb >= 2 * SLOT
    ensures Slots(FirstOf(e, cb)) >= 2 && Slot(FirstOf(e, cb), 0) == e && Slot(FirstOf(e, cb), 1)[0] == 0
  {
  }

  /** With the entry stored the chain is still a whole directory. */
  lemma EntryKeepsDir(v: Vol, cb: nat, ch: seq<nat>, e: Bytes)
    requires DirOk(v, cb, ch) && |e| == SLOT && WithEntry(v, cb, ch, e).Done?
    ensures var o := WithEntry(v, cb, ch, e);
            && DirOk(o.v, cb, o.ch) && |o.v.fat| == |v.fat|
            && (Free(Dir(v, ch), 0).At? ==> o.ch == ch && Dir(o.v, ch) == Filled(Dir(v, ch), Free(Dir(v, ch), 0), e))
            && (Free(Dir(v, ch), 0) == Nowhere ==> Dir(o.v, o.ch) == Dir(v, ch) + [FirstOf(e, cb)])
  {
    hide Free, Fill, FirstOf;
    var o, p, n := WithEntry(v, cb, ch, e), Free(Dir(v, ch), 0), |ch| - 1;
    if p.At? {
      assert Dir(o.v, ch) == Filled(Dir(v, ch), p, e);
    } else {
      var x := LowestRun(v.fat, 1, 2);
      var l := Link(v.fat, x, 1, 1);
      forall k: nat | k < |ch| ensures ch[k] != x { ChainIsUsed(v.fat, ch, k); }
      ChainStays(v.fat, l, ch);
      ChainGrows(l, ch, x);
      ChainInTable(o.v, cb, o.ch);
      assert Dir(o.v, o.ch) == Dir(v, ch) + [FirstOf(e, cb)];
    }
  }

  lemma DirClusters(v: Vol, cb: nat, ch: seq<nat>)
    requires DirOk(v, cb, ch)
    ensures cb % SLOT == 0 && cb >= 2 * SLOT && Dir(v, ch) != []
    ensures forall k | 0 <= k < |ch| :: |Dir(v, ch)[k]| == cb && Slots(Dir(v, ch)[k]) > 0
  {
    forall k: nat | k < |ch| ensures |Dir(v, ch)[k]| == cb { assert LinkAt(v.fat, ch, k); }
  }

  /** Looking up the new entry's name. */
  lemma EntryIsFound(v: Vol, cb: nat, ch: seq<nat>, e: Bytes, name: Bytes)
    requires DirOk(v, cb, ch) && |e| == SLOT && e[0] != 0 && WithEntry(v, cb, ch, e).Done? && Matches(e, name)
    ensures var o := WithEntry(v, cb, ch, e);
            DirOk(o.v, cb, o.ch) &&
            LookUp(Dir(o.v, o.ch), name) ==
              if NoEarlier(Dir(v, ch), name) then FileAt(FirstCluster(e), Size(e)) else LookUp(Dir(v, ch), name)
  {
    hide Free, Find, Fill, FirstOf, Slot, Matches, FirstCluster, Size, WithEntry, InTable, Good, Vacant;
    EntryKeepsDir(v, cb, ch, e);
    DirClusters(v, cb, ch);
    var d, p := Dir(v, ch), Free(Dir(v, ch), 0);
    if p.At? {
      FindAfterFill(d, p, e, name, 0);
      FillSlot(d[p.k], p.i, e, p.i);
      var q := Find(d, name, 0, 0);
      if q.At? && q.k == p.k { FillSlot(d[p.k], p.i, e, q.i); }
    } else {
      FirstOfSlots(e, cb);
      FindAfterExtend(d, FirstOf(e, cb), name, 0);
    }
  }

  /** A lookup never stops at the first vacant slot. */
  lemma VacantNoMatch(d: seq<Bytes>, p: Place, name: Bytes)
    requires d != [] && p == Free(d, 0) && p.At?
    ensures Find(d, name, 0, 0) != p
  {
    hide Find, Free, Slot;
    FindPastFree(d, p, name, 0);
  }

  /** Looking up any other name. */
  lemma EntryAndOthers(v: Vol, cb: nat, ch: seq<nat>, e: Bytes, name: Bytes)
    requires DirOk(v, cb, ch) && |e| == SLOT && e[0] != 0 && WithEntry(v, cb, ch, e).Done? && !Matches(e, name)
    ensures var o := WithEntry(v, cb, ch, e);
            DirOk(o.v, cb, o.ch) &&
            (LookUp(Dir(o.v, o.ch), name) == LookUp(Dir(v, ch), name) <==> !Uncovers(Dir(v, ch), name))
  {
    hide Free, Find, Fill, FirstOf, Slot, Matches, FirstCluster, Size, WithEntry, InTable, Good, Vacant;
    EntryKeepsDir(v, cb, ch, e);
    DirClusters(v, cb, ch);
    var d, p := Dir(v, ch), Free(Dir(v, ch), 0);
    if p.At? {
      OthersStayIff(d, e, name);
      FindAfterFill(d, p, e, name, 0);
      var q := Find(d, name, 0, 0);
      if q.At? && q.k == p.k { FillSlot(d[p.k], p.i, e, q.i); }
      VacantNoMatch(d, p, name);
    } else {
      FirstOfSlots(e, cb);
      FindAfterExtend(d, FirstOf(e, cb), name, 0);
    }
  }

  // ----- fat32_create_file end to end -----

  function StartOf(v: Vol, cb: nat, src: Source): nat
    requires cb > 0
  {
    LowestRun(v.fat, Needed(SizeOf(src), cb), 2)
  }

  /** Creation is storing the file and then its entry. */
  lemma CreateParts(v: Vol, cb: nat, ch: seq<nat>, name: Bytes, src: Source)
    requires DirOk(v, cb, ch) && |name| == 11 && Create(v, cb, ch, name, src).Done?
    ensures var s, n := StartOf(v, cb, src), Needed(SizeOf(src), cb);
            && 2 <= s < LIMIT32 && FreeRun(v.fat, s, n) && s + n <= |v.fat|
            && var w := WithFile(v, s, src, cb);
            && DirOk(w, cb, ch) && Dir(w, ch) == Dir(v, ch)
            && Create(v, cb, ch, name, src) == WithEntry(w, cb, ch, NewEntry(name, s, SizeOf(src)))
  {
    hide Needed, WithFile, WithEntry, NewEntry;
    FileKeepsDir(v, cb, ch, StartOf(v, cb, src), src);
  }

  /** The created file is found, with its first cluster and size, unless an earlier entry has the
      same name; then that one is still found. */
  lemma CreatedIsFound(v: Vol, cb: nat, ch: seq<nat>, name: Bytes, src: Source)
    requires DirOk(v, cb, ch) && GoodName(name) && SizeOf(src) < LIMIT32 && Create(v, cb, ch, name, src).Done?
    ensures var o := Create(v, cb, ch, name, src);
            DirOk(o.v, cb, o.ch) &&
            LookUp(Dir(o.v, o.ch), name) ==
              if NoEarlier(Dir(v, ch), name) then FileAt(StartOf(v, cb, src), SizeOf(src)) else LookUp(Dir(v, ch), name)
  {
    hide LookUp, Create, WithEntry, WithFile, NewEntry, Needed, NoEarlier, Matches, FirstCluster, Size, StartOf;
    CreateParts(v, cb, ch, name, src);
    var s := StartOf(v, cb, src);
    NewEntryReads(name, s, SizeOf(src), name);
    EntryIsFound(WithFile(v, s, src, cb), cb, ch, NewEntry(name, s, SizeOf(src)), name);
  }

  /** Every other name is found as before, exactly when the directory's end marker does not hide a
      stale entry of that name that the new entry uncovers. */
  lemma CreatedAndOthers(v: Vol, cb: nat, ch: seq<nat>, name: Bytes, src: Source, other: Bytes)
    requires DirOk(v, cb, ch) && GoodName(name) && SizeOf(src) < LIMIT32 && Create(v, cb, ch, name, src).Done?
    requires other != name
    ensures var o := Create(v, cb, ch, name, src);
            DirOk(o.v, cb, o.ch) &&
            (LookUp(Dir(o.v, o.ch), other) == LookUp(Dir(v, ch), other) <==> !Uncovers(Dir(v, ch), other))
  {
    hide LookUp, Create, WithEntry, WithFile, NewEntry, Needed, Matches, FirstCluster, Size, StartOf, Uncovers;
    CreateParts(v, cb, ch, name, src);
    var s := StartOf(v, cb, src);
    NewEntryReads(name, s, SizeOf(src), other);
    EntryAndOthers(WithFile(v, s, src, cb), cb, ch, NewEntry(name, s, SizeOf(src)), other);
  }

  lemma NotLast(ch: seq<nat>, x: nat, c: nat)
    requires c !in ch + [x]
    ensures c != x
  {
    assert (ch + [x])[|ch|] == x;
  }

  /** What storing the entry leaves alone: every cluster but the directory's, whose clusters keep
      all but the slot or the link. */
  lemma EntryKeeps(v: Vol, cb: nat, ch: seq<nat>, e: Bytes, c: nat)
    requires DirOk(v, cb, ch) && |e| == SLOT && WithEntry(v, cb, ch, e).Done?
    requires c < |v.fat| && (v.fat[c] != 0 || c !in WithEntry(v, cb, ch, e).ch)
    ensures var o, p := WithEntry(v, cb, ch, e), Free(Dir(v, ch), 0);
            && |o.v.fat| == |v.fat| && |o.v.data| == |v.data|
            && (o.v.fat[c] == v.fat[c] || (p == Nowhere && c == ch[|ch| - 1]))
            && (o.v.data[c] == v.data[c] || (p.At? && c == ch[p.k] && o.v.data[c] == Fill(v.data[c], p.i, e)))
  {
    hide Free, Fill, FirstOf;
    if Free(Dir(v, ch), 0) == Nowhere && v.fat[c] == 0 { NotLast(ch, LowestRun(v.fat, 1, 2), c); }
  }

  /** Every cluster, in use or free, that is not newly allocated to the file or the directory keeps
      its table entry and its bytes, except that the directory's own slot is filled or the
      directory's last cluster is linked to the new one. */
  lemma CreatedKeepsRest(v: Vol, cb: nat, ch: seq<nat>, name: Bytes, src: Source, c: nat)
    requires DirOk(v, cb, ch) && |name| == 11 && Create(v, cb, ch, name, src).Done?
    requires c < |v.fat|
    requires var s, n := StartOf(v, cb, src), Needed(SizeOf(src), cb);
             v.fat[c] != 0 || (!(s <= c < s + n) && c !in Create(v, cb, ch, name, src).ch)
    ensures var o, p := Create(v, cb, ch, name, src), Free(Dir(v, ch), 0);
            && |o.v.fat| == |v.fat| && |o.v.data| == |v.data|
            && (o.v.fat[c] == v.fat[c] || (p == Nowhere && c == ch[|ch| - 1]))
            && (o.v.data[c] == v.data[c]
                || (p.At? && c == ch[p.k]
                    && o.v.data[c] == Fill(v.data[c], p.i, NewEntry(name, StartOf(v, cb, src), SizeOf(src)))))
  {
    hide Create, WithEntry, WithFile, NewEntry, Needed, StartOf, Free, Fill;
    CreateParts(v, cb, ch, name, src);
    var s := StartOf(v, cb, src);
    FileKeeps(v, cb, s, src, c);
    EntryKeeps(WithFile(v, s, src, cb), cb, ch, NewEntry(name, s, SizeOf(src)), c);
  }

  /** The file's clusters are in use and not the directory's. */
  lemma OffDirectory(v: Vol, w: Vol, cb: nat, ch: seq<nat>, s: nat, n: nat, i: nat)
    requires DirOk(v, cb, ch) && FreeRun(v.fat, s, n) && i < n && s >= 2
    requires w.fat == Link(v.fat, s, n, n)
    ensures w.fat[s + i] != 0 && s + i !in ch
  {
    if s + i in ch {
      var k: nat :| k < |ch| && ch[k] == s + i;
      ChainIsUsed(v.fat, ch, k);
    }
  }

  /** Reading the created file gives its content, exactly when the cluster count has not wrapped. */
  lemma CreatedReads(v: Vol, cb: nat, ch: seq<nat>, name: Bytes, src: Source)
    requires DirOk(v, cb, ch) && |name| == 11 && SizeOf(src) < LIMIT32 && Create(v, cb, ch, name, src).Done?
    ensures var o, s := Create(v, cb, ch, name, src), StartOf(v, cb, src);
            && Good(o.v, cb) && 2 <= s < |o.v.fat|
            && IsChain(o.v.fat, Run(s, Needed(SizeOf(src), cb)))
            && Follow(o.v.fat, s, SizeOf(src), cb)
            && (ReadFrom(o.v.fat, o.v.data, s, SizeOf(src), cb) == Content(src) <==> Fits(SizeOf(src), cb))
            && |ReadFrom(o.v.fat, o.v.data, s, SizeOf(src), cb)| == if Fits(SizeOf(src), cb) then SizeOf(src) else cb
  {
    hide Create, WithEntry, NewEntry, Needed, StartOf, Stored, ReadFrom, Free, Dir;
    CreateParts(v, cb, ch, name, src);
    var o, s, n := Create(v, cb, ch, name, src), StartOf(v, cb, src), Needed(SizeOf(src), cb);
    var w, e := WithFile(v, s, src, cb), NewEntry(name, s, SizeOf(src));
    FileFollows(v.fat, s, SizeOf(src), cb);
    StoredReads(w.fat, v.data, s, src, cb);
    EntryKeepsDir(w, cb, ch, e);
    var run := Run(s, n);
    forall i: nat | i < |run|
      ensures run[i] < |w.fat| && o.v.fat[run[i]] == w.fat[run[i]] && o.v.data[run[i]] == w.data[run[i]]
    {
      OffDirectory(v, w, cb, ch, s, n, i);
      EntryKeeps(w, cb, ch, e, run[i]);
    }
    ChainStays(w.fat, o.v.fat, run);
    ReadSame(w.fat, w.data, o.v.fat, o.v.data, run, 0, SizeOf(src), cb);
  }

  /** The whole way: a created file is found, and reading what was found gives its content, exactly when
      the cluster count has not wrapped. */
  lemma CreateFindRead(v: Vol, cb: nat, ch: seq<nat>, name: Bytes, src: Source)
    requires DirOk(v, cb, ch) && GoodName(name) && SizeOf(src) < LIMIT32 && NoEarlier(Dir(v, ch), name)
    requires Create(v, cb, ch, name, src).Done?
    ensures var o := Create(v, cb, ch, name, src);
            && DirOk(o.v, cb, o.ch)
            && var f := LookUp(Dir(o.v, o.ch), name);
            && f == FileAt(StartOf(v, cb, src), SizeOf(src)) && 2 <= f.first < |o.v.fat|
            && Follow(o.v.fat, f.first, f.size, cb)
            && |ReadFrom(o.v.fat, o.v.data, f.first, f.size, cb)| == (if Fits(SizeOf(src), cb) then SizeOf(src) else cb)
            && (ReadFrom(o.v.fat, o.v.data, f.first, f.size, cb) == Content(src) <==> Fits(SizeOf(src), cb))
  {
    hide LookUp, Create, ReadFrom, NoEarlier, StartOf, Needed;
    CreatedIsFound(v, cb, ch, name, src);
    CreatedReads(v, cb, ch, name, src);
  }

  /** A failed creation leaves the volume as it was only if no run was free; otherwise the file's
      clusters stay allocated without an entry. */
  lemma FailureLeaks(v: Vol, cb: nat, ch: seq<nat>, name: Bytes, src: Source)
    requires DirOk(v, cb, ch) && |name| == 11 && Create(v, cb, ch, name, src).Failed?
    ensures var o, s, n := Create(v, cb, ch, name, src), StartOf(v, cb, src), Needed(SizeOf(src), cb);
            && (o.v == v <==> s == 0)
            && (s != 0 ==> s + n <= |v.fat| == |o.v.fat|
                           && forall c: nat | s <= c < s + n :: v.fat[c] == 0 && o.v.fat[c] != 0)
  {
    hide Needed, Stored, NewEntry, Free;
    var s := StartOf(v, cb, src);
    if s != 0 {
      FileKeepsDir(v, cb, ch, s, src);
      assert WithFile(v, s, src, cb).fat[s] != v.fat[s];
    }
  }

  /** Every free cluster lies in the run from s of n. */
  ghost predicate NoneBeside(fat: Fat, s: nat, n: nat)
  {
    forall c: nat | 2 <= c < |fat| && fat[c] == 0 :: s <= c < s + n
  }

  lemma OneFree(fat: Fat, c: nat)
    requires c < |fat|
    ensures FreeRun(fat, c, 1) <==> fat[c] == 0
  {
  }

  lemma RunSize(fat: Fat, c: nat)
    ensures FreeRun(fat, c, 1) ==> c < |fat|
  {
  }

  lemma NoneLeft(fat: Fat, s: nat, n: nat)
    requires 2 <= s && s + n <= |fat| && FreeRun(fat, s, n)
    ensures LowestRun(Link(fat, s, n, n), 1, 2) == 0 <==> NoneBeside(fat, s, n)
  {
    hide Link, LowestRun, FreeRun;
    var l := Link(fat, s, n, n);
    forall c: nat | c < |l| ensures FreeRun(l, c, 1) <==> l[c] == 0 { OneFree(l, c); }
    RunSize(l, LowestRun(l, 1, 2));
  }

  /** When creation fails, told from the volume before: no run for the file, or data whose cluster count
      wraps, or a full directory with no free cluster besides the file's. */
  lemma CreateFailsIff(v: Vol, cb: nat, ch: seq<nat>, name: Bytes, src: Source)
    requires DirOk(v, cb, ch) && |name| == 11
    ensures var s, n := StartOf(v, cb, src), Needed(SizeOf(src), cb);
            Create(v, cb, ch, name, src).Failed? <==>
            (s == 0 || (src.Given? && !Fits(SizeOf(src), cb))
             || (Free(Dir(v, ch), 0) == Nowhere && NoneBeside(v.fat, s, n)))
  {
    hide Needed, Stored, NewEntry, Free, NoneBeside, Fits;
    var s, n := StartOf(v, cb, src), Needed(SizeOf(src), cb);
    if s != 0 {
      FileKeepsDir(v, cb, ch, s, src);
      NoneLeft(v.fat, s, n);
    }
  }

  /** A call fails and leaves clusters allocated without an entry, exactly when a run was found and one
      of the other two conditions holds. */
  lemma LeaksIff(v: Vol, cb: nat, ch: seq<nat>, name: Bytes, src: Source)
    requires DirOk(v, cb, ch) && |name| == 11
    ensures var o, s, n := Create(v, cb, ch, name, src), StartOf(v, cb, src), Needed(SizeOf(src), cb);
            o.Failed? && o.v != v <==>
            (s != 0 && ((src.Given? && !Fits(SizeOf(src), cb))
                        || (Free(Dir(v, ch), 0) == Nowhere && NoneBeside(v.fat, s, n))))
  {
    hide Create, Needed, Free, NoneBeside, Fits, StartOf;
    CreateFailsIff(v, cb, ch, name, src);
    if Create(v, cb, ch, name, src).Failed? { FailureLeaks(v, cb, ch, name, src); }
  }

  /** A directory cluster of two used slots. */
  function FullCluster(): (cl: Bytes)
    ensures |cl| == 2 * SLOT && FreeIn(cl, 0) == 2 && forall k | 0 <= k < |cl| :: cl[k] == 65
  {
    var cl := seq(2 * SLOT, _ => 65);
    assert !Vacant(Slot(cl, 0)) && !Vacant(Slot(cl, 1));
    cl
  }

  /** It happens: the last free cluster goes to the file, and the directory is full. */
  lemma FailureHappens(name: Bytes)
    requires |name| == 11
    ensures var v := Vol([0, 0, EOC, 0], [[], [], FullCluster(), Zeros(2 * SLOT)]);
            && DirOk(v, 2 * SLOT, [2]) && StartOf(v, 2 * SLOT, Blank(0)) == 3
            && Create(v, 2 * SLOT, [2], name, Blank(0)).Failed?
            && Create(v, 2 * SLOT, [2], name, Blank(0)).v.fat == [0, 0, EOC, EOC]
  {
    hide Stored, NewEntry, Slot;
    var v, cb := Vol([0, 0, EOC, 0], [[], [], FullCluster(), Zeros(2 * SLOT)]), 2 * SLOT;
    assert LinkAt(v.fat, [2], 0);
    assert LowestRun(v.fat, 1, 2) == 3;
    FileKeepsDir(v, cb, [2], 3, Blank(0));
    assert Link(v.fat, 3, 1, 1) == [0, 0, EOC, EOC];
    assert Dir(v, [2]) == [FullCluster()];
    assert Free([FullCluster()], 0) == Nowhere;
    var full := [0, 0, EOC, EOC];
    assert full[2] != 0 && full[3] != 0;
    assert LowestRun(full, 1, 3) == 0;
    assert LowestRun(full, 1, 2) == 0;
  }

  lemma EmptyDirectory(dir: seq<Bytes>, name: Bytes)
    requires |dir| == 1 && dir[0] == Zeros(512) && |name| == 11
    ensures Free(dir, 0) == At(0, 0) && NoEarlier(dir, name)
  {
    assert Slot(dir[0], 0)[0] == 0;
  }

  /** The wrap happens: a blank file of 4 GB less one byte takes one cluster of 512 bytes instead of
      8388608; creation succeeds, the file is found with its size, and one cluster is read. */
  lemma FourGigabytes(name: Bytes)
    requires GoodName(name)
    ensures Needed(LIMIT32 - 1, 512) == 1 && (LIMIT32 - 1 + 511) / 512 == 8388608
    ensures var v, src := Vol([0, 0, EOC, 0], [[], [], Zeros(512), Zeros(512)]), Blank(LIMIT32 - 1);
            && DirOk(v, 512, [2]) && Create(v, 512, [2], name, src).Done?
            && var o := Create(v, 512, [2], name, src);
            && DirOk(o.v, 512, o.ch) && LookUp(Dir(o.v, o.ch), name) == FileAt(3, LIMIT32 - 1)
            && Follow(o.v.fat, 3, LIMIT32 - 1, 512)
            && |ReadFrom(o.v.fat, o.v.data, 3, LIMIT32 - 1, 512)| == 512
  {
    hide Stored, NewEntry, Slot, Zeros, Needed, Find, Create, LookUp, ReadFrom, Matches;
    var v, src := Vol([0, 0, EOC, 0], [[], [], Zeros(512), Zeros(512)]), Blank(LIMIT32 - 1);
    assert LinkAt(v.fat, [2], 0);
    NeededIsEnough(LIMIT32 - 1, 512);
    assert v.fat[2] != 0;
    assert LowestRun(v.fat, 1, 2) == 3;
    assert StartOf(v, 512, src) == 3;
    EmptyDirectory(Dir(v, [2]), name);
    CreateFailsIff(v, 512, [2], name, src);
    CreatedIsFound(v, 512, [2], name, src);
    CreatedReads(v, 512, [2], name, src);
    var o := Create(v, 512, [2], name, src);
    ReadLength(o.v.fat, o.v.data, Run(3, 1), 0, LIMIT32 - 1, 512);
  }
}
