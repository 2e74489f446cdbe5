/** FAT32 directories (kernel/fat32.c): the 32-byte entries of the directory's clusters, the scans
    for a name and for a free slot, and what filling a slot changes. */
module FatDirectory {
  import opened Arith
  import opened Bits
  import opened LittleEndian
  import opened FatFiles

  const SLOT: nat := 32
  const ATTR_ARCHIVE: Byte := 0x20
  const ATTR_LFN: Byte := 0x0F

  function Slots(cl: Bytes): nat { |cl| / SLOT }

  function Slot(cl: Bytes, i: nat): (s: Bytes)
    requires i < Slots(cl)
    ensures |s| == SLOT
  {
    cl[SLOT * i..SLOT * i + SLOT]
  }

  function Upper(b: Byte): Byte { if 0x61 <= b <= 0x7A then b - 32 else b }

  function UpperAll(s: Bytes): (r: Bytes)
    ensures |r| == |s| && forall k | 0 <= k < |s| :: r[k] == Upper(s[k])
  {
    seq(|s|, k requires 0 <= k < |s| => Upper(s[k]))
  }

  predicate IsVolume(attr: Byte) { (attr as int / 8) % 2 == 1 }

  /** The slot can be taken by a new entry. */
  predicate Vacant(s: Bytes)
    requires |s| == SLOT
  {
    s[0] == 0 || s[0] == 0xE5
  }

  /** The slot holds the short name. */
  predicate Matches(s: Bytes, name: Bytes)
    requires |s| == SLOT
  {
    s[0] != 0xE5 && s[11] != ATTR_LFN && !IsVolume(s[11]) && UpperAll(s[..11]) == name
  }

  function FirstCluster(s: Bytes): nat
    requires |s| == SLOT
  {
    From16(s, 20) * LIMIT16 + From16(s, 26)
  }

  function Size(s: Bytes): nat
    requires |s| == SLOT
  {
    From32(s, 28)
  }

  function NewEntry(name: Bytes, first: nat, size: nat): (e: Bytes)
    requires |name| == 11
    ensures |e| == SLOT
  {
    name + [ATTR_ARCHIVE] + Zeros(8) + Le16(first / LIMIT16) + Zeros(4) + Le16(first % LIMIT16) + Le32(size)
  }

  lemma Middle(a: Bytes, b: Bytes, c: Bytes)
    ensures (a + b + c)[|a|..|a| + |b|] == b
  {
  }

  lemma NewEntryParts(name: Bytes, first: nat, size: nat)
    requires |name| == 11
    ensures var e := NewEntry(name, first, size);
            && e[..11] == name && e[11] == ATTR_ARCHIVE
            && e[20..22] == Le16(first / LIMIT16) && e[26..28] == Le16(first % LIMIT16) && e[28..32] == Le32(size)
  {
    hide Le16, Le32;
    var a := name + [ATTR_ARCHIVE] + Zeros(8);
    var hi, lo, sz := Le16(first / LIMIT16), Le16(first % LIMIT16), Le32(size);
    var e := NewEntry(name, first, size);
    Middle(a, hi, Zeros(4) + lo + sz);
    assert e == a + hi + (Zeros(4) + lo + sz);
    Middle(a + hi + Zeros(4), lo, sz);
    Middle(a + hi + Zeros(4) + lo, sz, []);
    assert e == a + hi + Zeros(4) + lo + sz + [];
  }

  /** A new entry is found under its name, and carries its cluster and size. */
  lemma NewEntryReads(name: Bytes, first: nat, size: nat, other: Bytes)
    requires |name| == 11 && first < LIMIT32 && size < LIMIT32 && name[0] != 0 && name[0] != 0xE5
    ensures var e := NewEntry(name, first, size);
            && FirstCluster(e) == first && Size(e) == size && !Vacant(e)
            && (Matches(e, other) <==> UpperAll(name) == other)
  {
    hide NewEntry, UpperAll, Le16, Le32, From16, From32;
    var e := NewEntry(name, first, size);
    NewEntryParts(name, first, size);
    assert e[0] == e[..11][0];
    Read16(first / LIMIT16, e, 20);
    Read16(first % LIMIT16, e, 26);
    Read32(size, e, 28);
  }

  /** A new entry byte by byte: the name, the archive attribute, the two halves of the first cluster and
      the size, lowest bytes first, and zeros. */
  lemma EntryLayout(name: Bytes, first: nat, size: nat)
    requires |name| == 11
    ensures var e := NewEntry(name, first, size);
            && |e| == 32 && e[..11] == name && e[11] == 0x20
            && (forall k | 12 <= k < 20 || 22 <= k < 26 :: e[k] == 0)
            && e[20] as nat == first / 0x1_0000 % 256 && e[21] as nat == first / 0x1_0000 / 256 % 256
            && e[26] as nat == first % 256 && e[27] as nat == first % 0x1_0000 / 256 % 256
            && e[28] as nat == size % 256 && e[29] as nat == size / 256 % 256
            && e[30] as nat == size / 0x1_0000 % 256 && e[31] as nat == size / 0x100_0000 % 256
  {
  }

  lemma {:induction false} BitThree(a: nat)
    ensures And(a, 8) != 0 <==> a / 8 % 2 == 1
  {
    assert a / 2 / 2 / 2 == a / 8;
    assert And(a / 8, 1) == a / 8 % 2 by { AndOne(a / 8); }
    MaskHalves(a / 2 / 2, 1);
    MaskHalves(a / 2, 2);
    MaskHalves(a, 4);
  }

  /** Which entries a lookup takes: not a deleted one, not a long-name part (0x0F), none with the volume
      bit (0x08); the name is compared in upper case. */
  lemma MatchesIff(s: Bytes, name: Bytes)
    requires |s| == 32 && |name| == 11
    ensures Matches(s, name) <==>
            (s[0] != 0xE5 && s[11] != 0x0F && And(s[11] as nat, 8) == 0
             && forall k | 0 <= k < 11 :: name[k] == if 97 <= s[k] <= 122 then s[k] - 32 else s[k])
  {
    hide And;
    BitThree(s[11] as nat);
    var u := UpperAll(s[..11]);
    assert forall k | 0 <= k < 11 :: u[k] == Upper(s[k]);
    if forall k | 0 <= k < 11 :: name[k] == Upper(s[k]) { assert u == name; }
  }

  // ----- One cluster -----

  /** Where a scan stands: an entry found, the end marker met, or the cluster exhausted. */
  datatype Scan = Hit(i: nat) | End | More

  function FindIn(cl: Bytes, name: Bytes, i: nat): (r: Scan)
    requires i <= Slots(cl)
    ensures r.Hit? ==> i <= r.i < Slots(cl) && Matches(Slot(cl, r.i), name)
    decreases Slots(cl) - i
  {
    if i == Slots(cl) then More
    else if Slot(cl, i)[0] == 0 then End
    else if Matches(Slot(cl, i), name) then Hit(i)
    else FindIn(cl, name, i + 1)
  }

  /** The first vacant slot from i on, or the number of slots. */
  function FreeIn(cl: Bytes, i: nat): (f: nat)
    requires i <= Slots(cl)
    ensures i <= f <= Slots(cl) && (f < Slots(cl) ==> Vacant(Slot(cl, f)))
    ensures forall j: nat | i <= j < f :: !Vacant(Slot(cl, j))
    decreases Slots(cl) - i
  {
    if i == Slots(cl) || Vacant(Slot(cl, i)) then i else FreeIn(cl, i + 1)
  }

  /** Slot i overwritten. */
  function Fill(cl: Bytes, i: nat, e: Bytes): (r: Bytes)
    requires i < Slots(cl) && |e| == SLOT
    ensures |r| == |cl|
  {
    Patch(cl, SLOT * i, e)
  }

  lemma FillSlot(cl: Bytes, i: nat, e: Bytes, j: nat)
    requires i < Slots(cl) && |e| == SLOT && j < Slots(cl)
    ensures Slot(Fill(cl, i, e), j) == if j == i then e else Slot(cl, j)
  {
    var r := Fill(cl, i, e);
    if j != i {
      forall k | 0 <= k < SLOT ensures Slot(r, j)[k] == Slot(cl, j)[k] {}
    }
  }

  lemma FindStep(cl: Bytes, name: Bytes, i: nat)
    requires i < Slots(cl)
    ensures FindIn(cl, name, i) ==
              if Slot(cl, i)[0] == 0 then End
              else if Matches(Slot(cl, i), name) then Hit(i) else FindIn(cl, name, i + 1)
  {
  }

  lemma {:induction false} FindBehind(cl: Bytes, i: nat, e: Bytes, name: Bytes, j: nat)
    requires i < Slots(cl) && |e| == SLOT && i < j <= Slots(cl)
    ensures FindIn(Fill(cl, i, e), name, j) == FindIn(cl, name, j)
    decreases Slots(cl) - j
  {
    if j < Slots(cl) {
      FillSlot(cl, i, e, j);
      FindBehind(cl, i, e, name, j + 1);
    }
  }

  /** Up to slot i scanning does not notice that it was filled; at i it meets the new entry. */
  lemma {:induction false} FindFilled(cl: Bytes, i: nat, e: Bytes, name: Bytes, j: nat)
    requires i < Slots(cl) && |e| == SLOT && j <= i && e[0] != 0
    requires forall k: nat | j <= k < i :: !Vacant(Slot(cl, k))
    ensures FindIn(Fill(cl, i, e), name, j) ==
              var f := FindIn(cl, name, j);
              if f.Hit? && f.i < i then f
              else if Matches(e, name) then Hit(i) else FindIn(cl, name, i + 1)
    decreases i - j
  {
    hide FindIn, Fill, Slot, Matches;
    FillSlot(cl, i, e, j);
    FindStep(cl, name, j);
    FindStep(Fill(cl, i, e), name, j);
    if j < i {
      assert !Vacant(Slot(cl, j));
      FindFilled(cl, i, e, name, j + 1);
    } else {
      FindBehind(cl, i, e, name, i + 1);
    }
  }

  // ----- A directory: the clusters of a chain -----

  datatype Place = At(k: nat, i: nat) | Nowhere

  predicate Before(p: Place, q: Place)
    requires p.At? && q.At?
  {
    p.k < q.k || (p.k == q.k && p.i < q.i)
  }

  /** The directory's clusters in order. */
  function Clusters(data: seq<Bytes>, ch: seq<nat>): (d: seq<Bytes>)
    requires forall k | 0 <= k < |ch| :: ch[k] < |data|
    ensures |d| == |ch| && forall k | 0 <= k < |ch| :: d[k] == data[ch[k]]
  {
    seq(|ch|, k requires 0 <= k < |ch| => data[ch[k]])
  }

  /** The lookup of fat32_find_file from cluster k, slot i of the directory on. */
  function Find(dir: seq<Bytes>, name: Bytes, k: nat, i: nat): (p: Place)
    requires k < |dir| && i <= Slots(dir[k])
    ensures p.At? ==> k <= p.k < |dir| && p.i < Slots(dir[p.k]) && Matches(Slot(dir[p.k], p.i), name)
                      && (p.k == k ==> i <= p.i)
    decreases |dir| - k
  {
    match FindIn(dir[k], name, i)
    case Hit(j) => At(k, j)
    case End => Nowhere
    case More => if k + 1 < |dir| then Find(dir, name, k + 1, 0) else Nowhere
  }

  /** The first vacant slot. */
  function Free(dir: seq<Bytes>, k: nat): (p: Place)
    requires k < |dir|
    ensures p.At? ==> k <= p.k < |dir| && p.i < Slots(dir[p.k]) && Vacant(Slot(dir[p.k], p.i))
    decreases |dir| - k
  {
    var f := FreeIn(dir[k], 0);
    if f < Slots(dir[k]) then At(k, f)
    else if k + 1 < |dir| then Free(dir, k + 1)
    else Nowhere
  }

  /** The directory with the first vacant slot filled. */
  function Filled(dir: seq<Bytes>, p: Place, e: Bytes): (r: seq<Bytes>)
    requires p.At? && p.k < |dir| && p.i < Slots(dir[p.k]) && |e| == SLOT
    ensures |r| == |dir| && forall k | 0 <= k < |dir| :: r[k] == if k == p.k then Fill(dir[k], p.i, e) else dir[k]
  {
    dir[p.k := Fill(dir[p.k], p.i, e)]
  }

  lemma FindHere(dir: seq<Bytes>, name: Bytes, k: nat, i: nat)
    requires k < |dir| && i <= Slots(dir[k])
    ensures Find(dir, name, k, i) ==
              match FindIn(dir[k], name, i)
              case Hit(j) => At(k, j)
              case End => Nowhere
              case More => if k + 1 < |dir| then Find(dir, name, k + 1, 0) else Nowhere
  {
  }

  lemma FreeHere(dir: seq<Bytes>, k: nat)
    requires k < |dir|
    ensures var f := FreeIn(dir[k], 0);
            Free(dir, k) == if f < Slots(dir[k]) then At(k, f)
                            else if k + 1 < |dir| then Free(dir, k + 1) else Nowhere
  {
  }

  lemma FreeFirst(cl: Bytes)
    ensures var f := FreeIn(cl, 0);
            (forall j: nat | j < f :: !Vacant(Slot(cl, j))) && (f < Slots(cl) ==> Vacant(Slot(cl, f)))
  {
  }

  /** A cluster without vacant slot has no end marker. */
  lemma {:induction false} NoEnd(cl: Bytes, name: Bytes, i: nat)
    requires i <= Slots(cl) && forall j: nat | i <= j < Slots(cl) :: !Vacant(Slot(cl, j))
    ensures !FindIn(cl, name, i).End?
    decreases Slots(cl) - i
  {
    if i < Slots(cl) { NoEnd(cl, name, i + 1); }
  }

  /** Behind cluster k the two directories agree. */
  lemma {:induction false} FindSuffix(dir: seq<Bytes>, dir': seq<Bytes>, name: Bytes, k: nat)
    requires k < |dir| == |dir'| && forall j | k < j < |dir| :: dir'[j] == dir[j]
    ensures k + 1 < |dir| ==> Find(dir', name, k + 1, 0) == Find(dir, name, k + 1, 0)
    decreases |dir| - k
  {
    if k + 1 < |dir| { FindSuffix(dir, dir', name, k + 1); }
  }

  /** Lookups after filling the first vacant slot: an earlier entry still wins, then the new one,
      then whatever lies behind it. */
  lemma {:induction false} FindAfterFill(dir: seq<Bytes>, p: Place, e: Bytes, name: Bytes, k: nat)
    requires k < |dir| && p == Free(dir, k) && p.At? && |e| == SLOT && e[0] != 0
    ensures Find(Filled(dir, p, e), name, k, 0) ==
              var was := Find(dir, name, k, 0);
              if was.At? && Before(was, p) then was
              else if Matches(e, name) then p
              else Find(dir, name, p.k, p.i + 1)
    decreases |dir| - k
  {
    hide Find, Free, FindIn, FreeIn, Filled, Fill, Slot, Matches, Vacant;
    var dir' := Filled(dir, p, e);
    FreeHere(dir, k);
    FindHere(dir, name, k, 0);
    FindHere(dir', name, k, 0);
    FreeFirst(dir[k]);
    if p.k == k {
      FindHere(dir, name, k, p.i + 1);
      FindFilled(dir[k], p.i, e, name, 0);
      FindSuffix(dir, dir', name, k);
    } else {
      NoEnd(dir[k], name, 0);
      FindAfterFill(dir, p, e, name, k + 1);
    }
  }

  lemma VacantStep(s: Bytes, name: Bytes)
    requires |s| == SLOT && Vacant(s)
    ensures s[0] == 0 || !Matches(s, name)
  {
  }

  lemma {:induction false} FindInPast(cl: Bytes, i: nat, name: Bytes, j: nat)
    requires j <= i < Slots(cl) && Vacant(Slot(cl, i)) && forall k: nat | j <= k < i :: !Vacant(Slot(cl, k))
    ensures var f := FindIn(cl, name, j);
            (f.Hit? && f.i < i) || f == if Slot(cl, i)[0] == 0 then End else FindIn(cl, name, i + 1)
    decreases i - j
  {
    hide FindIn, Slot, Matches;
    FindStep(cl, name, j);
    if j < i {
      assert !Vacant(Slot(cl, j));
      FindInPast(cl, i, name, j + 1);
    } else {
      VacantStep(Slot(cl, i), name);
    }
  }

  /** What a lookup meets at and behind the first vacant slot. */
  lemma {:induction false} FindPastFree(dir: seq<Bytes>, p: Place, name: Bytes, k: nat)
    requires k < |dir| && p == Free(dir, k) && p.At?
    ensures var q := Find(dir, name, k, 0);
            (q.At? && Before(q, p)) ||
            q == if Slot(dir[p.k], p.i)[0] == 0 then Nowhere else Find(dir, name, p.k, p.i + 1)
    decreases |dir| - k
  {
    hide FindIn, FreeIn, Slot, Matches, Vacant;
    if p.k == k {
      FindInPast(dir[k], p.i, name, 0);
      FreeFirst(dir[k]);
    } else {
      FreeFirst(dir[k]);
      NoEnd(dir[k], name, 0);
      FindPastFree(dir, p, name, k + 1);
    }
  }

  /** The first vacant slot is the end marker and hides a stale entry of that name. */
  predicate Uncovers(dir: seq<Bytes>, name: Bytes)
    requires dir != []
  {
    var p := Free(dir, 0);
    && p.At? && Slot(dir[p.k], p.i)[0] == 0
    && Find(dir, name, 0, 0) == Nowhere && Find(dir, name, p.k, p.i + 1).At?
  }

  /** Filling the first vacant slot leaves the lookup of another name alone exactly when that slot
      is not an end marker with a stale entry of the name behind it. */
  lemma OthersStayIff(dir: seq<Bytes>, e: Bytes, name: Bytes)
    requires dir != [] && Free(dir, 0).At? && |e| == SLOT && e[0] != 0 && !Matches(e, name)
    ensures var p := Free(dir, 0);
            Find(Filled(dir, p, e), name, 0, 0) == Find(dir, name, 0, 0) <==> !Uncovers(dir, name)
  {
    hide Find, Free, Slot, Matches, Vacant, Filled;
    var p := Free(dir, 0);
    FindAfterFill(dir, p, e, name, 0);
    FindPastFree(dir, p, name, 0);
  }

  /** It happens: the end marker is followed by an entry of another name. */
  lemma StaleEntry(name: Bytes, stale: Bytes)
    requires |name| == |stale| == 11 && UpperAll(name) == name && UpperAll(stale) == stale && name != stale
    requires name[0] != 0 && name[0] != 0xE5 && stale[0] != 0 && stale[0] != 0xE5
    ensures var dir := [Zeros(SLOT) + NewEntry(stale, 2, 0)];
            var p := Free(dir, 0);
            && p == At(0, 0) && Uncovers(dir, stale)
            && Find(dir, stale, 0, 0) == Nowhere
            && Find(Filled(dir, p, NewEntry(name, 3, 0)), stale, 0, 0) == At(0, 1)
  {
    hide NewEntry, UpperAll, Matches;
    var e, s := NewEntry(name, 3, 0), NewEntry(stale, 2, 0);
    NewEntryReads(name, 3, 0, stale);
    NewEntryReads(stale, 2, 0, stale);
    var cl := Zeros(SLOT) + s;
    assert Slot(cl, 0) == Zeros(SLOT) && Slot(cl, 1) == s;
    FindAfterFill([cl], At(0, 0), e, stale, 0);
  }

  /** Everything behind the end marker is empty, as the FAT specification asks. */
  ghost predicate CleanTail(dir: seq<Bytes>, p: Place)
    requires p.At? && p.k < |dir| && p.i < Slots(dir[p.k])
  {
    Slot(dir[p.k], p.i)[0] == 0 ==>
      && (p.i + 1 < Slots(dir[p.k]) ==> Slot(dir[p.k], p.i + 1)[0] == 0)
      && (p.i + 1 == Slots(dir[p.k]) && p.k + 1 < |dir| && Slots(dir[p.k + 1]) > 0 ==> Slot(dir[p.k + 1], 0)[0] == 0)
  }

  lemma NothingBehind(dir: seq<Bytes>, p: Place, name: Bytes)
    requires p.At? && p.k < |dir| && p.i < Slots(dir[p.k]) && CleanTail(dir, p) && Slot(dir[p.k], p.i)[0] == 0
    requires forall k | 0 <= k < |dir| :: Slots(dir[k]) > 0
    ensures Find(dir, name, p.k, p.i + 1) == Nowhere
  {
    hide Slot, Matches;
    if p.i + 1 == Slots(dir[p.k]) && p.k + 1 < |dir| {
      assert FindIn(dir[p.k + 1], name, 0) == End;
    }
  }

  /** A directory that ends as the FAT specification asks has nothing behind its end marker. */
  lemma CleanTailHides(dir: seq<Bytes>, name: Bytes)
    requires dir != [] && forall k | 0 <= k < |dir| :: Slots(dir[k]) > 0
    requires Free(dir, 0).At? ==> CleanTail(dir, Free(dir, 0))
    ensures !Uncovers(dir, name)
  {
    hide Free, Slot, Matches;
    var p := Free(dir, 0);
    if p.At? && Slot(dir[p.k], p.i)[0] == 0 { NothingBehind(dir, p, name); }
  }

  /** Lookups in a full directory extended by a cluster that starts with the new entry and an end
      marker: the old entries first, then the new one. */
  lemma {:induction false} FindAfterExtend(dir: seq<Bytes>, cl: Bytes, name: Bytes, k: nat)
    requires k < |dir| && Free(dir, k) == Nowhere
    requires Slots(cl) >= 2 && Slot(cl, 0)[0] != 0 && Slot(cl, 1)[0] == 0
    ensures Find(dir + [cl], name, k, 0) ==
              var was := Find(dir, name, k, 0);
              if was.At? then was else if Matches(Slot(cl, 0), name) then At(|dir|, 0) else Nowhere
    decreases |dir| - k
  {
    NoEnd(dir[k], name, 0);
    if k + 1 < |dir| {
      FindAfterExtend(dir, cl, name, k + 1);
    } else {
      assert FindIn(cl, name, 1) == End;
    }
  }
}
