/** The sectors of a FAT32 volume (kernel/fat32.c): where the table copies and the clusters lie on
    the disk, and what one sector or cluster write does to the table and the clusters. */
module FatDisk {
  import opened Arith
  import opened LittleEndian
  import opened FatModel
  import opened FatFiles
  import opened FatCreate

  const SECTOR: nat := 512
  const PER_SECTOR: nat := 128
  const MAX_SPC: nat := 128

  type Disk = seq<Bytes>

  /** The geometry fat32_init derives from the boot sector. */
  datatype Geometry = Geometry(fatLba: nat, numFats: nat, fatSectors: nat, dataLba: nat, spc: nat, total: nat)

  /** Clusters are numbered 2 .. total + 1; table and clusters fit the disk. */
  ghost predicate WellFormed(g: Geometry, disk: Disk)
  {
    && 1 <= g.spc <= MAX_SPC && g.numFats >= 1 && g.dataLba == g.fatLba + g.numFats * g.fatSectors
    && g.total + 2 <= g.fatSectors * PER_SECTOR && g.total + 2 <= EOC
    && g.dataLba + g.total * g.spc <= |disk|
    && forall i | 0 <= i < |disk| :: |disk[i]| == SECTOR
  }

  /** Sector s of table copy f. */
  function TableLba(g: Geometry, f: nat, s: nat): nat { g.fatLba + f * g.fatSectors + s }

  function ClusterLba(g: Geometry, c: nat): nat
    requires c >= 2
  {
    g.dataLba + (c - 2) * g.spc
  }

  /** The entries of a table copy lie one behind the other, four bytes each, the copies fatSectors apart;
      the clusters lie one behind the other from number 2 on. */
  lemma Addresses(g: Geometry, f: nat, c: nat)
    ensures TableLba(g, 0, c / PER_SECTOR) * 512 + c % PER_SECTOR * 4 == g.fatLba * 512 + 4 * c
    ensures TableLba(g, f + 1, c) == TableLba(g, f, c) + g.fatSectors
    ensures ClusterLba(g, 2) == g.dataLba && ClusterLba(g, c + 3) == ClusterLba(g, c + 2) + g.spc
  {
    assert (f + 1) * g.fatSectors == f * g.fatSectors + g.fatSectors;
    assert (c + 1) * g.spc == c * g.spc + g.spc;
    assert c == c / PER_SECTOR * PER_SECTOR + c % PER_SECTOR;
  }

  lemma TablesFit(g: Geometry, disk: Disk)
    requires WellFormed(g, disk)
    ensures g.fatLba + g.numFats * g.fatSectors == g.dataLba <= |disk|
  {
  }

  lemma TableBelowData(g: Geometry, disk: Disk, f: nat, s: nat)
    requires WellFormed(g, disk) && f < g.numFats && s < g.fatSectors
    ensures TableLba(g, f, s) < g.dataLba <= |disk|
  {
    hide WellFormed;
    TablesFit(g, disk);
    BlockFits(f, g.numFats, g.fatSectors);
  }

  lemma TableSectors(g: Geometry, f: nat, s: nat, f': nat, s': nat)
    requires s < g.fatSectors && s' < g.fatSectors
    ensures TableLba(g, f, s) == TableLba(g, f', s') <==> f == f' && s == s'
  {
    if TableLba(g, f, s) == TableLba(g, f', s') { BlockUnique(f, s, f', s', g.fatSectors); }
  }

  lemma DataFits(g: Geometry, disk: Disk)
    requires WellFormed(g, disk)
    ensures g.dataLba + g.total * g.spc <= |disk|
  {
  }

  lemma ClusterOnDisk(g: Geometry, disk: Disk, c: nat, j: nat)
    requires WellFormed(g, disk) && 2 <= c < g.total + 2 && j < g.spc
    ensures g.dataLba <= ClusterLba(g, c) && ClusterLba(g, c) + j < ClusterLba(g, c) + g.spc <= |disk|
  {
    hide WellFormed;
    DataFits(g, disk);
    BlockFits(c - 2, g.total, g.spc);
  }

  lemma ClusterSectors(g: Geometry, c: nat, j: nat, c': nat, j': nat)
    requires c >= 2 && c' >= 2 && j < g.spc && j' < g.spc
    ensures ClusterLba(g, c) + j == ClusterLba(g, c') + j' <==> c == c' && j == j'
  {
    if ClusterLba(g, c) + j == ClusterLba(g, c') + j' { BlockUnique(c - 2, j, c' - 2, j', g.spc); }
  }

  // ----- Views -----

  lemma EntrySector(g: Geometry, disk: Disk, c: nat)
    requires WellFormed(g, disk) && c < g.total + 2
    ensures c / PER_SECTOR < g.fatSectors && TableLba(g, 0, c / PER_SECTOR) < g.dataLba <= |disk|
  {
    TableBelowData(g, disk, 0, c / PER_SECTOR);
  }

  /** The 28-bit entry of cluster c, in the first table copy. */
  function Entry(g: Geometry, disk: Disk, c: nat): (v: nat)
    requires WellFormed(g, disk) && c < g.total + 2
    ensures v < ENTRY_LIMIT
  {
    EntrySector(g, disk, c);
    From32(disk[TableLba(g, 0, c / PER_SECTOR)], c % PER_SECTOR * 4) % ENTRY_LIMIT
  }

  /** The 32 bits at c's place behind the start of the table, also past the volume. */
  function Stored32(g: Geometry, disk: Disk, c: nat): (v: nat)
    requires WellFormed(g, disk) && TableLba(g, 0, c / PER_SECTOR) < |disk|
    ensures c < g.total + 2 ==> v % ENTRY_LIMIT == Entry(g, disk, c)
  {
    From32(disk[TableLba(g, 0, c / PER_SECTOR)], c % PER_SECTOR * 4)
  }

  /** `count` consecutive sectors. */
  function Sectors(disk: Disk, lba: nat, count: nat): (b: Bytes)
    requires lba + count <= |disk| && forall i | 0 <= i < |disk| :: |disk[i]| == SECTOR
    ensures |b| == count * SECTOR
    ensures forall k | 0 <= k < |b| :: b[k] == disk[lba + k / SECTOR][k % SECTOR]
  {
    seq(count * SECTOR, k requires 0 <= k < count * SECTOR => disk[lba + k / SECTOR][k % SECTOR])
  }

  function Cluster(g: Geometry, disk: Disk, c: nat): (b: Bytes)
    requires WellFormed(g, disk) && 2 <= c < g.total + 2
    ensures |b| == g.spc * SECTOR
  {
    ClusterOnDisk(g, disk, c, 0);
    Sectors(disk, ClusterLba(g, c), g.spc)
  }

  function FatView(g: Geometry, disk: Disk): (fat: Fat)
    requires WellFormed(g, disk)
    ensures |fat| == g.total + 2 && forall c: nat | c < |fat| :: fat[c] == Entry(g, disk, c)
  {
    seq(g.total + 2, c requires 0 <= c < g.total + 2 => Entry(g, disk, c))
  }

  function DataView(g: Geometry, disk: Disk): (data: seq<Bytes>)
    requires WellFormed(g, disk)
    ensures |data| == g.total + 2 && forall c: nat | c < |data| :: data[c] == if c < 2 then [] else Cluster(g, disk, c)
  {
    seq(g.total + 2, c requires 0 <= c < g.total + 2 => if c < 2 then [] else Cluster(g, disk, c))
  }

  function View(g: Geometry, disk: Disk): Vol
    requires WellFormed(g, disk)
  {
    Vol(FatView(g, disk), DataView(g, disk))
  }

  ghost predicate Copied(g: Geometry, disk: Disk, f: nat, s: nat)
    requires WellFormed(g, disk) && f < g.numFats && s < g.fatSectors
  {
    TableBelowData(g, disk, f, s);
    TableBelowData(g, disk, 0, s);
    disk[TableLba(g, f, s)] == disk[TableLba(g, 0, s)]
  }

  /** Every table copy equals the first. */
  ghost predicate Mirrored(g: Geometry, disk: Disk)
    requires WellFormed(g, disk)
  {
    forall f: nat, s: nat | f < g.numFats && s < g.fatSectors :: Copied(g, disk, f, s)
  }

  // ----- Writing a table entry -----

  /** The sector of c's entry with the entry replaced; the upper four bits of the stored word
      become zero. */
  function NewSector(g: Geometry, disk: Disk, c: nat, v: nat): (b: Bytes)
    requires WellFormed(g, disk) && c < g.total + 2
    ensures |b| == SECTOR
  {
    EntrySector(g, disk, c);
    Patch(disk[TableLba(g, 0, c / PER_SECTOR)], c % PER_SECTOR * 4, Le32(v % ENTRY_LIMIT))
  }

  /** Sector s of the first k table copies overwritten with b. */
  function Copies(g: Geometry, disk: Disk, s: nat, b: Bytes, k: nat): (r: Disk)
    requires WellFormed(g, disk) && s < g.fatSectors && |b| == SECTOR && k <= g.numFats
    ensures |r| == |disk| && WellFormed(g, r)
  {
    if k == 0 then disk
    else
      TableBelowData(g, disk, k - 1, s);
      Copies(g, disk, s, b, k - 1)[TableLba(g, k - 1, s) := b]
  }

  lemma {:induction false} CopiesAt(g: Geometry, disk: Disk, s: nat, b: Bytes, k: nat, f: nat, s': nat)
    requires WellFormed(g, disk) && s < g.fatSectors && |b| == SECTOR && k <= g.numFats
    requires f < g.numFats && s' < g.fatSectors && TableLba(g, f, s') < |disk|
    ensures Copies(g, disk, s, b, k)[TableLba(g, f, s')] == if s' == s && f < k then b else disk[TableLba(g, f, s')]
    decreases k
  {
    if k > 0 {
      TableSectors(g, f, s', k - 1, s);
      CopiesAt(g, disk, s, b, k - 1, f, s');
    }
  }

  lemma {:induction false} CopiesBelow(g: Geometry, disk: Disk, s: nat, b: Bytes, k: nat, lba: nat)
    requires WellFormed(g, disk) && s < g.fatSectors && |b| == SECTOR && k <= g.numFats
    requires g.dataLba <= lba < |disk|
    ensures Copies(g, disk, s, b, k)[lba] == disk[lba]
    decreases k
  {
    if k > 0 {
      TableBelowData(g, disk, k - 1, s);
      CopiesBelow(g, disk, s, b, k - 1, lba);
    }
  }

  /** The disk after fat32_write_fat_entry. */
  function EntryWritten(g: Geometry, disk: Disk, c: nat, v: nat): (r: Disk)
    requires WellFormed(g, disk) && c < g.total + 2
    ensures |r| == |disk| && WellFormed(g, r)
  {
    EntrySector(g, disk, c);
    Copies(g, disk, c / PER_SECTOR, NewSector(g, disk, c, v), g.numFats)
  }

  /** Inside a sector only the patched entry changes. */
  lemma PatchedEntry(b: Bytes, i: nat, j: nat, v: nat)
    requires |b| == SECTOR && i < PER_SECTOR && j < PER_SECTOR && v < LIMIT32
    ensures From32(Patch(b, i * 4, Le32(v)), j * 4) == if i == j then v else From32(b, j * 4)
  {
    hide Patch, Le32;
    var r := Patch(b, i * 4, Le32(v));
    if i == j { Read32(v, r, j * 4); }
  }

  lemma Positive(g: Geometry, disk: Disk)
    requires WellFormed(g, disk)
    ensures g.numFats >= 1 && 1 <= g.spc <= MAX_SPC && g.fatSectors >= 1
  {
  }

  lemma SectorSizes(g: Geometry, disk: Disk, lba: nat)
    requires WellFormed(g, disk)
    ensures lba < |disk| ==> |disk[lba]| == SECTOR
  {
  }

  lemma EntryAfter(g: Geometry, disk: Disk, c: nat, v: nat, d: nat)
    requires WellFormed(g, disk) && c < g.total + 2 && d < g.total + 2
    ensures Entry(g, EntryWritten(g, disk, c, v), d) == if d == c then v % ENTRY_LIMIT else Entry(g, disk, d)
  {
    hide Patch, From32, Le32, WellFormed, Copies;
    var s, t := c / PER_SECTOR, d / PER_SECTOR;
    EntrySector(g, disk, c);
    EntrySector(g, disk, d);
    Positive(g, disk);
    SectorSizes(g, disk, TableLba(g, 0, s));
    CopiesAt(g, disk, s, NewSector(g, disk, c, v), g.numFats, 0, t);
    if s == t {
      PatchedEntry(disk[TableLba(g, 0, s)], c % PER_SECTOR, d % PER_SECTOR, v % ENTRY_LIMIT);
    }
  }

  /** The upper four bits of a stored word survive a write exactly when they are clear: the code
      writes the masked value over all 32 bits. */
  lemma UpperBitsKept(g: Geometry, disk: Disk, c: nat, v: nat)
    requires WellFormed(g, disk) && c < g.total + 2
    ensures var disk' := EntryWritten(g, disk, c, v);
            && TableLba(g, 0, c / PER_SECTOR) < |disk|
            && Stored32(g, disk', c) == v % ENTRY_LIMIT
            && (Stored32(g, disk', c) / ENTRY_LIMIT == Stored32(g, disk, c) / ENTRY_LIMIT
                <==> Stored32(g, disk, c) < ENTRY_LIMIT)
  {
    hide Patch, From32, Le32, WellFormed, Copies;
    var s := c / PER_SECTOR;
    EntrySector(g, disk, c);
    Positive(g, disk);
    SectorSizes(g, disk, TableLba(g, 0, s));
    CopiesAt(g, disk, s, NewSector(g, disk, c, v), g.numFats, 0, s);
    PatchedEntry(disk[TableLba(g, 0, s)], c % PER_SECTOR, c % PER_SECTOR, v % ENTRY_LIMIT);
  }

  /** Such bits are lost on every volume whose table sector holds all ones. */
  lemma UpperBitsLost(g: Geometry, disk: Disk, c: nat, v: nat)
    requires WellFormed(g, disk) && c < g.total + 2
    ensures var s, full := c / PER_SECTOR, seq(SECTOR, _ => 255);
            && s < g.fatSectors
            && var ones := Copies(g, disk, s, full, g.numFats);
            && TableLba(g, 0, s) < |disk| && Stored32(g, ones, c) / ENTRY_LIMIT == 15
            && Stored32(g, EntryWritten(g, ones, c, v), c) / ENTRY_LIMIT == 0
  {
    hide WellFormed, Copies, EntryWritten;
    EntrySector(g, disk, c);
    Positive(g, disk);
    var s, full: Bytes := c / PER_SECTOR, seq(SECTOR, _ => 255);
    CopiesAt(g, disk, s, full, g.numFats, 0, s);
    UpperBitsKept(g, Copies(g, disk, s, full, g.numFats), c, v);
  }

  ghost predicate SameSector(a: Disk, b: Disk, lba: nat, j: nat)
  {
    lba + j < |a| == |b| && a[lba + j] == b[lba + j]
  }

  lemma ClusterOnDiskSizes(g: Geometry, disk: Disk, d: nat)
    requires WellFormed(g, disk) && 2 <= d < g.total + 2
    ensures ClusterLba(g, d) + g.spc <= |disk| && forall i | 0 <= i < |disk| :: |disk[i]| == SECTOR
  {
    ClusterOnDisk(g, disk, d, 0);
  }

  lemma SameSectors(a: Disk, b: Disk, g: Geometry, d: nat)
    requires WellFormed(g, a) && WellFormed(g, b) && 2 <= d < g.total + 2
    requires forall j: nat | j < g.spc :: SameSector(a, b, ClusterLba(g, d), j)
    ensures Cluster(g, a, d) == Cluster(g, b, d)
  {
    hide WellFormed, ClusterLba;
    var x, y := Cluster(g, a, d), Cluster(g, b, d);
    ClusterOnDiskSizes(g, a, d);
    ClusterOnDiskSizes(g, b, d);
    forall k | 0 <= k < |x| ensures x[k] == y[k] {
      assert SameSector(a, b, ClusterLba(g, d), k / SECTOR);
    }
  }

  lemma ClusterAfterEntry(g: Geometry, disk: Disk, c: nat, v: nat, d: nat)
    requires WellFormed(g, disk) && c < g.total + 2 && 2 <= d < g.total + 2
    ensures Cluster(g, EntryWritten(g, disk, c, v), d) == Cluster(g, disk, d)
  {
    hide WellFormed, Copies, NewSector;
    EntrySector(g, disk, c);
    Positive(g, disk);
    forall j: nat | j < g.spc ensures SameSector(EntryWritten(g, disk, c, v), disk, ClusterLba(g, d), j) {
      ClusterOnDisk(g, disk, d, j);
      CopiesBelow(g, disk, c / PER_SECTOR, NewSector(g, disk, c, v), g.numFats, ClusterLba(g, d) + j);
    }
    SameSectors(EntryWritten(g, disk, c, v), disk, g, d);
  }

  lemma MirrorAfterEntry(g: Geometry, disk: Disk, c: nat, v: nat)
    requires WellFormed(g, disk) && Mirrored(g, disk) && c < g.total + 2
    ensures Mirrored(g, EntryWritten(g, disk, c, v))
  {
    hide WellFormed, Copies, NewSector;
    EntrySector(g, disk, c);
    Positive(g, disk);
    var s := c / PER_SECTOR;
    var b := NewSector(g, disk, c, v);
    forall f: nat, t: nat | f < g.numFats && t < g.fatSectors ensures Copied(g, EntryWritten(g, disk, c, v), f, t) {
      TableBelowData(g, disk, f, t);
      TableBelowData(g, disk, 0, t);
      assert Copied(g, disk, f, t);
      CopiesAt(g, disk, s, b, g.numFats, f, t);
      CopiesAt(g, disk, s, b, g.numFats, 0, t);
    }
  }

  /** Writing an entry changes that entry of the table and nothing else, and every copy follows. */
  lemma EntryWrite(g: Geometry, disk: Disk, c: nat, v: nat)
    requires WellFormed(g, disk) && Mirrored(g, disk) && c < g.total + 2
    ensures var r := EntryWritten(g, disk, c, v);
            && View(g, r) == Vol(Set(FatView(g, disk), c, v % ENTRY_LIMIT), DataView(g, disk)) && Mirrored(g, r)
  {
    hide WellFormed, Copies, NewSector, Entry, Mirrored, EntryWritten, Cluster;
    var r := EntryWritten(g, disk, c, v);
    forall d: nat | d < g.total + 2 ensures FatView(g, r)[d] == Set(FatView(g, disk), c, v % ENTRY_LIMIT)[d] {
      EntryAfter(g, disk, c, v, d);
    }
    assert FatView(g, r) == Set(FatView(g, disk), c, v % ENTRY_LIMIT);
    forall d: nat | 2 <= d < g.total + 2 ensures Cluster(g, r, d) == Cluster(g, disk, d) {
      ClusterAfterEntry(g, disk, c, v, d);
    }
    assert DataView(g, r) == DataView(g, disk);
    MirrorAfterEntry(g, disk, c, v);
  }

  // ----- Writing a cluster -----

  /** `count` sectors from lba on overwritten with the bytes of b. */
  function Overlay(disk: Disk, lba: nat, count: nat, b: Bytes): (r: Disk)
    requires lba + count <= |disk| && |b| == count * SECTOR
    ensures |r| == |disk|
    ensures forall i | 0 <= i < |disk| && !(lba <= i < lba + count) :: r[i] == disk[i]
    ensures forall i | lba <= i < lba + count :: r[i] == b[(i - lba) * SECTOR..(i - lba) * SECTOR + SECTOR]
  {
    disk[..lba] + seq(count, j requires 0 <= j < count => b[j * SECTOR..j * SECTOR + SECTOR]) + disk[lba + count..]
  }

  function ClusterWritten(g: Geometry, disk: Disk, c: nat, b: Bytes): (r: Disk)
    requires WellFormed(g, disk) && 2 <= c < g.total + 2 && |b| == g.spc * SECTOR
    ensures |r| == |disk| && WellFormed(g, r)
  {
    ClusterOnDisk(g, disk, c, 0);
    Overlay(disk, ClusterLba(g, c), g.spc, b)
  }

  lemma NotInCluster(g: Geometry, c: nat, d: nat, j: nat)
    requires c >= 2 && d >= 2 && c != d && j < g.spc
    ensures !(ClusterLba(g, c) <= ClusterLba(g, d) + j < ClusterLba(g, c) + g.spc)
  {
    if ClusterLba(g, c) <= ClusterLba(g, d) + j < ClusterLba(g, c) + g.spc {
      ClusterSectors(g, d, j, c, ClusterLba(g, d) + j - ClusterLba(g, c));
    }
  }

  lemma ClusterAfter(g: Geometry, disk: Disk, c: nat, b: Bytes, d: nat)
    requires WellFormed(g, disk) && 2 <= c < g.total + 2 && |b| == g.spc * SECTOR && 2 <= d < g.total + 2
    ensures Cluster(g, ClusterWritten(g, disk, c, b), d) == if d == c then b else Cluster(g, disk, d)
  {
    hide WellFormed, ClusterLba, Overlay;
    var r := ClusterWritten(g, disk, c, b);
    ClusterOnDiskSizes(g, disk, c);
    ClusterOnDiskSizes(g, disk, d);
    ClusterOnDiskSizes(g, r, d);
    if d == c {
      var x := Cluster(g, r, d);
      forall k | 0 <= k < |x| ensures x[k] == b[k] {
        assert r[ClusterLba(g, c) + k / SECTOR] == b[k / SECTOR * SECTOR..k / SECTOR * SECTOR + SECTOR];
      }
    } else {
      forall j: nat | j < g.spc ensures SameSector(r, disk, ClusterLba(g, d), j) {
        NotInCluster(g, c, d, j);
      }
      SameSectors(r, disk, g, d);
    }
  }

  lemma TableAfterCluster(g: Geometry, disk: Disk, c: nat, b: Bytes, f: nat, s: nat)
    requires WellFormed(g, disk) && 2 <= c < g.total + 2 && |b| == g.spc * SECTOR && f < g.numFats && s < g.fatSectors
    ensures TableLba(g, f, s) < |disk| && ClusterWritten(g, disk, c, b)[TableLba(g, f, s)] == disk[TableLba(g, f, s)]
  {
    TableBelowData(g, disk, f, s);
    ClusterOnDisk(g, disk, c, 0);
  }

  lemma EntryAfterCluster(g: Geometry, disk: Disk, c: nat, b: Bytes, d: nat)
    requires WellFormed(g, disk) && 2 <= c < g.total + 2 && |b| == g.spc * SECTOR && d < g.total + 2
    ensures Entry(g, ClusterWritten(g, disk, c, b), d) == Entry(g, disk, d)
  {
    EntrySector(g, disk, d);
    TableAfterCluster(g, disk, c, b, 0, d / PER_SECTOR);
  }

  /** Writing a cluster changes that cluster and nothing else. */
  lemma ClusterWrite(g: Geometry, disk: Disk, c: nat, b: Bytes)
    requires WellFormed(g, disk) && Mirrored(g, disk) && 2 <= c < g.total + 2 && |b| == g.spc * SECTOR
    ensures var r := ClusterWritten(g, disk, c, b);
            && View(g, r) == Vol(FatView(g, disk), Put(DataView(g, disk), c, b)) && Mirrored(g, r)
  {
    hide WellFormed, Overlay, Entry, Cluster, ClusterWritten;
    var r := ClusterWritten(g, disk, c, b);
    forall d: nat | d < g.total + 2 ensures Entry(g, r, d) == Entry(g, disk, d) { EntryAfterCluster(g, disk, c, b, d); }
    assert FatView(g, r) == FatView(g, disk);
    forall d: nat | d < g.total + 2 ensures DataView(g, r)[d] == Put(DataView(g, disk), c, b)[d] {
      if d >= 2 { ClusterAfter(g, disk, c, b, d); }
    }
    assert DataView(g, r) == Put(DataView(g, disk), c, b);
    forall f: nat, s: nat | f < g.numFats && s < g.fatSectors ensures Copied(g, r, f, s) {
      assert Copied(g, disk, f, s);
      TableAfterCluster(g, disk, c, b, f, s);
      TableAfterCluster(g, disk, c, b, 0, s);
    }
  }
}
