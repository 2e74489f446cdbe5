/** The ramdisk image: the writer of scripts/mkinitrd.py and the parser of kernel/initrd.c. */
module Initrd {
  import opened Arith
  import opened LittleEndian

  const MAGIC: nat := 0x41524453
  const VERSION: nat := 1
  const NAME_MAX: nat := 48
  const ENTRY: nat := 64
  const HEADER: nat := 16
  const MAX_FILES: nat := 128

  datatype File = File(name: Bytes, data: Bytes)

  // ----- Writing -----

  /** The name field: at most 47 bytes of the name, padded with zeros. */
  function NameField(name: Bytes): (r: Bytes)
    ensures |r| == NAME_MAX
  {
    var cut := if |name| > NAME_MAX - 1 then name[..NAME_MAX - 1] else name;
    cut + Zeros(NAME_MAX - |cut|)
  }

  /** pack_entry. */
  function PackEntry(name: Bytes, offset: nat, size: nat): (r: Bytes)
    ensures |r| == ENTRY
  {
    NameField(name) + Le32(offset) + Le32(size) + Le32(0) + Le32(0)
  }

  /** The bytes of the first k files together. */
  function Sum(files: seq<File>, k: nat): nat
    requires k <= |files|
  {
    if k == 0 then 0 else Sum(files, k - 1) + |files[k - 1].data|
  }

  function DataStart(n: nat): nat { HEADER + n * ENTRY }

  function Header(n: nat): (r: Bytes)
    ensures |r| == HEADER
  {
    Le32(MAGIC) + Le32(VERSION) + Le32(n) + Le32(0)
  }

  /** The first k directory entries. */
  function Entries(files: seq<File>, k: nat): (r: Bytes)
    requires k <= |files|
    ensures |r| == k * ENTRY
  {
    if k == 0 then []
    else
      var f := files[k - 1];
      Entries(files, k - 1) + PackEntry(f.name, DataStart(|files|) + Sum(files, k - 1), |f.data|)
  }

  /** The data of the first k files, packed. */
  function Blob(files: seq<File>, k: nat): (r: Bytes)
    requires k <= |files|
    ensures |r| == Sum(files, k)
  {
    if k == 0 then [] else Blob(files, k - 1) + files[k - 1].data
  }

  function Image(files: seq<File>): Bytes
  {
    Header(|files|) + Entries(files, |files|) + Blob(files, |files|)
  }

  /** struct.pack refuses offsets and sizes of more than 32 bits. */
  predicate Packable(files: seq<File>) { DataStart(|files|) + Sum(files, |files|) < LIMIT32 }

  lemma SumNext(files: seq<File>, k: nat)
    requires k <= |files|
    ensures Sum(files, 0) == 0 && (k < |files| ==> Sum(files, k + 1) == Sum(files, k) + |files[k].data|)
  {
  }

  /** Where each file's data starts. */
  method Offsets(files: seq<File>) returns (offsets: seq<nat>)
    ensures |offsets| == |files| && forall k | 0 <= k < |files| :: offsets[k] == DataStart(|files|) + Sum(files, k)
  {
    hide DataStart, Sum;
    offsets := [];
    SumNext(files, 0);
    var cur, i := DataStart(|files|), 0;
    while i < |files|
      invariant i == |offsets| <= |files| && cur == DataStart(|files|) + Sum(files, i)
      invariant forall k | 0 <= k < i :: offsets[k] == DataStart(|files|) + Sum(files, k)
    {
      SumNext(files, i);
      offsets := offsets + [cur];
      cur := cur + |files[i].data|;
      i := i + 1;
    }
  }

  method WriteEntries(files: seq<File>, offsets: seq<nat>, out0: Bytes) returns (out: Bytes)
    requires |offsets| == |files| && forall k | 0 <= k < |files| :: offsets[k] == DataStart(|files|) + Sum(files, k)
    ensures out == out0 + Entries(files, |files|)
  {
    hide PackEntry, Sum;
    out := out0;
    var i := 0;
    while i < |files|
      invariant i <= |files| && out == out0 + Entries(files, i)
    {
      out := out + PackEntry(files[i].name, offsets[i], |files[i].data|);
      i := i + 1;
    }
  }

  method WriteData(files: seq<File>, out0: Bytes) returns (out: Bytes)
    ensures out == out0 + Blob(files, |files|)
  {
    out := out0;
    var i := 0;
    while i < |files|
      invariant i <= |files| && out == out0 + Blob(files, i)
    {
      out := out + files[i].data;
      i := i + 1;
    }
  }

  /** build_image; no image for an empty list of files. */
  method BuildImage(files: seq<File>) returns (ok: bool, out: Bytes)
    requires Packable(files)
    ensures ok == (files != []) && (ok ==> out == Image(files))
  {
    hide Header, Entries, Blob, Sum;
    if files == [] { return false, []; }
    var offsets := Offsets(files);
    out := WriteEntries(files, offsets, Header(|files|));
    out := WriteData(files, out);
    ok := true;
  }

  // ----- Parsing -----

  /** The C string that starts at a position: up to the next zero byte. */
  function CString(img: Bytes, at: nat): (s: Bytes)
    decreases |img| - at
  {
    if at >= |img| || img[at] == 0 then [] else [img[at]] + CString(img, at + 1)
  }

  function EntryAt(i: nat): nat { HEADER + i * ENTRY }

  /** The number of entries looked at. */
  function Tracked(img: Bytes): nat
    requires |img| >= HEADER
  {
    var nf := From32(img, 8);
    if nf > MAX_FILES then MAX_FILES else nf
  }

  predicate Mountable(img: Bytes)
  {
    && |img| >= HEADER && From32(img, 0) == MAGIC && From32(img, 4) == VERSION
    && EntryAt(Tracked(img)) <= |img|
  }

  predicate InBounds(img: Bytes, i: nat)
    requires EntryAt(i) + ENTRY <= |img|
  {
    From32(img, EntryAt(i) + 48) + From32(img, EntryAt(i) + 52) <= |img|
  }

  function FileAt(img: Bytes, i: nat): File
    requires EntryAt(i) + ENTRY <= |img| && InBounds(img, i)
  {
    var offset, size := From32(img, EntryAt(i) + 48), From32(img, EntryAt(i) + 52);
    File(CString(img, EntryAt(i)), img[offset..offset + size])
  }

  /** The files of the first k entries; entries that point outside the image are skipped. */
  function Parsed(img: Bytes, k: nat): (r: seq<File>)
    requires EntryAt(k) <= |img|
    ensures |r| <= k
  {
    if k == 0 then []
    else Parsed(img, k - 1) + if InBounds(img, k - 1) then [FileAt(img, k - 1)] else []
  }

  lemma ParsedNext(was: seq<File>, img: Bytes, i: nat)
    requires EntryAt(i) <= |img|
    ensures was + Parsed(img, 0) == was
    ensures EntryAt(i) + ENTRY <= |img| ==>
              was + Parsed(img, i + 1) == if InBounds(img, i) then was + Parsed(img, i) + [FileAt(img, i)]
                                          else was + Parsed(img, i)
  {
    assert EntryAt(i) + ENTRY == EntryAt(i + 1);
  }

  /** The first file of that name, or the number of files. */
  function Find(files: seq<File>, path: Bytes, i: nat): (f: nat)
    requires i <= |files|
    ensures i <= f <= |files| && (f < |files| ==> files[f].name == path)
    ensures forall k | i <= k < f :: files[k].name != path
    decreases |files| - i
  {
    if i == |files| || files[i].name == path then i else Find(files, path, i + 1)
  }

  /** An image is mounted exactly when it starts with "SDRA" and version 1 and has room for the header of 16
      bytes and the entries, 64 bytes each and at most 128. */
  lemma MountableIff(img: Bytes)
    ensures Mountable(img) <==>
            && |img| >= 16 && img[..8] == [0x53, 0x44, 0x52, 0x41, 1, 0, 0, 0]
            && 16 + 64 * Min(From32(img, 8), 128) <= |img|
  {
    if |img| >= 16 {
      assert From32(img, 0) == 0x4152_4453 <==> img[0] == 0x53 && img[1] == 0x44 && img[2] == 0x52 && img[3] == 0x41;
      assert From32(img, 4) == 1 <==> img[4] == 1 && img[5] == 0 && img[6] == 0 && img[7] == 0;
    }
  }

  // ----- The image read back -----

  lemma Prefix(a: Bytes, b: Bytes, i: nat, j: nat)
    requires i <= j <= |a|
    ensures (a + b)[i..j] == a[i..j]
  {
  }

  /** The directory entry of file i. */
  lemma {:induction false} EntriesAt(files: seq<File>, k: nat, i: nat)
    requires i < k <= |files|
    ensures i * ENTRY + ENTRY <= k * ENTRY
    ensures Entries(files, k)[i * ENTRY..i * ENTRY + ENTRY] ==
              PackEntry(files[i].name, DataStart(|files|) + Sum(files, i), |files[i].data|)
  {
    hide PackEntry;
    var a := Entries(files, k - 1);
    var b := PackEntry(files[k - 1].name, DataStart(|files|) + Sum(files, k - 1), |files[k - 1].data|);
    assert Entries(files, k) == a + b;
    hide Entries, Sum;
    if i < k - 1 {
      EntriesAt(files, k - 1, i);
      Prefix(a, b, i * ENTRY, i * ENTRY + ENTRY);
    }
  }

  lemma {:induction false} BlobAt(files: seq<File>, k: nat, i: nat)
    requires i < k <= |files|
    ensures Sum(files, i) + |files[i].data| <= Sum(files, k)
    ensures Blob(files, k)[Sum(files, i)..Sum(files, i) + |files[i].data|] == files[i].data
  {
    if i < k - 1 {
      BlobAt(files, k - 1, i);
      assert Blob(files, k)[Sum(files, i)..Sum(files, i) + |files[i].data|]
          == Blob(files, k - 1)[Sum(files, i)..Sum(files, i) + |files[i].data|];
    }
  }

  /** The name a reader sees: cut to 47 bytes and at the first zero byte. */
  function StoredName(name: Bytes): Bytes { CString(NameField(name), 0) }

  predicate NulFree(s: Bytes) { forall c | c in s :: c != 0 }

  lemma {:induction false} CStringOf(s: Bytes, rest: Bytes, i: nat)
    requires i <= |s| && NulFree(s) && rest != [] && rest[0] == 0
    ensures CString(s + rest, i) == s[i..]
    decreases |s| - i
  {
    if i < |s| {
      assert s[i] in s;
      CStringOf(s, rest, i + 1);
      assert s[i..] == [s[i]] + s[i + 1..];
    }
  }

  lemma {:induction false} CStringEnds(field: Bytes, at: nat)
    requires at < |field| && field[|field| - 1] == 0
    ensures NulFree(CString(field, at)) && at + |CString(field, at)| < |field|
    decreases |field| - at
  {
    if field[at] != 0 { CStringEnds(field, at + 1); }
  }

  lemma NameFieldEnds(name: Bytes)
    ensures NameField(name)[NAME_MAX - 1] == 0
  {
  }

  /** A name is kept exactly when it has at most 47 bytes and no zero byte. */
  lemma NameKept(name: Bytes)
    ensures StoredName(name) == name <==> |name| <= 47 && NulFree(name)
  {
    NameFieldEnds(name);
    CStringEnds(NameField(name), 0);
    if |name| <= NAME_MAX - 1 && NulFree(name) { CStringOf(name, Zeros(NAME_MAX - |name|), 0); }
  }

  /** A field that ends in a zero byte reads the same inside the image. */
  lemma {:induction false} CStringInside(img: Bytes, at: nat, field: Bytes, i: nat)
    requires at + |field| <= |img| && img[at..at + |field|] == field
    requires i < |field| && field[|field| - 1] == 0
    ensures CString(img, at + i) == CString(field, i)
    decreases |field| - i
  {
    assert img[at + i] == img[at..at + |field|][i];
    if field[i] != 0 { CStringInside(img, at, field, i + 1); }
  }

  lemma Window(a: Bytes, b: Bytes, c: Bytes, i: nat, j: nat)
    requires i <= j <= |b|
    ensures (a + b + c)[|a| + i..|a| + j] == b[i..j]
  {
  }

  /** The header of an image. */
  lemma HeaderReads(files: seq<File>)
    requires Packable(files)
    ensures var img := Image(files);
            && |img| == DataStart(|files|) + Sum(files, |files|)
            && From32(img, 0) == MAGIC && From32(img, 4) == VERSION && From32(img, 8) == |files|
  {
    hide Entries, Blob, From32, Le32;
    var n, img := |files|, Image(files);
    var h := Header(n);
    Window([], h, Entries(files, n) + Blob(files, n), 0, HEADER);
    assert img == [] + h + (Entries(files, n) + Blob(files, n));
    assert img[..HEADER] == h;
    assert img[0..4] == h[0..4] == Le32(MAGIC);
    assert img[4..8] == h[4..8] == Le32(VERSION);
    assert img[8..12] == h[8..12] == Le32(n);
    Read32(MAGIC, img, 0);
    Read32(VERSION, img, 4);
    Read32(n, img, 8);
  }

  /** Entry i of an image. */
  lemma EntryInImage(files: seq<File>, i: nat)
    requires i < |files|
    ensures EntryAt(i) + ENTRY <= EntryAt(|files|) <= |Image(files)|
    ensures Image(files)[EntryAt(i)..EntryAt(i) + ENTRY] ==
              PackEntry(files[i].name, DataStart(|files|) + Sum(files, i), |files[i].data|)
  {
    hide PackEntry, Header, Blob, Entries;
    var n := |files|;
    EntriesAt(files, n, i);
    Window(Header(n), Entries(files, n), Blob(files, n), i * ENTRY, i * ENTRY + ENTRY);
  }

  lemma PackedParts(name: Bytes, offset: nat, size: nat)
    requires offset < LIMIT32 && size < LIMIT32
    ensures var e := PackEntry(name, offset, size);
            e[..48] == NameField(name) && From32(e, 48) == offset && From32(e, 52) == size
  {
    hide Le32, From32, NameField;
    var e := PackEntry(name, offset, size);
    assert e[48..52] == Le32(offset) && e[52..56] == Le32(size);
    Read32(offset, e, 48);
    Read32(size, e, 52);
  }

  lemma Inner(img: Bytes, at: nat, e: Bytes, k: nat)
    requires at + |e| <= |img| && img[at..at + |e|] == e && k + 4 <= |e|
    ensures From32(img, at + k) == From32(e, k)
  {
    var w := img[at..at + |e|];
    assert img[at + k] == w[k] && img[at + k + 1] == w[k + 1];
    assert img[at + k + 2] == w[k + 2] && img[at + k + 3] == w[k + 3];
  }

  lemma DataInImage(files: seq<File>, i: nat)
    requires i < |files|
    ensures var offset := DataStart(|files|) + Sum(files, i);
            && offset + |files[i].data| <= |Image(files)|
            && Image(files)[offset..offset + |files[i].data|] == files[i].data
  {
    hide Header, Entries, Blob, Sum;
    var n := |files|;
    BlobAt(files, n, i);
    Window(Header(n) + Entries(files, n), Blob(files, n), [], Sum(files, i), Sum(files, i) + |files[i].data|);
    assert Image(files) == Header(n) + Entries(files, n) + Blob(files, n) + [];
  }

  /** Entry i of 64 bytes stands behind the header of 16 and tells, at 48 and 52, where the data starts and
      its size; the data follows all entries in file order. */
  lemma DataIsWhereTold(files: seq<File>, i: nat)
    requires Packable(files) && i < |files|
    ensures var img, at, offset := Image(files), 16 + 64 * i, 16 + 64 * |files| + Sum(files, i);
            && at + 64 <= |img| && offset + |files[i].data| <= |img|
            && From32(img, at + 48) == offset && From32(img, at + 52) == |files[i].data|
            && img[offset..offset + |files[i].data|] == files[i].data
  {
    hide Image, PackEntry, NameField, Sum, From32;
    var offset, size := DataStart(|files|) + Sum(files, i), |files[i].data|;
    HeaderReads(files);
    EntryInImage(files, i);
    BlobAt(files, |files|, i);
    PackedParts(files[i].name, offset, size);
    Inner(Image(files), EntryAt(i), PackEntry(files[i].name, offset, size), 48);
    Inner(Image(files), EntryAt(i), PackEntry(files[i].name, offset, size), 52);
    DataInImage(files, i);
  }

  /** The parser finds file i where the writer put it. */
  lemma FileReads(files: seq<File>, i: nat)
    requires Packable(files) && i < |files|
    ensures EntryAt(i) + ENTRY <= |Image(files)| && InBounds(Image(files), i)
    ensures FileAt(Image(files), i) == File(StoredName(files[i].name), files[i].data)
  {
    hide Image, PackEntry, NameField, CString, Sum, From32;
    var n, img := |files|, Image(files);
    var offset, size, at := DataStart(n) + Sum(files, i), |files[i].data|, EntryAt(i);
    HeaderReads(files);
    EntryInImage(files, i);
    BlobAt(files, n, i);
    PackedParts(files[i].name, offset, size);
    var e := PackEntry(files[i].name, offset, size);
    Inner(img, at, e, 48);
    Inner(img, at, e, 52);
    assert img[at..at + 48] == img[at..at + ENTRY][..48];
    NameFieldEnds(files[i].name);
    CStringInside(img, at, NameField(files[i].name), 0);
    DataInImage(files, i);
  }

  /** What mounting an image stores: every file up to the 128th, under its stored name. */
  lemma {:induction false} ParsedImage(files: seq<File>, k: nat)
    requires Packable(files) && k <= |files|
    ensures EntryAt(k) <= |Image(files)| && |Parsed(Image(files), k)| == k
    ensures forall i | 0 <= i < k :: Parsed(Image(files), k)[i] == File(StoredName(files[i].name), files[i].data)
  {
    hide Image, FileAt, InBounds, StoredName;
    HeaderReads(files);
    if k > 0 {
      ParsedImage(files, k - 1);
      FileReads(files, k - 1);
    }
  }

  lemma ImageMounts(files: seq<File>)
    requires Packable(files)
    ensures Mountable(Image(files)) && Tracked(Image(files)) == Min(|files|, MAX_FILES)
  {
    hide Image;
    HeaderReads(files);
  }

  predicate GoodNames(files: seq<File>)
  {
    && (forall i | 0 <= i < |files| :: |files[i].name| <= 47 && NulFree(files[i].name))
    && forall i: nat, j: nat | i < j < |files| :: files[i].name != files[j].name
  }

  /** The round trip: after mounting the image of up to 128 files with distinct names of at most 47
      bytes, every name is found with exactly its bytes, and no other name is. */
  lemma RoundTrip(files: seq<File>, path: Bytes)
    requires Packable(files) && |files| <= 128 && GoodNames(files)
    ensures Mountable(Image(files)) && EntryAt(|files|) <= |Image(files)| && Tracked(Image(files)) == |files|
    ensures var found := Parsed(Image(files), |files|);
            && found == files
            && (forall i | 0 <= i < |files| :: files[i].name == path ==> Find(found, path, 0) == i)
            && ((forall i | 0 <= i < |files| :: files[i].name != path) ==> Find(found, path, 0) == |found|)
  {
    hide Image, Parsed, StoredName;
    ImageMounts(files);
    ParsedImage(files, |files|);
    forall i | 0 <= i < |files| ensures Parsed(Image(files), |files|)[i] == files[i] { NameKept(files[i].name); }
    assert Parsed(Image(files), |files|) == files;
  }

  // ----- The mounted ramdisk -----

  /** g_files up to g_num_files, and g_mounted. */
  datatype Mounts = Mounts(files: seq<File>, mounted: bool)

  /** How initrd_init ends: Overrun is its store into g_files past the table's 128 places. */
  datatype Outcome = Refused | Mounted | Overrun

  function Attempt(s: Mounts, img: Bytes): Outcome
  {
    if !Mountable(img) then Refused
    else if |s.files| + |Parsed(img, Tracked(img))| <= MAX_FILES then Mounted
    else Overrun
  }

  /** The state after mounting an image, at an overrun the state before the store. The file count is
      not reset: mounting again appends. */
  function Mount(s: Mounts, img: Bytes): Mounts
    requires |s.files| <= MAX_FILES
  {
    match Attempt(s, img)
    case Refused => s
    case Mounted => Mounts(s.files + Parsed(img, Tracked(img)), true)
    case Overrun => s.(files := (s.files + Parsed(img, Tracked(img)))[..MAX_FILES])
  }

  function LookUp(s: Mounts, path: Bytes): (i: nat)
    ensures i <= |s.files| && (i < |s.files| ==> s.mounted && s.files[i].name == path)
  {
    if s.mounted then Find(s.files, path, 0) else |s.files|
  }

  lemma {:induction false} FindShift(a: seq<File>, b: seq<File>, path: Bytes, j: nat)
    requires j <= |b|
    ensures Find(a + b, path, |a| + j) == |a| + Find(b, path, j)
    decreases |b| - j
  {
    if j < |b| { FindShift(a, b, path, j + 1); }
  }

  lemma {:induction false} FindInBoth(a: seq<File>, b: seq<File>, path: Bytes, i: nat)
    requires i <= |a|
    ensures Find(a + b, path, i) == if Find(a, path, i) < |a| then Find(a, path, i) else |a| + Find(b, path, 0)
    decreases |a| - i
  {
    if i < |a| { FindInBoth(a, b, path, i + 1); } else { FindShift(a, b, path, 0); }
  }

  /** An image mounted over an earlier one cannot replace a file: the old one is still found, with
      its bytes, and a new file is found only under a name that was missing. */
  lemma FirstMountWins(s: Mounts, a: Bytes, b: Bytes, path: Bytes)
    requires |s.files| <= MAX_FILES && Attempt(s, a) == Mounted && Attempt(Mount(s, a), b) == Mounted
    ensures var s1, s2 := Mount(s, a), Mount(Mount(s, a), b);
            && |s1.files| <= |s2.files| <= MAX_FILES && EntryAt(Tracked(b)) <= |b|
            && if LookUp(s1, path) < |s1.files|
               then LookUp(s2, path) == LookUp(s1, path) && s2.files[LookUp(s2, path)] == s1.files[LookUp(s1, path)]
               else LookUp(s2, path) == |s1.files| + Find(Parsed(b, Tracked(b)), path, 0)
  {
    hide Parsed, Tracked;
    FindInBoth(Mount(s, a).files, Parsed(b, Tracked(b)), path, 0);
  }

  /** Two images of the writer, mounted one after the other, overrun the table exactly when they hold
      more than 128 tracked files together. */
  lemma SecondMountOverruns(a: seq<File>, b: seq<File>)
    requires Packable(a) && Packable(b)
    ensures var s0 := Mounts([], false);
            && Attempt(s0, Image(a)) == Mounted
            && Attempt(Mount(s0, Image(a)), Image(b)) ==
                 if Min(|a|, 128) + Min(|b|, 128) > 128 then Overrun else Mounted
  {
    hide Image, Parsed, Mountable, Tracked;
    ImageMounts(a);
    ImageMounts(b);
    ParsedImage(a, Min(|a|, MAX_FILES));
    ParsedImage(b, Min(|b|, MAX_FILES));
    assert [] + Parsed(Image(a), Tracked(Image(a))) == Parsed(Image(a), Tracked(Image(a)));
  }

  lemma {:induction false} ParsedGrows(img: Bytes, k: nat, n: nat)
    requires k <= n && EntryAt(n) <= |img|
    ensures EntryAt(k) <= |img| && |Parsed(img, k)| <= |Parsed(img, n)|
    ensures Parsed(img, n)[..|Parsed(img, k)|] == Parsed(img, k)
    decreases n
  {
    hide InBounds, FileAt;
    if k < n { ParsedGrows(img, k, n - 1); }
  }

  /** The table is full and one more entry is in bounds. */
  lemma NoRoom(was: seq<File>, img: Bytes, i: nat, n: nat)
    requires i < n && EntryAt(n) <= |img| && EntryAt(i) + ENTRY <= |img| && InBounds(img, i)
    requires |was + Parsed(img, i)| == MAX_FILES
    ensures |was| + |Parsed(img, n)| > MAX_FILES
    ensures (was + Parsed(img, n))[..MAX_FILES] == was + Parsed(img, i)
  {
    hide InBounds, FileAt;
    ParsedGrows(img, i, n);
    ParsedGrows(img, i + 1, n);
  }

  class Ramdisk {
    /** g_files, g_num_files and g_mounted. */
    const table: array<File>
    var count: nat
    var mounted: bool

    ghost predicate Valid()
      reads this
    {
      count <= table.Length == MAX_FILES
    }

    /** The files found so far, and whether an image has been mounted. */
    ghost function State(): (s: Mounts)
      requires Valid()
      reads this, table
      ensures |s.files| <= MAX_FILES
    {
      Mounts(table[..count], mounted)
    }

    constructor ()
      ensures Valid() && State() == Mounts([], false) && fresh(table)
    {
      table := new File[MAX_FILES](_ => File([], []));
      count, mounted := 0, false;
    }

    /** initrd_init. */
    method Init(img: Bytes) returns (r: Outcome)
      requires Valid()
      modifies this, table
      ensures Valid() && r == Attempt(old(State()), img) && State() == Mount(old(State()), img)
    {
      hide FileAt, InBounds, From32, Parsed;
      if |img| < HEADER { return Refused; }
      if From32(img, 0) != MAGIC { return Refused; }
      if From32(img, 4) != VERSION { return Refused; }
      var nf := From32(img, 8);
      if nf > MAX_FILES { nf := MAX_FILES; }
      if HEADER + nf * ENTRY > |img| { return Refused; }
      var i := 0;
      ghost var was := State().files;
      ParsedNext(was, img, 0);
      while i < nf
        invariant i <= nf && EntryAt(nf) <= |img| && EntryAt(i) <= |img|
        invariant Valid() && mounted == old(mounted) && State().files == was + Parsed(img, i)
      {
        ParsedNext(was, img, i);
        if InBounds(img, i) {
          ghost var before := State().files;
          if count == MAX_FILES {
            NoRoom(was, img, i, nf);
            return Overrun;
          }
          table[count] := FileAt(img, i);
          count := count + 1;
          assert State().files == before + [FileAt(img, i)];
        }
        i := i + 1;
      }
      mounted := true;
      return Mounted;
    }

    /** initrd_find: the index of the first file of that name. */
    method FindFile(path: Bytes) returns (found: bool, i: nat)
      requires Valid()
      ensures found == (LookUp(State(), path) < |State().files|)
      ensures found ==> i == LookUp(State(), path)
    {
      i := 0;
      if !mounted { return false, 0; }
      while i < count
        invariant i <= count && Find(State().files, path, 0) == Find(State().files, path, i)
      {
        if table[i].name == path { return true, i; }
        i := i + 1;
      }
      return false, i;
    }
  }
}
