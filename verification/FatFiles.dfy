/** File contents on cluster chains (kernel/fat32.c): what the write and read loops do to the
    clusters, and that reading gives back what was written. */
module FatFiles {
  import opened Arith
  import opened LittleEndian
  import opened FatModel

  /** One cluster of the file: its bytes from off on, padded with zeros. */
  function Chunk(buf: Bytes, off: nat, cb: nat): (r: Bytes)
    ensures |r| == cb && forall k | 0 <= k < cb :: r[k] == if off + k < |buf| then buf[off + k] else 0
  {
    seq(cb, k requires 0 <= k < cb => if off + k < |buf| then buf[off + k] else 0)
  }

  ghost predicate Shape(fat: Fat, data: seq<Bytes>, cb: nat)
  {
    |fat| <= EOC && |data| == |fat| && cb > 0 && forall c: nat | 2 <= c < |data| :: |data[c]| == cb
  }

  /** Cluster c replaced. */
  function Put(data: seq<Bytes>, c: nat, x: Bytes): (r: seq<Bytes>)
    requires c < |data|
    ensures |r| == |data| && forall d: nat | d < |data| :: r[d] == if d == c then x else data[d]
  {
    data[c := x]
  }

  /** The clusters that hold the next `left` bytes from c on lie on the volume. */
  ghost predicate Follow(fat: Fat, c: nat, left: nat, cb: nat)
    requires cb > 0
    decreases left
  {
    left > 0 && IsCluster(c) ==> c < |fat| && Follow(fat, fat[c], left - Min(cb, left), cb)
  }

  /** The write loop from cluster c and file offset off on. */
  function WriteFrom(fat: Fat, data: seq<Bytes>, c: nat, buf: Bytes, off: nat, cb: nat): (r: seq<Bytes>)
    requires Shape(fat, data, cb) && off <= |buf| && Follow(fat, c, |buf| - off, cb)
    ensures Shape(fat, r, cb)
    decreases |buf| - off
  {
    if !IsCluster(c) || off == |buf| then data
    else WriteFrom(fat, Put(data, c, Chunk(buf, off, cb)), fat[c], buf, off + Min(cb, |buf| - off), cb)
  }

  /** How far that loop gets. */
  function Written(fat: Fat, c: nat, size: nat, off: nat, cb: nat): (w: nat)
    requires cb > 0 && off <= size && Follow(fat, c, size - off, cb)
    ensures off <= w <= size
    decreases size - off
  {
    if !IsCluster(c) || off == size then off
    else Written(fat, fat[c], size, off + Min(cb, size - off), cb)
  }

  /** The read loop for the next `max` bytes from cluster c on. */
  function ReadFrom(fat: Fat, data: seq<Bytes>, c: nat, max: nat, cb: nat): (r: Bytes)
    requires Shape(fat, data, cb) && Follow(fat, c, max, cb)
    ensures |r| <= max
    decreases max
  {
    if !IsCluster(c) || max == 0 then []
    else data[c][..Min(cb, max)] + ReadFrom(fat, data, fat[c], max - Min(cb, max), cb)
  }

  // ----- Along a chain -----

  /** The bytes the chain holds from its k-th cluster on. */
  function Room(ch: seq<nat>, k: nat, cb: nat): nat
    requires k <= |ch|
  {
    (|ch| - k) * cb
  }

  lemma RoomNext(ch: seq<nat>, k: nat, cb: nat)
    requires k < |ch|
    ensures Room(ch, k, cb) == cb + Room(ch, k + 1, cb)
    ensures Room(ch, |ch|, cb) == 0
  {
    assert (|ch| - k) * cb == (|ch| - (k + 1)) * cb + cb;
  }

  /** Where the chain goes from its k-th cluster. */
  lemma ChainHere(fat: Fat, ch: seq<nat>, k: nat)
    requires IsChain(fat, ch) && |fat| <= EOC && k < |ch|
    ensures IsCluster(ch[k]) && ch[k] < |fat|
    ensures k + 1 < |ch| ==> fat[ch[k]] == ch[k + 1]
    ensures k + 1 == |ch| ==> !IsCluster(fat[ch[k]])
  {
    assert LinkAt(fat, ch, k);
  }

  /** A chain never leaves the volume, however many bytes are asked for. */
  lemma {:induction false} ChainFollows(fat: Fat, ch: seq<nat>, k: nat, left: nat, cb: nat)
    requires IsChain(fat, ch) && |fat| <= EOC && k < |ch| && cb > 0
    ensures ch[k] < |fat| && Follow(fat, ch[k], left, cb)
    decreases left
  {
    ChainHere(fat, ch, k);
    if left > 0 && k + 1 < |ch| { ChainFollows(fat, ch, k + 1, left - Min(cb, left), cb); }
  }

  /** Writing touches only the chain's clusters. */
  lemma {:induction false} WriteKeeps(fat: Fat, data: seq<Bytes>, ch: seq<nat>, k: nat, buf: Bytes, off: nat, cb: nat,
                                      d: nat)
    requires Shape(fat, data, cb) && IsChain(fat, ch) && k < |ch| && off <= |buf|
    requires d < |data| && forall i: nat | k <= i < |ch| :: ch[i] != d
    ensures Follow(fat, ch[k], |buf| - off, cb) && WriteFrom(fat, data, ch[k], buf, off, cb)[d] == data[d]
    decreases |buf| - off
  {
    ChainFollows(fat, ch, k, |buf| - off, cb);
    ChainHere(fat, ch, k);
    if off < |buf| && k + 1 < |ch| {
      ChainHere(fat, ch, k + 1);
      WriteKeeps(fat, Put(data, ch[k], Chunk(buf, off, cb)), ch, k + 1, buf, off + Min(cb, |buf| - off), cb, d);
    }
  }

  lemma ChunkBytes(buf: Bytes, off: nat, cb: nat, b: nat)
    requires b < cb
    ensures Chunk(buf, off, cb)[b] == if off + b < |buf| then buf[off + b] else 0
  {
  }

  /** The bytes in n clusters. */
  function Extent(n: nat, cb: nat): nat { n * cb }

  lemma ExtentNext(n: nat, cb: nat)
    ensures Extent(0, cb) == 0 && Extent(n + 1, cb) == Extent(n, cb) + cb
  {
    assert (n + 1) * cb == n * cb + cb;
  }

  /** One cluster is written, then the rest. */
  lemma WriteNext(fat: Fat, data: seq<Bytes>, ch: seq<nat>, k: nat, buf: Bytes, off: nat, cb: nat)
    requires Shape(fat, data, cb) && IsChain(fat, ch) && k < |ch| && off < |buf|
    ensures Follow(fat, ch[k], |buf| - off, cb) && ch[k] < |data|
    ensures var data', off' := Put(data, ch[k], Chunk(buf, off, cb)), off + Min(cb, |buf| - off);
            && Shape(fat, data', cb)
            && (k + 1 == |ch| ==> WriteFrom(fat, data, ch[k], buf, off, cb) == data')
            && (k + 1 < |ch| ==>
                  && Follow(fat, ch[k + 1], |buf| - off', cb)
                  && WriteFrom(fat, data, ch[k], buf, off, cb) == WriteFrom(fat, data', ch[k + 1], buf, off', cb))
  {
    hide IsChain;
    ChainHere(fat, ch, k);
    ChainFollows(fat, ch, k, |buf| - off, cb);
    if k + 1 < |ch| { ChainFollows(fat, ch, k + 1, |buf| - off - Min(cb, |buf| - off), cb); }
  }

  /** The clusters that are written, byte by byte: the buffer in order, then zeros up to the cluster's end. */
  lemma {:induction false} WrittenBytes(fat: Fat, data: seq<Bytes>, ch: seq<nat>, k: nat, buf: Bytes, off: nat, cb: nat,
                                        n: nat, b: nat)
    requires Shape(fat, data, cb) && IsChain(fat, ch) && k + n < |ch| && off + Extent(n, cb) < |buf| && b < cb
    ensures Follow(fat, ch[k], |buf| - off, cb) && ch[k + n] < |data|
    ensures var d, at := WriteFrom(fat, data, ch[k], buf, off, cb)[ch[k + n]], off + Extent(n, cb) + b;
            |d| == cb && d[b] == if at < |buf| then buf[at] else 0
    decreases n
  {
    hide Extent, WriteFrom, Follow, Chunk;
    WriteNext(fat, data, ch, k, buf, off, cb);
    ChainHere(fat, ch, k + n);
    ExtentNext(if n == 0 then 0 else n - 1, cb);
    var data' := Put(data, ch[k], Chunk(buf, off, cb));
    if n == 0 {
      if k + 1 < |ch| { WriteKeeps(fat, data', ch, k + 1, buf, off + Min(cb, |buf| - off), cb, ch[k]); }
      ChunkBytes(buf, off, cb, b);
    } else {
      WrittenBytes(fat, data', ch, k + 1, buf, off + cb, cb, n - 1, b);
    }
  }

  /** On a chain with enough room the whole buffer is written. */
  lemma {:induction false} WritesAll(fat: Fat, ch: seq<nat>, k: nat, size: nat, off: nat, cb: nat)
    requires |fat| <= EOC && IsChain(fat, ch) && k < |ch| && off <= size && cb > 0
    ensures Follow(fat, ch[k], size - off, cb)
    ensures Written(fat, ch[k], size, off, cb) == off + Min(size - off, Room(ch, k, cb))
    decreases size - off
  {
    ChainHere(fat, ch, k);
    ChainFollows(fat, ch, k, size - off, cb);
    RoomNext(ch, k, cb);
    if off < size && k + 1 < |ch| {
      ChainHere(fat, ch, k + 1);
      hide Room;
      WritesAll(fat, ch, k + 1, size, off + Min(cb, size - off), cb);
    }
  }

  /** Reading back what was written: zero padding is cut off, nothing else is lost. */
  lemma {:induction false} ReadBack(fat: Fat, data: seq<Bytes>, ch: seq<nat>, k: nat, buf: Bytes, off: nat, cb: nat)
    requires Shape(fat, data, cb) && IsChain(fat, ch) && k < |ch| && off <= |buf|
    requires |buf| - off <= Room(ch, k, cb)
    ensures Follow(fat, ch[k], |buf| - off, cb)
    ensures ReadFrom(fat, WriteFrom(fat, data, ch[k], buf, off, cb), ch[k], |buf| - off, cb) == buf[off..]
    decreases |buf| - off
  {
    ChainHere(fat, ch, k);
    ChainFollows(fat, ch, k, |buf| - off, cb);
    RoomNext(ch, k, cb);
    hide Room;
    if off < |buf| {
      var n, data' := Min(cb, |buf| - off), Put(data, ch[k], Chunk(buf, off, cb));
      assert Chunk(buf, off, cb)[..n] == buf[off..off + n];
      if off + n < |buf| {
        ChainHere(fat, ch, k + 1);
        WriteKeeps(fat, data', ch, k + 1, buf, off + n, cb, ch[k]);
        ReadBack(fat, data', ch, k + 1, buf, off + n, cb);
      }
      assert buf[off..] == buf[off..off + n] + buf[off + n..];
    }
  }

  /** Reading gives as many bytes as are asked for, up to what the chain holds. */
  lemma {:induction false} ReadLength(fat: Fat, data: seq<Bytes>, ch: seq<nat>, k: nat, max: nat, cb: nat)
    requires Shape(fat, data, cb) && IsChain(fat, ch) && k < |ch|
    ensures Follow(fat, ch[k], max, cb) && |ReadFrom(fat, data, ch[k], max, cb)| == Min(max, Room(ch, k, cb))
    decreases max
  {
    ChainHere(fat, ch, k);
    ChainFollows(fat, ch, k, max, cb);
    RoomNext(ch, k, cb);
    if max > 0 && k + 1 < |ch| {
      ChainHere(fat, ch, k + 1);
      hide Room;
      ReadLength(fat, data, ch, k + 1, max - Min(cb, max), cb);
    }
  }

  /** Reading depends only on the chain's clusters. */
  lemma {:induction false} ReadSame(fat: Fat, data: seq<Bytes>, fat': Fat, data': seq<Bytes>, ch: seq<nat>, k: nat,
                                    max: nat, cb: nat)
    requires Shape(fat, data, cb) && Shape(fat', data', cb) && |fat'| == |fat|
    requires IsChain(fat, ch) && IsChain(fat', ch) && k < |ch|
    requires forall i: nat | k <= i < |ch| :: ch[i] < |data| && data'[ch[i]] == data[ch[i]]
    ensures Follow(fat, ch[k], max, cb) && Follow(fat', ch[k], max, cb)
    ensures ReadFrom(fat', data', ch[k], max, cb) == ReadFrom(fat, data, ch[k], max, cb)
    decreases max
  {
    ChainFollows(fat, ch, k, max, cb);
    ChainFollows(fat', ch, k, max, cb);
    ChainHere(fat, ch, k);
    ChainHere(fat', ch, k);
    if max > 0 && k + 1 < |ch| {
      ChainHere(fat, ch, k + 1);
      ReadSame(fat, data, fat', data', ch, k + 1, max - Min(cb, max), cb);
    }
  }

  // ----- Cleared clusters -----

  function ClearRun(data: seq<Bytes>, s: nat, n: nat, cb: nat): (r: seq<Bytes>)
    requires s + n <= |data|
    ensures |r| == |data| && forall d: nat | d < |data| :: r[d] == if s <= d < s + n then Zeros(cb) else data[d]
  {
    if n == 0 then data else Put(ClearRun(data, s, n - 1, cb), s + n - 1, Zeros(cb))
  }

  /** Cleared clusters read as zeros. */
  lemma {:induction false} ReadZeros(fat: Fat, data: seq<Bytes>, ch: seq<nat>, k: nat, max: nat, cb: nat)
    requires Shape(fat, data, cb) && IsChain(fat, ch) && k < |ch| && max <= Room(ch, k, cb)
    requires forall i: nat | k <= i < |ch| :: ch[i] < |data| && data[ch[i]] == Zeros(cb)
    ensures Follow(fat, ch[k], max, cb) && ReadFrom(fat, data, ch[k], max, cb) == Zeros(max)
    decreases max
  {
    ChainFollows(fat, ch, k, max, cb);
    ChainHere(fat, ch, k);
    RoomNext(ch, k, cb);
    hide Room;
    if max > cb {
      ChainHere(fat, ch, k + 1);
      ReadZeros(fat, data, ch, k + 1, max - cb, cb);
    }
  }
}
