/** Little-endian integers in byte sequences. */
module LittleEndian {
  import opened Arith

  newtype Byte = x: int | 0 <= x < 256
  type Bytes = seq<Byte>

  const LIMIT16: nat := 0x1_0000
  const LIMIT32: nat := 0x1_0000_0000

  function Zeros(n: nat): (z: Bytes)
    ensures |z| == n && forall k | 0 <= k < n :: z[k] == 0
  {
    seq(n, _ => 0)
  }

  function Byte0(v: nat): Byte { (v % 256) as Byte }

  function Le16(v: nat): (s: Bytes)
    ensures |s| == 2
  {
    [Byte0(v), Byte0(v / 256)]
  }

  function Le32(v: nat): (s: Bytes)
    ensures |s| == 4
  {
    [Byte0(v), Byte0(v / 256), Byte0(v / 65536), Byte0(v / 16777216)]
  }

  function From16(s: Bytes, at: nat): (v: nat)
    requires at + 2 <= |s|
    ensures v < LIMIT16
  {
    s[at] as nat + 256 * (s[at + 1] as nat)
  }

  function From32(s: Bytes, at: nat): (v: nat)
    requires at + 4 <= |s|
    ensures v < LIMIT32
  {
    s[at] as nat + 256 * (s[at + 1] as nat) + 65536 * (s[at + 2] as nat) + 16777216 * (s[at + 3] as nat)
  }

  /** The lowest byte comes first. */
  lemma LowestFirst()
    ensures Le16(0x0201) == [1, 2] && Le32(0x0403_0201) == [1, 2, 3, 4]
    ensures From16([1, 2], 0) == 0x0201 && From32([1, 2, 3, 4], 0) == 0x0403_0201
  {
  }

  /** What is stored is read back. */
  lemma Read16(v: nat, s: Bytes, at: nat)
    requires v < LIMIT16 && at + 2 <= |s| && s[at..at + 2] == Le16(v)
    ensures From16(s, at) == v
  {
    assert s[at] == s[at..at + 2][0] && s[at + 1] == s[at..at + 2][1];
  }

  lemma Digits(v: nat)
    requires v < LIMIT32
    ensures v % 256 + 256 * (v / 256 % 256) + 65536 * (v / 65536 % 256) + 16777216 * (v / 16777216 % 256) == v
  {
    assert v / 65536 == v / 256 / 256 && v / 16777216 == v / 65536 / 256;
  }

  lemma Read32(v: nat, s: Bytes, at: nat)
    requires v < LIMIT32 && at + 4 <= |s| && s[at..at + 4] == Le32(v)
    ensures From32(s, at) == v
  {
    forall k | 0 <= k < 4 ensures s[at + k] == Le32(v)[k] { assert s[at + k] == s[at..at + 4][k]; }
    Digits(v);
  }

  /** Bytes outside the patched window stay. */
  function Patch(s: Bytes, at: nat, p: Bytes): (r: Bytes)
    requires at + |p| <= |s|
    ensures |r| == |s| && r[at..at + |p|] == p
    ensures forall k | 0 <= k < |s| && !(at <= k < at + |p|) :: r[k] == s[k]
  {
    s[..at] + p + s[at + |p|..]
  }
}
