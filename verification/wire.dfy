/** Byte-level vocabulary shared by every Art-Net codec: unsigned machine
    integers, byte sequences, and the explicit little/big-endian 16-bit
    combinators that stand in for byteorder's `write_u16`/`read_u16`. */
module Wire {

  newtype u8 = x: int | 0 <= x < 0x100
  newtype u16 = x: int | 0 <= x < 0x1_0000

  type Bytes = seq<u8>
  type Bytes4 = s: Bytes | |s| == 4 witness [0, 0, 0, 0]
  type Bytes6 = s: Bytes | |s| == 6 witness [0, 0, 0, 0, 0, 0]

  /** `n` zero bytes: padding, spare fields and zero-initialised arrays. */
  function Zeros(n: nat): (r: Bytes)
    ensures |r| == n
    ensures forall i | 0 <= i < n :: r[i] == 0
  {
    seq(n, _ => 0)
  }

  function Min(a: int, b: int): int {
    if a <= b then a else b
  }

  function LowByte(v: u16): u8 {
    (v % 0x100) as u8
  }

  function HighByte(v: u16): u8 {
    (v / 0x100) as u8
  }

  /** The 16-bit value whose most significant byte is `hi`. */
  function Join(hi: u8, lo: u8): u16 {
    (hi as int * 0x100 + lo as int) as u16
  }

  /** Splitting a value into its bytes and joining them loses nothing. */
  lemma JoinBytes(v: u16)
    ensures Join(HighByte(v), LowByte(v)) == v
  {
  }

  /** Joining two bytes and splitting the result gives them back. */
  lemma SplitJoin(hi: u8, lo: u8)
    ensures HighByte(Join(hi, lo)) == hi && LowByte(Join(hi, lo)) == lo
  {
  }

  /** A window inside a stretch of `r` that holds `s` is the same window of
      `s`. */
  lemma SubSlice(r: Bytes, at: nat, s: Bytes, i: nat, j: nat)
    requires at + |s| <= |r| && r[at .. at + |s|] == s && i <= j <= |s|
    ensures r[at + i .. at + j] == s[i..j]
  {
    var window := r[at + i .. at + j];
    assert forall k | 0 <= k < j - i :: window[k] == s[i + k];
  }

  /** A byte inside a stretch of `r` that holds `s` is the byte of `s`. */
  lemma ByteAt(r: Bytes, at: nat, s: Bytes, i: nat)
    requires at + |s| <= |r| && r[at .. at + |s|] == s && i < |s|
    ensures r[at + i] == s[i]
  {
    assert r[at + i] == r[at .. at + |s|][i];
  }

  /** `read_u16::<LittleEndian>` at absolute offset `at`. */
  function ReadLittleEndian16(b: Bytes, at: nat): u16
    requires at + 2 <= |b|
  {
    (b[at + 1] as int * 0x100 + b[at] as int) as u16
  }

  /** `read_u16::<BigEndian>` at absolute offset `at`. */
  function ReadBigEndian16(b: Bytes, at: nat): u16
    requires at + 2 <= |b|
  {
    (b[at] as int * 0x100 + b[at + 1] as int) as u16
  }

  /** `write_u16::<LittleEndian>`: the least significant byte first. */
  function LittleEndian16(v: u16): (r: Bytes)
    ensures |r| == 2 && r[0] == LowByte(v) && r[1] == HighByte(v)
  {
    [LowByte(v), HighByte(v)]
  }

  /** `write_u16::<BigEndian>`: the most significant byte first. */
  function BigEndian16(v: u16): (r: Bytes)
    ensures |r| == 2 && r[0] == HighByte(v) && r[1] == LowByte(v)
  {
    [HighByte(v), LowByte(v)]
  }

  /** The 16-bit value with its two bytes exchanged. */
  function Swap16(v: u16): u16 {
    Join(LowByte(v), HighByte(v))
  }

  /** A swap undone by a second swap: byte-swapping loses nothing. */
  lemma SwapInvolutive(v: u16)
    ensures Swap16(Swap16(v)) == v
  {
    SplitJoin(LowByte(v), HighByte(v));
    JoinBytes(v);
  }

  /** A field written little-endian and read big-endian comes back swapped. */
  lemma LittleReadAsBig(b: Bytes, at: nat, v: u16)
    requires at + 2 <= |b| && b[at..at + 2] == LittleEndian16(v)
    ensures ReadBigEndian16(b, at) == Swap16(v)
  {
    assert b[at] == b[at..at + 2][0] && b[at + 1] == b[at..at + 2][1];
  }

  /** A field written and read with the same byte order comes back intact. */
  lemma LittleReadAsLittle(b: Bytes, at: nat, v: u16)
    requires at + 2 <= |b| && b[at..at + 2] == LittleEndian16(v)
    ensures ReadLittleEndian16(b, at) == v
  {
    assert b[at] == b[at..at + 2][0] && b[at + 1] == b[at..at + 2][1];
    JoinBytes(v);
  }

  lemma BigReadAsBig(b: Bytes, at: nat, v: u16)
    requires at + 2 <= |b| && b[at..at + 2] == BigEndian16(v)
    ensures ReadBigEndian16(b, at) == v
  {
    assert b[at] == b[at..at + 2][0] && b[at + 1] == b[at..at + 2][1];
    JoinBytes(v);
  }
}
