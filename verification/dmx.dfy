/** ArtDmx: sequence and physical bytes, a little-endian universe and a
    big-endian length, then that many bytes of DMX slot data. */
module Dmx {
  import opened Wire
  import opened Outcomes
  import OpCodes
  import Tail

  datatype OpDmx = OpDmx(sequence: u8, physical: u8, universe: u16, length: u16, data: Bytes)

  /** The length field agrees with the slot data actually carried. */
  predicate Consistent(d: OpDmx) {
    d.length as int == |d.data|
  }

  /** Magic, opcode 0x5000, version 0.14, sequence at 12, physical at 13,
      universe little-endian at 14, length big-endian at 16, then `data`
      verbatim whatever `length` says. */
  function Serialize(d: OpDmx): (r: Bytes)
    ensures |r| == 18 + |d.data|
    ensures r[..12] == OpCodes.VersionedPrefix(OpCodes.OpDmx)
    ensures r[12] == d.sequence && r[13] == d.physical
    ensures r[14..16] == LittleEndian16(d.universe) && r[16..18] == BigEndian16(d.length)
    ensures r[18..] == d.data
  {
    OpCodes.VersionedPrefix(OpCodes.OpDmx) + [d.sequence, d.physical]
      + LittleEndian16(d.universe) + BigEndian16(d.length) + d.data
  }

  /** Reads the fixed fields, then exactly `length` slot bytes from 18. */
  function Deserialize(b: Bytes): (r: Option<OpDmx>)
    ensures r.Some? <==> |b| >= 18 && |b| >= 18 + ReadBigEndian16(b, 16) as int
    ensures r.Some? ==> Consistent(r.value)
    ensures r.Some? ==> r.value.sequence == b[12] && r.value.physical == b[13]
    ensures r.Some? ==> r.value.universe == ReadLittleEndian16(b, 14)
    ensures r.Some? ==> r.value.length == ReadBigEndian16(b, 16)
    ensures r.Some? ==> r.value.data == b[18 .. 18 + r.value.length as int]
  {
    if |b| < 18 then None
    else
      var length := ReadBigEndian16(b, 16);
      match Tail.ReadTail(b, 18, length as nat)
      case None => None
      case Some(data) => Some(OpDmx(b[12], b[13], ReadLittleEndian16(b, 14), length, data))
  }

  lemma {:induction false} DecodeOfEncoding(d: OpDmx)
    ensures Deserialize(Serialize(d))
         == if d.length as int <= |d.data| then Some(d.(data := d.data[..d.length])) else None
  {
    var r := Serialize(d);
    var head := OpCodes.VersionedPrefix(OpCodes.OpDmx) + [d.sequence, d.physical]
      + LittleEndian16(d.universe) + BigEndian16(d.length);
    assert r == head + d.data;
    LittleReadAsLittle(r, 14, d.universe);
    BigReadAsBig(r, 16, d.length);
    Tail.ReadWrittenTail(head, d.data, d.length as nat);
  }

  lemma RoundTrip(d: OpDmx)
    requires Consistent(d)
    ensures Deserialize(Serialize(d)) == Some(d)
  {
    DecodeOfEncoding(d);
    assert d.data[..d.length] == d.data;
  }

  /** Bytes after the declared slot data are ignored. */
  lemma {:induction false} IgnoresTrailing(b: Bytes, extra: Bytes)
    requires Deserialize(b).Some?
    ensures Deserialize(b + extra) == Deserialize(b)
  {
    assert (b + extra)[12..18] == b[12..18];
    assert ReadLittleEndian16(b + extra, 14) == ReadLittleEndian16(b, 14);
    assert ReadBigEndian16(b + extra, 16) == ReadBigEndian16(b, 16);
    Tail.ReadTailIgnoresTrailing(b, extra, 18, ReadBigEndian16(b, 16) as nat);
  }

  /** An encoding cut one byte short of its slot data no longer decodes. */
  lemma {:induction false} TruncatedFails(d: OpDmx)
    requires Consistent(d) && |d.data| > 0
    ensures Deserialize(Serialize(d)[..|Serialize(d)| - 1]) == None
  {
    var r := Serialize(d);
    var t := r[..|r| - 1];
    assert t[16..18] == r[16..18];
    BigReadAsBig(r, 16, d.length);
    assert ReadBigEndian16(t, 16) == ReadBigEndian16(r, 16);
  }

  /** Three slots on universe 0: length 00 03 sits at bytes 16 and 17, after
      the two universe bytes, and the slots close the packet. */
  lemma ThreeSlotExample()
    ensures var r := Serialize(OpDmx(1, 0, 0, 3, [10, 20, 30]));
      |r| == 21 && r[14..16] == [0, 0] && r[16..18] == [0, 3] && r[18..] == [0x0A, 0x14, 0x1E]
  {
  }
}
