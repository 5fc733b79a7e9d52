/** ArtCommand: manufacturer code and a big-endian length, then that many
    bytes of command text. */
module Command {
  import opened Wire
  import opened Outcomes
  import OpCodes
  import Tail

  datatype OpCommand = OpCommand(estaMfg: u16, length: u16, data: Bytes)

  /** The length field agrees with the data actually carried. */
  predicate Consistent(c: OpCommand) {
    c.length as int == |c.data|
  }

  /** Magic, opcode 0x2400, version 0.14, esta_mfg and length big-endian at
      12 and 14, then `data` verbatim whatever `length` says. */
  function Serialize(c: OpCommand): (r: Bytes)
    ensures |r| == 16 + |c.data|
    ensures r[..12] == OpCodes.VersionedPrefix(OpCodes.OpCommand)
    ensures r[12..14] == BigEndian16(c.estaMfg) && r[14..16] == BigEndian16(c.length)
    ensures r[16..] == c.data
  {
    OpCodes.VersionedPrefix(OpCodes.OpCommand) + BigEndian16(c.estaMfg)
      + BigEndian16(c.length) + c.data
  }

  /** Reads esta_mfg and length, then exactly `length` data bytes from 16. */
  function Deserialize(b: Bytes): (r: Option<OpCommand>)
    ensures r.Some? <==> |b| >= 16 && |b| >= 16 + ReadBigEndian16(b, 14) as int
    ensures r.Some? ==> Consistent(r.value)
    ensures r.Some? ==> r.value.estaMfg == ReadBigEndian16(b, 12)
    ensures r.Some? ==> r.value.length == ReadBigEndian16(b, 14)
    ensures r.Some? ==> r.value.data == b[16 .. 16 + r.value.length as int]
  {
    if |b| < 16 then None
    else
      var length := ReadBigEndian16(b, 14);
      match Tail.ReadTail(b, 16, length as nat)
      case None => None
      case Some(data) => Some(OpCommand(ReadBigEndian16(b, 12), length, data))
  }

  lemma {:induction false} DecodeOfEncoding(c: OpCommand)
    ensures Deserialize(Serialize(c))
         == if c.length as int <= |c.data| then Some(c.(data := c.data[..c.length])) else None
  {
    var r := Serialize(c);
    var head := OpCodes.VersionedPrefix(OpCodes.OpCommand) + BigEndian16(c.estaMfg) + BigEndian16(c.length);
    assert r == head + c.data;
    BigReadAsBig(r, 12, c.estaMfg);
    BigReadAsBig(r, 14, c.length);
    Tail.ReadWrittenTail(head, c.data, c.length as nat);
  }

  lemma RoundTrip(c: OpCommand)
    requires Consistent(c)
    ensures Deserialize(Serialize(c)) == Some(c)
  {
    DecodeOfEncoding(c);
    assert c.data[..c.length] == c.data;
  }

  /** Bytes after the declared data are ignored. */
  lemma {:induction false} IgnoresTrailing(b: Bytes, extra: Bytes)
    requires Deserialize(b).Some?
    ensures Deserialize(b + extra) == Deserialize(b)
  {
    assert (b + extra)[12..16] == b[12..16];
    assert ReadBigEndian16(b + extra, 12) == ReadBigEndian16(b, 12);
    assert ReadBigEndian16(b + extra, 14) == ReadBigEndian16(b, 14);
    Tail.ReadTailIgnoresTrailing(b, extra, 16, ReadBigEndian16(b, 14) as nat);
  }

  /** An encoding cut one byte short of its data no longer decodes. */
  lemma {:induction false} TruncatedFails(c: OpCommand)
    requires Consistent(c) && |c.data| > 0
    ensures Deserialize(Serialize(c)[..|Serialize(c)| - 1]) == None
  {
    var r := Serialize(c);
    var t := r[..|r| - 1];
    assert t[12..16] == r[12..16];
    BigReadAsBig(r, 14, c.length);
    assert ReadBigEndian16(t, 14) == ReadBigEndian16(r, 14);
  }
}
