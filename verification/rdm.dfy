/** ArtRdm: a fixed 24-byte head followed by the RDM message, which runs to
    the end of the buffer. The decoder reads every field one byte earlier
    than the encoder writes it. */
module Rdm {
  import opened Wire
  import opened Outcomes
  import OpCodes

  datatype OpRdm = OpRdm(rdmVer: u8, net: u8, command: u8, address: u8, rdmPacket: Bytes)

  /** Magic, opcode 0x8300, version 0.14, rdm_ver at 12, eight spare zero
      bytes, net, command and address at 21 to 23, then the RDM message. */
  function Serialize(p: OpRdm): (r: Bytes)
    ensures |r| == 24 + |p.rdmPacket|
    ensures r[..12] == OpCodes.VersionedPrefix(OpCodes.OpRdm)
    ensures r[12] == p.rdmVer && r[13..21] == Zeros(8)
    ensures r[21] == p.net && r[22] == p.command && r[23] == p.address
    ensures r[24..] == p.rdmPacket
  {
    OpCodes.VersionedPrefix(OpCodes.OpRdm) + [p.rdmVer] + Zeros(8)
      + [p.net, p.command, p.address] + p.rdmPacket
  }

  /** Rejects anything shorter than 24 bytes; otherwise takes rdm_ver from
      byte 11, net, command and address from bytes 20 to 22, and the message
      from byte 23 to the end. */
  function Deserialize(b: Bytes): (r: Option<OpRdm>)
    ensures r.Some? <==> |b| >= 24
    ensures r.Some? ==> r.value.rdmVer == b[11] && r.value.net == b[20]
    ensures r.Some? ==> r.value.command == b[21] && r.value.address == b[22]
    ensures r.Some? ==> r.value.rdmPacket == b[23..] && |r.value.rdmPacket| >= 1
  {
    if |b| < 24 then None else Some(OpRdm(b[11], b[20], b[21], b[22], b[23..]))
  }

  /** What decoding an encoding yields: the version byte 14, the zero spare
      byte as net, every other field one place along, and the address glued
      in front of the message. */
  function Shifted(p: OpRdm): OpRdm {
    OpRdm(14, 0, p.net, p.command, [p.address] + p.rdmPacket)
  }

  lemma ShiftedRoundTrip(p: OpRdm)
    ensures Deserialize(Serialize(p)) == Some(Shifted(p))
  {
    var r := Serialize(p);
    assert r[23..] == [p.address] + p.rdmPacket;
  }

  /** No packet survives an encode-decode round trip: the message always
      comes back one byte longer. */
  lemma NeverRoundTrips(p: OpRdm)
    ensures Deserialize(Serialize(p)) != Some(p)
  {
    ShiftedRoundTrip(p);
    assert |Shifted(p).rdmPacket| != |p.rdmPacket|;
  }
}
