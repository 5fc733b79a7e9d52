/** ArtTodControl: a fixed 24-byte packet naming a port and a TOD command. */
module TodControl {
  import opened Wire
  import opened Outcomes
  import OpCodes

  datatype OpTodControl = OpTodControl(net: u8, command: u8, address: u8)

  /** Magic, opcode 0x8200, version 0.14, nine spare zero bytes, then net,
      command and address at bytes 21, 22 and 23. */
  function Serialize(p: OpTodControl): (r: Bytes)
    ensures |r| == 24 && r[..12] == OpCodes.VersionedPrefix(OpCodes.OpTodControl)
    ensures r[12..21] == Zeros(9)
    ensures r[21] == p.net && r[22] == p.command && r[23] == p.address
  {
    OpCodes.VersionedPrefix(OpCodes.OpTodControl) + Zeros(9) + [p.net, p.command, p.address]
  }

  /** Reads bytes 21 to 23; anything shorter than 24 bytes is rejected. */
  function Deserialize(b: Bytes): (r: Option<OpTodControl>)
    ensures r.Some? <==> |b| >= 24
    ensures r.Some? ==> r.value.net == b[21] && r.value.command == b[22] && r.value.address == b[23]
  {
    if |b| < 24 then None else Some(OpTodControl(b[21], b[22], b[23]))
  }

  lemma RoundTrip(p: OpTodControl)
    ensures Deserialize(Serialize(p)) == Some(p)
  {
  }

  lemma ReserializeAgrees(b: Bytes)
    requires Deserialize(b).Some?
    ensures Serialize(Deserialize(b).value)[21..24] == b[21..24]
  {
  }
}
