/** ArtPoll: a fixed 18-byte packet carrying two flag bytes. */
module Poll {
  import opened Wire
  import opened Outcomes
  import OpCodes

  datatype OpPoll = OpPoll(flags: u8, diagPriority: u8)

  /** Magic, opcode 0x2000, version 0.14, flags at 12, diag priority at 13,
      then four zero bytes. */
  function Serialize(p: OpPoll): (r: Bytes)
    ensures |r| == 18 && r[..12] == OpCodes.VersionedPrefix(OpCodes.OpPoll)
    ensures r[12] == p.flags && r[13] == p.diagPriority
    ensures r[14..] == Zeros(4)
  {
    OpCodes.VersionedPrefix(OpCodes.OpPoll) + [p.flags, p.diagPriority] + Zeros(4)
  }

  /** Reads bytes 12 and 13; anything shorter than 14 bytes is rejected. The
      header is not looked at: the envelope has checked it already. */
  function Deserialize(b: Bytes): (r: Option<OpPoll>)
    ensures r.Some? <==> |b| >= 14
    ensures r.Some? ==> r.value.flags == b[12] && r.value.diagPriority == b[13]
  {
    if |b| < 14 then None else Some(OpPoll(b[12], b[13]))
  }

  lemma RoundTrip(p: OpPoll)
    ensures Deserialize(Serialize(p)) == Some(p)
  {
  }

  /** Decoding keeps what the encoder would write at the bytes it reads. */
  lemma ReserializeAgrees(b: Bytes)
    requires Deserialize(b).Some?
    ensures Serialize(Deserialize(b).value)[12..14] == b[12..14]
  {
  }
}
