/** The opcode registry (`OpCodeValues` and its `TryFrom<u16>`) and the fixed
    prefix every encoder writes: the "Art-Net\0" magic, the little-endian
    opcode and, for most kinds, the protocol version 0.14. */
module OpCodes {
  import opened Wire
  import opened Outcomes

  datatype OpCode =
    | OpPoll | OpPollReply | OpTodRequest | OpTodData | OpTodControl
    | OpRdm | OpCommand | OpDmx | Unknown

  /** The discriminant of each variant (`OpCodeValues as u16`). */
  function Value(op: OpCode): u16 {
    match op
    case OpPoll => 0x2000
    case OpPollReply => 0x2100
    case OpTodRequest => 0x8000
    case OpTodData => 0x8100
    case OpTodControl => 0x8200
    case OpRdm => 0x8300
    case OpCommand => 0x2400
    case OpDmx => 0x5000
    case Unknown => 0
  }

  /** `OpCodeValues::try_from`: the variant whose discriminant is `v`, or
      `None` (the source's `Err(())`) when no variant has it. */
  function TryFrom(v: u16): (r: Option<OpCode>)
    ensures r.Some? ==> Value(r.value) == v
    ensures r.None? ==> forall op: OpCode :: Value(op) != v
  {
    if v == 0x2000 then Some(OpPoll)
    else if v == 0x2100 then Some(OpPollReply)
    else if v == 0x8000 then Some(OpTodRequest)
    else if v == 0x8100 then Some(OpTodData)
    else if v == 0x8200 then Some(OpTodControl)
    else if v == 0x8300 then Some(OpRdm)
    else if v == 0x2400 then Some(OpCommand)
    else if v == 0x5000 then Some(OpDmx)
    else if v == 0 then Some(Unknown)
    else None
  }

  /** Every variant is recovered from its own discriminant. */
  lemma TryFromValue(op: OpCode)
    ensures TryFrom(Value(op)) == Some(op)
  {
  }

  /** The registry recognises exactly the nine discriminants. */
  lemma TryFromRecognises(v: u16)
    ensures TryFrom(v).Some? <==> v in {0x2000, 0x2100, 0x8000, 0x8100, 0x8200, 0x8300, 0x2400, 0x5000, 0}
  {
  }

  /** "Art-Net" followed by a zero byte. */
  const HEADER: Bytes := [65, 114, 116, 45, 78, 101, 116, 0]

  /** The magic and the little-endian opcode: the first ten bytes of every
      encoding. */
  function Prefix(op: OpCode): (r: Bytes)
    ensures |r| == 10 && r[..8] == HEADER && r[8..] == LittleEndian16(Value(op))
  {
    HEADER + LittleEndian16(Value(op))
  }

  /** `Prefix(op)` followed by ProtVerHi = 0 and ProtVerLo = 14. */
  function VersionedPrefix(op: OpCode): (r: Bytes)
    ensures |r| == 12 && r[..10] == Prefix(op) && r[..8] == HEADER
    ensures r[8..10] == LittleEndian16(Value(op)) && r[10] == 0 && r[11] == 14
  {
    Prefix(op) + [0, 14]
  }
  /** A buffer that begins with either prefix begins with the magic and the
      opcode written little-endian. */
  lemma StartsWithPrefix(r: Bytes, op: OpCode)
    requires |r| >= 10
    requires r[..10] == Prefix(op) || (|r| >= 12 && r[..12] == VersionedPrefix(op))
    ensures r[..8] == HEADER && r[8..10] == LittleEndian16(Value(op))
  {
    if |r| >= 12 && r[..12] == VersionedPrefix(op) {
      assert r[..10] == r[..12][..10];
    }
    assert r[..8] == r[..10][..8] && r[8..10] == r[..10][8..];
  }

}
