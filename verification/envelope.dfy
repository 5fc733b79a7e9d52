/** The packet envelope `ArtPkt`: one variant per packet kind plus
    `Unknown`, with encoding and decoding dispatched to the kind's codec. */
module Envelope {
  import opened Wire
  import opened Outcomes
  import OpCodes
  import Poll
  import PollReply
  import TodRequest
  import TodData
  import TodControl
  import Rdm
  import Command
  import Dmx

  datatype ArtPkt =
    | OpPoll(poll: Poll.OpPoll)
    | OpPollReply(pollReply: PollReply.OpPollReply)
    | OpTodRequest(todRequest: TodRequest.OpTodRequest)
    | OpTodData(todData: TodData.OpTodData)
    | OpTodControl(todControl: TodControl.OpTodControl)
    | OpRdm(rdm: Rdm.OpRdm)
    | OpCommand(command: Command.OpCommand)
    | OpDmx(dmx: Dmx.OpDmx)
    | Unknown(text: string)

  /** The opcode that names each variant. */
  function Kind(p: ArtPkt): OpCodes.OpCode {
    match p
    case OpPoll(_) => OpCodes.OpPoll
    case OpPollReply(_) => OpCodes.OpPollReply
    case OpTodRequest(_) => OpCodes.OpTodRequest
    case OpTodData(_) => OpCodes.OpTodData
    case OpTodControl(_) => OpCodes.OpTodControl
    case OpRdm(_) => OpCodes.OpRdm
    case OpCommand(_) => OpCodes.OpCommand
    case OpDmx(_) => OpCodes.OpDmx
    case Unknown(_) => OpCodes.Unknown
  }

  /** The opcode a variant's encoder actually writes: its own, except that
      ArtTodData is written with the opcode of ArtTodRequest. */
  function WireKind(p: ArtPkt): OpCodes.OpCode {
    if p.OpTodData? then OpCodes.OpTodRequest else Kind(p)
  }

  /** Dispatch to the variant's encoder; `Unknown` encodes to nothing, and
      every other variant to at least the twelve header bytes (the header
      itself is `EncodingDispatch`). */
  function Serialize(p: ArtPkt): (r: Bytes)
    ensures p.Unknown? <==> r == []
    ensures !p.Unknown? ==> |r| >= 12
  {
    match p
    case OpPoll(x) => Poll.Serialize(x)
    case OpPollReply(x) => PollReply.Serialize(x)
    case OpTodRequest(x) => TodRequest.Serialize(x)
    case OpTodData(x) => TodData.Serialize(x)
    case OpTodControl(x) => TodControl.Serialize(x)
    case OpRdm(x) => Rdm.Serialize(x)
    case OpCommand(x) => Command.Serialize(x)
    case OpDmx(x) => Dmx.Serialize(x)
    case Unknown(_) => []
  }

  /** The magic check: at least 12 bytes, starting with "Art-Net\0". */
  predicate HasHeader(b: Bytes) {
    |b| >= 12 && b[..8] == OpCodes.HEADER
  }

  /** The opcode of a buffer that passed the magic check. */
  function OpCodeOf(b: Bytes): u16
    requires HasHeader(b)
  {
    ReadLittleEndian16(b, 8)
  }

  /** Wraps a codec's `Option` result in the envelope. */
  function Wrap<T>(o: Option<T>, variant: T -> ArtPkt): Outcome<ArtPkt> {
    match o
    case None => Returned(None)
    case Some(x) => Returned(Some(variant(x)))
  }

  /** Carries a panic-aware codec's outcome into the envelope. */
  function WrapOutcome<T>(o: Outcome<T>, variant: T -> ArtPkt): Outcome<ArtPkt> {
    match o
    case Panicked(site) => Panicked(site)
    case Returned(r) => Wrap(r, variant)
  }

  /** `ArtPkt::deserialize`: rejects short buffers, a wrong magic, and any
      opcode other than the eight packet kinds (the registry's `Unknown`
      included), then hands the whole buffer to the kind's decoder. */
  function Deserialize(b: Bytes): (r: Outcome<ArtPkt>)
    ensures !HasHeader(b) ==> r == Returned(None)
    ensures HasHeader(b) && OpCodes.TryFrom(OpCodeOf(b)) in {Outcomes.None, Some(OpCodes.Unknown)} ==>
      r == Returned(None)
    ensures r.Returned? && r.result.Some? ==>
      HasHeader(b) && !r.result.value.Unknown?
      && OpCodes.TryFrom(OpCodeOf(b)) == Some(Kind(r.result.value))
    ensures r.Panicked? ==>
      HasHeader(b) && OpCodes.TryFrom(OpCodeOf(b)) in {Some(OpCodes.OpPollReply), Some(OpCodes.OpTodRequest)}
  {
    if |b| < 12 then Returned(None)
    else if b[..8] != OpCodes.HEADER then Returned(None)
    else match OpCodes.TryFrom(OpCodeOf(b))
      case Some(OpPoll) => Wrap(Poll.Deserialize(b), x => OpPoll(x))
      case Some(OpPollReply) => WrapOutcome(PollReply.Deserialize(b), x => OpPollReply(x))
      case Some(OpTodRequest) => WrapOutcome(TodRequest.Deserialize(b), x => OpTodRequest(x))
      case Some(OpTodData) => Wrap(TodData.Deserialize(b), x => OpTodData(x))
      case Some(OpTodControl) => Wrap(TodControl.Deserialize(b), x => OpTodControl(x))
      case Some(OpRdm) => Wrap(Rdm.Deserialize(b), x => OpRdm(x))
      case Some(OpCommand) => Wrap(Command.Deserialize(b), x => OpCommand(x))
      case Some(OpDmx) => Wrap(Dmx.Deserialize(b), x => OpDmx(x))
      case Some(Unknown) => Returned(None)
      case None => Returned(None)
  }

  // The decoder's dispatch, one kind at a time.

  lemma DispatchPoll(b: Bytes)
    requires HasHeader(b) && OpCodes.TryFrom(OpCodeOf(b)) == Some(OpCodes.OpPoll)
    ensures Deserialize(b) == Wrap(Poll.Deserialize(b), x => OpPoll(x))
  {
  }

  lemma DispatchPollReply(b: Bytes)
    requires HasHeader(b) && OpCodes.TryFrom(OpCodeOf(b)) == Some(OpCodes.OpPollReply)
    ensures Deserialize(b) == WrapOutcome(PollReply.Deserialize(b), x => OpPollReply(x))
  {
  }

  lemma DispatchTodRequest(b: Bytes)
    requires HasHeader(b) && OpCodes.TryFrom(OpCodeOf(b)) == Some(OpCodes.OpTodRequest)
    ensures Deserialize(b) == WrapOutcome(TodRequest.Deserialize(b), x => OpTodRequest(x))
  {
  }

  lemma DispatchTodData(b: Bytes)
    requires HasHeader(b) && OpCodes.TryFrom(OpCodeOf(b)) == Some(OpCodes.OpTodData)
    ensures Deserialize(b) == Wrap(TodData.Deserialize(b), x => OpTodData(x))
  {
  }

  lemma DispatchTodControl(b: Bytes)
    requires HasHeader(b) && OpCodes.TryFrom(OpCodeOf(b)) == Some(OpCodes.OpTodControl)
    ensures Deserialize(b) == Wrap(TodControl.Deserialize(b), x => OpTodControl(x))
  {
  }

  lemma DispatchRdm(b: Bytes)
    requires HasHeader(b) && OpCodes.TryFrom(OpCodeOf(b)) == Some(OpCodes.OpRdm)
    ensures Deserialize(b) == Wrap(Rdm.Deserialize(b), x => OpRdm(x))
  {
  }

  lemma DispatchCommand(b: Bytes)
    requires HasHeader(b) && OpCodes.TryFrom(OpCodeOf(b)) == Some(OpCodes.OpCommand)
    ensures Deserialize(b) == Wrap(Command.Deserialize(b), x => OpCommand(x))
  {
  }

  lemma DispatchDmx(b: Bytes)
    requires HasHeader(b) && OpCodes.TryFrom(OpCodeOf(b)) == Some(OpCodes.OpDmx)
    ensures Deserialize(b) == Wrap(Dmx.Deserialize(b), x => OpDmx(x))
  {
  }

  /** A buffer that begins with the prefix of `op` passes the magic check
      and carries the opcode of `op`. */
  lemma PrefixedHeader(r: Bytes, op: OpCodes.OpCode)
    requires |r| >= 12
    requires r[..10] == OpCodes.Prefix(op) || r[..12] == OpCodes.VersionedPrefix(op)
    ensures HasHeader(r) && r[8..10] == LittleEndian16(OpCodes.Value(op))
    ensures OpCodeOf(r) == OpCodes.Value(op) && OpCodes.TryFrom(OpCodeOf(r)) == Some(op)
  {
    OpCodes.StartsWithPrefix(r, op);
    LittleReadAsLittle(r, 8, OpCodes.Value(op));
    OpCodes.TryFromValue(op);
  }

  /** The header of an encoded ArtPollReply, on its own: the reply's
      encoding is the largest, and this keeps it out of the other cases. */
  lemma PollReplyHeader(x: PollReply.OpPollReply)
    ensures HasHeader(Serialize(OpPollReply(x)))
    ensures Serialize(OpPollReply(x))[8..10] == LittleEndian16(OpCodes.Value(OpCodes.OpPollReply))
    ensures OpCodeOf(Serialize(OpPollReply(x))) == OpCodes.Value(OpCodes.OpPollReply)
    ensures OpCodes.TryFrom(OpCodeOf(Serialize(OpPollReply(x)))) == Some(OpCodes.OpPollReply)
  {
    PrefixedHeader(PollReply.Serialize(x), OpCodes.OpPollReply);
  }

  /** Every encoding passes the magic check and is dispatched by the decoder
      to the kind its opcode names: its own kind, except for ArtTodData. */
  lemma EncodingDispatch(p: ArtPkt)
    requires !p.Unknown?
    ensures HasHeader(Serialize(p))
    ensures Serialize(p)[8..10] == LittleEndian16(OpCodes.Value(WireKind(p)))
    ensures OpCodeOf(Serialize(p)) == OpCodes.Value(WireKind(p))
    ensures OpCodes.TryFrom(OpCodeOf(Serialize(p))) == Some(WireKind(p))
  {
    match p
    case OpPoll(x) => assert Serialize(p) == Poll.Serialize(x); PrefixedHeader(Serialize(p), OpCodes.OpPoll);
    case OpPollReply(x) => PollReplyHeader(x);
    case OpTodRequest(x) => assert Serialize(p) == TodRequest.Serialize(x); PrefixedHeader(Serialize(p), OpCodes.OpTodRequest);
    case OpTodData(x) => assert Serialize(p) == TodData.Serialize(x); PrefixedHeader(Serialize(p), OpCodes.OpTodRequest);
    case OpTodControl(x) => assert Serialize(p) == TodControl.Serialize(x); PrefixedHeader(Serialize(p), OpCodes.OpTodControl);
    case OpRdm(x) => assert Serialize(p) == Rdm.Serialize(x); PrefixedHeader(Serialize(p), OpCodes.OpRdm);
    case OpCommand(x) => assert Serialize(p) == Command.Serialize(x); PrefixedHeader(Serialize(p), OpCodes.OpCommand);
    case OpDmx(x) => assert Serialize(p) == Dmx.Serialize(x); PrefixedHeader(Serialize(p), OpCodes.OpDmx);
  }

  /** The variants whose decoder exactly inverts their encoder. */
  predicate RoundTrips(p: ArtPkt) {
    match p
    case OpPoll(_) => true
    case OpTodControl(_) => true
    case OpCommand(c) => Command.Consistent(c)
    case OpDmx(d) => Dmx.Consistent(d)
    case OpTodRequest(t) =>
      t.addCount <= 32 && forall j | t.addCount as int <= j < 32 :: t.address[j] == 0
    case _ => false
  }

  /** ArtPoll and ArtTodControl always round-trip through the envelope;
      ArtCommand and ArtDmx when their length field matches their data;
      ArtTodRequest when its count fits the array and the entries past it are
      zero. */
  lemma {:induction false} RoundTrip(p: ArtPkt)
    requires RoundTrips(p)
    ensures Deserialize(Serialize(p)) == Returned(Some(p))
  {
    match p
    case OpPoll(x) => PollRoundTrip(x);
    case OpTodControl(x) => TodControlRoundTrip(x);
    case OpCommand(x) => CommandRoundTrip(x);
    case OpDmx(x) => DmxRoundTrip(x);
    case OpTodRequest(x) => TodRequestRoundTrip(x);
  }

  lemma PollRoundTrip(x: Poll.OpPoll)
    ensures Deserialize(Serialize(OpPoll(x))) == Returned(Some(OpPoll(x)))
  {
    var b := Serialize(OpPoll(x));
    assert Poll.Deserialize(b) == Some(x) by { Poll.RoundTrip(x); }
    assert OpCodes.TryFrom(OpCodeOf(b)) == Some(OpCodes.OpPoll) by { EncodingDispatch(OpPoll(x)); }
    DispatchPoll(b);
  }

  lemma TodControlRoundTrip(x: TodControl.OpTodControl)
    ensures Deserialize(Serialize(OpTodControl(x))) == Returned(Some(OpTodControl(x)))
  {
    var b := Serialize(OpTodControl(x));
    assert TodControl.Deserialize(b) == Some(x) by { TodControl.RoundTrip(x); }
    assert OpCodes.TryFrom(OpCodeOf(b)) == Some(OpCodes.OpTodControl) by { EncodingDispatch(OpTodControl(x)); }
    DispatchTodControl(b);
  }

  lemma CommandRoundTrip(x: Command.OpCommand)
    requires Command.Consistent(x)
    ensures Deserialize(Serialize(OpCommand(x))) == Returned(Some(OpCommand(x)))
  {
    var b := Serialize(OpCommand(x));
    assert Command.Deserialize(b) == Some(x) by { Command.RoundTrip(x); }
    assert OpCodes.TryFrom(OpCodeOf(b)) == Some(OpCodes.OpCommand) by { EncodingDispatch(OpCommand(x)); }
    DispatchCommand(b);
  }

  lemma DmxRoundTrip(x: Dmx.OpDmx)
    requires Dmx.Consistent(x)
    ensures Deserialize(Serialize(OpDmx(x))) == Returned(Some(OpDmx(x)))
  {
    var b := Serialize(OpDmx(x));
    assert Dmx.Deserialize(b) == Some(x) by { Dmx.RoundTrip(x); }
    assert OpCodes.TryFrom(OpCodeOf(b)) == Some(OpCodes.OpDmx) by { EncodingDispatch(OpDmx(x)); }
    DispatchDmx(b);
  }

  lemma TodRequestRoundTrip(x: TodRequest.OpTodRequest)
    requires x.addCount <= 32 && forall j | x.addCount as int <= j < 32 :: x.address[j] == 0
    ensures Deserialize(Serialize(OpTodRequest(x))) == Returned(Some(OpTodRequest(x)))
  {
    var b := Serialize(OpTodRequest(x));
    assert TodRequest.Deserialize(b) == Returned(Some(x)) by { TodRequest.RoundTrip(x); }
    assert OpCodes.TryFrom(OpCodeOf(b)) == Some(OpCodes.OpTodRequest) by { EncodingDispatch(OpTodRequest(x)); }
    DispatchTodRequest(b);
  }

  /** An encoded ArtRdm comes back with its fields shifted one byte. */
  lemma {:induction false} RdmComesBackShifted(x: Rdm.OpRdm)
    ensures Deserialize(Serialize(OpRdm(x))) == Returned(Some(OpRdm(Rdm.Shifted(x))))
    ensures Deserialize(Serialize(OpRdm(x))) != Returned(Some(OpRdm(x)))
  {
    var b := Serialize(OpRdm(x));
    assert Rdm.Deserialize(b) == Some(Rdm.Shifted(x)) by { Rdm.ShiftedRoundTrip(x); }
    assert OpCodes.TryFrom(OpCodeOf(b)) == Some(OpCodes.OpRdm) by { EncodingDispatch(OpRdm(x)); }
    DispatchRdm(b);
    Rdm.NeverRoundTrips(x);
  }

  /** An encoded ArtPollReply comes back reflected, or panics on the
      universe-switch overflow. */
  lemma {:induction false} PollReplyComesBackReflected(x: PollReply.OpPollReply)
    ensures Deserialize(Serialize(OpPollReply(x)))
         == if PollReply.SwitchFits(x.universeSwitch)
            then Returned(Some(OpPollReply(PollReply.Reflected(x))))
            else Panicked(UniverseSwitchOverflow)
  {
    var b := Serialize(OpPollReply(x));
    assert PollReply.Deserialize(b)
        == if PollReply.SwitchFits(x.universeSwitch)
           then Returned(Some(PollReply.Reflected(x)))
           else Panicked(UniverseSwitchOverflow)
    by { PollReply.DecodeOfEncoding(x); }
    assert OpCodes.TryFrom(OpCodeOf(b)) == Some(OpCodes.OpPollReply) by { PollReplyHeader(x); }
    DispatchPollReply(b);
  }

  /** An encoded ArtTodData carries the ArtTodRequest opcode, so it is decoded
      as an ArtTodRequest (net, command_response and address read as net,
      command and add_count) and never as an ArtTodData; with an address above
      32 and at least five UIDs the decoder even panics. */
  lemma {:induction false} TodDataComesBackAsTodRequest(x: TodData.OpTodData)
    ensures var r := Deserialize(Serialize(OpTodData(x)));
      && !(r.Returned? && r.result.Some? && r.result.value.OpTodData?)
      && (x.address <= 32 ==> r.Returned? && (r.result.Some? <==> x.address as int <= 4 + 6 * |x.tod|))
      && (x.address > 32 ==> r == (if |x.tod| >= 5 then Panicked(AddressIndexOutOfBounds) else Returned(None)))
      && (r.Returned? && r.result.Some? ==>
            && r.result.value.OpTodRequest?
            && r.result.value.todRequest.net == x.net
            && r.result.value.todRequest.command == x.commandResponse
            && r.result.value.todRequest.addCount == x.address)
  {
    var b := Serialize(OpTodData(x));
    EncodingDispatch(OpTodData(x));
    DispatchTodRequest(b);
  }

  /** `Unknown` encodes to nothing, which the decoder rejects. */
  lemma UnknownVanishes(s: string)
    ensures Serialize(Unknown(s)) == []
    ensures Deserialize(Serialize(Unknown(s))) == Returned(None)
  {
  }
}
