/** ArtTodData: a block of the table of devices, `uid_count` RDM UIDs of six
    bytes each after a 28-byte head. The encoder labels the packet with the
    ArtTodRequest opcode. */
module TodData {
  import opened Wire
  import opened Outcomes
  import opened External
  import OpCodes

  datatype OpTodData = OpTodData(
    rdmVer: u8, port: u8, bindIndex: u8, net: u8, commandResponse: u8,
    address: u8, uidTotal: u16, blockCount: u8, uidCount: u8, tod: seq<Uid>)

  /** The UIDs laid end to end, six bytes each. */
  function SerializeUids(tod: seq<Uid>): (r: Bytes)
    ensures |r| == 6 * |tod|
    ensures forall k | 0 <= k < |tod| :: r[6 * k .. 6 * k + 6] == UidSerialize(tod[k])
  {
    if tod == [] then []
    else
      var rest := SerializeUids(tod[1..]);
      var r := UidSerialize(tod[0]) + rest;
      assert forall k | 1 <= k < |tod| :: r[6 * k .. 6 * k + 6] == rest[6 * (k - 1) .. 6 * (k - 1) + 6];
      r
  }

  /** The decoder's loop: `count` UIDs read six bytes at a time from `at`,
      `None` as soon as the buffer runs out. */
  function DeserializeUids(b: Bytes, at: nat, count: nat): (r: Option<seq<Uid>>)
    requires at <= |b|
    decreases count
    ensures r.Some? <==> at + 6 * count <= |b|
    ensures r.Some? ==> |r.value| == count
    ensures r.Some? ==> forall k | 0 <= k < count :: UidSerialize(r.value[k]) == b[at + 6 * k .. at + 6 * k + 6]
  {
    if count == 0 then Some([])
    else if |b| < at + 6 then None
    else match DeserializeUids(b, at + 6, count - 1)
      case None => None
      case Some(rest) => Some([UidFromBytes(b[at .. at + 6])] + rest)
  }

  /** Magic, opcode 0x8000 (that of ArtTodRequest), version 0.14, rdm_ver and
      port at 12 and 13, six spare zero bytes, bind_index, net,
      command_response and address at 20 to 23, uid_total big-endian at 24,
      block_count at 26, uid_count at 27, then every UID of `tod` whatever
      uid_count says. */
  function Serialize(p: OpTodData): (r: Bytes)
    ensures |r| == 28 + 6 * |p.tod|
    ensures r[..12] == OpCodes.VersionedPrefix(OpCodes.OpTodRequest)
    ensures r[12] == p.rdmVer && r[13] == p.port && r[14..20] == Zeros(6)
    ensures r[20] == p.bindIndex && r[21] == p.net && r[22] == p.commandResponse && r[23] == p.address
    ensures r[24..26] == BigEndian16(p.uidTotal) && r[26] == p.blockCount && r[27] == p.uidCount
    ensures r[28..] == SerializeUids(p.tod)
  {
    OpCodes.VersionedPrefix(OpCodes.OpTodRequest) + [p.rdmVer, p.port] + Zeros(6)
      + [p.bindIndex, p.net, p.commandResponse, p.address] + BigEndian16(p.uidTotal)
      + [p.blockCount, p.uidCount] + SerializeUids(p.tod)
  }

  /** The `count` UIDs stored back to back from `at`. */
  function UidsAt(b: Bytes, at: nat, count: nat): (r: seq<Uid>)
    requires at + 6 * count <= |b|
    ensures |r| == count
    ensures forall k | 0 <= k < count :: UidSerialize(r[k]) == b[at + 6 * k .. at + 6 * k + 6]
  {
    seq(count, k requires 0 <= k < count => UidFromBytes(b[at + 6 * k .. at + 6 * k + 6]))
  }

  /** Reads the 28-byte head (anything shorter is rejected), then exactly
      `uid_count` UIDs from byte 28; the UID loop is written out in closed
      form, and `UidLoopAgrees` shows it is the outcome of `DeserializeUids`. */
  function Deserialize(b: Bytes): (r: Option<OpTodData>)
    ensures r.Some? <==> |b| >= 28 && |b| >= 28 + 6 * b[27] as int
    ensures r.Some? ==> |r.value.tod| == r.value.uidCount as int
    ensures r.Some? ==>
      var p := r.value;
      && p.rdmVer == b[12] && p.port == b[13] && p.bindIndex == b[20] && p.net == b[21]
      && p.commandResponse == b[22] && p.address == b[23] && p.uidTotal == ReadBigEndian16(b, 24)
      && p.blockCount == b[26] && p.uidCount == b[27]
      && forall k | 0 <= k < |p.tod| :: UidSerialize(p.tod[k]) == b[28 + 6 * k .. 28 + 6 * k + 6]
  {
    if |b| < 28 || |b| < 28 + 6 * b[27] as int then None
    else
      Some(OpTodData(b[12], b[13], b[20], b[21], b[22], b[23], ReadBigEndian16(b, 24), b[26], b[27],
                     UidsAt(b, 28, b[27] as nat)))
  }

  /** The UID loop returns exactly the closed-form block, and fails exactly
      when the buffer is too short for it. */
  lemma {:induction false} UidLoopAgrees(b: Bytes, at: nat, count: nat)
    requires at <= |b|
    ensures DeserializeUids(b, at, count)
         == if at + 6 * count <= |b| then Some(UidsAt(b, at, count)) else None
    decreases count
  {
    if count > 0 && at + 6 <= |b| {
      UidLoopAgrees(b, at + 6, count - 1);
      if at + 6 * count <= |b| {
        var rest := UidsAt(b, at + 6, count - 1);
        assert UidsAt(b, at, count) == [UidFromBytes(b[at .. at + 6])] + rest;
      }
    }
  }

  /** The decoder is the head reads followed by the UID loop from byte 28. */
  lemma DecoderRunsLoop(b: Bytes)
    requires |b| >= 28
    ensures Deserialize(b)
         == match DeserializeUids(b, 28, b[27] as nat)
            case None => None
            case Some(tod) =>
              Some(OpTodData(b[12], b[13], b[20], b[21], b[22], b[23], ReadBigEndian16(b, 24), b[26], b[27], tod))
  {
    UidLoopAgrees(b, 28, b[27] as nat);
  }

  /** Decoding an encoding keeps the first `uid_count` UIDs, and fails when
      the packet carries fewer. */
  lemma {:induction false} DecodeOfEncoding(p: OpTodData)
    ensures Deserialize(Serialize(p))
         == if p.uidCount as int <= |p.tod| then Some(p.(tod := p.tod[..p.uidCount])) else None
  {
    var r := Serialize(p);
    BigReadAsBig(r, 24, p.uidTotal);
    if p.uidCount as int <= |p.tod| {
      var q := Deserialize(r).value;
      var n := p.uidCount as int;
      assert |q.tod| == n;
      forall k | 0 <= k < n
        ensures q.tod[k] == p.tod[k]
      {
        assert r[28 + 6 * k .. 28 + 6 * k + 6] == SerializeUids(p.tod)[6 * k .. 6 * k + 6];
      }
      assert q.tod == p.tod[..n];
    }
  }

  lemma RoundTrip(p: OpTodData)
    requires p.uidCount as int == |p.tod|
    ensures Deserialize(Serialize(p)) == Some(p)
  {
    DecodeOfEncoding(p);
    assert p.tod[..p.uidCount] == p.tod;
  }

  /** An encoding cut one byte short of its last UID no longer decodes. */
  lemma {:induction false} TruncatedFails(p: OpTodData)
    requires p.uidCount as int == |p.tod| && |p.tod| > 0
    ensures Deserialize(Serialize(p)[..|Serialize(p)| - 1]) == None
  {
    var r := Serialize(p);
    var t := r[..|r| - 1];
    assert t[27] == r[27];
  }
}
