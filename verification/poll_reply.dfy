/** ArtPollReply: a node's 239-byte self-description. The encoder writes it
    without protocol version bytes; the decoder reads several 16-bit fields
    with the opposite byte order, rebuilds universe_switch from a shifted
    sum, skips bind_ip, and panics on a name field with no zero byte. */
module PollReply {
  import opened Wire
  import opened Outcomes
  import opened External
  import OpCodes
  import Text

  datatype OpPollReply = OpPollReply(
    ipAddress: IpAddr, port: u16, versInfo: u16, universeSwitch: u16, oem: u16,
    ubeaVersion: u8, status1: u8, estaMfg: u16,
    shortName: Bytes, longName: Bytes, nodeReport: Bytes,
    numPorts: u16, portTypes: Bytes4, goodInput: Bytes4, goodOutput: Bytes4,
    swIn: Bytes4, swOut: Bytes4, priority: u8, swMacro: u8, swRemote: u8,
    style: u8, mac: MacAddress, bindIp: IpAddr, bindIndex: u8, status2: u8,
    goodOutputB: Bytes4, status3: u8, defaultResponder: Uid)

  const SHORT_NAME_WIDTH: nat := 18
  const LONG_NAME_WIDTH: nat := 64
  const NODE_REPORT_WIDTH: nat := 64

  /** Bytes 0 to 25: magic, opcode 0x2100, then (no version bytes) the
      address and the little-endian port, version, switch, oem, two status
      bytes and the little-endian manufacturer code. */
  function Head(p: OpPollReply): (r: Bytes)
    ensures |r| == 26 && r[..10] == OpCodes.Prefix(OpCodes.OpPollReply)
    ensures r[10..14] == WireOctets(p.ipAddress)
    ensures r[14..16] == LittleEndian16(p.port) && r[16..18] == LittleEndian16(p.versInfo)
    ensures r[18..20] == LittleEndian16(p.universeSwitch) && r[20..22] == LittleEndian16(p.oem)
    ensures r[22] == p.ubeaVersion && r[23] == p.status1 && r[24..26] == LittleEndian16(p.estaMfg)
  {
    OpCodes.Prefix(OpCodes.OpPollReply) + WireOctets(p.ipAddress)
      + LittleEndian16(p.port) + LittleEndian16(p.versInfo)
      + LittleEndian16(p.universeSwitch) + LittleEndian16(p.oem)
      + [p.ubeaVersion, p.status1] + LittleEndian16(p.estaMfg)
  }

  /** Bytes 26 to 171: the three packed name fields. */
  function Names(p: OpPollReply): (r: Bytes)
    ensures |r| == 146
    ensures r[0..18] == Text.PackName(p.shortName, SHORT_NAME_WIDTH)
    ensures r[18..82] == Text.PackName(p.longName, LONG_NAME_WIDTH)
    ensures r[82..146] == Text.PackName(p.nodeReport, NODE_REPORT_WIDTH)
  {
    var s := Text.PackName(p.shortName, SHORT_NAME_WIDTH);
    var l := Text.PackName(p.longName, LONG_NAME_WIDTH);
    var n := Text.PackName(p.nodeReport, NODE_REPORT_WIDTH);
    assert (s + l + n)[18..82] == l;
    s + l + n
  }

  /** Bytes 172 to 193: the little-endian port count and the five port
      tables. */
  function Ports(p: OpPollReply): (r: Bytes)
    ensures |r| == 22 && r[0..2] == LittleEndian16(p.numPorts)
    ensures r[2..6] == p.portTypes && r[6..10] == p.goodInput && r[10..14] == p.goodOutput
    ensures r[14..18] == p.swIn && r[18..22] == p.swOut
  {
    LittleEndian16(p.numPorts) + p.portTypes + p.goodInput + p.goodOutput + p.swIn + p.swOut
  }

  /** Bytes 194 to 206: the three switch bytes, three spare zero bytes, the
      style and the MAC address. */
  function Switches(p: OpPollReply): (r: Bytes)
    ensures |r| == 13 && r[0] == p.priority && r[1] == p.swMacro && r[2] == p.swRemote
    ensures r[3..6] == Zeros(3) && r[6] == p.style && r[7..13] == p.mac.raw
  {
    [p.priority, p.swMacro, p.swRemote] + Zeros(3) + [p.style] + p.mac.raw
  }

  /** Bytes 207 to 217: the bind address, bind index, second status byte,
      the second output table and the third status byte. */
  function Binding(p: OpPollReply): (r: Bytes)
    ensures |r| == 11 && r[0..4] == WireOctets(p.bindIp) && r[4] == p.bindIndex && r[5] == p.status2
    ensures r[6..10] == p.goodOutputB && r[10] == p.status3
  {
    WireOctets(p.bindIp) + [p.bindIndex, p.status2] + p.goodOutputB + [p.status3]
  }

  /** Bytes 218 to 238: the default responder UID and fifteen zero bytes. */
  function Trailer(p: OpPollReply): (r: Bytes)
    ensures |r| == 21 && r[0..6] == UidSerialize(p.defaultResponder) && r[6..21] == Zeros(15)
  {
    UidSerialize(p.defaultResponder) + Zeros(15)
  }

  /** Bytes 172 to 238, in four groups. */
  function Rest(p: OpPollReply): (r: Bytes)
    ensures |r| == 67 && r[0..22] == Ports(p) && r[22..35] == Switches(p)
    ensures r[35..46] == Binding(p) && r[46..67] == Trailer(p)
  {
    var r := Ports(p) + Switches(p) + Binding(p) + Trailer(p);
    assert r[0..22] == Ports(p) && r[22..35] == Switches(p) && r[35..46] == Binding(p) && r[46..67] == Trailer(p);
    r
  }

  /** The whole encoding: 239 bytes, each field at its fixed offset. */
  function Serialize(p: OpPollReply): (r: Bytes)
    ensures |r| == 239 && r[..10] == OpCodes.Prefix(OpCodes.OpPollReply)
    ensures r[0..26] == Head(p) && r[26..172] == Names(p) && r[172..239] == Rest(p)
  {
    var r := Head(p) + Names(p) + Rest(p);
    assert r[..10] == Head(p)[..10];
    assert r[0..26] == Head(p) && r[26..172] == Names(p) && r[172..239] == Rest(p);
    r
  }

  /** `(b[19] << 4) + (b[18] << 8)`: the decoder's universe switch before
      the u16 overflow check. */
  function UniverseSwitchSum(b18: u8, b19: u8): nat {
    b19 as nat * 16 + b18 as nat * 256
  }

  /** The record the decoder fills once every read has succeeded: 16-bit
      fields read big-endian, bind_ip left at 0.0.0.0 and the fields after
      it read from byte 207 on. */
  function Fields(b: Bytes, shortName: Bytes, longName: Bytes, nodeReport: Bytes): OpPollReply
    requires |b| >= 220 && UniverseSwitchSum(b[18], b[19]) <= 0xFFFF
  {
    OpPollReply(
      V4(b[10..14]), ReadBigEndian16(b, 14), ReadBigEndian16(b, 16),
      UniverseSwitchSum(b[18], b[19]) as u16, ReadBigEndian16(b, 20),
      b[22], b[23], ReadBigEndian16(b, 24),
      shortName, longName, nodeReport,
      ReadBigEndian16(b, 172), b[174..178], b[178..182], b[182..186],
      b[186..190], b[190..194], b[194], b[195], b[196],
      b[200], MacAddress(b[201..207]), V4([0, 0, 0, 0]), b[207], b[208],
      b[209..213], b[213], UidFromBytes(b[214..220]))
  }

  /** The decoder, read by read: a read past the end returns `None`; the u16
      addition for universe_switch and the unwrap of each name panic. */
  function Deserialize(b: Bytes): (r: Outcome<OpPollReply>)
    ensures r.Returned? && r.result.Some? <==>
      |b| >= 220 && UniverseSwitchSum(b[18], b[19]) <= 0xFFFF
      && 0 in b[26..44] && 0 in b[44..108] && 0 in b[108..172]
    ensures r == Panicked(UniverseSwitchOverflow) <==>
      |b| >= 20 && UniverseSwitchSum(b[18], b[19]) > 0xFFFF
    ensures r == Panicked(NameWithoutNul(ShortName)) <==>
      |b| >= 44 && UniverseSwitchSum(b[18], b[19]) <= 0xFFFF && 0 !in b[26..44]
    ensures r == Panicked(NameWithoutNul(LongName)) <==>
      |b| >= 108 && UniverseSwitchSum(b[18], b[19]) <= 0xFFFF
      && 0 in b[26..44] && 0 !in b[44..108]
    ensures r == Panicked(NameWithoutNul(NodeReport)) <==>
      |b| >= 172 && UniverseSwitchSum(b[18], b[19]) <= 0xFFFF
      && 0 in b[26..44] && 0 in b[44..108] && 0 !in b[108..172]
    ensures r.Panicked? ==> r.site.UniverseSwitchOverflow? || r.site.NameWithoutNul?
    ensures r.Returned? && r.result.Some? ==>
      r.result.value == Fields(b, Text.UntilNul(b[26..44]).value,
                               Text.UntilNul(b[44..108]).value, Text.UntilNul(b[108..172]).value)
  {
    if |b| < 20 then Returned(None)
    else if UniverseSwitchSum(b[18], b[19]) > 0xFFFF then Panicked(UniverseSwitchOverflow)
    else if |b| < 44 then Returned(None)
    else match Text.UntilNul(b[26..44])
      case None => Panicked(NameWithoutNul(ShortName))
      case Some(shortName) =>
        if |b| < 108 then Returned(None)
        else match Text.UntilNul(b[44..108])
          case None => Panicked(NameWithoutNul(LongName))
          case Some(longName) =>
            if |b| < 172 then Returned(None)
            else match Text.UntilNul(b[108..172])
              case None => Panicked(NameWithoutNul(NodeReport))
              case Some(nodeReport) =>
                if |b| < 220 then Returned(None)
                else Returned(Some(Fields(b, shortName, longName, nodeReport)))
  }

  /** The decoder's sum for the little-endian bytes of `v` fits 16 bits, so
      decoding an encoding with switch `v` does not panic. */
  predicate SwitchFits(v: u16) {
    UniverseSwitchSum(LowByte(v), HighByte(v)) <= 0xFFFF
  }

  /** What decoding the encoding of `p` yields: a V4 address (zeros for V6),
      the 16-bit fields byte-swapped, universe_switch rebuilt by the shifted
      sum, each name cut to its capacity and its first zero, bind_ip lost as
      0.0.0.0, and the five fields after it read four bytes early, so that
      they come from bind_ip and from the fields before them. */
  function Reflected(p: OpPollReply): OpPollReply
    requires SwitchFits(p.universeSwitch)
  {
    var bind := WireOctets(p.bindIp);
    var uid := UidSerialize(p.defaultResponder);
    p.(ipAddress := V4(WireOctets(p.ipAddress)),
       port := Swap16(p.port), versInfo := Swap16(p.versInfo),
       universeSwitch := UniverseSwitchSum(LowByte(p.universeSwitch), HighByte(p.universeSwitch)) as u16,
       oem := Swap16(p.oem), estaMfg := Swap16(p.estaMfg),
       shortName := Text.Visible(p.shortName, SHORT_NAME_WIDTH - 1),
       longName := Text.Visible(p.longName, LONG_NAME_WIDTH - 1),
       nodeReport := Text.Visible(p.nodeReport, NODE_REPORT_WIDTH - 1),
       numPorts := Swap16(p.numPorts),
       bindIp := V4([0, 0, 0, 0]), bindIndex := bind[0], status2 := bind[1],
       goodOutputB := [bind[2], bind[3], p.bindIndex, p.status2],
       status3 := p.goodOutputB[0],
       defaultResponder := Uid([p.goodOutputB[1], p.goodOutputB[2], p.goodOutputB[3], p.status3, uid[0], uid[1]]))
  }

  /** Decoding an encoding: the reflected record, or the overflow panic when
      the switch's shifted sum does not fit 16 bits. The name fields never
      panic, since their last byte is always zero. */
  lemma {:induction false} DecodeOfEncoding(p: OpPollReply)
    ensures Deserialize(Serialize(p))
         == if SwitchFits(p.universeSwitch) then Returned(Some(Reflected(p)))
            else Panicked(UniverseSwitchOverflow)
  {
    DecodeOfLayout(p, Serialize(p));
  }

  /** The same for any buffer laid out as the encoding of `p`. */
  lemma DecodeOfLayout(p: OpPollReply, r: Bytes)
    requires |r| == 239 && r[0..26] == Head(p) && r[26..172] == Names(p) && r[172..239] == Rest(p)
    ensures Deserialize(r)
         == if SwitchFits(p.universeSwitch) then Returned(Some(Reflected(p)))
            else Panicked(UniverseSwitchOverflow)
  {
    HeadReads(p, r);
    if SwitchFits(p.universeSwitch) {
      NamesRead(p, r);
      FieldsReflected(p, r);
    }
  }

  /** What the decoder reads from bytes 10 to 25 of an encoding: the
      little-endian fields read big-endian come back swapped. */
  lemma HeadReads(p: OpPollReply, r: Bytes)
    requires |r| == 239 && r[0..26] == Head(p)
    ensures r[10..14] == WireOctets(p.ipAddress)
    ensures ReadBigEndian16(r, 14) == Swap16(p.port) && ReadBigEndian16(r, 16) == Swap16(p.versInfo)
    ensures r[18] == LowByte(p.universeSwitch) && r[19] == HighByte(p.universeSwitch)
    ensures ReadBigEndian16(r, 20) == Swap16(p.oem)
    ensures r[22] == p.ubeaVersion && r[23] == p.status1
    ensures ReadBigEndian16(r, 24) == Swap16(p.estaMfg)
  {
    var head := Head(p);
    SubSlice(r, 0, head, 10, 14);
    SubSlice(r, 0, head, 14, 16);
    SubSlice(r, 0, head, 16, 18);
    SubSlice(r, 0, head, 18, 20);
    SubSlice(r, 0, head, 20, 22);
    SubSlice(r, 0, head, 24, 26);
    assert r[18] == r[18..20][0] && r[19] == r[18..20][1];
    assert r[22] == head[22] && r[23] == head[23];
    LittleReadAsBig(r, 14, p.port);
    LittleReadAsBig(r, 16, p.versInfo);
    LittleReadAsBig(r, 20, p.oem);
    LittleReadAsBig(r, 24, p.estaMfg);
  }

  /** What the decoder reads from the three name fields of an encoding: each
      has a zero byte, and the text before it is the visible name. */
  lemma NamesRead(p: OpPollReply, r: Bytes)
    requires |r| == 239 && r[26..172] == Names(p)
    ensures Text.UntilNul(r[26..44]) == Some(Text.Visible(p.shortName, SHORT_NAME_WIDTH - 1))
    ensures Text.UntilNul(r[44..108]) == Some(Text.Visible(p.longName, LONG_NAME_WIDTH - 1))
    ensures Text.UntilNul(r[108..172]) == Some(Text.Visible(p.nodeReport, NODE_REPORT_WIDTH - 1))
  {
    var names := Names(p);
    SubSlice(r, 26, names, 0, 18);
    Text.PackedFieldReads(r, 26, p.shortName, SHORT_NAME_WIDTH);
    SubSlice(r, 26, names, 18, 82);
    Text.PackedFieldReads(r, 44, p.longName, LONG_NAME_WIDTH);
    SubSlice(r, 26, names, 82, 146);
    Text.PackedFieldReads(r, 108, p.nodeReport, NODE_REPORT_WIDTH);
  }

  /** What the decoder reads from bytes 172 to 206 of an encoding: the port
      count swapped, the port tables, switches, style and MAC in place. */
  lemma PortsRead(p: OpPollReply, r: Bytes)
    requires |r| == 239 && r[172..194] == Ports(p) && r[194..207] == Switches(p)
    ensures ReadBigEndian16(r, 172) == Swap16(p.numPorts)
    ensures r[174..178] == p.portTypes && r[178..182] == p.goodInput && r[182..186] == p.goodOutput
    ensures r[186..190] == p.swIn && r[190..194] == p.swOut
    ensures r[194] == p.priority && r[195] == p.swMacro && r[196] == p.swRemote
    ensures r[200] == p.style && r[201..207] == p.mac.raw
  {
    var ports, switches := Ports(p), Switches(p);
    SubSlice(r, 172, ports, 0, 2);
    LittleReadAsBig(r, 172, p.numPorts);
    SubSlice(r, 172, ports, 2, 6);
    SubSlice(r, 172, ports, 6, 10);
    SubSlice(r, 172, ports, 10, 14);
    SubSlice(r, 172, ports, 14, 18);
    SubSlice(r, 172, ports, 18, 22);
    SubSlice(r, 194, switches, 7, 13);
    ByteAt(r, 194, switches, 0);
    ByteAt(r, 194, switches, 1);
    ByteAt(r, 194, switches, 2);
    ByteAt(r, 194, switches, 6);
  }

  /** What the decoder reads from bytes 207 to 219 of an encoding: having
      skipped bind_ip, it reads bind_index and status2 from the address,
      and every later field four bytes early. */
  lemma BindingRead(p: OpPollReply, r: Bytes)
    requires |r| == 239 && r[207..218] == Binding(p) && r[218..239] == Trailer(p)
    ensures var bind := WireOctets(p.bindIp); var uid := UidSerialize(p.defaultResponder);
      && r[207] == bind[0] && r[208] == bind[1]
      && r[209..213] == [bind[2], bind[3], p.bindIndex, p.status2]
      && r[213] == p.goodOutputB[0]
      && r[214..220] == [p.goodOutputB[1], p.goodOutputB[2], p.goodOutputB[3], p.status3, uid[0], uid[1]]
  {
    var binding, trailer := Binding(p), Trailer(p);
    var bind := WireOctets(p.bindIp);
    var uid := UidSerialize(p.defaultResponder);
    ByteAt(r, 207, binding, 4);
    ByteAt(r, 207, binding, 5);
    ByteAt(r, 207, binding, 10);
    SubSlice(r, 207, binding, 0, 4);
    ByteAt(r, 207, bind, 0);
    ByteAt(r, 207, bind, 1);
    ByteAt(r, 207, bind, 2);
    ByteAt(r, 207, bind, 3);
    SubSlice(r, 207, binding, 6, 10);
    ByteAt(r, 213, p.goodOutputB, 0);
    ByteAt(r, 213, p.goodOutputB, 1);
    ByteAt(r, 213, p.goodOutputB, 2);
    ByteAt(r, 213, p.goodOutputB, 3);
    SubSlice(r, 218, trailer, 0, 6);
    ByteAt(r, 218, uid, 0);
    ByteAt(r, 218, uid, 1);
  }

  /** The record the decoder builds from an encoding is the reflected one. */
  lemma FieldsReflected(p: OpPollReply, r: Bytes)
    requires |r| == 239 && r[0..26] == Head(p) && r[172..239] == Rest(p) && SwitchFits(p.universeSwitch)
    ensures UniverseSwitchSum(r[18], r[19]) <= 0xFFFF
    ensures Fields(r, Text.Visible(p.shortName, SHORT_NAME_WIDTH - 1),
                   Text.Visible(p.longName, LONG_NAME_WIDTH - 1),
                   Text.Visible(p.nodeReport, NODE_REPORT_WIDTH - 1))
         == Reflected(p)
  {
    var rest := Rest(p);
    SubSlice(r, 172, rest, 0, 22);
    SubSlice(r, 172, rest, 22, 35);
    SubSlice(r, 172, rest, 35, 46);
    SubSlice(r, 172, rest, 46, 67);
    HeadReads(p, r);
    PortsRead(p, r);
    BindingRead(p, r);
  }

  /** Field by field, what an encode-decode round trip does to a reply whose
      switch does not overflow: which fields come back intact, which come
      back byte-swapped, and which are lost. */
  lemma FieldFates(p: OpPollReply)
    requires SwitchFits(p.universeSwitch)
    ensures Deserialize(Serialize(p)).Returned? && Deserialize(Serialize(p)).result.Some?
    ensures var d := Deserialize(Serialize(p)).result.value;
      && (p.ipAddress.V4? ==> d.ipAddress == p.ipAddress)
      && d.ubeaVersion == p.ubeaVersion && d.status1 == p.status1
      && d.portTypes == p.portTypes && d.goodInput == p.goodInput && d.goodOutput == p.goodOutput
      && d.swIn == p.swIn && d.swOut == p.swOut && d.priority == p.priority
      && d.swMacro == p.swMacro && d.swRemote == p.swRemote && d.style == p.style && d.mac == p.mac
      && d.port == Swap16(p.port) && d.versInfo == Swap16(p.versInfo) && d.oem == Swap16(p.oem)
      && d.estaMfg == Swap16(p.estaMfg) && d.numPorts == Swap16(p.numPorts)
      && (|p.shortName| < SHORT_NAME_WIDTH && 0 !in p.shortName ==> d.shortName == p.shortName)
      && (|p.longName| < LONG_NAME_WIDTH && 0 !in p.longName ==> d.longName == p.longName)
      && (|p.nodeReport| < NODE_REPORT_WIDTH && 0 !in p.nodeReport ==> d.nodeReport == p.nodeReport)
      && d.bindIp == V4([0, 0, 0, 0])
  {
    DecodeOfEncoding(p);
    if |p.shortName| < SHORT_NAME_WIDTH && 0 !in p.shortName {
      Text.PlainNameSurvives(p.shortName, SHORT_NAME_WIDTH - 1);
    }
    if |p.longName| < LONG_NAME_WIDTH && 0 !in p.longName {
      Text.PlainNameSurvives(p.longName, LONG_NAME_WIDTH - 1);
    }
    if |p.nodeReport| < NODE_REPORT_WIDTH && 0 !in p.nodeReport {
      Text.PlainNameSurvives(p.nodeReport, NODE_REPORT_WIDTH - 1);
    }
  }

  /** A byte-swapped field comes back unchanged exactly when its two bytes
      are equal. */
  lemma SwapFixedPoints(v: u16)
    ensures Swap16(v) == v <==> LowByte(v) == HighByte(v)
  {
    SplitJoin(LowByte(v), HighByte(v));
    JoinBytes(v);
  }

  /** The five fields a round trip byte-swaps: swapping once more recovers
      the original, and a field comes back unchanged exactly when its two
      bytes are equal. */
  lemma SwappedFieldsFate(p: OpPollReply)
    requires SwitchFits(p.universeSwitch)
    ensures Deserialize(Serialize(p)).Returned? && Deserialize(Serialize(p)).result.Some?
    ensures var d := Deserialize(Serialize(p)).result.value;
      && Swap16(d.port) == p.port && Swap16(d.versInfo) == p.versInfo && Swap16(d.oem) == p.oem
      && Swap16(d.estaMfg) == p.estaMfg && Swap16(d.numPorts) == p.numPorts
      && (d.port == p.port <==> LowByte(p.port) == HighByte(p.port))
      && (d.versInfo == p.versInfo <==> LowByte(p.versInfo) == HighByte(p.versInfo))
      && (d.oem == p.oem <==> LowByte(p.oem) == HighByte(p.oem))
      && (d.estaMfg == p.estaMfg <==> LowByte(p.estaMfg) == HighByte(p.estaMfg))
      && (d.numPorts == p.numPorts <==> LowByte(p.numPorts) == HighByte(p.numPorts))
  {
    DecodeOfEncoding(p);
    SwapInvolutive(p.port);
    SwapInvolutive(p.versInfo);
    SwapInvolutive(p.oem);
    SwapInvolutive(p.estaMfg);
    SwapInvolutive(p.numPorts);
    SwapFixedPoints(p.port);
    SwapFixedPoints(p.versInfo);
    SwapFixedPoints(p.oem);
    SwapFixedPoints(p.estaMfg);
    SwapFixedPoints(p.numPorts);
  }

  /** Each encoded name field ends in a zero byte and holds at most its
      capacity of text: 17, 63 and 63 bytes. */
  lemma NamesTerminated(p: OpPollReply)
    ensures var r := Serialize(p);
      && r[43] == 0 && r[107] == 0 && r[171] == 0
      && r[26 .. 26 + Min(|p.shortName|, 17)] == p.shortName[..Min(|p.shortName|, 17)]
      && r[44 .. 44 + Min(|p.longName|, 63)] == p.longName[..Min(|p.longName|, 63)]
      && r[108 .. 108 + Min(|p.nodeReport|, 63)] == p.nodeReport[..Min(|p.nodeReport|, 63)]
  {
    var r := Serialize(p);
    var names := Names(p);
    SubSlice(r, 26, names, 0, 18);
    SubSlice(r, 26, names, 18, 82);
    SubSlice(r, 26, names, 82, 146);
    assert r[43] == r[26..44][17];
    assert r[107] == r[44..108][63];
    assert r[171] == r[108..172][63];
  }
}
