/** ArtTodRequest: a port selector, a count, and a fixed 32-byte address
    array of which the first `add_count` entries are meaningful. */
module TodRequest {
  import opened Wire
  import opened Outcomes
  import OpCodes

  type Bytes32 = s: Bytes | |s| == 32 witness Zeros(32)

  datatype OpTodRequest = OpTodRequest(net: u8, command: u8, addCount: u8, address: Bytes32)

  /** Magic, opcode 0x8000, version 0.14, two pad and seven spare zero bytes,
      net, command and add_count at 21 to 23, then all 32 address bytes
      whatever add_count says: always 56 bytes. */
  function Serialize(p: OpTodRequest): (r: Bytes)
    ensures |r| == 56 && r[..12] == OpCodes.VersionedPrefix(OpCodes.OpTodRequest)
    ensures r[12..21] == Zeros(9)
    ensures r[21] == p.net && r[22] == p.command && r[23] == p.addCount
    ensures r[24..] == p.address
  {
    OpCodes.VersionedPrefix(OpCodes.OpTodRequest) + Zeros(2) + Zeros(7)
      + [p.net, p.command, p.addCount] + p.address
  }

  /** The loop that fills the address array: step `i` first reads the byte at
      24 + i (a missing byte returns `None`) and only then stores it into
      `address[i]`, which panics once `i` reaches 32. */
  function ReadAddresses(b: Bytes, i: nat, count: nat, address: Bytes32): (r: Outcome<Bytes32>)
    requires i <= count && i <= 32 && 24 + i <= |b|
    decreases count - i
    ensures count <= 32 ==> r.Returned? && (r.result.Some? <==> 24 + count <= |b|)
    ensures count > 32 ==> r == (if |b| > 56 then Panicked(AddressIndexOutOfBounds) else Returned(None))
    ensures r.Returned? && r.result.Some? ==>
      forall j | 0 <= j < 32 :: r.result.value[j] == (if i <= j < count then b[24 + j] else address[j])
  {
    if i == count then Returned(Some(address))
    else if |b| <= 24 + i then Returned(None)
    else if i >= 32 then Panicked(AddressIndexOutOfBounds)
    else ReadAddresses(b, i + 1, count, address[i := b[24 + i]])
  }

  /** The address array with every entry from `count` on cleared: what the
      decoder keeps of an encoded array. */
  function Masked(address: Bytes32, count: nat): (r: Bytes32)
    ensures forall j | 0 <= j < 32 :: r[j] == (if j < count then address[j] else 0)
  {
    seq(32, j requires 0 <= j < 32 => if j < count then address[j] else 0)
  }

  /** Reads net, command and add_count (anything shorter than 24 bytes is
      rejected), then `add_count` address bytes into a zeroed array; the
      outcome of the address loop is written out in closed form, and
      `LoopAgrees` shows it is the outcome of `ReadAddresses`. */
  function Deserialize(b: Bytes): (r: Outcome<OpTodRequest>)
    ensures |b| < 24 ==> r == Returned(None)
    ensures |b| >= 24 && b[23] <= 32 ==> r.Returned? && (r.result.Some? <==> 24 + b[23] as int <= |b|)
    ensures |b| >= 24 && b[23] > 32 ==>
      r == (if |b| >= 57 then Panicked(AddressIndexOutOfBounds) else Returned(None))
    ensures r.Returned? && r.result.Some? ==>
      var p := r.result.value;
      && p.net == b[21] && p.command == b[22] && p.addCount == b[23]
      && forall j | 0 <= j < 32 :: p.address[j] == (if j < p.addCount as int then b[24 + j] else 0)
  {
    if |b| < 24 then Returned(None)
    else
      var count := b[23] as nat;
      if count > 32 then
        if |b| >= 57 then Panicked(AddressIndexOutOfBounds) else Returned(None)
      else if |b| < 24 + count then Returned(None)
      else
        var address: Bytes32 := seq(32, j requires 0 <= j < 32 => if j < count then b[24 + j] else 0);
        Returned(Some(OpTodRequest(b[21], b[22], b[23], address)))
  }

  /** The decoder's result is what running the address loop from index 0
      over a zeroed array yields. */
  lemma LoopAgrees(b: Bytes)
    requires |b| >= 24
    ensures Deserialize(b)
         == match ReadAddresses(b, 0, b[23] as nat, Zeros(32))
            case Panicked(site) => Panicked(site)
            case Returned(None) => Returned(None)
            case Returned(Some(address)) => Returned(Some(OpTodRequest(b[21], b[22], b[23], address)))
  {
    var loop := ReadAddresses(b, 0, b[23] as nat, Zeros(32));
    if loop.Returned? && loop.result.Some? {
      assert loop.result.value == Deserialize(b).result.value.address;
    }
  }

  lemma {:induction false} DecodeOfEncoding(p: OpTodRequest)
    ensures Deserialize(Serialize(p))
         == if p.addCount <= 32 then Returned(Some(p.(address := Masked(p.address, p.addCount as nat))))
            else Returned(None)
  {
    var r := Serialize(p);
    if p.addCount <= 32 {
      var n := p.addCount as nat;
      var q := Deserialize(r).result.value;
      assert r[24..24 + n] == p.address[..n];
      assert q.address == Masked(p.address, n);
    }
  }

  /** A request round-trips when its count fits the array and the entries
      past the count are already zero. */
  lemma RoundTrip(p: OpTodRequest)
    requires p.addCount <= 32
    requires forall j | p.addCount as int <= j < 32 :: p.address[j] == 0
    ensures Deserialize(Serialize(p)) == Returned(Some(p))
  {
    DecodeOfEncoding(p);
    assert Masked(p.address, p.addCount as nat) == p.address;
  }
}
