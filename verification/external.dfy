/** The foreign value types the codec moves through its packets. Their
    libraries (e1_20, eui48, std::net) are not part of this model: a UID and
    a MAC address are represented by their six wire bytes, so that their
    to-bytes/from-bytes pairs are inverse by construction. */
module External {
  import opened Wire

  /** An RDM UID (ANSI E1.20), kept as its six wire bytes. */
  datatype Uid = Uid(raw: Bytes6)

  /** `Uid::uid_serialize`. */
  function UidSerialize(u: Uid): Bytes6 {
    u.raw
  }

  /** `Uid::from_bytes`. */
  function UidFromBytes(b: Bytes6): Uid {
    Uid(b)
  }

  /** An EUI-48 hardware address, kept as its six bytes. */
  datatype MacAddress = MacAddress(raw: Bytes6)

  /** `std::net::IpAddr`; the content of a V6 address plays no part here. */
  datatype IpAddr = V4(octets: Bytes4) | V6(segments: seq<u16>)

  /** The four bytes the encoder writes for an address: the octets of a V4
      address, four zeros for a V6 one. */
  function WireOctets(ip: IpAddr): (r: Bytes4)
    ensures ip.V4? ==> r == ip.octets
    ensures ip.V6? ==> r == Zeros(4)
  {
    match ip
    case V4(o) => o
    case V6(_) => Zeros(4)
  }
}
