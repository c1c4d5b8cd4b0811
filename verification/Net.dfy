/** The parts of Go's net/netip that the records and the routing plan rely on. */
module Net {
  import opened Base

  /** `NoAddr` is the zero Addr. Only an IPv6 address can carry a zone. */
  datatype Addr = NoAddr | V4(b4: Bytes4) | V6(b6: Bytes16, zone: string) {

    predicate IsValid() { !NoAddr? }

    /** As16 forgets the zone; nothing else about an address is lost in a record. */
    function WithoutZone(): Addr {
      match this
      case V6(b, _) => V6(b, "")
      case _ => this
    }

    function Octets(): (b: bytes)
      ensures |b| <= 16
    {
      match this
      case NoAddr => []
      case V4(b) => b
      case V6(b, _) => b
    }
  }

  /** A prefix never carries a zone: PrefixFrom strips it. */
  datatype Prefix = Prefix(addr: Addr, bits: int) {

    predicate IsValid() {
      match addr
      case NoAddr => false
      case V4(_) => 0 <= bits <= 32
      case V6(_, zone) => zone == "" && 0 <= bits <= 128
    }
  }

  /** AddrFromSlice, for the two lengths it accepts. */
  function AddrFrom(b: bytes): (a: Addr)
    ensures a.IsValid() ==> a.Octets() == b && a.WithoutZone() == a
    ensures a.IsValid() <==> |b| == 4 || |b| == 16
  {
    if |b| == 4 then V4(b) else if |b| == 16 then V6(b, "") else NoAddr
  }
}
