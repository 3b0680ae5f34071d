/**
 IPv4 addresses and CIDR blocks, as the responder uses them.

 An address is a 32-bit value (most significant octet first). A CIDR block
 is a network prefix together with its netmask; containment is masked
 equality. The CIDR library itself is not part of this model: its
 construction from an address and a netmask is taken to fail exactly when the
 netmask is not a run of one bits followed by a run of zero bits, and to keep
 the address with its host bits cleared.
 */
module Net {
  import opened Wrappers

  type Ipv4Addr = bv32

  /** Ipv4Addr::new(a, b, c, d). */
  function Ipv4(a: bv8, b: bv8, c: bv8, d: bv8): (r: Ipv4Addr)
    ensures (r >> 24) as bv8 == a
    ensures (r >> 16) & 0xFF == b as bv32 && (r >> 8) & 0xFF == c as bv32 && r & 0xFF == d as bv32
  {
    (a as bv32 << 24) | (b as bv32 << 16) | (c as bv32 << 8) | d as bv32
  }

  /** 0.0.0.0 */
  const UNSPECIFIED: Ipv4Addr := 0
  /** 255.255.255.255 */
  const BROADCAST: Ipv4Addr := 0xFFFF_FFFF

  /** A netmask is contiguous when its zero bits (if any) are exactly the low bits. */
  predicate IsContiguousMask(mask: Ipv4Addr) {
    var hostBits := !mask;
    hostBits & (hostBits + 1) == 0
  }

  datatype Ipv4Cidr = Ipv4Cidr(prefix: Ipv4Addr, mask: Ipv4Addr)

  /** Whether `addr` lies in the block `cidr`. */
  predicate Contains(cidr: Ipv4Cidr, addr: Ipv4Addr) {
    addr & cidr.mask == cidr.prefix
  }

  /** Ipv4Cidr::from_prefix_and_mask(ip, mask), with its error turned into None. */
  function FromPrefixAndMask(ip: Ipv4Addr, mask: Ipv4Addr): (r: Option<Ipv4Cidr>)
    ensures r.Some? <==> IsContiguousMask(mask)
    ensures r.Some? ==> r.value.mask == mask && Contains(r.value, ip)
  {
    if IsContiguousMask(mask) then Some(Ipv4Cidr(ip & mask, mask)) else None
  }
}
