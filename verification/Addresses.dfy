/** IP addresses as net.IP and netip.Addr classify them. */
module Addresses {

  import opened Integers

  datatype Addr = V4(bits: U32) | V6(wide: U128)

  /** An IPv4-mapped IPv6 address is its IPv4 address; every other address is itself. */
  function Unmap(a: Addr): Addr {
    if a.V6? && a.wide / 0x1_0000_0000 == 0xFFFF then V4(a.wide % 0x1_0000_0000) else a
  }

  /** An address that net.IP and netip.Addr.Unmap treat as IPv4. */
  predicate IsIpv4(a: Addr) { Unmap(a).V4? }

  /** 127.0.0.0/8, also in its IPv4-mapped form, and ::1. */
  predicate IsLoopback(a: Addr) {
    var u := Unmap(a);
    if u.V4? then u.bits / 0x100_0000 == 127 else u.wide == 1
  }

  /** 127.0.0.0 to 127.255.255.255, the same after ::ffff:, and ::1; and all of IPv4, plain or mapped. */
  lemma Ranges(a: Addr)
    ensures a.V4? ==> (IsLoopback(a) <==> 0x7F00_0000 <= a.bits <= 0x7FFF_FFFF) && IsIpv4(a)
    ensures a.V6? ==>
      (IsLoopback(a) <==> a.wide == 1 || 0xFFFF_7F00_0000 <= a.wide <= 0xFFFF_7FFF_FFFF)
    ensures a.V6? ==> (IsIpv4(a) <==> 0xFFFF_0000_0000 <= a.wide <= 0xFFFF_FFFF_FFFF)
  {
  }
}
