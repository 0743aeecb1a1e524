/** Address classes and networks of the policy engine (crates/uk-policy/src/lib.rs). */
module Addresses {
  import Arithmetic
  import opened Bytes
  import opened Protocol
  import opened Targets

  datatype Ip = V4(octets: Octets4) | V6(address: Octets16)

  /** The 16-bit group `k` of an IPv6 address. */
  function Segment(a: Octets16, k: nat): (s: nat)
    requires k < 8
  {
    256 * a[2 * k] as nat + a[2 * k + 1] as nat
  }

  predicate ZeroSegments(a: Octets16, n: nat)
    requires n <= 16
  {
    forall i :: 0 <= i < n ==> a[i] == 0
  }

  // ---------------------------------------------------------------------------------------------
  // IPv4 inside IPv6.
  // ---------------------------------------------------------------------------------------------

  function Mapped(a: Octets16): (ip: Option<Octets4>)
  {
    if ZeroSegments(a, 10) && Segment(a, 5) == 0xffff then Some(a[12..]) else None
  }

  /** The IPv4 address carried by any known transition format. */
  function Embedded(a: Octets16): (ip: Option<Octets4>)
  {
    if Mapped(a).Some? then Mapped(a)
    else if Segment(a, 0) == 0x0064 && Segment(a, 1) == 0xff9b && (forall i :: 4 <= i < 12 ==> a[i] == 0) then Some(a[12..])
    else if ZeroSegments(a, 12) && !(Segment(a, 6) == 0 && Segment(a, 7) <= 1) then Some(a[12..])
    else if Segment(a, 0) == 0x2002 then Some(a[2..6])
    else None
  }

  // ---------------------------------------------------------------------------------------------
  // Classes.
  // ---------------------------------------------------------------------------------------------

  predicate Restricted4(o: Octets4)
  {
    || o[0] == 10 || (o[0] == 172 && 16 <= o[1] <= 31) || (o[0] == 192 && o[1] == 168)  // private
    || o[0] == 127                                                                      // loopback
    || (o[0] == 169 && o[1] == 254)                                                     // link local
    || o == [0, 0, 0, 0] || o == [255, 255, 255, 255]                                   // unspecified, broadcast
    || 224 <= o[0] <= 239                                                               // multicast
    || (o[0] == 192 && o[1] == 0 && o[2] == 2) || (o[0] == 198 && o[1] == 51 && o[2] == 100)
    || (o[0] == 203 && o[1] == 0 && o[2] == 113)                                        // documentation
    || (o[0] == 100 && 64 <= o[1] <= 127)                                               // shared
    || (o[0] == 198 && 18 <= o[1] <= 19)                                                // benchmarking
    || (o[0] == 192 && o[1] == 0 && o[2] == 0)                                          // protocol assignments
    || (o[0] == 192 && o[1] == 88 && o[2] == 99)                                        // 6to4 relay anycast
    || o[0] >= 240                                                                      // reserved
    || o[0] == 0                                                                        // this network
  }

  predicate Restricted6(a: Octets16)
  {
    || 0xfc <= a[0] <= 0xfd                                                             // unique local
    || (ZeroSegments(a, 15) && a[15] <= 1)                                              // unspecified, loopback
    || a[0] == 0xff                                                                     // multicast
    || 0xfe80 <= Segment(a, 0) <= 0xfeff                                                // link local, site local
    || (Segment(a, 0) == 0x2001 && Segment(a, 1) == 0x0db8)
    || (Segment(a, 0) == 0x3fff && Segment(a, 1) < 0x1000)                              // documentation
    || (Segment(a, 0) == 0x2001 && 0x0010 <= Segment(a, 1) <= 0x001f)                   // ORCHID
  }

  predicate Private(ip: Ip)
  {
    match ip
    case V4(o) => Restricted4(o)
    case V6(a) => (Embedded(a).Some? && Restricted4(Embedded(a).value)) || Restricted6(a)
  }

  predicate Metadata4(o: Octets4)
  {
    o == [169, 254, 169, 254] || o == [169, 254, 170, 2] || o == [100, 100, 100, 200] || o == [168, 63, 129, 16]
  }

  predicate Metadata(ip: Ip)
  {
    match ip
    case V4(o) => Metadata4(o)
    case V6(a) =>
      || (Embedded(a).Some? && Metadata4(Embedded(a).value))
      || a == [0xfd, 0x00, 0x0e, 0xc2, 0, 0, 0, 0, 0, 0, 0, 0, 0, 0, 0x02, 0x54]
  }

  // ---------------------------------------------------------------------------------------------
  // Networks.
  // ---------------------------------------------------------------------------------------------

  datatype Cidr = Net4(network: Octets4, prefix: nat) | Net6(network6: Octets16, prefix: nat)

  function Pow2(k: nat): (p: nat)
    ensures p > 0
  {
    if k == 0 then 1 else 2 * Pow2(k - 1)
  }

  /** Equality under a mask that keeps the `prefix` top bits of `width`; an over-long prefix keeps them all. */
  predicate SameNetwork(a: nat, b: nat, width: nat, prefix: nat)
  {
    var low := if prefix < width then width - prefix else 0;
    a / Pow2(low) == b / Pow2(low)
  }

  predicate Contains(cidr: Cidr, ip: Ip)
  {
    match (cidr, ip)
    case (Net4(network, prefix), V4(o)) => SameNetwork(FromBigEndian(network), FromBigEndian(o), 32, prefix)
    case (Net4(network, prefix), V6(a)) =>
      Mapped(a).Some? && SameNetwork(FromBigEndian(network), FromBigEndian(Mapped(a).value), 32, prefix)
    case (Net6(network, prefix), V6(a)) => SameNetwork(FromBigEndian(network), FromBigEndian(a), 128, prefix)
    case (Net6(_, _), V4(_)) => false
  }

  lemma HalveQuotient(a: nat, p: nat)
    requires p > 0
    ensures a / (2 * p) == (a / p) / 2
  {
    var q, r := a / p, a % p;
    assert a == p * q + r;
    var h, s := q / 2, q % 2;
    assert a == h * (2 * p) + (p * s + r);
    assert 0 <= p * s + r < 2 * p;
    Arithmetic.Quotient(a, 2 * p, h, p * s + r);
  }
}
