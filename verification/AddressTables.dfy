/**
 Networks bit by bit, and the address classes as unions of networks (crates/uk-policy/src/lib.rs).
 */
module AddressTables {
  import opened Addresses
  import Arithmetic
  import opened Bytes
  import opened Protocol
  import opened Targets

  // ---------------------------------------------------------------------------------------------
  // Networks.
  // ---------------------------------------------------------------------------------------------

  lemma {:induction false} DropByte(a: nat, e: nat)
    ensures a / Pow2(8 + e) == (a / 256) / Pow2(e)
  {
    if e == 0 {
      EightBits();
    } else {
      DropByte(a, e - 1);
      HalveQuotient(a, Pow2(7 + e));
      HalveQuotient(a / 256, Pow2(e - 1));
    }
  }

  lemma EightBits()
    ensures Pow2(0) == 1 && Pow2(1) == 2 && Pow2(2) == 4 && Pow2(3) == 8 && Pow2(4) == 16
    ensures Pow2(5) == 32 && Pow2(6) == 64 && Pow2(7) == 128 && Pow2(8) == 256
  {
    assert Pow2(3) == 2 * Pow2(2);
    assert Pow2(6) == 2 * Pow2(5);
  }

  lemma LastByte(s: seq<Byte>)
    requires s != []
    ensures FromBigEndian(s) / 256 == FromBigEndian(s[..|s| - 1]) && FromBigEndian(s) % 256 == s[|s| - 1] as nat
  {
  }

  /** Bit `k` of an address, counted from the top of its first byte. */
  function AddressBit(s: seq<Byte>, k: nat): (b: nat)
    requires k < 8 * |s|
  {
    s[k / 8] as nat / Pow2(7 - k % 8) % 2
  }

  lemma {:induction false} BitOfNumber(s: seq<Byte>, k: nat)
    requires k < 8 * |s|
    ensures FromBigEndian(s) / Pow2(8 * |s| - 1 - k) % 2 == AddressBit(s, k)
  {
    var init, e := s[..|s| - 1], 8 * |s| - 1 - k;
    LastByte(s);
    if e < 8 {
      assert k / 8 == |s| - 1 && 7 - k % 8 == e;
      LowBit(FromBigEndian(s), e);
    } else {
      DropByte(FromBigEndian(s), e - 8);
      BitOfNumber(init, k);
      assert s[k / 8] == init[k / 8];
    }
  }

  lemma LowBit(x: nat, e: nat)
    requires e < 8
    ensures x / Pow2(e) % 2 == x % 256 / Pow2(e) % 2
  {
    Halves(e);
    LowBitBy(x / 256, x % 256, Pow2(7 - e), Pow2(e));
  }

  lemma LowBitBy(q: nat, r: nat, h: nat, d: nat)
    requires d > 0 && 2 * h * d == 256
    ensures (256 * q + r) / d % 2 == r / d % 2
  {
    ScaledBy(2 * h, d, q, r);
    EvenPart(h, q, r / d);
  }

  lemma EvenPart(h: nat, q: nat, y: nat)
    ensures (2 * h * q + y) % 2 == y % 2
  {
    assert 2 * h * q == 2 * (h * q);
  }

  lemma Halves(e: nat)
    requires e <= 8
    ensures Pow2(8 - e) * Pow2(e) == 256
  {
    EightBits();
  }

  /** Dividing a two-digit number by a part of its base divides the low digit only. */
  lemma ScaledBy(k: nat, d: nat, q: nat, r: nat)
    requires d > 0 && k * d == 256
    ensures (256 * q + r) / d == k * q + r / d
  {
    Arithmetic.Whole(r, d);
    assert k * q * d == 256 * q;
    var whole, left := k * q + r / d, r - r / d * d;
    assert whole * d == k * q * d + r / d * d;
    Arithmetic.Quotient(256 * q + r, d, whole, left);
  }

  predicate SameBits(s: seq<Byte>, t: seq<Byte>, n: nat)
    requires |s| == |t| && n <= 8 * |s|
  {
    forall k :: 0 <= k < n ==> AddressBit(s, k) == AddressBit(t, k)
  }

  lemma {:induction false} WholeIsZero(s: seq<Byte>)
    ensures FromBigEndian(s) / Pow2(8 * |s|) == 0
  {
    if s == [] {
      EightBits();
    } else {
      LastByte(s);
      DropByte(FromBigEndian(s), 8 * |s| - 8);
      WholeIsZero(s[..|s| - 1]);
    }
  }

  lemma {:induction false} TopBitsAgree(s: seq<Byte>, t: seq<Byte>, n: nat)
    requires |s| == |t| && n <= 8 * |s|
    ensures SameNetwork(FromBigEndian(s), FromBigEndian(t), 8 * |s|, n) <==> SameBits(s, t, n)
  {
    if n == 0 {
      WholeIsZero(s);
      WholeIsZero(t);
    } else {
      var a, b, p := FromBigEndian(s), FromBigEndian(t), Pow2(8 * |s| - n);
      TopBitsAgree(s, t, n - 1);
      HalveQuotient(a, p);
      HalveQuotient(b, p);
      BitOfNumber(s, n - 1);
      BitOfNumber(t, n - 1);
      assert SameBits(s, t, n) <==> SameBits(s, t, n - 1) && AddressBit(s, n - 1) == AddressBit(t, n - 1);
    }
  }

  lemma SameNetworkIff(s: seq<Byte>, t: seq<Byte>, prefix: nat)
    requires |s| == |t|
    ensures SameNetwork(FromBigEndian(s), FromBigEndian(t), 8 * |s|, prefix) <==>
      SameBits(s, t, if prefix < 8 * |s| then prefix else 8 * |s|)
  {
    if prefix < 8 * |s| {
      TopBitsAgree(s, t, prefix);
    } else {
      TopBitsAgree(s, t, 8 * |s|);
    }
  }

  /**
   An address is inside a network exactly when its first `prefix` bits are the network's, all of them for an
   over-long prefix. An IPv4 network holds IPv6 addresses only in their mapped form, an IPv6 network no IPv4 ones.
   */
  lemma ContainsIff(cidr: Cidr, ip: Ip)
    ensures Contains(cidr, ip) <==>
      match (cidr, ip)
      case (Net4(net, prefix), V4(o)) => SameBits(net, o, if prefix < 32 then prefix else 32)
      case (Net4(net, prefix), V6(a)) =>
        a[..12] == [0, 0, 0, 0, 0, 0, 0, 0, 0, 0, 0xff, 0xff] && SameBits(net, a[12..], if prefix < 32 then prefix else 32)
      case (Net6(net, prefix), V6(a)) => SameBits(net, a, if prefix < 128 then prefix else 128)
      case (Net6(_, _), V4(_)) => false
  {
    match (cidr, ip)
    case (Net4(net, prefix), V4(o)) => SameNetworkIff(net, o, prefix);
    case (Net4(net, prefix), V6(a)) =>
      MappedIff(a);
      SameNetworkIff(net, a[12..], prefix);
    case (Net6(net, prefix), V6(a)) => SameNetworkIff(net, a, prefix);
    case (Net6(_, _), V4(_)) =>
  }

  /** A longer prefix, even an out-of-range one, never matches more. */
  lemma LongerPrefixMatchesLess(cidr: Cidr, longer: nat, ip: Ip)
    requires cidr.prefix <= longer && Contains(cidr.(prefix := longer), ip)
    ensures Contains(cidr, ip)
  {
    ContainsIff(cidr, ip);
    ContainsIff(cidr.(prefix := longer), ip);
  }

  lemma MappedIff(a: Octets16)
    ensures Mapped(a) == if a[..12] == [0, 0, 0, 0, 0, 0, 0, 0, 0, 0, 0xff, 0xff] then Some(a[12..]) else None
  {
    var prefix: seq<Byte> := [0, 0, 0, 0, 0, 0, 0, 0, 0, 0, 0xff, 0xff];
    if Mapped(a).Some? {
      assert a[10] == 0xff && a[11] == 0xff;
      assert a[..12] == prefix;
    }
    if a[..12] == prefix {
      assert forall i :: 0 <= i < 12 ==> a[i] == prefix[i];
    }
  }

  // ---------------------------------------------------------------------------------------------
  // Classes.
  // ---------------------------------------------------------------------------------------------

  /** A prefix within the first `m` bytes looks at nothing else. */
  lemma {:induction false} FirstBytesDecide(s: seq<Byte>, t: seq<Byte>, m: nat, prefix: nat)
    requires |s| == |t| && m <= |s| && prefix <= 8 * m
    ensures SameNetwork(FromBigEndian(s), FromBigEndian(t), 8 * |s|, prefix) <==>
      SameNetwork(FromBigEndian(s[..m]), FromBigEndian(t[..m]), 8 * m, prefix)
    decreases |s|
  {
    if m == |s| {
      assert s[..m] == s && t[..m] == t;
    } else {
      var e := 8 * |s| - 8 - prefix;
      LastByte(s);
      LastByte(t);
      DropByte(FromBigEndian(s), e);
      DropByte(FromBigEndian(t), e);
      FirstBytesDecide(s[..|s| - 1], t[..|s| - 1], m, prefix);
      assert s[..|s| - 1][..m] == s[..m] && t[..|s| - 1][..m] == t[..m];
    }
  }

  lemma TwoDigits(a: nat, b: nat, c: nat, d: nat, e: nat)
    requires b < 256 && d < 256 && e <= 8
    ensures (256 * a + b) / Pow2(e) == (256 * c + d) / Pow2(e) <==> a == c && b / Pow2(e) == d / Pow2(e)
  {
    Halves(e);
    TwoDigitsBy(a, b, c, d, Pow2(8 - e), Pow2(e));
  }

  lemma TwoDigitsBy(a: nat, b: nat, c: nat, d: nat, k: nat, p: nat)
    requires b < 256 && d < 256 && p > 0 && k * p == 256
    ensures (256 * a + b) / p == (256 * c + d) / p <==> a == c && b / p == d / p
  {
    ScaledBy(k, p, a, b);
    ScaledBy(k, p, c, d);
    BelowBy(b, p, k);
    BelowBy(d, p, k);
    SameDigits(k, a, b / p, c, d / p);
  }

  lemma BelowBy(r: nat, d: nat, k: nat)
    requires d > 0 && r < k * d
    ensures r / d < k
  {
    Arithmetic.Whole(r, d);
    if k <= r / d {
      Arithmetic.Scale(k, r / d, d);
    }
  }

  lemma SameDigits(k: nat, a: nat, u: nat, c: nat, v: nat)
    requires u < k && v < k
    ensures k * a + u == k * c + v <==> a == c && u == v
  {
    if k * a + u == k * c + v {
      Arithmetic.Quotient(k * a + u, k, a, u);
      Arithmetic.Quotient(k * a + u, k, c, v);
    }
  }

  lemma SameValue(s: seq<Byte>, t: seq<Byte>)
    requires |s| == |t|
    ensures FromBigEndian(s) == FromBigEndian(t) <==> s == t
  {
    WritesBackRead(s);
    WritesBackRead(t);
  }

  lemma LastDigit(s: seq<Byte>, t: seq<Byte>, e: nat)
    requires |s| == |t| > 0 && e <= 8
    ensures FromBigEndian(s) / Pow2(e) == FromBigEndian(t) / Pow2(e) <==>
      s[..|s| - 1] == t[..|s| - 1] && s[|s| - 1] as nat / Pow2(e) == t[|s| - 1] as nat / Pow2(e)
  {
    var a, c := s[..|s| - 1], t[..|s| - 1];
    SameValue(a, c);
    TwoDigits(FromBigEndian(a), s[|s| - 1] as nat, FromBigEndian(c), t[|s| - 1] as nat, e);
  }

  /** A prefix that leaves `e` bits of byte `m` free: the bytes before it agree, and its other bits. */
  lemma ByteDecides(s: seq<Byte>, t: seq<Byte>, m: nat, e: nat)
    requires |s| == |t| > m && e < 8
    ensures SameNetwork(FromBigEndian(s), FromBigEndian(t), 8 * |s|, 8 * m + 8 - e) <==>
      s[..m] == t[..m] && s[m] as nat / Pow2(e) == t[m] as nat / Pow2(e)
  {
    var u, v := s[..m + 1], t[..m + 1];
    FirstBytesDecide(s, t, m + 1, 8 * m + 8 - e);
    LastDigit(u, v, e);
    assert u[..m] == s[..m] && v[..m] == t[..m];
  }

  /** `o` is in the network `a.b.c.0/prefix`. */
  predicate In4(o: Octets4, a: Byte, b: Byte, c: Byte, prefix: nat)
  {
    Contains(Net4([a, b, c, 0], prefix), V4(o))
  }

  lemma ByFirst(o: Octets4, a: Byte, e: nat)
    requires e < 8
    ensures In4(o, a, 0, 0, 8 - e) <==> a as nat / Pow2(e) == o[0] as nat / Pow2(e)
  {
    var net: Octets4 := [a, 0, 0, 0];
    ByteDecides(net, o, 0, e);
  }

  lemma BySecond(o: Octets4, a: Byte, b: Byte, e: nat)
    requires e < 8
    ensures In4(o, a, b, 0, 16 - e) <==> o[0] == a && b as nat / Pow2(e) == o[1] as nat / Pow2(e)
  {
    var net: Octets4 := [a, b, 0, 0];
    ByteDecides(net, o, 1, e);
    assert net[..1] == [a] && o[..1] == [o[0]];
  }

  lemma ByThird(o: Octets4, a: Byte, b: Byte, c: Byte)
    ensures In4(o, a, b, c, 24) <==> o[0] == a && o[1] == b && o[2] == c
  {
    var net: Octets4 := [a, b, c, 0];
    ByteDecides(net, o, 2, 0);
    assert net[..2] == [a, b] && o[..2] == [o[0], o[1]];
  }

  /** The restricted IPv4 addresses are those of these networks: private, loopback, link local and so on. */
  lemma Restricted4Networks(o: Octets4)
    ensures Restricted4(o) <==>
      || In4(o, 0, 0, 0, 8) || In4(o, 10, 0, 0, 8) || In4(o, 127, 0, 0, 8)
      || In4(o, 224, 0, 0, 4) || In4(o, 240, 0, 0, 4)
      || In4(o, 100, 64, 0, 10) || In4(o, 172, 16, 0, 12) || In4(o, 198, 18, 0, 15)
      || In4(o, 169, 254, 0, 16) || In4(o, 192, 168, 0, 16)
      || In4(o, 192, 0, 0, 24) || In4(o, 192, 0, 2, 24) || In4(o, 192, 88, 99, 24)
      || In4(o, 198, 51, 100, 24) || In4(o, 203, 0, 113, 24)
  {
    ShortNetworks(o);
    LongNetworks(o);
    assert o == [0, 0, 0, 0] ==> o[0] == 0;
    assert o == [255, 255, 255, 255] ==> o[0] == 255;
  }

  lemma ShortNetworks(o: Octets4)
    ensures In4(o, 0, 0, 0, 8) <==> o[0] == 0
    ensures In4(o, 10, 0, 0, 8) <==> o[0] == 10
    ensures In4(o, 127, 0, 0, 8) <==> o[0] == 127
    ensures In4(o, 224, 0, 0, 4) <==> 224 <= o[0] <= 239
    ensures In4(o, 240, 0, 0, 4) <==> o[0] >= 240
    ensures In4(o, 100, 64, 0, 10) <==> o[0] == 100 && 64 <= o[1] <= 127
    ensures In4(o, 172, 16, 0, 12) <==> o[0] == 172 && 16 <= o[1] <= 31
    ensures In4(o, 198, 18, 0, 15) <==> o[0] == 198 && 18 <= o[1] <= 19
    ensures In4(o, 169, 254, 0, 16) <==> o[0] == 169 && o[1] == 254
    ensures In4(o, 192, 168, 0, 16) <==> o[0] == 192 && o[1] == 168
  {
    EightBits();
    ByFirst(o, 0, 0);
    ByFirst(o, 10, 0);
    ByFirst(o, 127, 0);
    ByFirst(o, 224, 4);
    ByFirst(o, 240, 4);
    BySecond(o, 100, 64, 6);
    BySecond(o, 172, 16, 4);
    BySecond(o, 198, 18, 1);
    BySecond(o, 169, 254, 0);
    BySecond(o, 192, 168, 0);
  }

  lemma LongNetworks(o: Octets4)
    ensures In4(o, 192, 0, 0, 24) <==> o[0] == 192 && o[1] == 0 && o[2] == 0
    ensures In4(o, 192, 0, 2, 24) <==> o[0] == 192 && o[1] == 0 && o[2] == 2
    ensures In4(o, 192, 88, 99, 24) <==> o[0] == 192 && o[1] == 88 && o[2] == 99
    ensures In4(o, 198, 51, 100, 24) <==> o[0] == 198 && o[1] == 51 && o[2] == 100
    ensures In4(o, 203, 0, 113, 24) <==> o[0] == 203 && o[1] == 0 && o[2] == 113
  {
    ByThird(o, 192, 0, 0);
    ByThird(o, 192, 0, 2);
    ByThird(o, 192, 88, 99);
    ByThird(o, 198, 51, 100);
    ByThird(o, 203, 0, 113);
  }

  /** `a` is in the network whose first bytes are `net`, the rest zero. */
  predicate In6(a: Octets16, net: seq<Byte>, prefix: nat)
    requires |net| == 4
  {
    Contains(Net6(net + [0, 0, 0, 0, 0, 0, 0, 0, 0, 0, 0, 0], prefix), V6(a))
  }

  /** The same, for the first four bytes of an IPv6 address. */
  lemma ByByte(a: Octets16, net: seq<Byte>, m: nat, e: nat)
    requires |net| == 4 && m < 4 && e < 8
    ensures In6(a, net, 8 * m + 8 - e) <==> net[..m] == a[..m] && net[m] as nat / Pow2(e) == a[m] as nat / Pow2(e)
  {
    var whole: Octets16 := net + [0, 0, 0, 0, 0, 0, 0, 0, 0, 0, 0, 0];
    ByteDecides(whole, a, m, e);
    assert whole[..m] == net[..m];
  }

  lemma BySecond6(a: Octets16, x: Byte, y: Byte, e: nat)
    requires e < 8
    ensures In6(a, [x, y, 0, 0], 16 - e) <==> a[0] == x && y as nat / Pow2(e) == a[1] as nat / Pow2(e)
  {
    var net: seq<Byte> := [x, y, 0, 0];
    ByByte(a, net, 1, e);
    assert net[..1] == [x] && a[..1] == [a[0]];
  }

  lemma ByThird6(a: Octets16, x: Byte, y: Byte, z: Byte, e: nat)
    requires e < 8
    ensures In6(a, [x, y, z, 0], 24 - e) <==> a[0] == x && a[1] == y && z as nat / Pow2(e) == a[2] as nat / Pow2(e)
  {
    var net: seq<Byte> := [x, y, z, 0];
    ByByte(a, net, 2, e);
    assert net[..2] == [x, y] && a[..2] == [a[0], a[1]];
  }

  lemma ByFourth6(a: Octets16, x: Byte, y: Byte, z: Byte, w: Byte, e: nat)
    requires e < 8
    ensures In6(a, [x, y, z, w], 32 - e) <==>
      a[0] == x && a[1] == y && a[2] == z && w as nat / Pow2(e) == a[3] as nat / Pow2(e)
  {
    var net: seq<Byte> := [x, y, z, w];
    ByByte(a, net, 3, e);
    assert net[..3] == [x, y, z] && a[..3] == [a[0], a[1], a[2]];
  }

  /** The restricted IPv6 addresses are those of these networks. */
  lemma Restricted6Networks(a: Octets16)
    ensures Restricted6(a) <==>
      || In6(a, [0xfc, 0, 0, 0], 7) || In6(a, [0xff, 0, 0, 0], 8)
      || In6(a, [0xfe, 0x80, 0, 0], 9) || In6(a, [0, 0, 0, 0], 127)
      || In6(a, [0x20, 0x01, 0x0d, 0xb8], 32) || In6(a, [0x3f, 0xff, 0, 0], 20) || In6(a, [0x20, 0x01, 0, 0x10], 28)
  {
    WideNetworks6(a);
    Local6(a);
    Documentation6(a);
    LaterDocumentation6(a);
    Orchid6(a);
    LowestPair(a);
  }

  lemma WideNetworks6(a: Octets16)
    ensures In6(a, [0xfc, 0, 0, 0], 7) <==> 0xfc <= a[0] <= 0xfd
    ensures In6(a, [0xff, 0, 0, 0], 8) <==> a[0] == 0xff
  {
    EightBits();
    ByByte(a, [0xfc, 0, 0, 0], 0, 1);
    ByByte(a, [0xff, 0, 0, 0], 0, 0);
  }

  lemma Local6(a: Octets16)
    ensures In6(a, [0xfe, 0x80, 0, 0], 9) <==> 0xfe80 <= Segment(a, 0) <= 0xfeff
  {
    EightBits();
    BySecond6(a, 0xfe, 0x80, 7);
  }

  lemma Documentation6(a: Octets16)
    ensures In6(a, [0x20, 0x01, 0x0d, 0xb8], 32) <==> Segment(a, 0) == 0x2001 && Segment(a, 1) == 0x0db8
  {
    EightBits();
    ByFourth6(a, 0x20, 0x01, 0x0d, 0xb8, 0);
  }

  lemma LaterDocumentation6(a: Octets16)
    ensures In6(a, [0x3f, 0xff, 0, 0], 20) <==> Segment(a, 0) == 0x3fff && Segment(a, 1) < 0x1000
  {
    EightBits();
    ByThird6(a, 0x3f, 0xff, 0, 4);
  }

  lemma Orchid6(a: Octets16)
    ensures In6(a, [0x20, 0x01, 0, 0x10], 28) <==> Segment(a, 0) == 0x2001 && 0x0010 <= Segment(a, 1) <= 0x001f
  {
    EightBits();
    ByFourth6(a, 0x20, 0x01, 0, 0x10, 4);
  }

  lemma LowestPair(a: Octets16)
    ensures In6(a, [0, 0, 0, 0], 127) <==> ZeroSegments(a, 15) && a[15] <= 1
  {
    var net: Octets16 := [0, 0, 0, 0] + [0, 0, 0, 0, 0, 0, 0, 0, 0, 0, 0, 0];
    EightBits();
    ByteDecides(net, a, 15, 1);
    assert ZeroSegments(net, 15);
    if ZeroSegments(a, 15) {
      assert net[..15] == a[..15];
    }
    if net[..15] == a[..15] {
      assert forall i :: 0 <= i < 15 ==> a[i] == a[..15][i];
    }
  }

  /** The metadata services of the clouds, and no others. */
  lemma MetadataServices(o: Octets4, a: Octets16)
    ensures Metadata(V4(o)) <==> o in {[169, 254, 169, 254], [169, 254, 170, 2], [100, 100, 100, 200], [168, 63, 129, 16]}
    ensures a == [0xfd, 0, 0x0e, 0xc2, 0, 0, 0, 0, 0, 0, 0, 0, 0, 0, 0x02, 0x54] ==> Metadata(V6(a))
  {
  }

  // ---------------------------------------------------------------------------------------------
  // IPv4 carried in IPv6.
  // ---------------------------------------------------------------------------------------------

  const MAPPED_PREFIX: seq<Byte> := [0, 0, 0, 0, 0, 0, 0, 0, 0, 0, 0xff, 0xff]
  const NAT64_PREFIX: seq<Byte> := [0, 0x64, 0xff, 0x9b, 0, 0, 0, 0, 0, 0, 0, 0]
  const COMPATIBLE_PREFIX: seq<Byte> := [0, 0, 0, 0, 0, 0, 0, 0, 0, 0, 0, 0]

  /** Every form that carries an IPv4 address is seen through: mapped, NAT64, IPv4-compatible and 6to4. */
  lemma MappedIsSeenThrough(o: Octets4)
    ensures Embedded(MAPPED_PREFIX + o) == Some(o) && Mapped(MAPPED_PREFIX + o) == Some(o)
  {
    var a: Octets16 := MAPPED_PREFIX + o;
    assert a[12..] == o && a[..12] == MAPPED_PREFIX;
    MappedIff(a);
  }

  lemma Nat64IsSeenThrough(o: Octets4)
    ensures Embedded(NAT64_PREFIX + o) == Some(o)
  {
    var a: Octets16 := NAT64_PREFIX + o;
    assert a[12..] == o;
    assert a[0] == 0 && a[1] == 0x64 && a[2] == 0xff && a[3] == 0x9b;
  }

  /** `::` and `::1` are the unspecified and the loopback address, not IPv4 ones. */
  lemma CompatibleIsSeenThrough(o: Octets4)
    ensures Embedded(COMPATIBLE_PREFIX + o) == if o in {[0, 0, 0, 0], [0, 0, 0, 1]} then None else Some(o)
  {
    var a: Octets16 := COMPATIBLE_PREFIX + o;
    assert a[12..] == o;
    assert a[12] == o[0] && a[13] == o[1] && a[14] == o[2] && a[15] == o[3];
    assert o == [o[0], o[1], o[2], o[3]];
  }

  lemma SixToFourIsSeenThrough(o: Octets4, rest: seq<Byte>)
    requires |rest| == 10
    ensures Embedded([0x20, 0x02] + o + rest) == Some(o)
  {
    var a: Octets16 := [0x20, 0x02] + o + rest;
    assert a[2..6] == o;
    assert a[0] == 0x20 && a[1] == 0x02;
  }

  /** `a` is an IPv6 address that stands for the IPv4 address `o`. */
  predicate Carries(a: Octets16, o: Octets4)
  {
    || (a[..12] == MAPPED_PREFIX && a[12..] == o)
    || (a[..12] == NAT64_PREFIX && a[12..] == o)
    || (a[..12] == COMPATIBLE_PREFIX && a[12..] == o && o !in {[0, 0, 0, 0], [0, 0, 0, 1]})
    || (a[..2] == [0x20, 0x02] && a[2..6] == o)
  }

  lemma CarriedIsSeenThrough(a: Octets16, o: Octets4)
    requires Carries(a, o)
    ensures Embedded(a) == Some(o)
  {
    if a[..2] == [0x20, 0x02] && a[2..6] == o {
      assert a == [0x20, 0x02] + o + a[6..];
      SixToFourIsSeenThrough(o, a[6..]);
    } else {
      assert a == a[..12] + o;
      MappedIsSeenThrough(o);
      Nat64IsSeenThrough(o);
      CompatibleIsSeenThrough(o);
    }
  }

  /** Nothing else is taken for an IPv4 address. */
  lemma OnlyCarriedIsSeenThrough(a: Octets16)
    requires Embedded(a).Some?
    ensures Carries(a, Embedded(a).value)
  {
    MappedIff(a);
    if Mapped(a).None? {
      if Segment(a, 0) == 0x0064 && Segment(a, 1) == 0xff9b && forall i :: 4 <= i < 12 ==> a[i] == 0 {
        assert a[0] == 0 && a[1] == 0x64 && a[2] == 0xff && a[3] == 0x9b;
        assert a[..12] == NAT64_PREFIX;
      } else if ZeroSegments(a, 12) && !(Segment(a, 6) == 0 && Segment(a, 7) <= 1) {
        assert a[..12] == COMPATIBLE_PREFIX;
        assert a[12..][0] == a[12] && a[12..][1] == a[13] && a[12..][2] == a[14] && a[12..][3] == a[15];
      } else {
        assert a[0] == 0x20 && a[1] == 0x02;
        assert a[..2] == [0x20, 0x02];
      }
    }
  }

  /** So a restricted or metadata IPv4 address is one in every form it can be carried in. */
  lemma FormsInherit(a: Octets16, o: Octets4)
    requires Carries(a, o)
    ensures Private(V4(o)) ==> Private(V6(a))
    ensures Metadata(V4(o)) ==> Metadata(V6(a))
  {
    CarriedIsSeenThrough(a, o);
  }
}
