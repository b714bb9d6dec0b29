/**
 * IPv4 subnet arithmetic and the search for a local interface address in the
 * camera's subnet (class `NetUtil`).
 *
 * Java `int` values that hold IPv4 addresses and masks are kept as their
 * 32-bit patterns (`bv32`); the code only combines them with `&` and `==`,
 * on which signed and unsigned readings agree.
 */
module NetUtil {
  import opened Java

  /**
   * A local or remote address as Java sees it: an `Inet4Address` with its
   * four bytes in network order, or any other kind (IPv6).
   */
  datatype InetAddress =
    | Inet4Address(b0: byte, b1: byte, b2: byte, b3: byte)
    | OtherAddress

  /**
   * The distance Java actually shifts an `int` by: only the low five bits of
   * the right operand are used (section 15.19 of the Java Language
   * Specification).
   */
  function JavaShiftDistance(d: bv32): (s: bv32)
    ensures s < 32
    ensures d < 32 ==> s == d
    ensures d == 32 ==> s == 0
    ensures s == d % 32
  {
    d & 31
  }

  /**
   * The mask `-1 << (32 - netMaskBitSize)` as Java evaluates it, `32 - n`
   * wrapping like Java `int` subtraction. Because the shift distance is taken
   * modulo 32, a size of 0 shifts by 0 and gives the all-ones mask, the same
   * as a size of 32.
   */
  function NetMask(netMaskBitSize: bv32): bv32
  {
    0xFFFF_FFFF << HostBits(netMaskBitSize)
  }

  /** `isInSameSubnet`: the two addresses agree under the mask for `netMaskBitSize`. */
  predicate IsInSameSubnet(ip1: bv32, ip2: bv32, netMaskBitSize: bv32)
  {
    (ip1 & NetMask(netMaskBitSize)) == (ip2 & NetMask(netMaskBitSize))
  }

  /** Bit `i` (0 is the least significant) of `x`. */
  predicate Bit(x: bv32, i: bv32)
    requires i < 32
  {
    ((x >> i) & 1) == 1
  }

  /**
   * The number of low (host) bits the mask for `n` clears: `32 - n` for a
   * prefix length of 1 to 32, and 0 for a prefix length of 0.
   */
  function HostBits(n: bv32): (h: bv32)
    ensures h < 32
    ensures 1 <= n <= 32 ==> h == 32 - n
    ensures n == 0 ==> h == 0
  {
    JavaShiftDistance(32 - n)
  }

  /** `inetAddrToInt`: the four bytes packed big-endian, or 0 for a non-IPv4 address. */
  function InetAddrToInt(address: InetAddress): (r: bv32)
    ensures address.OtherAddress? ==> r == 0
  {
    match address
    case Inet4Address(b0, b1, b2, b3) =>
      ((b0 as bv32) << 24) | ((b1 as bv32) << 16) | ((b2 as bv32) << 8) | (b3 as bv32)
    case OtherAddress => 0
  }

  /** As an unsigned number, the packed form of `b0.b1.b2.b3` is `b0*2^24 + b1*2^16 + b2*2^8 + b3`. */
  lemma InetAddrToIntValue(address: InetAddress)
    requires address.Inet4Address?
    ensures InetAddrToInt(address) as int
            == address.b0 as int * 0x100_0000 + address.b1 as int * 0x1_0000
               + address.b2 as int * 0x100 + address.b3 as int
  {
    PackedValue(address.b0, address.b1, address.b2, address.b3);
  }

  /** The arithmetic fact behind `InetAddrToIntValue`, on the four bytes themselves. */
  lemma PackedValue(b0: byte, b1: byte, b2: byte, b3: byte)
    ensures (((b0 as bv32) << 24) | ((b1 as bv32) << 16) | ((b2 as bv32) << 8) | (b3 as bv32)) as int
            == b0 as int * 0x100_0000 + b1 as int * 0x1_0000 + b2 as int * 0x100 + b3 as int
  {
  }

  /** The IPv4 address whose packed form is `x`: the inverse of `InetAddrToInt` on IPv4 addresses. */
  function Inet4FromInt(x: bv32): (a: InetAddress)
    ensures a.Inet4Address?
  {
    Inet4Address((x >> 24) as byte, ((x >> 16) & 0xFF) as byte, ((x >> 8) & 0xFF) as byte, (x & 0xFF) as byte)
  }

  /** Each byte of an IPv4 address is recovered from its packed form by shifting and masking. */
  lemma InetAddrToIntRoundTrip(address: InetAddress)
    requires address.Inet4Address?
    ensures Inet4FromInt(InetAddrToInt(address)) == address
  {
  }

  /** Packing is onto: every 32-bit value is the packed form of exactly one IPv4 address. */
  lemma Inet4FromIntRoundTrip(x: bv32)
    ensures InetAddrToInt(Inet4FromInt(x)) == x
  {
  }

  /** For a prefix length of 1 to 32 the mask has exactly the top `n` bits set. */
  lemma NetMaskHasTopBits(n: bv32, i: bv32)
    requires 1 <= n <= 32 && i < 32
    ensures Bit(NetMask(n), i) <==> i >= 32 - n
  {
  }

  /** `a` and `b` agree bit by bit on every position from `s` up. */
  ghost predicate BitsAgreeFrom(a: bv32, b: bv32, s: bv32)
    requires s < 32
  {
    forall i: bv32 :: s <= i < 32 ==> Bit(a, i) == Bit(b, i)
  }

  /** The all-ones value shifted left by `s` has exactly the bits from `s` up set. */
  lemma HighMaskBit(s: bv32, i: bv32)
    requires s < 32 && i < 32
    ensures Bit(0xFFFF_FFFF << s, i) ==> s <= i
    ensures s <= i ==> Bit(0xFFFF_FFFF << s, i)
  {
  }

  /** A bit of `x & m` is set exactly when it is set in both `x` and `m`. */
  lemma BitOfAnd(x: bv32, m: bv32, i: bv32)
    requires i < 32
    ensures Bit(x & m, i) ==> Bit(x, i) && Bit(m, i)
    ensures Bit(x, i) && Bit(m, i) ==> Bit(x & m, i)
  {
  }

  /** Values equal under a mask agree on every bit the mask keeps. */
  lemma AgreeAtMaskedBit(a: bv32, b: bv32, m: bv32, i: bv32)
    requires i < 32 && (a & m) == (b & m) && Bit(m, i)
    ensures Bit(a, i) == Bit(b, i)
  {
    BitOfAnd(a, m, i);
    BitOfAnd(b, m, i);
  }

  /** Values agreeing on a bit the mask keeps agree on that bit once masked; other bits are cleared in both. */
  lemma MaskedAgreeAtBit(a: bv32, b: bv32, m: bv32, i: bv32)
    requires i < 32
    requires Bit(m, i) ==> Bit(a, i) == Bit(b, i)
    ensures Bit(a & m, i) == Bit(b & m, i)
  {
    BitOfAnd(a, m, i);
    BitOfAnd(b, m, i);
  }

  /** A 32-bit value is determined by its 32 bits. */
  lemma ThirtyTwoBitsDetermineValue(x: bv32, y: bv32)
    requires && Bit(x, 0) == Bit(y, 0) && Bit(x, 1) == Bit(y, 1) && Bit(x, 2) == Bit(y, 2) && Bit(x, 3) == Bit(y, 3)
              && Bit(x, 4) == Bit(y, 4) && Bit(x, 5) == Bit(y, 5) && Bit(x, 6) == Bit(y, 6) && Bit(x, 7) == Bit(y, 7)
              && Bit(x, 8) == Bit(y, 8) && Bit(x, 9) == Bit(y, 9) && Bit(x, 10) == Bit(y, 10) && Bit(x, 11) == Bit(y, 11)
              && Bit(x, 12) == Bit(y, 12) && Bit(x, 13) == Bit(y, 13) && Bit(x, 14) == Bit(y, 14) && Bit(x, 15) == Bit(y, 15)
              && Bit(x, 16) == Bit(y, 16) && Bit(x, 17) == Bit(y, 17) && Bit(x, 18) == Bit(y, 18) && Bit(x, 19) == Bit(y, 19)
              && Bit(x, 20) == Bit(y, 20) && Bit(x, 21) == Bit(y, 21) && Bit(x, 22) == Bit(y, 22) && Bit(x, 23) == Bit(y, 23)
              && Bit(x, 24) == Bit(y, 24) && Bit(x, 25) == Bit(y, 25) && Bit(x, 26) == Bit(y, 26) && Bit(x, 27) == Bit(y, 27)
              && Bit(x, 28) == Bit(y, 28) && Bit(x, 29) == Bit(y, 29) && Bit(x, 30) == Bit(y, 30) && Bit(x, 31) == Bit(y, 31)
    ensures x == y
  {
  }

  /** Two values that agree on every bit are equal. */
  lemma BitExtensionality(x: bv32, y: bv32)
    requires forall i: bv32 :: i < 32 ==> Bit(x, i) == Bit(y, i)
    ensures x == y
  {
    ThirtyTwoBitsDetermineValue(x, y);
  }

  /** Masked agreement from bit `s` up gives agreement on each of those bits. */
  lemma HighMaskedAgreeGivesBits(a: bv32, b: bv32, s: bv32)
    requires s < 32
    requires (a & (0xFFFF_FFFF << s)) == (b & (0xFFFF_FFFF << s))
    ensures BitsAgreeFrom(a, b, s)
  {
    forall i: bv32 | s <= i < 32
      ensures Bit(a, i) == Bit(b, i)
    {
      HighMaskBit(s, i);
      AgreeAtMaskedBit(a, b, 0xFFFF_FFFF << s, i);
    }
  }

  /** Agreement on each bit from `s` up gives masked agreement from bit `s` up. */
  /** The high mask `m` of `s` keeps no bit below `s`. */
  lemma HighMaskKeepsNoLowBit(s: bv32, m: bv32)
    requires s < 32 && m == 0xFFFF_FFFF << s
    ensures forall i: bv32 :: i < 32 && Bit(m, i) ==> s <= i
  {
    forall i: bv32 | i < 32
      ensures Bit(m, i) ==> s <= i
    {
      HighMaskBit(s, i);
    }
  }

  /** Values agreeing from bit `s` up agree once masked with a mask that keeps no bit below `s`. */
  lemma MaskedAgreeFrom(a: bv32, b: bv32, m: bv32, s: bv32)
    requires s < 32
    requires forall i: bv32 :: i < 32 && Bit(m, i) ==> s <= i
    requires BitsAgreeFrom(a, b, s)
    ensures (a & m) == (b & m)
  {
    var masked1, masked2 := a & m, b & m;
    forall i: bv32 | i < 32
      ensures Bit(masked1, i) == Bit(masked2, i)
    {
      MaskedAgreeAtBit(a, b, m, i);
    }
    BitExtensionality(masked1, masked2);
  }

  lemma BitsGiveHighMaskedAgree(a: bv32, b: bv32, s: bv32)
    requires s < 32
    requires BitsAgreeFrom(a, b, s)
    ensures (a & (0xFFFF_FFFF << s)) == (b & (0xFFFF_FFFF << s))
  {
    HighMaskKeepsNoLowBit(s, 0xFFFF_FFFF << s);
    MaskedAgreeFrom(a, b, 0xFFFF_FFFF << s, s);
  }

  /**
   * Two addresses are in the same subnet exactly when they agree bit by bit
   * above the host bits: for a prefix length of 1 to 32 on their top `n`
   * bits, for a prefix length of 0 on all 32.
   */
  lemma SameSubnetIffTopBitsAgree(ip1: bv32, ip2: bv32, n: bv32)
    ensures IsInSameSubnet(ip1, ip2, n) ==> BitsAgreeFrom(ip1, ip2, HostBits(n))
    ensures BitsAgreeFrom(ip1, ip2, HostBits(n)) ==> IsInSameSubnet(ip1, ip2, n)
  {
    if IsInSameSubnet(ip1, ip2, n) {
      HighMaskedAgreeGivesBits(ip1, ip2, HostBits(n));
    }
    if BitsAgreeFrom(ip1, ip2, HostBits(n)) {
      BitsGiveHighMaskedAgree(ip1, ip2, HostBits(n));
    }
  }

  /** `a` and `b` agree on every bit from position `s` up. */
  predicate HighBitsAgree(a: bv32, b: bv32, s: bv32)
    requires s < 32
  {
    (a & (0xFFFF_FFFF << s)) == (b & (0xFFFF_FFFF << s))
  }

  /** Every bit of `x` from position `s` up is clear. */
  predicate HighBitsZero(x: bv32, s: bv32)
    requires s < 32
  {
    (x & (0xFFFF_FFFF << s)) == 0
  }

  /** Agreeing on the high bits is having no high bit in the difference. */
  lemma HighBitsAgreeByDifference(a: bv32, b: bv32, s: bv32)
    requires s < 32
    ensures HighBitsAgree(a, b, s) ==> HighBitsZero(a ^ b, s)
    ensures HighBitsZero(a ^ b, s) ==> HighBitsAgree(a, b, s)
  {
  }

  /** Having no bit from `t` up implies having none from any higher `s` up. */
  lemma HighBitsZeroWeaken(x: bv32, t: bv32, s: bv32)
    requires t <= s < 32
    requires HighBitsZero(x, t)
    ensures HighBitsZero(x, s)
  {
  }

  /** Agreeing from bit `t` up implies agreeing from any higher bit `s` up. */
  lemma HighBitsAgreeWeaken(a: bv32, b: bv32, t: bv32, s: bv32)
    requires t <= s < 32
    requires HighBitsAgree(a, b, t)
    ensures HighBitsAgree(a, b, s)
  {
    HighBitsAgreeByDifference(a, b, t);
    HighBitsZeroWeaken(a ^ b, t, s);
    HighBitsAgreeByDifference(a, b, s);
  }

  /** The subnet test in the form the weakening lemmas above are stated in. */
  lemma SameSubnetIsHighBitsAgree(ip1: bv32, ip2: bv32, n: bv32)
    ensures IsInSameSubnet(ip1, ip2, n) ==> HighBitsAgree(ip1, ip2, HostBits(n))
    ensures HighBitsAgree(ip1, ip2, HostBits(n)) ==> IsInSameSubnet(ip1, ip2, n)
  {
  }

  /**
   * A prefix length of 32, and also of 0 because the shift distance wraps,
   * compares the whole address.
   */
  lemma FullComparisonAtZeroAndThirtyTwo(ip1: bv32, ip2: bv32, n: bv32)
    requires n == 0 || n == 32
    ensures IsInSameSubnet(ip1, ip2, n) <==> ip1 == ip2
  {
    assert NetMask(n) == 0xFFFF_FFFF;
  }

  /** For every prefix length, being in the same subnet is an equivalence relation. */
  lemma SameSubnetIsEquivalence(ip1: bv32, ip2: bv32, ip3: bv32, n: bv32)
    ensures IsInSameSubnet(ip1, ip1, n)
    ensures IsInSameSubnet(ip1, ip2, n) ==> IsInSameSubnet(ip2, ip1, n)
    ensures IsInSameSubnet(ip1, ip2, n) && IsInSameSubnet(ip2, ip3, n) ==> IsInSameSubnet(ip1, ip3, n)
  {
  }

  /** Within 1 to 32, a longer common prefix implies every shorter one. */
  lemma SameSubnetMonotone(ip1: bv32, ip2: bv32, m: bv32, n: bv32)
    requires 1 <= m <= n <= 32
    requires IsInSameSubnet(ip1, ip2, n)
    ensures IsInSameSubnet(ip1, ip2, m)
  {
    SameSubnetIsHighBitsAgree(ip1, ip2, n);
    HighBitsAgreeWeaken(ip1, ip2, HostBits(n), HostBits(m));
    SameSubnetIsHighBitsAgree(ip1, ip2, m);
  }

  /** The candidate test of the search: an IPv4 address in the same subnet as the reference. */
  predicate Accepts(address: InetAddress, anyIpInt: bv32, subnetMaskBitSize: bv32)
  {
    address.Inet4Address? && IsInSameSubnet(InetAddrToInt(address), anyIpInt, subnetMaskBitSize)
  }

  /** `(i, j)` names address `j` of interface `i`. */
  predicate IsPosition(netInterfaces: seq<seq<InetAddress>>, i: int, j: int)
  {
    0 <= i < |netInterfaces| && 0 <= j < |netInterfaces[i]|
  }

  /** Enumeration order: interface by interface, and address by address within one. */
  predicate Precedes(i1: int, j1: int, i2: int, j2: int)
  {
    i1 < i2 || (i1 == i2 && j1 < j2)
  }

  /** Some address of some interface is accepted. */
  ghost predicate AnyAccepted(netInterfaces: seq<seq<InetAddress>>, anyIpInt: bv32, subnetMaskBitSize: bv32)
  {
    exists i, j :: IsPosition(netInterfaces, i, j) && Accepts(netInterfaces[i][j], anyIpInt, subnetMaskBitSize)
  }

  /** The address at `(i, j)` is accepted and no address enumerated before it is. */
  ghost predicate IsFirstAccepted(netInterfaces: seq<seq<InetAddress>>, i: int, j: int, anyIpInt: bv32, subnetMaskBitSize: bv32)
  {
    && IsPosition(netInterfaces, i, j)
    && Accepts(netInterfaces[i][j], anyIpInt, subnetMaskBitSize)
    && forall i', j' :: IsPosition(netInterfaces, i', j') && Precedes(i', j', i, j) ==>
                          !Accepts(netInterfaces[i'][j'], anyIpInt, subnetMaskBitSize)
  }

  /** The first accepted position is unique, so the search's answer is determined by its inputs. */
  lemma FirstAcceptedIsUnique(netInterfaces: seq<seq<InetAddress>>, i1: int, j1: int, i2: int, j2: int,
                              anyIpInt: bv32, subnetMaskBitSize: bv32)
    requires IsFirstAccepted(netInterfaces, i1, j1, anyIpInt, subnetMaskBitSize)
    requires IsFirstAccepted(netInterfaces, i2, j2, anyIpInt, subnetMaskBitSize)
    ensures i1 == i2 && j1 == j2
  {
  }

  /**
   * `findLocalIpInSubnet`, with the interfaces and their addresses, as the
   * operating system enumerates them, given as `netInterfaces`. It returns
   * the first IPv4 address, in that order, that lies in the reference
   * address's subnet, and throws `SocketException` when there is none.
   */
  method FindLocalIpInSubnet(anyIpInSubnet: InetAddress, subnetMaskBitSize: bv32,
                             netInterfaces: seq<seq<InetAddress>>)
    returns (r: Result<InetAddress>)
    ensures r.Ok? <==> AnyAccepted(netInterfaces, InetAddrToInt(anyIpInSubnet), subnetMaskBitSize)
    ensures r.Ok? ==> exists i, j :: IsFirstAccepted(netInterfaces, i, j, InetAddrToInt(anyIpInSubnet), subnetMaskBitSize)
                                    && r.value == netInterfaces[i][j]
    ensures r.Ok? ==> r.value.Inet4Address?
                      && IsInSameSubnet(InetAddrToInt(r.value), InetAddrToInt(anyIpInSubnet), subnetMaskBitSize)
    ensures r.Throws? ==> r.exception == SocketException
  {
    var anyIpInt := InetAddrToInt(anyIpInSubnet);
    var i := 0;
    while i < |netInterfaces|
      invariant 0 <= i <= |netInterfaces|
      invariant forall i', j' :: IsPosition(netInterfaces, i', j') && i' < i ==>
                                   !Accepts(netInterfaces[i'][j'], anyIpInt, subnetMaskBitSize)
    {
      var netInterfaceAddresses := netInterfaces[i];
      var j := 0;
      while j < |netInterfaceAddresses|
        invariant 0 <= j <= |netInterfaceAddresses|
        invariant forall i', j' :: IsPosition(netInterfaces, i', j') && Precedes(i', j', i, j) ==>
                                     !Accepts(netInterfaces[i'][j'], anyIpInt, subnetMaskBitSize)
      {
        var netInterfaceAddress := netInterfaceAddresses[j];
        if netInterfaceAddress.Inet4Address? {
          var interfaceIpInt := InetAddrToInt(netInterfaceAddress);
          if IsInSameSubnet(interfaceIpInt, anyIpInt, subnetMaskBitSize) {
            assert IsFirstAccepted(netInterfaces, i, j, anyIpInt, subnetMaskBitSize);
            return Ok(netInterfaceAddress);
          }
        }
        j := j + 1;
      }
      i := i + 1;
    }
    return Throws(SocketException);
  }
}
