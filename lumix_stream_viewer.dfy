/**
 * Class `LumixStreamViewer`, the older viewer: the packet scan inside
 * `streamReadingLoop` and its own copies of the subnet helpers.
 *
 * Unlike `StreamViewer`, the loop declares its image offset once, set to
 * 132, outside the receive loop. Each packet's scan only overwrites it where
 * the marker is found, so a packet without a marker is cut at the offset of
 * the last packet that had one, or at 132 if none had.
 */
module Lumix {
  import opened Java
  import opened JpegScan
  import NetUtil

  /** The offset `streamReadingLoop` starts from, before any packet arrives. */
  const INITIAL_VIDEO_DATA_START: int := 132

  /**
   * The offset after the packets `packets` (each one's received bytes) have
   * been scanned in order: every packet starts its scan from the offset the
   * ones before it left.
   */
  function OffsetAfter(packets: seq<seq<byte>>): int
  {
    if |packets| == 0 then INITIAL_VIDEO_DATA_START
    else ImageDataStart(packets[|packets| - 1], OffsetAfter(packets[..|packets| - 1]))
  }

  /** The offset is always the initial 132 or a candidate offset in `[130, 320)`. */
  lemma {:induction false} OffsetAfterRange(packets: seq<seq<byte>>)
    ensures OffsetAfter(packets) == INITIAL_VIDEO_DATA_START
            || HEADER_LENGTH <= OffsetAfter(packets) < SCAN_LIMIT
  {
    if |packets| > 0 {
      OffsetAfterRange(packets[..|packets| - 1]);
    }
  }

  /** As long as no packet has had the marker in its window, the offset is still 132. */
  lemma {:induction false} OffsetWithoutMarkers(packets: seq<seq<byte>>)
    requires forall i :: 0 <= i < |packets| ==> !HasMarker(packets[i])
    ensures OffsetAfter(packets) == INITIAL_VIDEO_DATA_START
  {
    if |packets| > 0 {
      OffsetWithoutMarkers(packets[..|packets| - 1]);
    }
  }

  /** A packet without a marker in its window leaves the offset as it was. */
  lemma UnmarkedPacketKeepsOffset(packets: seq<seq<byte>>, p: seq<byte>)
    requires !HasMarker(p)
    ensures OffsetAfter(packets + [p]) == OffsetAfter(packets)
  {
    assert (packets + [p])[..|packets|] == packets;
  }

  /** A packet with a marker in its window sets the offset to its last candidate. */
  lemma MarkedPacketSetsOffset(packets: seq<seq<byte>>, p: seq<byte>)
    requires HasMarker(p)
    ensures IsLastCandidate(p, OffsetAfter(packets + [p]))
  {
  }

  /**
   * The offset is the last candidate of the last packet that had a marker,
   * however many packets without one came after it.
   */
  lemma {:induction false} LastMarkedPacketWins(packets: seq<seq<byte>>, i: int)
    requires 0 <= i < |packets| && HasMarker(packets[i])
    requires forall j :: i < j < |packets| ==> !HasMarker(packets[j])
    ensures IsLastCandidate(packets[i], OffsetAfter(packets))
  {
    var prefix := packets[..|packets| - 1];
    if i < |packets| - 1 {
      assert forall j :: i < j < |prefix| ==> prefix[j] == packets[j];
      LastMarkedPacketWins(prefix, i);
    }
  }

  /**
   * The state of `streamReadingLoop` that outlives one packet: the offset
   * `videoDataStart`, and (as a ghost) the received bytes of every packet so
   * far.
   */
  class StreamReadingLoop {
    var videoDataStart: int
    ghost var packets: seq<seq<byte>>

    /** The offset is the one the packets so far leave. */
    ghost predicate Valid()
      reads this
    {
      videoDataStart == OffsetAfter(packets)
    }

    /** Entering the loop: the offset is 132 and no packet has arrived. */
    constructor ()
      ensures Valid()
      ensures videoDataStart == INITIAL_VIDEO_DATA_START && packets == []
    {
      videoDataStart := INITIAL_VIDEO_DATA_START;
      packets := [];
    }

    /**
     * One turn of the receive loop once `receive` has filled `udpData` with
     * `length` bytes: the scan over offsets 130 to 319 (and below
     * `length - 1`) and the copy of the image bytes. A `Throws` result is the
     * `IllegalArgumentException` of `copyOfRange`, which the loop's
     * `catch (IOException e)` does not catch, so it ends the loop; the offset
     * has already been updated by then.
     */
    method ReceivePacket(udpData: array<byte>, length: int) returns (videoData: Result<seq<byte>>)
      requires Valid()
      requires 0 <= length <= udpData.Length
      modifies this
      ensures Valid()
      ensures packets == old(packets) + [udpData[..length]]
      ensures videoDataStart == ImageDataStart(udpData[..length], old(videoDataStart))
      ensures videoData == ExtractJpeg(udpData[..], length, old(videoDataStart))
      ensures videoData.Throws? ==> videoData.exception == IllegalArgumentException
    {
      ghost var p := udpData[..length];
      ghost var fallback := videoDataStart;
      var k := HEADER_LENGTH;
      while k < SCAN_LIMIT && k < length - 1
        invariant HEADER_LENGTH <= k
        invariant k == HEADER_LENGTH || k <= ScanEnd(length)
        invariant videoDataStart == LastMarkerBelow(p, k, fallback)
        invariant packets == old(packets)
      {
        if udpData[k] == SOI_FIRST && udpData[k + 1] == SOI_SECOND {
          videoDataStart := k;
        }
        k := k + 1;
      }
      assert udpData[..][..length] == p;
      assert (packets + [p])[..|packets|] == packets;
      packets := packets + [p];
      videoData := CopyOfRange(udpData[..], videoDataStart, length);
      OffsetAfterRange(old(packets));
      ExtractJpegOnlyThrowsIllegalArgument(udpData[..], length, fallback);
    }
  }

  /** The copy of `findLocalIpInSubnet`'s mask test: the same mask and comparison as `NetUtil`'s. */
  predicate IsInSameSubnet(ip1: bv32, ip2: bv32, netMaskBitSize: bv32)
  {
    (ip1 & (0xFFFF_FFFF << NetUtil.JavaShiftDistance(32 - netMaskBitSize)))
      == (ip2 & (0xFFFF_FFFF << NetUtil.JavaShiftDistance(32 - netMaskBitSize)))
  }

  /** The copy agrees with `NetUtil.IsInSameSubnet` on every input, prefix lengths 0 and above 32 included. */
  lemma IsInSameSubnetAgrees(ip1: bv32, ip2: bv32, netMaskBitSize: bv32)
    ensures IsInSameSubnet(ip1, ip2, netMaskBitSize) ==> NetUtil.IsInSameSubnet(ip1, ip2, netMaskBitSize)
    ensures NetUtil.IsInSameSubnet(ip1, ip2, netMaskBitSize) ==> IsInSameSubnet(ip1, ip2, netMaskBitSize)
  {
  }

  /** The copy is reflexive and symmetric, and with a prefix length of 0 compares whole addresses. */
  lemma IsInSameSubnetProperties(ip1: bv32, ip2: bv32, netMaskBitSize: bv32)
    ensures IsInSameSubnet(ip1, ip1, netMaskBitSize)
    ensures IsInSameSubnet(ip1, ip2, netMaskBitSize) ==> IsInSameSubnet(ip2, ip1, netMaskBitSize)
    ensures netMaskBitSize == 0 ==> (IsInSameSubnet(ip1, ip2, netMaskBitSize) <==> ip1 == ip2)
  {
    IsInSameSubnetAgrees(ip1, ip2, netMaskBitSize);
    IsInSameSubnetAgrees(ip2, ip1, netMaskBitSize);
    IsInSameSubnetAgrees(ip1, ip1, netMaskBitSize);
    NetUtil.SameSubnetIsEquivalence(ip1, ip2, ip1, netMaskBitSize);
    if netMaskBitSize == 0 {
      NetUtil.FullComparisonAtZeroAndThirtyTwo(ip1, ip2, netMaskBitSize);
    }
  }

  /** The copy of `inetAddrToInt`, with its explicit `<< 0` on the last byte. */
  function InetAddrToInt(address: NetUtil.InetAddress): (r: bv32)
    ensures address.OtherAddress? ==> r == 0
  {
    match address
    case Inet4Address(b0, b1, b2, b3) =>
      ((b0 as bv32) << 24) | ((b1 as bv32) << 16) | ((b2 as bv32) << 8) | ((b3 as bv32) << 0)
    case OtherAddress => 0
  }

  /** The copy agrees with `NetUtil.InetAddrToInt` on every address. */
  lemma InetAddrToIntAgrees(address: NetUtil.InetAddress)
    ensures InetAddrToInt(address) == NetUtil.InetAddrToInt(address)
  {
  }

  /**
   * The copy of `findLocalIpInSubnet`, built on the copies above: the first
   * IPv4 address in enumeration order that lies in the reference address's
   * subnet, or `SocketException`.
   */
  method FindLocalIpInSubnet(anyIpInSubnet: NetUtil.InetAddress, subnetMaskBitSize: bv32,
                             netInterfaces: seq<seq<NetUtil.InetAddress>>)
    returns (r: Result<NetUtil.InetAddress>)
    ensures r.Ok? <==> NetUtil.AnyAccepted(netInterfaces, NetUtil.InetAddrToInt(anyIpInSubnet), subnetMaskBitSize)
    ensures r.Ok? ==> exists i, j :: NetUtil.IsFirstAccepted(netInterfaces, i, j, NetUtil.InetAddrToInt(anyIpInSubnet), subnetMaskBitSize)
                                    && r.value == netInterfaces[i][j]
    ensures r.Ok? ==> r.value.Inet4Address?
                      && IsInSameSubnet(InetAddrToInt(r.value), InetAddrToInt(anyIpInSubnet), subnetMaskBitSize)
    ensures r.Throws? ==> r.exception == SocketException
  {
    var anyIpInt := InetAddrToInt(anyIpInSubnet);
    InetAddrToIntAgrees(anyIpInSubnet);
    var i := 0;
    while i < |netInterfaces|
      invariant 0 <= i <= |netInterfaces|
      invariant forall i', j' :: NetUtil.IsPosition(netInterfaces, i', j') && i' < i ==>
                                   !NetUtil.Accepts(netInterfaces[i'][j'], anyIpInt, subnetMaskBitSize)
    {
      var netInterfaceAddresses := netInterfaces[i];
      var j := 0;
      while j < |netInterfaceAddresses|
        invariant 0 <= j <= |netInterfaceAddresses|
        invariant forall i', j' :: NetUtil.IsPosition(netInterfaces, i', j') && NetUtil.Precedes(i', j', i, j) ==>
                                     !NetUtil.Accepts(netInterfaces[i'][j'], anyIpInt, subnetMaskBitSize)
      {
        var netInterfaceAddress := netInterfaceAddresses[j];
        if netInterfaceAddress.Inet4Address? {
          var interfaceIpInt := InetAddrToInt(netInterfaceAddress);
          InetAddrToIntAgrees(netInterfaceAddress);
          IsInSameSubnetAgrees(interfaceIpInt, anyIpInt, subnetMaskBitSize);
          if IsInSameSubnet(interfaceIpInt, anyIpInt, subnetMaskBitSize) {
            assert NetUtil.IsFirstAccepted(netInterfaces, i, j, anyIpInt, subnetMaskBitSize);
            return Ok(netInterfaceAddress);
          }
        }
        j := j + 1;
      }
      i := i + 1;
    }
    return Throws(SocketException);
  }
}
