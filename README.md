# StreamViewer core in Dafny

StreamViewer shows the live view of a Panasonic Lumix camera. The camera
sends one JPEG image per UDP datagram and puts a vendor header in front of
it. This project models the part of the viewer that is more than I/O:

- **Finding the image in a datagram** (`StreamViewer.getImageDataStart` and
  `getImageData`). The viewer scans the offsets 130 to 319 (and only those
  below `length - 1`) for the JPEG Start-Of-Image marker `FF D8` (Annex
  B.1.1.3 of ITU-T T.81). The last offset where it is found is the image
  start, with 130 as the default. `Arrays.copyOfRange` then copies the image
  bytes from that start to the received length.
- **The older `LumixStreamViewer` loop**. It runs the same scan inline, but
  starts from 132 and keeps the offset from one packet to the next. A packet
  without a marker is cut where the last marked packet was cut.
- **Subnet arithmetic** (`NetUtil`, duplicated in `LumixStreamViewer`).
  `inetAddrToInt` packs an IPv4 address big-endian into an `int`.
  `isInSameSubnet` compares two such values under the mask
  `-1 << (32 - n)`. `findLocalIpInSubnet` returns the first local IPv4
  address that lies in the subnet of a reference address, searching
  interface by interface and address by address.

Modules:

- `Java` (`java.dfy`): Java bytes, exceptions as a `Result`, and
  `Arrays.copyOfRange`.
- `NetUtil` (`net_util.dfy`): the subnet helpers and the search.
- `JpegScan` (`jpeg_scan.dfy`): the functions that specify the marker scan
  and the copy.
- `StreamViewer` (`stream_viewer.dfy`): the two methods, proved against
  `JpegScan`.
- `Lumix` (`lumix_stream_viewer.dfy`): a class holding the offset that the
  loop carries, the fold `OffsetAfter` that specifies it, and the duplicated
  helpers, each proved to agree with `NetUtil`'s.

Java `int` addresses and masks are `bv32` bit patterns. The prefix length is
a `bv32` too, so `32 - n` wraps as Java's `int` subtraction does. Java uses
only the low five bits of a shift distance (section 15.19 of the Java
Language Specification), which `JavaShiftDistance` models. The consequence:
for a prefix length of 0 the code shifts by 0, the mask is all ones, and the
test compares whole addresses. One might expect a prefix length of 0 to
match every address; the code compares whole addresses instead, and the model
follows the code.

The received packet is its buffer (an `array<byte>`, what `getData()`
returns) and its received length (what `getLength()` returns, never more than
the buffer). The network interfaces and their addresses, as the operating
system enumerates them, are an input `seq<seq<InetAddress>>`.

## Model

| member | source | states |
|---|---|---|
| Java.CopyOfRange | StreamViewer/src/streamviewer/StreamViewer.java:106 | `Arrays.copyOfRange` succeeds exactly when `0 <= from <= to` and `from <= length`; `from > to` throws `IllegalArgumentException`; otherwise a `from` below 0 or past the end throws `ArrayIndexOutOfBoundsException`; the copy has `to - from` bytes, those of the original from `from` on, padded with zeros past its end |
| Java.CopyOfRangeInBounds | StreamViewer/src/streamviewer/StreamViewer.java:106 | within bounds the copy is exactly the slice `original[from..to]` |
| NetUtil.JavaShiftDistance | StreamViewer/src/streamviewer/NetUtil.java:57 | Java shifts by the distance modulo 32, for every distance: distances below 32 are kept and 32 becomes 0 |
| NetUtil.NetMask | StreamViewer/src/streamviewer/NetUtil.java:57 | the mask `-1 << (32 - n)` with Java's wrapping subtraction and shift; its bits are stated by `NetUtil.NetMaskHasTopBits` and `NetUtil.FullComparisonAtZeroAndThirtyTwo` |
| NetUtil.IsInSameSubnet | StreamViewer/src/streamviewer/NetUtil.java:56-58 | `isInSameSubnet` as masked equality; what it means is stated by `NetUtil.SameSubnetIffTopBitsAgree`, `NetUtil.SameSubnetIsEquivalence`, `NetUtil.SameSubnetMonotone` and `NetUtil.FullComparisonAtZeroAndThirtyTwo` |
| NetUtil.HostBits | StreamViewer/src/streamviewer/NetUtil.java:57 | the mask's shift is `32 - n` for a prefix length of 1 to 32, and 0 for a prefix length of 0 |
| NetUtil.NetMaskHasTopBits | StreamViewer/src/streamviewer/NetUtil.java:57 | for a prefix length of 1 to 32 the mask has bit `i` set exactly when `i >= 32 - n`, that is exactly its top `n` bits |
| NetUtil.SameSubnetIffTopBitsAgree | StreamViewer/src/streamviewer/NetUtil.java:56-58 | two addresses are in the same subnet exactly when they agree bit by bit on every position from the host bits up: their top `n` bits for a prefix length of 1 to 32, all 32 bits for a prefix length of 0 |
| NetUtil.BitExtensionality | StreamViewer/src/streamviewer/NetUtil.java:58 | two 32-bit values that agree on every bit are equal, the step from bit-by-bit agreement back to the masked comparison |
| NetUtil.FullComparisonAtZeroAndThirtyTwo | StreamViewer/src/streamviewer/NetUtil.java:57 | for a prefix length of 32, and of 0 because the shift wraps, the test is equality of the whole addresses |
| NetUtil.SameSubnetIsEquivalence | StreamViewer/src/streamviewer/NetUtil.java:56-58 | for every prefix length the test is reflexive, symmetric and transitive |
| NetUtil.SameSubnetMonotone | StreamViewer/src/streamviewer/NetUtil.java:57-58 | for `1 <= m <= n <= 32`, the same subnet at `/n` implies the same subnet at `/m` |
| NetUtil.HighBitsAgreeWeaken | StreamViewer/src/streamviewer/NetUtil.java:57-58 | agreeing from bit `t` up implies agreeing from any higher bit up; this is the step monotonicity rests on |
| NetUtil.InetAddrToInt | StreamViewer/src/streamviewer/NetUtil.java:67-77 | a non-IPv4 address converts to 0 |
| NetUtil.InetAddrToIntValue | StreamViewer/src/streamviewer/NetUtil.java:69-73 | read as unsigned, the packed value of `b0.b1.b2.b3` is `b0*2^24 + b1*2^16 + b2*2^8 + b3` |
| NetUtil.InetAddrToIntRoundTrip | StreamViewer/src/streamviewer/NetUtil.java:69-73 | each of the four bytes is recovered from the packed value by shifting and masking |
| NetUtil.Inet4FromIntRoundTrip | StreamViewer/src/streamviewer/NetUtil.java:69-73 | every 32-bit value is the packed form of an IPv4 address, so packing is a bijection |
| NetUtil.FirstAcceptedIsUnique | StreamViewer/src/streamviewer/NetUtil.java:27-41 | at most one position is the first accepted one in enumeration order, so the search's answer is determined |
| NetUtil.FindLocalIpInSubnet | StreamViewer/src/streamviewer/NetUtil.java:21-46 | returns an address exactly when some IPv4 address of some interface is in the reference's subnet; the address returned is the first such one in interface-then-address order, and IPv4; otherwise throws `SocketException` |
| JpegScan.ScanEnd | StreamViewer/src/streamviewer/StreamViewer.java:113 | the loop bound is the smaller of 320 and `length - 1` |
| JpegScan.LastMarkerBelow | StreamViewer/src/streamviewer/StreamViewer.java:110-118 | after the offsets below `hi` are scanned, the offset is the largest one in `[130, hi)` where `FF D8` starts, or the initial offset when there is none |
| JpegScan.ImageDataStart | StreamViewer/src/streamviewer/StreamViewer.java:109-121 | when the window holds the marker, the start is the last offset of the window at which it starts; otherwise the start is the initial offset; it is always the initial offset or in `[130, 320)` |
| JpegScan.ImageDataStartIgnoresFallback | StreamViewer/src/streamviewer/StreamViewer.java:113-117 | once a marker is found the initial offset has no influence on the start |
| JpegScan.DefaultStartInWindow | StreamViewer/src/streamviewer/StreamViewer.java:110-117 | with the default 130 the start always lies in `[130, 320)` |
| JpegScan.MarkerStartInsidePacket | StreamViewer/src/streamviewer/StreamViewer.java:113-115 | a marker that is found has both its bytes inside the received length |
| JpegScan.ShortPacketHasNoMarker | StreamViewer/src/streamviewer/StreamViewer.java:113 | a packet of at most 131 bytes has no marker in its window |
| JpegScan.ExtractJpeg | StreamViewer/src/streamviewer/StreamViewer.java:105-106 | the copy `Arrays.copyOfRange(udpData, start, length)` from the scanned start; its outcomes are stated by `JpegScan.ExtractJpegSucceeds`, `JpegScan.ShortPacketThrows`, `JpegScan.ExtractJpegContents`, `JpegScan.ExtractJpegStartsWithMarker` and `JpegScan.StaleBytesIgnored` |
| JpegScan.ExtractJpegSucceeds | StreamViewer/src/streamviewer/StreamViewer.java:105-106 | the copy succeeds exactly when a marker was found or the initial offset lies within the received length |
| JpegScan.ShortPacketThrows | StreamViewer/src/streamviewer/StreamViewer.java:106 | a packet without a marker that is shorter than the initial offset makes `copyOfRange` throw `IllegalArgumentException` |
| JpegScan.ExtractJpegOnlyThrowsIllegalArgument | StreamViewer/src/streamviewer/StreamViewer.java:106 | with an initial offset that is not negative, the copy can fail only with `IllegalArgumentException` |
| JpegScan.ExtractJpegContents | StreamViewer/src/streamviewer/StreamViewer.java:106 | a successful copy is the received bytes from the start to the length, `length - start` of them |
| JpegScan.ExtractJpegStartsWithMarker | StreamViewer/src/streamviewer/StreamViewer.java:113-116 | when a marker was found, the image bytes begin with `FF D8` |
| JpegScan.StaleBytesIgnored | StreamViewer/src/streamviewer/StreamViewer.java:113-115 | buffer bytes past the received length, left from earlier packets, change neither the start nor the image bytes |
| StreamViewer.GetImageDataStart | StreamViewer/src/streamviewer/StreamViewer.java:109-121 | the loop returns the last offset of the window holding `FF D8` when there is one and 130 otherwise; the result lies in `[130, 320)` |
| StreamViewer.GetImageData | StreamViewer/src/streamviewer/StreamViewer.java:102-107 | returns the image bytes exactly when the packet has at least 130 bytes and otherwise throws `IllegalArgumentException`; the bytes are the received ones from the start on, and begin with `FF D8` when a marker was found; the buffer is not modified |
| Lumix.OffsetAfter | StreamViewer/src/streamviewer/LumixStreamViewer.java:86-104 | the offset the loop carries, as a fold over the packets received so far starting from 132; stated by `Lumix.OffsetAfterRange`, `Lumix.OffsetWithoutMarkers`, `Lumix.UnmarkedPacketKeepsOffset`, `Lumix.MarkedPacketSetsOffset` and `Lumix.LastMarkedPacketWins` |
| Lumix.OffsetAfterRange | StreamViewer/src/streamviewer/LumixStreamViewer.java:86-104 | the carried offset is always 132 or a value in `[130, 320)` |
| Lumix.OffsetWithoutMarkers | StreamViewer/src/streamviewer/LumixStreamViewer.java:86-104 | while no packet has had a marker the offset stays 132 |
| Lumix.UnmarkedPacketKeepsOffset | StreamViewer/src/streamviewer/LumixStreamViewer.java:99-104 | a packet without a marker leaves the offset of the packets before it |
| Lumix.MarkedPacketSetsOffset | StreamViewer/src/streamviewer/LumixStreamViewer.java:99-103 | a packet with a marker sets the offset to its own last marker offset |
| Lumix.LastMarkedPacketWins | StreamViewer/src/streamviewer/LumixStreamViewer.java:86-104 | the offset is the last marker offset of the last packet that had one, whatever unmarked packets followed |
| Lumix.StreamReadingLoop.constructor | StreamViewer/src/streamviewer/LumixStreamViewer.java:86 | the loop starts with the offset 132 and no packets |
| Lumix.StreamReadingLoop.ReceivePacket | StreamViewer/src/streamviewer/LumixStreamViewer.java:97-105 | the scan updates the offset to the packet's last marker offset, keeping the previous one when there is none; the image bytes are those copied from the new offset, and the only exception is `IllegalArgumentException`; the offset stays the fold of all packets so far |
| Lumix.IsInSameSubnet | StreamViewer/src/streamviewer/LumixStreamViewer.java:163-166 | the duplicate mask test, written out from its own source lines; stated by `Lumix.IsInSameSubnetAgrees` and `Lumix.IsInSameSubnetProperties` |
| Lumix.IsInSameSubnetAgrees | StreamViewer/src/streamviewer/LumixStreamViewer.java:163-166 | the duplicate mask test gives the same answer as `NetUtil`'s for every input |
| Lumix.IsInSameSubnetProperties | StreamViewer/src/streamviewer/LumixStreamViewer.java:163-166 | the duplicate test is reflexive and symmetric and compares whole addresses for a prefix length of 0 |
| Lumix.InetAddrToInt | StreamViewer/src/streamviewer/LumixStreamViewer.java:174-184 | the duplicate conversion gives 0 for a non-IPv4 address |
| Lumix.InetAddrToIntAgrees | StreamViewer/src/streamviewer/LumixStreamViewer.java:174-184 | the duplicate conversion, with its `<< 0`, packs exactly as `NetUtil`'s does |
| Lumix.FindLocalIpInSubnet | StreamViewer/src/streamviewer/LumixStreamViewer.java:128-153 | the duplicate search returns the first IPv4 address in the subnet in enumeration order, and throws `SocketException` exactly when there is none |

## Left out

- Socket creation, `receive` and the endless receive loops (`StreamViewer.run`, `LumixStreamViewer.streamReadingLoop` outside the per-packet work): network I/O. A packet is given as its buffer and received length.
- The executor that decodes packets on other threads, and the reuse of the packet buffer by the next `receive` while a decode is queued: concurrency.
- `ImageIO.read` decoding the image bytes, `repaint` and the Swing panel (`VideoPanel`, `paint`, `getPreferredSize`, `main`): library and UI calls.
- `InetAddress.getByName` and `NetworkInterface` enumeration: the reference address is given already parsed as an `InetAddress`, and the interfaces' addresses as a sequence. The `UnknownHostException` of an unparsable name is therefore not modelled.
- `Options.java`: reading arguments and standard input.
- The size of the Lumix packet buffer: its literal in the source is garbled, so the buffer's capacity is whatever array is passed.
- A datagram longer than the buffer is truncated by `receive`; that happens before the modelled code and is not modelled.
- Ending `streamReadingLoop`: the `IllegalArgumentException` of a short packet escapes the loop's `catch (IOException e)` and ends the loop; the model returns it from `ReceivePacket` as a `Throws` result and does not model the loop itself.
