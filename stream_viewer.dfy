/**
 * The per-packet work of class `StreamViewer`: finding where the JPEG image
 * starts in a received datagram (`getImageDataStart`) and copying the image
 * bytes out of it (`getImageData`).
 *
 * A `DatagramPacket` is given by its buffer `udpData` (what `getData()`
 * returns) and its received length `length` (what `getLength()` returns),
 * which never exceeds the buffer.
 */
module StreamViewer {
  import opened Java
  import opened JpegScan

  /**
   * `getImageDataStart`: scans the offsets `k` from 130 while `k < 320` and
   * `k < length - 1`, and keeps the last one at which `FF D8` starts; 130 when
   * there is none.
   */
  method GetImageDataStart(udpData: array<byte>, length: int) returns (videoDataStart: int)
    requires 0 <= length <= udpData.Length
    ensures videoDataStart == ImageDataStart(udpData[..length], HEADER_LENGTH)
    ensures HasMarker(udpData[..length]) ==> IsLastCandidate(udpData[..length], videoDataStart)
    ensures !HasMarker(udpData[..length]) ==> videoDataStart == HEADER_LENGTH
    ensures HEADER_LENGTH <= videoDataStart < SCAN_LIMIT
  {
    videoDataStart := HEADER_LENGTH;
    var k := HEADER_LENGTH;
    while k < SCAN_LIMIT && k < length - 1
      invariant HEADER_LENGTH <= k
      invariant k == HEADER_LENGTH || k <= ScanEnd(length)
      invariant videoDataStart == LastMarkerBelow(udpData[..length], k, HEADER_LENGTH)
    {
      if udpData[k] == SOI_FIRST && udpData[k + 1] == SOI_SECOND {
        videoDataStart := k;
      }
      k := k + 1;
    }
  }

  /**
   * `getImageData`: the bytes from the image start to the received length,
   * as `Arrays.copyOfRange` copies them. A packet that is shorter than 130
   * bytes makes the copy throw `IllegalArgumentException`.
   */
  method GetImageData(udpData: array<byte>, length: int) returns (videoData: Result<seq<byte>>)
    requires 0 <= length <= udpData.Length
    ensures videoData == ExtractJpeg(udpData[..], length, HEADER_LENGTH)
    ensures videoData.Ok? <==> HEADER_LENGTH <= length
    ensures videoData.Throws? ==> videoData.exception == IllegalArgumentException
    ensures videoData.Ok? ==>
              videoData.value == udpData[ImageDataStart(udpData[..length], HEADER_LENGTH)..length]
    ensures HasMarker(udpData[..length]) ==>
              |videoData.value| >= 2 && videoData.value[0] == SOI_FIRST && videoData.value[1] == SOI_SECOND
  {
    assert udpData[..][..length] == udpData[..length];
    var videoDataStart := GetImageDataStart(udpData, length);
    videoData := CopyOfRange(udpData[..], videoDataStart, length);
    ExtractJpegSucceeds(udpData[..], length, HEADER_LENGTH);
    if videoData.Ok? {
      ExtractJpegContents(udpData[..], length, HEADER_LENGTH);
    }
    if HasMarker(udpData[..length]) {
      ExtractJpegStartsWithMarker(udpData[..], length, HEADER_LENGTH);
    }
  }
}
