/**
 * Where the JPEG image starts inside a camera datagram, and the image bytes
 * cut out of it.
 *
 * The camera puts a vendor header in front of each JPEG image. The viewer
 * looks for the JPEG Start-Of-Image marker `FF D8` (Annex B.1.1.3 of ITU-T
 * T.81) at the offsets from 130 up to, but not including, 320, and only
 * where both marker bytes lie inside the received length. The last offset
 * where the marker is found is the start of the image; when there is none a
 * fallback offset is used. The image is then the bytes from that offset to
 * the end of the received data.
 *
 * These functions are the specification that the scanning loops of
 * `StreamViewer` and of `Lumix` are proved against.
 */
module JpegScan {
  import opened Java

  /** The first offset inspected, and the default start of the image data. */
  const HEADER_LENGTH: int := 130

  /** Offsets from here on are not inspected. */
  const SCAN_LIMIT: int := 320

  /** The two bytes of the Start-Of-Image marker (`(byte) 0xFF` and `(byte) 0xD8`, that is -1 and -40). */
  const SOI_FIRST: byte := 0xFF
  const SOI_SECOND: byte := 0xD8

  /** The Start-Of-Image marker occupies positions `k` and `k + 1` of the received bytes `p`. */
  predicate IsMarkerAt(p: seq<byte>, k: int)
  {
    0 <= k && k + 1 < |p| && p[k] == SOI_FIRST && p[k + 1] == SOI_SECOND
  }

  /** `k` is an offset in `[lo, hi)` at which the marker is found. */
  predicate MarkerIn(p: seq<byte>, lo: int, hi: int, k: int)
  {
    lo <= k < hi && IsMarkerAt(p, k)
  }

  /** `k` is an offset of the scanned window at which the marker is found. */
  predicate IsCandidate(p: seq<byte>, k: int)
  {
    MarkerIn(p, HEADER_LENGTH, SCAN_LIMIT, k)
  }

  /** The scanned window of `p` holds the marker somewhere. */
  ghost predicate HasMarker(p: seq<byte>)
  {
    exists k :: IsCandidate(p, k)
  }

  /** `k` is the last offset of the window holding the marker. */
  ghost predicate IsLastCandidate(p: seq<byte>, k: int)
  {
    IsCandidate(p, k) && forall k' :: IsCandidate(p, k') ==> k' <= k
  }

  /**
   * The bound of the scanning loop for a packet of `length` bytes:
   * `k < 320 && k < length - 1`.
   */
  function ScanEnd(length: int): (e: int)
    ensures e <= SCAN_LIMIT && e <= length - 1
    ensures e == SCAN_LIMIT || e == length - 1
  {
    if length - 1 < SCAN_LIMIT then length - 1 else SCAN_LIMIT
  }

  /**
   * The last offset in `[130, hi)` holding the marker, or `fallback` when
   * there is none: the value the scanning loop has reached once it has
   * inspected every offset below `hi`.
   */
  function LastMarkerBelow(p: seq<byte>, hi: int, fallback: int): (r: int)
    ensures (exists k :: MarkerIn(p, HEADER_LENGTH, hi, k)) ==>
              MarkerIn(p, HEADER_LENGTH, hi, r)
              && forall k :: MarkerIn(p, HEADER_LENGTH, hi, k) ==> k <= r
    ensures (forall k :: !MarkerIn(p, HEADER_LENGTH, hi, k)) ==> r == fallback
    decreases hi - HEADER_LENGTH
  {
    if hi <= HEADER_LENGTH then fallback
    else if IsMarkerAt(p, hi - 1) then hi - 1
    else
      assert forall k :: MarkerIn(p, HEADER_LENGTH, hi, k) <==> MarkerIn(p, HEADER_LENGTH, hi - 1, k);
      LastMarkerBelow(p, hi - 1, fallback)
  }

  /**
   * `getImageDataStart` for the received bytes `p` (the packet's data up to
   * its length), with `fallback` as the initial offset: the last candidate
   * offset when the window holds the marker, and `fallback` otherwise.
   */
  function ImageDataStart(p: seq<byte>, fallback: int): (r: int)
    ensures HasMarker(p) ==> IsLastCandidate(p, r)
    ensures !HasMarker(p) ==> r == fallback
    ensures r == fallback || HEADER_LENGTH <= r < SCAN_LIMIT
  {
    // A marker inside the window lies below the loop bound, so the loop sees every one.
    assert forall k :: IsCandidate(p, k) <==> MarkerIn(p, HEADER_LENGTH, ScanEnd(|p|), k);
    LastMarkerBelow(p, ScanEnd(|p|), fallback)
  }

  /** Once the window holds the marker, the initial offset no longer matters. */
  lemma ImageDataStartIgnoresFallback(p: seq<byte>, fallback1: int, fallback2: int)
    requires HasMarker(p)
    ensures ImageDataStart(p, fallback1) == ImageDataStart(p, fallback2)
  {
    var r1, r2 := ImageDataStart(p, fallback1), ImageDataStart(p, fallback2);
    assert r1 <= r2 && r2 <= r1;
  }

  /** With the default initial offset the start always lies in `[130, 320)`. */
  lemma DefaultStartInWindow(p: seq<byte>)
    ensures HEADER_LENGTH <= ImageDataStart(p, HEADER_LENGTH) < SCAN_LIMIT
  {
  }

  /** A marker found in the window lies inside the received bytes, before the last one. */
  lemma MarkerStartInsidePacket(p: seq<byte>)
    requires HasMarker(p)
    ensures ImageDataStart(p, HEADER_LENGTH) + 1 < |p|
  {
  }

  /**
   * The image bytes of a datagram whose buffer is `buf` and whose received
   * length is `length`: `Arrays.copyOfRange(buf, start, length)` with
   * `start` found by scanning the received bytes from `fallback` on.
   */
  function ExtractJpeg(buf: seq<byte>, length: int, fallback: int): (r: Result<seq<byte>>)
    requires 0 <= length <= |buf|
  {
    CopyOfRange(buf, ImageDataStart(buf[..length], fallback), length)
  }

  /**
   * The copy succeeds exactly when the start does not lie past the end of
   * the received bytes: always when a marker was found, and otherwise when
   * the fallback offset is at most the length.
   */
  lemma ExtractJpegSucceeds(buf: seq<byte>, length: int, fallback: int)
    requires 0 <= length <= |buf|
    ensures ExtractJpeg(buf, length, fallback).Ok? <==>
              HasMarker(buf[..length]) || 0 <= fallback <= length
  {
  }

  /**
   * A packet without a marker that is shorter than the fallback offset, for
   * instance any packet shorter than 130 bytes with the default offset,
   * makes `copyOfRange` throw `IllegalArgumentException`.
   */
  lemma ShortPacketThrows(buf: seq<byte>, length: int, fallback: int)
    requires 0 <= length <= |buf|
    requires !HasMarker(buf[..length]) && fallback > length
    ensures ExtractJpeg(buf, length, fallback) == Throws(IllegalArgumentException)
  {
  }

  /** A packet shorter than two more bytes than the first offset never holds a marker in its window. */
  lemma ShortPacketHasNoMarker(p: seq<byte>)
    requires |p| <= HEADER_LENGTH + 1
    ensures !HasMarker(p)
  {
  }

  /**
   * With a fallback offset that is not negative, the only way the copy can
   * fail is `IllegalArgumentException`, the start lying past the length.
   */
  lemma ExtractJpegOnlyThrowsIllegalArgument(buf: seq<byte>, length: int, fallback: int)
    requires 0 <= length <= |buf| && 0 <= fallback
    ensures ExtractJpeg(buf, length, fallback).Throws? ==>
              ExtractJpeg(buf, length, fallback).exception == IllegalArgumentException
  {
  }

  /**
   * A successful copy is exactly the received bytes from the start offset
   * on, `length - start` of them.
   */
  lemma ExtractJpegContents(buf: seq<byte>, length: int, fallback: int)
    requires 0 <= length <= |buf|
    requires ExtractJpeg(buf, length, fallback).Ok?
    ensures var start := ImageDataStart(buf[..length], fallback);
            && 0 <= start <= length
            && ExtractJpeg(buf, length, fallback).value == buf[start..length]
            && |ExtractJpeg(buf, length, fallback).value| == length - start
  {
    var start := ImageDataStart(buf[..length], fallback);
    CopyOfRangeInBounds(buf, start, length);
  }

  /** When the window holds the marker, the image bytes begin with `FF D8`. */
  lemma ExtractJpegStartsWithMarker(buf: seq<byte>, length: int, fallback: int)
    requires 0 <= length <= |buf|
    requires HasMarker(buf[..length])
    ensures ExtractJpeg(buf, length, fallback).Ok?
    ensures |ExtractJpeg(buf, length, fallback).value| >= 2
    ensures ExtractJpeg(buf, length, fallback).value[0] == SOI_FIRST
    ensures ExtractJpeg(buf, length, fallback).value[1] == SOI_SECOND
  {
    ExtractJpegContents(buf, length, fallback);
  }

  /**
   * Bytes of the buffer past the received length, left over from earlier
   * packets, affect neither the start offset nor the image bytes.
   */
  lemma StaleBytesIgnored(buf1: seq<byte>, buf2: seq<byte>, length: int, fallback: int)
    requires 0 <= length <= |buf1| && length <= |buf2|
    requires buf1[..length] == buf2[..length]
    ensures ExtractJpeg(buf1, length, fallback) == ExtractJpeg(buf2, length, fallback)
  {
    var start := ImageDataStart(buf1[..length], fallback);
    if 0 <= start <= length {
      CopyOfRangeInBounds(buf1, start, length);
      CopyOfRangeInBounds(buf2, start, length);
      assert buf1[start..length] == buf1[..length][start..];
      assert buf2[start..length] == buf2[..length][start..];
    }
  }
}
