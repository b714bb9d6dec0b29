/**
 * The few pieces of the Java platform that the viewer's core relies on,
 * modelled as values: the `byte` type, the exceptions the core can end in,
 * and `java.util.Arrays.copyOfRange` on byte arrays.
 */
module Java {

  /** A Java `byte`, kept as its bit pattern: the signed values -1 and -40 are 0xFF and 0xD8. */
  type byte = bv8

  /** The exceptions that the modelled code can end in. */
  datatype Exception =
    | IllegalArgumentException        // Arrays.copyOfRange with from > to
    | ArrayIndexOutOfBoundsException  // Arrays.copyOfRange with from < 0 or from > original.length
    | SocketException                 // no local address lies in the requested subnet

  /** The outcome of a Java call: a value, or the exception it throws. */
  datatype Result<+T> = Ok(value: T) | Throws(exception: Exception)

  /**
   * `Arrays.copyOfRange(original, from, to)`: a fresh array of length
   * `to - from` holding `original[from..]`, padded with zero bytes when `to`
   * lies past the end of `original`.
   */
  function CopyOfRange(original: seq<byte>, from: int, to: int): (r: Result<seq<byte>>)
    ensures r.Ok? <==> 0 <= from <= to && from <= |original|
    ensures from > to ==> r == Throws(IllegalArgumentException)
    ensures from <= to && (from < 0 || from > |original|) ==> r == Throws(ArrayIndexOutOfBoundsException)
    ensures r.Ok? ==> |r.value| == to - from
    ensures r.Ok? ==> forall i :: 0 <= i < |r.value| ==>
                        r.value[i] == if from + i < |original| then original[from + i] else 0
  {
    if from > to then Throws(IllegalArgumentException)
    else if from < 0 || from > |original| then Throws(ArrayIndexOutOfBoundsException)
    else if to <= |original| then Ok(original[from..to])
    else Ok(original[from..] + seq(to - |original|, _ => 0))
  }

  /** Within the bounds of the array, the copy is exactly the slice. */
  lemma CopyOfRangeInBounds(original: seq<byte>, from: int, to: int)
    requires 0 <= from <= to <= |original|
    ensures CopyOfRange(original, from, to) == Ok(original[from..to])
  {
  }
}
