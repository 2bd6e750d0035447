/** The part of an OpenCV matrix the pipeline relies on: its size, its element
    type and its bytes, stored row after row with the channels of an element
    next to each other. */
module CvMat {
  import opened Bytes

  /** CV_8UC1, CV_8UC3, or any other element type. */
  datatype MatType = U8C1 | U8C3 | OtherType(code: int)
  {
    function Channels(): (n: nat)
      ensures this == U8C3 ==> n == 3
      ensures this != U8C3 ==> n == 1
    {
      if this == U8C3 then 3 else 1
    }
  }

  datatype Mat = Mat(rows: nat, cols: nat, kind: MatType, data: seq<Byte>)
  {
    /** The bytes are exactly rows * cols elements. */
    predicate Valid()
    {
      |data| == rows * cols * kind.Channels()
    }

    /** empty(): no elements. */
    predicate Empty()
    {
      rows == 0 || cols == 0
    }

    /** size() == other.size(). */
    predicate SameSize(other: Mat)
    {
      rows == other.rows && cols == other.cols
    }
  }

  /** A matrix that was never created, as the pipeline's locals start out. */
  const NO_MAT: Mat := Mat(0, 0, U8C1, [])
}
