/** Shared vocabulary of the model: bytes, optional values, points, grayscale
    images and the C conversions from floating point to integer. */
module Common {

  /** An unsigned 8-bit value (`unsigned char`, `uint8_t`, `char8_t`, C# `byte`). */
  newtype byte = x: int | 0 <= x < 256

  /** The contents of a `std::string`: its bytes, as the decoder produced
      them (UTF-8 for text, anything for binary payloads). */
  type ByteString = seq<byte>

  /** A null-able value: `None` stands for a null pointer or an absent result. */
  datatype Option<T> = None | Some(value: T)

  /** A `Point2f`; single-precision floats are modelled as exact reals. */
  datatype Point = Point(x: real, y: real)

  /** A corner list as the pipeline stores it (an N x 2 float matrix). */
  type Quad = seq<Point>

  /** A single-channel 8-bit image (`cv::Mat` of type CV_8UC1), row-major. */
  datatype RawImage = RawImage(rows: nat, cols: nat, px: seq<seq<int>>)
  {
    ghost predicate Valid() {
      && |px| == rows
      && (forall r :: 0 <= r < rows ==> |px[r]| == cols)
      && (forall r, c :: 0 <= r < rows && 0 <= c < cols ==> 0 <= px[r][c] < 256)
    }

    /** `cv::Mat::empty()`: no pixel data. */
    predicate Empty() { rows == 0 || cols == 0 }
  }

  type Image = m: RawImage | m.Valid() witness RawImage(0, 0, [])

  function Min(a: int, b: int): int { if a <= b then a else b }
  function Max(a: int, b: int): int { if a >= b then a else b }
  function MaxReal(a: real, b: real): real { if a >= b then a else b }
  function MinReal(a: real, b: real): real { if a <= b then a else b }
  function AbsReal(a: real): real { if a >= 0.0 then a else -a }

  /** `std::clamp(v, lo, hi)`, whose own precondition is `lo <= hi`. */
  function ClampReal(v: real, lo: real, hi: real): (r: real)
    requires lo <= hi
    ensures lo <= r <= hi
    ensures lo <= v <= hi ==> r == v
  {
    if v < lo then lo else if hi < v then hi else v
  }

  /** Conversion of a float to `int` in C and C++: the fraction is dropped,
      rounding toward zero. */
  function Trunc(r: real): (n: int)
    ensures r >= 0.0 ==> 0 <= n && n as real <= r < n as real + 1.0
    ensures r < 0.0 ==> n <= 0 && n as real - 1.0 < r <= n as real
  {
    if r >= 0.0 then r.Floor else -((-r).Floor)
  }

  /** Trunc never moves a value away from zero, and keeps the order of its
      arguments. */
  lemma TruncMonotone(a: real, b: real)
    requires a <= b
    ensures Trunc(a) <= Trunc(b)
  {
    if a >= 0.0 {
      assert b >= 0.0;
      assert Trunc(a) as real <= a <= b < Trunc(b) as real + 1.0;
    } else if b >= 0.0 {
    } else {
      assert Trunc(a) as real - 1.0 < a <= b <= Trunc(b) as real;
    }
  }

  /** Concatenation regroups; stated once so that proofs about concrete
      encodings need not rediscover it. */
  lemma ConcatAssoc<T>(a: seq<T>, b: seq<T>, c: seq<T>)
    ensures (a + b) + c == a + (b + c)
  {
  }
}
