/**
 * The few pieces of Java library behaviour the segmenter depends on:
 * nullable references, 32-bit `int` arithmetic and the hash functions of
 * `String` and `Objects.hash`.
 */
module JavaUtil {

  /** A Java reference that may be null: a boxed `Integer`/`Double`, or an `Optional`. */
  datatype Option<T> = None | Some(value: T)

  const TwoTo31: int := 0x8000_0000
  const TwoTo32: int := 0x1_0000_0000

  /** Java `int` range. */
  predicate IsInt32(x: int) {
    -TwoTo31 <= x < TwoTo31
  }

  /** Two's-complement wrap-around of an exact integer into the `int` range. */
  function Wrap32(x: int): (r: int)
    ensures IsInt32(r)
    ensures (r - x) % TwoTo32 == 0
    ensures IsInt32(x) ==> r == x
  {
    (x + TwoTo31) % TwoTo32 - TwoTo31
  }

  /** One step `31 * h + e` of `Arrays.hashCode` / `String.hashCode`, in `int` arithmetic. */
  function HashStep(h: int, e: int): (r: int)
    ensures IsInt32(r)
  {
    Wrap32(31 * h + e)
  }

  /** `String.hashCode()`: s[0]*31^(n-1) + ... + s[n-1], computed left to right in `int`. */
  function StringHash(s: string): (r: int)
    ensures IsInt32(r)
  {
    if s == [] then 0 else HashStep(StringHash(s[..|s| - 1]), s[|s| - 1] as int)
  }

  /** `Objects.hashCode` of an `Optional<Integer>`: the value's hash, or 0 when empty. */
  function OptionalIntHash(o: Option<int>): int {
    match o
    case None => 0
    case Some(v) => Wrap32(v)
  }
}
