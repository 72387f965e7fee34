/** Shared vocabulary of the model: Java nulls, exceptions carried as values,
    Java's fixed-width integers, and the runtime class of an object. */
module Common {

  /** A Java reference that may be null: None is null. */
  datatype Option<+T> = None | Some(value: T)

  /** A computation that either returns a value or throws. */
  datatype Result<+T, +E> = Ok(value: T) | Err(error: E)

  /** A void computation that either completes or throws. */
  datatype Outcome<+E> = Pass | Fail(error: E)

  /** java.lang.IllegalArgumentException, identified by its message. */
  datatype IllegalArgument = IllegalArgument(message: string)

  /** The fully qualified name of a Java class. Class.equals is exact:
      a subclass has a different name and never matches its parent. */
  type TypeTag = string

  /** An instance of some class: its runtime class (getClass()) and its contents. */
  datatype Instance<+B> = Instance(runtimeClass: TypeTag, body: B)

  /** A LocalDateTime taken from the clock, treated as an opaque value. */
  type Timestamp = int

  const INT_MIN: int := -0x8000_0000
  const INT_MAX: int := 0x7FFF_FFFF
  const LONG_MIN: int := -0x8000_0000_0000_0000
  const LONG_MAX: int := 0x7FFF_FFFF_FFFF_FFFF

  /** Java int. */
  type Int32 = x: int | INT_MIN <= x <= INT_MAX

  /** Java long. */
  type Int64 = x: int | LONG_MIN <= x <= LONG_MAX

  /** Java int arithmetic: the mathematical result reduced modulo 2^32 into the int range. */
  function Wrap32(x: int): (r: Int32)
    ensures INT_MIN <= x <= INT_MAX ==> r == x
    ensures (x - r) % 0x1_0000_0000 == 0
  {
    var m := (x - INT_MIN) % 0x1_0000_0000;
    assert x - (m + INT_MIN) == ((x - INT_MIN) / 0x1_0000_0000) * 0x1_0000_0000;
    m + INT_MIN
  }

  /** Element-wise conversion of a list, keeping its order (stream().map(f).toList()). */
  function MapSeq<A, B>(s: seq<A>, f: A -> B): (r: seq<B>)
    ensures |r| == |s|
    ensures forall i :: 0 <= i < |s| ==> r[i] == f(s[i])
  {
    seq(|s|, i requires 0 <= i < |s| => f(s[i]))
  }
}
