/** The few pieces of the Java platform that the audit engine relies on:
    nullable references, checked exceptions as results, 64-bit and 32-bit
    integers, Number.longValue, Long.hashCode, Objects.equals and
    Objects.toString. */
module JavaLang {

  /** A nullable reference: None stands for Java's null. */
  datatype Option<+T> = None | Some(value: T)

  /** The value of a computation that may throw. */
  datatype Result<+T, +E> = Ok(value: T) | Err(error: E)

  const TWO_32: int := 0x1_0000_0000
  const TWO_64: int := 0x1_0000_0000_0000_0000

  /** Java's primitive long. */
  type long = x: int | -0x8000_0000_0000_0000 <= x < 0x8000_0000_0000_0000

  /** Java's primitive int. */
  type int32 = x: int | -0x8000_0000 <= x < 0x8000_0000

  /** Number.longValue() of an integral Number (Integer, Long, BigInteger, ...):
      the low-order 64 bits of the value read as two's complement. */
  function LongValue(n: int): (r: long)
    ensures (r - n) % TWO_64 == 0
    ensures -0x8000_0000_0000_0000 <= n < 0x8000_0000_0000_0000 ==> r == n
  {
    var u := n % TWO_64;
    if u < 0x8000_0000_0000_0000 then u else u - TWO_64
  }

  /** 2 to the power n. */
  function Pow2(n: nat): nat
  {
    if n == 0 then 1 else 2 * Pow2(n - 1)
  }

  lemma Pow2Of32()
    ensures Pow2(32) == TWO_32
  {
    assert Pow2(8) == 0x100;
    assert Pow2(16) == 0x1_0000;
    assert Pow2(24) == 0x100_0000;
  }

  /** The bitwise exclusive or of the low n bits of a and b. */
  function Xor(a: nat, b: nat, n: nat): (r: nat)
    ensures r < Pow2(n)
  {
    if n == 0 then 0
    else (if a % 2 == b % 2 then 0 else 1) + 2 * Xor(a / 2, b / 2, n - 1)
  }

  lemma {:induction false} XorZero(a: nat, n: nat)
    requires a < Pow2(n)
    ensures Xor(a, 0, n) == a
  {
    if n > 0 { XorZero(a / 2, n - 1); }
  }

  lemma {:induction false} XorAllOnes(a: nat, n: nat)
    requires a < Pow2(n)
    ensures Xor(a, Pow2(n) - 1, n) == Pow2(n) - 1 - a
  {
    if n > 0 { XorAllOnes(a / 2, n - 1); }
  }

  /** Long.hashCode(): (int)(value ^ (value >>> 32)), that is the exclusive or
      of the low and the high 32-bit halves of the value, read as a signed int. */
  function LongHashCode(v: long): int32
  {
    var u := v % TWO_64;
    var x := Xor(u % TWO_32, u / TWO_32, 32);
    Pow2Of32();
    if x < 0x8000_0000 then x else x - TWO_32
  }

  /** A long that fits in an int hashes to itself when it is non-negative and
      to its bitwise complement when it is negative. */
  lemma LongHashCodeOfInt(v: long)
    requires -0x8000_0000 <= v < 0x8000_0000
    ensures 0 <= v ==> LongHashCode(v) == v
    ensures v < 0 ==> LongHashCode(v) == -1 - v
  {
    Pow2Of32();
    var u := v % TWO_64;
    if 0 <= v {
      assert u % TWO_32 == v && u / TWO_32 == 0;
      XorZero(v, 32);
    } else {
      assert u == v + TWO_64;
      assert u % TWO_32 == v + TWO_32 && u / TWO_32 == TWO_32 - 1;
      XorAllOnes(v + TWO_32, 32);
    }
  }

  /** Objects.equals(a, b): both null, or both non-null and equal by equals();
      a value's equals() is taken to be structural equality. */
  function ObjectsEquals<V(==)>(a: Option<V>, b: Option<V>): (r: bool)
    ensures r <==> a == b
  {
    match a
    case None => b.None?
    case Some(x) => b.Some? && x == b.value
  }

  /** Objects.toString(o, nullDefault): o.toString() for a non-null o, the
      default otherwise; toString itself is the parameter toStr. */
  function ObjectsToString<V>(o: Option<V>, toStr: V -> string, nullDefault: Option<string>): (r: Option<string>)
    ensures o.None? ==> r == nullDefault
    ensures o.Some? ==> r == Some(toStr(o.value))
  {
    match o
    case None => nullDefault
    case Some(x) => Some(toStr(x))
  }
}
