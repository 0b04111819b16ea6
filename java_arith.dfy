/** The two places where a Java integer type bounds a result of the model layer. */
module JavaArith {

  const LongMin: int := -0x8000_0000_0000_0000
  const LongMax: int := 0x7fff_ffff_ffff_ffff
  const IntMin: int := -0x8000_0000
  const IntMax: int := 0x7fff_ffff

  /** Java's Math.round(double): the closest long, ties towards positive infinity,
      clamped to the range of long. */
  function MathRound(y: real): (n: int)
    ensures LongMin <= n <= LongMax
    ensures LongMin as real <= y + 0.5 < LongMax as real + 1.0 ==> y - 0.5 < n as real <= y + 0.5
  {
    var f := (y + 0.5).Floor;
    if f > LongMax then LongMax else if f < LongMin then LongMin else f
  }

  /** The value a Java int holds after counting up n times from zero. */
  function WrapInt32(n: int): (v: int)
    ensures IntMin <= v <= IntMax
    ensures IntMin <= n <= IntMax ==> v == n
  {
    (n - IntMin) % 0x1_0000_0000 + IntMin
  }

  /** Java's `x++` on an int, which wraps from IntMax to IntMin. */
  function IncInt32(x: int): (v: int)
    requires IntMin <= x <= IntMax
    ensures IntMin <= v <= IntMax
    ensures x < IntMax ==> v == x + 1
  {
    if x == IntMax then IntMin else x + 1
  }

  /** Counting up once more with Java's ++ keeps the counter equal to the wrapped count. */
  lemma IncWrapInt32(n: int)
    ensures IncInt32(WrapInt32(n)) == WrapInt32(n + 1)
  {
  }
}
