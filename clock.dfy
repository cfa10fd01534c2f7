/** `now_ms`: the current timestamp in microseconds, divided by 1000 with C's
    integer division.  The timestamp is a parameter instead of a clock read.
    PostgreSQL timestamps count from 2000-01-01, so earlier instants are
    negative, and there C's truncation toward zero and Dafny's Euclidean `/`
    give different answers. */
module Clock {

  /** C's `long long` / PostgreSQL's `int64`. */
  newtype int64 = x: int | -0x8000_0000_0000_0000 <= x < 0x8000_0000_0000_0000

  const MicrosPerMilli: int := 1000

  /** C's `/` on integers: the quotient truncated toward zero, written on top of
      Dafny's Euclidean division. */
  function TruncDiv(a: int, b: int): (q: int)
    requires b > 0
    ensures a >= 0 ==> q * b <= a < q * b + b
    ensures a < 0 ==> q * b - b < a <= q * b
  {
    if a >= 0 || a % b == 0 then a / b else a / b + 1
  }

  /** `micros / 1000LL`: the whole milliseconds in the timestamp, truncated
      toward zero.  The result always fits in 64 bits. */
  function NowMs(micros: int64): (millis: int64)
    ensures micros >= 0 ==> millis as int * 1000 <= micros as int < millis as int * 1000 + 1000
    ensures micros < 0 ==> millis as int * 1000 - 1000 < micros as int <= millis as int * 1000
    ensures micros < 0 ==> millis as int == -((-(micros as int)) / 1000)
  {
    var q := TruncDiv(micros as int, MicrosPerMilli);
    if micros < 0 then
      SymmetricTrunc(micros as int);
      q as int64
    else
      q as int64
  }

  /** Truncation is symmetric around zero, unlike Euclidean division. */
  lemma SymmetricTrunc(a: int)
    requires a < 0
    ensures TruncDiv(a, 1000) == -((-a) / 1000)
  {
  }

  /** The bounds in NowMs's contract pin the result down: no other integer
      satisfies them, so they define C's truncating division completely. */
  lemma NowMsCharacterized(micros: int64, m: int)
    requires micros >= 0 ==> m * 1000 <= micros as int < m * 1000 + 1000
    requires micros < 0 ==> m * 1000 - 1000 < micros as int <= m * 1000
    ensures m == NowMs(micros) as int
  {
  }

  /** Negating the timestamp negates the milliseconds: an instant before the
      epoch is converted like its mirror image after it. */
  lemma NowMsOdd(micros: int64)
    requires micros > -0x8000_0000_0000_0000
    ensures NowMs(-micros) == -NowMs(micros)
  {
  }

  /** A later timestamp never gives fewer milliseconds. */
  lemma NowMsMonotone(a: int64, b: int64)
    requires a <= b
    ensures NowMs(a) <= NowMs(b)
  {
  }

  /** The two divisions disagree on timestamps shortly before the epoch:
      one microsecond before midnight 2000-01-01 is millisecond 0 in C, while
      Euclidean division would say -1. */
  lemma TruncationDiffersFromEuclidean()
    ensures NowMs(-1) == 0
    ensures (-1) / 1000 == -1
    ensures NowMs(-1999) == -1
    ensures (-1999) / 1000 == -2
  {
  }
}
