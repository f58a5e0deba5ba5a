/** Vocabulary shared by the telemetry model: optional rows, run-flag rows and PHP's integer cast of a quotient. */
module Common {

  /** A row that a query may or may not have found. */
  datatype Option<+T> = None | Some(value: T)

  /** One tag-9 row: its timestamp and `values[0]`, the run flag (1 running, 0 stopped). */
  datatype RunSample = RunSample(timestamp: int, flag: int)

  /** The hour the controller divides timestamps by. */
  const SecondsPerHour: int := 3600

  function Abs(x: int): nat
  {
    if x < 0 then -x else x
  }

  /**
   * PHP `(int)($a / $b)`: the quotient rounded toward zero. Dafny's own `/`
   * is Euclidean, so the two differ for a negative dividend. Stated by the
   * remainder it leaves: smaller than the divisor in size and of the sign
   * of the dividend.
   */
  function TruncDiv(a: int, b: int): (q: int)
    requires b != 0
    ensures Abs(a - q * b) < Abs(b)
    ensures a >= 0 ==> a - q * b >= 0
    ensures a <= 0 ==> a - q * b <= 0
  {
    if a >= 0 then
      (if b > 0 then a / b else -(a / -b))
    else
      (if b > 0 then -((-a) / b) else (-a) / (-b))
  }

  /** For a natural dividend and a positive divisor the two divisions agree. */
  lemma TruncDivOfNatural(a: int, b: int)
    requires a >= 0 && b > 0
    ensures TruncDiv(a, b) == a / b
  {
  }

  /**
   * A quotient rounded toward zero stays between two bounds when the
   * dividend lies between those bounds times the divisor.
   */
  lemma TruncDivBetween(a: int, n: int, lo: int, hi: int)
    requires n > 0
    requires lo * n <= a <= hi * n
    ensures lo <= TruncDiv(a, n) <= hi
  {
    QuotientBetween(a, n, TruncDiv(a, n), lo, hi);
  }

  /** Any q with q*n within n of a, on the side of zero, lies between the bounds. */
  lemma QuotientBetween(a: int, n: int, q: int, lo: int, hi: int)
    requires n > 0
    requires lo * n <= a <= hi * n
    requires a - n < q * n <= a || a <= q * n < a + n
    ensures lo <= q <= hi
  {
    MulMonotone(lo, q, n);
    MulMonotone(q, hi, n);
    MulMonotone(q + 1, lo, n);
    MulMonotone(hi, q - 1, n);
    assert (q + 1) * n == q * n + n;
    assert (q - 1) * n == q * n - n;
  }

  /** Multiplication by a positive factor preserves order in both directions. */
  lemma MulMonotone(x: int, y: int, n: int)
    requires n > 0
    ensures x <= y <==> x * n <= y * n
  {
    if x <= y {
      assert y * n - x * n == (y - x) * n;
    } else {
      assert x * n - y * n == (x - y) * n;
    }
  }

  /** Euclidean division is determined by its remainder: x == w*q + r with 0 <= r < w gives x / w == q. */
  lemma DivUnique(x: int, w: int, q: int, r: int)
    requires w > 0 && 0 <= r < w && x == w * q + r
    ensures x / w == q
  {
    var d := q - x / w;
    assert d * w == x % w - r;
    MulMonotone(1, d, w);
    MulMonotone(d, -1, w);
  }
}
