/** Small failure-carrying datatypes shared by every module of the model. */
module Common {

  /** A value that may be absent: a null pointer, a Python None, a missing map entry. */
  datatype Option<T> = None | Some(value: T) {
    function GetOr(default: T): T {
      if Some? then value else default
    }
  }

  /** An 8-bit unsigned value, as C's `unsigned char` and Python's `bytes` elements hold. */
  newtype Byte = b: int | 0 <= b < 256

  /** The outcome of an operation that the source lets raise or abort: `Err` carries the reason. */
  datatype Result<T> = Ok(value: T) | Err(reason: string) {
    predicate IsFailure() { Err? }

    function PropagateFailure<U>(): Result<U>
      requires Err?
    {
      Err(reason)
    }

    function Extract(): T
      requires Ok?
    {
      value
    }
  }

  /**
    Integer division rounding toward zero, as C and C++ divide (Dafny's own `/`
    rounds so that the remainder is never negative).
  */
  function TruncDiv(a: int, b: int): (q: int)
    requires b != 0
    ensures a >= 0 ==> 0 <= a - q * b < Abs(b)
    ensures a < 0 ==> 0 <= q * b - a < Abs(b)
  {
    if a >= 0 && b > 0 then DivPosPos(a, b); a / b
    else if a >= 0 then DivPosNeg(a, b); -(a / -b)
    else if b > 0 then DivNegPos(a, b); -((-a) / b)
    else DivNegNeg(a, b); (-a) / (-b)
  }

  lemma DivPosPos(a: int, b: int)
    requires a >= 0 && b > 0
    ensures 0 <= a - (a / b) * b < Abs(b)
  {
  }

  lemma DivPosNeg(a: int, b: int)
    requires a >= 0 && b < 0
    ensures 0 <= a - (-(a / -b)) * b < Abs(b)
  {
    var q := a / -b;
    assert a == q * (-b) + a % (-b);
    assert (-q) * b == q * (-b);
  }

  lemma DivNegPos(a: int, b: int)
    requires a < 0 && b > 0
    ensures 0 <= (-((-a) / b)) * b - a < Abs(b)
  {
    var q := (-a) / b;
    assert -a == q * b + (-a) % b;
    assert (-q) * b == -(q * b);
  }

  lemma DivNegNeg(a: int, b: int)
    requires a < 0 && b < 0
    ensures 0 <= ((-a) / (-b)) * b - a < Abs(b)
  {
    var q := (-a) / (-b);
    assert -a == q * (-b) + (-a) % (-b);
    assert q * b == -(q * (-b));
  }

  /** On a non-negative dividend and a positive divisor the two divisions agree. */
  lemma TruncDivNonNeg(a: int, b: int)
    requires a >= 0 && b > 0
    ensures TruncDiv(a, b) == a / b && a / b >= 0
  {
    var q, r := a / b, a % b;
    assert a == q * b + r && 0 <= r < b;
    MulAtLeast(-q, b);
    assert (-q) * b == -(q * b);
  }

  function Abs(x: int): (r: int)
    ensures r >= 0 && (r == x || r == -x)
  {
    if x < 0 then -x else x
  }

  lemma MulAtLeast(k: int, n: int)
    requires n >= 0
    ensures k >= 1 ==> k * n >= n
    ensures k <= -1 ==> k * n <= -n
  {
    if k >= 1 {
      assert k * n == (k - 1) * n + n;
    } else if k <= -1 {
      assert k * n == (k + 1) * n - n;
    }
  }

  /** A multiple of `n` strictly between `-|n|` and `|n|` is zero. */
  lemma OnlyZeroMultipleInside(k: int, n: int)
    requires n != 0 && -Abs(n) < k * n < Abs(n)
    ensures k == 0
  {
    MulAtLeast(k, Abs(n));
    assert k * n == k * Abs(n) || k * n == -(k * Abs(n));
  }

  /** Truncating division undoes multiplication. */
  lemma TruncDivExact(m: int, n: int)
    requires n != 0
    ensures TruncDiv(m * n, n) == m
  {
    var p := m * n;
    var q := TruncDiv(p, n);
    var d := m - q;
    assert d * n == p - q * n;
    assert -Abs(n) < d * n < Abs(n);
    OnlyZeroMultipleInside(d, n);
  }
}
