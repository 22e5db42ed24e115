/** Small shared vocabulary: an optional value and JavaScript's integer remainder. */
module Base {

  /** A value that may be missing (JavaScript `null`/`undefined`, Python `None`). */
  datatype Option<T> = None | Some(value: T)

  /** JavaScript's `a % b` on integers: the remainder takes the sign of the dividend,
      unlike Dafny's `%`, whose remainder is never negative. */
  function JsRem(a: int, b: int): (r: int)
    requires b > 0
    ensures a >= 0 ==> 0 <= r < b
    ensures a < 0 ==> -b < r <= 0
    ensures exists q :: a == q * b + r
  {
    if a >= 0 then
      assert a == (a / b) * b + a % b;
      a % b
    else
      var q := (-a) / b;
      assert -a == q * b + (-a) % b;
      assert a == (-q) * b + -((-a) % b);
      -((-a) % b)
  }

  lemma JsRemAgreesOnNonNegative(a: int, b: int)
    requires a >= 0 && b > 0
    ensures JsRem(a, b) == a % b
  {
  }
}
