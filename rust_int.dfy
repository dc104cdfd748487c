/** Rust's integer division and remainder, which truncate toward zero
    (Dafny's `/` and `%` are Euclidean). */
module RustInt {

  function TruncDiv(a: int, b: int): (q: int)
    requires b > 0
    ensures a >= 0 ==> q == a / b
  {
    if a >= 0 then a / b else -((-a) / b)
  }

  function TruncRem(a: int, b: int): (r: int)
    requires b > 0
    ensures a == b * TruncDiv(a, b) + r
    ensures -b < r < b
    ensures a >= 0 ==> 0 <= r && r == a % b
    ensures a < 0 ==> r <= 0
  {
    a - b * TruncDiv(a, b)
  }

  /** The truncated remainder by 7 agrees with the Euclidean one up to a
      multiple of 7, so Rust's `((a % 7) + 7) % 7` is Dafny's `a % 7`. */
  lemma TruncRemNormalised7(a: int)
    ensures (TruncRem(a, 7) + 7) % 7 == a % 7
  {
    var q := TruncDiv(a, 7);
    var r := TruncRem(a, 7);
    assert a == 7 * q + r;
  }
}
