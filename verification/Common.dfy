/** Machine types, wrappers and integer-division facts shared by the exercise models. */
module Common {

  /** An unsigned 8-bit value (Rust `u8`). */
  type byte = x: int | 0 <= x < 256

  /** A signed 32-bit value (Rust `i32`). */
  type i32 = x: int | -0x8000_0000 <= x < 0x8000_0000

  const I32_MAX: i32 := 0x7fff_ffff

  /** Rust's `Option`. */
  datatype Option<+T> = None | Some(value: T)

  /** The sign of a product with a positive factor. */
  lemma MulSign(d: int, k: int)
    requires d > 0
    ensures k >= 1 ==> d * k >= d
    ensures k <= -1 ==> d * k <= -d
    ensures k > 0 <==> d * k > 0
  {
  }

  /** Euclidean division has a unique quotient and remainder. */
  lemma ModUnique(a: int, d: int, q: int, r: int)
    requires d > 0 && a == d * q + r && 0 <= r < d
    ensures a % d == r && a / d == q
  {
    var q', r' := a / d, a % d;
    assert a == d * q' + r' && 0 <= r' < d;
    assert d * (q - q') == r' - r;
    MulSign(d, q - q');
  }

  /** Shifting by a multiple of the modulus keeps the remainder. */
  lemma ModShift(a: int, d: int, k: int)
    requires d > 0
    ensures (a + d * k) % d == a % d
  {
    var q := a / d;
    assert a == d * q + a % d;
    assert a + d * k == d * (q + k) + a % d;
    ModUnique(a + d * k, d, q + k, a % d);
  }

  /** Two numbers closer than the modulus have different remainders. */
  lemma ModDistinct(i: int, j: int, d: int)
    requires d > 0 && 0 < j - i < d
    ensures i % d != j % d
  {
    var qi, qj := i / d, j / d;
    assert i == d * qi + i % d && j == d * qj + j % d;
    if i % d == j % d {
      assert j - i == d * (qj - qi);
      MulSign(d, qj - qi);
    }
  }
}
