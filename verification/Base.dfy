/** Small shared vocabulary: an optional value and the arithmetic of a 32-bit `int`. */
module Base {

  datatype Option<+T> = None | Some(value: T) {
    predicate IsFailure() { None? }

    function PropagateFailure<U>(): Option<U>
      requires None?
    {
      None
    }

    function Extract(): T
      requires Some?
    {
      value
    }
  }

  const INT_MIN := -0x8000_0000
  const INT_MAX := 0x7fff_ffff

  predicate Fits(n: int) {
    INT_MIN <= n <= INT_MAX
  }

  /** Two's complement reduction, the meaning of an LLVM add, sub or mul without `nsw`. */
  function Wrap(n: int): (r: int)
    ensures Fits(r)
    ensures Fits(n) ==> r == n
  {
    (n - INT_MIN) % 0x1_0000_0000 + INT_MIN
  }

  /** Division truncating toward zero, as in C++ and LLVM. */
  function Quot(a: int, b: int): int
    requires b != 0
  {
    if a >= 0 then a / b else -((-a) / b)
  }

  /** The remainder that goes with `Quot`: it takes the sign of the dividend. */
  function Rem(a: int, b: int): int
    requires b != 0
  {
    if a >= 0 then a % b else -((-a) % b)
  }

  /** The only multiples of 2^32 away from n that an `int` can hold. */
  lemma WrapIsModular(n: int, r: int)
    ensures r == Wrap(n) <==> -0x8000_0000 <= r <= 0x7fff_ffff && (n - r) % 0x1_0000_0000 == 0
  {
  }

  /** Quotient and remainder as C++ defines them: the remainder is smaller than the divisor and takes the sign of the
      dividend. */
  predicate Truncates(a: int, b: int, q: int, r: int) {
    && a == b * q + r
    && (if b > 0 then -b < r < b else b < r < -b)
    && (r > 0 ==> a > 0) && (r < 0 ==> a < 0)
  }

  /** There is just one such pair, and it is what `Quot` and `Rem` give. */
  lemma DivisionTruncates(a: int, b: int, q: int, r: int)
    requires b != 0
    ensures Truncates(a, b, q, r) <==> q == Quot(a, b) && r == Rem(a, b)
  {
    QuotRem(a, b);
    if Truncates(a, b, q, r) { TruncatesOnce(a, b, q, r, Quot(a, b), Rem(a, b)); }
  }

  lemma QuotRem(a: int, b: int)
    requires b != 0
    ensures Truncates(a, b, Quot(a, b), Rem(a, b))
  {
    if a >= 0 {
      Divided(a, b);
    } else {
      Divided(-a, b);
      NegatedProduct(b, (-a) / b);
    }
  }

  lemma Divided(n: nat, b: int)
    requires b != 0
    ensures n == b * (n / b) + n % b && 0 <= n % b < if b > 0 then b else -b
    ensures n == 0 ==> n % b == 0
  {
    if n == 0 { assert 0 % b == 0; }
  }

  lemma TruncatesOnce(a: int, b: int, q: int, r: int, q1: int, r1: int)
    requires b != 0 && Truncates(a, b, q, r) && Truncates(a, b, q1, r1)
    ensures q == q1 && r == r1
  {
    var c, d := if b > 0 then b else -b, if b > 0 then q - q1 else q1 - q;
    assert c * d == b * q - b * q1 == r1 - r;
    MultipleIsLarge(c, d);
  }

  lemma MultipleIsLarge(c: int, d: int)
    requires c > 0
    ensures d > 0 ==> c * d >= c
    ensures d < 0 ==> c * d <= -c
  {
    if d > 0 {
      assert c * d == c + c * (d - 1);
      ProductNotNegative(c, d - 1);
    } else if d < 0 {
      assert c * d == -c - c * (-1 - d);
      ProductNotNegative(c, -1 - d);
    }
  }

  lemma ProductNotNegative(x: nat, y: nat)
    ensures x * y >= 0
  {
  }

  lemma NegatedProduct(x: int, y: int)
    ensures x * -y == -(x * y)
  {
  }
}
