/** The transition evaluator of the countdown solver: the four integer
    operations that combine the running result with the next number.
    Integers are unbounded, like the solver's `Int` sort, and `/` and `%`
    are Euclidean both in SMT-LIB's integer theory and in Dafny. */
module Operations {

  /** The operation tag carried by each transition between two consecutive numbers. */
  datatype Op = Add | Sub | Mul | Div

  /** `right` divides `left` with no remainder; nothing divides by zero. */
  predicate DividesExactly(left: int, right: int) {
    right != 0 && left % right == 0
  }

  /** Combines the running result `left` with the next number `right`.
      Division is applied only when it is exact and the divisor is non-zero;
      otherwise the running result passes through unchanged. */
  function Apply(op: Op, left: int, right: int): (r: int)
    ensures op == Add ==> r - right == left
    ensures op == Sub ==> r + right == left
    ensures op == Mul ==> r == left * right
    ensures op == Div && DividesExactly(left, right) ==> r * right == left
    ensures op == Div && !DividesExactly(left, right) ==> r == left
  {
    match op
    case Add => left + right
    case Sub => left - right
    case Mul => left * right
    case Div => if DividesExactly(left, right) then left / right else left
  }

  /** Dividing by zero leaves the running result as it was. */
  lemma DivByZeroKeepsLeft(left: int)
    ensures Apply(Div, left, 0) == left
  {
  }

  /** Division undoes multiplication by any non-zero number. */
  lemma MulThenDivRestores(x: int, y: int)
    requires y != 0
    ensures Apply(Div, Apply(Mul, x, y), y) == x
  {
    var p := x * y;
    assert p == x * y + 0;
    assert p % y == 0 && p / y == x by {
      DivModUnique(p, y, x, 0);
    }
  }

  /** Subtraction undoes addition. */
  lemma AddThenSubRestores(x: int, y: int)
    ensures Apply(Sub, Apply(Add, x, y), y) == x
  {
  }

  /** A Div step coincides with "no operation" exactly when the division is
      not applicable, or it is by one, or the running result is zero. */
  lemma DivIsNoOpIff(left: int, right: int)
    ensures Apply(Div, left, right) == left <==>
            !DividesExactly(left, right) || right == 1 || left == 0
  {
    if DividesExactly(left, right) {
      var q := left / right;
      assert q * right == left;
      if q == left {
        assert left * (right - 1) == 0 by {
          assert left * right == left;
        }
        ZeroProduct(left, right - 1);
      }
      if right == 1 {
        assert left == left * 1 + 0;
        DivModUnique(left, 1, left, 0);
      }
      if left == 0 {
        assert 0 == 0 * right + 0;
        DivModUnique(0, right, 0, 0);
      }
    }
  }

  /** Euclidean division has exactly one quotient and remainder. */
  lemma DivModUnique(a: int, b: int, q: int, r: int)
    requires b != 0 && a == q * b + r && 0 <= r < (if b < 0 then -b else b)
    ensures a / b == q && a % b == r
  {
    var q', r' := a / b, a % b;
    assert a == q' * b + r';
    assert (q - q') * b == r' - r;
    if q != q' {
      MulMagnitude(q - q', b);
    }
  }

  /** A non-zero multiple of `b` is at least as large as `b` in magnitude. */
  lemma MulMagnitude(k: int, b: int)
    requires k != 0 && b != 0
    ensures (if k * b < 0 then -(k * b) else k * b) >= (if b < 0 then -b else b)
  {
  }

  lemma ZeroProduct(a: int, b: int)
    requires a * b == 0
    ensures a == 0 || b == 0
  {
  }
}
