/**
  Integer arithmetic as JavaScript performs it on the whole numbers the timer
  handles. Dafny's `/` and `%` are Euclidean; JavaScript's `%` truncates toward
  zero, and a zero divisor gives NaN.
*/
module JsNumber {
  import opened Wrappers

  function Abs(x: int): nat
  {
    if x < 0 then -x else x
  }

  /** The remainder `a % b` of JavaScript: it differs from `a` by a multiple
      of `b`, takes the sign of the dividend and is smaller in magnitude than
      the divisor, which fixes it; it is zero exactly when `b` divides `a` and
      agrees with the Euclidean remainder on non-negative operands. `a % 0` is
      NaN, here `None`. */
  function JsRem(a: int, b: int): (r: Option<int>)
    ensures r.None? <==> b == 0
    ensures r.Some? ==> (a - r.value) % b == 0
    ensures r.Some? ==> Abs(r.value) < Abs(b)
    ensures r.Some? && a >= 0 ==> r.value >= 0
    ensures r.Some? && a < 0 ==> r.value <= 0
    ensures r.Some? ==> (r.value == 0 <==> a % b == 0)
    ensures r.Some? && a >= 0 && b > 0 ==> r.value == a % b
  {
    if b == 0 then None
    else
      var m := Abs(a) % Abs(b);
      DividesIfAbsDivides(a, b);
      AbsDividesIfDivides(a, b);
      RemainderLeavesMultiple(a, b);
      Some(if a < 0 then -m else m)
  }

  /** `Math.floor(a / b)` for a positive divisor: the largest integer whose
      multiple of `b` does not exceed `a`. */
  function FloorQuotient(a: int, b: int): (q: int)
    requires b > 0
    ensures q * b <= a < (q + 1) * b
  {
    a / b
  }

  // If `b` divides `a`, then |b| divides |a|.
  lemma AbsDividesIfDivides(a: int, b: int)
    requires b != 0
    ensures a % b == 0 ==> Abs(a) % Abs(b) == 0
  {
    if a % b == 0 {
      var q := a / b;
      assert a == b * q;
      AbsProduct(b, q);
      DivisionUnique(Abs(a), Abs(b), Abs(q), 0);
    }
  }

  // If |b| divides |a|, then `b` divides `a`.
  lemma DividesIfAbsDivides(a: int, b: int)
    requires b != 0
    ensures Abs(a) % Abs(b) == 0 ==> a % b == 0
  {
    if Abs(a) % Abs(b) == 0 {
      var k := Abs(a) / Abs(b);
      assert Abs(a) == Abs(b) * k;
      var q := if (a < 0) == (b < 0) then k else -k;
      AbsProduct(b, q);
      assert a == b * q;
      DivisionUnique(a, b, q, 0);
    }
  }

  // Taking away the truncated remainder leaves a multiple of the divisor.
  lemma RemainderLeavesMultiple(a: int, b: int)
    requires b != 0
    ensures var m := Abs(a) % Abs(b); (a - (if a < 0 then -m else m)) % b == 0
  {
    var A: int, B: int := Abs(a), Abs(b);
    var m: int := A % B;
    var k: int := A / B;
    assert A == B * k + m;
    assert k >= 0;
    if k > 0 {
      MulAtLeast(k, B);
    }
    var d: int := a - (if a < 0 then -m else m);
    if a < 0 {
      assert d == -(B * k);
    } else {
      assert d == B * k;
    }
    assert Abs(d) == B * k;
    DivisionUnique(Abs(d), B, k, 0);
    DividesIfAbsDivides(d, b);
  }

  lemma AbsProduct(x: int, y: int)
    ensures Abs(x * y) == Abs(x) * Abs(y)
  {
    if x < 0 && y >= 0 {
      assert x * y == -((-x) * y);
    } else if x >= 0 && y < 0 {
      assert x * y == -(x * (-y));
    } else if x < 0 && y < 0 {
      assert x * y == (-x) * (-y);
    }
  }

  lemma MulAtLeast(k: nat, d: nat)
    requires k >= 1
    ensures k * d >= d
  {
    if k > 1 {
      MulAtLeast(k - 1, d);
      assert k * d == (k - 1) * d + d;
    }
  }

  /** Euclidean quotient and remainder are unique. */
  lemma DivisionUnique(n: int, d: int, q: int, r: int)
    requires d != 0 && n == d * q + r && 0 <= r < Abs(d)
    ensures n / d == q && n % d == r
  {
    var q', r' := n / d, n % d;
    assert n == d * q' + r';
    if q' != q {
      assert d * (q' - q) == r - r' by {
        assert d * (q' - q) == d * q' - d * q;
      }
      AbsProduct(d, q' - q);
      MulAtLeast(Abs(q' - q), Abs(d));
      assert false;
    }
  }
}
