/** Division facts the solver does not find by itself. */
module Arith {
  lemma {:induction false} DivModUnique(x: int, a: int, q: int, r: int)
    requires 0 < a && 0 <= r < a && x == q * a + r
    ensures x / a == q && x % a == r
  {
    var d := x / a - q;
    assert x == x / a * a + x % a;
    assert d * a == r - x % a by {
      assert (x / a - q) * a == x / a * a - q * a;
    }
    if 0 < d {
      MulLe(1, d, a);
    } else if d < 0 {
      MulLe(d, -1, a);
    }
  }

  lemma MulLe(x: int, y: int, a: int)
    requires x <= y && 0 <= a
    ensures x * a <= y * a
  {
  }

  lemma Associates(a: int, b: int, c: int)
    ensures a * (b * c) == a * b * c
  {
  }

  lemma Distributes(a: int, b: int, c: int)
    ensures (a + b) * c == a * c + b * c
  {
  }

  /** Sums and differences of multiples of `a` are multiples of `a`. */
  lemma MultipleAdd(x: int, y: int, a: int)
    requires 0 < a && x % a == 0 && y % a == 0
    ensures (x + y) % a == 0
    ensures (x - y) % a == 0
  {
    assert (x / a + y / a) * a == x / a * a + y / a * a;
    DivModUnique(x + y, a, x / a + y / a, 0);
    assert (x / a - y / a) * a == x / a * a - y / a * a;
    DivModUnique(x - y, a, x / a - y / a, 0);
  }

  /** Reducing modulo a multiple of `b` first does not change the residue modulo `b`. */
  lemma ModMod(x: int, a: int, b: int)
    requires 0 < b && 0 < a && a % b == 0
    ensures x % a % b == x % b
  {
    var r := x % a;
    assert x == x / a * a + r;
    assert a == a / b * b;
    assert x / a * (a / b) * b == x / a * (a / b * b);
    assert (x / a * (a / b) + r / b) * b == x / a * (a / b) * b + r / b * b;
    DivModUnique(x, b, x / a * (a / b) + r / b, r % b);
  }
}
