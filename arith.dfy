/** Facts about integer multiplication and floor division that the solver does
    not find on its own; the layout geometry uses them. */
module Arith {

  /** `Math.min` on integers. */
  function Min(a: int, b: int): int {
    if a <= b then a else b
  }

  lemma {:induction false} MulMono(a: int, b: int, c: nat)
    requires a <= b
    ensures a * c <= b * c
  {
    if c > 0 {
      MulMono(a, b, c - 1);
      assert a * c == a * (c - 1) + a;
      assert b * c == b * (c - 1) + b;
    }
  }

  lemma DivMod(n: int, b: int)
    requires b > 0
    ensures n == (n / b) * b + n % b && 0 <= n % b < b
  {
  }

  /** For `b > 0`: `a * b <= n` exactly when `a <= n / b` (floor division). */
  lemma MulLeIffLeDiv(a: int, b: int, n: int)
    requires b > 0
    ensures a * b <= n <==> a <= n / b
  {
    var q := n / b;
    DivMod(n, b);
    if a <= q {
      MulMono(a, q, b);
    } else {
      MulMono(q + 1, a, b);
      assert (q + 1) * b == q * b + b;
    }
  }

  lemma MultipleMod(q: int, g: int)
    requires g > 0
    ensures (q * g) % g == 0 && (q * g) / g == q
  {
    var d := (q * g) / g;
    DivMod(q * g, g);
    if d < q { MulMono(d + 1, q, g); }
    else if d > q { MulMono(q + 1, d, g); }
  }
  /** Floor division and its remainder are determined by the defining equation. */
  lemma DivUnique(n: int, b: int, q: int, r: int)
    requires b > 0 && 0 <= r < b && n == q * b + r
    ensures n / b == q && n % b == r
  {
    assert (q + 1) * b == q * b + b;
    MulLeIffLeDiv(q, b, n);
    MulLeIffLeDiv(q + 1, b, n);
    DivMod(n, b);
  }

  /** Adding whole multiples of `b` leaves the remainder alone. */
  lemma ModOffset(a: int, k: int, b: int)
    requires b > 0
    ensures (a + k * b) % b == a % b
  {
    DivMod(a, b);
    assert a + k * b == (a / b + k) * b + a % b;
    DivUnique(a + k * b, b, a / b + k, a % b);
  }

  /** `floor((a + 1) / b)` exceeds `floor(a / b)` exactly when `b` divides `a + 1`. */
  lemma FloorStep(a: int, b: int)
    requires b > 0
    ensures (a + 1) / b - a / b == (if (a + 1) % b == 0 then 1 else 0)
  {
    var q, r := a / b, a % b;
    DivMod(a, b);
    if r < b - 1 {
      DivUnique(a + 1, b, q, r + 1);
    } else {
      assert a + 1 == (q + 1) * b;
      DivUnique(a + 1, b, q + 1, 0);
    }
  }
}
