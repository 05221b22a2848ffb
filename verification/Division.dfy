/** Multiplication and division by amounts that are not constants. */
module Division {

  lemma {:induction false} MulStep(a: nat, b: nat, d: nat)
    requires a > b
    ensures a * d >= b * d + d
  {
    assert a * d == (a - 1) * d + d;
    if a > b + 1 { MulStep(a - 1, b, d); }
  }

  lemma DivUnique(x: nat, d: nat, q: nat, r: nat)
    requires d > 0 && x == q * d + r && r < d
    ensures x / d == q && x % d == r
  {
    var y := x / d;
    assert x == y * d + x % d && 0 <= x % d < d;
    if y > q { MulStep(y, q, d); }
    if y < q { MulStep(q, y, d); }
  }
}
