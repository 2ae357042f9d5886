/** Division by a unit, with the few laws about products that the readers of block devices need. */
module Divisions {

  function Div(n: nat, unit: nat): (q: nat)
    requires unit > 0
  {
    n / unit
  }

  function RoundUp(n: nat, unit: nat): (q: nat)
    requires unit > 0
  {
    (n + unit - 1) / unit
  }

  lemma Monotone(a: nat, b: nat, unit: nat)
    ensures a <= b ==> a * unit <= b * unit
  {
  }

  lemma Distribute(a: nat, b: nat, unit: nat)
    ensures (a + b) * unit == a * unit + b * unit
  {
  }

  lemma Quotient(n: nat, unit: nat)
    requires unit > 0
    ensures n == Div(n, unit) * unit + n % unit
  {
  }

  lemma Floor(n: nat, unit: nat)
    requires unit > 0
    ensures Div(n, unit) * unit <= n < (Div(n, unit) + 1) * unit
  {
    Quotient(n, unit);
    Distribute(Div(n, unit), 1, unit);
  }

  lemma Divides(q: nat, r: nat, unit: nat)
    requires r < unit
    ensures (q * unit + r) / unit == q && (q * unit + r) % unit == r
  {
    var n := q * unit + r;
    var p, s := n / unit, n % unit;
    assert n == p * unit + s;
    Monotone(p + 1, q, unit);
    Monotone(q + 1, p, unit);
    assert (p + 1) * unit == p * unit + unit && (q + 1) * unit == q * unit + unit;
  }

  lemma RoundUpExact(n: nat, unit: nat)
    requires unit > 0
    ensures RoundUp(n, unit) * unit >= n && (RoundUp(n, unit) * unit == n <==> n % unit == 0)
  {
    var q, r := n / unit, n % unit;
    assert n == q * unit + r;
    if r == 0 {
      Divides(q, unit - 1, unit);
    } else {
      assert n + unit - 1 == (q + 1) * unit + (r - 1);
      Divides(q + 1, r - 1, unit);
      assert (q + 1) * unit == q * unit + unit;
    }
  }

  /** The quotient is the one number that leaves less than a unit. */
  lemma DivIs(n: nat, q: nat, unit: nat)
    requires q * unit <= n < q * unit + unit
    ensures Div(n, unit) == q && (n % unit == 0 <==> n == q * unit)
  {
    Divides(q, n - q * unit, unit);
  }

  lemma RoundUpIs(n: nat, q: nat, unit: nat)
    requires n <= q * unit < n + unit
    ensures RoundUp(n, unit) == q
  {
    DivIs(n + unit - 1, q, unit);
  }

  lemma RoundUpBounds(n: nat, unit: nat)
    requires unit > 0
    ensures n <= RoundUp(n, unit) * unit < n + unit
  {
    Floor(n + unit - 1, unit);
    Distribute(RoundUp(n, unit), 1, unit);
  }
}
