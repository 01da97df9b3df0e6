/** Minimum, products and remainders. */
module Arithmetic {
  function Min(a: int, b: int): int {
    if a < b then a else b
  }

  /** A product the solver need not open. */
  function Times(a: int, b: int): int {
    a * b
  }

  lemma SumDivides(x: nat, y: nat, g: nat)
    requires g > 0 && x % g == 0
    ensures (x + y) % g == y % g
  {
    assert x == Times(g, x / g);
    Shifted(y, g, x / g);
  }

  lemma {:induction false} Shifted(y: nat, g: nat, k: nat)
    requires g > 0
    ensures Times(g, k) >= 0 && (y + Times(g, k)) % g == y % g
  {
    TimesNext(g, k);
    hide Times;
    if k > 0 {
      Shifted(y, g, k - 1);
      OneMore(y + Times(g, k - 1), g);
    }
  }

  lemma TimesNext(g: int, k: int)
    ensures Times(g, k) == Times(g, k - 1) + g && Times(g, 0) == 0
  {
  }

  lemma OneMore(x: nat, g: nat)
    requires g > 0
    ensures (x + g) % g == x % g
  {
    var q, r := x / g, x % g;
    var q', r' := (x + g) / g, (x + g) % g;
    assert Times(g, q) + r == x && Times(g, q') + r' == x + g;
    assert Times(g, q' - q - 1) == Times(g, q') - Times(g, q) - g;
    TimesOne(g, q' - q - 1);
  }

  lemma TimesOne(g: nat, k: int)
    requires 0 - g < Times(g, k) < g
    ensures k == 0
  {
  }

  lemma Small(r: nat, g: nat)
    requires r < g
    ensures r % g == r
  {
  }

  /** A factor more makes a product larger. */
  lemma {:induction false} TimesOrder(i: nat, j: nat, d: nat)
    requires i < j
    ensures Times(i, d) + d <= Times(j, d)
  {
    assert Times(j, d) == Times(j - 1, d) + d;
    hide Times;
    if i < j - 1 { TimesOrder(i, j - 1, d); }
  }

  /** A multiple below another one is lower by at least the divisor. */
  lemma GapOfMultiples(x: nat, y: nat, g: nat)
    requires g > 0 && x % g == 0 && y % g == 0 && x < y
    ensures x + g <= y
  {
    if y < x + g {
      Small(y - x, g);
      SumDivides(x, y - x, g);
    }
  }
}
