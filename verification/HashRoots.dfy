/** Where the constants of both hash functions come from: leading bits of roots of the first primes. */
module HashRoots {
  import opened Arithmetic

  /** The first 80 primes, eight to a row. */
  const PRIMES: seq<seq<nat>> := [
    [2, 3, 5, 7, 11, 13, 17, 19],
    [23, 29, 31, 37, 41, 43, 47, 53],
    [59, 61, 67, 71, 73, 79, 83, 89],
    [97, 101, 103, 107, 109, 113, 127, 131],
    [137, 139, 149, 151, 157, 163, 167, 173],
    [179, 181, 191, 193, 197, 199, 211, 223],
    [227, 229, 233, 239, 241, 251, 257, 263],
    [269, 271, 277, 281, 283, 293, 307, 311],
    [313, 317, 331, 337, 347, 349, 353, 359],
    [367, 373, 379, 383, 389, 397, 401, 409]
  ]

  function PrimeAt(i: nat, j: nat): nat
    requires i < 10 && j < 8
  {
    PRIMES[i][j]
  }

  predicate Divides(d: nat, n: nat)
    requires d > 0
  {
    n % d == 0
  }

  predicate Prime(n: nat) {
    n >= 2 && forall d :: 2 <= d < n ==> !Divides(d, n)
  }

  lemma Increasing(i: nat, j: nat)
    requires i < 10 && j < 8
    ensures j < 7 ==> PrimeAt(i, j) < PrimeAt(i, j + 1)
    ensures j == 7 && i < 9 ==> PrimeAt(i, j) < PrimeAt(i + 1, 0)
    ensures 2 <= PrimeAt(i, j) < 441
  {
  }

  lemma NoSmallDivisor(i: nat, j: nat, d: nat)
    requires i < 10 && j < 8 && 2 <= d <= 20 && d < PrimeAt(i, j)
    ensures !Divides(d, PrimeAt(i, j))
  {
  }

  lemma AtLeast(d: nat, q: nat)
    requires d > 20 && q > 20
    ensures Times(d, q) >= 441
  {
  }

  /** A divisor above 20 has a partner of at most 20. */
  lemma SmallPartner(n: nat, d: nat) returns (q: nat)
    requires 0 < n < 441 && 20 < d < n && Divides(d, n)
    ensures 2 <= q <= 20 && q < n && Divides(q, n)
  {
    q := n / d;
    assert n == Times(d, q) == Times(q, d);
    if q > 20 { AtLeast(d, q); }
    assert 2 <= q <= 20;
    hide Times;
    Shifted(0, q, d);
  }

  lemma ListedPrime(i: nat, j: nat)
    requires i < 10 && j < 8
    ensures Prime(PrimeAt(i, j))
  {
    var n := PrimeAt(i, j);
    Increasing(i, j);
    forall d | 2 <= d < n ensures !Divides(d, n) {
      if d <= 20 {
        NoSmallDivisor(i, j, d);
      } else if Divides(d, n) {
        var q := SmallPartner(n, d);
        NoSmallDivisor(i, j, q);
      }
    }
  }

  /** x is the square root of p, counted in units of 1 / scale and cut off. */
  predicate SquareRoot(p: nat, scale: nat, x: nat) {
    x * x <= p * (scale * scale) < (x + 1) * (x + 1)
  }

  predicate CubeRoot(p: nat, scale: nat, x: nat) {
    x * x * x <= p * (scale * scale * scale) < (x + 1) * (x + 1) * (x + 1)
  }

  /** The whole part of a square root. */
  function WholeSquare(p: nat): nat {
    if p < 4 then 1 else if p < 9 then 2 else if p < 16 then 3 else 4
  }

  function WholeCube(p: nat): nat {
    if p < 8 then 1 else if p < 27 then 2 else if p < 64 then 3 else if p < 125 then 4
    else if p < 216 then 5 else if p < 343 then 6 else 7
  }
}
