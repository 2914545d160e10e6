/** Lattice paths, the numbers in which the login throttle's bounds come out. */
module LatticePaths {

  /** Monotone paths across an a by b grid: the binomial coefficient (a + b over a). */
  function Paths(a: nat, b: nat): (n: nat)
    ensures n >= 1
    decreases a + b
  {
    if a == 0 || b == 0 then 1 else Paths(a - 1, b) + Paths(a, b - 1)
  }

  function Factorial(n: nat): (f: nat)
    ensures f >= 1
  {
    if n == 0 then 1 else n * Factorial(n - 1)
  }

  /** Paths(a, b) == (a + b)! / (a! * b!) */
  lemma {:induction false} PathsAreBinomials(a: nat, b: nat)
    ensures Paths(a, b) * (Factorial(a) * Factorial(b)) == Factorial(a + b)
    decreases a + b
  {
    if a > 0 && b > 0 {
      PathsAreBinomials(a - 1, b);
      PathsAreBinomials(a, b - 1);
      Split(Paths(a - 1, b), Paths(a, b - 1), a, b, Factorial(a - 1), Factorial(b - 1), Factorial(a + b - 1));
    }
  }

  lemma Split(x: nat, y: nat, a: nat, b: nat, f: nat, g: nat, h: nat)
    requires x * (f * (b * g)) == h && y * ((a * f) * g) == h
    ensures (x + y) * ((a * f) * (b * g)) == (a + b) * h
  {
    assert x * ((a * f) * (b * g)) == a * (x * (f * (b * g)));
    assert y * ((a * f) * (b * g)) == b * (y * ((a * f) * g));
  }

  /** What one more column adds. */
  function Rise(t: nat, j: nat): int { Paths(t, j + 1) - Paths(t, j) }

  /** The rises of t over columns 1..j add up to this. */
  function Rises(t: nat, j: nat): int { Paths(t, j + 1) - 1 - t }

  lemma {:induction false} NarrowPaths(t: nat)
    ensures Paths(t, 1) == t + 1 && Paths(1, t) == t + 1
  {
    if t > 0 { NarrowPaths(t - 1); }
  }

  lemma RiseStep(t: nat, j: nat)
    ensures Rise(t + 1, j) == Rise(t, j) + Paths(t, j)
  {
  }

  lemma {:induction false} RiseMonotone(t: nat, u: nat, j: nat)
    requires t <= u
    ensures t <= Rise(t, j) <= Rise(u, j)
    decreases u
  {
    if t < u {
      RiseMonotone(t, u - 1, j);
      RiseStep(u - 1, j);
    } else if t > 0 {
      RiseMonotone(t - 1, t - 1, j);
      RiseStep(t - 1, j);
    }
  }

  lemma {:induction false} PathsMonotone(t: nat, i: nat, j: nat)
    requires i <= j
    ensures Paths(t, i) <= Paths(t, j)
  {
    if i < j {
      PathsMonotone(t, i, j - 1);
      RiseMonotone(t, t, j - 1);
    }
  }

  /** Two rows and two columns are where the path count outgrows the sum of the sides. */
  lemma {:induction false} PathsOutgrowSum(a: nat, b: nat)
    requires a >= 1 && b >= 1
    ensures Paths(a, b) >= a + b
    ensures Paths(a, b) == a + b <==> a == 1 || b == 1
    decreases a + b
  {
    NarrowPaths(a);
    NarrowPaths(b);
    if a >= 2 && b >= 2 {
      PathsOutgrowSum(a - 1, b);
      PathsOutgrowSum(a, b - 1);
    }
  }
}
